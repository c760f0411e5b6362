/**
 * The handful of Rust `str` operations the command-execution engine relies on, with the
 * standard library's exact semantics: `trim`, `strip_prefix`/`strip_suffix`, `splitn`,
 * `join`, `lines`, `replace`, `split(..).next()`, `u32::from_str` and `{}` formatting of
 * an unsigned integer.
 */
module StdStr {
  import opened Wrappers

  const U32_LIMIT: int := 0x1_0000_0000

  /** Rust's `u32`. */
  type U32 = x: int | 0 <= x < U32_LIMIT

  // ---------------------------------------------------------------- whitespace and trim

  /** Unicode White_Space, the class `char::is_whitespace` and therefore `str::trim` use. */
  predicate IsWhitespace(c: char) {
    || c == ' ' || '\t' <= c <= '\r' || c == '\U{85}' || c == '\U{A0}' || c == '\U{1680}'
    || '\U{2000}' <= c <= '\U{200A}' || c == '\U{2028}' || c == '\U{2029}' || c == '\U{202F}'
    || c == '\U{205F}' || c == '\U{3000}'
  }

  function TrimStart(s: string): (r: string)
    ensures |r| <= |s| && r == s[|s| - |r|..]
    ensures forall i | 0 <= i < |s| - |r| :: IsWhitespace(s[i])
    ensures r == [] || !IsWhitespace(r[0])
  {
    if s != [] && IsWhitespace(s[0]) then
      var r := TrimStart(s[1..]);
      assert s[1..][|s| - 1 - |r|..] == s[|s| - |r|..];
      assert forall i | 1 <= i < |s| - |r| :: s[i] == s[1..][i - 1];
      r
    else s
  }

  function TrimEnd(s: string): (r: string)
    ensures |r| <= |s| && r == s[..|r|]
    ensures forall i | |r| <= i < |s| :: IsWhitespace(s[i])
    ensures r == [] || !IsWhitespace(r[|r| - 1])
  {
    if s != [] && IsWhitespace(s[|s| - 1]) then
      var r := TrimEnd(s[..|s| - 1]);
      assert forall i | |r| <= i < |s| - 1 :: s[..|s| - 1][i] == s[i];
      r
    else s
  }

  /** `str::trim`: the longest slice with no leading or trailing whitespace. */
  function Trim(s: string): (r: string)
    ensures |r| <= |s|
    ensures r == [] || (!IsWhitespace(r[0]) && !IsWhitespace(r[|r| - 1]))
    ensures (s == [] || (!IsWhitespace(s[0]) && !IsWhitespace(s[|s| - 1]))) ==> r == s
    ensures (forall i | 0 <= i < |s| :: IsWhitespace(s[i])) ==> r == []
  {
    TrimEnd(TrimStart(s))
  }

  // ---------------------------------------------------------------- prefixes and suffixes

  /** `str::strip_prefix` with a `char` pattern. */
  function StripPrefix(s: string, c: char): (r: Option<string>)
    ensures r.Some? <==> (s != [] && s[0] == c)
    ensures r.Some? ==> s == [c] + r.value
  {
    if s != [] && s[0] == c then Some(s[1..]) else None
  }

  /** `str::strip_suffix` with a `char` pattern. */
  function StripSuffix(s: string, c: char): (r: Option<string>)
    ensures r.Some? <==> (s != [] && s[|s| - 1] == c)
    ensures r.Some? ==> s == r.value + [c]
  {
    if s != [] && s[|s| - 1] == c then Some(s[..|s| - 1]) else None
  }

  /** `str::strip_suffix` with a `&str` pattern. */
  function StripSuffixStr(s: string, suffix: string): (r: Option<string>)
    ensures r.Some? <==> (|suffix| <= |s| && s[|s| - |suffix|..] == suffix)
    ensures r.Some? ==> s == r.value + suffix
  {
    if |suffix| <= |s| && s[|s| - |suffix|..] == suffix then Some(s[..|s| - |suffix|]) else None
  }

  // ---------------------------------------------------------------- splitting and joining

  /** The index of the first `c` in `s`. */
  function IndexOf(s: string, c: char): (r: Option<nat>)
    ensures r.Some? ==> r.value < |s| && s[r.value] == c && c !in s[..r.value]
    ensures r.None? ==> c !in s
  {
    if s == [] then None
    else if s[0] == c then Some(0)
    else match IndexOf(s[1..], c)
      case None => None
      case Some(i) =>
        assert s[..i + 1] == [s[0]] + s[1..][..i];
        Some(i + 1)
  }

  /**
   * `str::splitn(n, sep)` for a `char` separator: at most `n` pieces, the last holding the
   * unsplit remainder; a string without `sep` (the empty one too) gives one piece.
   */
  function SplitN(s: string, n: nat, sep: char): (r: seq<string>)
    requires n >= 1
    ensures 1 <= |r| <= n
    ensures forall i | 0 <= i < |r| - 1 :: sep !in r[i]
    decreases n
  {
    if n == 1 then [s]
    else match IndexOf(s, sep)
      case None => [s]
      case Some(i) => [s[..i]] + SplitN(s[i + 1..], n - 1, sep)
  }

  /** The first `c` is found whatever follows it. */
  lemma {:induction false} IndexOfFirst(s: string, c: char, i: nat)
    requires i < |s| && s[i] == c && c !in s[..i]
    ensures IndexOf(s, c) == Some(i)
  {
    if i > 0 {
      assert s[0] in s[..i];
      assert s[1..][..i - 1] == s[1..i];
      assert forall x | x in s[1..i] :: x in s[..i];
      IndexOfFirst(s[1..], c, i - 1);
    }
  }

  /** A string without the separator is one piece. */
  lemma SplitNWhole(s: string, n: nat, sep: char)
    requires n >= 1 && sep !in s
    ensures SplitN(s, n, sep) == [s]
  {
  }

  /** The first separator ends the first piece; the rest is split into `n - 1` pieces. */
  lemma SplitNFirst(a: string, b: string, n: nat, sep: char)
    requires n >= 2 && sep !in a
    ensures SplitN(a + [sep] + b, n, sep) == [a] + SplitN(b, n - 1, sep)
  {
    var s := a + [sep] + b;
    assert s[..|a|] == a;
    IndexOfFirst(s, sep, |a|);
    assert s[|a| + 1..] == b;
  }

  /** `[&str]::join(sep)`. */
  function Join(parts: seq<string>, sep: string): string
  {
    if parts == [] then []
    else if |parts| == 1 then parts[0]
    else parts[0] + sep + Join(parts[1..], sep)
  }

  /** Concatenation of a sequence of strings (`String::push_str` in a loop). */
  function Concat(parts: seq<string>): string
  {
    if parts == [] then [] else parts[0] + Concat(parts[1..])
  }

  /** Joining the pieces of `splitn` with the separator gives back the string. */
  lemma {:induction false} JoinSplitN(s: string, n: nat, sep: char)
    requires n >= 1
    ensures Join(SplitN(s, n, sep), [sep]) == s
    decreases n
  {
    if n > 1 && IndexOf(s, sep).Some? {
      var i := IndexOf(s, sep).value;
      var rest := SplitN(s[i + 1..], n - 1, sep);
      JoinSplitN(s[i + 1..], n - 1, sep);
      JoinCons(s[..i], rest, [sep]);
      Rejoin(s, i);
    }
  }

  lemma JoinCons(head: string, rest: seq<string>, sep: string)
    requires rest != []
    ensures Join([head] + rest, sep) == head + sep + Join(rest, sep)
  {
    assert ([head] + rest)[0] == head && ([head] + rest)[1..] == rest;
  }

  lemma Rejoin(s: string, i: nat)
    requires i < |s|
    ensures s[..i] + [s[i]] + s[i + 1..] == s
  {
  }

  /** Returns `s` with one trailing carriage return removed. */
  function StripCarriageReturn(line: string): string
  {
    if line != [] && line[|line| - 1] == '\r' then line[..|line| - 1] else line
  }

  /**
   * `str::lines`: pieces ended by "\n" (a "\r" before it is dropped too); the final line
   * needs no terminator and an empty trailing piece is not a line.
   */
  function Lines(s: string): (r: seq<string>)
    ensures forall i | 0 <= i < |r| :: '\n' !in r[i]
    ensures s == [] <==> r == []
    decreases |s|
  {
    if s == [] then []
    else match IndexOf(s, '\n')
      case None => [s]
      case Some(i) => [StripCarriageReturn(s[..i])] + Lines(s[i + 1..])
  }

  /** A line that `lines` can give back unchanged. */
  predicate PlainLine(line: string) {
    '\n' !in line && (line == [] || line[|line| - 1] != '\r')
  }

  /**
   * `lines` undoes joining with "\n", for lines without line breaks whose last one is not
   * empty.
   */
  lemma {:induction false} LinesOfJoin(ls: seq<string>)
    requires forall i | 0 <= i < |ls| :: PlainLine(ls[i])
    requires ls == [] || ls[|ls| - 1] != []
    ensures Lines(Join(ls, "\n")) == ls
  {
    if |ls| == 1 {
      assert IndexOf(ls[0], '\n').None?;
    } else if |ls| > 1 {
      JoinHead(ls);
      LinesOfJoin(ls[1..]);
      assert ls == [ls[0]] + ls[1..];
    }
  }

  /** Joining with "\n" puts the first line before the first line break and the rest after it. */
  lemma JoinHead(ls: seq<string>)
    requires |ls| > 1 && '\n' !in ls[0]
    ensures var s := Join(ls, "\n");
      && IndexOf(s, '\n') == Some(|ls[0]|) && s[..|ls[0]|] == ls[0] && s[|ls[0]| + 1..] == Join(ls[1..], "\n")
  {
    var s := Join(ls, "\n");
    var rest := Join(ls[1..], "\n");
    assert s == ls[0] + "\n" + rest;
    assert s[..|ls[0]|] == ls[0];
    assert s[|ls[0]|] == '\n';
    assert s[|ls[0]| + 1..] == rest;
  }

  // ---------------------------------------------------------------- substring search and replace

  /** `p` occurs in `s` at index `i`. */
  predicate OccursAt(s: string, p: string, i: nat) {
    i + |p| <= |s| && s[i..i + |p|] == p
  }

  ghost predicate Contains(s: string, p: string) {
    exists i: nat :: OccursAt(s, p, i)
  }

  /** `str::replace`: every leftmost non-overlapping occurrence of `from` becomes `to`. */
  function Replace(s: string, from: string, to: string): string
    requires from != []
    decreases |s|
  {
    if |s| < |from| then s
    else if s[..|from|] == from then to + Replace(s[|from|..], from, to)
    else [s[0]] + Replace(s[1..], from, to)
  }

  /** An occurrence in a suffix is an occurrence in the whole string. */
  lemma OccursInSuffix(s: string, p: string, k: nat, i: nat)
    requires k <= |s| && OccursAt(s[k..], p, i)
    ensures OccursAt(s, p, k + i)
  {
    assert s[k..][i..i + |p|] == s[k + i..k + i + |p|];
  }

  /** A string in which the pattern does not occur is left as it is. */
  lemma {:induction false} ReplaceAbsent(s: string, from: string, to: string)
    requires from != []
    requires !Contains(s, from)
    ensures Replace(s, from, to) == s
    decreases |s|
  {
    if |s| >= |from| {
      assert !OccursAt(s, from, 0);
      assert s[..|from|] != from;
      forall i: nat | OccursAt(s[1..], from, i) ensures false {
        OccursInSuffix(s, from, 1, i);
      }
      ReplaceAbsent(s[1..], from, to);
    }
  }

  /** With no occurrence starting in `a`, replacing in `a + b` leaves `a` and replaces in `b`. */
  lemma {:induction false} ReplaceSkip(a: string, b: string, from: string, to: string)
    requires from != []
    requires forall i | 0 <= i < |a| :: !OccursAt(a + b, from, i)
    ensures Replace(a + b, from, to) == a + Replace(b, from, to)
    decreases |a|
  {
    if a != [] {
      var s := a + b;
      assert !OccursAt(s, from, 0);
      assert s[1..] == a[1..] + b;
      forall i | 0 <= i < |a| - 1 ensures !OccursAt(a[1..] + b, from, i) {
        if OccursAt(s[1..], from, i) {
          OccursInSuffix(s, from, 1, i);
        }
      }
      ReplaceSkip(a[1..], b, from, to);
      if |s| < |from| {
        assert Replace(b, from, to) == b;
      } else {
        assert s[..|from|] != from;
        assert Replace(s, from, to) == [s[0]] + Replace(s[1..], from, to);
        assert [s[0]] + (a[1..] + Replace(b, from, to)) == a + Replace(b, from, to);
      }
    } else {
      assert a + b == b;
    }
  }

  /** An occurrence at the start is replaced. */
  lemma ReplaceHere(from: string, b: string, to: string)
    requires from != []
    ensures Replace(from + b, from, to) == to + Replace(b, from, to)
  {
    assert (from + b)[..|from|] == from && (from + b)[|from|..] == b;
  }

  /** `str::split(p).next().unwrap()`: the part of `s` before the first occurrence of `p`. */
  function PrefixBefore(s: string, p: string): (r: string)
    requires p != []
    ensures |r| <= |s| && r == s[..|r|]
    ensures r == s || OccursAt(s, p, |r|)
    decreases |s|
  {
    if |s| < |p| then s
    else if s[..|p|] == p then []
    else [s[0]] + PrefixBefore(s[1..], p)
  }

  /** With no occurrence starting in `a`, everything of `a` comes before the first occurrence in `a + b`. */
  lemma {:induction false} PrefixBeforeSkip(a: string, b: string, p: string)
    requires p != []
    requires forall i | 0 <= i < |a| :: !OccursAt(a + b, p, i)
    ensures PrefixBefore(a + b, p) == a + PrefixBefore(b, p)
    decreases |a|
  {
    if a != [] {
      var s := a + b;
      assert !OccursAt(s, p, 0);
      assert s[1..] == a[1..] + b;
      forall i | 0 <= i < |a| - 1 ensures !OccursAt(a[1..] + b, p, i) {
        if OccursAt(s[1..], p, i) {
          OccursInSuffix(s, p, 1, i);
        }
      }
      PrefixBeforeSkip(a[1..], b, p);
      if |s| < |p| {
        assert PrefixBefore(b, p) == b;
      } else {
        assert s[..|p|] != p;
        assert PrefixBefore(s, p) == [s[0]] + PrefixBefore(s[1..], p);
        assert [s[0]] + (a[1..] + PrefixBefore(b, p)) == a + PrefixBefore(b, p);
      }
    } else {
      assert a + b == b;
    }
  }

  /** Nothing comes before an occurrence at the start. */
  lemma PrefixBeforeHere(p: string, b: string)
    requires p != []
    ensures PrefixBefore(p + b, p) == []
  {
    assert (p + b)[..|p|] == p;
  }

  /** The part before the first occurrence holds no occurrence. */
  lemma {:induction false} PrefixBeforeExcludesAt(s: string, p: string, i: nat)
    requires p != []
    ensures !OccursAt(PrefixBefore(s, p), p, i)
    decreases |s|
  {
    var r := PrefixBefore(s, p);
    if |s| >= |p| && s[..|p|] != p && OccursAt(r, p, i) {
      if i == 0 {
        OccursInPrefix(s, r, p);
      } else {
        OccursInTail(r, p, i);
        assert r[1..] == PrefixBefore(s[1..], p);
        PrefixBeforeExcludesAt(s[1..], p, i - 1);
      }
    }
  }

  /** An occurrence at the start of a prefix of `s` is one at the start of `s`. */
  lemma OccursInPrefix(s: string, r: string, p: string)
    requires |r| <= |s| && r == s[..|r|] && OccursAt(r, p, 0)
    ensures s[..|p|] == p
  {
    assert s[..|p|] == r[..|p|];
  }

  /** An occurrence past the first character is one in the tail. */
  lemma OccursInTail(r: string, p: string, i: nat)
    requires i > 0 && OccursAt(r, p, i)
    ensures OccursAt(r[1..], p, i - 1)
  {
    assert r[1..][i - 1..i - 1 + |p|] == r[i..i + |p|];
  }

  lemma PrefixBeforeExcludes(s: string, p: string)
    requires p != []
    ensures !Contains(PrefixBefore(s, p), p)
  {
    forall i: nat ensures !OccursAt(PrefixBefore(s, p), p, i) {
      PrefixBeforeExcludesAt(s, p, i);
    }
  }

  /** Without an occurrence, all of `s` comes before it. */
  lemma PrefixBeforeAbsent(s: string, p: string)
    requires p != [] && !Contains(s, p)
    ensures PrefixBefore(s, p) == s
  {
    assert !OccursAt(s, p, |PrefixBefore(s, p)|);
  }

  /** A slice of a string without occurrences has none either. */
  lemma SliceExcludes(s: string, p: string, lo: nat, hi: nat)
    requires lo <= hi <= |s| && !Contains(s, p)
    ensures !Contains(s[lo..hi], p)
  {
    forall i: nat | OccursAt(s[lo..hi], p, i) ensures false {
      var t := s[lo..hi];
      assert s[lo + i..lo + i + |p|] == p by {
        forall k | 0 <= k < |p| ensures s[lo + i..lo + i + |p|][k] == p[k] {
          assert t[i..i + |p|][k] == p[k];
        }
      }
      assert OccursAt(s, p, lo + i);
    }
  }

  /** Trimming cannot create an occurrence. */
  lemma TrimExcludes(s: string, p: string)
    requires !Contains(s, p)
    ensures !Contains(Trim(s), p)
  {
    var t := TrimStart(s);
    SliceExcludes(s, p, |s| - |t|, |s|);
    assert t == s[|s| - |t|..|s|];
    SliceExcludes(t, p, 0, |TrimEnd(t)|);
  }

  // ---------------------------------------------------------------- repetition and counting

  /** `str::repeat` of a one-character string. */
  function Repeat(c: char, n: nat): (r: string)
    ensures |r| == n && forall i | 0 <= i < n :: r[i] == c
  {
    if n == 0 then [] else [c] + Repeat(c, n - 1)
  }

  /** The number of occurrences of `c` in `s`. */
  function Count(c: char, s: string): nat
  {
    if s == [] then 0 else (if s[0] == c then 1 else 0) + Count(c, s[1..])
  }

  lemma {:induction false} CountConcat(c: char, a: string, b: string)
    ensures Count(c, a + b) == Count(c, a) + Count(c, b)
  {
    if a != [] {
      assert (a + b)[0] == a[0];
      assert (a + b)[1..] == a[1..] + b;
      CountConcat(c, a[1..], b);
    } else {
      assert a + b == b;
    }
  }

  lemma {:induction false} CountAbsent(c: char, s: string)
    requires c !in s
    ensures Count(c, s) == 0
  {
    if s != [] {
      assert s[0] in s;
      assert forall x | x in s[1..] :: x in s;
      CountAbsent(c, s[1..]);
    }
  }

  // ---------------------------------------------------------------- unsigned integers

  predicate IsDigit(c: char) { '0' <= c <= '9' }

  predicate AllDigits(s: string) { forall i | 0 <= i < |s| :: IsDigit(s[i]) }

  function DigitChar(d: nat): (c: char)
    requires d < 10
    ensures IsDigit(c)
  {
    ('0' as int + d) as char
  }

  /** The value of a string of decimal digits, most significant first. */
  function DigitsValue(s: string): nat
    requires AllDigits(s)
    decreases |s|
  {
    if s == [] then 0 else DigitsValue(s[..|s| - 1]) * 10 + (s[|s| - 1] as int - '0' as int)
  }

  /** `{}` formatting of an unsigned integer: decimal digits, no sign, no leading zeros. */
  function Decimal(n: nat): (r: string)
    ensures r != [] && AllDigits(r)
    ensures |r| > 1 ==> r[0] != '0'
  {
    if n < 10 then [DigitChar(n)] else Decimal(n / 10) + [DigitChar(n % 10)]
  }

  /**
   * `str::parse::<u32>()`: an optional '+' and then one or more ASCII digits whose value fits
   * in 32 bits; anything else (the empty string, a '-', a space, an overflow) is an error.
   */
  function ParseU32(s: string): Option<U32>
  {
    var digits := if s != [] && s[0] == '+' then s[1..] else s;
    if digits == [] || !AllDigits(digits) then None
    else if DigitsValue(digits) < U32_LIMIT then Some(DigitsValue(digits))
    else None
  }

  lemma {:induction false} DigitsValueOfDecimal(n: nat)
    ensures DigitsValue(Decimal(n)) == n
  {
    if n >= 10 {
      var d := Decimal(n);
      assert d[..|d| - 1] == Decimal(n / 10);
      DigitsValueOfDecimal(n / 10);
    }
  }

  /** What `{}` prints for a `u32` parses back to the same number. */
  lemma ParseDecimal(n: U32)
    ensures ParseU32(Decimal(n)) == Some(n)
  {
    DigitsValueOfDecimal(n);
    assert IsDigit(Decimal(n)[0]);
  }

  /** Only '+' and digits can parse. */
  lemma ParseU32Rejects(s: string, i: nat)
    requires i < |s| && !IsDigit(s[i]) && !(i == 0 && s[i] == '+')
    ensures ParseU32(s).None?
  {
    if s[0] == '+' {
      assert !IsDigit(s[1..][i - 1]);
    }
  }
}
