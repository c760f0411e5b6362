/**
 * `ActionGroup::parse_action_strings` (packages/voxurf/src/executor.rs): the lines of the
 * model's fenced block become clicks and fills, a description of what was done and a flag
 * saying whether the user's command is finished.
 *
 * Each line is split at most three ways on ' '. The first piece selects the instruction:
 *   CLICK <id>            a click; the id may be written as [<id>]
 *   FILL <id> '<text>'    typing; the text is the rest of the line, in single quotes
 *   WAIT <description>    a waitpoint, honoured only when another line follows it
 *   FINISH <description>  the end of the command; nothing may follow it
 * Any other first piece (an empty line too) is skipped.
 */
module ActionParser {
  import opened Wrappers
  import opened StdStr
  import opened Errors

  datatype Action = Click(id: U32) | Type(id: U32, text: string)

  datatype ActionGroup = ActionGroup(actions: seq<Action>, description: string, complete: bool)

  /** `ActionGroup::default()`: complete unless a WAIT says otherwise. */
  const DEFAULT_GROUP: ActionGroup := ActionGroup([], "", true)

  // ---------------------------------------------------------------- one line

  /** `line.splitn(3, ' ')`. */
  function Pieces(line: string): (r: seq<string>)
    ensures 1 <= |r| <= 3
  {
    SplitN(line, 3, ' ')
  }

  /** The instruction word: the line up to its first space. */
  function Token(line: string): string
  {
    Pieces(line)[0]
  }

  /** A WAIT or FINISH description: the pieces after the instruction word rejoined by " ". */
  function Description(line: string): string
  {
    Join(Pieces(line)[1..], " ")
  }

  /**
   * The id with one leading '[' and one trailing ']' removed. Without a trailing ']' the
   * source falls back to the token it started from, so a lone leading '[' stays.
   */
  function StripBrackets(id: string): (r: string)
    ensures |id| >= 2 && id[0] == '[' && id[|id| - 1] == ']' ==> r == id[1..|id| - 1]
    ensures id != [] && id[0] != '[' && id[|id| - 1] == ']' ==> r == id[..|id| - 1]
    ensures (id == [] || id[|id| - 1] != ']') ==> r == id
  {
    var s := match StripPrefix(id, '[') case Some(t) => t case None => id;
    match StripSuffix(s, ']')
    case Some(t) => t
    case None => id
  }

  /** The text between a leading and a trailing single quote. */
  function Unquote(text: string): (r: Option<string>)
    ensures r.Some? <==> |text| >= 2 && text[0] == '\'' && text[|text| - 1] == '\''
    ensures r.Some? ==> text == "'" + r.value + "'"
  {
    match StripPrefix(text, '\'')
    case None => None
    case Some(t) => StripSuffix(t, '\'')
  }

  /** What one line does to the group being built; `more` says whether another line follows. */
  datatype Step =
    | Skip
    | Push(action: Action)
    | Wait(description: string)
    | Finish(description: string)
    | Reject(error: ActionParseError)

  /** The id of a CLICK or FILL: brackets stripped, then parsed as a `u32`. */
  function ParseId(id: string): Result<U32, ActionParseError>
  {
    var stripped := StripBrackets(id);
    match ParseU32(stripped)
    case None => Err(NonIntegerId(stripped))
    case Some(n) => Ok(n)
  }

  /** What a CLICK, a FILL or a skipped line split into `parts` does. */
  function ActionStep(parts: seq<string>): (r: Step)
    requires |parts| >= 1
    ensures r.Skip? || r.Push? || r.Reject?
  {
    var ty := parts[0];
    if ty == "CLICK" then
      if |parts| < 2 then Reject(MissingId(ty))
      else match ParseId(parts[1])
        case Err(e) => Reject(e)
        case Ok(n) => Push(Click(n))
    else if ty == "FILL" then
      if |parts| < 2 then Reject(MissingId(ty))
      else match ParseId(parts[1])
        case Err(e) => Reject(e)
        case Ok(n) =>
          if |parts| < 3 then Reject(MissingTextInType)
          else match Unquote(parts[2])
            case None => Reject(TextInTypeNotSingleQuoted(parts[2]))
            case Some(t) => Push(Type(n, t))
    else Skip
  }

  /** What a line split into `parts` does; `more` says whether another line follows. */
  function StepOf(parts: seq<string>, more: bool): Step
    requires |parts| >= 1
  {
    var ty := parts[0];
    if ty == "WAIT" then
      if !more then Skip
      else if Join(parts[1..], " ") == [] then Reject(MissingDescription)
      else Wait(Trim(Join(parts[1..], " ")))
    else if ty == "FINISH" then
      if Join(parts[1..], " ") == [] then Reject(MissingDescription)
      else if more then Reject(ActionsAfterFinish)
      else Finish(Trim(Join(parts[1..], " ")))
    else ActionStep(parts)
  }

  function Interpret(line: string, more: bool): Step
  {
    StepOf(Pieces(line), more)
  }

  // ---------------------------------------------------------------- the whole block

  /** What each line does, with the look-ahead the parser has at that line. */
  function Steps(lines: seq<string>): (r: seq<Step>)
    ensures |r| == |lines|
  {
    if lines == [] then [] else [Interpret(lines[0], |lines| > 1)] + Steps(lines[1..])
  }

  /** The group built by carrying out `steps` on `g`, stopping at a WAIT or an error. */
  function Run(steps: seq<Step>, g: ActionGroup): Result<ActionGroup, ActionParseError>
  {
    if steps == [] then Ok(g)
    else match steps[0]
      case Skip => Run(steps[1..], g)
      case Push(a) => Run(steps[1..], g.(actions := g.actions + [a]))
      case Wait(d) => Ok(g.(description := d, complete := false))
      case Finish(d) => Run(steps[1..], g.(description := d, complete := true))
      case Reject(e) => Err(e)
  }

  function Parse(lines: seq<string>): Result<ActionGroup, ActionParseError>
  {
    Run(Steps(lines), DEFAULT_GROUP)
  }

  /** The parser loop: one line at a time, looking ahead only to see whether a line follows. */
  method ParseActionStrings(lines: seq<string>) returns (r: Result<ActionGroup, ActionParseError>)
    ensures r == Parse(lines)
  {
    var group := DEFAULT_GROUP;
    var i := 0;
    assert lines[i..] == lines;
    while i < |lines|
      invariant i <= |lines|
      invariant Run(Steps(lines[i..]), group) == Parse(lines)
    {
      var line := lines[i];
      assert lines[i..][0] == line && lines[i..][1..] == lines[i + 1..];
      i := i + 1;
      var step := ParseLine(line, i < |lines|);
      match step {
        case Skip =>
        case Push(a) => group := group.(actions := group.actions + [a]);
        case Wait(d) => return Ok(group.(description := d, complete := false));
        case Finish(d) => group := group.(description := d, complete := true);
        case Reject(e) => return Err(e);
      }
    }
    assert lines[i..] == [];
    return Ok(group);
  }

  /** The body of the parser loop for one line: what the line does to the group. */
  method ParseLine(line: string, more: bool) returns (step: Step)
    ensures step == Interpret(line, more)
  {
    var parts := SplitN(line, 3, ' ');
    var ty := parts[0];
    if ty == "CLICK" {
      if |parts| < 2 {
        return Reject(MissingId(ty));
      }
      var id := StripBrackets(parts[1]);
      var n := ParseU32(id);
      if n.None? {
        return Reject(NonIntegerId(id));
      }
      return Push(Click(n.value));
    } else if ty == "FILL" {
      if |parts| < 2 {
        return Reject(MissingId(ty));
      }
      var id := StripBrackets(parts[1]);
      var n := ParseU32(id);
      if n.None? {
        return Reject(NonIntegerId(id));
      }
      if |parts| < 3 {
        return Reject(MissingTextInType);
      }
      var text := Unquote(parts[2]);
      if text.None? {
        return Reject(TextInTypeNotSingleQuoted(parts[2]));
      }
      return Push(Type(n.value, text.value));
    } else if ty == "WAIT" {
      if more {
        var description := Join(parts[1..], " ");
        if description == [] {
          return Reject(MissingDescription);
        }
        return Wait(Trim(description));
      }
      return Skip;
    } else if ty == "FINISH" {
      var description := Join(parts[1..], " ");
      if description == [] {
        return Reject(MissingDescription);
      }
      if more {
        return Reject(ActionsAfterFinish);
      }
      return Finish(Trim(description));
    }
    return Skip;
  }

  // ---------------------------------------------------------------- the grammar, line by line

  /** "<w> <a>" splits into its two words. */
  lemma Pieces2(w: string, a: string)
    requires ' ' !in w && ' ' !in a
    ensures Pieces(w + " " + a) == [w, a]
  {
    assert w + " " + a == w + [' '] + a;
    SplitNFirst(w, a, 3, ' ');
    SplitNWhole(a, 2, ' ');
  }

  /** "<w> <a> <rest>" splits into two words and the unsplit rest. */
  lemma Pieces3(w: string, a: string, rest: string)
    requires ' ' !in w && ' ' !in a
    ensures Pieces(w + " " + a + " " + rest) == [w, a, rest]
  {
    assert w + " " + a + " " + rest == w + [' '] + (a + [' '] + rest);
    SplitNFirst(w, a + [' '] + rest, 3, ' ');
    SplitNFirst(a, rest, 2, ' ');
  }

  /** The instruction word and description of "<word> <rest>"; a bare word has no description. */
  lemma DescriptionOf(word: string, rest: string)
    requires ' ' !in word
    ensures Token(word) == word && Description(word) == ""
    ensures Token(word + " " + rest) == word && Description(word + " " + rest) == rest
  {
    SplitNWhole(word, 3, ' ');
    assert word + " " + rest == word + [' '] + rest;
    SplitNFirst(word, rest, 3, ' ');
    assert Pieces(word + " " + rest)[1..] == SplitN(rest, 2, ' ');
    JoinSplitN(rest, 2, ' ');
  }

  /** What "CLICK <tok>" does. */
  lemma ClickLine(tok: string, more: bool)
    requires ' ' !in tok
    ensures Interpret("CLICK " + tok, more) ==
      match ParseId(tok) case Err(e) => Reject(e) case Ok(n) => Push(Click(n))
  {
    assert "CLICK " + tok == "CLICK" + " " + tok;
    Pieces2("CLICK", tok);
    ActionWord(["CLICK", tok], more);
  }

  /** What "FILL <tok>" does: at best it lacks its text. */
  lemma FillLine(tok: string, more: bool)
    requires ' ' !in tok
    ensures Interpret("FILL " + tok, more) ==
      match ParseId(tok) case Err(e) => Reject(e) case Ok(_) => Reject(MissingTextInType)
  {
    assert "FILL " + tok == "FILL" + " " + tok;
    Pieces2("FILL", tok);
    ActionWord(["FILL", tok], more);
  }

  /** What "FILL <tok> <rest>" does. */
  lemma FillTextLine(tok: string, rest: string, more: bool)
    requires ' ' !in tok
    ensures Interpret("FILL " + tok + " " + rest, more) ==
      match ParseId(tok)
      case Err(e) => Reject(e)
      case Ok(n) =>
        match Unquote(rest)
        case None => Reject(TextInTypeNotSingleQuoted(rest))
        case Some(t) => Push(Type(n, t))
  {
    assert "FILL " + tok + " " + rest == "FILL" + " " + tok + " " + rest;
    Pieces3("FILL", tok, rest);
    ActionWord(["FILL", tok, rest], more);
  }

  /** A line whose first word is neither WAIT nor FINISH is a CLICK, a FILL or skipped. */
  lemma ActionWord(parts: seq<string>, more: bool)
    requires |parts| >= 1 && parts[0] != "WAIT" && parts[0] != "FINISH"
    ensures StepOf(parts, more) == ActionStep(parts)
  {
  }

  /** CLICK and FILL with nothing after the word have no id. */
  lemma MissingIdBare(more: bool)
    ensures Interpret("CLICK", more) == Reject(MissingId("CLICK"))
    ensures Interpret("FILL", more) == Reject(MissingId("FILL"))
  {
    SplitNWhole("CLICK", 3, ' ');
    SplitNWhole("FILL", 3, ' ');
  }

  /** Brackets around an id without brackets of its own are stripped exactly. */
  lemma BracketedId(tok: string)
    requires tok != [] && tok[0] != '[' && tok[|tok| - 1] != ']'
    ensures ParseId("[" + tok + "]") == ParseId(tok)
  {
    var b := "[" + tok + "]";
    assert b[1..|b| - 1] == tok;
  }

  /** `CLICK [<id>]` and `CLICK <id>` are the same instruction. */
  lemma ClickBracketsOptional(tok: string, more: bool)
    requires ' ' !in tok && tok != [] && tok[0] != '[' && tok[|tok| - 1] != ']'
    ensures Interpret("CLICK [" + tok + "]", more) == Interpret("CLICK " + tok, more)
  {
    var b := "[" + tok + "]";
    BracketedId(tok);
    BracketedClick(tok);
    ClickLine(b, more);
    ClickLine(tok, more);
  }

  lemma BracketedClick(tok: string)
    ensures "CLICK [" + tok + "]" == "CLICK " + ("[" + tok + "]")
  {
  }

  lemma OpenBracketClick(tok: string)
    ensures "CLICK [" + tok == "CLICK " + ("[" + tok)
  {
  }

  lemma BracketedFill(tok: string, rest: string)
    ensures "FILL [" + tok + "] " + rest == "FILL " + ("[" + tok + "]") + " " + rest
  {
  }

  /** `FILL [<id>] <text>` does what `FILL <id> <text>` does (see FillTextLine). */
  lemma FillBracketsOptional(tok: string, rest: string, more: bool)
    requires ' ' !in tok && tok != [] && tok[0] != '[' && tok[|tok| - 1] != ']'
    ensures Interpret("FILL [" + tok + "] " + rest, more) ==
      match ParseId(tok)
      case Err(e) => Reject(e)
      case Ok(n) =>
        match Unquote(rest)
        case None => Reject(TextInTypeNotSingleQuoted(rest))
        case Some(t) => Push(Type(n, t))
  {
    BracketedId(tok);
    BracketedFill(tok, rest);
    FillTextLine("[" + tok + "]", rest, more);
  }

  /** A printed id, bracketed or not, clicks exactly that element. */
  lemma ClickDecimal(n: U32, more: bool)
    ensures Interpret("CLICK " + Decimal(n), more) == Push(Click(n))
    ensures Interpret("CLICK [" + Decimal(n) + "]", more) == Push(Click(n))
  {
    var d := Decimal(n);
    assert ' ' !in d by {
      forall i | 0 <= i < |d| ensures d[i] != ' ' { assert IsDigit(d[i]); }
    }
    ParseDecimal(n);
    assert ParseId(d) == Ok(n);
    ClickLine(d, more);
    ClickBracketsOptional(d, more);
  }

  /**
   * A lone leading '[' is not stripped (the source falls back to the whole token when no ']'
   * ends it), so "[5" is rejected as a non-integer id carrying the bracket.
   */
  lemma UnclosedBracket(tok: string, more: bool)
    requires ' ' !in tok && (tok == [] || tok[|tok| - 1] != ']')
    ensures Interpret("CLICK [" + tok, more) == Reject(NonIntegerId("[" + tok))
  {
    var b := "[" + tok;
    assert b[|b| - 1] != ']';
    assert ' ' !in b;
    ParseU32Rejects(b, 0);
    assert ParseId(b) == Err(NonIntegerId(b));
    OpenBracketClick(tok);
    ClickLine(b, more);
  }

  /** An id that does not parse once its brackets are stripped is rejected, carrying the stripped text. */
  lemma NonIntegerIdRejected(tok: string, rest: string, more: bool)
    requires ' ' !in tok && ParseU32(StripBrackets(tok)).None?
    ensures Interpret("CLICK " + tok, more) == Reject(NonIntegerId(StripBrackets(tok)))
    ensures Interpret("FILL " + tok, more) == Reject(NonIntegerId(StripBrackets(tok)))
    ensures Interpret("FILL " + tok + " " + rest, more) == Reject(NonIntegerId(StripBrackets(tok)))
  {
    ClickLine(tok, more);
    FillLine(tok, more);
    FillTextLine(tok, rest, more);
  }

  /** FILL with an id and nothing after it lacks its text. */
  lemma FillMissingText(tok: string, more: bool)
    requires ' ' !in tok && ParseU32(StripBrackets(tok)).Some?
    ensures Interpret("FILL " + tok, more) == Reject(MissingTextInType)
  {
    FillLine(tok, more);
  }

  /**
   * FILL takes everything after the id as its text, which must be single-quoted: the quotes
   * are removed and the rest, spaces and quotes included, is typed.
   */
  lemma FillQuoted(tok: string, text: string, more: bool)
    requires ' ' !in tok && ParseU32(StripBrackets(tok)).Some?
    ensures Interpret("FILL " + tok + " '" + text + "'", more)
      == Push(Type(ParseU32(StripBrackets(tok)).value, text))
  {
    var q := "'" + text + "'";
    assert q[1..|q| - 1] == text;
    assert Unquote(q) == Some(text);
    assert ParseId(tok) == Ok(ParseU32(StripBrackets(tok)).value);
    assert "FILL " + tok + " '" + text + "'" == "FILL " + tok + " " + q;
    FillTextLine(tok, q, more);
  }

  lemma FillNotQuoted(tok: string, text: string, more: bool)
    requires ' ' !in tok && ParseU32(StripBrackets(tok)).Some?
    requires !(|text| >= 2 && text[0] == '\'' && text[|text| - 1] == '\'')
    ensures Interpret("FILL " + tok + " " + text, more) == Reject(TextInTypeNotSingleQuoted(text))
  {
    FillTextLine(tok, text, more);
  }

  /** What "WAIT <d>" does: only with a successor, and only with a description. */
  lemma WaitLine(d: string, more: bool)
    ensures Interpret("WAIT " + d, more) ==
      if !more then Skip else if d == [] then Reject(MissingDescription) else Wait(Trim(d))
  {
    assert "WAIT " + d == "WAIT" + " " + d;
    DescriptionOf("WAIT", d);
    var parts := Pieces("WAIT " + d);
    assert parts[0] == "WAIT" && Join(parts[1..], " ") == d;
    assert Interpret("WAIT " + d, more) == StepOf(parts, more);
  }

  /** What "FINISH <d>" does: a missing description is reported before a successor. */
  lemma FinishLine(d: string, more: bool)
    ensures Interpret("FINISH " + d, more) ==
      if d == [] then Reject(MissingDescription)
      else if more then Reject(ActionsAfterFinish)
      else Finish(Trim(d))
  {
    assert "FINISH " + d == "FINISH" + " " + d;
    DescriptionOf("FINISH", d);
    var parts := Pieces("FINISH " + d);
    assert parts[0] == "FINISH" && Join(parts[1..], " ") == d;
    assert Interpret("FINISH " + d, more) == StepOf(parts, more);
  }

  /** A bare FINISH, or a WAIT that has a successor, lacks its description; a bare trailing WAIT is ignored. */
  lemma BareDescriptionWords()
    ensures Interpret("FINISH", false) == Reject(MissingDescription)
    ensures Interpret("FINISH", true) == Reject(MissingDescription)
    ensures Interpret("WAIT", true) == Reject(MissingDescription)
    ensures Interpret("WAIT", false) == Skip
  {
    DescriptionOf("FINISH", "");
    DescriptionOf("WAIT", "");
  }

  // ---------------------------------------------------------------- the grammar, block by block

  /** A line that is neither a WAIT nor a FINISH: a click, a fill, or a skipped line. */
  predicate Plain(line: string)
  {
    Token(line) != "WAIT" && Token(line) != "FINISH"
  }

  predicate AllPlain(lines: seq<string>)
  {
    forall k | 0 <= k < |lines| :: Plain(lines[k])
  }

  /** Whether a line follows does not matter to a plain line. */
  lemma PlainIgnoresMore(line: string, more: bool)
    requires Plain(line)
    ensures Interpret(line, more) == ActionStep(Pieces(line))
  {
  }

  /** The steps of plain lines, which do not depend on what follows them. */
  function PlainSteps(lines: seq<string>): (r: seq<Step>)
    ensures |r| == |lines|
    ensures forall k | 0 <= k < |r| :: r[k].Skip? || r[k].Push? || r[k].Reject?
  {
    if lines == [] then [] else [ActionStep(Pieces(lines[0]))] + PlainSteps(lines[1..])
  }

  /** The actions pushed by `steps` in order, or the error of the first rejected one. */
  function Collect(steps: seq<Step>): Result<seq<Action>, ActionParseError>
  {
    if steps == [] then Ok([])
    else match steps[0]
      case Reject(e) => Err(e)
      case Push(a) =>
        (match Collect(steps[1..])
         case Err(e) => Err(e)
         case Ok(rest) => Ok([a] + rest))
      case _ => Collect(steps[1..])
  }

  /** The actions of plain lines in order, or the error of the first rejected one. */
  function PlainActions(lines: seq<string>): Result<seq<Action>, ActionParseError>
  {
    Collect(PlainSteps(lines))
  }

  /** The steps of a plain prefix are its plain steps, whatever follows it. */
  lemma {:induction false} StepsOfPlainPrefix(pre: seq<string>, rest: seq<string>)
    requires AllPlain(pre)
    ensures Steps(pre + rest) == PlainSteps(pre) + Steps(rest)
  {
    if pre == [] {
      assert pre + rest == rest;
    } else {
      var lines := pre + rest;
      var tail := pre[1..];
      assert lines[0] == pre[0] && lines[1..] == tail + rest;
      assert AllPlain(tail) by {
        forall k | 0 <= k < |tail| ensures Plain(tail[k]) { assert tail[k] == pre[k + 1]; }
      }
      assert Plain(pre[0]);
      PlainIgnoresMore(pre[0], |lines| > 1);
      StepsOfPlainPrefix(tail, rest);
      var st := ActionStep(Pieces(pre[0]));
      calc {
        Steps(lines);
        [st] + Steps(tail + rest);
        [st] + (PlainSteps(tail) + Steps(rest));
        ([st] + PlainSteps(tail)) + Steps(rest);
      }
    }
  }

  /** Carrying out clicks, fills and skips appends the collected actions to the group. */
  lemma {:induction false} RunCollect(ps: seq<Step>, rest: seq<Step>, g: ActionGroup)
    requires forall k | 0 <= k < |ps| :: ps[k].Skip? || ps[k].Push? || ps[k].Reject?
    ensures Collect(ps).Err? ==> Run(ps + rest, g) == Err(Collect(ps).error)
    ensures Collect(ps).Ok? ==> Run(ps + rest, g) == Run(rest, g.(actions := g.actions + Collect(ps).value))
  {
    if ps == [] {
      assert ps + rest == rest;
      assert g.(actions := g.actions + []) == g;
    } else {
      var steps := ps + rest;
      var tail := ps[1..];
      assert steps[0] == ps[0] && steps[1..] == tail + rest;
      assert forall k | 0 <= k < |tail| :: tail[k] == ps[k + 1];
      if ps[0].Push? {
        var a := ps[0].action;
        var g' := g.(actions := g.actions + [a]);
        RunCollect(tail, rest, g');
        if Collect(tail).Ok? {
          assert g'.actions + Collect(tail).value == g.actions + ([a] + Collect(tail).value);
        }
      } else {
        RunCollect(tail, rest, g);
      }
    }
  }

  /** Parsing a plain prefix appends its actions and nothing else, whatever follows it. */
  lemma PlainPrefix(pre: seq<string>, rest: seq<string>, g: ActionGroup)
    requires AllPlain(pre)
    ensures PlainActions(pre).Err? ==> Run(Steps(pre + rest), g) == Err(PlainActions(pre).error)
    ensures PlainActions(pre).Ok? ==>
      Run(Steps(pre + rest), g) == Run(Steps(rest), g.(actions := g.actions + PlainActions(pre).value))
  {
    StepsOfPlainPrefix(pre, rest);
    RunCollect(PlainSteps(pre), Steps(rest), g);
  }

  /** Without WAIT or FINISH the result is the default group holding the parsed actions. */
  lemma NoControlLines(lines: seq<string>)
    requires AllPlain(lines)
    ensures PlainActions(lines).Err? ==> Parse(lines) == Err(PlainActions(lines).error)
    ensures PlainActions(lines).Ok? ==> Parse(lines) == Ok(ActionGroup(PlainActions(lines).value, "", true))
  {
    assert lines + [] == lines;
    PlainPrefix(lines, [], DEFAULT_GROUP);
    assert Steps([]) == [];
    if PlainActions(lines).Ok? {
      var acts := PlainActions(lines).value;
      assert DEFAULT_GROUP.(actions := [] + acts) == ActionGroup(acts, "", true);
    }
  }

  /** The step of a line sees only whether a line follows it. */
  lemma StepsCons(w: string, post: seq<string>)
    ensures Steps([w] + post) == [Interpret(w, post != [])] + Steps(post)
  {
    assert ([w] + post)[0] == w && ([w] + post)[1..] == post;
  }

  /** Parsing `pre + [w] + post` runs the plain prefix, then the lines from `w` on. */
  lemma AroundRun(pre: seq<string>, w: string, post: seq<string>)
    requires AllPlain(pre)
    ensures PlainActions(pre).Err? ==> Parse(pre + [w] + post) == Err(PlainActions(pre).error)
    ensures PlainActions(pre).Ok? ==>
      Parse(pre + [w] + post) == Run(Steps([w] + post), ActionGroup(PlainActions(pre).value, "", true))
  {
    assert pre + [w] + post == pre + ([w] + post);
    PlainPrefix(pre, [w] + post, DEFAULT_GROUP);
    if PlainActions(pre).Ok? {
      var acts := PlainActions(pre).value;
      assert DEFAULT_GROUP.(actions := [] + acts) == ActionGroup(acts, "", true);
    }
  }

  /**
   * A WAIT with a line after it ends the group: it is not complete, its description is the
   * trimmed rest of the WAIT line, and whatever follows is ignored.
   */
  lemma WaitStops(pre: seq<string>, d: string, post: seq<string>)
    requires AllPlain(pre) && post != []
    ensures PlainActions(pre).Err? ==> Parse(pre + ["WAIT " + d] + post) == Err(PlainActions(pre).error)
    ensures PlainActions(pre).Ok? ==>
      Parse(pre + ["WAIT " + d] + post) ==
      if d == [] then Err(MissingDescription)
      else Ok(ActionGroup(PlainActions(pre).value, Trim(d), false))
  {
    WaitLine(d, true);
    AroundRun(pre, "WAIT " + d, post);
    StepsCons("WAIT " + d, post);
  }

  /** A WAIT on the last line changes nothing. */
  lemma TrailingWait(pre: seq<string>, d: string)
    requires AllPlain(pre)
    ensures Parse(pre + ["WAIT " + d]) == Parse(pre)
  {
    WaitLine(d, false);
    AroundRun(pre, "WAIT " + d, []);
    StepsCons("WAIT " + d, []);
    assert pre + ["WAIT " + d] + [] == pre + ["WAIT " + d];
    NoControlLines(pre);
  }

  /** A FINISH as the last line completes the group with its trimmed description. */
  lemma FinishLast(pre: seq<string>, d: string)
    requires AllPlain(pre)
    ensures PlainActions(pre).Err? ==> Parse(pre + ["FINISH " + d]) == Err(PlainActions(pre).error)
    ensures PlainActions(pre).Ok? ==>
      Parse(pre + ["FINISH " + d]) ==
      if d == [] then Err(MissingDescription)
      else Ok(ActionGroup(PlainActions(pre).value, Trim(d), true))
  {
    FinishLine(d, false);
    AroundRun(pre, "FINISH " + d, []);
    StepsCons("FINISH " + d, []);
    assert pre + ["FINISH " + d] + [] == pre + ["FINISH " + d];
  }

  /** Any line after a FINISH is an error. */
  lemma FinishNotLast(pre: seq<string>, d: string, post: seq<string>)
    requires AllPlain(pre) && post != []
    ensures PlainActions(pre).Err? ==> Parse(pre + ["FINISH " + d] + post) == Err(PlainActions(pre).error)
    ensures PlainActions(pre).Ok? ==>
      Parse(pre + ["FINISH " + d] + post) ==
      Err(if d == [] then MissingDescription else ActionsAfterFinish)
  {
    FinishLine(d, true);
    AroundRun(pre, "FINISH " + d, post);
    StepsCons("FINISH " + d, post);
  }
}
