/**
 * What `Executor::execute_command` (packages/voxurf/src/executor.rs) sends to and takes from
 * the model on each trip: the tree text, the prompt assembled from the template, and the
 * instruction lines found between the fence lines of the model's answer.
 *
 * The template itself (`prompt.txt`) is a parameter: its text is not part of this model.
 */
module Prompt {
  import opened StdStr
  import opened Tree

  /** The line that opens and closes the model's block of instructions. */
  const FENCE: string := "```"

  const TREE_TEXT: string := "{{ tree_text }}"
  const USER_COMMAND: string := "{{ user_command }}"
  const PREVIOUS_ACTIONS: string := "{{ previous_actions }}"
  const CUTOFF: string := "{{ previous_actions_cutoff }}"

  // ---------------------------------------------------------------- the fenced block

  /** The lines after the first fence line, up to the next fence line or the end. */
  function Fenced(lines: seq<string>): (r: seq<string>)
    ensures forall k | 0 <= k < |r| :: r[k] != FENCE
  {
    if lines == [] then []
    else if lines[0] == FENCE then Inside(lines[1..])
    else Fenced(lines[1..])
  }

  /** The lines up to the first fence line, or all of them. */
  function Inside(lines: seq<string>): (r: seq<string>)
    ensures |r| <= |lines|
    ensures forall k | 0 <= k < |r| :: r[k] == lines[k] && r[k] != FENCE
  {
    if lines == [] || lines[0] == FENCE then [] else [lines[0]] + Inside(lines[1..])
  }

  /** The flag loop over the answer's lines: skip to a fence, collect, stop at the next one. */
  method ExtractInstructions(response: string) returns (instructions: seq<string>)
    ensures instructions == Fenced(Lines(response))
  {
    var lines := Lines(response);
    instructions := [];
    var inFence := false;
    var i := 0;
    while i < |lines|
      invariant i <= |lines|
      invariant instructions + (if inFence then Inside(lines[i..]) else Fenced(lines[i..])) == Fenced(lines)
    {
      var line := lines[i];
      assert lines[i..][0] == line && lines[i..][1..] == lines[i + 1..];
      if inFence && line == FENCE {
        assert instructions + [] == instructions;
        break;
      } else if inFence {
        assert instructions + Inside(lines[i..]) == (instructions + [line]) + Inside(lines[i + 1..]);
        instructions := instructions + [line];
      } else if line == FENCE {
        inFence := true;
      }
      i := i + 1;
    }
    if i == |lines| {
      assert lines[i..] == [];
      assert instructions + [] == instructions;
    }
  }

  /** Lines before the opening fence are ignored. */
  lemma {:induction false} SkipOutside(pre: seq<string>, rest: seq<string>)
    requires FENCE !in pre
    ensures Fenced(pre + rest) == Fenced(rest)
  {
    if pre != [] {
      assert (pre + rest)[0] == pre[0] && (pre + rest)[1..] == pre[1..] + rest;
      SkipOutside(pre[1..], rest);
    } else {
      assert pre + rest == rest;
    }
  }

  /** Lines inside the block are kept as they are. */
  lemma {:induction false} TakeInside(body: seq<string>, rest: seq<string>)
    requires FENCE !in body
    ensures Inside(body + rest) == body + Inside(rest)
  {
    if body != [] {
      assert (body + rest)[0] == body[0] && (body + rest)[1..] == body[1..] + rest;
      TakeInside(body[1..], rest);
      assert body == [body[0]] + body[1..];
    } else {
      assert body + rest == rest;
    }
  }

  /** An answer without a fence line has no instructions. */
  lemma NoFenceNoInstructions(lines: seq<string>)
    requires FENCE !in lines
    ensures Fenced(lines) == []
  {
    SkipOutside(lines, []);
    assert lines + [] == lines;
  }

  /**
   * The instructions are exactly the lines between the first fence line and the next one;
   * a block never closed runs to the end of the answer.
   */
  lemma FencedBlock(pre: seq<string>, body: seq<string>, post: seq<string>)
    requires FENCE !in pre && FENCE !in body
    ensures Fenced(pre + [FENCE] + body + [FENCE] + post) == body
    ensures Fenced(pre + [FENCE] + body) == body
  {
    ClosedBlock(pre, body, post);
    OpenBlock(pre, body);
  }

  lemma ClosedBlock(pre: seq<string>, body: seq<string>, post: seq<string>)
    requires FENCE !in pre && FENCE !in body
    ensures Fenced(pre + [FENCE] + body + [FENCE] + post) == body
  {
    var closed := [FENCE] + body + [FENCE] + post;
    assert pre + [FENCE] + body + [FENCE] + post == pre + closed;
    SkipOutside(pre, closed);
    assert closed[0] == FENCE && closed[1..] == body + ([FENCE] + post);
    TakeInside(body, [FENCE] + post);
    assert body + [] == body;
  }

  lemma OpenBlock(pre: seq<string>, body: seq<string>)
    requires FENCE !in pre && FENCE !in body
    ensures Fenced(pre + [FENCE] + body) == body
  {
    var open := [FENCE] + body;
    assert pre + [FENCE] + body == pre + open;
    SkipOutside(pre, open);
    assert open[0] == FENCE && open[1..] == body + [];
    TakeInside(body, []);
  }

  /** A block with nothing around it. */
  lemma FencedAlone(body: seq<string>)
    requires FENCE !in body
    ensures Fenced([FENCE] + body + [FENCE]) == body
  {
    FencedBlock([], body, []);
    assert [] + [FENCE] + body + [FENCE] + [] == [FENCE] + body + [FENCE];
  }

  lemma FramedPlain(body: seq<string>)
    requires forall k | 0 <= k < |body| :: PlainLine(body[k]) && body[k] != FENCE
    ensures forall k | 0 <= k < |[FENCE] + body + [FENCE]| :: PlainLine(([FENCE] + body + [FENCE])[k])
    ensures FENCE !in body
  {
    var ls := [FENCE] + body + [FENCE];
    forall k | 0 <= k < |ls| ensures PlainLine(ls[k]) {
      if 0 < k < |ls| - 1 { assert ls[k] == body[k - 1]; }
    }
  }

  /** An answer made of a fenced block of plain lines gives back those lines. */
  lemma AnswerRoundTrip(body: seq<string>)
    requires forall k | 0 <= k < |body| :: PlainLine(body[k]) && body[k] != FENCE
    ensures Fenced(Lines(Join([FENCE] + body + [FENCE], "\n"))) == body
  {
    FramedPlain(body);
    LinesOfJoin([FENCE] + body + [FENCE]);
    FencedAlone(body);
  }

  // ---------------------------------------------------------------- the prompt

  /** Each root rendered at indentation 0 and ended by a line break; `tag` introduces a node's state. */
  function TreeText(roots: seq<Node>, tag: string): string
  {
    if roots == [] then [] else Render(roots[0], 0, tag) + "\n" + TreeText(roots[1..], tag)
  }

  lemma TreeTextStep(roots: seq<Node>, tag: string, i: nat)
    requires i < |roots|
    ensures TreeText(roots[i..], tag) == Render(roots[i], 0, tag) + "\n" + TreeText(roots[i + 1..], tag)
  {
    assert roots[i..][0] == roots[i] && roots[i..][1..] == roots[i + 1..];
  }

  lemma PieceAssoc(s: string, piece: string, t: string)
    ensures s + (piece + "\n" + t) == (s + piece + "\n") + t
  {
  }

  /** The loop that builds `tree_str`. */
  method BuildTreeText(roots: seq<Node>, tag: string) returns (s: string)
    ensures s == TreeText(roots, tag)
  {
    s := [];
    var i := 0;
    while i < |roots|
      invariant i <= |roots|
      invariant s + TreeText(roots[i..], tag) == TreeText(roots, tag)
    {
      var piece := Render(roots[i], 0, tag);
      TreeTextStep(roots, tag, i);
      PieceAssoc(s, piece, TreeText(roots[i + 1..], tag));
      s := s + piece + "\n";
      i := i + 1;
    }
    assert roots[i..] == [];
    assert s + [] == s;
  }

  /** The tree text has one line per node. */
  lemma {:induction false} TreeTextLines(roots: seq<Node>, tag: string)
    requires ForestSingleLine(roots) && '\n' !in tag
    ensures Count('\n', TreeText(roots, tag)) == ForestSize(roots)
  {
    if roots != [] {
      var n := roots[0];
      RenderLines(n, 0, tag);
      TreeTextLines(roots[1..], tag);
      CountConcat('\n', Render(n, 0, tag), "\n");
      CountConcat('\n', Render(n, 0, tag) + "\n", TreeText(roots[1..], tag));
    }
  }

  /** The descriptions of earlier trips as a bullet list, or nothing before the first. */
  function History(previous: seq<string>): string
  {
    if previous == [] then [] else "- " + Join(previous, "\n- ")
  }

  function Bullets(previous: seq<string>): (r: seq<string>)
    ensures |r| == |previous| && forall k | 0 <= k < |r| :: r[k] == "- " + previous[k]
  {
    if previous == [] then [] else ["- " + previous[0]] + Bullets(previous[1..])
  }

  /** The history is one line "- <description>" per earlier trip, in order. */
  lemma {:induction false} HistoryBullets(previous: seq<string>)
    ensures History(previous) == Join(Bullets(previous), "\n")
  {
    if |previous| >= 2 {
      var b := Bullets(previous);
      HistoryBullets(previous[1..]);
      assert b[1..] == Bullets(previous[1..]);
      calc {
        History(previous);
        "- " + (previous[0] + "\n- " + Join(previous[1..], "\n- "));
        ("- " + previous[0]) + "\n" + ("- " + Join(previous[1..], "\n- "));
        b[0] + "\n" + Join(b[1..], "\n");
      }
    }
  }

  /** The placeholders as the source fills them in, one `str::replace` after another. */
  function Substituted(template: string, treeText: string, command: string, previous: seq<string>): string
  {
    Replace(Replace(Replace(template, TREE_TEXT, treeText), USER_COMMAND, command), PREVIOUS_ACTIONS, History(previous))
  }

  /**
   * The prompt of a trip: without earlier trips it ends before the cutoff marker and is
   * trimmed; otherwise the marker is removed.
   */
  function AssemblePrompt(template: string, treeText: string, command: string, previous: seq<string>): string
  {
    var p := Substituted(template, treeText, command, previous);
    if previous == [] then Trim(PrefixBefore(p, CUTOFF)) else Replace(p, CUTOFF, [])
  }

  /** The first trip's prompt never shows the cutoff marker. */
  lemma FirstPromptHasNoCutoff(template: string, treeText: string, command: string)
    ensures !Contains(AssemblePrompt(template, treeText, command, []), CUTOFF)
  {
    var p := Substituted(template, treeText, command, []);
    PrefixBeforeExcludes(p, CUTOFF);
    TrimExcludes(PrefixBefore(p, CUTOFF), CUTOFF);
  }

  /** A template with no placeholders and no marker is sent as it is (trimmed on the first trip). */
  lemma PlainTemplate(template: string, treeText: string, command: string, previous: seq<string>)
    requires !Contains(template, TREE_TEXT) && !Contains(template, USER_COMMAND)
    requires !Contains(template, PREVIOUS_ACTIONS) && !Contains(template, CUTOFF)
    ensures AssemblePrompt(template, treeText, command, previous) ==
      if previous == [] then Trim(template) else template
  {
    ReplaceAbsent(template, TREE_TEXT, treeText);
    ReplaceAbsent(template, USER_COMMAND, command);
    ReplaceAbsent(template, PREVIOUS_ACTIONS, History(previous));
    if previous == [] {
      PrefixBeforeAbsent(template, CUTOFF);
    } else {
      ReplaceAbsent(template, CUTOFF, []);
    }
  }
  // ---------------------------------------------------------------- where the placeholders land

  /**
   * Every `{` of `s` is followed, within `s`, by a character other than `{`. Since every
   * placeholder starts with `{{`, none can begin inside such a text, whatever follows it.
   */
  predicate NoOpenPair(s: string)
  {
    forall i | 0 <= i < |s| && s[i] == '{' :: i + 1 < |s| && s[i + 1] != '{'
  }

  /** The shape of a placeholder: `{{ `, then text without `{`. */
  predicate Marker(q: string)
  {
    |q| >= 3 && q[0] == '{' && q[1] == '{' && q[2] == ' ' && forall i | 2 <= i < |q| :: q[i] != '{'
  }

  /** Two texts that differ at some index both have. */
  ghost predicate Differs(q: string, p: string)
  {
    exists k | 0 <= k < |q| && k < |p| :: q[k] != p[k]
  }

  lemma TreeTextMarker() ensures Marker(TREE_TEXT) { }
  lemma UserCommandMarker() ensures Marker(USER_COMMAND) { }
  lemma PreviousActionsMarker() ensures Marker(PREVIOUS_ACTIONS) { }
  lemma CutoffMarker() ensures Marker(CUTOFF) { }

  /** The placeholders the template layout below meets in turn are told apart early. */
  lemma MarkersDiffer()
    ensures Differs(USER_COMMAND, TREE_TEXT) && Differs(PREVIOUS_ACTIONS, TREE_TEXT) && Differs(CUTOFF, TREE_TEXT)
    ensures Differs(PREVIOUS_ACTIONS, USER_COMMAND) && Differs(CUTOFF, USER_COMMAND)
    ensures Differs(CUTOFF, PREVIOUS_ACTIONS)
  {
    assert USER_COMMAND[3] != TREE_TEXT[3] && PREVIOUS_ACTIONS[3] != TREE_TEXT[3] && CUTOFF[3] != TREE_TEXT[3];
    assert PREVIOUS_ACTIONS[3] != USER_COMMAND[3] && CUTOFF[3] != USER_COMMAND[3];
    assert CUTOFF[19] != PREVIOUS_ACTIONS[19];
  }

  lemma NoOpenPairBlocks(a: string, b: string, p: string)
    requires NoOpenPair(a) && Marker(p)
    ensures forall i | 0 <= i < |a| :: !OccursAt(a + b, p, i)
    ensures a != p
  {
  }

  /** A placeholder other than `p` holds no occurrence of `p`, whatever follows it. */
  lemma MarkerBlocks(q: string, b: string, p: string)
    requires Marker(q) && Marker(p) && Differs(q, p)
    ensures forall i | 0 <= i < |q| :: !OccursAt(q + b, p, i)
    ensures q != p
  {
    var k :| 0 <= k < |q| && k < |p| && q[k] != p[k];
    assert (q + b)[k] == q[k];
  }

  /** A part in which `p` cannot begin: text without an open pair, or another placeholder. */
  ghost predicate Inert(part: string, p: string)
  {
    NoOpenPair(part) || (Marker(part) && Differs(part, p))
  }

  /** Replacing `p` in text that starts with an inert part leaves that part. */
  lemma ReplaceKeep(x: string, rest: string, p: string, to: string)
    requires Marker(p) && Inert(x, p)
    ensures Replace(x + rest, p, to) == x + Replace(rest, p, to)
  {
    if NoOpenPair(x) {
      NoOpenPairBlocks(x, rest, p);
    } else {
      MarkerBlocks(x, rest, p);
    }
    ReplaceSkip(x, rest, p, to);
  }

  /** Replacing `p` in an inert text leaves it as it is. */
  lemma ReplaceKeepLast(x: string, p: string, to: string)
    requires Marker(p) && Inert(x, p)
    ensures Replace(x, p, to) == x
  {
    ReplaceKeep(x, [], p, to);
    assert x + [] == x;
  }

  /** Everything before `p` in a text of five inert parts, then `p`, is those parts. */
  lemma PrefixFive(x1: string, x2: string, x3: string, x4: string, x5: string, p: string, rest: string)
    requires Marker(p) && Inert(x1, p) && Inert(x2, p) && Inert(x3, p) && Inert(x4, p) && Inert(x5, p)
    ensures PrefixBefore(x1 + (x2 + (x3 + (x4 + (x5 + (p + rest))))), p) == x1 + (x2 + (x3 + (x4 + x5)))
  {
    PrefixBeforeHere(p, rest);
    PrefixStep(x5, p + rest, p);
    assert x5 + [] == x5;
    PrefixStep(x4, x5 + (p + rest), p);
    PrefixStep(x3, x4 + (x5 + (p + rest)), p);
    PrefixStep(x2, x3 + (x4 + (x5 + (p + rest))), p);
    PrefixStep(x1, x2 + (x3 + (x4 + (x5 + (p + rest)))), p);
  }

  lemma PrefixStep(x: string, rest: string, p: string)
    requires Marker(p) && Inert(x, p)
    ensures PrefixBefore(x + rest, p) == x + PrefixBefore(rest, p)
  {
    if NoOpenPair(x) {
      NoOpenPairBlocks(x, rest, p);
    } else {
      MarkerBlocks(x, rest, p);
    }
    PrefixBeforeSkip(x, rest, p);
  }

  /** The three replacements on such a template put the tree text, the command and the history in place. */
  lemma SubstitutedLayout(pre: string, m1: string, m2: string, m3: string, post: string,
                          treeText: string, command: string, previous: seq<string>)
    requires NoOpenPair(pre) && NoOpenPair(m1) && NoOpenPair(m2) && NoOpenPair(m3) && NoOpenPair(post)
    requires NoOpenPair(treeText) && NoOpenPair(command)
    ensures var template := pre + (TREE_TEXT + (m1 + (USER_COMMAND + (m2 + (CUTOFF + (m3 + (PREVIOUS_ACTIONS + post)))))));
      Substituted(template, treeText, command, previous) ==
        pre + (treeText + (m1 + (command + (m2 + (CUTOFF + (m3 + (History(previous) + post)))))))
  {
    var h := History(previous);
    TreeTextRound(pre, m1, m2, m3, post, treeText);
    CommandRound(pre, m1, m2, m3, post, treeText, command);
    HistoryRound(pre, m1, m2, m3, post, treeText, command, h);
  }

  lemma TreeTextRound(pre: string, m1: string, m2: string, m3: string, post: string, treeText: string)
    requires NoOpenPair(pre) && NoOpenPair(m1) && NoOpenPair(m2) && NoOpenPair(m3) && NoOpenPair(post)
    ensures Replace(pre + (TREE_TEXT + (m1 + (USER_COMMAND + (m2 + (CUTOFF + (m3 + (PREVIOUS_ACTIONS + post))))))), TREE_TEXT, treeText)
      == pre + (treeText + (m1 + (USER_COMMAND + (m2 + (CUTOFF + (m3 + (PREVIOUS_ACTIONS + post)))))))
  {
    var p := TREE_TEXT;
    TreeTextMarker();
    UserCommandMarker();
    PreviousActionsMarker();
    CutoffMarker();
    MarkersDiffer();
    ReplaceKeepLast(post, p, treeText);
    ReplaceKeep(PREVIOUS_ACTIONS, post, p, treeText);
    ReplaceKeep(m3, PREVIOUS_ACTIONS + post, p, treeText);
    ReplaceKeep(CUTOFF, m3 + (PREVIOUS_ACTIONS + post), p, treeText);
    ReplaceKeep(m2, CUTOFF + (m3 + (PREVIOUS_ACTIONS + post)), p, treeText);
    ReplaceKeep(USER_COMMAND, m2 + (CUTOFF + (m3 + (PREVIOUS_ACTIONS + post))), p, treeText);
    ReplaceKeep(m1, USER_COMMAND + (m2 + (CUTOFF + (m3 + (PREVIOUS_ACTIONS + post)))), p, treeText);
    ReplaceHere(p, m1 + (USER_COMMAND + (m2 + (CUTOFF + (m3 + (PREVIOUS_ACTIONS + post))))), treeText);
    ReplaceKeep(pre, p + (m1 + (USER_COMMAND + (m2 + (CUTOFF + (m3 + (PREVIOUS_ACTIONS + post)))))), p, treeText);
  }

  lemma CommandRound(pre: string, m1: string, m2: string, m3: string, post: string, treeText: string, command: string)
    requires NoOpenPair(pre) && NoOpenPair(m1) && NoOpenPair(m2) && NoOpenPair(m3) && NoOpenPair(post)
    requires NoOpenPair(treeText)
    ensures Replace(pre + (treeText + (m1 + (USER_COMMAND + (m2 + (CUTOFF + (m3 + (PREVIOUS_ACTIONS + post))))))), USER_COMMAND, command)
      == pre + (treeText + (m1 + (command + (m2 + (CUTOFF + (m3 + (PREVIOUS_ACTIONS + post)))))))
  {
    var p := USER_COMMAND;
    UserCommandMarker();
    PreviousActionsMarker();
    CutoffMarker();
    MarkersDiffer();
    ReplaceKeepLast(post, p, command);
    ReplaceKeep(PREVIOUS_ACTIONS, post, p, command);
    ReplaceKeep(m3, PREVIOUS_ACTIONS + post, p, command);
    ReplaceKeep(CUTOFF, m3 + (PREVIOUS_ACTIONS + post), p, command);
    ReplaceKeep(m2, CUTOFF + (m3 + (PREVIOUS_ACTIONS + post)), p, command);
    ReplaceHere(p, m2 + (CUTOFF + (m3 + (PREVIOUS_ACTIONS + post))), command);
    ReplaceKeep(m1, p + (m2 + (CUTOFF + (m3 + (PREVIOUS_ACTIONS + post)))), p, command);
    ReplaceKeep(treeText, m1 + (p + (m2 + (CUTOFF + (m3 + (PREVIOUS_ACTIONS + post))))), p, command);
    ReplaceKeep(pre, treeText + (m1 + (p + (m2 + (CUTOFF + (m3 + (PREVIOUS_ACTIONS + post)))))), p, command);
  }

  lemma HistoryRound(pre: string, m1: string, m2: string, m3: string, post: string, treeText: string, command: string, h: string)
    requires NoOpenPair(pre) && NoOpenPair(m1) && NoOpenPair(m2) && NoOpenPair(m3) && NoOpenPair(post)
    requires NoOpenPair(treeText) && NoOpenPair(command)
    ensures Replace(pre + (treeText + (m1 + (command + (m2 + (CUTOFF + (m3 + (PREVIOUS_ACTIONS + post))))))), PREVIOUS_ACTIONS, h)
      == pre + (treeText + (m1 + (command + (m2 + (CUTOFF + (m3 + (h + post)))))))
  {
    var p := PREVIOUS_ACTIONS;
    PreviousActionsMarker();
    CutoffMarker();
    MarkersDiffer();
    ReplaceKeepLast(post, p, h);
    ReplaceHere(p, post, h);
    ReplaceKeep(m3, p + post, p, h);
    ReplaceKeep(CUTOFF, m3 + (p + post), p, h);
    ReplaceKeep(m2, CUTOFF + (m3 + (p + post)), p, h);
    ReplaceKeep(command, m2 + (CUTOFF + (m3 + (p + post))), p, h);
    ReplaceKeep(m1, command + (m2 + (CUTOFF + (m3 + (p + post)))), p, h);
    ReplaceKeep(treeText, m1 + (command + (m2 + (CUTOFF + (m3 + (p + post))))), p, h);
    ReplaceKeep(pre, treeText + (m1 + (command + (m2 + (CUTOFF + (m3 + (p + post)))))), p, h);
  }

  /** Replacing the marker in such a prompt puts `to` in its place and leaves everything else. */
  lemma CutoffRound(pre: string, m1: string, m2: string, m3: string, post: string, treeText: string, command: string, h: string, to: string)
    requires NoOpenPair(pre) && NoOpenPair(m1) && NoOpenPair(m2) && NoOpenPair(m3) && NoOpenPair(post)
    requires NoOpenPair(treeText) && NoOpenPair(command) && NoOpenPair(h)
    ensures Replace(pre + (treeText + (m1 + (command + (m2 + (CUTOFF + (m3 + (h + post))))))), CUTOFF, to)
      == pre + (treeText + (m1 + (command + (m2 + (to + (m3 + (h + post)))))))
  {
    var p := CUTOFF;
    CutoffMarker();
    ReplaceKeepLast(post, p, to);
    ReplaceKeep(h, post, p, to);
    ReplaceKeep(m3, h + post, p, to);
    ReplaceHere(p, m3 + (h + post), to);
    ReplaceKeep(m2, p + (m3 + (h + post)), p, to);
    ReplaceKeep(command, m2 + (p + (m3 + (h + post))), p, to);
    ReplaceKeep(m1, command + (m2 + (p + (m3 + (h + post)))), p, to);
    ReplaceKeep(treeText, m1 + (command + (m2 + (p + (m3 + (h + post))))), p, to);
    ReplaceKeep(pre, treeText + (m1 + (command + (m2 + (p + (m3 + (h + post)))))), p, to);
  }

  /**
   * For a template with the tree text, then the command, then the cutoff marker, then the
   * history placeholder, around texts in which no placeholder can begin: when the tree text
   * and the command hold none either, the first trip's prompt is the trimmed text before the
   * marker, with the tree text and the command in place.
   */
  lemma FirstPromptLayout(pre: string, m1: string, m2: string, m3: string, post: string, treeText: string, command: string)
    requires NoOpenPair(pre) && NoOpenPair(m1) && NoOpenPair(m2) && NoOpenPair(m3) && NoOpenPair(post)
    requires NoOpenPair(treeText) && NoOpenPair(command)
    ensures var template := pre + (TREE_TEXT + (m1 + (USER_COMMAND + (m2 + (CUTOFF + (m3 + (PREVIOUS_ACTIONS + post)))))));
      AssemblePrompt(template, treeText, command, []) == Trim(pre + (treeText + (m1 + (command + m2))))
  {
    CutoffMarker();
    SubstitutedLayout(pre, m1, m2, m3, post, treeText, command, []);
    PrefixFive(pre, treeText, m1, command, m2, CUTOFF, m3 + (History([]) + post));
  }

  /**
   * For the same templates, when the tree text, the command and the history hold no
   * placeholder, a later trip's prompt is the whole template with the tree text, the command
   * and the history in place and the marker removed.
   */
  lemma LaterPromptLayout(pre: string, m1: string, m2: string, m3: string, post: string,
                          treeText: string, command: string, previous: seq<string>)
    requires previous != []
    requires NoOpenPair(pre) && NoOpenPair(m1) && NoOpenPair(m2) && NoOpenPair(m3) && NoOpenPair(post)
    requires NoOpenPair(treeText) && NoOpenPair(command) && NoOpenPair(History(previous))
    ensures var template := pre + (TREE_TEXT + (m1 + (USER_COMMAND + (m2 + (CUTOFF + (m3 + (PREVIOUS_ACTIONS + post)))))));
      AssemblePrompt(template, treeText, command, previous) ==
        pre + (treeText + (m1 + (command + (m2 + (m3 + (History(previous) + post))))))
  {
    var h := History(previous);
    SubstitutedLayout(pre, m1, m2, m3, post, treeText, command, previous);
    CutoffRound(pre, m1, m2, m3, post, treeText, command, h, []);
    assert m2 + ([] + (m3 + (h + post))) == m2 + (m3 + (h + post));
  }
}
