/**
 * The element tree (packages/voxurf/src/tree.rs): nodes, the tree of roots with its selector
 * list, and the text rendering handed to the language model.
 *
 * Equality of `Node` is Dafny's structural datatype equality, as the source's
 * `#[derive(PartialEq, Eq)]` gives it. The source's `Tree` holds only its roots, while `Tree`
 * here also carries the selector list that the extension builds beside them; `SameTree` is the
 * source's derived equality on trees, and it compares the roots alone.
 */
module Tree {
  import opened Wrappers
  import opened StdStr

  /**
   * One element. `properties` lists the property map's entries in its iteration order.
   */
  datatype Node = Node(
    id: U32,
    name: Option<string>,
    description: Option<string>,
    role: Option<string>,
    state: Option<string>,
    properties: seq<(string, string)>,
    children: seq<Node>)

  /** The roots and every selector in the tree, in discovery order. */
  datatype Tree = Tree(roots: seq<Node>, selectors: seq<U32>)

  /** The derived `PartialEq` of tree.rs's `Tree { roots }`: the roots, compared deeply. */
  predicate SameTree(a: Tree, b: Tree)
  {
    a.roots == b.roots
  }

  // ---------------------------------------------------------------- size and shape

  /** The number of nodes in a forest. */
  function ForestSize(cs: seq<Node>): nat
  {
    if cs == [] then 0 else 1 + ForestSize(cs[0].children) + ForestSize(cs[1..])
  }

  function Size(n: Node): nat { 1 + ForestSize(n.children) }

  /** The selectors of every node of a forest, as a bag. */
  function ForestSelectors(cs: seq<Node>): multiset<U32>
  {
    if cs == [] then multiset{} else multiset{cs[0].id} + ForestSelectors(cs[0].children) + ForestSelectors(cs[1..])
  }

  lemma {:induction false} ForestSelectorsSize(cs: seq<Node>)
    ensures |ForestSelectors(cs)| == ForestSize(cs)
  {
    if cs != [] {
      ForestSelectorsSize(cs[0].children);
      ForestSelectorsSize(cs[1..]);
    }
  }

  lemma {:induction false} ForestAppend(a: seq<Node>, b: seq<Node>)
    ensures ForestSize(a + b) == ForestSize(a) + ForestSize(b)
    ensures ForestSelectors(a + b) == ForestSelectors(a) + ForestSelectors(b)
  {
    if a == [] {
      assert a + b == b;
    } else {
      assert (a + b)[0] == a[0];
      assert (a + b)[1..] == a[1..] + b;
      ForestAppend(a[1..], b);
    }
  }

  /** A forest's size and selectors are those of the nodes before, at and after any position. */
  lemma ForestSplit(cs: seq<Node>, i: nat)
    requires i < |cs|
    ensures ForestSize(cs) == ForestSize(cs[..i]) + ForestSize([cs[i]]) + ForestSize(cs[i + 1..])
    ensures ForestSelectors(cs) == ForestSelectors(cs[..i]) + ForestSelectors([cs[i]]) + ForestSelectors(cs[i + 1..])
  {
    var pre, x, post := cs[..i], [cs[i]], cs[i + 1..];
    assert cs == (pre + x) + post;
    ForestAppend(pre + x, post);
    ForestAppend(pre, x);
  }



  // ---------------------------------------------------------------- rendering

  /** `name`, or "<null>" when the node has none. */
  function NameText(name: Option<string>): string
  {
    match name
    case Some(s) => s
    case None => "<null>"
  }

  /** " (x)" for a present role or description, nothing for an absent one. */
  function Parenthesised(x: Option<string>): string
  {
    match x
    case Some(s) => " (" + s + ")"
    case None => ""
  }

  function Entry(p: (string, string)): string { p.0 + ": " + p.1 }

  /** The property loop: every entry followed by ", ". */
  function EntriesWithCommas(props: seq<(string, string)>): (r: string)
    ensures props != [] ==> |r| >= 2 && r[|r| - 2..] == ", "
  {
    if props == [] then [] else
      var rest := EntriesWithCommas(props[1..]);
      var r := Entry(props[0]) + ", " + rest;
      assert rest != [] ==> r[|r| - 2..] == rest[|rest| - 2..];
      r
  }

  /** " {k: v, ...}" with the last ", " stripped, or nothing for an empty map. */
  function PropertiesText(props: seq<(string, string)>): string
  {
    if props == [] then ""
    else
      var s := " {" + EntriesWithCommas(props);
      assert s[|s| - 2..] == ", ";
      StripSuffixStr(s, ", ").value + "}"
  }

  /** " with state v" (or the legacy " with value v") for a present state. */
  function StateText(state: Option<string>, tag: string): string
  {
    match state
    case Some(v) => tag + v
    case None => ""
  }

  /** The indentation, the id and the opening quote of a node's line. */
  function Lead(n: Node, indent: nat): string
  {
    Repeat('\t', indent) + "- [" + Decimal(n.id) + "] \""
  }

  /** The rest of a node's line, each optional section empty when the field is absent. */
  function Details(n: Node, tag: string): string
  {
    NameText(n.name) + "\"" + Parenthesised(n.role) + Parenthesised(n.description)
      + PropertiesText(n.properties) + StateText(n.state, tag)
  }

  /** The first line of a node: everything `to_string` prints before the children. */
  function Header(n: Node, indent: nat, tag: string): string
  {
    Lead(n, indent) + Details(n, tag)
  }

  /** Every node of the forest on a new line, its own children one tab deeper. */
  function ChildrenText(cs: seq<Node>, indent: nat, tag: string): string
  {
    if cs == [] then ""
    else ("\n" + Header(cs[0], indent, tag) + ChildrenText(cs[0].children, indent + 1, tag)
      + ChildrenText(cs[1..], indent, tag))
  }

  function Render(n: Node, indent: nat, tag: string): string
  {
    Header(n, indent, tag) + ChildrenText(n.children, indent + 1, tag)
  }

  const STATE_LABEL: string := " with state "

  /** `Node::to_string(indent_level)`. */
  function ToString(n: Node, indent: nat): string
  {
    Render(n, indent, STATE_LABEL)
  }

  // ---------------------------------------------------------------- rendering properties

  /** The properties section is " {" + the entries joined by ", " + "}": no trailing ", ". */
  lemma {:induction false} PropertiesTextJoined(props: seq<(string, string)>)
    ensures props == [] ==> PropertiesText(props) == ""
    ensures props != [] ==>
      PropertiesText(props) == " {" + Join(EntryTexts(props), ", ") + "}"
  {
    if props != [] {
      EntriesWithCommasJoined(props);
      var s := " {" + EntriesWithCommas(props);
      assert s == " {" + Join(EntryTexts(props), ", ") + ", ";
    }
  }

  function EntryTexts(props: seq<(string, string)>): (r: seq<string>)
    ensures |r| == |props| && forall i | 0 <= i < |props| :: r[i] == Entry(props[i])
  {
    if props == [] then [] else [Entry(props[0])] + EntryTexts(props[1..])
  }

  lemma {:induction false} EntriesWithCommasJoined(props: seq<(string, string)>)
    requires props != []
    ensures EntriesWithCommas(props) == Join(EntryTexts(props), ", ") + ", "
  {
    if |props| > 1 {
      EntriesWithCommasJoined(props[1..]);
      assert EntryTexts(props)[1..] == EntryTexts(props[1..]);
    }
  }

  /** No text in the forest holds a line break. */
  predicate ForestSingleLine(cs: seq<Node>)
  {
    cs == [] || (HeaderFieldsSingleLine(cs[0]) && ForestSingleLine(cs[0].children) && ForestSingleLine(cs[1..]))
  }

  predicate HeaderFieldsSingleLine(n: Node)
  {
    && (n.name.Some? ==> '\n' !in n.name.value)
    && (n.role.Some? ==> '\n' !in n.role.value)
    && (n.description.Some? ==> '\n' !in n.description.value)
    && (n.state.Some? ==> '\n' !in n.state.value)
    && forall i | 0 <= i < |n.properties| :: '\n' !in n.properties[i].0 && '\n' !in n.properties[i].1
  }

  lemma {:induction false} EntriesSingleLine(props: seq<(string, string)>)
    requires forall i | 0 <= i < |props| :: '\n' !in props[i].0 && '\n' !in props[i].1
    ensures '\n' !in EntriesWithCommas(props)
  {
    if props != [] {
      EntriesSingleLine(props[1..]);
    }
  }

  lemma LeadSingleLine(n: Node, indent: nat)
    ensures '\n' !in Lead(n, indent)
  {
    var d := Decimal(n.id);
    assert '\n' !in d by {
      forall i | 0 <= i < |d| ensures d[i] != '\n' { assert IsDigit(d[i]); }
    }
    var t := Repeat('\t', indent);
    assert '\n' !in t by {
      forall i | 0 <= i < |t| ensures t[i] != '\n' { assert t[i] == '\t'; }
    }
  }

  lemma DetailsSingleLine(n: Node, tag: string)
    requires HeaderFieldsSingleLine(n) && '\n' !in tag
    ensures '\n' !in Details(n, tag)
  {
    if n.properties != [] {
      EntriesSingleLine(n.properties);
      var s := " {" + EntriesWithCommas(n.properties);
      var t := StripSuffixStr(s, ", ").value;
      assert s == t + ", ";
      assert '\n' !in t;
    }
  }

  lemma HeaderSingleLine(n: Node, indent: nat, tag: string)
    requires HeaderFieldsSingleLine(n) && '\n' !in tag
    ensures Count('\n', Header(n, indent, tag)) == 0
  {
    LeadSingleLine(n, indent);
    DetailsSingleLine(n, tag);
    CountAbsent('\n', Header(n, indent, tag));
  }

  /**
   * One line per node: when no text holds a line break, the rendering of a forest holds
   * exactly one "\n" per node, so each child sits on its own line and a leaf adds none.
   */
  lemma {:induction false} ChildrenTextLines(cs: seq<Node>, indent: nat, tag: string)
    requires ForestSingleLine(cs) && '\n' !in tag
    ensures Count('\n', ChildrenText(cs, indent, tag)) == ForestSize(cs)
  {
    if cs != [] {
      var h := Header(cs[0], indent, tag);
      var a := ChildrenText(cs[0].children, indent + 1, tag);
      var b := ChildrenText(cs[1..], indent, tag);
      HeaderSingleLine(cs[0], indent, tag);
      ChildrenTextLines(cs[0].children, indent + 1, tag);
      ChildrenTextLines(cs[1..], indent, tag);
      CountConcat('\n', "\n", h);
      CountConcat('\n', "\n" + h, a);
      CountConcat('\n', "\n" + h + a, b);
    }
  }

  lemma RenderLines(n: Node, indent: nat, tag: string)
    requires HeaderFieldsSingleLine(n) && ForestSingleLine(n.children) && '\n' !in tag
    ensures Count('\n', Render(n, indent, tag)) == Size(n) - 1
  {
    HeaderSingleLine(n, indent, tag);
    ChildrenTextLines(n.children, indent + 1, tag);
    CountConcat('\n', Header(n, indent, tag), ChildrenText(n.children, indent + 1, tag));
  }

  /**
   * Every rendered node starts with its indentation and "- [<id>] \"", and the id printed
   * there parses back to the node's id.
   */
  lemma RenderStart(n: Node, indent: nat, tag: string)
    ensures |Lead(n, indent)| <= |Render(n, indent, tag)|
    ensures Render(n, indent, tag)[..|Lead(n, indent)|] == Lead(n, indent)
    ensures var r := Render(n, indent, tag); var d := Decimal(n.id);
      indent + 3 + |d| <= |r| && ParseU32(r[indent + 3..indent + 3 + |d|]) == Some(n.id)
  {
    var d := Decimal(n.id);
    var pre := Repeat('\t', indent) + "- [";
    var rest := Details(n, tag) + ChildrenText(n.children, indent + 1, tag);
    assert Lead(n, indent) == pre + d + "] \"";
    assert Render(n, indent, tag) == Lead(n, indent) + rest;
    LeadParts(pre, d, rest);
    ParseDecimal(n.id);
  }

  /** A line made of a prefix, the id and the rest starts with the first two, the id in its place. */
  lemma LeadParts(pre: string, d: string, rest: string)
    ensures var lead := pre + d + "] \""; var r := lead + rest;
      |lead| <= |r| && r[..|lead|] == lead && r[|pre|..|pre| + |d|] == d
  {
    var lead := pre + d + "] \"";
    PrefixOfConcat(lead, rest);
    SliceOfMiddle(pre, d, "] \"" + rest);
    assert lead + rest == pre + d + ("] \"" + rest);
  }

  lemma PrefixOfConcat(a: string, b: string)
    ensures (a + b)[..|a|] == a
  {
  }

  lemma SliceOfMiddle(a: string, d: string, b: string)
    ensures (a + d + b)[|a|..|a| + |d|] == d
  {
  }

  /** A forest with no state anywhere renders the same whatever the state tag. */
  predicate ForestStateless(cs: seq<Node>)
  {
    cs == [] || (cs[0].state.None? && ForestStateless(cs[0].children) && ForestStateless(cs[1..]))
  }

  lemma {:induction false} ChildrenTextLabelFree(cs: seq<Node>, indent: nat, l1: string, l2: string)
    requires ForestStateless(cs)
    ensures ChildrenText(cs, indent, l1) == ChildrenText(cs, indent, l2)
  {
    if cs != [] {
      ChildrenTextLabelFree(cs[0].children, indent + 1, l1, l2);
      ChildrenTextLabelFree(cs[1..], indent, l1, l2);
    }
  }
}
