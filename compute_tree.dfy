/**
 * Building the element tree from the browser's flat accessibility tree
 * (packages/voxurf-extension/src/compute_tree.rs): every record names its parent, records are
 * placed pass after pass once their parent has a place, records flagged for removal hand their
 * place on to their children, and every node kept contributes its selector in the order it was
 * placed.
 *
 * The raw tree arrives already deserialised (or with the deserialiser's message); JavaScript
 * values are reduced to what reconstitution asks of them.
 */
module ComputeTree {
  import opened Wrappers
  import opened StdStr
  import opened Tree
  import opened Errors
  import opened TreePaths

  /** The most passes reconstitution makes over the records. */
  const MAX_ITERS: nat := 50

  /**
   * A JavaScript value as far as reconstitution looks at it: whether it is `true`, its text if
   * it is a string (`as_string`), and the text `js_value_to_string` gives for it.
   */
  datatype JsValue = JsValue(isTrue: bool, asString: Option<string>, text: string)

  datatype AxValue = AxValue(ty: string, value: JsValue)

  datatype AxProperty = AxProperty(name: string, value: AxValue)

  /** A record of the browser's flat tree. */
  datatype AxNode = AxNode(
    nodeId: string,
    ignored: bool,
    role: Option<AxValue>,
    name: Option<AxValue>,
    description: Option<AxValue>,
    value: Option<AxValue>,
    properties: Option<seq<AxProperty>>,
    parentId: Option<string>,
    backendDomNodeId: Option<U32>)

  /** A record ready to be placed: its own id, its parent's, the node's fields and whether to drop it. */
  datatype Intermediate = Intermediate(
    id: string,
    parentId: Option<string>,
    domId: U32,
    name: Option<string>,
    description: Option<string>,
    role: Option<string>,
    value: Option<string>,
    properties: seq<(string, string)>,
    remove: bool)

  // ---------------------------------------------------------------- records

  /** An optional value read as a string, if it is one. */
  function StringOf(v: Option<AxValue>): Option<string>
  {
    if v.Some? then v.value.value.asString else None
  }

  /** Whether some property is `focusable` with the value `true`. */
  function AnyFocusable(props: seq<AxProperty>): (r: bool)
    ensures r <==> exists k | 0 <= k < |props| :: props[k].name == "focusable" && props[k].value.value.isTrue
  {
    if props == [] then false
    else (props[0].name == "focusable" && props[0].value.value.isTrue) || AnyFocusable(props[1..])
  }

  /** The properties other than `focusable`, with their values as text, in order. */
  function KeptProperties(props: seq<AxProperty>): (r: seq<(string, string)>)
    ensures forall k | 0 <= k < |r| :: r[k].0 != "focusable"
    ensures forall k | 0 <= k < |props| && props[k].name != "focusable" ::
      (props[k].name, props[k].value.value.text) in r
  {
    if props == [] then []
    else
      var rest := KeptProperties(props[1..]);
      assert forall k | 1 <= k < |props| :: props[k] == props[1..][k - 1];
      KeptHead(props[0]) + rest
  }

  /**
   * `filter` then `map` exactly: the kept properties of two runs of properties are those of
   * the first run followed by those of the second.
   */
  lemma {:induction false} KeptSplit(p1: seq<AxProperty>, p2: seq<AxProperty>)
    ensures KeptProperties(p1 + p2) == KeptProperties(p1) + KeptProperties(p2)
    decreases |p1|
  {
    if p1 == [] {
      assert p1 + p2 == p2;
    } else {
      KeptSplit(p1[1..], p2);
      assert (p1 + p2)[1..] == p1[1..] + p2;
      assert (p1 + p2)[0] == p1[0];
    }
  }

  /** What a single property contributes: its name and its value's text, unless it is `focusable`. */
  function KeptHead(p: AxProperty): seq<(string, string)>
  {
    if p.name != "focusable" then [(p.name, p.value.value.text)] else []
  }

  /** A single property is kept, as its name and its value's text, exactly when it is not `focusable`. */
  lemma KeptOne(p: AxProperty)
    ensures KeptProperties([p]) == KeptHead(p)
    ensures KeptHead(p) == [] <==> p.name == "focusable"
  {
    assert [p][1..] == [];
  }

  /**
   * `into_intermediate`: a record is dropped unless it has a `focusable` property that is
   * `true`, and also when it is ignored or its role is `RootWebArea`; the `focusable`
   * property itself is not kept.
   */
  function IntoIntermediate(n: AxNode): (r: Intermediate)
    ensures r.id == n.nodeId && r.parentId == n.parentId
    ensures !r.remove <==>
      && n.properties.Some?
      && (exists k | 0 <= k < |n.properties.value| ::
            n.properties.value[k].name == "focusable" && n.properties.value[k].value.value.isTrue)
      && !n.ignored
      && StringOf(n.role) != Some("RootWebArea")
    ensures forall k | 0 <= k < |r.properties| :: r.properties[k].0 != "focusable"
  {
    var role := StringOf(n.role);
    Intermediate(
      n.nodeId,
      n.parentId,
      if n.backendDomNodeId.Some? then n.backendDomNodeId.value else 0,
      StringOf(n.name),
      StringOf(n.description),
      role,
      if n.value.Some? then Some(n.value.value.value.text) else None,
      if n.properties.Some? then KeptProperties(n.properties.value) else [],
      !(n.properties.Some? && AnyFocusable(n.properties.value)) || n.ignored || role == Some("RootWebArea"))
  }

  /** `into_final`: the element's node, without the accessibility ids. */
  function IntoFinal(i: Intermediate): Node
  {
    Node(i.domId, i.name, i.description, i.role, i.value, i.properties, [])
  }

  /** A final node is a leaf carrying its record's selector, and nothing of the record's ids. */
  lemma FinalLeaf(i: Intermediate)
    ensures Size(IntoFinal(i)) == 1 && ForestSelectors([IntoFinal(i)]) == multiset{i.domId}
    ensures IntoFinal(i).id == i.domId && IntoFinal(i).state == i.value
  {
    SingleCounts(IntoFinal(i));
  }

  /** The records as the first pass finds them. */
  function Flat(nodes: seq<AxNode>): (r: seq<Option<Intermediate>>)
    ensures |r| == |nodes| && forall k | 0 <= k < |r| :: r[k] == Some(IntoIntermediate(nodes[k]))
  {
    seq(|nodes|, k requires 0 <= k < |nodes| => Some(IntoIntermediate(nodes[k])))
  }

  // ---------------------------------------------------------------- placing records

  /** What a pass builds: the roots, the selectors in the order placed, and each placed record's location. */
  datatype Arena = Arena(roots: seq<Node>, selectors: seq<U32>, refs: map<string, seq<nat>>)

  /** Every recorded location leads somewhere, and the selectors are exactly those of the nodes placed. */
  ghost predicate Valid(a: Arena)
  {
    && (forall id | id in a.refs :: ValidLoc(a.roots, a.refs[id]))
    && multiset(a.selectors) == ForestSelectors(a.roots)
  }

  /**
   * Placing one record, or nothing when its parent has no location yet. A root goes at the
   * end of the roots, a child at the end of its parent's children list; a dropped record
   * takes over its parent's location (the empty path for a root), so its children go where
   * it would have gone.
   */
  function Place(a: Arena, node: Intermediate): Option<Arena>
  {
    match node.parentId
    case Some(parentId) =>
      if parentId in a.refs && ValidLoc(a.roots, a.refs[parentId]) then
        var loc := a.refs[parentId];
        if node.remove then Some(a.(refs := a.refs[node.id := loc]))
        else
          Some(Arena(AppendAt(a.roots, loc, IntoFinal(node)), a.selectors + [node.domId],
                     a.refs[node.id := loc + [|ChildrenAt(a.roots, loc)|]]))
      else None
    case None =>
      if node.remove then Some(a.(refs := a.refs[node.id := []]))
      else Some(Arena(a.roots + [IntoFinal(node)], a.selectors + [node.domId], a.refs[node.id := [|a.roots|]]))
  }

  /**
   * Placing keeps every location valid and the selectors in step with the nodes; a record
   * waits exactly when its parent has no location; a kept record adds its selector at the
   * end, a dropped one adds nothing.
   */
  lemma PlaceValid(a: Arena, node: Intermediate)
    requires Valid(a)
    ensures Place(a, node).None? <==> node.parentId.Some? && node.parentId.value !in a.refs
    ensures Place(a, node).Some? ==> Valid(Place(a, node).value)
    ensures Place(a, node).Some? ==>
      Place(a, node).value.selectors == a.selectors + (if node.remove then [] else [node.domId])
    ensures Place(a, node).Some? ==> Place(a, node).value.refs.Keys == a.refs.Keys + {node.id}
  {
    if node.parentId.Some? && node.parentId.value in a.refs && !node.remove {
      Kept(a, a.refs[node.parentId.value], node);
    } else if node.parentId.None? && !node.remove {
      Kept(a, [], node);
      assert [] + [|ChildrenAt(a.roots, [])|] == [|a.roots|];
    }
  }

  /** Appending a kept record's node at a valid location keeps the arena valid. */
  lemma Kept(a: Arena, loc: seq<nat>, node: Intermediate)
    requires Valid(a) && ValidLoc(a.roots, loc)
    ensures Valid(Arena(AppendAt(a.roots, loc, IntoFinal(node)), a.selectors + [node.domId],
                        a.refs[node.id := loc + [|ChildrenAt(a.roots, loc)|]]))
  {
    var n := IntoFinal(node);
    var roots := AppendAt(a.roots, loc, n);
    FinalLeaf(node);
    AppendAtCounts(a.roots, loc, n);
    AppendedLoc(a.roots, loc, n);
    forall id | id in a.refs ensures ValidLoc(roots, a.refs[id]) {
      AppendKeepsValid(a.roots, loc, n, a.refs[id]);
    }
    assert multiset(a.selectors + [node.domId]) == multiset(a.selectors) + multiset{node.domId};
  }

  // ---------------------------------------------------------------- passes

  /** Whether any record is still waiting. */
  predicate AnyLeft(flat: seq<Option<Intermediate>>)
  {
    exists k | 0 <= k < |flat| :: flat[k].Some?
  }

  /** One pass from index `i` on: each waiting record is placed and taken out, or left where it is. */
  function Sweep(a: Arena, flat: seq<Option<Intermediate>>, i: nat): (r: (Arena, seq<Option<Intermediate>>))
    requires i <= |flat|
    ensures |r.1| == |flat|
    decreases |flat| - i
  {
    if i == |flat| then (a, flat)
    else if flat[i].None? then Sweep(a, flat, i + 1)
    else
      var node := flat[i].value;
      match Place(a, node)
      case None => Sweep(a, flat, i + 1)
      case Some(a') => Sweep(a', flat[i := None], i + 1)
  }

  /** A pass only takes records out: each entry stays as it was or becomes empty, and those before `i` are untouched. */
  lemma {:induction false} SweepEntries(a: Arena, flat: seq<Option<Intermediate>>, i: nat)
    requires i <= |flat|
    ensures var r := Sweep(a, flat, i).1;
      && (forall j | 0 <= j < |flat| :: r[j] == flat[j] || r[j].None?)
      && (forall j | 0 <= j < i :: r[j] == flat[j])
    decreases |flat| - i
  {
    if i < |flat| {
      if flat[i].None? {
        assert Sweep(a, flat, i) == Sweep(a, flat, i + 1);
        SweepEntries(a, flat, i + 1);
      } else {
        var node := flat[i].value;
        match Place(a, node)
        case None =>
          assert Sweep(a, flat, i) == Sweep(a, flat, i + 1);
          SweepEntries(a, flat, i + 1);
        case Some(a') =>
          assert Sweep(a, flat, i) == Sweep(a', flat[i := None], i + 1);
          SweepEntries(a', flat[i := None], i + 1);
      }
    }
  }

  /** A pass keeps the arena valid. */
  lemma {:induction false} SweepValid(a: Arena, flat: seq<Option<Intermediate>>, i: nat)
    requires Valid(a) && i <= |flat|
    ensures Valid(Sweep(a, flat, i).0)
    decreases |flat| - i
  {
    if i < |flat| && flat[i].Some? {
      var node := flat[i].value;
      PlaceValid(a, node);
      match Place(a, node)
      case None => SweepValid(a, flat, i + 1);
      case Some(a') => SweepValid(a', flat[i := None], i + 1);
    } else if i < |flat| {
      SweepValid(a, flat, i + 1);
    }
  }

  /** Passes while records wait, at most `MAX_ITERS` of them; records still waiting then are an error. */
  function Passes(a: Arena, flat: seq<Option<Intermediate>>, iters: nat): Result<Tree, WeiError>
    requires iters <= MAX_ITERS
    decreases MAX_ITERS - iters
  {
    if AnyLeft(flat) && iters < MAX_ITERS then
      var (a', flat') := Sweep(a, flat, 0);
      Passes(a', flat', iters + 1)
    else if AnyLeft(flat) then Err(TreeReconstitutionTimeout(MAX_ITERS))
    else Ok(Tree(a.roots, a.selectors))
  }

  const EMPTY: Arena := Arena([], [], map[])

  /** `get_ax_tree` on the raw tree, or on the deserialiser's error. */
  function Reconstitute(raw: Result<seq<AxNode>, string>): Result<Tree, WeiError>
  {
    match raw
    case Err(e) => Err(AxTreeParseFailed(e))
    case Ok(nodes) => Passes(EMPTY, Flat(nodes), 0)
  }

  // ---------------------------------------------------------------- what reconstitution promises

  /** A kept root goes at the end of the roots, and its recorded location names its own, empty, children list. */
  lemma PlaceKeptRoot(a: Arena, node: Intermediate)
    requires Valid(a) && node.parentId.None? && !node.remove
    ensures Place(a, node).Some?
    ensures var r := Place(a, node).value;
      && r.roots == a.roots + [IntoFinal(node)]
      && r.selectors == a.selectors + [node.domId]
      && r.refs[node.id] == [|r.roots| - 1]
      && ValidLoc(r.roots, r.refs[node.id]) && ChildrenAt(r.roots, r.refs[node.id]) == []
  {
    var r := Place(a, node).value;
    var loc := [|a.roots|];
    assert loc[0] == |a.roots| && loc[1..] == [];
    assert r.roots[|a.roots|] == IntoFinal(node);
  }

  /** A kept child goes at the end of its parent's children list, and its location extends the parent's by that index. */
  lemma PlaceKeptChild(a: Arena, node: Intermediate)
    requires Valid(a) && node.parentId.Some? && node.parentId.value in a.refs && !node.remove
    ensures Place(a, node).Some?
    ensures var loc := a.refs[node.parentId.value];
      var r := Place(a, node).value;
      && ValidLoc(r.roots, loc)
      && ChildrenAt(r.roots, loc) == ChildrenAt(a.roots, loc) + [IntoFinal(node)]
      && r.selectors == a.selectors + [node.domId]
      && r.refs[node.id] == loc + [|ChildrenAt(r.roots, loc)| - 1]
      && ValidLoc(r.roots, r.refs[node.id]) && ChildrenAt(r.roots, r.refs[node.id]) == []
  {
    AppendedLoc(a.roots, a.refs[node.parentId.value], IntoFinal(node));
  }

  /** A dropped record changes no node and no selector; it takes over its parent's location, or the roots' for a root. */
  lemma PlaceRemoved(a: Arena, node: Intermediate)
    requires Valid(a) && node.remove
    requires node.parentId.Some? ==> node.parentId.value in a.refs
    ensures Place(a, node).Some?
    ensures var r := Place(a, node).value;
      && r.roots == a.roots && r.selectors == a.selectors
      && r.refs[node.id] == (if node.parentId.Some? then a.refs[node.parentId.value] else [])
  {
  }

  /** The children of a dropped root become roots. */
  lemma RemovedRootHoists(a: Arena, node: Intermediate, child: Intermediate)
    requires Valid(a) && node.parentId.None? && node.remove
    requires child.parentId == Some(node.id) && !child.remove
    ensures Place(a, node).Some? && Valid(Place(a, node).value)
    ensures Place(Place(a, node).value, child).Some?
    ensures Place(Place(a, node).value, child).value.roots == a.roots + [IntoFinal(child)]
  {
    PlaceValid(a, node);
    var b := Place(a, node).value;
    assert b.refs[node.id] == [] && b.roots == a.roots;
  }

  /** The children of a dropped child go into its parent's children list, where it would have gone. */
  lemma RemovedChildSplices(a: Arena, node: Intermediate, child: Intermediate)
    requires Valid(a) && node.parentId.Some? && node.parentId.value in a.refs && node.remove
    requires child.parentId == Some(node.id) && !child.remove
    ensures Place(a, node).Some? && Valid(Place(a, node).value)
    ensures Place(Place(a, node).value, child).Some?
    ensures var loc := a.refs[node.parentId.value];
      var r := Place(Place(a, node).value, child).value;
      ValidLoc(r.roots, loc) && ChildrenAt(r.roots, loc) == ChildrenAt(a.roots, loc) + [IntoFinal(child)]
  {
    PlaceValid(a, node);
    var b := Place(a, node).value;
    assert b.refs[node.id] == a.refs[node.parentId.value] && b.roots == a.roots;
  }

  /**
   * The result of the passes: a tree whose selectors are exactly its nodes' selectors, one per
   * node, or the timeout error after `MAX_ITERS` passes.
   */
  lemma {:induction false} PassesResult(a: Arena, flat: seq<Option<Intermediate>>, iters: nat)
    requires Valid(a) && iters <= MAX_ITERS
    ensures var r := Passes(a, flat, iters);
      && (r.Ok? ==> multiset(r.value.selectors) == ForestSelectors(r.value.roots)
                    && |r.value.selectors| == ForestSize(r.value.roots))
      && (r.Err? ==> r.error == TreeReconstitutionTimeout(MAX_ITERS))
    decreases MAX_ITERS - iters
  {
    if AnyLeft(flat) && iters < MAX_ITERS {
      SweepValid(a, flat, 0);
      var (a', flat') := Sweep(a, flat, 0);
      PassesResult(a', flat', iters + 1);
    } else if !AnyLeft(flat) {
      ForestSelectorsSize(a.roots);
    }
  }

  /** Reconstitution fails only on the deserialiser's error or on the timeout; a tree has one selector per node. */
  lemma ReconstituteResult(raw: Result<seq<AxNode>, string>)
    ensures var r := Reconstitute(raw);
      && (r.Ok? ==> multiset(r.value.selectors) == ForestSelectors(r.value.roots)
                    && |r.value.selectors| == ForestSize(r.value.roots))
      && (r.Err? ==> if raw.Err? then r.error == AxTreeParseFailed(raw.error)
                     else r.error == TreeReconstitutionTimeout(MAX_ITERS))
  {
    if raw.Ok? {
      assert Valid(EMPTY);
      PassesResult(EMPTY, Flat(raw.value), 0);
    }
  }

  /** From index `i` on, every waiting record's parent is placed already or waits at an earlier index. */
  ghost predicate ParentsFirst(flat: seq<Option<Intermediate>>, placed: set<string>, i: nat)
  {
    forall j | i <= j < |flat| && flat[j].Some? && flat[j].value.parentId.Some? ::
      flat[j].value.parentId.value in placed ||
      exists k | i <= k < j :: flat[k].Some? && flat[k].value.id == flat[j].value.parentId.value
  }

  /** A pass over records whose parents come first places every one of them. */
  lemma {:induction false} SweepParentsFirst(a: Arena, flat: seq<Option<Intermediate>>, i: nat)
    requires Valid(a) && i <= |flat| && ParentsFirst(flat, a.refs.Keys, i)
    ensures forall j | i <= j < |flat| :: Sweep(a, flat, i).1[j].None?
    decreases |flat| - i
  {
    if i < |flat| {
      if flat[i].None? {
        assert Sweep(a, flat, i) == Sweep(a, flat, i + 1);
        SweepParentsFirst(a, flat, i + 1);
        SweepEntries(a, flat, i + 1);
      } else {
        var node := flat[i].value;
        ParentsFirstStep(a, flat, i);
        var a' := Place(a, node).value;
        var flat' := flat[i := None];
        assert Sweep(a, flat, i) == Sweep(a', flat', i + 1);
        SweepParentsFirst(a', flat', i + 1);
        SweepEntries(a', flat', i + 1);
      }
    }
  }

  /** The first waiting record is placed, and the rest still have their parents first. */
  lemma ParentsFirstStep(a: Arena, flat: seq<Option<Intermediate>>, i: nat)
    requires Valid(a) && i < |flat| && flat[i].Some? && ParentsFirst(flat, a.refs.Keys, i)
    ensures Place(a, flat[i].value).Some? && Valid(Place(a, flat[i].value).value)
    ensures ParentsFirst(flat[i := None], Place(a, flat[i].value).value.refs.Keys, i + 1)
  {
    var node := flat[i].value;
    PlaceValid(a, node);
    var a' := Place(a, node).value;
    var flat' := flat[i := None];
    forall j | i + 1 <= j < |flat'| && flat'[j].Some? && flat'[j].value.parentId.Some?
      ensures flat'[j].value.parentId.value in a'.refs.Keys ||
        exists k | i + 1 <= k < j :: flat'[k].Some? && flat'[k].value.id == flat'[j].value.parentId.value
    {
      var p := flat[j].value.parentId.value;
      if p !in a.refs.Keys && p != node.id {
        var k :| i <= k < j && flat[k].Some? && flat[k].value.id == p;
        assert flat'[k] == flat[k];
      }
    }
  }

  /** A raw tree in which every record's parent comes before it is rebuilt in one pass, without error. */
  lemma ParentsFirstOnePass(nodes: seq<AxNode>)
    requires forall j | 0 <= j < |nodes| && nodes[j].parentId.Some? ::
      exists k | 0 <= k < j :: nodes[k].nodeId == nodes[j].parentId.value
    ensures Reconstitute(Ok(nodes)).Ok?
  {
    var flat := Flat(nodes);
    assert Valid(EMPTY);
    forall j | 0 <= j < |flat| && flat[j].Some? && flat[j].value.parentId.Some?
      ensures flat[j].value.parentId.value in EMPTY.refs.Keys ||
        exists k | 0 <= k < j :: flat[k].Some? && flat[k].value.id == flat[j].value.parentId.value
    {
      var k :| 0 <= k < j && nodes[k].nodeId == nodes[j].parentId.value;
      assert flat[k].value.id == nodes[k].nodeId;
    }
    if AnyLeft(flat) {
      SweepParentsFirst(EMPTY, flat, 0);
      var (a', flat') := Sweep(EMPTY, flat, 0);
      assert !AnyLeft(flat');
    }
  }

  /** A record whose parent is no record's id is never placed, and nothing outside `ids` gets a location. */
  lemma {:induction false} SweepKeepsOrphan(a: Arena, flat: seq<Option<Intermediate>>, i: nat, ids: set<string>, o: nat)
    requires Valid(a) && i <= |flat| && a.refs.Keys <= ids
    requires forall j | 0 <= j < |flat| && flat[j].Some? :: flat[j].value.id in ids
    requires o < |flat| && flat[o].Some? && flat[o].value.parentId.Some? && flat[o].value.parentId.value !in ids
    ensures Sweep(a, flat, i).0.refs.Keys <= ids && Sweep(a, flat, i).1[o] == flat[o]
    decreases |flat| - i
  {
    if i < |flat| {
      if flat[i].None? {
        assert Sweep(a, flat, i) == Sweep(a, flat, i + 1);
        SweepKeepsOrphan(a, flat, i + 1, ids, o);
      } else {
        var node := flat[i].value;
        PlaceValid(a, node);
        if Place(a, node).None? {
          assert Sweep(a, flat, i) == Sweep(a, flat, i + 1);
          SweepKeepsOrphan(a, flat, i + 1, ids, o);
        } else {
          var a' := Place(a, node).value;
          var flat' := flat[i := None];
          OrphanStep(a, flat, i, ids, o);
          assert Sweep(a, flat, i) == Sweep(a', flat', i + 1);
          SweepKeepsOrphan(a', flat', i + 1, ids, o);
        }
      }
    }
  }

  /** Placing a record other than the orphan keeps everything the sweep needs about it. */
  lemma OrphanStep(a: Arena, flat: seq<Option<Intermediate>>, i: nat, ids: set<string>, o: nat)
    requires Valid(a) && i < |flat| && a.refs.Keys <= ids
    requires forall j | 0 <= j < |flat| && flat[j].Some? :: flat[j].value.id in ids
    requires o < |flat| && flat[o].Some? && flat[o].value.parentId.Some? && flat[o].value.parentId.value !in ids
    requires flat[i].Some? && Place(a, flat[i].value).Some?
    ensures var a' := Place(a, flat[i].value).value; var flat' := flat[i := None];
      && Valid(a') && a'.refs.Keys <= ids && flat'[o] == flat[o]
      && forall j | 0 <= j < |flat'| && flat'[j].Some? :: flat'[j].value.id in ids
  {
    PlaceValid(a, flat[i].value);
    var flat' := flat[i := None];
    forall j | 0 <= j < |flat'| && flat'[j].Some? ensures flat'[j].value.id in ids {
      assert flat'[j] == flat[j];
    }
  }

  lemma {:induction false} PassesKeepOrphan(a: Arena, flat: seq<Option<Intermediate>>, iters: nat, ids: set<string>, o: nat)
    requires Valid(a) && iters <= MAX_ITERS && a.refs.Keys <= ids
    requires forall j | 0 <= j < |flat| && flat[j].Some? :: flat[j].value.id in ids
    requires o < |flat| && flat[o].Some? && flat[o].value.parentId.Some? && flat[o].value.parentId.value !in ids
    ensures Passes(a, flat, iters) == Err(TreeReconstitutionTimeout(MAX_ITERS))
    decreases MAX_ITERS - iters
  {
    assert AnyLeft(flat);
    if iters < MAX_ITERS {
      SweepKeepsOrphan(a, flat, 0, ids, o);
      SweepEntries(a, flat, 0);
      SweepValid(a, flat, 0);
      var (a', flat') := Sweep(a, flat, 0);
      PassesKeepOrphan(a', flat', iters + 1, ids, o);
    }
  }

  /** A record whose parent id belongs to no record makes reconstitution time out. */
  lemma OrphanTimesOut(nodes: seq<AxNode>, o: nat)
    requires o < |nodes| && nodes[o].parentId.Some?
    requires forall k | 0 <= k < |nodes| :: nodes[k].nodeId != nodes[o].parentId.value
    ensures Reconstitute(Ok(nodes)) == Err(TreeReconstitutionTimeout(MAX_ITERS))
  {
    var ids := set k | 0 <= k < |nodes| :: nodes[k].nodeId;
    var flat := Flat(nodes);
    assert Valid(EMPTY);
    forall j | 0 <= j < |flat| && flat[j].Some? ensures flat[j].value.id in ids {
      assert flat[j].value.id == nodes[j].nodeId;
    }
    PassesKeepOrphan(EMPTY, flat, 0, ids, o);
  }

  /**
   * The body of the inner loop for a record taken out of the flat list: place it, or report
   * that its parent has no location yet so that it goes back.
   */
  method PlaceRecord(tree: seq<Node>, domIds: seq<U32>, nodesRefMap: map<string, seq<nat>>, node: Intermediate)
    returns (placed: bool, tree': seq<Node>, domIds': seq<U32>, nodesRefMap': map<string, seq<nat>>)
    requires Valid(Arena(tree, domIds, nodesRefMap))
    ensures Place(Arena(tree, domIds, nodesRefMap), node) ==
      if placed then Some(Arena(tree', domIds', nodesRefMap')) else None
    ensures !placed ==> tree' == tree && domIds' == domIds && nodesRefMap' == nodesRefMap
  {
    tree', domIds', nodesRefMap' := tree, domIds, nodesRefMap;
    if node.parentId.Some? {
      var parentId := node.parentId.value;
      if parentId in nodesRefMap {
        var parentLoc := nodesRefMap[parentId];
        var id := node.id;
        var childInsertionLoc: seq<nat>;
        if node.remove {
          childInsertionLoc := parentLoc;
        } else {
          domIds' := domIds + [node.domId];
          tree' := AppendAt(tree, parentLoc, IntoFinal(node));
          childInsertionLoc := parentLoc + [|ChildrenAt(tree', parentLoc)| - 1];
        }
        nodesRefMap' := nodesRefMap[id := childInsertionLoc];
        placed := true;
      } else {
        placed := false;
      }
    } else {
      var id := node.id;
      var childInsertionLoc: seq<nat>;
      if node.remove {
        childInsertionLoc := [];
      } else {
        domIds' := domIds + [node.domId];
        tree' := tree + [IntoFinal(node)];
        childInsertionLoc := [|tree'| - 1];
      }
      nodesRefMap' := nodesRefMap[id := childInsertionLoc];
      placed := true;
    }
  }

  /** One pass of the inner loop over the flat list. */
  method SweepPass(tree: seq<Node>, domIds: seq<U32>, nodesRefMap: map<string, seq<nat>>, flat: seq<Option<Intermediate>>)
    returns (tree': seq<Node>, domIds': seq<U32>, nodesRefMap': map<string, seq<nat>>, flat': seq<Option<Intermediate>>)
    requires Valid(Arena(tree, domIds, nodesRefMap))
    ensures Sweep(Arena(tree, domIds, nodesRefMap), flat, 0) == (Arena(tree', domIds', nodesRefMap'), flat')
    ensures Valid(Arena(tree', domIds', nodesRefMap'))
  {
    tree', domIds', nodesRefMap', flat' := tree, domIds, nodesRefMap, flat;
    ghost var start := Sweep(Arena(tree, domIds, nodesRefMap), flat, 0);
    var i := 0;
    while i < |flat'|
      invariant i <= |flat'|
      invariant Valid(Arena(tree', domIds', nodesRefMap'))
      invariant Sweep(Arena(tree', domIds', nodesRefMap'), flat', i) == start
      decreases |flat'| - i
    {
      var nodeOpt := flat'[i];
      ghost var flat0 := flat';
      flat' := flat'[i := None];
      if nodeOpt.Some? {
        var placed;
        PlaceValid(Arena(tree', domIds', nodesRefMap'), nodeOpt.value);
        placed, tree', domIds', nodesRefMap' := PlaceRecord(tree', domIds', nodesRefMap', nodeOpt.value);
        if !placed {
          flat' := flat'[i := nodeOpt];
          assert flat' == flat0;
        }
      } else {
        assert flat' == flat0;
      }
      i := i + 1;
    }
  }

  /** The pass loop, with the records taken out of and put back into the flat list in place. */
  method GetAxTree(raw: Result<seq<AxNode>, string>) returns (r: Result<Tree, WeiError>)
    ensures r == Reconstitute(raw)
  {
    var nodes;
    match raw {
      case Err(e) => return Err(AxTreeParseFailed(e));
      case Ok(ns) => nodes := ns;
    }
    var flat := Flat(nodes);
    var tree: seq<Node> := [];
    var domIds: seq<U32> := [];
    var nodesRefMap: map<string, seq<nat>> := map[];
    var iters := 0;
    assert Valid(EMPTY);
    while AnyLeft(flat) && iters < MAX_ITERS
      invariant iters <= MAX_ITERS
      invariant Valid(Arena(tree, domIds, nodesRefMap))
      invariant Passes(Arena(tree, domIds, nodesRefMap), flat, iters) == Reconstitute(raw)
      decreases MAX_ITERS - iters
    {
      tree, domIds, nodesRefMap, flat := SweepPass(tree, domIds, nodesRefMap, flat);
      iters := iters + 1;
    }
    if AnyLeft(flat) {
      return Err(TreeReconstitutionTimeout(MAX_ITERS));
    }
    return Ok(Tree(tree, domIds));
  }
}
