/**
 * Index paths into a forest of nodes, as `get_ax_tree` (packages/voxurf-extension/src/compute_tree.rs)
 * uses them: a path `[i, j, ...]` names the children list of root `i`'s child `j`, and so on; the
 * empty path names the roots themselves. `get_tree_children` walks a path, and reconstitution
 * then appends one node to the list it reaches.
 */
module TreePaths {
  import opened StdStr
  import opened Tree

  /** Every index on the path exists where the walk reaches it. */
  predicate ValidLoc(forest: seq<Node>, loc: seq<nat>)
    decreases |loc|
  {
    loc == [] || (loc[0] < |forest| && ValidLoc(forest[loc[0]].children, loc[1..]))
  }

  /** `get_tree_children`: the children list the path names. */
  function ChildrenAt(forest: seq<Node>, loc: seq<nat>): seq<Node>
    requires ValidLoc(forest, loc)
    decreases |loc|
  {
    if loc == [] then forest else ChildrenAt(forest[loc[0]].children, loc[1..])
  }

  /** The forest after pushing `n` onto the children list at `loc`: that list gains `n` at its end. */
  function AppendAt(forest: seq<Node>, loc: seq<nat>, n: Node): (r: seq<Node>)
    requires ValidLoc(forest, loc)
    ensures ValidLoc(r, loc) && ChildrenAt(r, loc) == ChildrenAt(forest, loc) + [n]
    ensures |r| == if loc == [] then |forest| + 1 else |forest|
    decreases |loc|
  {
    if loc == [] then forest + [n]
    else
      var i := loc[0];
      forest[i := forest[i].(children := AppendAt(forest[i].children, loc[1..], n))]
  }

  /** Every list a path names that is not on the way to `loc`, or beneath it, is left as it was. */
  lemma {:induction false} AppendAtFrame(forest: seq<Node>, loc: seq<nat>, n: Node, other: seq<nat>)
    requires ValidLoc(forest, loc) && ValidLoc(forest, other) && !(other <= loc)
    ensures ValidLoc(AppendAt(forest, loc, n), other)
    ensures ChildrenAt(AppendAt(forest, loc, n), other) == ChildrenAt(forest, other)
    decreases |loc|
  {
    var r := AppendAt(forest, loc, n);
    assert other != [];
    if loc == [] || other[0] != loc[0] {
      assert r[other[0]] == forest[other[0]];
    } else {
      AppendAtFrame(forest[loc[0]].children, loc[1..], n, other[1..]);
    }
  }

  /**
   * On the way to `loc`, every list keeps its length and its nodes: only the node the path
   * goes through next has new children, and its other fields stay as they were.
   */
  lemma {:induction false} AppendAtPath(forest: seq<Node>, loc: seq<nat>, n: Node, other: seq<nat>)
    requires ValidLoc(forest, loc) && ValidLoc(forest, other) && other < loc
    ensures ValidLoc(AppendAt(forest, loc, n), other)
    ensures var a := ChildrenAt(forest, other); var b := ChildrenAt(AppendAt(forest, loc, n), other);
      var i := loc[|other|];
      && |b| == |a| && i < |a|
      && b[i] == a[i].(children := b[i].children)
      && forall k | 0 <= k < |a| && k != i :: b[k] == a[k]
    decreases |loc|
  {
    if other != [] {
      assert other[0] == loc[0];
      assert other[1..] < loc[1..];
      assert loc[1..][|other[1..]|] == loc[|other|];
      AppendAtPath(forest[loc[0]].children, loc[1..], n, other[1..]);
    }
  }

  /** Appending gives the forest exactly the nodes of `n` more. */
  lemma {:induction false} AppendAtCounts(forest: seq<Node>, loc: seq<nat>, n: Node)
    requires ValidLoc(forest, loc)
    ensures ForestSize(AppendAt(forest, loc, n)) == ForestSize(forest) + Size(n)
    ensures ForestSelectors(AppendAt(forest, loc, n)) == ForestSelectors(forest) + ForestSelectors([n])
    decreases |loc|
  {
    if loc == [] {
      ForestAppend(forest, [n]);
    } else {
      var i := loc[0];
      var parent := forest[i];
      var kids := AppendAt(parent.children, loc[1..], n);
      AppendAtCounts(parent.children, loc[1..], n);
      var parent' := parent.(children := kids);
      SingleCounts(parent);
      SingleCounts(parent');
      SingleCounts(n);
      Replaced(forest, i, parent', n);
    }
  }

  /** Replacing the node at `i` by one with the nodes of `n` more gives the forest those nodes more. */
  lemma Replaced(forest: seq<Node>, i: nat, p': Node, n: Node)
    requires i < |forest|
    requires ForestSize([p']) == ForestSize([forest[i]]) + Size(n)
    requires ForestSelectors([p']) == ForestSelectors([forest[i]]) + ForestSelectors([n])
    ensures ForestSize(forest[i := p']) == ForestSize(forest) + Size(n)
    ensures ForestSelectors(forest[i := p']) == ForestSelectors(forest) + ForestSelectors([n])
  {
    var r := forest[i := p'];
    ForestSplit(forest, i);
    ForestSplit(r, i);
    assert r[..i] == forest[..i] && r[i + 1..] == forest[i + 1..] && r[i] == p';
    Shuffle(ForestSelectors(forest[..i]), ForestSelectors([forest[i]]), ForestSelectors(forest[i + 1..]), ForestSelectors([n]));
  }

  lemma Shuffle(a: multiset<U32>, b: multiset<U32>, c: multiset<U32>, d: multiset<U32>)
    ensures a + (b + d) + c == a + b + c + d
  {
  }

  lemma SingleCounts(p: Node)
    ensures ForestSize([p]) == Size(p) == 1 + ForestSize(p.children)
    ensures ForestSelectors([p]) == multiset{p.id} + ForestSelectors(p.children)
  {
    assert [p][0] == p && [p][1..] == [];
  }

  /** A path that was valid stays valid once a node is appended anywhere. */
  lemma {:induction false} AppendKeepsValid(forest: seq<Node>, loc: seq<nat>, n: Node, other: seq<nat>)
    requires ValidLoc(forest, loc) && ValidLoc(forest, other)
    ensures ValidLoc(AppendAt(forest, loc, n), other)
    decreases |other|
  {
    if other != [] {
      var r := AppendAt(forest, loc, n);
      var j := other[0];
      if loc == [] {
        assert r == forest + [n] && r[j] == forest[j];
      } else if j == loc[0] {
        AppendKeepsValid(forest[j].children, loc[1..], n, other[1..]);
      } else {
        assert r[j] == forest[j];
      }
    }
  }

  /** Extending a path by one index names the children of one node of the list it names. */
  lemma {:induction false} LocExtend(forest: seq<Node>, loc: seq<nat>, k: nat)
    requires ValidLoc(forest, loc)
    ensures ValidLoc(forest, loc + [k]) <==> k < |ChildrenAt(forest, loc)|
    ensures k < |ChildrenAt(forest, loc)| ==>
      ChildrenAt(forest, loc + [k]) == ChildrenAt(forest, loc)[k].children
    decreases |loc|
  {
    if loc == [] {
      assert [] + [k] == [k] && [k][1..] == [];
    } else {
      assert (loc + [k])[0] == loc[0] && (loc + [k])[1..] == loc[1..] + [k];
      LocExtend(forest[loc[0]].children, loc[1..], k);
    }
  }

  /** The path to a node appended at `loc` is `loc` extended by its index, and it names that node's children. */
  lemma AppendedLoc(forest: seq<Node>, loc: seq<nat>, n: Node)
    requires ValidLoc(forest, loc)
    ensures var r := AppendAt(forest, loc, n);
      var self := loc + [|ChildrenAt(forest, loc)|];
      ValidLoc(r, self) && ChildrenAt(r, self) == n.children
  {
    var r := AppendAt(forest, loc, n);
    LocExtend(r, loc, |ChildrenAt(forest, loc)|);
  }
}
