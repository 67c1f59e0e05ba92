/**
 Depth of accessibility-tree nodes by a memoised climb, browser_ops.rs:2029-2074.
 */
module AxDepth {
  import opened Wrappers

  type Id = string

  datatype AxNode = AxNode(id: Id, parent: Option<Id>, children: seq<Id>)

  // -------------------------------------------------------------- parent maps

  /** The parent named by the last node with this id that names one. */
  function NamedParent(nodes: seq<AxNode>, x: Id): Option<Id> {
    if nodes == [] then None
    else
      var last := nodes[|nodes| - 1];
      if last.id == x && last.parent.Some? then last.parent else NamedParent(nodes[..|nodes| - 1], x)
  }

  /** The first node that lists this id among its children. */
  function ListedBy(nodes: seq<AxNode>, x: Id): Option<Id> {
    if nodes == [] then None
    else
      var last := nodes[|nodes| - 1];
      OrListed(ListedBy(nodes[..|nodes| - 1], x), x, last.children, last.id)
  }

  function OrListed(earlier: Option<Id>, x: Id, children: seq<Id>, parent: Id): Option<Id> {
    if earlier.Some? then earlier else if x in children then Some(parent) else None
  }

  function Look(m: map<Id, Id>, x: Id): Option<Id> {
    if x in m then Some(m[x]) else None
  }

  method ParentMaps(nodes: seq<AxNode>) returns (byId: map<Id, Id>, byChild: map<Id, Id>)
    ensures forall x :: Look(byId, x) == NamedParent(nodes, x)
    ensures forall x :: Look(byChild, x) == ListedBy(nodes, x)
  {
    byId, byChild := map[], map[];
    for i := 0 to |nodes|
      invariant forall x :: Look(byId, x) == NamedParent(nodes[..i], x)
      invariant forall x :: Look(byChild, x) == ListedBy(nodes[..i], x)
    {
      var node := nodes[i];
      assert nodes[..i + 1][..i] == nodes[..i];
      if node.parent.Some? {
        byId := byId[node.id := node.parent.value];
      }
      ghost var before := byChild;
      for j := 0 to |node.children|
        invariant forall x :: Look(byChild, x) == OrListed(Look(before, x), x, node.children[..j], node.id)
      {
        var child := node.children[j];
        assert node.children[..j + 1] == node.children[..j] + [child];
        if child !in byChild {
          byChild := byChild[child := node.id];
        }
      }
      assert node.children[..|node.children|] == node.children;
    }
    assert nodes[..|nodes|] == nodes;
  }

  // ----------------------------------------------------------------- the climb

  /** The parent relation: by id first, then by child list; a node that is its own
      parent has none. */
  datatype Tree = Tree(byId: map<Id, Id>, byChild: map<Id, Id>)

  function Up(t: Tree, x: Id): Option<Id> {
    var p := if x in t.byId then Some(t.byId[x]) else Look(t.byChild, x);
    if p == Some(x) then None else p
  }

  /** The last node with the id that names a parent names `p`. */
  predicate NamedBy(nodes: seq<AxNode>, x: Id, p: Id) {
    exists i :: 0 <= i < |nodes| && NamedAt(nodes, x, p, i)
  }

  predicate NamedAt(nodes: seq<AxNode>, x: Id, p: Id, i: int) {
    && 0 <= i < |nodes| && nodes[i].id == x && nodes[i].parent == Some(p)
    && forall j :: i < j < |nodes| && nodes[j].id == x ==> nodes[j].parent.None?
  }

  predicate NamesNone(nodes: seq<AxNode>, x: Id) {
    forall i :: 0 <= i < |nodes| && nodes[i].id == x ==> nodes[i].parent.None?
  }

  /** `p` is the first node that lists the id among its children. */
  predicate FirstToList(nodes: seq<AxNode>, x: Id, p: Id) {
    exists i :: 0 <= i < |nodes| && ListsAt(nodes, x, p, i)
  }

  predicate ListsAt(nodes: seq<AxNode>, x: Id, p: Id, i: int) {
    && 0 <= i < |nodes| && nodes[i].id == p && x in nodes[i].children
    && forall j :: 0 <= j < i ==> x !in nodes[j].children
  }

  lemma {:induction false} NamedParentIs(nodes: seq<AxNode>, x: Id, p: Id)
    ensures NamedParent(nodes, x) == Some(p) <==> NamedBy(nodes, x, p)
    ensures NamedParent(nodes, x) == None <==> NamesNone(nodes, x)
  {
    if nodes == [] {
    } else {
      var init, last := nodes[..|nodes| - 1], nodes[|nodes| - 1];
      NamedParentIs(init, x, p);
      NamedBySnoc(nodes, x, p);
      NamesNoneSnoc(nodes, x);
    }
  }

  lemma NamedBySnoc(nodes: seq<AxNode>, x: Id, p: Id)
    requires nodes != []
    ensures var last := nodes[|nodes| - 1];
      NamedBy(nodes, x, p) <==>
        if last.id == x && last.parent.Some? then last.parent == Some(p) else NamedBy(nodes[..|nodes| - 1], x, p)
  {
    var init, last := nodes[..|nodes| - 1], nodes[|nodes| - 1];
    if last.id == x && last.parent.Some? {
      assert last.parent == Some(p) ==> NamedAt(nodes, x, p, |nodes| - 1);
    } else {
      forall i | 0 <= i < |init| ensures NamedAt(nodes, x, p, i) <==> NamedAt(init, x, p, i) {
        assert forall j :: 0 <= j < |init| ==> init[j] == nodes[j];
      }
    }
  }

  lemma NamesNoneSnoc(nodes: seq<AxNode>, x: Id)
    requires nodes != []
    ensures var last := nodes[|nodes| - 1];
      NamesNone(nodes, x) <==> NamesNone(nodes[..|nodes| - 1], x) && (last.id == x ==> last.parent.None?)
  {
    var init := nodes[..|nodes| - 1];
    if NamesNone(nodes, x) {
      forall i | 0 <= i < |init| && init[i].id == x ensures init[i].parent.None? { assert nodes[i] == init[i]; }
    }
    if NamesNone(init, x) {
      forall i | 0 <= i < |init| && nodes[i].id == x ensures nodes[i].parent.None? { assert nodes[i] == init[i]; }
    }
  }

  lemma {:induction false} ListedByIs(nodes: seq<AxNode>, x: Id, p: Id)
    ensures ListedBy(nodes, x) == Some(p) <==> FirstToList(nodes, x, p)
    ensures ListedBy(nodes, x) == None ==> forall i :: 0 <= i < |nodes| ==> x !in nodes[i].children
    ensures ListedBy(nodes, x).Some? ==> exists i :: 0 <= i < |nodes| && x in nodes[i].children
  {
    if nodes == [] {
    } else {
      var init, last := nodes[..|nodes| - 1], nodes[|nodes| - 1];
      ListedByIs(init, x, p);
      FirstToListSnoc(nodes, x, p);
      if ListedBy(init, x).Some? {
        var i :| 0 <= i < |init| && x in init[i].children;
        assert nodes[i] == init[i];
      }
    }
  }

  lemma FirstToListSnoc(nodes: seq<AxNode>, x: Id, p: Id)
    requires nodes != []
    ensures var init, last := nodes[..|nodes| - 1], nodes[|nodes| - 1];
      FirstToList(nodes, x, p) <==>
        FirstToList(init, x, p)
        || (last.id == p && x in last.children && forall j :: 0 <= j < |init| ==> x !in init[j].children)
  {
    var init, last := nodes[..|nodes| - 1], nodes[|nodes| - 1];
    assert forall j :: 0 <= j < |init| ==> init[j] == nodes[j];
    forall i | 0 <= i < |init| ensures ListsAt(nodes, x, p, i) <==> ListsAt(init, x, p, i) {}
    assert ListsAt(nodes, x, p, |init|) <==>
      (last.id == p && x in last.children && forall j :: 0 <= j < |init| ==> x !in init[j].children);
  }

  /** The parent of a node, by the node list: the one it names; if it names none, the
      first node that lists it; but never itself. */
  lemma ParentIs(nodes: seq<AxNode>, t: Tree, x: Id, p: Id)
    requires forall y :: Look(t.byId, y) == NamedParent(nodes, y)
    requires forall y :: Look(t.byChild, y) == ListedBy(nodes, y)
    ensures Up(t, x) == Some(p) <==>
      p != x && (NamedBy(nodes, x, p) || (NamesNone(nodes, x) && FirstToList(nodes, x, p)))
  {
    NamedParentIs(nodes, x, p);
    ListedByIs(nodes, x, p);
    assert Look(t.byId, x) == NamedParent(nodes, x) && Look(t.byChild, x) == ListedBy(nodes, x);
  }

  /** The chain of parents of `x` has `n` links. */
  predicate HasDepth(t: Tree, x: Id, n: nat)
    decreases n
  {
    match Up(t, x)
    case None => n == 0
    case Some(p) => n > 0 && HasDepth(t, p, n - 1)
  }

  lemma {:induction false} DepthIsUnique(t: Tree, x: Id, m: nat, n: nat)
    requires HasDepth(t, x, m) && HasDepth(t, x, n)
    ensures m == n
    decreases n
  {
    if Up(t, x).Some? { DepthIsUnique(t, Up(t, x).value, m - 1, n - 1); }
  }

  /** The memo shared by the queries of one snapshot. */
  class DepthMemo {
    const tree: Tree
    var cache: map<Id, nat>

    constructor (tree: Tree)
      ensures this.tree == tree && Agrees() && cache == map[]
    {
      this.tree, this.cache := tree, map[];
    }

    /** Every remembered depth is the true one. */
    predicate Agrees()
      reads this
    {
      forall x :: x in cache ==> HasDepth(tree, x, cache[x])
    }

    /** The true depth, for any node whose chain of parents ends. */
    method Depth(x: Id, ghost n: nat) returns (d: nat)
      requires Agrees() && HasDepth(tree, x, n)
      modifies this
      ensures Agrees() && d == n
      ensures x in cache && forall y :: y in old(cache) ==> y in cache && cache[y] == old(cache)[y]
      decreases n
    {
      if x in cache {
        DepthIsUnique(tree, x, cache[x], n);
        return cache[x];
      }
      var up := Up(tree, x);
      match up {
        case None => d := 0;
        case Some(p) =>
          var above := Depth(p, n - 1);
          d := above + 1;
      }
      if x in cache { DepthIsUnique(tree, x, cache[x], n); }
      cache := cache[x := d];
    }

    /** Any queries in any order: each gets its true depth. */
    method DepthAll(queries: seq<Id>, ghost depths: seq<nat>) returns (ds: seq<nat>)
      requires Agrees() && |depths| == |queries|
      requires forall i :: 0 <= i < |queries| ==> HasDepth(tree, queries[i], depths[i])
      modifies this
      ensures Agrees() && ds == depths
    {
      ds := [];
      for i := 0 to |queries|
        invariant Agrees() && ds == depths[..i]
      {
        var d := Depth(queries[i], depths[i]);
        ds := ds + [d];
      }
    }
  }

  // ----------------------------------------------- when does the climb end?

  /** The node `k` links above `x`. */
  function Above(t: Tree, x: Id, k: nat): Option<Id>
    decreases k
  {
    if k == 0 then Some(x)
    else
      match Up(t, x)
      case None => None
      case Some(p) => Above(t, p, k - 1)
  }

  /** No node is met twice on the way up. */
  ghost predicate NeverRepeats(t: Tree, x: Id) {
    forall i: nat, j: nat :: i < j && Above(t, x, i).Some? ==> Above(t, x, i) != Above(t, x, j)
  }

  lemma {:induction false} DepthFromAbove(t: Tree, x: Id, n: nat, k: nat)
    requires HasDepth(t, x, n)
    ensures Above(t, x, k).Some? <==> k <= n
    ensures k <= n ==> HasDepth(t, Above(t, x, k).value, n - k)
    decreases k
  {
    if k > 0 && Up(t, x).Some? { DepthFromAbove(t, Up(t, x).value, n - 1, k - 1); }
  }

  /** A list of distinct members of a set is no longer than the set. */
  lemma {:induction false} Pigeonhole(s: seq<Id>, all: set<Id>)
    requires forall i :: 0 <= i < |s| ==> s[i] in all
    requires forall i, j :: 0 <= i < j < |s| ==> s[i] != s[j]
    ensures |s| <= |all|
  {
    if s == [] {
    } else {
      var rest, last := s[..|s| - 1], s[|s| - 1];
      Pigeonhole(rest, all - {last});
    }
  }

  ghost predicate Ends(t: Tree, x: Id) {
    exists n: nat :: HasDepth(t, x, n)
  }

  predicate ClimbsPast(t: Tree, x: Id, k: nat) {
    var y := Above(t, x, k);
    y.Some? && Up(t, y.value).Some?
  }

  lemma EndsStep(t: Tree, x: Id)
    ensures Up(t, x).Some? && Ends(t, Up(t, x).value) ==> Ends(t, x)
  {
    if Up(t, x).Some? && Ends(t, Up(t, x).value) {
      var m: nat :| HasDepth(t, Up(t, x).value, m);
      var n: nat := m + 1;
      assert HasDepth(t, x, n);
    }
  }

  /** A climb that does not end goes past every height. */
  lemma {:induction false} EndsOrClimbs(t: Tree, x: Id, k: nat)
    ensures Ends(t, x) || ClimbsPast(t, x, k)
    decreases k
  {
    var up := Up(t, x);
    if up == None {
      assert HasDepth(t, x, 0);
    } else if k > 0 {
      EndsOrClimbs(t, up.value, k - 1);
      EndsStep(t, x);
    }
  }

  lemma EndingNeverRepeats(t: Tree, x: Id, n: nat)
    requires HasDepth(t, x, n)
    ensures NeverRepeats(t, x)
  {
    forall i: nat, j: nat | i < j && Above(t, x, i).Some? ensures Above(t, x, i) != Above(t, x, j) {
      DepthFromAbove(t, x, n, i);
      DepthFromAbove(t, x, n, j);
      if Above(t, x, i) == Above(t, x, j) { DepthIsUnique(t, Above(t, x, i).value, n - i, n - j); }
    }
  }

  /** The first `n` nodes on the way up. */
  lemma {:induction false} Visited(t: Tree, x: Id, n: nat) returns (nodes: seq<Id>)
    requires forall k: nat :: k < n ==> ClimbsPast(t, x, k)
    ensures |nodes| == n
    ensures forall i :: 0 <= i < n ==> Some(nodes[i]) == Above(t, x, i) && nodes[i] in t.byId.Keys + t.byChild.Keys
  {
    nodes := [];
    if n == 0 {
    } else {
      var first := Visited(t, x, n - 1);
      assert ClimbsPast(t, x, n - 1);
      nodes := first + [Above(t, x, n - 1).value];
    }
  }

  lemma NeverRepeatingEnds(t: Tree, x: Id)
    requires NeverRepeats(t, x)
    ensures Ends(t, x)
  {
    if !Ends(t, x) {
      var all := t.byId.Keys + t.byChild.Keys;
      forall k: nat ensures ClimbsPast(t, x, k) { EndsOrClimbs(t, x, k); }
      var nodes := Visited(t, x, |all| + 1);
      forall i, j | 0 <= i < j < |nodes| ensures nodes[i] != nodes[j] {
        assert Above(t, x, i) != Above(t, x, j);
      }
      Pigeonhole(nodes, all);
    }
  }

  /** The climb from a node ends exactly when it meets no node twice: acyclic
      chains get their length, and nothing else gets an answer. */
  lemma EndsIffNeverRepeats(t: Tree, x: Id)
    ensures Ends(t, x) <==> NeverRepeats(t, x)
  {
    if n: nat :| HasDepth(t, x, n) { EndingNeverRepeats(t, x, n); }
    if NeverRepeats(t, x) { NeverRepeatingEnds(t, x); }
  }

  /** Two nodes that name each other as parent: the climb has no end, although a
      node that names itself is a root. */
  lemma CyclesNeverEnd(a: Id, b: Id)
    requires a != b
    ensures !Ends(Tree(map[a := b, b := a], map[]), a)
    ensures HasDepth(Tree(map[a := a], map[]), a, 0)
  {
    var t := Tree(map[a := b, b := a], map[]);
    assert Above(t, a, 2) == Above(t, b, 1) == Above(t, a, 0);
    EndsIffNeverRepeats(t, a);
  }
}
