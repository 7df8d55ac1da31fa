/** Which checks of the validation pass rule out that a node is shared. */
module Sharing {
  import opened Nodes
  import opened Trees
  import opened Validation

  // ---- the parent checks ----

  /** The checks of the parents and the parent indices of the nodes below `n`, and no others. */
  ghost predicate ParentsOk(H: Cells, n: Node, h: nat, p: Node?, idx: nat)
    requires Typed(H, n, h)
    decreases h, 1
  {
    && H[n].parent == p && (p != null ==> H[n].parentIdx == idx)
    && (h > 0 ==>
          forall i {:trigger ParentsOkBelow(H, n, h, i)} :: 0 <= i < |H[n].edges| ==> ParentsOkBelow(H, n, h, i))
  }

  ghost predicate ParentsOkBelow(H: Cells, n: Node, h: nat, i: nat)
    requires Typed(H, n, h) && h > 0 && i < |H[n].edges|
    decreases h, 0
  {
    assert TypedEdge(H, H[n].edges[i], h - 1);
    ParentsOk(H, H[n].edges[i], h - 1, n, i)
  }

  /** The pass makes these checks. */
  lemma {:induction false} NodeOkParents(H: Cells, n: Node, h: nat, p: Node?, idx: nat, prev: Bound)
    requires Typed(H, n, h) && NodeOk(H, n, h, p, idx, prev)
    ensures ParentsOk(H, n, h, p, idx)
    decreases h
  {
    if h > 0 {
      forall i | 0 <= i < |H[n].edges|
        ensures ParentsOkBelow(H, n, h, i)
      {
        assert TypedEdge(H, H[n].edges[i], h - 1) && EdgeOk(H, n, h, i, prev);
        NodeOkParents(H, H[n].edges[i], h - 1, n, i, if i == 0 then prev else At(H[n].keys[i - 1]));
      }
    }
  }

  /** The node that one comes to from the root by the edges at these indices, if there is one. */
  ghost function NodeAt(H: Cells, root: Node, path: seq<nat>): Node? {
    if path == [] then root
    else
      var l := |path| - 1;
      var p := NodeAt(H, root, path[..l]);
      if p == null || p !in H || |H[p].edges| <= path[l] then null else H[p].edges[path[l]]
  }

  /** A node that one comes to has the last node before it as parent, and the last index as parent index. */
  lemma {:induction false} ParentOnPath(H: Cells, root: Node, h: nat, path: seq<nat>)
    requires Typed(H, root, h) && ParentsOk(H, root, h, null, 0) && NodeAt(H, root, path) != null
    ensures |path| <= h && TypedEdge(H, NodeAt(H, root, path), h - |path|)
    ensures var n, l := NodeAt(H, root, path), |path| - 1;
            if path == [] then ParentsOk(H, n, h, null, 0)
            else NodeAt(H, root, path[..l]) != null && ParentsOk(H, n, h - |path|, NodeAt(H, root, path[..l]), path[l])
  {
    if path != [] {
      var l := |path| - 1;
      ParentOnPath(H, root, h, path[..l]);
      var p := NodeAt(H, root, path[..l]);
      assert TypedEdge(H, p, h - l) && Typed(H, p, h - l);
      assert h - l > 0;
      assert ParentsOkBelow(H, p, h - l, path[l]) && TypedEdge(H, H[p].edges[path[l]], h - l - 1);
    }
  }

  /** If the parents are right, one comes to a node by one path only: no node is at two edges. */
  lemma {:induction false} OnePath(H: Cells, root: Node, h: nat, a: seq<nat>, b: seq<nat>)
    requires Typed(H, root, h) && ParentsOk(H, root, h, null, 0)
    requires NodeAt(H, root, a) != null && NodeAt(H, root, a) == NodeAt(H, root, b)
    ensures a == b
  {
    ParentOnPath(H, root, h, a);
    ParentOnPath(H, root, h, b);
    if a != [] && b != [] {
      OnePath(H, root, h, a[..|a| - 1], b[..|b| - 1]);
      assert a == a[..|a| - 1] + [a[|a| - 1]] && b == b[..|b| - 1] + [b[|b| - 1]];
    }
  }

  // ---- the order checks ----

  /** Whether the order checks of the nodes below `n` hold, and the last key seen after them. */
  ghost function Order(H: Cells, n: Node, h: nat, prev: Bound): (bool, Bound)
    requires Typed(H, n, h)
    decreases h, 0
  {
    var ks := H[n].keys;
    if h == 0 then
      ((ks != [] ==> Follows(prev, ks[0], true)) && forall i :: 0 < i < |ks| ==> ks[i - 1] < ks[i],
       if ks == [] then prev else At(ks[|ks| - 1]))
    else OrderOfEdges(H, n, h, |H[n].edges|, prev)
  }

  /** The same for the edges of `n` before index `i` and the keys between them. */
  ghost function OrderOfEdges(H: Cells, n: Node, h: nat, i: nat, prev: Bound): (bool, Bound)
    requires Typed(H, n, h) && h > 0 && i <= |H[n].edges|
    decreases h - 1, i + 1
  {
    if i == 0 then (true, prev)
    else
      assert TypedEdge(H, H[n].edges[i - 1], h - 1);
      var (ok, last) := OrderOfEdges(H, n, h, i - 1, prev);
      if i == 1 then Order(H, H[n].edges[0], h - 1, last)
      else
        var k := H[n].keys[i - 2];
        var (below, seen) := Order(H, H[n].edges[i - 1], h - 1, At(k));
        (ok && Follows(last, k, false) && below, seen)
  }

  /** The pass makes these checks, and the last key seen is the last key. */
  lemma {:induction false} NodeOkOrder(H: Cells, n: Node, h: nat, p: Node?, idx: nat, prev: Bound)
    requires Typed(H, n, h) && NodeOk(H, n, h, p, idx, prev)
    ensures Order(H, n, h, prev) == (true, At(LastKey(H, n, h)))
    decreases h, 0
  {
    if h > 0 {
      EdgesOkOrder(H, n, h, p, idx, prev, |H[n].edges|);
    }
  }

  lemma {:induction false} EdgesOkOrder(H: Cells, n: Node, h: nat, p: Node?, idx: nat, prev: Bound, i: nat)
    requires Typed(H, n, h) && NodeOk(H, n, h, p, idx, prev) && h > 0 && 0 < i <= |H[n].edges|
    ensures OrderOfEdges(H, n, h, i, prev) == (true, LastBelow(H, n, h, i - 1))
    decreases h - 1, i + 1
  {
    assert TypedEdge(H, H[n].edges[i - 1], h - 1) && EdgeOk(H, n, h, i - 1, prev);
    NodeOkOrder(H, H[n].edges[i - 1], h - 1, n, i - 1, if i == 1 then prev else At(H[n].keys[i - 2]));
    if i > 1 {
      assert EdgeOk(H, n, h, i - 2, prev);
      EdgesOkOrder(H, n, h, p, idx, prev, i - 1);
    }
  }

  /** A root with two edges to the same empty leaf. */
  ghost function Shared(root: Node, a: Node, b: Node): Cells {
    map[root := Cell(null, 0, [1, 2], [], null, null, [a, b, b]),
        a := Cell(root, 0, [0], [0], null, b, []),
        b := Cell(root, 1, [], [], a, null, [])]
  }

  /** The order checks do not rule out shared nodes: they hold of that root, and two paths lead to the same leaf. */
  lemma {:induction false} OrderAllowsSharing(root: Node, a: Node, b: Node)
    requires root != a && root != b && a != b
    ensures var H := Shared(root, a, b);
            && Typed(H, root, 1) && Order(H, root, 1, NegInf).0
            && NodeAt(H, root, [1]) == NodeAt(H, root, [2]) == b
            && !ParentsOk(H, root, 1, null, 0)
  {
    var H := Shared(root, a, b);
    assert TypedEdge(H, a, 0) && TypedEdge(H, b, 0);
    assert Typed(H, root, 1);
    assert OrderOfEdges(H, root, 1, 1, NegInf) == (true, At(0));
    assert OrderOfEdges(H, root, 1, 2, NegInf) == (true, At(1));
    assert OrderOfEdges(H, root, 1, 3, NegInf) == (true, At(2));
    assert [1][..0] == [] && [2][..0] == [];
    assert !ParentsOkBelow(H, root, 1, 2);
  }
}
