/** How the key ranges of the nodes of a B+ tree lie to each other. */
module Spans {
  import opened Nodes
  import opened Trees
  import opened Removal
  import opened Structure

  /** Two nodes of the same height have disjoint ranges. */
  lemma {:induction false} Disjoint(H: Cells, t: Shape, x: Node, y: Node)
    requires Wf(H, t, null) && x in t.places && y in t.places && t.places[x].height == t.places[y].height && x != y
    ensures LessEq(t.places[x].hi, t.places[y].lo) || LessEq(t.places[y].hi, t.places[x].lo)
    decreases t.height + 1 - t.places[x].height
  {
    HeightBound(H, t, null, x);
    HeightBound(H, t, null, y);
    Parent(H, t, null, x);
    Parent(H, t, null, y);
    var p, q := H[x].parent, H[y].parent;
    if p != q {
      HeightBound(H, t, null, p);
      Disjoint(H, t, p, q);
      ChildRange(H, t, x);
      ChildRange(H, t, y);
    } else {
      LocalAt(H, t, null, p);
      assert H[x].parentIdx < H[y].parentIdx || H[y].parentIdx < H[x].parentIdx;
    }
  }

  /** The range of a node is not empty and lies in that of its parent. */
  lemma ChildRange(H: Cells, t: Shape, x: Node)
    requires Wf(H, t, null) && x in t.places
    ensures Less(t.places[x].lo, t.places[x].hi)
    ensures x != t.root ==> x in H && H[x].parent != null && H[x].parent in t.places
    ensures x != t.root ==> var p := t.places[H[x].parent]; LessEq(p.lo, t.places[x].lo) && LessEq(t.places[x].hi, p.hi)
  {
    LocalAt(H, t, null, x);
    if x != t.root {
      Parent(H, t, null, x);
    }
  }

  lemma SameHi(H: Cells, t: Shape, x: Node, y: Node)
    requires Wf(H, t, null) && x in t.places && y in t.places && t.places[x].height == t.places[y].height
    requires t.places[x].hi == t.places[y].hi || t.places[x].lo == t.places[y].lo
    ensures x == y
  {
    ChildRange(H, t, x);
    ChildRange(H, t, y);
    if x != y {
      hide Wf;
      Disjoint(H, t, x, y);
      assert false;
    }
  }

  /** No node ends inside a leaf. */
  lemma HiStep(H: Cells, t: Shape, q: nat, n: Node)
    requires Wf(H, t, null) && q < |t.leaves| && n in t.places && t.leaves[q] in t.places
    requires LessEq(t.places[n].hi, t.places[t.leaves[q]].hi) && !LessEq(t.places[n].hi, t.places[t.leaves[q]].lo)
    ensures t.places[n].hi == t.places[t.leaves[q]].hi
  {
    var a, b := LeavesAreRun(H, t, null, n);
    var A, ls, r := t.places, t.leaves, b - 1;
    ChildRange(H, t, ls[q]);
    ChildRange(H, t, ls[r]);
    if r < q {
      ChainOrder(H, A, ls, r, q);
      assert false;
    }
    if q < r {
      ChainOrder(H, A, ls, q, r);
    }
  }

  /** No node starts inside a leaf. */
  lemma LoStep(H: Cells, t: Shape, q: nat, n: Node)
    requires Wf(H, t, null) && q < |t.leaves| && n in t.places && t.leaves[q] in t.places
    requires LessEq(t.places[t.leaves[q]].lo, t.places[n].lo) && !LessEq(t.places[t.leaves[q]].hi, t.places[n].lo)
    ensures t.places[n].lo == t.places[t.leaves[q]].lo
  {
    var a, b := LeavesAreRun(H, t, null, n);
    var A, ls := t.places, t.leaves;
    ChildRange(H, t, ls[q]);
    ChildRange(H, t, ls[a]);
    if q < a {
      ChainOrder(H, A, ls, q, a);
      assert false;
    }
    if a < q {
      ChainOrder(H, A, ls, a, q);
    }
  }

  /** If a higher node ends where `x` does, so does the parent of `x`, which has `x` as its last edge. */
  lemma {:induction false} HiUp(H: Cells, t: Shape, x: Node, n: Node)
    requires Wf(H, t, null) && x in t.places && n in t.places && t.places[x].height < t.places[n].height
    requires t.places[x].hi == t.places[n].hi
    ensures x != t.root && x in H && H[x].parent in H && H[x].parentIdx == |H[H[x].parent].keys|
    decreases t.places[n].height
  {
    RootAt(H, t, null);
    LocalAt(H, t, null, n);
    Child(H, t, null, n, |H[n].keys|);
    var c := H[n].edges[|H[n].keys|];
    if t.places[c].height == t.places[x].height {
      SameHi(H, t, c, x);
    } else {
      hide Wf, LocalOk;
      HiUp(H, t, x, c);
    }
  }

  /** If a higher node starts where `x` does, so does the parent of `x`, which has `x` as its first edge. */
  lemma {:induction false} LoUp(H: Cells, t: Shape, x: Node, n: Node)
    requires Wf(H, t, null) && x in t.places && n in t.places && t.places[x].height < t.places[n].height
    requires t.places[x].lo == t.places[n].lo
    ensures x != t.root && x in H && H[x].parent in H && H[x].parentIdx == 0
    decreases t.places[n].height
  {
    RootAt(H, t, null);
    LocalAt(H, t, null, n);
    Child(H, t, null, n, 0);
    var c := H[n].edges[0];
    if t.places[c].height == t.places[x].height {
      SameHi(H, t, c, x);
    } else {
      hide Wf, LocalOk;
      LoUp(H, t, x, c);
    }
  }
}
