/** Consuming iteration: the nodes of the tree are deallocated while the iterator walks over it. */
module Consumption {
  import opened Seqs
  import opened Nodes
  import opened Stores
  import opened Trees
  import opened Contents
  import opened Entries
  import opened Removal
  import opened Structure
  import opened Spans
  import opened Cursors
  import opened Maps
  import opened Iterators

  // ---- what has been deallocated ----

  /** The nodes that end at or before `x`. */
  ghost function Ended(A: Places, x: Bound): set<Node> {
    set n | n in A && LessEq(A[n].hi, x)
  }

  /** The nodes that start at or after `y`. */
  ghost function Unstarted(A: Places, y: Bound): set<Node> {
    set n | n in A && LessEq(y, A[n].lo)
  }

  /** Up to where the front has deallocated after taking the entry at index `i` of the leaf `n`. */
  ghost function EndAfter(H: Cells, A: Places, n: Node, i: nat): Bound
    requires n in H && n in A
  {
    if i + 1 == |H[n].keys| then A[n].hi else A[n].lo
  }

  /** From where on the back has deallocated after taking the entry at index `i` of the leaf `n`. */
  ghost function StartBefore(A: Places, n: Node, i: nat): Bound
    requires n in A
  {
    if i == 0 then A[n].lo else A[n].hi
  }

  /** The nodes below height `h` that end at `x`, or that start at `x`. */
  ghost function EndingAt(A: Places, x: Bound, h: nat): set<Node> {
    set n | n in A && A[n].hi == x && A[n].height < h
  }

  ghost function StartingAt(A: Places, x: Bound, h: nat): set<Node> {
    set n | n in A && A[n].lo == x && A[n].height < h
  }

  /** Each node of `s` comes after all its edges. */
  ghost predicate ChildrenFirst(H: Cells, s: seq<Node>) {
    forall i {:trigger s[i]} :: 0 <= i < |s| ==> s[i] in H && forall c :: c in H[s[i]].edges ==> c in s[..i]
  }

  /**
   * Of the nodes of `A` those in `gone`, and no others, have been deallocated, in the order `done`, and the rest is
   * live.
   */
  ghost predicate Freed(H: Cells, A: Places, S: set<Node>, done: seq<Node>, gone: set<Node>) {
    && gone <= A.Keys && (forall n {:trigger n in S} {:trigger n in gone} :: n in A ==> (n in S <==> n !in gone))
    && (forall n :: n in gone ==> n in done) && (forall i {:trigger done[i]} :: 0 <= i < |done| ==> done[i] in gone)
    && ChildrenFirst(H, done)
  }

  lemma FreedStep(H: Cells, A: Places, S: set<Node>, done: seq<Node>, gone: set<Node>, n: Node)
    requires Freed(H, A, S, done, gone) && n in A && n in H && n in S
    requires forall i {:trigger H[n].edges[i]} :: 0 <= i < |H[n].edges| ==> H[n].edges[i] in gone
    ensures Freed(H, A, S - {n}, done + [n], gone + {n})
  {
    var d := done + [n];
    forall i | 0 <= i < |d|
      ensures d[i] in H && d[i] in gone + {n} && forall c :: c in H[d[i]].edges ==> c in d[..i]
    {
      if i < |done| {
        assert d[i] == done[i] && d[..i] == done[..i];
      } else {
        assert d[..i] == done;
      }
    }
  }

  /** The nodes of `H` that are still among the live ones `G` have kept their cells. */
  ghost predicate Agree(H: Cells, G: Cells) {
    forall n {:trigger n in G} :: n in G && n in H ==> G[n] == H[n]
  }

  lemma AgreeLess(H: Cells, G: Cells, n: Node)
    requires Agree(H, G)
    ensures Agree(H, G - {n})
  {
  }

  /** What the fields of a node that is still live say about its cell. */
  lemma StillKnown(S: set<Node>, H: Cells, n: Node)
    requires Arena(S) && Agree(H, Heap(S)) && n in S && n in H
    ensures H[n] == n.cell && n.len == |H[n].keys| <= M
    ensures n.parent == H[n].parent && n.parentIdx == H[n].parentIdx && n.prev == H[n].prev && n.next == H[n].next
    ensures n.IsLeaf() ==> |H[n].vals| == n.len
    ensures !n.IsLeaf() ==> H[n].edges != []
  {
    n.Known(S);
  }

  /** Nothing but the tree of `H` and `t` matters to it. */
  lemma {:induction false} Isolated(H: Cells, H1: Cells, t: Shape, hole: Node?)
    requires Wf(H, t, hole) && forall n {:trigger n in t.places} :: n in t.places ==> n in H1 && n in H && H1[n] == H[n]
    ensures Wf(H1, t, hole) && FlatKeys(H1, t.leaves) == FlatKeys(H, t.leaves) &&
            FlatVals(H1, t.leaves) == FlatVals(H, t.leaves)
  {
    IsolatedUps(H, H1, t, hole);
    hide LocalOk;
    var A := t.places;
    LocalsIsolated(H, H1, t, hole);
    ChainFrame(H, A, H1, A, t.leaves);
    forall n | n in A
      ensures FillOk(H1, t.root, hole, n)
    {
      assert FillOk(H, t.root, hole, n);
    }
    forall i | 0 <= i < |t.leaves|
      ensures EntriesSame(H, H1, t.leaves[i])
    {
      assert LinkAt(H, A, t.leaves, i);
    }
    FlatFrame(H, H1, t.leaves);
  }

  lemma LocalsIsolated(H: Cells, H1: Cells, t: Shape, hole: Node?)
    requires Wf(H, t, hole) && forall n {:trigger n in t.places} :: n in t.places ==> n in H1 && n in H && H1[n] == H[n]
    ensures AllLocal(H1, t.places, {})
  {
    forall n | n in t.places
      ensures LocalOk(H1, t.places, n)
    {
      assert LocalOk(H, t.places, n);
      if t.places[n].height > 0 {
        KidsBelow(H, t.places, n);
      }
      LocalFrame(H, t.places, H1, t.places, n);
    }
  }

  lemma IsolatedUps(H: Cells, H1: Cells, t: Shape, hole: Node?)
    requires Wf(H, t, hole) && forall n {:trigger n in t.places} :: n in t.places ==> n in H1 && n in H && H1[n] == H[n]
    ensures AllUp(H1, t.places, {t.root})
  {
    forall n | n in t.places && n != t.root
      ensures UpOk(H1, t.places, n)
    {
      assert UpOk(H, t.places, n);
    }
  }

  // ---- deallocation on the way up ----

  /** `n` ends with the leaf at `q` and is next on the way up: the nodes below it that end there have gone. */
  ghost predicate NextLast(A: Places, ls: seq<Node>, q: nat, n: Node, y: Bound) {
    && q < |ls| && ls[q] in A && n in A && A[n].hi == A[ls[q]].hi && LessEq(A[n].lo, A[ls[q]].lo)
    && Less(A[ls[q]].lo, A[ls[q]].hi) && LessEq(A[ls[q]].hi, y)
  }

  ghost function GoneLast(A: Places, leaf: Place, y: Bound, h: nat): set<Node> {
    Ended(A, leaf.lo) + Unstarted(A, y) + EndingAt(A, leaf.hi, h)
  }

  lemma LastReady(H: Cells, t: Shape, q: nat, n: Node, y: Bound)
    requires Wf(H, t, null) && NextLast(t.places, t.leaves, q, n, y)
    ensures var A, leaf := t.places, t.places[t.leaves[q]];
            var gone := GoneLast(A, leaf, y, A[n].height);
            && n in H && n !in gone && gone + {n} == GoneLast(A, leaf, y, A[n].height + 1)
            && (forall i {:trigger H[n].edges[i]} :: 0 <= i < |H[n].edges| ==> H[n].edges[i] in gone)
    ensures n != t.root ==> H[n].parent != null && H[n].parent in t.places && H[n].parent in H
    ensures n == t.root <==> H[n].parent == null
  {
    var A, e := t.places, t.places[t.leaves[q]].hi;
    AboveRoot(H, t, null, n);
    LocalAt(H, t, null, n);
    forall i | 0 <= i < |H[n].edges|
      ensures H[n].edges[i] in GoneLast(A, A[t.leaves[q]], y, A[n].height)
    {
      Kid(H, t, null, n, i);
      Child(H, t, null, n, i);
      var c := H[n].edges[i];
      ChildRange(H, t, c);
      if !LessEq(A[c].hi, A[t.leaves[q]].lo) {
        HiStep(H, t, q, c);
      }
    }
    hide Wf, LocalOk;
    forall m | m in A && A[m].hi == e && A[m].height == A[n].height
      ensures m == n
    {
      SameHi(H, t, m, n);
    }
  }

  /** The way up ends at the root, or at a node that is not the last edge of its parent. */
  lemma LastDone(H: Cells, t: Shape, q: nat, n: Node, y: Bound)
    requires Wf(H, t, null) && NextLast(t.places, t.leaves, q, n, y) && n in H
    requires H[n].parent == null || (H[n].parent in H && H[n].parentIdx != |H[H[n].parent].keys|)
    ensures var A, leaf := t.places, t.places[t.leaves[q]];
            GoneLast(A, leaf, y, A[n].height + 1) == Ended(A, leaf.hi) + Unstarted(A, y)
  {
    var A, leaf := t.places, t.places[t.leaves[q]];
    AboveRoot(H, t, null, n);
    hide Wf;
    forall m | m in A
      ensures LessEq(A[m].hi, leaf.hi) <==>
              LessEq(A[m].hi, leaf.lo) || (A[m].hi == leaf.hi && A[m].height < A[n].height + 1)
    {
      if LessEq(A[m].hi, leaf.hi) && !LessEq(A[m].hi, leaf.lo) {
        HiStep(H, t, q, m);
        if A[n].height < A[m].height {
          HiUp(H, t, n, m);
        }
      }
    }
  }

  lemma LastUp(H: Cells, t: Shape, q: nat, n: Node, y: Bound)
    requires Wf(H, t, null) && NextLast(t.places, t.leaves, q, n, y) && n in H
    requires H[n].parent != null && H[n].parent in H && H[n].parentIdx == |H[H[n].parent].keys|
    ensures H[n].parent in t.places && NextLast(t.places, t.leaves, q, H[n].parent, y)
    ensures t.places[H[n].parent].height == t.places[n].height + 1 <= t.height
  {
    AboveRoot(H, t, null, n);
    Parent(H, t, null, n);
    ChildRange(H, t, n);
  }

  lemma LastParentLive(H: Cells, t: Shape, q: nat, n: Node, y: Bound)
    requires Wf(H, t, null) && NextLast(t.places, t.leaves, q, n, y) && n in H && H[n].parent != null
    ensures H[n].parent in t.places && H[n].parent !in GoneLast(t.places, t.places[t.leaves[q]], y,
            t.places[n].height + 1)
  {
    AboveRoot(H, t, null, n);
    ChildRange(H, t, n);
  }

  lemma FirstOfEnding(A: Places, leaf: Place, y: Bound)
    ensures GoneLast(A, leaf, y, 0) == Ended(A, leaf.lo) + Unstarted(A, y)
  {
  }

  /** Reads the parent of a node, and the index there, and then deallocates the node; its edges have gone before. */
  method FreeNode(st: Store, node: Node, ghost H: Cells, ghost A: Places, ghost gone: set<Node>,
                  ghost before: seq<Node>, ghost done: seq<Node>)
    returns (parent: Node?, idx: nat, ghost done1: seq<Node>)
    requires st.Valid() && Agree(H, Heap(st.nodes)) && Freed(H, A, st.nodes, done, gone) && st.freed == before + done
    requires node in A && node in H && node !in gone
    requires forall i {:trigger H[node].edges[i]} :: 0 <= i < |H[node].edges| ==> H[node].edges[i] in gone
    modifies st`nodes, st`freed, st.nodes, st.buffers, st.edgeBuffers
    ensures st.Valid() && st.nodes <= old(st.nodes) && Agree(H, Heap(st.nodes)) && st.freed == before + done1
    ensures Freed(H, A, st.nodes, done1, gone + {node})
    ensures parent == H[node].parent && idx == H[node].parentIdx
  {
    hide Arena, Heap, Node.Valid, Store.Valid, Freed, Agree, Accounted, Buffered;
    FreedLive(H, A, st.nodes, done, gone, node);
    FreedStep(H, A, st.nodes, done, gone, node);
    st.Use(node);
    StillKnown(st.nodes, H, node);
    AgreeLess(H, Heap(st.nodes), node);
    parent, idx := node.parent, node.parentIdx;
    st.Dealloc(node);
    done1 := done + [node];
  }

  /**
   * If `idx` is the last index of the leaf, deallocates the leaf, then its parent if it is the last edge of it, and
   * so on.
   */
  method DeallocUpLasts(st: Store, leaf: Node, idx: nat, ghost H: Cells, ghost t: Shape, ghost q: nat, ghost y: Bound,
                        ghost before: seq<Node>, ghost done: seq<Node>) returns (ghost done1: seq<Node>)
    requires st.Valid() && Agree(H, Heap(st.nodes)) && Wf(H, t, null)
    requires NextLast(t.places, t.leaves, q, leaf, y) && t.leaves[q] == leaf && leaf in t.places && leaf in H &&
             t.places[leaf].height == 0 && idx < |H[leaf].keys| && leaf in st.nodes
    requires Freed(H, t.places, st.nodes, done, Ended(t.places, t.places[leaf].lo) + Unstarted(t.places, y)) &&
             st.freed == before + done
    modifies st`nodes, st`freed, st.nodes, st.buffers, st.edgeBuffers
    ensures st.Valid() && st.freed == before + done1 && st.nodes <= old(st.nodes) && Agree(H, Heap(st.nodes))
    ensures var a := t.places[leaf];
            Freed(H, t.places, st.nodes, done1, Ended(t.places, EndAfter(H, t.places, leaf, idx)) + Unstarted(t.places,
              y))
  {
    hide Arena, Heap, Node.Valid, Store.Valid, Wf, Freed, NextLast, GoneLast, Agree, Accounted, Buffered;
    done1 := done;
    st.Parts();
    StillKnown(st.nodes, H, leaf);
    if idx != leaf.len - 1 {
      return;
    }
    ghost var A, a := t.places, t.places[leaf];
    FirstOfEnding(A, a, y);
    var node: Node := leaf;
    while true
      invariant st.Valid() && st.freed == before + done1 && st.nodes <= old(st.nodes) && Agree(H, Heap(st.nodes))
      invariant node in A && A[node].height <= t.height && NextLast(A, t.leaves, q, node, y)
      invariant Freed(H, A, st.nodes, done1, GoneLast(A, a, y, A[node].height))
      decreases t.height - A[node].height
    {
      LastReady(H, t, q, node, y);
      var parent, idx;
      parent, idx, done1 := FreeNode(st, node, H, A, GoneLast(A, a, y, A[node].height), before, done1);
      if parent == null {
        LastDone(H, t, q, node, y);
        break;
      }
      LastParentLive(H, t, q, node, y);
      FreedLive(H, A, st.nodes, done1, GoneLast(A, a, y, A[node].height + 1), parent);
      st.Parts();
      StillKnown(st.nodes, H, parent);
      if idx != parent.len {
        LastDone(H, t, q, node, y);
        break;
      }
      LastUp(H, t, q, node, y);
      node := parent;
    }
  }

  lemma FreedLive(H: Cells, A: Places, S: set<Node>, done: seq<Node>, gone: set<Node>, n: Node)
    requires Freed(H, A, S, done, gone) && n in A && n !in gone
    ensures n in S
  {
  }

  // ---- the same from the back ----

  /** `n` starts with the leaf at `q` and is next on the way up: the nodes below it that start there have gone. */
  ghost predicate NextFirst(A: Places, ls: seq<Node>, q: nat, n: Node, x: Bound) {
    && q < |ls| && ls[q] in A && n in A && A[n].lo == A[ls[q]].lo && LessEq(A[ls[q]].hi, A[n].hi)
    && Less(A[ls[q]].lo, A[ls[q]].hi) && LessEq(x, A[ls[q]].lo)
  }

  ghost function GoneFirst(A: Places, leaf: Place, x: Bound, h: nat): set<Node> {
    Ended(A, x) + Unstarted(A, leaf.hi) + StartingAt(A, leaf.lo, h)
  }

  lemma FirstReady(H: Cells, t: Shape, q: nat, n: Node, x: Bound)
    requires Wf(H, t, null) && NextFirst(t.places, t.leaves, q, n, x)
    ensures var A, leaf := t.places, t.places[t.leaves[q]];
            var gone := GoneFirst(A, leaf, x, A[n].height);
            && n in H && n !in gone && gone + {n} == GoneFirst(A, leaf, x, A[n].height + 1)
            && (forall i {:trigger H[n].edges[i]} :: 0 <= i < |H[n].edges| ==> H[n].edges[i] in gone)
    ensures n != t.root ==> H[n].parent != null && H[n].parent in t.places && H[n].parent in H
    ensures n == t.root <==> H[n].parent == null
  {
    var A, e := t.places, t.places[t.leaves[q]].lo;
    AboveRoot(H, t, null, n);
    LocalAt(H, t, null, n);
    forall i | 0 <= i < |H[n].edges|
      ensures H[n].edges[i] in GoneFirst(A, A[t.leaves[q]], x, A[n].height)
    {
      Kid(H, t, null, n, i);
      Child(H, t, null, n, i);
      var c := H[n].edges[i];
      ChildRange(H, t, c);
      if !LessEq(A[t.leaves[q]].hi, A[c].lo) {
        LoStep(H, t, q, c);
      }
    }
    hide Wf, LocalOk;
    forall m | m in A && A[m].lo == e && A[m].height == A[n].height
      ensures m == n
    {
      SameHi(H, t, m, n);
    }
  }

  /** The way up ends at the root, or at a node that is not the first edge of its parent. */
  lemma FirstDone(H: Cells, t: Shape, q: nat, n: Node, x: Bound)
    requires Wf(H, t, null) && NextFirst(t.places, t.leaves, q, n, x) && n in H
    requires H[n].parent == null || (H[n].parent in H && H[n].parentIdx != 0)
    ensures var A, leaf := t.places, t.places[t.leaves[q]];
            GoneFirst(A, leaf, x, A[n].height + 1) == Ended(A, x) + Unstarted(A, leaf.lo)
  {
    var A, leaf := t.places, t.places[t.leaves[q]];
    AboveRoot(H, t, null, n);
    hide Wf;
    forall m | m in A
      ensures LessEq(leaf.lo, A[m].lo) <==>
              LessEq(leaf.hi, A[m].lo) || (A[m].lo == leaf.lo && A[m].height < A[n].height + 1)
    {
      if LessEq(leaf.lo, A[m].lo) && !LessEq(leaf.hi, A[m].lo) {
        LoStep(H, t, q, m);
        if A[n].height < A[m].height {
          LoUp(H, t, n, m);
        }
      }
    }
  }

  lemma FirstUp(H: Cells, t: Shape, q: nat, n: Node, x: Bound)
    requires Wf(H, t, null) && NextFirst(t.places, t.leaves, q, n, x) && n in H
    requires H[n].parent != null && H[n].parent in H && H[n].parentIdx == 0
    ensures H[n].parent in t.places && NextFirst(t.places, t.leaves, q, H[n].parent, x)
    ensures t.places[H[n].parent].height == t.places[n].height + 1 <= t.height
  {
    AboveRoot(H, t, null, n);
    Parent(H, t, null, n);
    ChildRange(H, t, n);
  }

  lemma FirstOfStarting(A: Places, leaf: Place, x: Bound)
    ensures GoneFirst(A, leaf, x, 0) == Ended(A, x) + Unstarted(A, leaf.hi)
  {
  }

  /**
   * If `idx` is the first index of the leaf, deallocates the leaf, then its parent if it is the first edge of it, and
   * so on.
   */
  method DeallocUpFirsts(st: Store, leaf: Node, idx: nat, ghost H: Cells, ghost t: Shape, ghost q: nat, ghost x: Bound,
                         ghost before: seq<Node>, ghost done: seq<Node>) returns (ghost done1: seq<Node>)
    requires st.Valid() && Agree(H, Heap(st.nodes)) && Wf(H, t, null)
    requires NextFirst(t.places, t.leaves, q, leaf, x) && t.leaves[q] == leaf && leaf in t.places && leaf in H &&
             t.places[leaf].height == 0
    requires Freed(H, t.places, st.nodes, done, Ended(t.places, x) + Unstarted(t.places, t.places[leaf].hi)) &&
             st.freed == before + done
    modifies st`nodes, st`freed, st.nodes, st.buffers, st.edgeBuffers
    ensures st.Valid() && st.freed == before + done1 && st.nodes <= old(st.nodes) && Agree(H, Heap(st.nodes))
    ensures var a := t.places[leaf];
            Freed(H, t.places, st.nodes, done1, Ended(t.places, x) + Unstarted(t.places,
              StartBefore(t.places, leaf, idx)))
  {
    hide Arena, Heap, Node.Valid, Store.Valid, Wf, Freed, NextFirst, GoneFirst, Agree, Accounted, Buffered;
    done1 := done;
    ghost var A, a := t.places, t.places[leaf];
    FirstOfStarting(A, a, x);
    var node: Node, i := leaf, idx;
    while true
      invariant st.Valid() && st.freed == before + done1 && st.nodes <= old(st.nodes) && Agree(H, Heap(st.nodes))
      invariant node in A && A[node].height <= t.height && (node == leaf ==> i == idx)
      invariant node != leaf ==> idx == 0
      invariant if i == 0 || node == leaf then NextFirst(A, t.leaves, q, node, x) &&
                Freed(H, A, st.nodes, done1, GoneFirst(A, a, x, A[node].height))
                else Freed(H, A, st.nodes, done1, Ended(A, x) + Unstarted(A, a.lo))
      decreases t.height - A[node].height
    {
      if i != 0 {
        break;
      }
      FirstReady(H, t, q, node, x);
      var parent, pi;
      parent, pi, done1 := FreeNode(st, node, H, A, GoneFirst(A, a, x, A[node].height), before, done1);
      if parent == null {
        FirstDone(H, t, q, node, x);
        break;
      }
      if pi == 0 {
        FirstUp(H, t, q, node, x);
      } else {
        FirstDone(H, t, q, node, x);
        AboveRoot(H, t, null, node);
      }
      node, i := parent, pi;
    }
  }

  // ---- how far both ends have come ----

  /** The leaves that end at or before `x` are those whose entries all lie before number `p`. */
  ghost predicate FrontBound(H: Cells, t: Shape, p: nat, x: Bound) {
    || (p == Count(H, t) && x == PosInf)
    || exists q: nat, i: nat ::
         && q < |t.leaves| && AddressAt(H, t, t.leaves[q], i, q, p) && t.leaves[q] in t.places
         && x == t.places[t.leaves[q]].lo
  }

  /** The leaves that start at or after `y` are those whose entries all have at least number `m`. */
  ghost predicate BackBound(H: Cells, t: Shape, m: nat, y: Bound) {
    || (m == 0 && y == NegInf)
    || (m > 0 && LeafEnds(H, t, m - 1, y))
  }

  /** The leaf of entry number `p` ends at `y`. */
  ghost predicate LeafEnds(H: Cells, t: Shape, p: nat, y: Bound) {
    exists q: nat, i: nat ::
      && q < |t.leaves| && AddressAt(H, t, t.leaves[q], i, q, p) && t.leaves[q] in t.places
      && y == t.places[t.leaves[q]].hi
  }

  lemma {:induction false} StartBounds(H: Cells, t: Shape)
    requires Wf(H, t, null)
    ensures FrontBound(H, t, 0, NegInf) && BackBound(H, t, Count(H, t), PosInf)
    ensures Ended(t.places, NegInf) == {} && Unstarted(t.places, PosInf) == {}
  {
    EndEntries(H, t);
    var l := |t.leaves| - 1;
    assert LinkAt(H, t.places, t.leaves, 0) && LinkAt(H, t.places, t.leaves, l);
    assert AddressAt(H, t, t.leaves[0], 0, 0, 0);
    assert AddressAt(H, t, t.leaves[l], |H[t.leaves[l]].keys| - 1, l, Count(H, t) - 1);
    forall n | n in t.places
      ensures !LessEq(t.places[n].hi, NegInf) && !LessEq(PosInf, t.places[n].lo)
    {
      ChildRange(H, t, n);
    }
  }

  /** Taking the entry `p` from the front moves its bound past the leaf if that was its last entry. */
  lemma {:induction false} FrontStep(H: Cells, t: Shape, c: Node, i: nat, q: nat, p: nat, x: Bound)
    requires Wf(H, t, null) && AddressAt(H, t, c, i, q, p) && FrontBound(H, t, p, x)
    ensures c in t.places && t.places[c].height == 0 && x == t.places[c].lo
    ensures FrontBound(H, t, p + 1, EndAfter(H, t.places, c, i))
  {
    LeafLinks(H, t, q);
    NextAddress(H, t, c, i, q, p);
    assert LinkAt(H, t.places, t.leaves, q);
    if q + 1 < |t.leaves| { assert LinkAt(H, t.places, t.leaves, q + 1); }
    var q1: nat, i1: nat :| q1 < |t.leaves| && AddressAt(H, t, t.leaves[q1], i1, q1, p) && t.leaves[q1] in t.places &&
        x == t.places[t.leaves[q1]].lo;
    AddressUnique(H, t, c, i, q, t.leaves[q1], i1, q1, p);
    if i + 1 == |H[c].keys| {
      if p + 1 < Count(H, t) {
        assert AddressAt(H, t, t.leaves[q + 1], 0, q + 1, p + 1);
      } else if q + 1 < |t.leaves| {
        assert false;
      }
    } else {
      LastCount(H, t, q, i);
      assert AddressAt(H, t, t.leaves[q], i + 1, q, p + 1);
    }
  }

  lemma {:induction false} LastCount(H: Cells, t: Shape, q: nat, i: nat)
    requires q < |t.leaves| && t.leaves[q] in H && i < |H[t.leaves[q]].keys|
    ensures Position(H, t.leaves, q, i) < Count(H, t)
  {
    FlatSplit(H, t.leaves, q);
  }

  /** Taking the entry `p` from the back moves its bound before the leaf if that was its first entry. */
  lemma {:induction false} BackStep(H: Cells, t: Shape, c: Node, i: nat, q: nat, p: nat, y: Bound)
    requires Wf(H, t, null) && AddressAt(H, t, c, i, q, p) && BackBound(H, t, p + 1, y)
    ensures c in t.places && t.places[c].height == 0 && y == t.places[c].hi
    ensures BackBound(H, t, p, StartBefore(t.places, c, i))
  {
    LeafLinks(H, t, q);
    PrevAddress(H, t, c, i, q, p);
    assert LinkAt(H, t.places, t.leaves, q);
    var q1: nat, i1: nat :| q1 < |t.leaves| && AddressAt(H, t, t.leaves[q1], i1, q1, p) && t.leaves[q1] in t.places &&
        y == t.places[t.leaves[q1]].hi;
    AddressUnique(H, t, c, i, q, t.leaves[q1], i1, q1, p);
    if i == 0 {
      if q > 0 {
        assert LinkAt(H, t.places, t.leaves, q - 1);
        LeafLinks(H, t, q - 1);
        assert AddressAt(H, t, t.leaves[q - 1], |H[t.leaves[q - 1]].keys| - 1, q - 1, p - 1);
      }
    } else {
      assert AddressAt(H, t, t.leaves[q], i - 1, q, p - 1);
    }
  }

  /** The leaf of an earlier entry starts and ends no later. */
  lemma {:induction false} NotAfter(H: Cells, t: Shape, c: Node?, i: nat, q: nat, p: nat, d: Node?, j: nat, r: nat,
                                    m: nat)
    requires Wf(H, t, null) && AddressAt(H, t, c, i, q, p) && AddressAt(H, t, d, j, r, m) && p <= m
    ensures c in t.places && d in t.places
    ensures LessEq(t.places[c].lo, t.places[d].lo) && LessEq(t.places[c].hi, t.places[d].hi)
  {
    assert LinkAt(H, t.places, t.leaves, q) && LinkAt(H, t.places, t.leaves, r);
    ChildRange(H, t, d);
    if r < q {
      PositionsGrow(H, t, r, q);
      assert false;
    }
    if q < r {
      ChainOrder(H, t.places, t.leaves, q, r);
    }
  }

  /** As long as entries are left, neither end has gone past the leaf of the other. */
  lemma {:induction false} EndsApart(H: Cells, t: Shape, c: Node, i: nat, q: nat, p: nat, x: Bound, d: Node, j: nat,
                                     r: nat, m: nat, y: Bound)
    requires Wf(H, t, null) && AddressAt(H, t, c, i, q, p) && FrontBound(H, t, p, x)
    requires p <= m && AddressAt(H, t, d, j, r, m) && BackBound(H, t, m + 1, y)
    ensures NextLast(t.places, t.leaves, q, c, y) && NextFirst(t.places, t.leaves, r, d, x)
    ensures c in t.places && d in t.places
    ensures c !in Ended(t.places, x) + Unstarted(t.places, y) && d !in Ended(t.places, x) + Unstarted(t.places, y)
  {
    hide FrontBound, BackBound, Position, Wf;
    NotAfter(H, t, c, i, q, p, d, j, r, m);
    FrontStep(H, t, c, i, q, p, x);
    BackStep(H, t, d, j, r, m, y);
    ChildRange(H, t, c);
    ChildRange(H, t, d);
  }

  // ---- the iterator ----

  /**
   * How far the iterator has come: what it has yielded, where its cursors are, and up to which bounds it has
   * deallocated.
   */
  ghost predicate Progress(H: Cells, t: Shape, c: Node?, i: nat, d: Node?, j: nat,
                           fronts: seq<Entry>, length: nat, backs: seq<Entry>, x: Bound, y: Bound) {
    && Wf(H, t, null) && |FlatVals(H, t.leaves)| == |FlatKeys(H, t.leaves)|
    && Yielded(Pairs(FlatKeys(H, t.leaves), FlatVals(H, t.leaves)), fronts, length, backs)
    && Between(H, t, c, i, d, j, |fronts|, length)
    && FrontBound(H, t, |fronts|, x) && BackBound(H, t, |fronts| + length, y)
  }

  /** Reads the entry at the cursor and moves it on. */
  method ReadFront(cursor: Cursor, ghost S: set<Node>, ghost H: Cells) returns (key: Key, val: Value)
    requires Arena(S) && Agree(H, Heap(S)) && cursor.node != null && cursor.node in S && cursor.node in H
    requires var c := H[cursor.node]; cursor.index < |c.keys| == |c.vals| && c.edges == []
    modifies cursor
    ensures var n, i := old(cursor.node), old(cursor.index);
            && key == H[n].keys[i] && val == H[n].vals[i] && cursor.node == NextNode(H, n, i) &&
               cursor.index == NextIndex(H, n, i)
  {
    hide Arena, Heap, Node.Valid, Agree;
    StillKnown(S, H, cursor.node);
    cursor.node.Known(S);
    key, val := cursor.KeyValue(S);
    cursor.Advance(S);
  }

  /**
   * Reads the entry at the cursor and moves it back. That reads the length of the previous leaf if the entry is the
   * first one of its leaf; `dead` says that the previous leaf is no longer live, and then the new index is unknown.
   */
  method ReadBack(cursor: Cursor, ghost S: set<Node>, ghost H: Cells)
    returns (key: Key, val: Value, ghost dead: bool)
    requires Arena(S) && Agree(H, Heap(S)) && cursor.node != null && cursor.node in S && cursor.node in H
    requires var c := H[cursor.node];
             && cursor.index < |c.keys| == |c.vals| && c.edges == [] &&
                (c.prev != null ==> c.prev in H && 0 < |H[c.prev].keys|)
    modifies cursor
    ensures var n, i := old(cursor.node), old(cursor.index);
            && key == H[n].keys[i] && val == H[n].vals[i] && cursor.node == PrevNode(H, n, i)
            && (i > 0 ==> cursor.index + 1 == i)
            && (i == 0 && cursor.node != null && cursor.node in S ==>
                 cursor.node in H && cursor.index + 1 == |H[cursor.node].keys|)
            && (dead <==> i == 0 && cursor.node != null && cursor.node !in S)
  {
    hide Arena, Heap, Node.Valid, Agree;
    StillKnown(S, H, cursor.node);
    cursor.node.Known(S);
    if cursor.node.prev != null && cursor.node.prev in S { StillKnown(S, H, cursor.node.prev); }
    key, val := cursor.KeyValue(S);
    dead := cursor.AdvanceBack(S);
    if cursor.node != null && cursor.node in S { cursor.node.Known(S); }
  }

  /** Yields and frees the entries and the nodes of a map that it has taken over. */
  class IntoIter {
    const store: Store
    var cursor: Cursor
    var backCursor: Cursor
    var length: nat
    /** The tree as it was taken over, unless the map was empty, and its cells. */
    ghost const tree: Option<Shape>
    ghost const cells: Cells
    /** The nodes deallocated before, and those deallocated by this iterator. */
    ghost const before: seq<Node>
    ghost var done: seq<Node>
    /**
     * The entries yielded at the front and at the back so far, and the bounds up to which nodes have been
     * deallocated.
     */
    ghost var fronts: seq<Entry>
    ghost var backs: seq<Entry>
    ghost var x: Bound
    ghost var y: Bound
    /** Whether the length of a leaf has been read after that leaf was deallocated. */
    ghost var dead: bool

    /** The keys and the values of the map that was taken over. */
    ghost function Keys(): seq<Key>
      requires tree.Some?
    {
      FlatKeys(cells, tree.value.leaves)
    }

    ghost function Vals(): seq<Value>
      requires tree.Some?
    {
      FlatVals(cells, tree.value.leaves)
    }

    ghost predicate Valid()
      reads this, cursor, backCursor, store, store.nodes, store.buffers, store.edgeBuffers
    {
      && store.Valid() && cursor != backCursor && store.freed == before + done
      && (dead ==> length == 0 && fronts != [] && backs != [])
      && match tree
         case None => length == 0 && fronts == backs == [] && done == []
         case Some(t) => ValidTree(t)
    }

    ghost predicate ValidTree(t: Shape)
      reads this, cursor, backCursor, store, store.nodes
    {
      && cells.Keys == t.places.Keys && Agree(cells, Heap(store.nodes))
      && Progress(cells, t, cursor.node, cursor.index, backCursor.node, backCursor.index, fronts, length, backs, x, y)
      && Freed(cells, t.places, store.nodes, done, Ended(t.places, x) + Unstarted(t.places, y))
    }

    /** Takes over the map. */
    constructor (tree: BTreeMap)
      requires tree.Valid()
      ensures Valid() && store == tree.store && length == tree.length && fronts == backs == [] &&
              before == store.freed && !dead
      ensures this.tree == tree.Tree?() && fresh(cursor) && fresh(backCursor)
      ensures tree.root != null ==>
                && cells == Heap(tree.places.Keys)
                && Keys() == tree.Keys() && Vals() == tree.Vals()
    {
      hide Arena, Heap, Store.Valid, Wf, FlatKeys, FlatVals, Freed, Progress, Address, Ended, Unstarted, BTreeMap.Valid,
           Accounted, Buffered;
      store := tree.store;
      tree.Parts();
      if tree.root != null {
        TakenOver(tree.store.nodes, tree.Tree());
      }
      var first, last := EndCursors(tree);
      cursor, backCursor := first, last;
      length := tree.length;
      this.tree := tree.Tree?();
      cells := if tree.root == null then map[] else Heap(tree.places.Keys);
      before, done, fronts, backs, x, y, dead := tree.store.freed, [], [], [], NegInf, PosInf, false;
    }

    /** The entry at `idx` of the leaf `node` has been taken from the front, but nothing has been deallocated yet. */
    ghost predicate TakenFront(t: Shape, node: Node, idx: nat, q: nat)
      reads this, cursor, backCursor, store, store.nodes, store.buffers, store.edgeBuffers
    {
      && store.Valid() && cursor != backCursor && store.freed == before + done && tree == Some(t) && !dead
      && cells.Keys == t.places.Keys && Agree(cells, Heap(store.nodes)) && Wf(cells, t, null)
      && NextLast(t.places, t.leaves, q, node, y) && q < |t.leaves| && t.leaves[q] == node && node in cells &&
         node in t.places && node in store.nodes
      && t.places[node].height == 0 && idx < |cells[node].keys| && x == t.places[node].lo
      && Progress(cells, t, cursor.node, cursor.index, backCursor.node, backCursor.index, fronts, length, backs,
                  EndAfter(cells, t.places, node, idx), y)
      && Freed(cells, t.places, store.nodes, done, Ended(t.places, x) + Unstarted(t.places, y))
    }

    method AdvanceFront(ghost t: Shape) returns (key: Key, val: Value, node: Node, idx: nat, ghost q: nat)
      requires Valid() && 0 < length && tree == Some(t)
      modifies `length, `fronts, cursor
      ensures TakenFront(t, node, idx, q) && node == old(cursor.node) && node in store.nodes
      ensures length == old(length) - 1 && fronts == old(fronts) + [(key, val)] && cursor == old(cursor)
    {
      hide Arena, Heap, Node.Valid, Store.Valid, Wf, FlatKeys, FlatVals, Freed, Progress, NextLast, Ended, Unstarted,
           NextNode, NextIndex, EndAfter;
      q := TakeFront(cells, t, cursor.node, cursor.index, backCursor.node, backCursor.index, fronts, length, backs, x,
        y);
      FreedLive(cells, t.places, store.nodes, done, Ended(t.places, x) + Unstarted(t.places, y), cursor.node);
      node, idx := cursor.node, cursor.index;
      store.Parts();
      key, val := ReadFront(cursor, store.nodes, cells);
      length, fronts := length - 1, fronts + [(key, val)];
    }

    method FreeFront(node: Node, idx: nat, ghost t: Shape, ghost q: nat)
      requires TakenFront(t, node, idx, q)
      modifies `x, `done, store`nodes, store`freed, store.nodes, store.buffers, store.edgeBuffers
      ensures Valid() && store.nodes <= old(store.nodes)
    {
      hide Arena, Heap, Node.Valid, Store.Valid, Wf, FlatKeys, FlatVals, Freed, Progress, NextLast, Ended, Unstarted,
           EndAfter;
      ghost var gone := DeallocUpLasts(store, node, idx, cells, t, q, y, before, done);
      x, done := EndAfter(cells, t.places, node, idx), gone;
    }

    /** Yields the next entry from the front; its leaf is live when the entry is read. */
    method Next() returns (r: Option<Entry>)
      requires Valid()
      modifies `length, `fronts, `x, `done, cursor, store`nodes, store`freed, store.nodes, store.buffers,
               store.edgeBuffers
      ensures Valid() && backs == old(backs) && cursor == old(cursor) && backCursor == old(backCursor) &&
              store.nodes <= old(store.nodes)
      ensures old(length) == 0 ==> r == None && length == 0 && fronts == old(fronts) && done == old(done)
      ensures old(length) > 0 ==> length == old(length) - 1 && r.Some? && fronts == old(fronts) + [r.value]
      ensures old(length) > 0 ==> tree.Some? && |old(fronts)| < |Keys()| == |Vals()|
      ensures old(length) > 0 ==> r == Some((Keys()[|old(fronts)|], Vals()[|old(fronts)|]))
    {
      hide TakenFront, IntoIter.ValidTree, Store.Valid, Keys, Vals;
      if length == 0 {
        return None;
      }
      ghost var t := tree.value;
      var key, val, node, idx;
      ghost var q;
      key, val, node, idx, q := AdvanceFront(t);
      FreeFront(node, idx, t, q);
      r := Some((key, val));
      LastFront();
    }

    /** The entry at `idx` of the leaf `node` has been taken from the back, but nothing has been deallocated yet. */
    ghost predicate TakenBack(t: Shape, node: Node, idx: nat, q: nat)
      reads this, cursor, backCursor, store, store.nodes, store.buffers, store.edgeBuffers
    {
      && store.Valid() && cursor != backCursor && store.freed == before + done && tree == Some(t) && !dead
      && cells.Keys == t.places.Keys && Agree(cells, Heap(store.nodes)) && Wf(cells, t, null)
      && NextFirst(t.places, t.leaves, q, node, x) && q < |t.leaves| && t.leaves[q] == node && node in cells &&
         node in t.places
      && t.places[node].height == 0 && y == t.places[node].hi
      && Progress(cells, t, cursor.node, cursor.index, backCursor.node, backCursor.index, fronts, length, backs,
                  x, StartBefore(t.places, node, idx))
      && Freed(cells, t.places, store.nodes, done, Ended(t.places, x) + Unstarted(t.places, y))
    }

    /** The leaf whose length moving the back cursor reads, if any. */
    ghost function LeafRead(): Node?
      reads this, backCursor, backCursor.node
    {
      if backCursor.node == null || backCursor.index > 0 then null else backCursor.node.prev
    }

    /** That leaf is live exactly if more than one entry is left. */
    lemma ReadLive()
      requires Valid() && 0 < length && LeafRead() != null
      ensures LeafRead() in store.nodes <==> 1 < length
      ensures length == 1 ==> fronts != []
    {
      hide Arena, Heap, Node.Valid, Store.Valid, Wf, FlatKeys, FlatVals, Freed, Progress, Ended, Unstarted;
      var t := tree.value;
      var r := BackReady(cells, t, cursor.node, cursor.index, backCursor.node, backCursor.index, fronts, length, backs,
          x, y);
      FreedLive(cells, t.places, store.nodes, done, Ended(t.places, x) + Unstarted(t.places, y), backCursor.node);
      store.Parts();
      StillKnown(store.nodes, cells, backCursor.node);
      PrevLive(cells, t, store.nodes, done, cursor.node, cursor.index, backCursor.node, backCursor.index, fronts,
        length, backs, x, y);
    }

    lemma TreeOk()
      requires Valid() && tree.Some?
      ensures Wf(cells, tree.value, null)
    {
      hide Arena, Heap, Node.Valid, Store.Valid, Wf, FlatKeys, FlatVals, Freed;
    }

    /**
     * Taking the last entry from the back reads the previous leaf exactly if that entry is the first one of a later
     * leaf.
     */
    lemma LastRead()
      requires Valid() && length == 1
      ensures tree.Some? && (LeafRead() != null <==> StartsLeaf(cells, tree.value, |fronts|))
    {
      hide Arena, Heap, Node.Valid, Store.Valid, Wf, FlatKeys, FlatVals, Freed, Progress, Ended, Unstarted, StartsLeaf;
      var t := tree.value;
      var r := BackReady(cells, t, cursor.node, cursor.index, backCursor.node, backCursor.index, fronts, length, backs,
          x, y);
      FreedLive(cells, t.places, store.nodes, done, Ended(t.places, x) + Unstarted(t.places, y), backCursor.node);
      store.Parts();
      StillKnown(store.nodes, cells, backCursor.node);
      LastStarts(cells, t, cursor.node, cursor.index, backCursor.node, backCursor.index, fronts, backs, x, y);
    }

    method AdvanceBack(ghost t: Shape)
      returns (key: Key, val: Value, node: Node, idx: nat, ghost q: nat, ghost deadRead: bool)
      requires Valid() && 0 < length && tree == Some(t)
      modifies `length, `backs, backCursor
      ensures TakenBack(t, node, idx, q) && node == old(backCursor.node) && node in store.nodes
      ensures length == old(length) - 1 && backs == old(backs) + [(key, val)] && backCursor == old(backCursor)
      ensures deadRead <==> old(length) == 1 && old(LeafRead()) != null
      ensures deadRead ==> fronts != [] && backs != []
    {
      hide Arena, Heap, Node.Valid, Store.Valid, Wf, FlatKeys, FlatVals, Freed, Progress, NextFirst, Ended, Unstarted,
           StartBefore, Agree;
      q := BackReady(cells, t, cursor.node, cursor.index, backCursor.node, backCursor.index, fronts, length, backs, x,
        y);
      FreedLive(cells, t.places, store.nodes, done, Ended(t.places, x) + Unstarted(t.places, y), backCursor.node);
      node, idx := backCursor.node, backCursor.index;
      store.Parts();
      StillKnown(store.nodes, cells, node);
      if LeafRead() != null { ReadLive(); }
      key, val, deadRead := ReadBack(backCursor, store.nodes, cells);
      TakeBack(cells, t, cursor.node, cursor.index, node, idx, fronts, length, backs, x, y, backCursor.index);
      length, backs := length - 1, backs + [(key, val)];
    }

    method FreeBack(node: Node, idx: nat, ghost t: Shape, ghost q: nat)
      requires TakenBack(t, node, idx, q)
      modifies `y, `done, store`nodes, store`freed, store.nodes, store.buffers, store.edgeBuffers
      ensures Valid() && store.nodes <= old(store.nodes)
    {
      hide Arena, Heap, Node.Valid, Store.Valid, Wf, FlatKeys, FlatVals, Freed, Progress, NextFirst, Ended, Unstarted,
           StartBefore;
      ghost var gone := DeallocUpFirsts(store, node, idx, cells, t, q, x, before, done);
      y, done := StartBefore(t.places, node, idx), gone;
    }

    /**
     * Yields the next entry from the back; its leaf is live when the entry is read.
     * Moving the cursor may also read the length of the previous leaf, which is live exactly if more than one entry
     * was left.
     */
    method NextBack() returns (r: Option<Entry>)
      requires Valid()
      modifies `length, `backs, `y, `done, `dead, backCursor, store`nodes, store`freed, store.nodes, store.buffers,
               store.edgeBuffers
      ensures Valid() && fronts == old(fronts) && cursor == old(cursor) && backCursor == old(backCursor) &&
              store.nodes <= old(store.nodes)
      ensures old(length) == 0 ==> r == None && length == 0 && backs == old(backs) && done == old(done)
      ensures old(length) > 0 ==> length == old(length) - 1 && r.Some? && backs == old(backs) + [r.value]
      ensures old(length) > 0 ==> tree.Some? && |fronts| + old(length) <= |Keys()| == |Vals()|
      ensures old(length) > 0 ==> r == Some((Keys()[|fronts| + length], Vals()[|fronts| + length]))
      ensures old(length) > 0 && old(LeafRead()) != null ==> (old(LeafRead()) in old(store.nodes) <==> 1 < old(length))
      ensures dead == (old(dead) || (old(length) == 1 && old(LeafRead()) != null))
    {
      hide TakenBack, IntoIter.ValidTree, Store.Valid, Keys, Vals;
      if length == 0 {
        return None;
      }
      ghost var t := tree.value;
      var key, val, node, idx;
      ghost var q, deadRead;
      if LeafRead() != null { ReadLive(); }
      key, val, node, idx, q, deadRead := AdvanceBack(t);
      FreeBack(node, idx, t, q);
      Record(deadRead);
      r := Some((key, val));
      LastBack();
    }

    ghost method Record(deadRead: bool)
      requires Valid() && (deadRead ==> length == 0 && fronts != [] && backs != [])
      modifies `dead
      ensures Valid() && dead == (old(dead) || deadRead)
    {
      hide Arena, Heap, Node.Valid, Store.Valid, Wf, FlatKeys, FlatVals, Freed, Progress, Ended, Unstarted;
      dead := dead || deadRead;
    }

    /**
     * Every entry is yielded at most once and in order, and no node is deallocated twice, each only after all its
     * edges.
     */
    lemma NeverTwice()
      requires Valid() && tree.Some?
      ensures Distinct(done) && ChildrenFirst(cells, done)
      ensures forall i :: 0 <= i < |done| ==> done[i] in tree.value.places && done[i] !in store.nodes
      ensures |Vals()| == |Keys()| && Yielded(Pairs(Keys(), Vals()), fronts, length, backs)
    {
      hide Arena, Wf, FlatKeys, FlatVals, Between, FrontBound, BackBound, Ended, Unstarted, Yielded, Pairs;
      forall i, j | 0 <= i < j < |done|
        ensures done[i] != done[j]
      {
        assert store.freed[|before| + i] == done[i] && store.freed[|before| + j] == done[j];
      }
      forall i | 0 <= i < |done|
        ensures done[i] in tree.value.places && done[i] !in store.nodes
      {
        assert store.freed[|before| + i] == done[i];
      }
    }

    /** The last entry that has come out at the front, and at the back. */
    lemma LastFront()
      requires Valid() && tree.Some? && fronts != []
      ensures |fronts| + length <= |Keys()| == |Vals()|
      ensures var p := |fronts| - 1; fronts[p] == (Keys()[p], Vals()[p])
    {
      hide IntoIter.ValidTree, Store.Valid, Keys, Vals, Yielded, Pairs;
      NeverTwice();
      FrontEntry(Keys(), Vals(), fronts, length, backs);
    }

    lemma LastBack()
      requires Valid() && tree.Some? && backs != []
      ensures |fronts| + length < |Keys()| == |Vals()|
      ensures var p := |fronts| + length; backs[|backs| - 1] == (Keys()[p], Vals()[p])
    {
      hide IntoIter.ValidTree, Store.Valid, Keys, Vals, Yielded, Pairs;
      NeverTwice();
      BackEntry(Keys(), Vals(), fronts, length, backs);
    }

    /**
     * At any time a node of the tree is live exactly if the entries below it have not all been taken from the front,
     * and not all from the back.
     */
    lemma {:induction false} LiveExactly(n: Node)
      requires Valid() && tree.Some? && n in tree.value.places
      ensures |fronts| + length <= |Keys()|
      ensures var below := FlatKeys(cells, LeavesUnder(cells, n, tree.value.places[n].height));
              && below != []
              && (n in store.nodes <==>
                  && !(forall k :: k in below ==> k in Keys()[..|fronts|])
                  && !(forall k :: k in below ==> k in Keys()[|fronts| + length..]))
    {
      hide Arena, Heap, Wf, FlatKeys, FlatVals, Progress, Ended, Unstarted, LeavesUnder, Store.Valid;
      GoneIff(cells, tree.value, n, cursor.node, cursor.index, backCursor.node, backCursor.index, fronts, length, backs,
        x, y);
    }

    /**
     * An iterator that has yielded everything has deallocated every node of the tree exactly if it has been consumed
     * from one end. Otherwise the root, at least, stays.
     */
    lemma AllFreed()
      requires Valid() && tree.Some? && length == 0
      ensures (forall n :: n in tree.value.places ==> n in done && n !in store.nodes) <==> backs == [] || fronts == []
      ensures tree.value.root in done <==> backs == [] || fronts == []
      ensures tree.value.root in store.nodes <==> backs != [] && fronts != []
    {
      hide Arena, Wf, FlatKeys, FlatVals, Freed, Progress;
      AllEnded(cells, tree.value, store.nodes, done, cursor.node, cursor.index, backCursor.node, backCursor.index,
        fronts, backs, x, y);
    }
  }

  /** The last entry yielded at the front. */
  lemma {:induction false} FrontEntry(ks: seq<Key>, vs: seq<Value>, fronts: seq<Entry>, length: nat, backs: seq<Entry>)
    requires |ks| == |vs| && Yielded(Pairs(ks, vs), fronts, length, backs) && fronts != []
    ensures |fronts| + length <= |ks| && var p := |fronts| - 1; fronts[p] == (ks[p], vs[p])
  {
  }

  /** The last entry yielded at the back. */
  lemma {:induction false} BackEntry(ks: seq<Key>, vs: seq<Value>, fronts: seq<Entry>, length: nat, backs: seq<Entry>)
    requires |ks| == |vs| && Yielded(Pairs(ks, vs), fronts, length, backs) && backs != []
    ensures var p := |fronts| + length; p < |ks| && backs[|backs| - 1] == (ks[p], vs[p])
  {
    var l := |backs| - 1;
    RevLast(backs[..l], backs[l]);
    assert backs == backs[..l] + [backs[l]];
    assert Pairs(ks, vs)[|fronts| + length..][0] == Pairs(ks, vs)[|fronts| + length];
  }

  lemma {:induction false} AllEnded(H: Cells, t: Shape, S: set<Node>, done: seq<Node>, c: Node?, i: nat, d: Node?,
                                    j: nat,
                                    fronts: seq<Entry>, backs: seq<Entry>, x: Bound, y: Bound)
    requires Progress(H, t, c, i, d, j, fronts, 0, backs, x, y) &&
             Freed(H, t.places, S, done, Ended(t.places, x) + Unstarted(t.places, y))
    ensures (forall n :: n in t.places ==> n in done && n !in S) <==> backs == [] || fronts == []
    ensures t.root in done <==> backs == [] || fronts == []
    ensures t.root in S <==> backs != [] && fronts != []
  {
    RootAt(H, t, null);
    EndBounds(H, t, |fronts|, x, y);
    var gone := Ended(t.places, x) + Unstarted(t.places, y);
    hide FrontBound, BackBound, FlatKeys, FlatVals, Pairs;
    if backs == [] || fronts == [] {
      forall n | n in t.places
        ensures n in gone
      {
        ChildRange(H, t, n);
      }
    } else {
      assert t.root !in gone;
    }
    assert t.root in done <==> t.root in gone;
  }

  lemma {:induction false} FirstTurns(turns: seq<bool>, k: nat, n: nat)
    requires n <= |turns| && forall i :: 0 <= i < |turns| ==> (turns[i] <==> i < k)
    ensures FrontTurns(turns, n) == if n < k then n else k
  {
    if n > 0 {
      FirstTurns(turns, k, n - 1);
    }
  }

  /**
   * What a consumption has done so far to the tree `t` with the cells `H`: entries yielded at the ends, and nodes
   * deallocated.
   */
  ghost predicate Consumed(H: Cells, t: Shape, S: set<Node>, fronts: seq<Entry>, left: nat, backs: seq<Entry>,
                           done: seq<Node>) {
    && |FlatVals(H, t.leaves)| == |FlatKeys(H, t.leaves)|
    && Yielded(Pairs(FlatKeys(H, t.leaves), FlatVals(H, t.leaves)), fronts, left, backs)
    && Distinct(done) && ChildrenFirst(H, done) && (forall i :: 0 <= i < |done| ==>
       done[i] in t.places && done[i] !in S)
    && (left == 0 ==> ((forall n :: n in t.places ==> n in done && n !in S) <==> fronts == [] || backs == []))
    && (left == 0 ==> (t.root in S <==> fronts != [] && backs != []))
  }

  /**
   * Consumes a map from both ends, in any order of turns; `true` takes an entry from the front.
   * Once everything has been yielded, no node is left exactly if all was taken from one end.
   * A deallocated node is read exactly if the last entry is taken from the back and is the first one of a leaf, but
   * not of the first leaf.
   */
  method Consume(tree: BTreeMap, turns: seq<bool>)
    returns (fronts: seq<Entry>, backs: seq<Entry>, left: nat, ghost done: seq<Node>, ghost dead: bool)
    requires tree.Valid()
    modifies tree.store`nodes, tree.store`freed, tree.store.nodes, tree.store.buffers, tree.store.edgeBuffers
    ensures tree.store.Valid() && tree.store.freed == old(tree.store.freed) + done
    ensures left == (if |turns| < tree.length then tree.length - |turns| else 0) &&
            |fronts| + left + |backs| == tree.length
    ensures if old(tree.root) == null then fronts == backs == [] && done == []
            else Consumed(old(Heap(tree.places.Keys)), old(tree.Tree()), tree.store.nodes, fronts, left, backs, done)
    ensures (forall i :: 0 <= i < |turns| ==> turns[i]) ==> backs == []
    ensures (forall i :: 0 <= i < |turns| ==> !turns[i]) ==> fronts == []
    ensures |old(tree.Vals())| == |old(tree.Keys())| == tree.length
    ensures forall i :: 0 <= i < |fronts| ==> fronts[i] == (old(tree.Keys())[i], old(tree.Vals())[i])
    ensures forall i :: 0 <= i < |backs| ==>
              backs[i] == (old(tree.Keys())[tree.length - 1 - i], old(tree.Vals())[tree.length - 1 - i])
    ensures var taken := if |turns| < tree.length then |turns| else tree.length;
            |fronts| == |set i | 0 <= i < taken && turns[i]| == FrontTurns(turns, taken)
    ensures dead ==> left == 0 && fronts != [] && backs != [] && 0 < tree.height
    ensures dead <==> old(tree.root) != null && 0 < tree.length <= |turns| && !turns[tree.length - 1] &&
                      StartsLeaf(old(Heap(tree.places.Keys)), old(tree.Tree()), |fronts|)
  {
    hide IntoIter.Valid, Store.Valid, BTreeMap.Valid, Arena, Heap, Wf, FlatKeys, FlatVals, Consumed, StartsLeaf;
    tree.EntriesSorted();
    var it := new IntoIter(tree);
    fronts, backs := [], [];
    for k := 0 to |turns|
      invariant it.store == tree.store && it.store.nodes <= old(tree.store.nodes)
      invariant fresh(it.cursor) && fresh(it.backCursor)
      invariant Consuming(it, turns, k, tree.length, fronts, backs)
    {
      fronts, backs := ConsumeTurn(it, turns, k, tree.length, fronts, backs);
    }
    left, done, dead := it.length, it.done, it.dead;
    OneWayTurns(turns, if |turns| < tree.length then |turns| else tree.length);
    FrontTurnsCount(turns, if |turns| < tree.length then |turns| else tree.length);
    Summary(it);
  }

  /** Where a consumption of `total` entries is before turn `k`. */
  ghost predicate Consuming(it: IntoIter, turns: seq<bool>, k: nat, total: nat, fronts: seq<Entry>, backs: seq<Entry>)
    reads it, it.cursor, it.backCursor, it.store, it.store.nodes, it.store.buffers, it.store.edgeBuffers
  {
    var taken := if k < total then k else total;
    && it.Valid() && fronts == it.fronts && backs == it.backs && it.length == total - taken
    && taken <= |turns| && |fronts| == FrontTurns(turns, taken) && |fronts| + |backs| == taken
    && (it.dead <==> it.tree.Some? && 0 < total <= k && !turns[total - 1] &&
                     StartsLeaf(it.cells, it.tree.value, |fronts|))
  }

  method ConsumeTurn(it: IntoIter, turns: seq<bool>, k: nat, ghost total: nat, fronts: seq<Entry>, backs: seq<Entry>)
    returns (fronts1: seq<Entry>, backs1: seq<Entry>)
    requires k < |turns| && Consuming(it, turns, k, total, fronts, backs)
    modifies it`length, it`fronts, it`backs, it`x, it`y, it`done, it`dead, it.cursor, it.backCursor
    modifies it.store`nodes, it.store`freed, it.store.nodes, it.store.buffers, it.store.edgeBuffers
    ensures Consuming(it, turns, k + 1, total, fronts1, backs1) && it.store.nodes <= old(it.store.nodes)
    ensures it.cursor == old(it.cursor) && it.backCursor == old(it.backCursor)
  {
    hide IntoIter.Valid, Store.Valid, Arena, Heap, Wf, FlatKeys, FlatVals, StartsLeaf, IntoIter.Keys, IntoIter.Vals;
    if it.length == 1 {
      it.LastRead();
    }
    fronts1, backs1 := fronts, backs;
    if turns[k] {
      var r := it.Next();
      if r.Some? {
        fronts1 := fronts + [r.value];
      }
    } else {
      var r := it.NextBack();
      if r.Some? {
        backs1 := backs + [r.value];
      }
    }
  }

  /** What is known of an iterator at any time. */
  lemma {:induction false} Summary(it: IntoIter)
    requires it.Valid()
    ensures it.store.Valid() && it.store.freed == it.before + it.done
    ensures it.dead ==> it.length == 0 && it.fronts != [] && it.backs != []
    ensures match it.tree
            case None => it.fronts == it.backs == [] && it.done == []
            case Some(t) =>
              && Consumed(it.cells, t, it.store.nodes, it.fronts, it.length, it.backs, it.done)
              && (StartsLeaf(it.cells, t, |it.fronts|) ==> 0 < t.height)
              && |it.Keys()| == |it.Vals()| == |it.fronts| + it.length + |it.backs|
              && (forall i :: 0 <= i < |it.fronts| ==> it.fronts[i] == (it.Keys()[i], it.Vals()[i]))
              && (forall i :: 0 <= i < |it.backs| ==>
                   it.backs[i] == (it.Keys()[|it.Keys()| - 1 - i], it.Vals()[|it.Keys()| - 1 - i]))
  {
    hide IntoIter.ValidTree, Store.Valid, FlatKeys, FlatVals, Pairs, Yielded, StartsLeaf;
    if it.tree.Some? {
      it.TreeOk();
      it.NeverTwice();
      YieldedAt(it.Keys(), it.Vals(), it.fronts, it.length, it.backs);
      if StartsLeaf(it.cells, it.tree.value, |it.fronts|) {
        StartsTall(it.cells, it.tree.value, |it.fronts|);
      }
      if it.length == 0 {
        it.AllFreed();
      }
    }
  }

  /** A tree that is a single leaf has no other leaves. */
  lemma {:induction false} StartsTall(H: Cells, t: Shape, p: nat)
    requires Wf(H, t, null) && StartsLeaf(H, t, p)
    ensures 0 < t.height
  {
    if t.height == 0 {
      RootLeaf(H, t, null);
    }
  }

  lemma {:induction false} SecondStarts(H: Cells, t: Shape)
    requires Wf(H, t, null)
    ensures t.leaves != [] && t.leaves[0] in H && |H[t.leaves[0]].keys| <= Count(H, t)
    ensures 0 < t.height ==> |H[t.leaves[0]].keys| < Count(H, t) && StartsLeaf(H, t, |H[t.leaves[0]].keys|)
  {
    EndEntries(H, t);
    LastCount(H, t, 0, |H[t.leaves[0]].keys| - 1);
    if 0 < t.height {
      TwoLeaves(H, t);
      PositionNext(H, t.leaves, 0);
      LeafLinks(H, t, 1);
      LastCount(H, t, 1, 0);
    }
  }

  lemma {:induction false} FirstLen(tree: BTreeMap)
    requires tree.Valid()
    ensures tree.root == null ==> tree.height == 0
    ensures tree.root != null ==>
              && tree.leaves != [] && tree.leaves[0].len <= tree.length
              && (0 < tree.height ==>
                   && tree.leaves[0].len < tree.length
                   && StartsLeaf(Heap(tree.places.Keys), tree.Tree(), tree.leaves[0].len))
  {
    hide Arena, Heap, Wf, FlatKeys, FlatVals, Freed, Progress, StartsLeaf;
    if tree.root != null {
      ghost var S, t := tree.store.nodes, tree.Tree();
      TakenOver(S, t);
      SubArena(S, t.places.Keys);
      TreeAlone(S, t);
      SecondStarts(Heap(t.places.Keys), t);
      LeafAt(Heap(t.places.Keys), t, 0);
      t.leaves[0].Known(S);
    }
  }

  lemma {:induction false} TreeAlone(S: set<Node>, t: Shape)
    requires Arena(S) && Wf(Heap(S), t, null) && t.places.Keys <= S
    ensures Wf(Heap(t.places.Keys), t, null)
  {
    HeapKeys(S);
    SubArena(S, t.places.Keys);
    hide Arena, Heap, Wf, FlatKeys, FlatVals;
    Isolated(Heap(S), Heap(t.places.Keys), t, null);
  }

  /**
   * What is left after a run that takes the last entry from the back: if that entry is the first one of a leaf other
   * than the first leaf, the last turn has read the leaf before it, which was deallocated, and the root stays live.
   */
  ghost predicate MetBehindLeaf(H: Cells, t: Shape, S: set<Node>, turns: seq<bool>, fronts: seq<Entry>,
                                backs: seq<Entry>, done: seq<Node>) {
    && Consumed(H, t, S, fronts, 0, backs, done) && StartsLeaf(H, t, |fronts|) && t.root in S
    && |turns| == |fronts| + |backs| && fronts != [] && backs != [] && !turns[|turns| - 1]
    && |fronts| == FrontTurns(turns, |turns|)
  }

  /**
   * Consumes a map by taking all entries of its first leaf from the front and all others from the back.
   * This reads a deallocated leaf and leaves the root allocated exactly if the tree has more than one level.
   */
  method DeadRead(tree: BTreeMap)
    returns (turns: seq<bool>, fronts: seq<Entry>, backs: seq<Entry>, ghost done: seq<Node>)
    requires tree.Valid()
    modifies tree.store`nodes, tree.store`freed, tree.store.nodes, tree.store.buffers, tree.store.edgeBuffers
    ensures tree.store.Valid() && tree.store.freed == old(tree.store.freed) + done
    ensures |turns| == |fronts| + |backs| == tree.length
    ensures if old(tree.root) == null then tree.height == 0
            else 0 < tree.height <==>
                 MetBehindLeaf(old(Heap(tree.places.Keys)), old(tree.Tree()), tree.store.nodes, turns, fronts, backs,
                   done)
  {
    hide Store.Valid, BTreeMap.Valid, Arena, Heap, Wf, FlatKeys, FlatVals, Consumed, StartsLeaf;
    FirstLen(tree);
    var leaf := tree.FirstLeaf();
    var k := if leaf == null then 0 else leaf.len;
    turns := seq(tree.length, i => i < k);
    FirstTurns(turns, k, tree.length);
    var left;
    ghost var H, dead := Heap(tree.places.Keys), false;
    fronts, backs, left, done, dead := Consume(tree, turns);
    if 0 < tree.height {
      RootStays(H, tree.Tree(), tree.store.nodes, fronts, backs, done);
    }
  }

  lemma {:induction false} RootStays(H: Cells, t: Shape, S: set<Node>, fronts: seq<Entry>, backs: seq<Entry>,
                                     done: seq<Node>)
    requires Consumed(H, t, S, fronts, 0, backs, done) && fronts != [] && backs != []
    ensures t.root in S
  {
  }

  /** A tree with more than one level has more than one leaf. */
  lemma {:induction false} TwoLeaves(H: Cells, t: Shape)
    requires Wf(H, t, null) && 0 < t.height
    ensures 1 < |t.leaves|
  {
    RootAt(H, t, null);
    LocalAt(H, t, null, t.root);
    Child(H, t, null, t.root, 0);
    Child(H, t, null, t.root, 1);
    var a, b := LeavesAreRun(H, t, null, H[t.root].edges[0]);
    var c, d := LeavesAreRun(H, t, null, H[t.root].edges[1]);
    ChildRange(H, t, H[t.root].edges[0]);
  }

  /** The bounds reach the end of the map exactly when everything before or after them has been taken. */
  lemma {:induction false} EndBounds(H: Cells, t: Shape, p: nat, x: Bound, y: Bound)
    requires Wf(H, t, null)
    ensures FrontBound(H, t, p, x) ==> (x == PosInf <==> p == Count(H, t))
    ensures BackBound(H, t, p, y) ==> (y == NegInf <==> p == 0)
  {
    forall q: nat, i: nat, r: nat | q < |t.leaves| && AddressAt(H, t, t.leaves[q], i, q, r) && t.leaves[q] in t.places
      ensures r < Count(H, t) && t.places[t.leaves[q]].lo != PosInf && t.places[t.leaves[q]].hi != NegInf
    {
      LastCount(H, t, q, i);
      ChildRange(H, t, t.leaves[q]);
    }
  }

  // ---- which nodes are live ----

  /** The leaves below `n` are those from `a` to before `b`, and the entries those from `s` to before `e`. */
  ghost predicate Below(H: Cells, t: Shape, n: Node, a: nat, b: nat, s: nat, e: nat) {
    && a < b <= |t.leaves| && n in t.places && t.leaves[a] in t.places && t.leaves[b - 1] in t.places
    && t.places[t.leaves[a]].lo == t.places[n].lo && t.places[t.leaves[b - 1]].hi == t.places[n].hi
    && s == Position(H, t.leaves, a, 0)
    && t.leaves[b - 1] in H && e == Position(H, t.leaves, b - 1, 0) + |H[t.leaves[b - 1]].keys|
    && s < e <= Count(H, t)
  }

  lemma {:induction false} EntriesBelow(H: Cells, t: Shape, n: Node) returns (a: nat, b: nat, s: nat, e: nat)
    requires Wf(H, t, null) && n in t.places
    ensures Below(H, t, n, a, b, s, e)
    ensures FlatKeys(H, LeavesUnder(H, n, t.places[n].height)) == FlatKeys(H, t.leaves)[s..e]
  {
    a, b := LeavesAreRun(H, t, null, n);
    LeafLinks(H, t, b - 1);
    if a < b - 1 { PositionsGrow(H, t, a, b - 1); }
    hide Wf, LeavesUnder, FlatKeys;
    s, e := FlatRun(H, t.leaves, a, b);
  }

  /** The keys of a run of leaves are a run of all keys. */
  lemma {:induction false} FlatRun(H: Cells, ls: seq<Node>, a: nat, b: nat) returns (s: nat, e: nat)
    requires a < b <= |ls| && ls[b - 1] in H
    ensures s == Position(H, ls, a, 0) && e == Position(H, ls, b - 1, 0) + |H[ls[b - 1]].keys|
    ensures s <= e <= |FlatKeys(H, ls)| && FlatKeys(H, ls[a..b]) == FlatKeys(H, ls)[s..e]
  {
    assert FlatKeys(H, [ls[b - 1]]) == H[ls[b - 1]].keys + FlatKeys(H, []);
    assert ls == ls[..b] + ls[b..] && ls[..b] == ls[..b - 1] + [ls[b - 1]] == ls[..a] + ls[a..b];
    hide FlatKeys;
    FlatConcat(H, ls[..b], ls[b..]);
    FlatConcat(H, ls[..a], ls[a..b]);
    FlatConcat(H, ls[..b - 1], [ls[b - 1]]);
    s, e := |FlatKeys(H, ls[..a])|, |FlatKeys(H, ls[..b])|;
  }

  /** Of two leaves the one further left has its range and all its entries before those of the other. */
  lemma {:induction false} LeavesApart(H: Cells, t: Shape, i: nat, j: nat)
    requires Wf(H, t, null) && i < j < |t.leaves|
    ensures t.leaves[i] in t.places && t.leaves[j] in t.places && t.leaves[i] in H
    ensures LessEq(t.places[t.leaves[i]].hi, t.places[t.leaves[j]].lo)
    ensures Less(t.places[t.leaves[i]].lo, t.places[t.leaves[j]].lo)
    ensures Position(H, t.leaves, i, 0) + |H[t.leaves[i]].keys| <= Position(H, t.leaves, j, 0)
  {
    ChainOrder(H, t.places, t.leaves, i, j);
    PositionsGrow(H, t, i, j);
  }

  /** A node ends before the front bound exactly if all entries below it have been taken from the front. */
  lemma {:induction false} EndedIff(H: Cells, t: Shape, n: Node, a: nat, b: nat, s: nat, e: nat, p: nat, x: Bound)
    requires Wf(H, t, null) && Below(H, t, n, a, b, s, e) && FrontBound(H, t, p, x)
    ensures LessEq(t.places[n].hi, x) <==> e <= p
  {
    hide Wf;
    var A, ls, l := t.places, t.leaves, b - 1;
    ChildRange(H, t, n);
    ChildRange(H, t, ls[l]);
    if !(p == Count(H, t) && x == PosInf) {
      var q: nat, i: nat :| q < |ls| && AddressAt(H, t, ls[q], i, q, p) && ls[q] in A && x == A[ls[q]].lo;
      if l < q {
        LeavesApart(H, t, l, q);
      } else if q < l {
        LeavesApart(H, t, q, l);
      }
    }
  }

  /** A node starts after the back bound exactly if all entries below it have been taken from the back. */
  lemma {:induction false} UnstartedIff(H: Cells, t: Shape, n: Node, a: nat, b: nat, s: nat, e: nat, m: nat, y: Bound)
    requires Wf(H, t, null) && Below(H, t, n, a, b, s, e) && BackBound(H, t, m, y)
    ensures LessEq(y, t.places[n].lo) <==> m <= s
  {
    hide Wf;
    var A, ls := t.places, t.leaves;
    ChildRange(H, t, n);
    if m > 0 {
      var r: nat, i: nat :| r < |ls| && AddressAt(H, t, ls[r], i, r, m - 1) && ls[r] in A && y == A[ls[r]].hi;
      ChildRange(H, t, ls[r]);
      if r < a {
        LeavesApart(H, t, r, a);
      } else if a < r {
        LeavesApart(H, t, a, r);
      }
    }
  }

  /** Which part of sorted keys a run of them is in. */
  lemma RunIn(ks: seq<Key>, s: nat, e: nat, f: nat, m: nat)
    requires Increasing(ks) && s < e <= |ks| && f <= |ks| && m <= |ks|
    ensures (forall k :: k in ks[s..e] ==> k in ks[..f]) <==> e <= f
    ensures (forall k :: k in ks[s..e] ==> k in ks[m..]) <==> m <= s
  {
    assert ks[e - 1] in ks[s..e] && ks[s] in ks[s..e] by {
      assert ks[s..e][e - 1 - s] == ks[e - 1] && ks[s..e][0] == ks[s];
    }
    assert f < e ==> ks[e - 1] !in ks[..f];
    assert s < m ==> ks[s] !in ks[m..];
    if m <= s {
      forall k | k in ks[s..e]
        ensures k in ks[m..]
      {
        var i :| 0 <= i < e - s && ks[s..e][i] == k;
        assert ks[m..][s + i - m] == k;
      }
    }
    if e <= f {
      forall k | k in ks[s..e]
        ensures k in ks[..f]
      {
        var i :| 0 <= i < e - s && ks[s..e][i] == k;
        assert ks[..f][s + i] == k;
      }
    }
  }

  lemma {:induction false} GoneIff(H: Cells, t: Shape, n: Node, c: Node?, i: nat, d: Node?, j: nat,
                                   fronts: seq<Entry>, length: nat, backs: seq<Entry>, x: Bound, y: Bound)
    requires Progress(H, t, c, i, d, j, fronts, length, backs, x, y) && n in t.places
    ensures |fronts| + length <= Count(H, t)
    ensures var ks, below := FlatKeys(H, t.leaves), FlatKeys(H, LeavesUnder(H, n, t.places[n].height));
            && below != []
            && (n in Ended(t.places, x) + Unstarted(t.places, y) <==>
                (forall k :: k in below ==> k in ks[..|fronts|]) ||
                (forall k :: k in below ==> k in ks[|fronts| + length..]))
  {
    hide Wf, FlatKeys, FlatVals, LeavesUnder, FrontBound, BackBound, Address, Position, Pairs;
    var a, b, s, e := EntriesBelow(H, t, n);
    EndedIff(H, t, n, a, b, s, e, |fronts|, x);
    UnstartedIff(H, t, n, a, b, s, e, |fronts| + length, y);
    Sorted(H, t, null);
    RunIn(FlatKeys(H, t.leaves), s, e, |fronts|, |fronts| + length);
  }

  /** The entry at the front cursor, and what taking it changes. */
  lemma {:induction false} TakeFront(H: Cells, t: Shape, c: Node?, i: nat, d: Node?, j: nat,
                                     fronts: seq<Entry>, length: nat, backs: seq<Entry>, x: Bound, y: Bound)
    returns (q: nat)
    requires Progress(H, t, c, i, d, j, fronts, length, backs, x, y) && 0 < length
    ensures Wf(H, t, null) && c != null && c in H && i < |H[c].keys| == |H[c].vals| && H[c].edges == []
    ensures q < |t.leaves| && t.leaves[q] == c && c in t.places && t.places[c].height == 0 &&
            NextLast(t.places, t.leaves, q, c, y)
    ensures c !in Ended(t.places, x) + Unstarted(t.places, y) && x == t.places[c].lo
    ensures Progress(H, t, NextNode(H, c, i), NextIndex(H, c, i), d, j, fronts + [(H[c].keys[i], H[c].vals[i])],
            length - 1, backs,
                     EndAfter(H, t.places, c, i), y)
  {
    hide Wf, FlatKeys, FlatVals, FrontBound, BackBound, AddressAt;
    var p := |fronts|;
    q :| AddressAt(H, t, c, i, q, p);
    var r: nat :| AddressAt(H, t, d, j, r, p + length - 1);
    EntryThere(H, t, c, i, p);
    EntryThere(H, t, d, j, p + length - 1);
    FrontStep(H, t, c, i, q, p, x);
    AddressLeaf(H, t, c, i, q, p);
    EndsApart(H, t, c, i, q, p, x, d, j, r, p + length - 1, y);
    BetweenFront(H, t, c, i, d, j, p, length);
    YieldFront(Pairs(FlatKeys(H, t.leaves), FlatVals(H, t.leaves)), fronts, length, backs);
  }

  lemma AddressLeaf(H: Cells, t: Shape, c: Node?, i: nat, q: nat, p: nat)
    requires AddressAt(H, t, c, i, q, p)
    ensures q < |t.leaves| && t.leaves[q] == c
  {
  }

  /** The entry at the back cursor. */
  lemma {:induction false} BackReady(H: Cells, t: Shape, c: Node?, i: nat, d: Node?, j: nat,
                                     fronts: seq<Entry>, length: nat, backs: seq<Entry>, x: Bound, y: Bound)
    returns (r: nat)
    requires Progress(H, t, c, i, d, j, fronts, length, backs, x, y) && 0 < length
    ensures Wf(H, t, null) && d != null && d in H && j < |H[d].keys| == |H[d].vals| && H[d].edges == []
    ensures H[d].prev != null ==> H[d].prev in H && 0 < |H[H[d].prev].keys|
    ensures r < |t.leaves| && t.leaves[r] == d && d in t.places && t.places[d].height == 0 &&
            NextFirst(t.places, t.leaves, r, d, x)
    ensures d !in Ended(t.places, x) + Unstarted(t.places, y) && y == t.places[d].hi
    ensures BackBound(H, t, |fronts| + length - 1, StartBefore(t.places, d, j))
    ensures |fronts| + length <= |FlatKeys(H, t.leaves)|
    ensures (H[d].keys[j], H[d].vals[j]) == Pairs(FlatKeys(H, t.leaves), FlatVals(H, t.leaves))[|fronts| + length - 1]
  {
    hide Wf, FlatKeys, FlatVals, FrontBound, BackBound, AddressAt;
    var p := |fronts|;
    var q: nat :| AddressAt(H, t, c, i, q, p);
    r :| AddressAt(H, t, d, j, r, p + length - 1);
    EntryThere(H, t, c, i, p);
    EntryThere(H, t, d, j, p + length - 1);
    BackStep(H, t, d, j, r, p + length - 1, y);
    AddressLeaf(H, t, d, j, r, p + length - 1);
    LeafBefore(H, t, r);
    EndsApart(H, t, c, i, q, p, x, d, j, r, p + length - 1, y);
  }

  lemma LeafBefore(H: Cells, t: Shape, r: nat)
    requires Wf(H, t, null) && r < |t.leaves| && t.leaves[r] in H
    ensures var d := t.leaves[r]; H[d].prev != null ==> H[d].prev in H && 0 < |H[H[d].prev].keys|
  {
    LeafLinks(H, t, r);
    if r > 0 { LeafLinks(H, t, r - 1); }
  }

  /** The leaf before that of the back cursor is live exactly if the entry at the cursor is not the only one left. */
  lemma {:induction false} PrevLive(H: Cells, t: Shape, S: set<Node>, done: seq<Node>, c: Node?, i: nat, d: Node?,
                                    j: nat,
                                    fronts: seq<Entry>, length: nat, backs: seq<Entry>, x: Bound, y: Bound)
    requires Progress(H, t, c, i, d, j, fronts, length, backs, x, y) && 0 < length && j == 0 && d in H &&
             H[d].prev != null
    requires Freed(H, t.places, S, done, Ended(t.places, x) + Unstarted(t.places, y))
    ensures H[d].prev in S <==> 1 < length
    ensures length == 1 ==> fronts != []
  {
    PrevRange(H, t, c, i, d, j, fronts, length, backs, x, y);
    hide Progress;
  }

  lemma {:induction false} PrevRange(H: Cells, t: Shape, c: Node?, i: nat, d: Node?, j: nat,
                                     fronts: seq<Entry>, length: nat, backs: seq<Entry>, x: Bound, y: Bound)
    requires Progress(H, t, c, i, d, j, fronts, length, backs, x, y) && 0 < length && j == 0 && d in H &&
             H[d].prev != null
    ensures H[d].prev in t.places && !LessEq(y, t.places[H[d].prev].lo)
    ensures LessEq(t.places[H[d].prev].hi, x) <==> length == 1
    ensures length == 1 ==> fronts != []
  {
    hide FlatKeys, FlatVals, Yielded, Pairs, Position;
    var A, ls, p, m := t.places, t.leaves, |fronts|, |fronts| + length - 1;
    var q: nat :| AddressAt(H, t, c, i, q, p);
    var r: nat :| AddressAt(H, t, d, j, r, m);
    FrontStep(H, t, c, i, q, p, x);
    BackStep(H, t, d, j, r, m, y);
    PrevAddress(H, t, d, j, r, m);
    LeafLinks(H, t, r);
    ChainRangesMeet(H, t, r - 1);
    hide FrontBound, BackBound, Wf;
    if length == 1 {
      AddressUnique(H, t, c, i, q, d, j, r, m);
    } else {
      NotAfter(H, t, c, i, q, p, ls[r - 1], |H[ls[r - 1]].keys| - 1, r - 1, m - 1);
    }
  }

  /** The entry number `p` is the first one of a leaf other than the first leaf. */
  ghost predicate StartsLeaf(H: Cells, t: Shape, p: nat) {
    exists q: nat :: 0 < q < |t.leaves| && Position(H, t.leaves, q, 0) == p
  }

  lemma {:induction false} LastStarts(H: Cells, t: Shape, c: Node?, i: nat, d: Node?, j: nat,
                                      fronts: seq<Entry>, backs: seq<Entry>, x: Bound, y: Bound)
    requires Progress(H, t, c, i, d, j, fronts, 1, backs, x, y) && d in H
    ensures j == 0 && H[d].prev != null <==> StartsLeaf(H, t, |fronts|)
  {
    var p := |fronts|;
    var r: nat :| AddressAt(H, t, d, j, r, p);
    LeafLinks(H, t, r);
    hide FlatKeys, FlatVals, Yielded, Pairs, FrontBound, BackBound, Wf;
    if q: nat :| 0 < q < |t.leaves| && Position(H, t.leaves, q, 0) == p {
      LeafLinks(H, t, q);
      assert AddressAt(H, t, t.leaves[q], 0, q, p);
      AddressUnique(H, t, d, j, r, t.leaves[q], 0, q, p);
    }
  }

  /** Neighbours in the chain have ranges that meet. */
  lemma ChainRangesMeet(H: Cells, t: Shape, q: nat)
    requires Wf(H, t, null) && q + 1 < |t.leaves|
    ensures t.leaves[q] in t.places && t.leaves[q + 1] in t.places
    ensures var A, a, b := t.places, t.leaves[q], t.leaves[q + 1];
            A[a].hi == A[b].lo && Less(A[a].lo, A[a].hi) && Less(A[b].lo, A[b].hi)
  {
    assert LinkAt(H, t.places, t.leaves, q) && LinkAt(H, t.places, t.leaves, q + 1);
    ChildRange(H, t, t.leaves[q]);
    ChildRange(H, t, t.leaves[q + 1]);
  }

  /** What taking the entry at the back cursor changes, the cursor's new index being `k`. */
  lemma {:induction false} TakeBack(H: Cells, t: Shape, c: Node?, i: nat, d: Node, j: nat,
                                    fronts: seq<Entry>, length: nat, backs: seq<Entry>, x: Bound, y: Bound, k: nat)
    requires Progress(H, t, c, i, d, j, fronts, length, backs, x, y) && 0 < length
    requires d in H && var n := PrevNode(H, d, j); if j > 0 then k + 1 == j
             else 1 < length && n != null ==> n in H && k + 1 == |H[n].keys|
    ensures j < |H[d].keys| == |H[d].vals| && d in t.places
    ensures Progress(H, t, c, i, PrevNode(H, d, j), k, fronts, length - 1, backs + [(H[d].keys[j], H[d].vals[j])],
                     x, StartBefore(t.places, d, j))
  {
    hide Wf, FlatKeys, FlatVals, FrontBound, BackBound, Address, PrevNode, Yielded, Between, NextFirst, Ended,
         Unstarted;
    var r := BackReady(H, t, c, i, d, j, fronts, length, backs, x, y);
    BetweenBack(H, t, c, i, d, j, |fronts|, length, k);
    YieldBack(Pairs(FlatKeys(H, t.leaves), FlatVals(H, t.leaves)), fronts, length, backs);
  }

  /** The tree by itself, before anything is consumed. */
  lemma {:induction false} TakenOver(S: set<Node>, t: Shape)
    requires Arena(S) && Wf(Heap(S), t, null)
    ensures t.places.Keys <= S && Arena(t.places.Keys)
    ensures var H := Heap(t.places.Keys);
            && H.Keys == t.places.Keys
            && FlatKeys(H, t.leaves) == FlatKeys(Heap(S), t.leaves) &&
               FlatVals(H, t.leaves) == FlatVals(Heap(S), t.leaves)
            && Freed(H, t.places, S, [], Ended(t.places, NegInf) + Unstarted(t.places, PosInf)) && Agree(H, Heap(S))
    ensures t.leaves != [] && var H, l := Heap(t.places.Keys), t.leaves[|t.leaves| - 1];
            l in H && l in S && H[l] == l.cell && 0 < |l.cell.keys| &&
              Progress(H, t, t.leaves[0], 0, l, |l.cell.keys| - 1, [], Count(H, t), [], NegInf, PosInf)
  {
    RootAt(Heap(S), t, null);
    HeapKeys(S);
    SubArena(S, t.places.Keys);
    hide Arena, Heap, Wf, FlatKeys, FlatVals, Progress, Freed, Ended, Unstarted, Agree;
    var H := Heap(t.places.Keys);
    Isolated(Heap(S), H, t, null);
    StartBounds(H, t);
    StartProgress(H, t);
    FreedNone(H, t.places, S);
  }

  lemma SubArena(S: set<Node>, T: set<Node>)
    requires Arena(S) && T <= S
    ensures Arena(T) && Heap(T).Keys == T && Agree(Heap(T), Heap(S)) && forall n {:trigger n in T} :: n in T ==>
            n in Heap(S) && Heap(T)[n] == Heap(S)[n] == n.cell
  {
  }

  lemma FreedNone(H: Cells, A: Places, S: set<Node>)
    requires A.Keys <= S
    ensures Freed(H, A, S, [], {})
  {
  }

  lemma {:induction false} StartProgress(H: Cells, t: Shape)
    requires Wf(H, t, null)
    ensures t.leaves != [] && var l := t.leaves[|t.leaves| - 1];
            l in H && 0 < |H[l].keys| && Progress(H, t, t.leaves[0], 0, l, |H[l].keys| - 1, [], Count(H, t), [], NegInf,
              PosInf)
  {
    Sorted(H, t, null);
    StartBounds(H, t);
    EndAddresses(H, t);
    hide Wf, FlatKeys, FlatVals, FrontBound, BackBound, Address;
  }
}
