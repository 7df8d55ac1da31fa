/**
 * Why each step of an insertion that overflows a node leaves a B+ tree, but for one node that its parent does not
 * know yet.
 */
module Insertion {
  import opened Seqs
  import opened Nodes
  import opened Trees
  import opened Contents
  import opened Entries
  import opened Removal

  // ---- a node has been split, and the right part is not an edge yet ----

  ghost predicate PendingRoot(H: Cells, t: Shape, left: Node, right: Node) {
    && t.root in t.places && t.places.Keys <= H.Keys && left in t.places && right in t.places && right != t.root
    && H[t.root].parent == null && t.places[t.root].height == t.height && t.places[t.root].lo == NegInf
    && t.places[if left == t.root then right else t.root].hi == PosInf
    && (H[left].parent == null ==> left == t.root)
  }

  ghost predicate PendingPair(H: Cells, A: Places, left: Node, key: Key, right: Node) {
    && left in A && left in H && right in A && right in H && left != right
    && A[left].height == A[right].height && A[left].hi == At(key) == A[right].lo
    && H[right].parent == null && M / 2 <= |H[left].keys|
  }

  /** With the key and the edge to `right` the parent of `left` would be right. */
  ghost predicate PendingParent(H: Cells, A: Places, left: Node, key: Key, right: Node, p: Node) {
    && left in H && p in H && p in A && H[left].parent == p
    && H[left].parentIdx <= |H[p].keys| && |H[p].edges| == |H[p].keys| + 1 && H[p].edges[H[left].parentIdx] == left
    && H[p].vals == [] && LinksOk(H, p)
    && InnerOk(A, A[p], Ins(H[p].keys, H[left].parentIdx, key), Ins(H[p].edges, H[left].parentIdx + 1, right))
  }

  /**
   * The nodes of `t` form a B+ tree, but for the node `right`: its parent, which is that of `left`, still lacks `key`
   * and the edge to it.
   */
  ghost predicate Pending(H: Cells, t: Shape, left: Node, key: Key, right: Node) {
    && PendingRoot(H, t, left, right)
    && PendingPair(H, t.places, left, key, right)
    && (H[left].parent != null ==> PendingParent(H, t.places, left, key, right, H[left].parent))
    && AllLocal(H, t.places, Opt(H[left].parent))
    && AllUp(H, t.places, {t.root, right})
    && AllFill(H, t.places, t.root, null)
    && ChainOk(H, t.places, t.leaves)
  }

  /** The places after `n` has been split at `k`, with the upper part going to `r`. */
  ghost function SplitPlaces(A: Places, n: Node, k: Key, r: Node): Places
    requires n in A
  {
    A[n := A[n].(hi := At(k))][r := Place(A[n].height, At(k), A[n].hi)]
  }

  /** An edge of an internal node may be split, if the node gets the key and the new edge. */
  lemma InnerSplitEdge(A: Places, a: Place, ks: seq<Key>, es: seq<Node?>, i: nat, k: Key, r: Node)
    requires InnerOk(A, a, ks, es) && Distinct(es) && i < |es| && es[i] != null && es[i] in A && r !in A
    requires Less(A[es[i]].lo, At(k)) && Less(At(k), A[es[i]].hi)
    ensures InnerOk(SplitPlaces(A, es[i], k, r), a, Ins(ks, i, k), Ins(es, i + 1, r))
  {
    var A1, ks1, es1 := SplitPlaces(A, es[i], k, r), Ins(ks, i, k), Ins(es, i + 1, r);
    assert ChildOk(A, a, ks, es, i);
    forall j | 0 <= j < |es1|
      ensures ChildOk(A1, a, ks1, es1, j)
    {
      if j != i + 1 {
        assert ChildOk(A, a, ks, es, if j <= i then j else j - 1);
      }
    }
  }

  /** An internal node may be split at any of its keys. */
  lemma InnerSplit(A: Places, A1: Places, a: Place, ks: seq<Key>, es: seq<Node?>, m: nat)
    requires InnerOk(A, a, ks, es) && m < |ks|
    requires forall i :: 0 <= i < |es| && es[i] in A ==> es[i] in A1 && A1[es[i]] == A[es[i]]
    ensures InnerOk(A1, a.(hi := At(ks[m])), ks[..m], es[..m + 1])
    ensures InnerOk(A1, a.(lo := At(ks[m])), ks[m + 1..], es[m + 1..])
  {
    var b, ls, fs := a.(hi := At(ks[m])), ks[..m], es[..m + 1];
    forall j | 0 <= j < |fs|
      ensures ChildOk(A1, b, ls, fs, j)
    {
      assert ChildOk(A, a, ks, es, j);
    }
    var c, ms, gs := a.(lo := At(ks[m])), ks[m + 1..], es[m + 1..];
    forall j | 0 <= j < |gs|
      ensures ChildOk(A1, c, ms, gs, j)
    {
      assert ChildOk(A, a, ks, es, m + 1 + j);
    }
  }

  // ---- the first split ----

  /**
   * The heap after the full leaf `n` has been split into `n` and `r`, with the entry inserted, and the chain goes
   * through both.
   */
  ghost function LeafSplit(H: Cells, n: Node, i: nat, key: Key, val: Value, r: Node): Cells
    requires n in H && i <= |H[n].keys| == |H[n].vals| && |H[n].keys| == M && (H[n].next != null ==> H[n].next in H)
  {
    var ks, vs, nx := Ins(H[n].keys, i, key), Ins(H[n].vals, i, val), H[n].next;
    var H1 := H[n := H[n].(keys := ks[..M / 2], vals := vs[..M / 2], next := r)]
               [r := Cell(null, 0, ks[M / 2..], vs[M / 2..], n, nx, [])];
    if nx == null then H1 else H1[nx := H1[nx].(prev := r)]
  }

  /** The same, cell by cell. */
  ghost predicate LeafSplitCells(H: Cells, H1: Cells, n: Node, ks: seq<Key>, vs: seq<Value>, r: Node)
    requires n in H && M / 2 <= |ks| && M / 2 <= |vs|
  {
    && H1.Keys == H.Keys + {r}
    && H1[n] == H[n].(keys := ks[..M / 2], vals := vs[..M / 2], next := r)
    && H1[r] == Cell(null, 0, ks[M / 2..], vs[M / 2..], n, H[n].next, [])
    && forall x {:trigger H1[x]} :: x in H && x != n ==> H1[x] == H[x].(prev := if x == H[n].next then r else H[x].prev)
  }

  lemma LeafSplitByCell(H: Cells, n: Node, i: nat, key: Key, val: Value, r: Node)
    requires n in H && i <= |H[n].keys| == |H[n].vals| && |H[n].keys| == M && r !in H
    requires H[n].next != null ==> H[n].next in H && H[n].next != n
    ensures LeafSplitCells(H, LeafSplit(H, n, i, key, val, r), n, Ins(H[n].keys, i, key), Ins(H[n].vals, i, val), r)
  {
    hide Ins;
  }

  /** A full leaf that covers the key, which belongs at `i`. */
  ghost predicate CanSplitLeaf(H: Cells, t: Shape, q: nat, n: Node, i: nat, key: Key) {
    && Wf(H, t, null) && q < |t.leaves| && t.leaves[q] == n && n in H && Covers(t.places, n, key) &&
       t.places[n].height == 0
    && |H[n].keys| == |H[n].vals| == M && Splits(H[n].keys, i, key)
    && (H[n].next != null ==> H[n].next in H && H[n].next in t.places && H[n].next != n)
  }

  ghost function LeafSplitShape(t: Shape, q: nat, n: Node, k: Key, r: Node): Shape
    requires q < |t.leaves| && n in t.places
  {
    t.(places := SplitPlaces(t.places, n, k, r), leaves := Ins(t.leaves, q + 1, r))
  }

  /** Both parts of a leaf with one entry too many fit their places. */
  lemma LeafParts(c: Cell, a: Place, i: nat, key: Key, val: Value, d: Cell, e: Cell)
    requires LeafOk(c, a) && Splits(c.keys, i, key) && |c.keys| == M && Below(a.lo, key) && Less(At(key), a.hi)
    requires var ks, vs := Ins(c.keys, i, key), Ins(c.vals, i, val);
             && d.keys == ks[..M / 2] && d.vals == vs[..M / 2] && d.edges == []
             && e.keys == ks[M / 2..] && e.vals == vs[M / 2..] && e.edges == []
    ensures var k := Ins(c.keys, i, key)[M / 2];
            LeafOk(d, a.(hi := At(k))) && LeafOk(e, a.(lo := At(k))) && Less(a.lo, At(k)) && Less(At(k), a.hi)
  {
    IncreasingIns(c.keys, i, key);
    var ks := Ins(c.keys, i, key);
    forall j | 0 <= j < |ks|
      ensures Below(a.lo, ks[j]) && Less(At(ks[j]), a.hi)
    {
      assert ks[j] == if j < i then c.keys[j] else if j == i then key else c.keys[j - 1];
    }
    hide Ins;
    assert ks[0] < ks[M / 2];
  }

  lemma LeafSplitLink(H: Cells, H1: Cells, A: Places, ls: seq<Node>, q: nat, n: Node, k: Key, r: Node, j: nat,
                      ks: seq<Key>, vs: seq<Value>)
    requires ChainOk(H, A, ls) && Distinct(ls) && q < |ls| && ls[q] == n && n in H && n in A && r !in A && r !in H &&
             j <= |ls|
    requires M / 2 <= |ks| && M / 2 <= |vs| && LeafSplitCells(H, H1, n, ks, vs, r)
    ensures LinkAt(H1, SplitPlaces(A, n, k, r), Ins(ls, q + 1, r), j)
  {
    assert LinkAt(H, A, ls, q);
    if j != q + 1 {
      var j0 := if j <= q then j else j - 1;
      assert LinkAt(H, A, ls, j0);
      if j0 > 0 { assert LinkAt(H, A, ls, j0 - 1); }
    }
  }

  lemma LeafSplitChain(H: Cells, H1: Cells, t: Shape, q: nat, n: Node, k: Key, r: Node, ks: seq<Key>, vs: seq<Value>)
    requires Wf(H, t, null) && q < |t.leaves| && t.leaves[q] == n && n in H && n in t.places && r !in H &&
             r !in t.places
    requires M / 2 <= |ks| && M / 2 <= |vs| && LeafSplitCells(H, H1, n, ks, vs, r)
    ensures var t1 := LeafSplitShape(t, q, n, k, r); ChainOk(H1, t1.places, t1.leaves)
  {
    hide LeafSplitCells, AllUp, AllFill;
    var ls, A, t1 := t.leaves, t.places, LeafSplitShape(t, q, n, k, r);
    ChainDistinct(H, A, ls);
    var A1, ls1 := t1.places, t1.leaves;
    forall j | 0 <= j < |ls1|
      ensures LinkAt(H1, A1, ls1, j)
    {
      LeafSplitLink(H, H1, A, ls, q, n, k, r, j, ks, vs);
    }
    forall x | x in A1 && A1[x].height == 0
      ensures x in ls1
    {
      if x == r {
        assert ls1[q + 1] == r;
      } else {
        assert LinkAt(H, A, ls, q);
        var j :| 0 <= j < |ls| && ls[j] == x;
        assert ls1[if j <= q then j else j + 1] == x;
      }
    }
  }

  /** The parent of a split leaf would be right with the new key and edge. */
  lemma LeafSplitParent(H: Cells, H1: Cells, t: Shape, n: Node, k: Key, r: Node, ks: seq<Key>, vs: seq<Value>)
    requires Wf(H, t, null) && n in t.places && n in H && t.places[n].height == 0 && r !in H && n != t.root
    requires Less(t.places[n].lo, At(k)) && Less(At(k), t.places[n].hi)
    requires M / 2 <= |ks| && M / 2 <= |vs| && LeafSplitCells(H, H1, n, ks, vs, r)
    ensures n in H1 && H1[n].parent != null && PendingParent(H1, SplitPlaces(t.places, n, k, r), n, k, r, H1[n].parent)
  {
    var A := t.places;
    Parent(H, t, null, n);
    var p, i := H[n].parent, H[n].parentIdx;
    KidsBelow(H, A, p);
    assert r !in A;
    hide Wf;
    InnerSplitEdge(A, A[p], H[p].keys, H[p].edges, i, k, r);
  }

  lemma LeafSplitChanges(H: Cells, H1: Cells, t: Shape, n: Node, k: Key, r: Node, ks: seq<Key>, vs: seq<Value>)
    requires Wf(H, t, null) && n in t.places && n in H && t.places[n].height == 0 && r !in H
    requires M / 2 <= |ks| && M / 2 <= |vs| && LeafSplitCells(H, H1, n, ks, vs, r)
    requires LocalOk(H1, SplitPlaces(t.places, n, k, r), n) && LocalOk(H1, SplitPlaces(t.places, n, k, r), r)
    ensures AllLocal(H1, SplitPlaces(t.places, n, k, r), Opt(H[n].parent))
    ensures AllUp(H1, SplitPlaces(t.places, n, k, r), {t.root, r})
  {
    hide LocalOk, AllFill, ChainOk;
    var A, A1 := t.places, SplitPlaces(t.places, n, k, r);
    LocalsFrame(H, A, H1, A1, {n} + Opt(H[n].parent), {});
    forall x | x in A1 && x !in {t.root, r}
      ensures UpOk(H1, A1, x)
    {
      assert UpOk(H, A, x);
      UpFrame(H, A, H1, A1, x);
    }
  }

  /** After the split of a leaf only the new leaf is pending. */
  lemma LeafSplitOk(H: Cells, H1: Cells, t: Shape, q: nat, n: Node, i: nat, key: Key, val: Value, r: Node)
    requires CanSplitLeaf(H, t, q, n, i, key) && r !in H
    requires LeafSplitCells(H, H1, n, Ins(H[n].keys, i, key), Ins(H[n].vals, i, val), r)
    ensures var k := Ins(H[n].keys, i, key)[M / 2]; Pending(H1, LeafSplitShape(t, q, n, k, r), n, k, r)
  {
    var ks, vs, A := Ins(H[n].keys, i, key), Ins(H[n].vals, i, val), t.places;
    var k := ks[M / 2];
    var A1 := SplitPlaces(A, n, k, r);
    LocalAt(H, t, null, n);
    RootAt(H, t, null);
    LeafParts(H[n], A[n], i, key, val, H1[n], H1[r]);
    assert |ks| == |vs| == M + 1;
    hide Wf, Ins, LeafOk;
    assert LocalOk(H1, A1, n) && LocalOk(H1, A1, r);
    LeafSplitChanges(H, H1, t, n, k, r, ks, vs);
    LeafSplitChain(H, H1, t, q, n, k, r, ks, vs);
    LeafSplitFill(H, H1, t, n, k, r, ks, vs);
    if n != t.root {
      LeafSplitParent(H, H1, t, n, k, r, ks, vs);
    }
    hide LocalOk, AllLocal, AllUp, AllFill, ChainOk, PendingParent, PendingRoot, PendingPair;
    LeafSplitNew(H, H1, t, q, n, k, r, ks, vs);
  }

  lemma LeafSplitNew(H: Cells, H1: Cells, t: Shape, q: nat, n: Node, k: Key, r: Node, ks: seq<Key>, vs: seq<Value>)
    requires Wf(H, t, null) && q < |t.leaves| && n in t.places && n in H && t.places[n].height == 0 && r !in H
    requires |ks| == |vs| == M + 1 && LeafSplitCells(H, H1, n, ks, vs, r)
    ensures PendingRoot(H1, LeafSplitShape(t, q, n, k, r), n, r) &&
            PendingPair(H1, SplitPlaces(t.places, n, k, r), n, k, r)
  {
    RootAt(H, t, null);
    HeightBound(H, t, null, n);
    AboveRoot(H, t, null, n);
    hide Wf;
  }

  lemma LeafSplitFill(H: Cells, H1: Cells, t: Shape, n: Node, k: Key, r: Node, ks: seq<Key>, vs: seq<Value>)
    requires Wf(H, t, null) && n in t.places && n in H && r !in H && |ks| == |vs| == M + 1 &&
             LeafSplitCells(H, H1, n, ks, vs, r)
    ensures AllFill(H1, SplitPlaces(t.places, n, k, r), t.root, null)
  {
    hide AllLocal, AllUp, ChainOk;
    forall x | x in SplitPlaces(t.places, n, k, r)
      ensures FillOk(H1, t.root, null, x)
    {
      if x != r { assert FillOk(H, t.root, null, x); }
    }
  }

  /** The tree with the split leaf has the new entry. */
  lemma {:induction false} LeafSplitEntries(H: Cells, H1: Cells, t: Shape, q: nat, n: Node, i: nat, key: Key,
                                            val: Value, r: Node)
    requires CanSplitLeaf(H, t, q, n, i, key) && r !in H
    requires LeafSplitCells(H, H1, n, Ins(H[n].keys, i, key), Ins(H[n].vals, i, val), r)
    ensures var k := Ins(H[n].keys, i, key)[M / 2];
            Inserted(H, t, H1, LeafSplitShape(t, q, n, k, r), Position(H, t.leaves, q, i), key, val)
  {
    var ls, ks, vs := t.leaves, Ins(H[n].keys, i, key), Ins(H[n].vals, i, val);
    hide AllUp, AllFill, Increasing, LeafSplitCells;
    RootAt(H, t, null);
    Sorted(H, t, null);
    FlatSplit(H, ls, q);
    assert LinkAt(H, t.places, ls, q);
    FlatLengths(H, t.places, ls, ls[..q]);
    assert SplitPlaces(t.places, n, ks[M / 2], r).Keys == t.places.Keys + {r};
    LeafSplitFrame(H, H1, t, q, n, ks, vs, r);
    hide Wf, FlatKeys, FlatVals;
    FlatInsPair(H1, ls, q, r);
    hide Ins;
    InsMiddle(FlatKeys(H, ls[..q]), H[n].keys, FlatKeys(H, ls[q + 1..]), i, key);
    InsMiddle(FlatVals(H, ls[..q]), H[n].vals, FlatVals(H, ls[q + 1..]), i, val);
  }

  lemma {:induction false} FlatInsPair(H: Cells, ls: seq<Node>, q: nat, r: Node)
    requires q < |ls| && ls[q] in H && r in H
    ensures FlatKeys(H, Ins(ls, q + 1, r)) == FlatKeys(H, ls[..q]) + (H[ls[q]].keys + H[r].keys) + FlatKeys(H,
            ls[q + 1..])
    ensures FlatVals(H, Ins(ls, q + 1, r)) == FlatVals(H, ls[..q]) + (H[ls[q]].vals + H[r].vals) + FlatVals(H,
            ls[q + 1..])
  {
    var ls1 := Ins(ls, q + 1, r);
    assert ls1[q] == ls[q] && ls1[q + 1] == r && ls1[..q] == ls[..q] && ls1[q + 2..] == ls[q + 1..];
    FlatSplitTwo(H, ls1, q);
  }

  lemma {:induction false} LeafSplitFrame(H: Cells, H1: Cells, t: Shape, q: nat, n: Node, ks: seq<Key>, vs: seq<Value>,
                                          r: Node)
    requires Wf(H, t, null) && q < |t.leaves| && t.leaves[q] == n && n in H && r !in H && r !in t.places &&
             n in t.places
    requires t.places[n].height == 0 && M / 2 <= |ks| && M / 2 <= |vs| && LeafSplitCells(H, H1, n, ks, vs, r)
    ensures n in H1 && r in H1 && H1[n].keys + H1[r].keys == ks && H1[n].vals + H1[r].vals == vs
    ensures FlatKeys(H1, t.leaves[..q]) == FlatKeys(H, t.leaves[..q]) &&
            FlatVals(H1, t.leaves[..q]) == FlatVals(H, t.leaves[..q])
    ensures FlatKeys(H1, t.leaves[q + 1..]) == FlatKeys(H, t.leaves[q + 1..]) &&
            FlatVals(H1, t.leaves[q + 1..]) == FlatVals(H, t.leaves[q + 1..])
    ensures H1 - (t.places.Keys + {r}) == H - t.places.Keys
  {
    hide AllUp, AllFill, LocalOk, FlatKeys, FlatVals;
    var ls := t.leaves;
    ChainDistinct(H, t.places, ls);
    forall j | 0 <= j < |ls| && j != q
      ensures EntriesSame(H, H1, ls[j])
    {
      assert LinkAt(H, t.places, ls, j);
    }
    FlatFrame(H, H1, ls[..q]);
    FlatFrame(H, H1, ls[q + 1..]);
    assert LinkAt(H, t.places, ls, q);
    if q + 1 < |ls| { assert LinkAt(H, t.places, ls, q + 1); }
  }

  // ---- the parent has room ----

  /** The edges of the parent of a pending node. */
  lemma PendingKids(H: Cells, A: Places, left: Node, key: Key, right: Node, p: Node)
    requires PendingPair(H, A, left, key, right) && PendingParent(H, A, left, key, right, p)
    ensures right != p && left != p && Distinct(H[p].edges) && right !in H[p].edges && A[p].height == A[left].height + 1
    ensures forall j {:trigger H[p].edges[j]} :: 0 <= j < |H[p].edges| ==>
              && H[p].edges[j] in H && H[p].edges[j] in A && A[H[p].edges[j]].height + 1 == A[p].height &&
                 H[p].edges[j] != p
              && H[H[p].edges[j]].parent == p && H[H[p].edges[j]].parentIdx == j
  {
    var i := H[left].parentIdx;
    var ks, es := Ins(H[p].keys, i, key), Ins(H[p].edges, i + 1, right);
    forall j | 0 <= j < |H[p].edges|
      ensures H[p].edges[j] in A && A[H[p].edges[j]].height + 1 == A[p].height
    {
      var j1 := if j <= i then j else j + 1;
      assert es[j1] == H[p].edges[j] && ChildOk(A, A[p], ks, es, j1);
    }
    assert es[i + 1] == right && ChildOk(A, A[p], ks, es, i + 1);
  }

  /** `right` has become an edge of the parent. */
  ghost predicate AttachSteps(H: Cells, H1: Cells, left: Node, key: Key, right: Node, p: Node) {
    && left in H && right in H && p in H && H[left].parentIdx <= |H[p].keys| && |H[p].edges| == |H[p].keys| + 1
    && var i, c := H[left].parentIdx, H[p];
       Bumped(H[right := H[right].(parent := p, parentIdx := i + 1)]
               [p := c.(keys := Ins(c.keys, i, key), edges := Ins(c.edges, i + 1, right))],
              H1, c.edges[i + 1..], 1)
  }

  ghost predicate AttachCells(H: Cells, H1: Cells, left: Node, key: Key, right: Node, p: Node)
    requires left in H && right in H && p in H && H[left].parentIdx <= |H[p].keys| && |H[p].edges| == |H[p].keys| + 1
  {
    var i, c := H[left].parentIdx, H[p];
    && H1.Keys == H.Keys
    && H1[p] == c.(keys := Ins(c.keys, i, key), edges := Ins(c.edges, i + 1, right))
    && H1[right] == H[right].(parent := p, parentIdx := i + 1)
    && (forall j {:trigger c.edges[j]} :: 0 <= j < |c.edges| ==>
          c.edges[j] in H && H1[c.edges[j]] == H[c.edges[j]].(parentIdx := if j <= i then j else j + 1))
    && (forall n {:trigger H1[n]} :: n in H && n != p && n != right ==>
          H1[n] == H[n].(parentIdx := H1[n].parentIdx) && (n !in c.edges ==> H1[n] == H[n]))
  }

  lemma AttachByCell(H: Cells, H1: Cells, A: Places, left: Node, key: Key, right: Node, p: Node)
    requires PendingPair(H, A, left, key, right) && PendingParent(H, A, left, key, right, p)
    requires AttachSteps(H, H1, left, key, right, p)
    ensures AttachCells(H, H1, left, key, right, p)
  {
    hide PendingPair, PendingParent, Ins, Distinct;
    PendingKids(H, A, left, key, right, p);
    var i, c := H[left].parentIdx, H[p];
    var es, d, e := c.edges[i + 1..], c.(keys := Ins(c.keys, i, key), edges := Ins(c.edges, i + 1, right)),
        H[right].(parent := p, parentIdx := i + 1);
    TailMembers(c.edges, i + 1, es);
    BumpedTail(H, H[right := e][p := d], H1, p, right, i, es);
  }

  lemma BumpedTail(H: Cells, G: Cells, H1: Cells, p: Node, right: Node, i: nat, es: seq<Node?>)
    requires p in H && right in H && p in G && right in G && right != p && G == H[right := G[right]][p := G[p]] &&
             Bumped(G, H1, es, 1)
    requires p !in H[p].edges && right !in H[p].edges
    requires forall j {:trigger H[p].edges[j]} :: 0 <= j < |H[p].edges| ==>
               H[p].edges[j] in H && H[H[p].edges[j]].parentIdx == j && (H[p].edges[j] in es <==> i + 1 <= j)
    requires forall x {:trigger x in es} :: x in es ==> x in H[p].edges
    ensures H1.Keys == H.Keys && H1[p] == G[p] && H1[right] == G[right]
    ensures forall j {:trigger H[p].edges[j]} :: 0 <= j < |H[p].edges| ==>
              H1[H[p].edges[j]] == H[H[p].edges[j]].(parentIdx := if j <= i then j else j + 1)
    ensures forall n {:trigger H1[n]} :: n in H && n != p && n != right ==>
              H1[n] == H[n].(parentIdx := H1[n].parentIdx) && (n !in H[p].edges ==> H1[n] == H[n])
  {
  }

  lemma AttachParent(H: Cells, H1: Cells, A: Places, left: Node, key: Key, right: Node, p: Node)
    requires PendingPair(H, A, left, key, right) && PendingParent(H, A, left, key, right, p) &&
             AttachCells(H, H1, left, key, right, p)
    ensures LocalOk(H1, A, p)
  {
    PendingKids(H, A, left, key, right, p);
    var i, c := H[left].parentIdx, H[p];
    hide InnerOk;
    forall j | 0 <= j < |H1[p].edges|
      ensures H1[p].edges[j] in H1 && H1[H1[p].edges[j]].parent == p && H1[H1[p].edges[j]].parentIdx == j
    {
      if j <= i {
        assert H1[p].edges[j] == c.edges[j];
      } else if j > i + 1 {
        assert H1[p].edges[j] == c.edges[j - 1];
      }
    }
    assert InnerOk(A, A[p], H1[p].keys, H1[p].edges);
  }

  lemma AttachOk(H: Cells, H1: Cells, t: Shape, left: Node, key: Key, right: Node, p: Node)
    requires Pending(H, t, left, key, right) && H[left].parent == p && |H[p].keys| < M
    requires AttachSteps(H, H1, left, key, right, p)
    ensures Wf(H1, t, null) && Kept(H, t, H1, t)
  {
    var A := t.places;
    AttachByCell(H, H1, A, left, key, right, p);
    AttachParent(H, H1, A, left, key, right, p);
    PendingKids(H, A, left, key, right, p);
    hide AttachSteps, PendingParent, PendingPair, PendingRoot;
    AttachChanges(H, H1, t, left, key, right, p);
    AttachRest(H, H1, t, left, key, right, p);
  }

  lemma AttachChanges(H: Cells, H1: Cells, t: Shape, left: Node, key: Key, right: Node, p: Node)
    requires Pending(H, t, left, key, right) && H[left].parent == p
    requires AttachCells(H, H1, left, key, right, p) && LocalOk(H1, t.places, p)
    ensures AllLocal(H1, t.places, {}) && AllUp(H1, t.places, {t.root})
  {
    AttachUps(H, H1, t, left, key, right, p);
    PendingKids(H, t.places, left, key, right, p);
    hide LocalOk, PendingParent, AllFill, ChainOk, AllUp;
    LocalsFrame(H, t.places, H1, t.places, {p}, {p});
  }

  lemma AttachUps(H: Cells, H1: Cells, t: Shape, left: Node, key: Key, right: Node, p: Node)
    requires Pending(H, t, left, key, right) && H[left].parent == p
    requires AttachCells(H, H1, left, key, right, p) && LocalOk(H1, t.places, p)
    ensures AllUp(H1, t.places, {t.root})
  {
    var A := t.places;
    PendingKids(H, A, left, key, right, p);
    hide LocalOk, PendingParent, AllFill, ChainOk;
    forall n | n in A && n != t.root
      ensures UpOk(H1, A, n)
    {
      if n == right {
        assert H1[p].edges[H[left].parentIdx + 1] == n;
      } else {
        assert UpOk(H, A, n);
        if H[n].parent == p {
          AttachEdgeUp(H, H1, A, left, key, right, p, n);
        } else {
          UpFrame(H, A, H1, A, n);
        }
      }
    }
  }

  /** The other edges of the parent are found again, behind the new one if they are to its right. */
  lemma AttachEdgeUp(H: Cells, H1: Cells, A: Places, left: Node, key: Key, right: Node, p: Node, n: Node)
    requires left in H && right in H && p in H && p in A && H[left].parentIdx <= |H[p].keys| &&
             |H[p].edges| == |H[p].keys| + 1 && p != right
    requires AttachCells(H, H1, left, key, right, p) && UpOk(H, A, n) && H[n].parent == p && n != right && n != p
    ensures UpOk(H1, A, n)
  {
    var i, j := H[left].parentIdx, H[n].parentIdx;
    assert H[p].edges[j] == n;
    assert H1[p].edges[if j <= i then j else j + 1] == n;
  }

  lemma AttachRest(H: Cells, H1: Cells, t: Shape, left: Node, key: Key, right: Node, p: Node)
    requires Pending(H, t, left, key, right) && H[left].parent == p && |H[p].keys| < M
    requires AttachCells(H, H1, left, key, right, p)
    ensures RootOk(H1, t) && AllFill(H1, t.places, t.root, null) && ChainOk(H1, t.places, t.leaves) && Kept(H, t, H1, t)
  {
    PendingKids(H, t.places, left, key, right, p);
    hide LocalOk, PendingParent, AllLocal, AllUp;
    var A, ls := t.places, t.leaves;
    forall n | n in A
      ensures FillOk(H1, t.root, null, n)
    {
      assert FillOk(H, t.root, null, n);
    }
    hide FillOk, AllFill, Ins;
    ChainFrame(H, A, H1, A, ls);
    forall i | 0 <= i < |ls|
      ensures EntriesSame(H, H1, ls[i])
    {
      assert LinkAt(H, A, ls, i);
    }
    FlatFrame(H, H1, ls);
    assert H1 - A.Keys == H - A.Keys;
  }

  // ---- there is no parent ----

  /** The heap with a new root `r` over `left` and `right`. */
  ghost function GrowRoot(H: Cells, left: Node, key: Key, right: Node, r: Node): Cells
    requires left in H && right in H
  {
    H[left := H[left].(parent := r, parentIdx := 0)]
     [right := H[right].(parent := r, parentIdx := 1)]
     [r := Cell(null, 0, [key], [], null, null, [left, right])]
  }

  ghost function GrowShape(t: Shape, r: Node): Shape {
    Shape(r, t.height + 1, t.places[r := Place(t.height + 1, NegInf, PosInf)], t.leaves)
  }

  lemma GrowLocals(H: Cells, t: Shape, left: Node, key: Key, right: Node, r: Node)
    requires Pending(H, t, left, key, right) && H[left].parent == null && r !in H
    ensures var H1, A1 := GrowRoot(H, left, key, right, r), GrowShape(t, r).places;
            LocalOk(H1, A1, r) && AllLocal(H1, A1, {})
  {
    hide AllUp, AllFill, ChainOk, LinksOk;
    var A, H1, A1 := t.places, GrowRoot(H, left, key, right, r), GrowShape(t, r).places;
    LocalsFrame(H, A, H1, A1, {}, {});
    assert LocalOk(H, A, left) && LocalOk(H, A, right);
    GrowAtRoot(H, t, left, key, right, r);
  }

  lemma GrowAtRoot(H: Cells, t: Shape, left: Node, key: Key, right: Node, r: Node)
    requires PendingRoot(H, t, left, right) && PendingPair(H, t.places, left, key, right) && H[left].parent == null &&
             r !in H
    ensures LocalOk(GrowRoot(H, left, key, right, r), GrowShape(t, r).places, r)
  {
    var H1, A1 := GrowRoot(H, left, key, right, r), GrowShape(t, r).places;
    var ks, es := [key], [left, right];
    assert ChildOk(A1, A1[r], ks, es, 0) && ChildOk(A1, A1[r], ks, es, 1);
    assert H1[r].keys == ks && H1[r].edges == es;
  }

  lemma GrowOk(H: Cells, t: Shape, left: Node, key: Key, right: Node, r: Node)
    requires Pending(H, t, left, key, right) && H[left].parent == null && r !in H
    ensures Wf(GrowRoot(H, left, key, right, r), GrowShape(t, r), null)
    ensures Kept(H, t, GrowRoot(H, left, key, right, r), GrowShape(t, r))
  {
    GrowLocals(H, t, left, key, right, r);
    GrowUps(H, t, left, key, right, r);
    GrowFill(H, t, left, key, right, r);
    GrowChain(H, t, left, key, right, r);
    GrowKept(H, t, left, key, right, r);
    hide AllLocal, AllUp, AllFill, ChainOk, LocalOk;
  }

  lemma GrowUps(H: Cells, t: Shape, left: Node, key: Key, right: Node, r: Node)
    requires Pending(H, t, left, key, right) && H[left].parent == null && r !in H
    ensures AllUp(GrowRoot(H, left, key, right, r), GrowShape(t, r).places, {r})
  {
    hide AllLocal, AllFill, ChainOk;
    var A, H1, A1 := t.places, GrowRoot(H, left, key, right, r), GrowShape(t, r).places;
    forall n | n in A1 && n != r
      ensures UpOk(H1, A1, n)
    {
      if n == left {
        assert H1[r].edges[0] == n;
      } else if n == right {
        assert H1[r].edges[1] == n;
      } else {
        assert UpOk(H, A, n);
        UpFrame(H, A, H1, A1, n);
      }
    }
  }

  lemma GrowFill(H: Cells, t: Shape, left: Node, key: Key, right: Node, r: Node)
    requires Pending(H, t, left, key, right) && H[left].parent == null && r !in H
    ensures AllFill(GrowRoot(H, left, key, right, r), GrowShape(t, r).places, r, null)
  {
    hide AllLocal, AllUp, ChainOk;
    forall n | n in GrowShape(t, r).places
      ensures FillOk(GrowRoot(H, left, key, right, r), r, null, n)
    {
      if n != r { assert FillOk(H, t.root, null, n); }
    }
  }

  lemma GrowChain(H: Cells, t: Shape, left: Node, key: Key, right: Node, r: Node)
    requires Pending(H, t, left, key, right) && H[left].parent == null && r !in H
    ensures ChainOk(GrowRoot(H, left, key, right, r), GrowShape(t, r).places, t.leaves)
  {
    hide AllLocal, AllUp, AllFill, PendingParent;
    ChainFrame(H, t.places, GrowRoot(H, left, key, right, r), GrowShape(t, r).places, t.leaves);
  }

  lemma {:induction false} GrowKept(H: Cells, t: Shape, left: Node, key: Key, right: Node, r: Node)
    requires Pending(H, t, left, key, right) && H[left].parent == null && r !in H
    ensures Kept(H, t, GrowRoot(H, left, key, right, r), GrowShape(t, r))
  {
    hide AllLocal, AllUp, AllFill, PendingParent;
    var A, H1, A1 := t.places, GrowRoot(H, left, key, right, r), GrowShape(t, r).places;
    forall i | 0 <= i < |t.leaves|
      ensures EntriesSame(H, H1, t.leaves[i])
    {
      assert LinkAt(H, A, t.leaves, i);
    }
    FlatFrame(H, H1, t.leaves);
    GrowOthers(H, t, left, key, right, r);
  }

  lemma GrowOthers(H: Cells, t: Shape, left: Node, key: Key, right: Node, r: Node)
    requires left in t.places && right in t.places && left in H && right in H && r !in H
    ensures GrowRoot(H, left, key, right, r) - GrowShape(t, r).places.Keys == H - t.places.Keys
  {
    var A, H1, A1 := t.places, GrowRoot(H, left, key, right, r), GrowShape(t, r).places;
    assert A1.Keys == A.Keys + {r};
    assert H1 - A1.Keys == H - A.Keys;
  }

  // ---- the parent is full ----

  /** `right` has been told its parent `p`, which has been split into `p` and `r`, with the pending edge among `es`. */
  ghost predicate SplitSteps(H: Cells, H1: Cells, H3: Cells, right: Node, i: nat, p: Node, r: Node, ks: seq<Key>,
                             es: seq<Node?>)
    requires right in H && p in H && |ks| == M + 1 && |es| == M + 2
  {
    && Renumbered(H[right := H[right].(parent := p, parentIdx := i + 1)][p := H[p].(keys := ks[..M / 2],
       edges := es[..M / 2 + 1])], H1, es, M / 2)
    && Adopted(H1[r := Cell(null, 0, ks[M / 2 + 1..], [], null, null, es[M / 2 + 1..])], H3, es[M / 2 + 1..], r)
  }

  ghost predicate SplitCells(H: Cells, H3: Cells, p: Node, r: Node, ks: seq<Key>, es: seq<Node?>)
    requires p in H && |ks| == M + 1 && |es| == M + 2
  {
    && H3.Keys == H.Keys + {r}
    && H3[p] == H[p].(keys := ks[..M / 2], edges := es[..M / 2 + 1])
    && H3[r] == Cell(null, 0, ks[M / 2 + 1..], [], null, null, es[M / 2 + 1..])
    && (forall j {:trigger es[j]} :: 0 <= j < |es| ==>
          && es[j] in H
          && H3[es[j]] == H[es[j]].(parent := if j <= M / 2 then p else r, parentIdx := if j <= M / 2 then j
             else j - M / 2 - 1))
    && (forall n {:trigger H3[n]} :: n in H && n != p ==>
          && H3[n] == H[n].(parent := H3[n].parent, parentIdx := H3[n].parentIdx)
          && (n !in es ==> H3[n] == H[n]))
  }

  /** What is known of the edges `es` that `p` would have with the pending one. */
  ghost predicate Fresh(H: Cells, p: Node, right: Node, r: Node, es: seq<Node?>) {
    && Distinct(es) && p !in es && r !in H && r !in es && right in es && right in H && p in H && right != p
    && forall j {:trigger es[j]} :: 0 <= j < |es| ==> es[j] in H && (es[j] == right || H[es[j]].parent == p)
  }

  /** After the renumbering: every edge has its index, and `p` as its parent. */
  ghost predicate SplitHalfway(H: Cells, H1: Cells, p: Node, es: seq<Node?>)
    requires p in H
  {
    && H1.Keys == H.Keys
    && (forall j {:trigger es[j]} :: 0 <= j < |es| ==>
          es[j] in H && H1[es[j]] == H[es[j]].(parent := p, parentIdx := if j <= M / 2 then j else j - M / 2 - 1))
    && (forall n {:trigger H1[n]} :: n in H && n != p ==>
          && H1[n] == H[n].(parent := H1[n].parent, parentIdx := H1[n].parentIdx)
          && (n !in es ==> H1[n] == H[n]))
  }

  lemma SplitRenumbered(H: Cells, G: Cells, H1: Cells, right: Node, p: Node, r: Node, es: seq<Node?>)
    requires |es| == M + 2 && Fresh(H, p, right, r, es) && p in G && right in G && G == H[right := G[right]][p := G[p]]
    requires G[right] == H[right].(parent := p, parentIdx := G[right].parentIdx)
    requires Renumbered(G, H1, es, M / 2)
    ensures SplitHalfway(H, H1, p, es) && H1[p] == G[p]
  {
    NumberedHalves(H1, es);
    hide Distinct, NumberedIn;
    forall j | 0 <= j < |es|
      ensures G[es[j]] == H[es[j]].(parent := p, parentIdx := G[es[j]].parentIdx)
    {
      assert es[j] != p;
    }
  }

  lemma NumberedHalves(H1: Cells, es: seq<Node?>)
    requires |es| == M + 2 && NumberedIn(H1, es[..M / 2 + 1], 0) && NumberedIn(H1, es[M / 2 + 1..], 0)
    ensures forall j {:trigger es[j]} :: 0 <= j < |es| ==>
              es[j] in H1 && H1[es[j]].parentIdx == if j <= M / 2 then j else j - M / 2 - 1
  {
    var lo, hi := es[..M / 2 + 1], es[M / 2 + 1..];
    forall j | 0 <= j < |es|
      ensures es[j] in H1 && H1[es[j]].parentIdx == if j <= M / 2 then j else j - M / 2 - 1
    {
      if j <= M / 2 { assert lo[j] == es[j]; } else { assert hi[j - M / 2 - 1] == es[j]; }
    }
  }

  lemma SplitAdopted(H: Cells, H1: Cells, c: Cell, H3: Cells, p: Node, r: Node, ks: seq<Key>, es: seq<Node?>,
                     hi: seq<Node?>)
    requires |ks| == M + 1 && |es| == M + 2 && p in H && p !in es && r !in H && r !in es && hi == es[M / 2 + 1..]
    requires forall j {:trigger es[j]} :: 0 <= j < |es| ==> (es[j] in hi <==> M / 2 + 1 <= j)
    requires forall x {:trigger x in hi} :: x in hi ==> x in es
    requires SplitHalfway(H, H1, p, es) && H1[p] == H[p].(keys := ks[..M / 2], edges := es[..M / 2 + 1])
    requires c == Cell(null, 0, ks[M / 2 + 1..], [], null, null, hi) && Adopted(H1[r := c], H3, hi, r)
    ensures SplitCells(H, H3, p, r, ks, es)
  {
  }

  lemma SplitByCell(H: Cells, H1: Cells, H3: Cells, right: Node, i: nat, p: Node, r: Node, ks: seq<Key>, es: seq<Node?>)
    requires |ks| == M + 1 && |es| == M + 2 && Fresh(H, p, right, r, es) &&
             SplitSteps(H, H1, H3, right, i, p, r, ks, es)
    ensures SplitCells(H, H3, p, r, ks, es)
  {
    hide SplitHalfway, SplitCells, Renumbered, Adopted;
    var hi := es[M / 2 + 1..];
    TailMembers(es, M / 2 + 1, hi);
    SplitRenumbered(H, H[right := H[right].(parent := p, parentIdx := i + 1)][p := H[p].(keys := ks[..M / 2],
      edges := es[..M / 2 + 1])],
                    H1, right, p, r, es);
    SplitAdopted(H, H1, Cell(null, 0, ks[M / 2 + 1..], [], null, null, hi), H3, p, r, ks, es, hi);
  }

  /** `p`, the full parent of `left`, with the pending key and edge has the keys `ks` and the edges `es`. */
  ghost predicate Overflows(H: Cells, t: Shape, left: Node, key: Key, right: Node, p: Node, ks: seq<Key>,
                            es: seq<Node?>) {
    && Pending(H, t, left, key, right) && H[left].parent == p && |H[p].keys| == M
    && ks == Ins(H[p].keys, H[left].parentIdx, key) && es == Ins(H[p].edges, H[left].parentIdx + 1, right)
    && |ks| == M + 1 && |es| == M + 2
  }

  lemma OverflowsHolds(H: Cells, t: Shape, left: Node, key: Key, right: Node, p: Node, ks: seq<Key>, es: seq<Node?>)
    requires Pending(H, t, left, key, right) && H[left].parent == p && |H[p].keys| == M
    requires ks == Ins(H[p].keys, H[left].parentIdx, key) && es == Ins(H[p].edges, H[left].parentIdx + 1, right)
    ensures Overflows(H, t, left, key, right, p, ks, es)
  {
  }

  lemma OverflowsEdges(H: Cells, t: Shape, left: Node, key: Key, right: Node, p: Node, r: Node, ks: seq<Key>,
                       es: seq<Node?>)
    requires Overflows(H, t, left, key, right, p, ks, es) && r !in H
    ensures Fresh(H, p, right, r, es) && p in t.places && InnerOk(t.places, t.places[p], ks, es) && p != right &&
            r !in t.places
    ensures forall j {:trigger es[j]} :: 0 <= j < |es| ==>
              es[j] in t.places && t.places[es[j]].height + 1 == t.places[p].height
    ensures forall j {:trigger H[p].edges[j]} :: 0 <= j < |H[p].edges| ==> H[p].edges[j] != p
  {
    var A, i := t.places, H[left].parentIdx;
    PendingKids(H, A, left, key, right, p);
    hide AllLocal, AllUp, AllFill, ChainOk, LinksOk;
    DistinctIns(H[p].edges, i + 1, right);
    forall j | 0 <= j < |es|
      ensures es[j] in A && A[es[j]].height + 1 == A[p].height && es[j] in H && (es[j] == right || H[es[j]].parent == p)
    {
      assert ChildOk(A, A[p], ks, es, j);
      assert j != i + 1 ==> es[j] == H[p].edges[if j <= i then j else j - 1];
    }
    assert es[i + 1] == right;
  }

  lemma SplitLinks(H: Cells, H3: Cells, p: Node, right: Node, r: Node, ks: seq<Key>, es: seq<Node?>)
    requires |ks| == M + 1 && |es| == M + 2 && Fresh(H, p, right, r, es) && SplitCells(H, H3, p, r, ks, es)
    ensures LinksOk(H3, p) && LinksOk(H3, r)
  {
    hide Distinct;
    var lo, hi := es[..M / 2 + 1], es[M / 2 + 1..];
    forall j | 0 <= j < |lo|
      ensures lo[j] in H3 && H3[lo[j]].parent == p && H3[lo[j]].parentIdx == j
    {
      assert lo[j] == es[j];
    }
    forall j | 0 <= j < |hi|
      ensures hi[j] in H3 && H3[hi[j]].parent == r && H3[hi[j]].parentIdx == j
    {
      assert hi[j] == es[M / 2 + 1 + j];
    }
  }

  lemma SplitLocals(H: Cells, H3: Cells, A: Places, p: Node, right: Node, r: Node, ks: seq<Key>, es: seq<Node?>)
    requires p in A && p in H && |ks| == M + 1 && |es| == M + 2 && Fresh(H, p, right, r, es) &&
             InnerOk(A, A[p], ks, es) && H[p].vals == [] && r !in A
    requires forall j {:trigger es[j]} :: 0 <= j < |es| ==> es[j] in A && A[es[j]].height + 1 == A[p].height
    requires SplitCells(H, H3, p, r, ks, es)
    ensures LocalOk(H3, SplitPlaces(A, p, ks[M / 2], r), p) && LocalOk(H3, SplitPlaces(A, p, ks[M / 2], r), r)
    ensures Less(A[p].lo, At(ks[M / 2])) && Less(At(ks[M / 2]), A[p].hi)
  {
    SplitLinks(H, H3, p, right, r, ks, es);
    hide LinksOk, Distinct;
    InnerSplit(A, SplitPlaces(A, p, ks[M / 2], r), A[p], ks, es, M / 2);
  }

  /** The parent of `p` is none of the nodes that change, and its edges but for `p` are not either. */
  lemma GrandparentApart(H: Cells, t: Shape, left: Node, key: Key, right: Node, p: Node, r: Node, ks: seq<Key>,
                         es: seq<Node?>)
    requires Overflows(H, t, left, key, right, p, ks, es) && r !in H
    ensures p in H && p in t.places && p !in es && r !in t.places && (H[p].parent == null <==> p == t.root)
    ensures H[p].parent != null ==>
              var pp, i := H[p].parent, H[p].parentIdx;
              && pp in H && pp in t.places && pp != p && pp !in es
              && InnerOk(t.places, t.places[pp], H[pp].keys, H[pp].edges) && LinksOk(H, pp) && H[pp].vals == []
              && Distinct(H[pp].edges) && i < |H[pp].edges| && H[pp].edges[i] == p
              && forall j {:trigger H[pp].edges[j]} :: 0 <= j < |H[pp].edges| ==> H[pp].edges[j] !in es
  {
    OverflowsEdges(H, t, left, key, right, p, r, ks, es);
    if p != t.root {
      assert UpOk(H, t.places, p);
      hide AllFill, ChainOk, AllUp, PendingPair, PendingParent, Ins;
      GrandparentAt(H, t, p, H[p].parent);
      KidsBelow(H, t.places, H[p].parent);
      hide InnerOk;
    }
  }

  lemma GrandparentPending(H: Cells, H3: Cells, A1: Places, p: Node, r: Node, ks: seq<Key>, es: seq<Node?>, pp: Node)
    requires p in H && pp in H && pp in A1 && pp != p && H[p].parent == pp && pp !in es && p !in es && |ks| == M + 1 &&
             |es| == M + 2
    requires SplitCells(H, H3, p, r, ks, es) && LinksOk(H, pp) && H[pp].vals == [] && |H[pp].edges| == |H[pp].keys| + 1
    requires H[p].parentIdx < |H[pp].edges| && H[pp].edges[H[p].parentIdx] == p
    requires forall j {:trigger H[pp].edges[j]} :: 0 <= j < |H[pp].edges| ==> H[pp].edges[j] !in es
    requires InnerOk(A1, A1[pp], Ins(H[pp].keys, H[p].parentIdx, ks[M / 2]), Ins(H[pp].edges, H[p].parentIdx + 1, r))
    ensures PendingParent(H3, A1, p, ks[M / 2], r, pp) && H3[p].parent == pp
  {
    hide InnerOk, Ins;
  }

  lemma SplitGrandparent(H: Cells, H3: Cells, t: Shape, left: Node, key: Key, right: Node, p: Node, r: Node,
                         ks: seq<Key>, es: seq<Node?>)
    requires Overflows(H, t, left, key, right, p, ks, es) && r !in H && SplitCells(H, H3, p, r, ks, es)
    requires Less(t.places[p].lo, At(ks[M / 2])) && Less(At(ks[M / 2]), t.places[p].hi)
    ensures H3[p].parent == H[p].parent && (H[p].parent == null <==> p == t.root)
    ensures H[p].parent != null ==> H[p].parent in t.places && H[p].parent != p && H[p].parent !in es
    ensures H[p].parent != null ==> PendingParent(H3, SplitPlaces(t.places, p, ks[M / 2], r), p, ks[M / 2], r,
            H[p].parent)
  {
    hide Overflows, Pending, AllLocal, AllUp, AllFill, ChainOk, Ins, InnerOk, LinksOk, Fresh, PendingParent, SplitCells;
    GrandparentApart(H, t, left, key, right, p, r, ks, es);
    OverflowsSizes(H, t, left, key, right, p, ks, es);
    SplitHead(H, H3, p, r, ks, es);
    if p != t.root {
      var A, pp, i := t.places, H[p].parent, H[p].parentIdx;
      GrandparentInner(A, A[pp], H[pp].keys, H[pp].edges, i, ks[M / 2], r);
      GrandparentPending(H, H3, SplitPlaces(A, p, ks[M / 2], r), p, r, ks, es, pp);
    }
  }

  lemma SplitHead(H: Cells, H3: Cells, p: Node, r: Node, ks: seq<Key>, es: seq<Node?>)
    requires p in H && |ks| == M + 1 && |es| == M + 2 && SplitCells(H, H3, p, r, ks, es)
    ensures H3.Keys == H.Keys + {r} && H3[p].parent == H[p].parent
  {
  }

  lemma OverflowsSizes(H: Cells, t: Shape, left: Node, key: Key, right: Node, p: Node, ks: seq<Key>, es: seq<Node?>)
    requires Overflows(H, t, left, key, right, p, ks, es)
    ensures |ks| == M + 1 && |es| == M + 2
  {
  }

  lemma GrandparentInner(A: Places, a: Place, ks: seq<Key>, es: seq<Node?>, i: nat, k: Key, r: Node)
    requires InnerOk(A, a, ks, es) && Distinct(es) && i < |es| && es[i] != null && es[i] in A && r !in A
    requires Less(A[es[i]].lo, At(k)) && Less(At(k), A[es[i]].hi)
    ensures |es| == |ks| + 1 && InnerOk(SplitPlaces(A, es[i], k, r), a, Ins(ks, i, k), Ins(es, i + 1, r))
    ensures SplitPlaces(A, es[i], k, r)[es[i]].hi == At(k)
  {
    InnerSplitEdge(A, a, ks, es, i, k, r);
  }

  lemma GrandparentAt(H: Cells, t: Shape, p: Node, pp: Node)
    requires p in H && pp in H && p in t.places && pp in t.places && AllLocal(H, t.places, {p}) &&
             UpOk(H, t.places, p) && H[p].parent == pp
    requires forall j {:trigger H[p].edges[j]} :: 0 <= j < |H[p].edges| ==> H[p].edges[j] != p
    ensures pp != p && LocalOk(H, t.places, pp) && t.places[pp].height == t.places[p].height + 1
    ensures Distinct(H[pp].edges)
  {
    assert pp != p;
    assert LocalOk(H, t.places, pp);
    KidsBelow(H, t.places, pp);
  }

  lemma SplitChanges(H: Cells, H3: Cells, t: Shape, left: Node, key: Key, right: Node, p: Node, r: Node, ks: seq<Key>,
                     es: seq<Node?>)
    requires Overflows(H, t, left, key, right, p, ks, es) && r !in H && SplitCells(H, H3, p, r, ks, es)
    requires LocalOk(H3, SplitPlaces(t.places, p, ks[M / 2], r), p) &&
             LocalOk(H3, SplitPlaces(t.places, p, ks[M / 2], r), r)
    ensures AllLocal(H3, SplitPlaces(t.places, p, ks[M / 2], r), Opt(H[p].parent))
  {
    OverflowsEdges(H, t, left, key, right, p, r, ks, es);
    hide LocalOk, AllUp, AllFill, ChainOk, PendingParent, InnerOk, Distinct;
    var A, A1 := t.places, SplitPlaces(t.places, p, ks[M / 2], r);
    SplitSeen(H, H3, A, p, right, r, ks, es);
    hide SplitCells, Ins, Fresh, PendingPair;
    LocalsFrame(H, A, H3, A1, {p} + Opt(H[p].parent), {p});
  }

  /** A split changes no bodies but that of `p`, and only `p` and its parent see a difference below them. */
  lemma SplitSeen(H: Cells, H3: Cells, A: Places, p: Node, right: Node, r: Node, ks: seq<Key>, es: seq<Node?>)
    requires |ks| == M + 1 && |es| == M + 2 && p in A && r !in A && A.Keys <= H.Keys
    requires Fresh(H, p, right, r, es) && SplitCells(H, H3, p, r, ks, es) && H[right].parent == null
    ensures forall n {:trigger BodySame(H, H3, n)} :: n in A && n != p ==> BodySame(H, H3, n)
    ensures var A1 := SplitPlaces(A, p, ks[M / 2], r);
            forall n {:trigger SeenSame(H, A, H3, A1, n)} ::
              n in A && n in H && H[n].parent != p && n != p && H[n].parent != null ==> SeenSame(H, A, H3, A1, n)
  {
    var A1 := SplitPlaces(A, p, ks[M / 2], r);
    forall n | n in A && n in H && H[n].parent != p && n != p && H[n].parent != null
      ensures SeenSame(H, A, H3, A1, n)
    {
      assert n !in es;
    }
  }

  lemma SplitUps(H: Cells, H3: Cells, t: Shape, left: Node, key: Key, right: Node, p: Node, r: Node, ks: seq<Key>,
                 es: seq<Node?>)
    requires Overflows(H, t, left, key, right, p, ks, es) && r !in H && SplitCells(H, H3, p, r, ks, es)
    requires H[p].parent != null ==> H[p].parent != p && H[p].parent !in es
    ensures AllUp(H3, SplitPlaces(t.places, p, ks[M / 2], r), {t.root, r})
  {
    OverflowsEdges(H, t, left, key, right, p, r, ks, es);
    hide LocalOk, AllLocal, AllFill, ChainOk, InnerOk, Distinct, Ins;
    var A, A1 := t.places, SplitPlaces(t.places, p, ks[M / 2], r);
    forall n | n in A1 && n !in {t.root, r}
      ensures UpOk(H3, A1, n)
    {
      if n in es {
        var j :| 0 <= j < |es| && es[j] == n;
        SplitUpAt(H, H3, A1, p, r, ks, es, j);
      } else {
        assert UpOk(H, A, n);
        if H[n].parent == p {
          SplitEdge(H, t, left, key, right, p, ks, es, n);
          assert false;
        }
        UpFrame(H, A, H3, A1, n);
      }
    }
  }

  lemma SplitUpAt(H: Cells, H3: Cells, A1: Places, p: Node, r: Node, ks: seq<Key>, es: seq<Node?>, j: nat)
    requires p in H && |ks| == M + 1 && |es| == M + 2 && SplitCells(H, H3, p, r, ks, es) && j < |es| && p in A1 &&
             r in A1
    ensures es[j] != null && UpOk(H3, A1, es[j])
  {
    if j <= M / 2 {
      assert H3[p].edges[j] == es[j];
    } else {
      assert H3[r].edges[j - M / 2 - 1] == es[j];
    }
  }

  /** A node whose parent is `p` is one of `es`. */
  lemma SplitEdge(H: Cells, t: Shape, left: Node, key: Key, right: Node, p: Node, ks: seq<Key>, es: seq<Node?>, n: Node)
    requires Overflows(H, t, left, key, right, p, ks, es) && UpOk(H, t.places, n) && H[n].parent == p
    ensures n in es
  {
    var i, j := H[left].parentIdx, H[n].parentIdx;
    assert es[if j <= i then j else j + 1] == n;
  }

  lemma SplitFill(H: Cells, H3: Cells, t: Shape, left: Node, key: Key, right: Node, p: Node, r: Node, ks: seq<Key>,
                  es: seq<Node?>)
    requires Overflows(H, t, left, key, right, p, ks, es) && r !in H && SplitCells(H, H3, p, r, ks, es)
    ensures AllFill(H3, SplitPlaces(t.places, p, ks[M / 2], r), t.root, null)
  {
    hide LocalOk, AllLocal, AllUp, ChainOk, InnerOk, Ins;
    forall n | n in SplitPlaces(t.places, p, ks[M / 2], r)
      ensures FillOk(H3, t.root, null, n)
    {
      if n != r { assert FillOk(H, t.root, null, n); }
    }
  }

  lemma {:induction false} SplitRest(H: Cells, H3: Cells, t: Shape, left: Node, key: Key, right: Node, p: Node, r: Node,
                                     ks: seq<Key>, es: seq<Node?>)
    requires Overflows(H, t, left, key, right, p, ks, es) && r !in H && SplitCells(H, H3, p, r, ks, es)
    ensures ChainOk(H3, SplitPlaces(t.places, p, ks[M / 2], r), t.leaves)
    ensures FlatKeys(H3, t.leaves) == FlatKeys(H, t.leaves) && FlatVals(H3, t.leaves) == FlatVals(H, t.leaves)
  {
    OverflowsEdges(H, t, left, key, right, p, r, ks, es);
    hide LocalOk, AllLocal, AllUp, AllFill, InnerOk, Distinct, Ins, PendingParent, Fresh;
    var A, A1, ls := t.places, SplitPlaces(t.places, p, ks[M / 2], r), t.leaves;
    ChainFrame(H, A, H3, A1, ls);
    forall i | 0 <= i < |ls|
      ensures EntriesSame(H, H3, ls[i])
    {
      assert LinkAt(H, A, ls, i);
    }
    FlatFrame(H, H3, ls);
  }

  lemma {:induction false} SplitKept(H: Cells, H3: Cells, t: Shape, left: Node, key: Key, right: Node, p: Node, r: Node,
                                     ks: seq<Key>, es: seq<Node?>)
    requires Overflows(H, t, left, key, right, p, ks, es) && r !in H && SplitCells(H, H3, p, r, ks, es)
    requires FlatKeys(H3, t.leaves) == FlatKeys(H, t.leaves) && FlatVals(H3, t.leaves) == FlatVals(H, t.leaves)
    ensures Kept(H, t, H3, t.(places := SplitPlaces(t.places, p, ks[M / 2], r)))
  {
    OverflowsEdges(H, t, left, key, right, p, r, ks, es);
    hide Overflows;
    SplitOutside(H, H3, t.places, p, r, ks, es);
    assert SplitPlaces(t.places, p, ks[M / 2], r).Keys == t.places.Keys + {r};
  }

  lemma SplitOutside(H: Cells, H3: Cells, A: Places, p: Node, r: Node, ks: seq<Key>, es: seq<Node?>)
    requires p in A && p in H && |ks| == M + 1 && |es| == M + 2 && SplitCells(H, H3, p, r, ks, es)
    requires forall j {:trigger es[j]} :: 0 <= j < |es| ==> es[j] in A
    requires r !in H
    ensures H3 - (A.Keys + {r}) == H - A.Keys
  {
    assert forall n :: n in es ==> n in A;
  }

  /** After the split of the parent only its upper part is pending. */
  lemma SplitUpOk(H: Cells, H3: Cells, t: Shape, left: Node, key: Key, right: Node, p: Node, r: Node, ks: seq<Key>,
                  es: seq<Node?>)
    requires Overflows(H, t, left, key, right, p, ks, es) && r !in H && SplitCells(H, H3, p, r, ks, es)
    ensures var t1 := t.(places := SplitPlaces(t.places, p, ks[M / 2], r));
            Pending(H3, t1, p, ks[M / 2], r) && Kept(H, t, H3, t1)
  {
    var A, A1 := t.places, SplitPlaces(t.places, p, ks[M / 2], r);
    OverflowsEdges(H, t, left, key, right, p, r, ks, es);
    SplitLocals(H, H3, A, p, right, r, ks, es);
    SplitGrandparent(H, H3, t, left, key, right, p, r, ks, es);
    SplitChanges(H, H3, t, left, key, right, p, r, ks, es);
    SplitUps(H, H3, t, left, key, right, p, r, ks, es);
    SplitFill(H, H3, t, left, key, right, p, r, ks, es);
    SplitRest(H, H3, t, left, key, right, p, r, ks, es);
    SplitKept(H, H3, t, left, key, right, p, r, ks, es);
    SplitRoot(H, H3, t, left, key, right, p, r, ks, es);
    hide Overflows, SplitCells, Fresh, LocalOk, AllLocal, AllUp, AllFill, ChainOk, Kept, InnerOk, PendingParent,
         PendingPair, PendingRoot, SplitPlaces;
  }

  lemma SplitRoot(H: Cells, H3: Cells, t: Shape, left: Node, key: Key, right: Node, p: Node, r: Node, ks: seq<Key>,
                  es: seq<Node?>)
    requires Overflows(H, t, left, key, right, p, ks, es) && r !in H && SplitCells(H, H3, p, r, ks, es)
    requires H[p].parent == null ==> p == t.root
    ensures PendingRoot(H3, t.(places := SplitPlaces(t.places, p, ks[M / 2], r)), p, r)
    ensures PendingPair(H3, SplitPlaces(t.places, p, ks[M / 2], r), p, ks[M / 2], r)
  {
    OverflowsEdges(H, t, left, key, right, p, r, ks, es);
    PendingRootNotBelow(H, t, left, key, right, p);
    hide LocalOk, AllLocal, AllUp, AllFill, ChainOk, InnerOk, PendingParent, Distinct, Ins;
  }

  lemma PendingRootNotBelow(H: Cells, t: Shape, left: Node, key: Key, right: Node, p: Node)
    requires Pending(H, t, left, key, right) && H[left].parent == p
    ensures p in H && p in t.places && left != t.root && H[p].vals == []
  {
  }

  // ---- the way up ----

  /** A node at least as high as the split one is no higher than the tree. */
  lemma {:induction false} PendingHeight(H: Cells, t: Shape, left: Node, key: Key, right: Node, n: Node)
    requires Pending(H, t, left, key, right) && n in t.places && n != right &&
             t.places[left].height <= t.places[n].height
    ensures t.places[n].height <= t.height
    decreases |AtLeast(t.places, t.places[n].height)|
  {
    if n != t.root {
      PendingAbove(H, t, left, key, right, n);
      var p := H[n].parent;
      assert AtLeast(t.places, t.places[p].height) < AtLeast(t.places, t.places[n].height) by {
        assert n in AtLeast(t.places, t.places[n].height) && n !in AtLeast(t.places, t.places[p].height);
      }
      SmallerSet(AtLeast(t.places, t.places[p].height), AtLeast(t.places, t.places[n].height));
      hide Pending;
      PendingHeight(H, t, left, key, right, p);
    }
  }

  lemma PendingAbove(H: Cells, t: Shape, left: Node, key: Key, right: Node, n: Node)
    requires Pending(H, t, left, key, right) && n in t.places && n != right && n != t.root &&
             t.places[left].height <= t.places[n].height
    ensures n in H && H[n].parent != null && H[n].parent in t.places && H[n].parent != right
    ensures t.places[H[n].parent].height == t.places[n].height + 1
  {
    hide AllFill, ChainOk;
    assert UpOk(H, t.places, n);
    var q := H[n].parent;
    if H[left].parent == q {
      PendingKids(H, t.places, left, key, right, q);
    } else {
      assert LocalOk(H, t.places, q);
      assert ChildOk(t.places, t.places[q], H[q].keys, H[q].edges, H[n].parentIdx);
    }
  }

  lemma InsertedKept(H0: Cells, t0: Shape, H1: Cells, t1: Shape, H2: Cells, t2: Shape, p: nat, key: Key, val: Value)
    requires Inserted(H0, t0, H1, t1, p, key, val) && Kept(H1, t1, H2, t2)
    ensures Inserted(H0, t0, H2, t2, p, key, val)
  {
  }
}
