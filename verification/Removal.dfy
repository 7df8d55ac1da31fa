/** Why each step of rebalancing after a removal leaves a B+ tree. */
module Removal {
  import opened Seqs
  import opened Nodes
  import opened Trees
  import opened Contents

  /** The heap after the last entry of the leaf `prev` has moved to its next sibling `node`. */
  ghost function LeafFromPrev(H: Cells, node: Node, prev: Node, p: Node, i: nat): Cells
    requires node in H && prev in H && p in H && 0 < i <= |H[p].keys| && 0 < |H[prev].keys| == |H[prev].vals|
  {
    var last := |H[prev].keys| - 1;
    var k, v := H[prev].keys[last], H[prev].vals[last];
    H[prev := H[prev].(keys := Del(H[prev].keys, last), vals := Del(H[prev].vals, last))]
     [node := H[node].(keys := Ins(H[node].keys, 0, k), vals := Ins(H[node].vals, 0, v))]
     [p := H[p].(keys := H[p].keys[i - 1 := k])]
  }

  lemma LeafFromPrevSteps(H: Cells, node: Node, prev: Node, p: Node, i: nat, c: Cell, d: Cell, e: Cell)
    requires node in H && prev in H && p in H && 0 < i <= |H[p].keys| && 0 < |H[prev].keys| == |H[prev].vals|
    requires var last := |H[prev].keys| - 1;
             && c == H[prev].(keys := Del(H[prev].keys, last), vals := Del(H[prev].vals, last))
             && d == H[node].(keys := Ins(H[node].keys, 0, H[prev].keys[last]),
                vals := Ins(H[node].vals, 0, H[prev].vals[last]))
             && e == H[p].(keys := H[p].keys[i - 1 := H[prev].keys[last]])
    ensures H[prev := c][node := d][p := e] == LeafFromPrev(H, node, prev, p, i)
  {
  }

  /** The places after the bound between `prev` and `node` has become `k`. */
  ghost function MoveBound(A: Places, prev: Node, node: Node, k: Key): Places
    requires prev in A && node in A
  {
    A[prev := A[prev].(hi := At(k))][node := A[node].(lo := At(k))]
  }

  lemma SamePlaces(A: Places, prev: Node, node: Node, k: Key)
    requires prev in A && node in A
    ensures MoveBound(A, prev, node, k).Keys == A.Keys
  {
  }

  /** The bound between two neighbouring leaves may move. */
  lemma ChainMoveBound(H: Cells, A: Places, H1: Cells, ls: seq<Node>, prev: Node, node: Node, k: Key)
    requires ChainOk(H, A, ls) && AllLocal(H, A, {})
    requires prev in A && node in A && A[prev].height == A[node].height == 0 && A[prev].hi == A[node].lo
    requires forall n {:trigger ChainSame(H, H1, n)} :: n in H ==> ChainSame(H, H1, n)
    ensures ChainOk(H1, MoveBound(A, prev, node, k), ls)
  {
    var A1 := MoveBound(A, prev, node, k);
    var j := Neighbours(H, A, ls, prev, node);
    forall i | 0 <= i < |ls|
      ensures LinkAt(H1, A1, ls, i)
    {
      assert LinkAt(H, A, ls, i) && ChainSame(H, H1, ls[i]);
      if i > 0 {
        assert LinkAt(H, A, ls, i - 1);
      }
      if i != j {
        if i < j { ChainOrder(H, A, ls, i, j); } else { ChainOrder(H, A, ls, j, i); }
      }
      if i != j + 1 {
        if i < j + 1 { ChainOrder(H, A, ls, i, j + 1); } else { ChainOrder(H, A, ls, j + 1, i); }
      }
    }
  }

  lemma LeafDropLast(c: Cell, a: Place)
    requires LeafOk(c, a) && 2 <= |c.keys|
    ensures var last := |c.keys| - 1;
            && LeafOk(c.(keys := Del(c.keys, last), vals := Del(c.vals, last)), a.(hi := At(c.keys[last])))
            && Less(a.lo, At(c.keys[last])) && Less(At(c.keys[last]), a.hi)
  {
    assert c.keys[0] < c.keys[|c.keys| - 1];
  }

  lemma LeafAddFirst(c: Cell, a: Place, k: Key, v: Value)
    requires LeafOk(c, a) && Less(At(k), a.lo)
    ensures LeafOk(c.(keys := Ins(c.keys, 0, k), vals := Ins(c.vals, 0, v)), a.(lo := At(k)))
  {
  }

  /** The key between two edges may move, if the ranges of both stay nonempty. */
  lemma InnerMoveBound(A: Places, a: Place, ks: seq<Key>, es: seq<Node?>, i: nat, k: Key)
    requires InnerOk(A, a, ks, es) && Distinct(es) && i < |ks| && es[i] in A && es[i + 1] in A
    requires Less(A[es[i]].lo, At(k)) && Less(At(k), A[es[i + 1]].hi)
    ensures InnerOk(MoveBound(A, es[i], es[i + 1], k), a, ks[i := k], es)
  {
    var A1, ks1 := MoveBound(A, es[i], es[i + 1], k), ks[i := k];
    assert ChildOk(A, a, ks, es, i) && ChildOk(A, a, ks, es, i + 1);
    forall j | 0 <= j < |es|
      ensures ChildOk(A1, a, ks1, es, j)
    {
      assert ChildOk(A, a, ks, es, j);
    }
  }

  /**
   * `node`, a leaf that lacks a key, is the edge at `i` of `p`, and `prev` is the edge before it and can spare a key.
   */
  ghost predicate CanTakePrev(H: Cells, t: Shape, node: Node, prev: Node, p: Node, i: nat) {
    && Wf(H, t, node) && node in t.places && node != t.root && node in H && |H[node].keys| == M / 2 - 1
    && p == H[node].parent && p in H && i == H[node].parentIdx && 0 < i <= |H[p].keys| &&
       |H[p].edges| == |H[p].keys| + 1
    && prev == H[p].edges[i - 1] && prev in H && prev in t.places && M / 2 < |H[prev].keys|
  }

  lemma LeafFromPrevLocals(H: Cells, t: Shape, node: Node, prev: Node, p: Node, i: nat)
    requires CanTakePrev(H, t, node, prev, p, i) && t.places[node].height == 0
    ensures |H[prev].vals| == |H[prev].keys| && H[node].edges == [] && H[prev].edges == [] && node != prev &&
            p != node && p != prev
    ensures var A, k := t.places, H[prev].keys[|H[prev].keys| - 1];
            var H1, A1 := LeafFromPrev(H, node, prev, p, i), MoveBound(A, prev, node, k);
            LocalOk(H1, A1, prev) && LocalOk(H1, A1, node) && LocalOk(H1, A1, p)
  {
    hide AllLocal, AllUp, AllFill, ChainOk;
    var A, k := t.places, H[prev].keys[|H[prev].keys| - 1];
    Parent(H, t, node, node);
    Child(H, t, node, p, i - 1);
    Child(H, t, node, p, i);
    var H1, A1 := LeafFromPrev(H, node, prev, p, i), MoveBound(A, prev, node, k);
    LeafDropLast(H[prev], A[prev]);
    LeafAddFirst(H[node], A[node], k, H[prev].vals[|H[prev].keys| - 1]);
    assert OwnsEdges(H, p);
    NumberedDistinct(H, H[p].edges, 0);
    InnerMoveBound(A, A[p], H[p].keys, H[p].edges, i - 1, k);
  }

  /** Moving an entry between neighbouring leaves keeps the entries. */
  lemma PairKept(H: Cells, H1: Cells, t: Shape, hole: Node?, left: Node, right: Node, p: Node, k: Key)
    requires Wf(H, t, hole) && left in t.places && right in t.places && p in t.places && t.places[p].height > 0
    requires t.places[left].height == t.places[right].height == 0 && t.places[left].hi == t.places[right].lo
    requires left in H && right in H && left in H1 && right in H1 && H1.Keys == H.Keys
    requires forall n {:trigger H1[n]} :: n in H && n != left && n != right && n != p ==> H1[n] == H[n]
    requires H1[left].keys + H1[right].keys == H[left].keys + H[right].keys
    requires H1[left].vals + H1[right].vals == H[left].vals + H[right].vals
    ensures Kept(H, t, H1, t.(places := MoveBound(t.places, left, right, k)))
  {
    var A, ls := t.places, t.leaves;
    var q := Neighbours(H, A, ls, left, right);
    ChainDistinct(H, A, ls);
    forall i | 0 <= i < |ls| && i != q && i != q + 1
      ensures EntriesSame(H, H1, ls[i])
    {
      assert LinkAt(H, A, ls, i);
    }
    FlatPair(H, H1, ls, q);
    var A1 := MoveBound(A, left, right, k);
    assert A1.Keys == A.Keys;
    assert H1 - A1.Keys == H - A.Keys;
  }

  lemma LeafFromPrevKept(H: Cells, t: Shape, node: Node, prev: Node, p: Node, i: nat)
    requires CanTakePrev(H, t, node, prev, p, i) && t.places[node].height == 0 && |H[prev].vals| == |H[prev].keys|
    ensures var k := H[prev].keys[|H[prev].keys| - 1];
            Kept(H, t, LeafFromPrev(H, node, prev, p, i), t.(places := MoveBound(t.places, prev, node, k)))
  {
    hide Wf, Kept, LocalOk;
    Parent(H, t, node, node);
    Child(H, t, node, p, i - 1);
    PairKept(H, LeafFromPrev(H, node, prev, p, i), t, node, prev, node, p, H[prev].keys[|H[prev].keys| - 1]);
  }

  lemma LeafFromPrevOk(H: Cells, t: Shape, node: Node, prev: Node, p: Node, i: nat)
    requires CanTakePrev(H, t, node, prev, p, i) && t.places[node].height == 0
    ensures |H[prev].vals| == |H[prev].keys| && H[node].edges == [] && H[prev].edges == [] && node != prev &&
            p != node && p != prev
    ensures var k := H[prev].keys[|H[prev].keys| - 1];
            && Wf(LeafFromPrev(H, node, prev, p, i), t.(places := MoveBound(t.places, prev, node, k)), null)
            && Kept(H, t, LeafFromPrev(H, node, prev, p, i), t.(places := MoveBound(t.places, prev, node, k)))
  {
    hide LocalOk, UpOk, ChainOk;
    LeafFromPrevLocals(H, t, node, prev, p, i);
    LeafFromPrevKept(H, t, node, prev, p, i);
    hide Kept;
    var A, k := t.places, H[prev].keys[|H[prev].keys| - 1];
    var H1, A1 := LeafFromPrev(H, node, prev, p, i), MoveBound(A, prev, node, k);
    Parent(H, t, node, node);
    Child(H, t, node, p, i - 1);
    LocalsFrame(H, A, H1, A1, {prev, node, p}, {});
    UpsFrame(H, A, H1, A1, {t.root});
    ChainMoveBound(H, A, H1, t.leaves, prev, node, k);
    forall n | n in A1
      ensures FillOk(H1, t.root, null, n)
    {
      assert FillOk(H, t.root, node, n);
    }
  }

  // ---- a leaf takes the first entry of its next sibling ----

  /** The heap after the first entry of the leaf `next` has moved to its previous sibling `node`. */
  ghost function LeafFromNext(H: Cells, node: Node, next: Node, p: Node, i: nat): Cells
    requires node in H && next in H && p in H && i < |H[p].keys| && 1 < |H[next].keys| == |H[next].vals|
    requires |H[node].keys| == |H[node].vals|
  {
    var n := |H[node].keys|;
    H[p := H[p].(keys := H[p].keys[i := H[next].keys[1]])]
     [next := H[next].(keys := Del(H[next].keys, 0), vals := Del(H[next].vals, 0))]
     [node := H[node].(keys := Ins(H[node].keys, n, H[next].keys[0]), vals := Ins(H[node].vals, n, H[next].vals[0]))]
  }

  lemma LeafFromNextSteps(H: Cells, node: Node, next: Node, p: Node, i: nat, c: Cell, d: Cell, e: Cell)
    requires node in H && next in H && p in H && i < |H[p].keys| && 1 < |H[next].keys| == |H[next].vals|
    requires |H[node].keys| == |H[node].vals|
    requires c == H[p].(keys := H[p].keys[i := H[next].keys[1]])
    requires d == H[next].(keys := Del(H[next].keys, 0), vals := Del(H[next].vals, 0))
    requires var n := |H[node].keys|;
             e == H[node].(keys := Ins(H[node].keys, n, H[next].keys[0]), vals := Ins(H[node].vals, n, H[next].vals[0]))
    ensures H[p := c][next := d][node := e] == LeafFromNext(H, node, next, p, i)
  {
  }

  /** `node`, which lacks a key, is the edge at `i` of `p`, and `next` is the edge after it and can spare a key. */
  ghost predicate CanTakeNext(H: Cells, t: Shape, node: Node, next: Node, p: Node, i: nat) {
    && Wf(H, t, node) && node in t.places && node != t.root && node in H && |H[node].keys| == M / 2 - 1
    && p == H[node].parent && p in H && i == H[node].parentIdx && i < |H[p].keys| && |H[p].edges| == |H[p].keys| + 1
    && next == H[p].edges[i + 1] && next in H && next in t.places && M / 2 < |H[next].keys|
  }

  lemma LeafDropFirst(c: Cell, a: Place)
    requires LeafOk(c, a) && 2 <= |c.keys|
    ensures LeafOk(c.(keys := Del(c.keys, 0), vals := Del(c.vals, 0)), a.(lo := At(c.keys[1])))
    ensures Less(a.lo, At(c.keys[1])) && Less(At(c.keys[1]), a.hi)
  {
    assert c.keys[0] < c.keys[1];
  }

  lemma LeafAddLast(c: Cell, a: Place, k: Key, v: Value, hi: Bound)
    requires LeafOk(c, a) && (a.hi == At(k) || Less(a.hi, At(k))) && Less(At(k), hi)
    ensures LeafOk(c.(keys := Ins(c.keys, |c.keys|, k), vals := Ins(c.vals, |c.keys|, v)), a.(hi := hi))
  {
  }

  lemma LeafFromNextLocals(H: Cells, t: Shape, node: Node, next: Node, p: Node, i: nat)
    requires CanTakeNext(H, t, node, next, p, i) && t.places[node].height == 0
    ensures |H[next].vals| == |H[next].keys| && |H[node].keys| == |H[node].vals| && H[node].edges == [] &&
            H[next].edges == [] && node != next && p != node && p != next
    ensures var A, k := t.places, H[next].keys[1];
            var H1, A1 := LeafFromNext(H, node, next, p, i), MoveBound(A, node, next, k);
            LocalOk(H1, A1, next) && LocalOk(H1, A1, node) && LocalOk(H1, A1, p)
  {
    hide AllLocal, AllUp, AllFill, ChainOk;
    var A, k := t.places, H[next].keys[1];
    Parent(H, t, node, node);
    Child(H, t, node, p, i + 1);
    Child(H, t, node, p, i);
    LeafDropFirst(H[next], A[next]);
    LeafAddLast(H[node], A[node], H[next].keys[0], H[next].vals[0], At(k));
    assert OwnsEdges(H, p);
    NumberedDistinct(H, H[p].edges, 0);
    InnerMoveBound(A, A[p], H[p].keys, H[p].edges, i, k);
  }

  lemma LeafFromNextKept(H: Cells, t: Shape, node: Node, next: Node, p: Node, i: nat)
    requires CanTakeNext(H, t, node, next, p, i) && t.places[node].height == 0
    requires |H[next].vals| == |H[next].keys| && |H[node].vals| == |H[node].keys|
    ensures Kept(H, t, LeafFromNext(H, node, next, p, i), t.(places := MoveBound(t.places, node, next,
            H[next].keys[1])))
  {
    hide Wf, Kept, LocalOk;
    Parent(H, t, node, node);
    Child(H, t, node, p, i + 1);
    PairKept(H, LeafFromNext(H, node, next, p, i), t, node, node, next, p, H[next].keys[1]);
  }

  lemma LeafFromNextOk(H: Cells, t: Shape, node: Node, next: Node, p: Node, i: nat)
    requires CanTakeNext(H, t, node, next, p, i) && t.places[node].height == 0
    ensures |H[next].vals| == |H[next].keys| && |H[node].keys| == |H[node].vals| && H[node].edges == [] &&
            H[next].edges == [] && node != next && p != node && p != next
    ensures var k := H[next].keys[1];
            && Wf(LeafFromNext(H, node, next, p, i), t.(places := MoveBound(t.places, node, next, k)), null)
            && Kept(H, t, LeafFromNext(H, node, next, p, i), t.(places := MoveBound(t.places, node, next, k)))
  {
    hide LocalOk, UpOk, ChainOk;
    LeafFromNextLocals(H, t, node, next, p, i);
    LeafFromNextKept(H, t, node, next, p, i);
    hide Kept;
    var A, k := t.places, H[next].keys[1];
    var H1, A1 := LeafFromNext(H, node, next, p, i), MoveBound(A, node, next, k);
    Parent(H, t, node, node);
    Child(H, t, node, p, i + 1);
    LocalsFrame(H, A, H1, A1, {next, node, p}, {});
    UpsFrame(H, A, H1, A1, {t.root});
    ChainMoveBound(H, A, H1, t.leaves, node, next, k);
    forall n | n in A1
      ensures FillOk(H1, t.root, null, n)
    {
      assert FillOk(H, t.root, node, n);
    }
  }

  // ---- an internal node takes the last edge of its previous sibling ----

  /** `H1` is the heap after the last edge of `prev` has moved to its next sibling `node`. */
  ghost predicate InnerFromPrev(H: Cells, H1: Cells, node: Node, prev: Node, p: Node, i: nat)
    requires node in H && prev in H && p in H && 0 < i <= |H[p].keys|
    requires 0 < |H[prev].keys| && |H[prev].edges| == |H[prev].keys| + 1
  {
    var last := |H[prev].keys| - 1;
    var k, e := H[prev].keys[last], H[prev].edges[last + 1];
    && e in H
    && Bumped(H[prev := H[prev].(keys := H[prev].keys[..last], edges := H[prev].edges[..last + 1])]
               [p := H[p].(keys := H[p].keys[i - 1 := k])]
               [e := H[e].(parent := node, parentIdx := 0)]
               [node := H[node].(keys := Ins(H[node].keys, 0, H[p].keys[i - 1]), edges := Ins(H[node].edges, 0, e))],
              H1, H[node].edges, 1)
  }

  lemma InnerDropLast(A: Places, A1: Places, a: Place, ks: seq<Key>, es: seq<Node?>)
    requires InnerOk(A, a, ks, es) && 0 < |ks|
    requires forall i :: 0 <= i < |es| && es[i] in A ==> es[i] in A1 && A1[es[i]] == A[es[i]]
    ensures var last := |ks| - 1; InnerOk(A1, a.(hi := At(ks[last])), ks[..last], es[..last + 1])
  {
    var last := |ks| - 1;
    var a1, ks1, es1 := a.(hi := At(ks[last])), ks[..last], es[..last + 1];
    forall j | 0 <= j < |es1|
      ensures ChildOk(A1, a1, ks1, es1, j)
    {
      assert ChildOk(A, a, ks, es, j);
    }
  }

  lemma InnerAddFirst(A: Places, A1: Places, a: Place, ks: seq<Key>, es: seq<Node?>, k: Key, e: Node, lo: Bound)
    requires InnerOk(A, a, ks, es) && a.lo == At(k) && Less(lo, At(k))
    requires forall i :: 0 <= i < |es| && es[i] in A ==> es[i] in A1 && A1[es[i]] == A[es[i]]
    requires e in A1 && A1[e] == Place(a.height - 1, lo, At(k))
    ensures InnerOk(A1, a.(lo := lo), Ins(ks, 0, k), Ins(es, 0, e))
  {
    var a1 := a.(lo := lo);
    forall j | 0 <= j <= |es|
      ensures ChildOk(A1, a1, Ins(ks, 0, k), Ins(es, 0, e), j)
    {
      if j > 0 {
        assert ChildOk(A, a, ks, es, j - 1);
      }
    }
  }

  /** The cells after `InnerFromPrev`, one by one. */
  ghost predicate InnerFromPrevCells(H: Cells, H1: Cells, node: Node, prev: Node, p: Node, i: nat, k: Key, e: Node)
    requires node in H && prev in H && p in H && 0 < i <= |H[p].keys| && 0 < |H[prev].keys| < |H[prev].edges|
  {
    var last := |H[prev].keys| - 1;
    && H1.Keys == H.Keys && e in H
    && H1[prev] == H[prev].(keys := H[prev].keys[..last], edges := H[prev].edges[..last + 1])
    && H1[p] == H[p].(keys := H[p].keys[i - 1 := k])
    && H1[node] == H[node].(keys := Ins(H[node].keys, 0, H[p].keys[i - 1]), edges := Ins(H[node].edges, 0, e))
    && H1[e] == H[e].(parent := node, parentIdx := 0)
    && (forall j :: 0 <= j < |H[node].edges| ==>
          H[node].edges[j] in H && H1[H[node].edges[j]] == H[H[node].edges[j]].(parentIdx := j + 1))
    && (forall n {:trigger H1[n]} :: n in H && n != prev && n != p && n != node && n != e && n !in H[node].edges ==>
       H1[n] == H[n])
  }

  /** The edges of an internal node are distinct nodes one level below it. */
  lemma KidsBelow(H: Cells, A: Places, n: Node)
    requires n in H && n in A && InnerOk(A, A[n], H[n].keys, H[n].edges) && LinksOk(H, n)
    ensures forall j {:trigger H[n].edges[j]} :: 0 <= j < |H[n].edges| ==>
              && H[n].edges[j] in H && H[n].edges[j] in A && A[H[n].edges[j]].height + 1 == A[n].height
              && H[H[n].edges[j]].parent == n && H[H[n].edges[j]].parentIdx == j
    ensures Distinct(H[n].edges)
  {
    forall j | 0 <= j < |H[n].edges|
      ensures H[n].edges[j] in A && A[H[n].edges[j]].height + 1 == A[n].height
    {
      assert ChildOk(A, A[n], H[n].keys, H[n].edges, j);
    }
  }

  /** Where the nodes around the moving edge `e` are. */
  ghost predicate PrevKin(H: Cells, A: Places, node: Node, prev: Node, p: Node, i: nat, e: Node) {
    && node in H && prev in H && p in H && e in H && node in A && prev in A && p in A && e in A
    && 0 < i <= |H[p].keys| && 0 < |H[prev].keys| && |H[p].edges| == |H[p].keys| + 1
    && InnerOk(A, A[p], H[p].keys, H[p].edges) && LinksOk(H, p)
    && InnerOk(A, A[prev], H[prev].keys, H[prev].edges) && LinksOk(H, prev)
    && InnerOk(A, A[node], H[node].keys, H[node].edges) && LinksOk(H, node)
    && H[p].edges[i] == node && H[p].edges[i - 1] == prev && e == H[prev].edges[|H[prev].keys|]
    && A[p].height == A[node].height + 1 == A[prev].height + 1 == A[e].height + 2
    && H[p].vals == H[prev].vals == H[node].vals == []
  }

  lemma PrevKinHolds(H: Cells, t: Shape, node: Node, prev: Node, p: Node, i: nat)
    requires CanTakePrev(H, t, node, prev, p, i) && t.places[node].height > 0
    ensures |H[prev].edges| == |H[prev].keys| + 1 && H[prev].edges[|H[prev].keys|] != null
    ensures PrevKin(H, t.places, node, prev, p, i, H[prev].edges[|H[prev].keys|])
  {
    hide AllLocal, AllUp, AllFill, ChainOk;
    Parent(H, t, node, node);
    Child(H, t, node, p, i - 1);
    Child(H, t, node, p, i);
    Child(H, t, node, prev, |H[prev].keys|);
  }

  lemma PrevKinPlaces(H: Cells, A: Places, node: Node, prev: Node, p: Node, i: nat, e: Node)
    requires PrevKin(H, A, node, prev, p, i, e)
    ensures var k, m := H[prev].keys[|H[prev].keys| - 1], H[p].keys[i - 1];
            && A[prev].hi == At(m) == A[node].lo && A[e].lo == At(k) && A[e].hi == At(m)
            && Less(A[prev].lo, At(k)) && Less(At(k), At(m)) && Less(At(m), A[node].hi)
    ensures prev != node && Distinct(H[p].edges)
  {
    assert ChildOk(A, A[p], H[p].keys, H[p].edges, i - 1) && ChildOk(A, A[p], H[p].keys, H[p].edges, i);
    assert ChildOk(A, A[prev], H[prev].keys, H[prev].edges, |H[prev].keys|);
    assert NumberedIn(H, H[p].edges, 0);
    NumberedDistinct(H, H[p].edges, 0);
  }

  /** The nodes around the moving edge `e` are distinct, and none of them is an edge of `node`. */
  lemma PrevKinApart(H: Cells, A: Places, node: Node, prev: Node, p: Node, i: nat, e: Node)
    requires PrevKin(H, A, node, prev, p, i, e)
    ensures e != prev && e != node && e != p && p != prev && p != node && prev != node
    ensures p !in H[node].edges && node !in H[node].edges && prev !in H[node].edges && e !in H[node].edges
    ensures forall j {:trigger H[node].edges[j]} :: 0 <= j < |H[node].edges| ==>
              H[node].edges[j] in H && H[H[node].edges[j]].parentIdx == j
  {
    PrevKinPlaces(H, A, node, prev, p, i, e);
    KidsBelow(H, A, node);
    KidsBelow(H, A, prev);
    hide InnerOk, LinksOk;
  }

  lemma InnerFromPrevByCell(H: Cells, H1: Cells, A: Places, node: Node, prev: Node, p: Node, i: nat, e: Node)
    requires PrevKin(H, A, node, prev, p, i, e)
    requires |H[prev].edges| == |H[prev].keys| + 1 && InnerFromPrev(H, H1, node, prev, p, i)
    ensures InnerFromPrevCells(H, H1, node, prev, p, i, H[prev].keys[|H[prev].keys| - 1], e)
  {
    PrevKinApart(H, A, node, prev, p, i, e);
    hide InnerOk, LinksOk, LocalOk, Ins;
  }

  lemma InnerFromPrevAtPrev(H: Cells, H1: Cells, A: Places, node: Node, prev: Node, p: Node, i: nat, k: Key, e: Node)
    requires PrevKin(H, A, node, prev, p, i, e) && k == H[prev].keys[|H[prev].keys| - 1]
    requires InnerFromPrevCells(H, H1, node, prev, p, i, k, e)
    ensures LocalOk(H1, MoveBound(A, prev, node, k), prev)
  {
    var A1 := MoveBound(A, prev, node, k);
    PrevKinPlaces(H, A, node, prev, p, i, e);
    InnerDropLast(A, A1, A[prev], H[prev].keys, H[prev].edges);
    forall j | 0 <= j < |H1[prev].edges|
      ensures H1[prev].edges[j] in H1 && H1[H1[prev].edges[j]].parent == prev && H1[H1[prev].edges[j]].parentIdx == j
    {
      assert ChildOk(A, A[prev], H[prev].keys, H[prev].edges, j);
    }
  }

  lemma InnerFromPrevAtNode(H: Cells, H1: Cells, A: Places, node: Node, prev: Node, p: Node, i: nat, k: Key, e: Node)
    requires PrevKin(H, A, node, prev, p, i, e) && k == H[prev].keys[|H[prev].keys| - 1]
    requires InnerFromPrevCells(H, H1, node, prev, p, i, k, e)
    ensures LocalOk(H1, MoveBound(A, prev, node, k), node)
  {
    var A1 := MoveBound(A, prev, node, k);
    PrevKinPlaces(H, A, node, prev, p, i, e);
    InnerAddFirst(A, A1, A[node], H[node].keys, H[node].edges, H[p].keys[i - 1], e, At(k));
    forall j | 0 <= j < |H1[node].edges|
      ensures H1[node].edges[j] in H1 && H1[H1[node].edges[j]].parent == node && H1[H1[node].edges[j]].parentIdx == j
    {
      if j > 0 {
        assert H1[node].edges[j] == H[node].edges[j - 1];
      }
    }
  }

  lemma InnerFromPrevAtParent(H: Cells, H1: Cells, A: Places, node: Node, prev: Node, p: Node, i: nat, k: Key, e: Node)
    requires PrevKin(H, A, node, prev, p, i, e) && k == H[prev].keys[|H[prev].keys| - 1]
    requires InnerFromPrevCells(H, H1, node, prev, p, i, k, e)
    ensures LocalOk(H1, MoveBound(A, prev, node, k), p)
  {
    PrevKinPlaces(H, A, node, prev, p, i, e);
    InnerMoveBound(A, A[p], H[p].keys, H[p].edges, i - 1, k);
    forall j | 0 <= j < |H1[p].edges|
      ensures H1[p].edges[j] in H1 && H1[H1[p].edges[j]].parent == p && H1[H1[p].edges[j]].parentIdx == j
    {
      assert ChildOk(A, A[p], H[p].keys, H[p].edges, j);
    }
  }

  /** Changes above the leaves keep the entries. */
  lemma InnerKept(H: Cells, H1: Cells, t: Shape, hole: Node?, T: set<Node>, A1: Places)
    requires Wf(H, t, hole) && H1.Keys == H.Keys && A1.Keys == t.places.Keys
    requires forall n :: n in T ==> n in t.places && t.places[n].height > 0
    requires forall n {:trigger BodySame(H, H1, n)} :: n in t.places && n !in T ==> BodySame(H, H1, n)
    requires forall n {:trigger H1[n]} :: n in H && n !in t.places ==> H1[n] == H[n]
    ensures Kept(H, t, H1, t.(places := A1))
  {
    var A, ls := t.places, t.leaves;
    forall i | 0 <= i < |ls|
      ensures EntriesSame(H, H1, ls[i])
    {
      assert LinkAt(H, A, ls, i) && BodySame(H, H1, ls[i]);
    }
    FlatFrame(H, H1, ls);
    assert H1 - A1.Keys == H - A.Keys;
  }

  lemma InnerFromPrevKept(H: Cells, H1: Cells, t: Shape, node: Node, prev: Node, p: Node, i: nat, k: Key, e: Node)
    requires CanTakePrev(H, t, node, prev, p, i) && PrevKin(H, t.places, node, prev, p, i, e)
    requires k == H[prev].keys[|H[prev].keys| - 1] && InnerFromPrevCells(H, H1, node, prev, p, i, k, e)
    ensures Kept(H, t, H1, t.(places := MoveBound(t.places, prev, node, k)))
  {
    hide Kept, AllLocal, AllUp, AllFill, ChainOk;
    KidsBelow(H, t.places, node);
    hide InnerOk, LinksOk;
    InnerKept(H, H1, t, node, {prev, node, p}, MoveBound(t.places, prev, node, k));
  }

  lemma InnerFromPrevOk(H: Cells, H1: Cells, t: Shape, node: Node, prev: Node, p: Node, i: nat)
    requires CanTakePrev(H, t, node, prev, p, i) && t.places[node].height > 0
    requires |H[prev].edges| == |H[prev].keys| + 1 && InnerFromPrev(H, H1, node, prev, p, i)
    ensures var t1 := t.(places := MoveBound(t.places, prev, node, H[prev].keys[|H[prev].keys| - 1]));
            Wf(H1, t1, null) && Kept(H, t, H1, t1)
  {
    hide LocalOk, FillOk, UpOk, ChainOk, AllFill, PrevKin, InnerFromPrev, InnerFromPrevCells, ChangedOnly, Kept;
    var A, k, e := t.places, H[prev].keys[|H[prev].keys| - 1], H[prev].edges[|H[prev].keys|];
    var A1 := MoveBound(A, prev, node, k);
    PrevKinHolds(H, t, node, prev, p, i);
    InnerFromPrevByCell(H, H1, A, node, prev, p, i, e);
    InnerFromPrevAtPrev(H, H1, A, node, prev, p, i, k, e);
    InnerFromPrevAtNode(H, H1, A, node, prev, p, i, k, e);
    InnerFromPrevAtParent(H, H1, A, node, prev, p, i, k, e);
    InnerFromPrevRest(H, H1, t, node, prev, p, i, k, e);
    InnerFromPrevKept(H, H1, t, node, prev, p, i, k, e);
    PatchLocal(H, A, H1, A1, {prev, node, p});
    forall n | n in A1 && n != t.root && H[n].parent in {prev, node, p}
      ensures UpOk(H1, A1, n)
    {
      assert UpOk(H, A, n);
      InnerFromPrevUp(H, H1, A, node, prev, p, i, k, e, n);
    }
    PatchUp(H, t, H1, A1, t.root, {prev, node, p});
  }

  lemma InnerFromPrevUp(H: Cells, H1: Cells, A: Places, node: Node, prev: Node, p: Node, i: nat, k: Key, e: Node,
                        n: Node)
    requires PrevKin(H, A, node, prev, p, i, e) && k == H[prev].keys[|H[prev].keys| - 1]
    requires InnerFromPrevCells(H, H1, node, prev, p, i, k, e)
    requires n in H && H[n].parent in {prev, node, p} && UpOk(H, A, n)
    ensures UpOk(H1, MoveBound(A, prev, node, k), n)
  {
    PrevKinPlaces(H, A, node, prev, p, i, e);
    var q, j := H[n].parent, H[n].parentIdx;
    assert ChildOk(A, A[q], H[q].keys, H[q].edges, j);
    if q == node {
      assert H1[node].edges[j + 1] == n;
    } else if q == prev && n != e {
      assert H1[prev].edges[j] == n;
    }
  }

  lemma InnerFromPrevFill(H: Cells, H1: Cells, t: Shape, node: Node, prev: Node, p: Node, i: nat, k: Key, e: Node)
    requires CanTakePrev(H, t, node, prev, p, i) && PrevKin(H, t.places, node, prev, p, i, e)
    requires k == H[prev].keys[|H[prev].keys| - 1] && InnerFromPrevCells(H, H1, node, prev, p, i, k, e)
    ensures AllFill(H1, MoveBound(t.places, prev, node, k), t.root, null)
  {
    hide AllLocal, AllUp, ChainOk, InnerOk, UpOk, MoveBound;
    forall n | n in MoveBound(t.places, prev, node, k)
      ensures FillOk(H1, t.root, null, n)
    {
      SamePlaces(t.places, prev, node, k);
      assert FillOk(H, t.root, node, n);
    }
  }

  lemma InnerFromPrevChain(H: Cells, H1: Cells, t: Shape, node: Node, prev: Node, p: Node, i: nat, k: Key, e: Node)
    requires CanTakePrev(H, t, node, prev, p, i) && PrevKin(H, t.places, node, prev, p, i, e)
    requires k == H[prev].keys[|H[prev].keys| - 1] && InnerFromPrevCells(H, H1, node, prev, p, i, k, e)
    ensures var A1 := MoveBound(t.places, prev, node, k); RootOk(H1, t.(places := A1)) && ChainOk(H1, A1, t.leaves)
  {
    hide AllLocal, AllUp, AllFill, UpOk;
    ChainFrame(H, t.places, H1, MoveBound(t.places, prev, node, k), t.leaves);
  }

  lemma InnerFromPrevChanged(H: Cells, H1: Cells, t: Shape, node: Node, prev: Node, p: Node, i: nat, k: Key, e: Node)
    requires CanTakePrev(H, t, node, prev, p, i) && PrevKin(H, t.places, node, prev, p, i, e)
    requires k == H[prev].keys[|H[prev].keys| - 1] && InnerFromPrevCells(H, H1, node, prev, p, i, k, e)
    ensures var A, A1 := t.places, MoveBound(t.places, prev, node, k);
            && ChangedOnly(H, A, H1, A1, {prev, node, p})
  {
    hide AllFill, ChainOk;
  }

  lemma InnerFromPrevRest(H: Cells, H1: Cells, t: Shape, node: Node, prev: Node, p: Node, i: nat, k: Key, e: Node)
    requires CanTakePrev(H, t, node, prev, p, i) && PrevKin(H, t.places, node, prev, p, i, e)
    requires k == H[prev].keys[|H[prev].keys| - 1] && InnerFromPrevCells(H, H1, node, prev, p, i, k, e)
    ensures var A, A1 := t.places, MoveBound(t.places, prev, node, k);
            && ChangedOnly(H, A, H1, A1, {prev, node, p})
            && AllFill(H1, A1, t.root, null) && RootOk(H1, t.(places := A1)) && ChainOk(H1, A1, t.leaves)
  {
    hide InnerFromPrevCells, CanTakePrev, PrevKin, ChangedOnly, AllFill, RootOk, ChainOk;
    InnerFromPrevChanged(H, H1, t, node, prev, p, i, k, e);
    InnerFromPrevFill(H, H1, t, node, prev, p, i, k, e);
    InnerFromPrevChain(H, H1, t, node, prev, p, i, k, e);
  }

  // ---- an internal node takes the first edge of its next sibling ----

  lemma InnerDropFirst(A: Places, A1: Places, a: Place, ks: seq<Key>, es: seq<Node?>)
    requires InnerOk(A, a, ks, es) && 0 < |ks|
    requires forall i :: 0 <= i < |es| && es[i] in A ==> es[i] in A1 && A1[es[i]] == A[es[i]]
    ensures InnerOk(A1, a.(lo := At(ks[0])), Del(ks, 0), Del(es, 0))
  {
    var a1, ks1, es1 := a.(lo := At(ks[0])), Del(ks, 0), Del(es, 0);
    forall j | 0 <= j < |es1|
      ensures ChildOk(A1, a1, ks1, es1, j)
    {
      assert ChildOk(A, a, ks, es, j + 1);
    }
  }

  lemma InnerAddLast(A: Places, A1: Places, a: Place, ks: seq<Key>, es: seq<Node?>, k: Key, e: Node, hi: Bound)
    requires InnerOk(A, a, ks, es) && a.hi == At(k) && Less(At(k), hi)
    requires forall i :: 0 <= i < |es| && es[i] in A ==> es[i] in A1 && A1[es[i]] == A[es[i]]
    requires e in A1 && A1[e] == Place(a.height - 1, At(k), hi)
    ensures InnerOk(A1, a.(hi := hi), Ins(ks, |ks|, k), Ins(es, |es|, e))
  {
    var a1, ks1, es1 := a.(hi := hi), Ins(ks, |ks|, k), Ins(es, |es|, e);
    forall j | 0 <= j < |es1|
      ensures ChildOk(A1, a1, ks1, es1, j)
    {
      if j < |es| {
        assert ChildOk(A, a, ks, es, j);
      }
    }
  }

  /** The cells after the first edge of `next` has moved to its previous sibling `node`, one by one. */
  ghost predicate InnerFromNextCells(H: Cells, H1: Cells, node: Node, next: Node, p: Node, i: nat, k: Key, e: Node)
    requires node in H && next in H && p in H && i < |H[p].keys| && 0 < |H[next].keys| < |H[next].edges|
    requires |H[node].edges| == |H[node].keys| + 1
  {
    var n := |H[node].keys|;
    && H1.Keys == H.Keys && e in H
    && H1[next] == H[next].(keys := Del(H[next].keys, 0), edges := Del(H[next].edges, 0))
    && H1[p] == H[p].(keys := H[p].keys[i := k])
    && H1[node] == H[node].(keys := Ins(H[node].keys, n, H[p].keys[i]), edges := Ins(H[node].edges, n + 1, e))
    && H1[e] == H[e].(parent := node, parentIdx := n + 1)
    && (forall j :: 0 < j < |H[next].edges| ==>
          H[next].edges[j] in H && H1[H[next].edges[j]] == H[H[next].edges[j]].(parentIdx := j - 1))
    && (forall n {:trigger H1[n]} :: n in H && n != next && n != p && n != node && n !in H[next].edges ==>
       H1[n] == H[n])
  }

  /** Where the nodes around the moving edge `e` are. */
  ghost predicate NextKin(H: Cells, A: Places, node: Node, next: Node, p: Node, i: nat, e: Node) {
    && node in H && next in H && p in H && e in H && node in A && next in A && p in A && e in A
    && i < |H[p].keys| && 0 < |H[next].keys| && |H[p].edges| == |H[p].keys| + 1
    && InnerOk(A, A[p], H[p].keys, H[p].edges) && LinksOk(H, p)
    && InnerOk(A, A[next], H[next].keys, H[next].edges) && LinksOk(H, next)
    && InnerOk(A, A[node], H[node].keys, H[node].edges) && LinksOk(H, node)
    && H[p].edges[i] == node && H[p].edges[i + 1] == next && e == H[next].edges[0]
    && A[p].height == A[node].height + 1 == A[next].height + 1 == A[e].height + 2
    && H[p].vals == H[next].vals == H[node].vals == []
  }

  lemma NextKinHolds(H: Cells, t: Shape, node: Node, next: Node, p: Node, i: nat)
    requires CanTakeNext(H, t, node, next, p, i) && t.places[node].height > 0
    ensures |H[next].edges| == |H[next].keys| + 1 && H[next].edges[0] != null
    ensures NextKin(H, t.places, node, next, p, i, H[next].edges[0])
  {
    hide AllLocal, AllUp, AllFill, ChainOk;
    Parent(H, t, node, node);
    Child(H, t, node, p, i + 1);
    Child(H, t, node, p, i);
    Child(H, t, node, next, 0);
  }

  lemma NextKinPlaces(H: Cells, A: Places, node: Node, next: Node, p: Node, i: nat, e: Node)
    requires NextKin(H, A, node, next, p, i, e)
    ensures var k, m := H[next].keys[0], H[p].keys[i];
            && A[node].hi == At(m) == A[next].lo && A[e].lo == At(m) && A[e].hi == At(k)
            && Less(A[node].lo, At(m)) && Less(At(m), At(k)) && Less(At(k), A[next].hi)
    ensures next != node && Distinct(H[p].edges)
  {
    assert ChildOk(A, A[p], H[p].keys, H[p].edges, i + 1) && ChildOk(A, A[p], H[p].keys, H[p].edges, i);
    assert ChildOk(A, A[next], H[next].keys, H[next].edges, 0);
    assert NumberedIn(H, H[p].edges, 0);
    NumberedDistinct(H, H[p].edges, 0);
  }

  /** `next` has lost its first key and edge. */
  ghost predicate FirstEdgeTaken(H: Cells, H1: Cells, next: Node) {
    && next in H && 0 < |H[next].keys| < |H[next].edges|
    && Bumped(H[next := H[next].(keys := Del(H[next].keys, 0), edges := Del(H[next].edges, 0))], H1, H[next].edges[1..],
       -1)
  }

  /** Then that key has gone up to `p`, and the key of `p` and the edge to `node`. */
  ghost predicate FirstEdgeGiven(H: Cells, H1: Cells, H2: Cells, node: Node, next: Node, p: Node, i: nat) {
    && next in H && 0 < |H[next].keys| < |H[next].edges| && node in H && p in H && p in H1 && node in H1
    && i < |H[p].keys| && |H[node].edges| == |H[node].keys| + 1 && H[next].edges[0] != null && H[next].edges[0] in H1
    && var e, n := H[next].edges[0], |H[node].keys|;
       Bumped(H1[p := H[p].(keys := H[p].keys[i := H[next].keys[0]])]
                [e := H1[e].(parent := node, parentIdx := n + 1)]
                [node := H[node].(keys := Ins(H[node].keys, n, H[p].keys[i]), edges := Ins(H[node].edges, n + 1, e))],
              H2, [], 1)
  }

  /** The cells after `next` has lost its first edge. */
  lemma FirstEdgeTakenCells(H: Cells, H1: Cells, A: Places, node: Node, next: Node, p: Node, i: nat, e: Node)
    requires NextKin(H, A, node, next, p, i, e) && |H[next].edges| == |H[next].keys| + 1 && FirstEdgeTaken(H, H1, next)
    ensures H1.Keys == H.Keys && H1[next] == H[next].(keys := Del(H[next].keys, 0), edges := Del(H[next].edges, 0))
    ensures forall j {:trigger H[next].edges[j]} :: 0 < j < |H[next].edges| ==>
              H[next].edges[j] in H && H1[H[next].edges[j]] == H[H[next].edges[j]].(parentIdx := j - 1)
    ensures forall n {:trigger H1[n]} :: n in H && n != next && (n == e || n !in H[next].edges) ==> H1[n] == H[n]
    ensures e != next && e != node && e != p && p != next && p != node && next != node
    ensures p !in H[next].edges && node !in H[next].edges && next !in H[next].edges
  {
    NextKinPlaces(H, A, node, next, p, i, e);
    KidsBelow(H, A, next);
    hide InnerOk, LinksOk;
    TailMembers(H[next].edges, 1, H[next].edges[1..]);
  }

  lemma BumpedSame(H: Cells, H1: Cells, d: int)
    requires Bumped(H, H1, [], d)
    ensures H1 == H
  {
  }

  /** The steps of the code: `next` loses its first edge, then `p` changes its key, and then `node` gets the edge. */
  lemma InnerFromNextByCell(H: Cells, H1: Cells, H2: Cells, A: Places, node: Node, next: Node, p: Node, i: nat, e: Node)
    requires NextKin(H, A, node, next, p, i, e) && |H[node].edges| == |H[node].keys| + 1 &&
             |H[next].edges| == |H[next].keys| + 1
    requires FirstEdgeTaken(H, H1, next) && FirstEdgeGiven(H, H1, H2, node, next, p, i)
    ensures InnerFromNextCells(H, H2, node, next, p, i, H[next].keys[0], e)
  {
    FirstEdgeTakenCells(H, H1, A, node, next, p, i, e);
    var n := |H[node].keys|;
    BumpedSame(H1[p := H[p].(keys := H[p].keys[i := H[next].keys[0]])]
                 [e := H1[e].(parent := node, parentIdx := n + 1)]
                 [node := H[node].(keys := Ins(H[node].keys, n, H[p].keys[i]), edges := Ins(H[node].edges, n + 1, e))],
                   H2, 1);
    KidsBelow(H, A, next);
    hide InnerOk, LinksOk, FirstEdgeTaken, Bumped, Ins, Del, NextKin, ChildOk;
    assert forall j :: 0 < j < |H[next].edges| ==> H[next].edges[j] != e;
  }

  lemma InnerFromNextAtNext(H: Cells, H1: Cells, A: Places, node: Node, next: Node, p: Node, i: nat, k: Key, e: Node)
    requires NextKin(H, A, node, next, p, i, e) && k == H[next].keys[0]
    requires InnerFromNextCells(H, H1, node, next, p, i, k, e)
    ensures LocalOk(H1, MoveBound(A, node, next, k), next)
  {
    var A1 := MoveBound(A, node, next, k);
    NextKinPlaces(H, A, node, next, p, i, e);
    InnerDropFirst(A, A1, A[next], H[next].keys, H[next].edges);
    forall j | 0 <= j < |H1[next].edges|
      ensures H1[next].edges[j] in H1 && H1[H1[next].edges[j]].parent == next && H1[H1[next].edges[j]].parentIdx == j
    {
      assert H1[next].edges[j] == H[next].edges[j + 1];
    }
  }

  lemma InnerFromNextAtNode(H: Cells, H1: Cells, A: Places, node: Node, next: Node, p: Node, i: nat, k: Key, e: Node)
    requires NextKin(H, A, node, next, p, i, e) && k == H[next].keys[0]
    requires InnerFromNextCells(H, H1, node, next, p, i, k, e)
    ensures LocalOk(H1, MoveBound(A, node, next, k), node)
  {
    var A1 := MoveBound(A, node, next, k);
    NextKinPlaces(H, A, node, next, p, i, e);
    InnerAddLast(A, A1, A[node], H[node].keys, H[node].edges, H[p].keys[i], e, At(k));
    KidsBelow(H, A, node);
    KidsBelow(H, A, next);
    forall j | 0 <= j < |H1[node].edges|
      ensures H1[node].edges[j] in H1 && H1[H1[node].edges[j]].parent == node && H1[H1[node].edges[j]].parentIdx == j
    {
      if j < |H[node].edges| {
        assert H1[node].edges[j] == H[node].edges[j];
      }
    }
  }

  lemma InnerFromNextAtParent(H: Cells, H1: Cells, A: Places, node: Node, next: Node, p: Node, i: nat, k: Key, e: Node)
    requires NextKin(H, A, node, next, p, i, e) && k == H[next].keys[0]
    requires InnerFromNextCells(H, H1, node, next, p, i, k, e)
    ensures LocalOk(H1, MoveBound(A, node, next, k), p)
  {
    NextKinPlaces(H, A, node, next, p, i, e);
    InnerMoveBound(A, A[p], H[p].keys, H[p].edges, i, k);
    KidsBelow(H, A, p);
    KidsBelow(H, A, next);
  }

  lemma InnerFromNextUp(H: Cells, H1: Cells, A: Places, node: Node, next: Node, p: Node, i: nat, k: Key, e: Node,
                        n: Node)
    requires NextKin(H, A, node, next, p, i, e) && k == H[next].keys[0]
    requires InnerFromNextCells(H, H1, node, next, p, i, k, e)
    requires n in H && H[n].parent in {next, node, p} && UpOk(H, A, n)
    ensures UpOk(H1, MoveBound(A, node, next, k), n)
  {
    NextKinPlaces(H, A, node, next, p, i, e);
    KidsBelow(H, A, next);
    var q, j := H[n].parent, H[n].parentIdx;
    assert ChildOk(A, A[q], H[q].keys, H[q].edges, j);
    if q == node {
      assert H1[node].edges[j] == n;
    } else if q == next && n != e {
      assert H1[next].edges[j - 1] == n;
    }
  }

  lemma InnerFromNextFill(H: Cells, H1: Cells, t: Shape, node: Node, next: Node, p: Node, i: nat, k: Key, e: Node)
    requires CanTakeNext(H, t, node, next, p, i) && NextKin(H, t.places, node, next, p, i, e)
    requires k == H[next].keys[0] && InnerFromNextCells(H, H1, node, next, p, i, k, e)
    ensures AllFill(H1, MoveBound(t.places, node, next, k), t.root, null)
  {
    hide AllLocal, AllUp, ChainOk, InnerOk, UpOk, MoveBound;
    forall n | n in MoveBound(t.places, node, next, k)
      ensures FillOk(H1, t.root, null, n)
    {
      SamePlaces(t.places, node, next, k);
      assert FillOk(H, t.root, node, n);
    }
  }

  lemma InnerFromNextChain(H: Cells, H1: Cells, t: Shape, node: Node, next: Node, p: Node, i: nat, k: Key, e: Node)
    requires CanTakeNext(H, t, node, next, p, i) && NextKin(H, t.places, node, next, p, i, e)
    requires k == H[next].keys[0] && InnerFromNextCells(H, H1, node, next, p, i, k, e)
    ensures var A1 := MoveBound(t.places, node, next, k); RootOk(H1, t.(places := A1)) && ChainOk(H1, A1, t.leaves)
  {
    hide AllLocal, AllUp, AllFill, InnerOk, UpOk;
    ChainFrame(H, t.places, H1, MoveBound(t.places, node, next, k), t.leaves);
  }

  lemma InnerFromNextChanged(H: Cells, H1: Cells, t: Shape, node: Node, next: Node, p: Node, i: nat, k: Key, e: Node)
    requires CanTakeNext(H, t, node, next, p, i) && NextKin(H, t.places, node, next, p, i, e)
    requires k == H[next].keys[0] && InnerFromNextCells(H, H1, node, next, p, i, k, e)
    ensures var A, A1 := t.places, MoveBound(t.places, node, next, k);
            && ChangedOnly(H, A, H1, A1, {next, node, p})
  {
    hide AllLocal, AllUp, AllFill, ChainOk, InnerOk, UpOk;
  }

  lemma InnerFromNextRest(H: Cells, H1: Cells, t: Shape, node: Node, next: Node, p: Node, i: nat, k: Key, e: Node)
    requires CanTakeNext(H, t, node, next, p, i) && NextKin(H, t.places, node, next, p, i, e)
    requires k == H[next].keys[0] && InnerFromNextCells(H, H1, node, next, p, i, k, e)
    ensures var A, A1 := t.places, MoveBound(t.places, node, next, k);
            && ChangedOnly(H, A, H1, A1, {next, node, p})
            && AllFill(H1, A1, t.root, null) && RootOk(H1, t.(places := A1)) && ChainOk(H1, A1, t.leaves)
  {
    hide InnerFromNextCells, CanTakeNext, NextKin, ChangedOnly, AllFill, RootOk, ChainOk;
    InnerFromNextChanged(H, H1, t, node, next, p, i, k, e);
    InnerFromNextFill(H, H1, t, node, next, p, i, k, e);
    InnerFromNextChain(H, H1, t, node, next, p, i, k, e);
  }

  lemma InnerFromNextKept(H: Cells, H1: Cells, t: Shape, node: Node, next: Node, p: Node, i: nat, k: Key, e: Node)
    requires CanTakeNext(H, t, node, next, p, i) && NextKin(H, t.places, node, next, p, i, e)
    requires k == H[next].keys[0] && InnerFromNextCells(H, H1, node, next, p, i, k, e)
    ensures Kept(H, t, H1, t.(places := MoveBound(t.places, node, next, k)))
  {
    hide Kept, AllLocal, AllUp, AllFill, ChainOk;
    KidsBelow(H, t.places, next);
    hide InnerOk, LinksOk;
    InnerKept(H, H1, t, node, {next, node, p}, MoveBound(t.places, node, next, k));
  }

  lemma InnerFromNextOk(H: Cells, H1: Cells, t: Shape, node: Node, next: Node, p: Node, i: nat)
    requires CanTakeNext(H, t, node, next, p, i) && t.places[node].height > 0
    requires |H[next].edges| == |H[next].keys| + 1 && H[next].edges[0] != null && |H[node].edges| == |H[node].keys| + 1
    requires InnerFromNextCells(H, H1, node, next, p, i, H[next].keys[0], H[next].edges[0])
    ensures var t1 := t.(places := MoveBound(t.places, node, next, H[next].keys[0]));
            Wf(H1, t1, null) && Kept(H, t, H1, t1)
  {
    hide LocalOk, FillOk, UpOk, ChainOk, AllFill, NextKin, InnerFromNextCells, ChangedOnly, Kept;
    var A, k, e := t.places, H[next].keys[0], H[next].edges[0];
    var A1 := MoveBound(A, node, next, k);
    NextKinHolds(H, t, node, next, p, i);
    InnerFromNextAtNext(H, H1, A, node, next, p, i, k, e);
    InnerFromNextAtNode(H, H1, A, node, next, p, i, k, e);
    InnerFromNextAtParent(H, H1, A, node, next, p, i, k, e);
    InnerFromNextRest(H, H1, t, node, next, p, i, k, e);
    InnerFromNextKept(H, H1, t, node, next, p, i, k, e);
    PatchLocal(H, A, H1, A1, {next, node, p});
    forall n | n in A1 && n != t.root && H[n].parent in {next, node, p}
      ensures UpOk(H1, A1, n)
    {
      assert UpOk(H, A, n);
      InnerFromNextUp(H, H1, A, node, next, p, i, k, e, n);
    }
    PatchUp(H, t, H1, A1, t.root, {next, node, p});
  }

  // ---- the root ----

  lemma LocalAt(H: Cells, t: Shape, hole: Node?, n: Node)
    requires Wf(H, t, hole) && n in t.places
    ensures LocalOk(H, t.places, n) && FillOk(H, t.root, hole, n)
  {
    assert FillOk(H, t.root, hole, n);
  }

  lemma RootAt(H: Cells, t: Shape, hole: Node?)
    requires Wf(H, t, hole)
    ensures t.root in t.places && t.places[t.root] == Place(t.height, NegInf, PosInf) && t.places.Keys <= H.Keys &&
            H[t.root].parent == null
  {
  }

  /** Exactly the root has no parent. */
  lemma AboveRoot(H: Cells, t: Shape, hole: Node?, node: Node)
    requires Wf(H, t, hole) && node in t.places
    ensures node in H && (H[node].parent == null <==> node == t.root) && t.places[node].height <= t.height
    ensures H[node].parent != null ==> H[node].parent in H && H[node].parent in t.places
    ensures H[node].parent != null ==> t.places[H[node].parent].height == t.places[node].height + 1 <= t.height
  {
    RootAt(H, t, hole);
    HeightBound(H, t, hole, node);
    if node != t.root {
      Parent(H, t, hole, node);
    }
  }

  /** Nothing is missing if the node that may lack a key does not. */
  lemma HoleFilled(H: Cells, t: Shape, hole: Node)
    requires Wf(H, t, hole) && hole in t.places && hole in H
    requires if hole == t.root then 1 <= |H[hole].keys| else M / 2 <= |H[hole].keys|
    ensures Wf(H, t, null)
  {
    hide LocalOk, UpOk, ChainOk;
    forall n | n in t.places
      ensures FillOk(H, t.root, null, n)
    {
      assert FillOk(H, t.root, hole, n);
    }
  }

  /** The tree without its root, which has a single edge `c`. */
  ghost function Lowered(t: Shape, c: Node): Shape
    requires t.height > 0
  {
    Shape(c, t.height - 1, t.places - {t.root}, t.leaves)
  }

  lemma OnlyEdge(H: Cells, t: Shape)
    requires Wf(H, t, t.root) && t.root in H && H[t.root].keys == [] && t.height > 0
    ensures |H[t.root].edges| == 1
    ensures var c := H[t.root].edges[0];
            && c != null && c in H && c in t.places && c != t.root && LocalOk(H, t.places, c) &&
               FillOk(H, t.root, t.root, c)
            && t.places[c] == Place(t.height - 1, NegInf, PosInf) && H[c].parent == t.root
  {
    hide AllLocal, AllUp, AllFill, ChainOk;
    Child(H, t, t.root, t.root, 0);
  }

  /** The single edge of an empty root may become the root. */
  lemma LoweredOk(H: Cells, t: Shape, c: Node)
    requires Wf(H, t, t.root) && t.root in H && H[t.root].keys == [] && t.height > 0 && H[t.root].edges == [c]
    ensures c in H && c != t.root
    ensures var H1 := (H - {t.root})[c := H[c].(parent := null)];
            Wf(H1, Lowered(t, c), null) && Kept(H, t, H1, Lowered(t, c))
  {
    OnlyEdge(H, t);
    var H1, t1 := (H - {t.root})[c := H[c].(parent := null)], Lowered(t, c);
    LoweredRest(H, H1, t, c);
    LoweredKept(H, H1, t, c);
    LoweredUps(H, H1, t, c);
    hide LocalOk, UpOk, FillOk, ChainOk, Kept;
    LocalsFrame(H, t.places, H1, t1.places, {t.root}, {});
  }

  lemma LoweredUps(H: Cells, H1: Cells, t: Shape, c: Node)
    requires Wf(H, t, t.root) && t.root in H && H[t.root].edges == [c] && t.height > 0
    requires c in H && c != t.root && H1 == (H - {t.root})[c := H[c].(parent := null)]
    ensures AllUp(H1, Lowered(t, c).places, {c})
  {
    hide AllLocal, AllFill, ChainOk;
    var A1 := Lowered(t, c).places;
    forall n | n in A1 && n != c
      ensures UpOk(H1, A1, n)
    {
      assert UpOk(H, t.places, n);
    }
  }

  lemma LoweredRest(H: Cells, H1: Cells, t: Shape, c: Node)
    requires Wf(H, t, t.root) && t.root in H && H[t.root].keys == [] && t.height > 0 && H[t.root].edges == [c]
    requires c in H && c != t.root && c in t.places && FillOk(H, t.root, t.root, c)
    requires H1 == (H - {t.root})[c := H[c].(parent := null)]
    ensures AllFill(H1, t.places - {t.root}, c, null) && ChainOk(H1, t.places - {t.root}, t.leaves)
  {
    hide LocalOk, UpOk;
    forall n | n in t.places - {t.root}
      ensures FillOk(H1, c, null, n)
    {
      assert FillOk(H, t.root, t.root, n);
    }
    ChainFrame(H, t.places, H1, t.places - {t.root}, t.leaves);
  }

  lemma LoweredKept(H: Cells, H1: Cells, t: Shape, c: Node)
    requires Wf(H, t, t.root) && t.height > 0 && c in H && c != t.root && c in t.places
    requires H1 == (H - {t.root})[c := H[c].(parent := null)]
    ensures Kept(H, t, H1, Lowered(t, c))
  {
    hide LocalOk, UpOk, FillOk;
    forall i | 0 <= i < |t.leaves|
      ensures EntriesSame(H, H1, t.leaves[i])
    {
      assert LinkAt(H, t.places, t.leaves, i);
    }
    FlatFrame(H, H1, t.leaves);
    var A1 := t.places - {t.root};
    assert A1.Keys == t.places.Keys - {t.root};
    assert H1 - A1.Keys == H - t.places.Keys;
  }

  /** A root that is a leaf is the only node. */
  lemma {:induction false} RootLeaf(H: Cells, t: Shape, hole: Node?)
    requires Wf(H, t, hole) && t.height == 0
    ensures t.places.Keys == {t.root} && t.leaves == [t.root]
    ensures t.root in H && FlatKeys(H, t.leaves) == H[t.root].keys && FlatVals(H, t.leaves) == H[t.root].vals
    ensures |H[t.root].vals| == |H[t.root].keys|
  {
    LocalAt(H, t, hole, t.root);
    forall n | n in t.places
      ensures n == t.root
    {
      HeightBound(H, t, hole, n);
    }
    if |t.leaves| > 1 {
      ChainOrder(H, t.places, t.leaves, 0, |t.leaves| - 1);
      assert false;
    }
    assert LinkAt(H, t.places, t.leaves, 0);
    assert t.leaves == [t.root];
    FlatSplit(H, t.leaves, 0);
  }

  /** Every leaf of a tree with more than one level is at least half full. */
  lemma {:induction false} TallNotEmpty(H: Cells, t: Shape, hole: Node?)
    requires Wf(H, t, hole) && t.height > 0 && (hole != null && hole in t.places ==> t.places[hole].height > 0)
    ensures M / 2 <= |FlatKeys(H, t.leaves)|
  {
    hide AllLocal, AllUp;
    assert LinkAt(H, t.places, t.leaves, 0);
    assert FillOk(H, t.root, hole, t.leaves[0]);
    FlatSplit(H, t.leaves, 0);
  }
}
