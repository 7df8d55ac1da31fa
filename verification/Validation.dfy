/** The validation pass, which decides whether the nodes below a root form a B+ tree. */
module Validation {
  import opened Nodes
  import opened Trees
  import opened Contents
  import opened Removal
  import opened Structure
  import opened Stores
  import Maps
  import Runs

  // ---- what the pass checks ----

  /** Below `n` there are `h` levels: internal nodes that all have their edges, and leaves. */
  ghost predicate Typed(H: Cells, n: Node, h: nat)
    decreases h, 0
  {
    && n in H
    && if h == 0 then H[n].edges == [] && |H[n].vals| == |H[n].keys|
       else H[n].vals == [] && |H[n].edges| == |H[n].keys| + 1 && forall i :: 0 <= i < |H[n].edges| ==>
         TypedEdge(H, H[n].edges[i], h - 1)
  }

  ghost predicate TypedEdge(H: Cells, n: Node?, h: nat)
    decreases h, 1
  {
    n != null && n in H && Typed(H, n, h)
  }

  /** The last key of the last leaf below `n`. */
  ghost function LastKey(H: Cells, n: Node, h: nat): Key
    requires Typed(H, n, h)
    decreases h, 0
  {
    if h == 0 then (if H[n].keys == [] then 0 else H[n].keys[|H[n].keys| - 1])
    else assert TypedEdge(H, H[n].edges[|H[n].keys|], h - 1); LastKey(H, H[n].edges[|H[n].keys|], h - 1)
  }

  /** `k` comes after the last key seen, if any; it may be the same if `same` holds. */
  predicate Follows(prev: Bound, k: Key, same: bool) {
    Less(prev, At(k)) || (same && prev == At(k))
  }

  /** The checks of the nodes below `n`, but for the links between leaves. `prev` is the last key seen before. */
  ghost predicate NodeOk(H: Cells, n: Node, h: nat, p: Node?, idx: nat, prev: Bound)
    requires Typed(H, n, h)
    decreases h, 1
  {
    var ks := H[n].keys;
    && H[n].parent == p && (p != null ==> H[n].parentIdx == idx)
    && (if p == null then 1 else M / 2) <= |ks| <= M
    && if h == 0 then Follows(prev, ks[0], true) && forall i :: 0 < i < |ks| ==> ks[i - 1] < ks[i]
       else forall i {:trigger EdgeOk(H, n, h, i, prev)} :: 0 <= i < |H[n].edges| ==> EdgeOk(H, n, h, i, prev)
  }

  /** The checks below the edge at `i` of `n`, and of the key after it. */
  ghost predicate EdgeOk(H: Cells, n: Node, h: nat, i: nat, prev: Bound)
    requires Typed(H, n, h) && h > 0 && i < |H[n].edges|
    decreases h, 0
  {
    var ks, c := H[n].keys, H[n].edges[i];
    assert TypedEdge(H, c, h - 1);
    && NodeOk(H, c, h - 1, n, i, if i == 0 then prev else At(ks[i - 1]))
    && (i < |ks| ==> Follows(At(LastKey(H, c, h - 1)), ks[i], false))
  }

  /** The leaf at `i` of a row points back to the one before it, and that one points to it. */
  ghost predicate JoinedAt(H: Cells, before: Node?, ls: seq<Node>, i: nat)
    requires i < |ls|
  {
    var b := if i == 0 then before else ls[i - 1];
    ls[i] in H && H[ls[i]].prev == b && (b != null ==> b in H && H[b].next == ls[i])
  }

  /** The leaves are doubly linked in this order, the first one to the leaf seen before, if any. */
  ghost predicate Joined(H: Cells, before: Node?, ls: seq<Node>) {
    forall i {:trigger JoinedAt(H, before, ls, i)} :: 0 <= i < |ls| ==> JoinedAt(H, before, ls, i)
  }

  /** Everything the pass checks below the root but the number of entries. */
  ghost predicate Passes(H: Cells, root: Node, h: nat)
    requires Typed(H, root, h)
  {
    var ls := LeavesUnder(H, root, h);
    NodeOk(H, root, h, null, 0, NegInf) && Joined(H, null, ls) && ls != [] && ls[|ls| - 1] in H &&
      H[ls[|ls| - 1]].next == null
  }

  // ---- a B+ tree passes ----

  lemma {:induction false} TreePasses(H: Cells, t: Shape, n: Node)
    requires Wf(H, t, null) && n in t.places
    ensures n in H && Typed(H, n, t.places[n].height)
    ensures NodeOk(H, n, t.places[n].height, H[n].parent, H[n].parentIdx, t.places[n].lo)
    ensures Less(At(LastKey(H, n, t.places[n].height)), t.places[n].hi)
    decreases t.places[n].height, 1
  {
    RootAt(H, t, null);
    LocalAt(H, t, null, n);
    AboveRoot(H, t, null, n);
    var h := t.places[n].height;
    if h > 0 {
      forall i | 0 <= i < |H[n].edges|
        ensures TypedEdge(H, H[n].edges[i], h - 1)
      {
        EdgePasses(H, t, n, i);
      }
      assert Typed(H, n, h);
      forall i | 0 <= i < |H[n].edges|
        ensures EdgeOk(H, n, h, i, t.places[n].lo)
      {
        EdgePasses(H, t, n, i);
      }
      EdgePasses(H, t, n, |H[n].keys|);
    }
  }

  lemma {:induction false} EdgePasses(H: Cells, t: Shape, n: Node, i: nat)
    requires Wf(H, t, null) && n in t.places && n in H && t.places[n].height > 0 && i < |H[n].edges| == |H[n].keys| + 1
    ensures var c, h := H[n].edges[i], t.places[n].height - 1;
            && TypedEdge(H, c, h) && NodeOk(H, c, h, n, i, LoOf(t.places[n], H[n].keys, i))
            && Less(At(LastKey(H, c, h)), HiOf(t.places[n], H[n].keys, i))
    decreases t.places[n].height, 0
  {
    Child(H, t, null, n, i);
    hide Wf, LocalOk;
    TreePasses(H, t, H[n].edges[i]);
  }

  // ---- only a B+ tree passes ----

  /** The last key below `n` is no less than the one seen before. */
  lemma {:induction false} LastKeyAbove(H: Cells, n: Node, h: nat, p: Node?, idx: nat, prev: Bound)
    requires Typed(H, n, h) && NodeOk(H, n, h, p, idx, prev)
    ensures H[n].keys != [] && Below(prev, LastKey(H, n, h))
    decreases h, 0
  {
    var ks := H[n].keys;
    if h == 0 {
      AdjacentIncreasing(ks);
    } else {
      var c := H[n].edges[|ks|];
      assert TypedEdge(H, c, h - 1) && EdgeOk(H, n, h, |ks|, prev);
      LastKeyAbove(H, c, h - 1, n, |ks|, At(ks[|ks| - 1]));
      KeysAscend(H, n, h, p, idx, prev, |ks| - 1);
    }
  }

  lemma {:induction false} AdjacentIncreasing(ks: seq<Key>)
    requires forall i :: 0 < i < |ks| ==> ks[i - 1] < ks[i]
    ensures Increasing(ks)
  {
    if ks != [] {
      var r := ks[..|ks| - 1];
      AdjacentIncreasing(r);
      forall i, j | 0 <= i < j < |ks|
        ensures ks[i] < ks[j]
      {
        if j == |r| && i < j - 1 {
          assert r[i] < r[j - 1] && ks[j - 1] < ks[j];
        } else if j < |r| {
          assert r[i] < r[j];
        }
      }
    }
  }

  /** The keys of an internal node up to `j` lie above the last key seen before. */
  lemma {:induction false} KeysAscend(H: Cells, n: Node, h: nat, p: Node?, idx: nat, prev: Bound, j: nat)
    requires Typed(H, n, h) && NodeOk(H, n, h, p, idx, prev) && h > 0 && j < |H[n].keys|
    ensures Less(prev, At(H[n].keys[j])) && (j > 0 ==> H[n].keys[j - 1] < H[n].keys[j])
    decreases h - 1, j + 1
  {
    var ks, c := H[n].keys, H[n].edges[j];
    assert TypedEdge(H, c, h - 1) && EdgeOk(H, n, h, j, prev);
    LastKeyAbove(H, c, h - 1, n, j, if j == 0 then prev else At(ks[j - 1]));
    if j > 0 {
      KeysAscend(H, n, h, p, idx, prev, j - 1);
    }
  }

  /** A leaf or internal node that passes has its first key in the range, and an internal node strictly so. */
  ghost predicate Inside(H: Cells, n: Node, lo: Bound, hi: Bound) {
    && n in H && H[n].keys != [] && Less(At(H[n].keys[0]), hi)
    && (if H[n].edges == [] then Below(lo, H[n].keys[0]) else Less(lo, At(H[n].keys[0])))
  }

  ghost predicate AllInside(H: Cells, A: Places, lo: Bound, hi: Bound) {
    forall n {:trigger Inside(H, n, lo, hi)} :: n in A ==> Inside(H, n, lo, hi)
  }

  /** The places `A` of some nodes below `n` are right, and of those only the edges of `n` lack their parents in `A`. */
  ghost predicate Placed(H: Cells, root: Node, A: Places, n: Node, lo: Bound, hi: Bound) {
    && AllLocal(H, A, {}) && AllFill(H, A, root, null) && AllInside(H, A, lo, hi)
    && forall x {:trigger HangsOk(H, A, n, x)} :: x in A ==> HangsOk(H, A, n, x)
  }

  /** `x` is at its place in its parent, which is `n` or has a place in `A`. */
  ghost predicate HangsOk(H: Cells, A: Places, n: Node, x: Node) {
    && n in H && x in H
    && if H[x].parent == n then H[x].parentIdx < |H[n].edges| && H[n].edges[H[x].parentIdx] == x else UpOk(H, A, x)
  }

  /** The range of the leaf at `i` starts where that of the one before it ends, and the first one at `lo`. */
  ghost predicate RowAt(A: Places, ls: seq<Node>, lo: Bound, i: nat)
    requires i < |ls|
  {
    && ls[i] in A && A[ls[i]].height == 0
    && A[ls[i]].lo == (if i == 0 then lo else if ls[i - 1] in A then A[ls[i - 1]].hi else PosInf)
  }

  /** The leaves `ls` are the leaves of `A`, and their ranges fill that between `lo` and `hi`. */
  ghost predicate Row(A: Places, ls: seq<Node>, lo: Bound, hi: Bound) {
    && ls != [] && ls[|ls| - 1] in A && A[ls[|ls| - 1]].hi == hi
    && (forall i {:trigger RowAt(A, ls, lo, i)} :: 0 <= i < |ls| ==> RowAt(A, ls, lo, i))
    && (forall x {:trigger A[x]} :: x in A && A[x].height == 0 ==> x in ls)
  }

  /** More places do not disturb those that are right. */
  lemma LocalGrow(H: Cells, A: Places, B: Places, n: Node)
    requires LocalOk(H, A, n) && forall x {:trigger x in A} :: x in A ==> x in B && B[x] == A[x]
    ensures LocalOk(H, B, n)
  {
    if A[n].height > 0 {
      forall i | 0 <= i < |H[n].edges|
        ensures ChildOk(B, B[n], H[n].keys, H[n].edges, i)
      {
        assert ChildOk(A, A[n], H[n].keys, H[n].edges, i);
      }
    }
  }

  /** Nodes inside ranges that do not meet are distinct. */
  lemma InsideApart(H: Cells, A: Places, B: Places, lo: Bound, mid: Bound, hi: Bound)
    requires AllInside(H, A, lo, mid) && AllInside(H, B, mid, hi)
    ensures A.Keys !! B.Keys
  {
    forall x | x in A
      ensures x !in B
    {
      assert Inside(H, x, lo, mid);
      assert !Inside(H, x, mid, hi);
    }
  }

  lemma InsideWider(H: Cells, A: Places, lo: Bound, hi: Bound, lo1: Bound, hi1: Bound)
    requires AllInside(H, A, lo, hi) && LessEq(lo1, lo) && LessEq(hi, hi1)
    ensures AllInside(H, A, lo1, hi1)
  {
    forall x | x in A
      ensures Inside(H, x, lo1, hi1)
    {
      assert Inside(H, x, lo, hi);
    }
  }

  /** The places below two groups of edges of `n` can be put together. */
  lemma PlacedConcat(H: Cells, root: Node, A: Places, B: Places, n: Node, lo: Bound, mid: Bound, hi: Bound)
    requires Placed(H, root, A, n, lo, mid) && Placed(H, root, B, n, mid, hi) && LessEq(lo, mid) && LessEq(mid, hi)
    ensures A.Keys !! B.Keys && Placed(H, root, A + B, n, lo, hi)
  {
    InsideApart(H, A, B, lo, mid, hi);
    InsideWider(H, A, lo, mid, lo, hi);
    InsideWider(H, B, mid, hi, lo, hi);
    var C := A + B;
    forall x | x in C
      ensures LocalOk(H, C, x) && FillOk(H, root, null, x) && Inside(H, x, lo, hi)
      ensures HangsOk(H, C, n, x)
    {
      if x in A {
        assert LocalOk(H, A, x) && FillOk(H, root, null, x) && Inside(H, x, lo, hi);
        LocalGrow(H, A, C, x);
        assert HangsOk(H, A, n, x);
      } else {
        assert LocalOk(H, B, x) && FillOk(H, root, null, x) && Inside(H, x, lo, hi);
        LocalGrow(H, B, C, x);
        assert HangsOk(H, B, n, x);
      }
    }
  }

  lemma RowConcat(A: Places, B: Places, a: seq<Node>, b: seq<Node>, lo: Bound, mid: Bound, hi: Bound)
    requires Row(A, a, lo, mid) && Row(B, b, mid, hi) && A.Keys !! B.Keys
    ensures Row(A + B, a + b, lo, hi)
  {
    var C, c := A + B, a + b;
    forall i | 0 <= i < |c|
      ensures RowAt(C, c, lo, i)
    {
      if i < |a| {
        assert RowAt(A, a, lo, i) && (i > 0 ==> RowAt(A, a, lo, i - 1));
      } else {
        var k := i - |a|;
        assert RowAt(B, b, mid, k) && (k > 0 ==> RowAt(B, b, mid, k - 1));
      }
    }
    forall x | x in C && C[x].height == 0
      ensures x in c
    {
      if x in A {
        assert A[x].height == 0;
      } else {
        assert B[x].height == 0;
      }
    }
    assert c[|c| - 1] == b[|b| - 1];
  }

  /** The places `A` of `n`, which is at `a`, and of all nodes below it are right. */
  ghost predicate Rooted(H: Cells, root: Node, A: Places, n: Node, a: Place) {
    && n in A && A[n] == a
    && AllLocal(H, A, {}) && AllUp(H, A, {n}) && AllFill(H, A, root, null) && AllInside(H, A, a.lo, a.hi)
  }

  /**
   * The keys of an internal node that passes increase and lie between the last key seen before and any bound on those
   * below it.
   */
  lemma {:induction false} InnerKeys(H: Cells, n: Node, h: nat, p: Node?, idx: nat, prev: Bound, hi: Bound)
    requires Typed(H, n, h) && NodeOk(H, n, h, p, idx, prev) && h > 0 && Less(At(LastKey(H, n, h)), hi)
    ensures Increasing(H[n].keys) && H[n].keys != []
    ensures forall i :: 0 <= i < |H[n].keys| ==> Less(prev, At(H[n].keys[i])) && Less(At(H[n].keys[i]), hi)
  {
    var ks := H[n].keys;
    forall j | 0 <= j < |ks|
      ensures Less(prev, At(ks[j])) && (j > 0 ==> ks[j - 1] < ks[j])
    {
      KeysAscend(H, n, h, p, idx, prev, j);
    }
    AdjacentIncreasing(ks);
    var c := H[n].edges[|ks|];
    assert TypedEdge(H, c, h - 1) && EdgeOk(H, n, h, |ks|, prev);
    LastKeyAbove(H, c, h - 1, n, |ks|, At(ks[|ks| - 1]));
  }

  /** The bounds of the edge at `i` of a node that passes. */
  lemma {:induction false} EdgeBounds(H: Cells, n: Node, h: nat, p: Node?, idx: nat, prev: Bound, hi: Bound, i: nat)
    requires Typed(H, n, h) && NodeOk(H, n, h, p, idx, prev) && h > 0 && Less(At(LastKey(H, n, h)), hi) &&
             i <= |H[n].keys|
    ensures var c, a, ks := H[n].edges[i], Place(h, prev, hi), H[n].keys;
            && TypedEdge(H, c, h - 1) && NodeOk(H, c, h - 1, n, i, LoOf(a, ks, i))
            && Less(At(LastKey(H, c, h - 1)), HiOf(a, ks, i))
  {
    assert TypedEdge(H, H[n].edges[i], h - 1) && EdgeOk(H, n, h, i, prev);
  }

  lemma {:induction false} BuildNode(H: Cells, root: Node, n: Node, h: nat, p: Node?, idx: nat, prev: Bound, hi: Bound)
    returns (A: Places, ls: seq<Node>)
    requires Typed(H, n, h) && NodeOk(H, n, h, p, idx, prev) && Less(At(LastKey(H, n, h)), hi) &&
             (p == null ==> n == root)
    ensures Rooted(H, root, A, n, Place(h, prev, hi))
    ensures ls == LeavesUnder(H, n, h) && Row(A, ls, prev, hi)
    decreases h, 0
  {
    var a := Place(h, prev, hi);
    if h == 0 {
      A, ls := map[n := a], [n];
      AdjacentIncreasing(H[n].keys);
      assert LocalOk(H, A, n) && FillOk(H, root, null, n) && Inside(H, n, prev, hi);
    } else {
      var B;
      assert H[n].edges[0..] == H[n].edges;
      B, ls := BuildEdges(H, root, n, h, p, idx, prev, hi, 0);
      A := B[n := a];
      AddTop(H, root, B, n, h, p, idx, prev, hi);
      AddTopRow(B, ls, prev, hi, n, a);
    }
  }

  lemma AddTopRow(B: Places, ls: seq<Node>, lo: Bound, hi: Bound, n: Node, a: Place)
    requires Row(B, ls, lo, hi) && n !in B && a.height > 0
    ensures Row(B[n := a], ls, lo, hi)
  {
    var A := B[n := a];
    forall i | 0 <= i < |ls|
      ensures RowAt(A, ls, lo, i)
    {
      assert RowAt(B, ls, lo, i) && (i > 0 ==> RowAt(B, ls, lo, i - 1));
    }
    forall x | x in A && A[x].height == 0
      ensures x in ls
    {
      assert x in B && B[x].height == 0;
    }
  }

  lemma {:induction false} AddTop(H: Cells, root: Node, B: Places, n: Node, h: nat, p: Node?, idx: nat, prev: Bound,
                                  hi: Bound)
    requires Typed(H, n, h) && NodeOk(H, n, h, p, idx, prev) && h > 0 && Less(At(LastKey(H, n, h)), hi) &&
             (p == null ==> n == root)
    requires Placed(H, root, B, n, prev, hi) && n !in B
    requires forall j :: 0 <= j < |H[n].edges| ==> ChildOk(B, Place(h, prev, hi), H[n].keys, H[n].edges, j)
    ensures Rooted(H, root, B[n := Place(h, prev, hi)], n, Place(h, prev, hi))
  {
    var a := Place(h, prev, hi);
    var A := B[n := a];
    InnerKeys(H, n, h, p, idx, prev, hi);
    forall j | 0 <= j < |H[n].edges|
      ensures ChildOk(A, a, H[n].keys, H[n].edges, j)
      ensures var c := H[n].edges[j]; c in H && H[c].parent == n && H[c].parentIdx == j
    {
      assert ChildOk(B, a, H[n].keys, H[n].edges, j);
      EdgeBounds(H, n, h, p, idx, prev, hi, j);
    }
    assert LocalOk(H, A, n) && FillOk(H, root, null, n) && Inside(H, n, prev, hi);
    forall x | x in B
      ensures LocalOk(H, A, x) && FillOk(H, root, null, x) && Inside(H, x, prev, hi)
      ensures UpOk(H, A, x)
    {
      assert LocalOk(H, B, x) && FillOk(H, root, null, x) && Inside(H, x, prev, hi);
      LocalGrow(H, B, A, x);
      assert HangsOk(H, B, n, x);
    }
  }

  /** Seen from `n`, what is below its edge `c`, which lies in another range than the keys of `n`, is placed. */
  lemma PlacedEdge(H: Cells, root: Node, A: Places, n: Node, c: Node, i: nat, a: Place)
    requires Rooted(H, root, A, c, a) && c in H && H[c].parent == n && H[c].parentIdx == i
    requires n in H && i < |H[n].edges| && H[n].edges[i] == c && !Inside(H, n, a.lo, a.hi)
    ensures Placed(H, root, A, n, a.lo, a.hi) && n !in A
  {
    forall x | x in A
      ensures HangsOk(H, A, n, x)
    {
      assert LocalOk(H, A, x);
      if x != c {
        assert UpOk(H, A, x);
      }
    }
  }

  /** The same for the edges of `n` from index `i` on. */
  lemma {:induction false} BuildEdges(H: Cells, root: Node, n: Node, h: nat, p: Node?, idx: nat, prev: Bound, hi: Bound,
                                      i: nat)
    returns (A: Places, ls: seq<Node>)
    requires Typed(H, n, h) && NodeOk(H, n, h, p, idx, prev) && Less(At(LastKey(H, n, h)), hi) &&
             (p == null ==> n == root)
    requires h > 0 && i <= |H[n].keys|
    ensures var a, ks, es := Place(h, prev, hi), H[n].keys, H[n].edges;
            && Placed(H, root, A, n, LoOf(a, ks, i), hi) && n !in A
            && (forall j :: i <= j < |es| ==> ChildOk(A, a, ks, es, j))
            && ls == LeavesOfAll(H, es[i..], h - 1) && Row(A, ls, LoOf(a, ks, i), hi)
    decreases h - 1, |H[n].keys| + 1 - i
  {
    var a, ks, es := Place(h, prev, hi), H[n].keys, H[n].edges;
    EdgeBounds(H, n, h, p, idx, prev, hi, i);
    InnerKeys(H, n, h, p, idx, prev, hi);
    var c, lo, mid := es[i], LoOf(a, ks, i), HiOf(a, ks, i);
    A, ls := BuildNode(H, root, c, h - 1, n, i, lo, mid);
    assert !Inside(H, n, lo, mid) && H[c].parent == n && H[c].parentIdx == i;
    hide Typed, NodeOk, Row, Inside, LastKey, LeavesUnder;
    PlacedEdge(H, root, A, n, c, i, Place(h - 1, lo, mid));
    assert ChildOk(A, a, ks, es, i);
    hide Rooted, Placed;
    assert es[i..][0] == es[i] && es[i..][1..] == es[i + 1..];
    if i == |ks| {
      assert LeavesOfAll(H, es[i + 1..], h - 1) == [];
    } else {
      var B, bs := BuildEdges(H, root, n, h, p, idx, prev, hi, i + 1);
      PlacedConcat(H, root, A, B, n, lo, mid, hi);
      RowConcat(A, B, ls, bs, lo, mid, hi);
      forall j | i <= j < |es|
        ensures ChildOk(A + B, a, ks, es, j)
      {
        assert j > i ==> ChildOk(B, a, ks, es, j);
      }
      A, ls := A + B, ls + bs;
    }
  }

  /** Places that follow each other and leaves that are joined make a chain. */
  lemma JoinedChain(H: Cells, A: Places, ls: seq<Node>)
    requires Row(A, ls, NegInf, PosInf) && Joined(H, null, ls)
    requires ls[|ls| - 1] in H && H[ls[|ls| - 1]].next == null
    ensures ChainOk(H, A, ls)
  {
    forall i | 0 <= i < |ls|
      ensures LinkAt(H, A, ls, i)
    {
      assert JoinedAt(H, null, ls, i) && RowAt(A, ls, NegInf, i) && (i > 0 ==> RowAt(A, ls, NegInf, i - 1));
      if i + 1 < |ls| {
        assert JoinedAt(H, null, ls, i + 1);
      }
    }
  }

  /** The nodes below a root that passes form a B+ tree. */
  lemma PassedIsTree(H: Cells, root: Node, h: nat) returns (t: Shape)
    requires Typed(H, root, h) && Passes(H, root, h)
    ensures t.root == root && t.height == h && Wf(H, t, null)
  {
    var A, ls := BuildNode(H, root, root, h, null, 0, NegInf, PosInf);
    JoinedChain(H, A, ls);
    t := Shape(root, h, A, ls);
    forall n | n in A
      ensures n in H
    {
      assert LocalOk(H, A, n);
    }
  }

  lemma ChainJoined(H: Cells, A: Places, ls: seq<Node>)
    requires ChainOk(H, A, ls)
    ensures Joined(H, null, ls) && ls[|ls| - 1] in H && H[ls[|ls| - 1]].next == null
  {
    forall i | 0 <= i < |ls|
      ensures JoinedAt(H, null, ls, i)
    {
      assert LinkAt(H, A, ls, i);
      if i > 0 {
        assert LinkAt(H, A, ls, i - 1);
      }
    }
    assert LinkAt(H, A, ls, |ls| - 1);
  }

  /**
   * For a root with the given number of levels below it, the pass finds no fault exactly when the nodes form a B+
   * tree.
   */
  lemma {:induction false} PassesIffTree(H: Cells, root: Node, h: nat)
    requires Typed(H, root, h)
    ensures Passes(H, root, h) <==> exists t: Shape :: t.root == root && t.height == h && Wf(H, t, null)
  {
    if Passes(H, root, h) {
      var t := PassedIsTree(H, root, h);
    }
    if t: Shape :| t.root == root && t.height == h && Wf(H, t, null) {
      RootAt(H, t, null);
      TreePasses(H, t, root);
      ChainIsLeaves(H, t, null);
      ChainJoined(H, t.places, t.leaves);
    }
  }

  // ---- the pass itself ----

  lemma {:induction false} LeavesConcat(H: Cells, a: seq<Node?>, b: seq<Node?>, h: nat)
    ensures LeavesOfAll(H, a + b, h) == LeavesOfAll(H, a, h) + LeavesOfAll(H, b, h)
  {
    if a == [] {
      assert a + b == b;
    } else {
      assert (a + b)[1..] == a[1..] + b;
      LeavesConcat(H, a[1..], b, h);
    }
  }

  lemma {:induction false} LeavesAddOne(H: Cells, es: seq<Node?>, i: nat, h: nat)
    requires i < |es| && es[i] != null
    ensures LeavesOfAll(H, es[..i + 1], h) == LeavesOfAll(H, es[..i], h) + LeavesUnder(H, es[i], h)
  {
    assert es[..i + 1] == es[..i] + [es[i]] && [es[i]][1..] == [];
    LeavesConcat(H, es[..i], [es[i]], h);
  }

  function LastOf(before: Node?, ls: seq<Node>): Node? {
    if ls == [] then before else ls[|ls| - 1]
  }

  lemma JoinedConcat(H: Cells, before: Node?, a: seq<Node>, b: seq<Node>)
    ensures Joined(H, before, a + b) <==> Joined(H, before, a) && Joined(H, LastOf(before, a), b)
  {
    var c := a + b;
    if Joined(H, before, c) {
      forall i | 0 <= i < |a|
        ensures JoinedAt(H, before, a, i)
      {
        assert JoinedAt(H, before, c, i);
      }
      forall i | 0 <= i < |b|
        ensures JoinedAt(H, LastOf(before, a), b, i)
      {
        assert JoinedAt(H, before, c, |a| + i);
      }
    }
    if Joined(H, before, a) && Joined(H, LastOf(before, a), b) {
      forall i | 0 <= i < |c|
        ensures JoinedAt(H, before, c, i)
      {
        if i < |a| {
          assert JoinedAt(H, before, a, i);
        } else {
          assert JoinedAt(H, LastOf(before, a), b, i - |a|);
        }
      }
    }
  }

  /** What the pass checks of the edge at `i` of `n` and of the key before it. */
  ghost predicate StepOk(H: Cells, n: Node, h: nat, i: nat, prev: Bound)
    requires Typed(H, n, h) && h > 0 && i < |H[n].edges|
  {
    var ks, es := H[n].keys, H[n].edges;
    assert TypedEdge(H, es[i], h - 1);
    && NodeOk(H, es[i], h - 1, n, i, if i == 0 then prev else At(ks[i - 1]))
    && (i > 0 ==> assert TypedEdge(H, es[i - 1], h - 1); Follows(At(LastKey(H, es[i - 1], h - 1)), ks[i - 1], false))
  }

  ghost predicate StepsOk(H: Cells, n: Node, h: nat, upTo: nat, prev: Bound)
    requires Typed(H, n, h) && h > 0 && upTo <= |H[n].edges|
  {
    forall i {:trigger StepOk(H, n, h, i, prev)} :: 0 <= i < upTo ==> StepOk(H, n, h, i, prev)
  }

  /** The fields of `n` itself are right. */
  ghost predicate HeadOk(H: Cells, n: Node, p: Node?, idx: nat)
    requires n in H
  {
    && H[n].parent == p && (p != null ==> H[n].parentIdx == idx)
    && (if p == null then 1 else M / 2) <= |H[n].keys| <= M
  }

  lemma {:induction false} StepsAreEdges(H: Cells, n: Node, h: nat, p: Node?, idx: nat, prev: Bound)
    requires Typed(H, n, h) && h > 0
    ensures HeadOk(H, n, p, idx) && StepsOk(H, n, h, |H[n].edges|, prev) <==> NodeOk(H, n, h, p, idx, prev)
  {
    var ks, es := H[n].keys, H[n].edges;
    if StepsOk(H, n, h, |es|, prev) {
      forall i | 0 <= i < |es|
        ensures EdgeOk(H, n, h, i, prev)
      {
        assert StepOk(H, n, h, i, prev) && (i < |ks| ==> StepOk(H, n, h, i + 1, prev));
      }
    }
    if NodeOk(H, n, h, p, idx, prev) {
      forall i | 0 <= i < |es|
        ensures StepOk(H, n, h, i, prev)
      {
        assert EdgeOk(H, n, h, i, prev) && (i > 0 ==> EdgeOk(H, n, h, i - 1, prev));
      }
    }
  }

  /** Checks that the keys of a leaf increase, the first one from the last key seen before. */
  method ValidateKeys(n: Node, prevKey: Bound) returns (ok: bool, lastKey: Bound)
    requires n.Valid()
    ensures var ks := n.cell.keys;
            && (ok <==> (ks != [] ==> Follows(prevKey, ks[0], true)) && forall i :: 0 < i < |ks| ==> ks[i - 1] < ks[i])
            && lastKey == (if ks == [] then prevKey else At(ks[|ks| - 1]))
  {
    ok, lastKey := true, prevKey;
    ghost var ks := n.cell.keys;
    for i := 0 to n.len
      invariant ok <==> (i > 0 ==> Follows(prevKey, ks[0], true)) && forall j :: 0 < j < i ==> ks[j - 1] < ks[j]
      invariant lastKey == if i == 0 then prevKey else At(ks[i - 1])
    {
      if !Follows(lastKey, n.keys[i], i == 0) {
        ok := false;
      }
      lastKey := At(n.keys[i]);
    }
  }

  /** Checks the fields of `n` itself. */
  method ValidateHead(n: Node, parent: Node?, idx: nat, ghost S: set<Node>) returns (ok: bool)
    requires Arena(S) && n in S
    ensures n in Heap(S) && (ok <==> HeadOk(Heap(S), n, parent, idx))
  {
    n.Known(S);
    var minLen := if parent == null then 1 else M / 2;
    ok := n.parent == parent && (parent != null ==> n.parentIdx == idx) && minLen <= n.len && n.len <= M;
  }

  /**
   * The leaf links that are checked while `n` is: those of the leaves below it, to each other and to the leaf seen
   * before.
   */
  ghost predicate LinksBelow(H: Cells, n: Node, h: nat, before: Node?)
    requires n in H
  {
    if h == 0 then H[n].prev == before else Joined(H, before, LeavesUnder(H, n, h))
  }

  /** The last of the leaves `ls`, and the number of entries in them. */
  ghost predicate Counted(H: Cells, ls: seq<Node>, lastLeaf: Node?, length: nat) {
    ls != [] && lastLeaf == ls[|ls| - 1] && lastLeaf in H && length == |FlatKeys(H, ls)|
  }

  lemma {:induction false} CountedOne(H: Cells, n: Node)
    requires n in H
    ensures LeavesUnder(H, n, 0) == [n] && Counted(H, [n], n, |H[n].keys|)
  {
    assert [n][1..] == [];
  }

  lemma CountedConcat(H: Cells, a: seq<Node>, b: seq<Node>, leaf: Node?, count: nat, last: Node?, more: nat)
    requires (a == [] && count == 0) || Counted(H, a, leaf, count)
    requires Counted(H, b, last, more)
    ensures Counted(H, a + b, last, count + more)
  {
    if a == [] {
      assert a + b == b;
    } else {
      FlatConcat(H, a, b);
      hide FlatKeys;
      assert (a + b)[|a + b| - 1] == b[|b| - 1];
    }
  }

  /** A leaf is joined to the one before it by both of their links. */
  lemma JoinedOne(H: Cells, before: Node?, n: Node)
    requires n in H && (before != null ==> before in H)
    ensures Joined(H, before, [n]) <==> H[n].prev == before && (before != null ==> H[before].next == n)
  {
    assert JoinedAt(H, before, [n], 0) <==> H[n].prev == before && (before != null ==> H[before].next == n);
  }

  lemma {:induction false} LeafOkIff(H: Cells, n: Node, p: Node?, idx: nat, prev: Bound)
    requires Typed(H, n, 0)
    ensures var ks := H[n].keys;
            NodeOk(H, n, 0, p, idx, prev) <==>
            HeadOk(H, n, p, idx) && (ks != [] ==> Follows(prev, ks[0], true)) && forall i :: 0 < i < |ks| ==>
              ks[i - 1] < ks[i]
    ensures H[n].keys != [] ==> LastKey(H, n, 0) == H[n].keys[|H[n].keys| - 1]
  {
  }

  lemma {:induction false} EdgeTyped(H: Cells, n: Node, h: nat, i: nat)
    requires Typed(H, n, h) && h > 0 && i < |H[n].edges|
    ensures TypedEdge(H, H[n].edges[i], h - 1) && |H[n].edges| == |H[n].keys| + 1
  {
  }

  /** The last key below the edge at `i`. */
  ghost function LastBelow(H: Cells, n: Node, h: nat, i: nat): Bound
    requires Typed(H, n, h) && h > 0 && i < |H[n].edges|
  {
    assert TypedEdge(H, H[n].edges[i], h - 1);
    At(LastKey(H, H[n].edges[i], h - 1))
  }

  lemma {:induction false} LastIsBelow(H: Cells, n: Node, h: nat)
    requires Typed(H, n, h) && h > 0
    ensures At(LastKey(H, n, h)) == LastBelow(H, n, h, |H[n].edges| - 1)
  {
  }

  /** What checking the edge at `i` decides, given the last key and the last leaf seen before. */
  ghost predicate TurnOk(H: Cells, n: Node, h: nat, i: nat, prevKey: Bound, prevLeaf: Node?)
    requires Typed(H, n, h) && h > 0 && i < |H[n].edges|
  {
    var ks, c := H[n].keys, H[n].edges[i];
    assert TypedEdge(H, c, h - 1);
    && (i > 0 ==> Follows(prevKey, ks[i - 1], false))
    && NodeOk(H, c, h - 1, n, i, if i == 0 then prevKey else At(ks[i - 1]))
    && Joined(H, prevLeaf, LeavesUnder(H, c, h - 1))
  }

  lemma {:induction false} TurnOkIff(H: Cells, n: Node, h: nat, i: nat, prevKey: Bound, prevLeaf: Node?, child: Node)
    requires Typed(H, n, h) && h > 0 && i < |H[n].edges| && H[n].edges[i] == child && TypedEdge(H, child, h - 1)
    requires prevLeaf != null ==> prevLeaf in H
    ensures i > 0 ==> i - 1 < |H[n].keys|
    ensures var prev := if i == 0 then prevKey else At(H[n].keys[i - 1]);
            TurnOk(H, n, h, i, prevKey, prevLeaf) <==>
            && (i > 0 ==> Follows(prevKey, H[n].keys[i - 1], false))
            && (h == 1 && prevLeaf != null ==> H[prevLeaf].next == child)
            && NodeOk(H, child, h - 1, n, i, prev) && LinksBelow(H, child, h - 1, prevLeaf)
    ensures LastBelow(H, n, h, i) == At(LastKey(H, child, h - 1))
  {
    if h == 1 {
      CountedOne(H, child);
      JoinedOne(H, prevLeaf, child);
    }
    hide NodeOk, Joined, LeavesUnder, LastKey, Follows, Counted;
  }

  /** The state of the pass over the edges of `n` before the one at `i`. */
  ghost predicate Passing(H: Cells, n: Node, h: nat, i: nat, prev: Bound, before: Node?, ok: bool, length: nat,
                          lastKey: Bound, leaf: Node?)
    requires Typed(H, n, h) && h > 0 && i <= |H[n].edges|
  {
    var ls := LeavesOfAll(H, H[n].edges[..i], h - 1);
    && (ok <==> StepsOk(H, n, h, i, prev) && Joined(H, before, ls))
    && (ok ==> lastKey == if i == 0 then prev else LastBelow(H, n, h, i - 1))
    && (if i == 0 then leaf == before && length == 0 else Counted(H, ls, leaf, length))
  }

  lemma {:induction false} PassingStart(H: Cells, n: Node, h: nat, prev: Bound, before: Node?)
    requires Typed(H, n, h) && h > 0
    ensures Passing(H, n, h, 0, prev, before, true, 0, prev, before)
  {
  }

  lemma {:induction false} StepsAdd(H: Cells, n: Node, h: nat, i: nat, prev: Bound)
    requires Typed(H, n, h) && h > 0 && i < |H[n].edges|
    ensures StepsOk(H, n, h, i + 1, prev) <==> StepsOk(H, n, h, i, prev) && StepOk(H, n, h, i, prev)
  {
    hide Typed, StepOk;
  }

  /** With the right last key, what a turn decides is what has to hold of the edge. */
  lemma {:induction false} TurnIsStep(H: Cells, n: Node, h: nat, i: nat, prev: Bound, lastKey: Bound, leaf: Node?)
    requires Typed(H, n, h) && h > 0 && i < |H[n].edges| && H[n].edges[i] != null
    requires lastKey == if i == 0 then prev else LastBelow(H, n, h, i - 1)
    ensures TurnOk(H, n, h, i, lastKey, leaf) <==>
              StepOk(H, n, h, i, prev) && Joined(H, leaf, LeavesUnder(H, H[n].edges[i], h - 1))
  {
    assert TypedEdge(H, H[n].edges[i], h - 1) && (i > 0 ==> TypedEdge(H, H[n].edges[i - 1], h - 1));
    hide NodeOk, Joined, LeavesUnder, LastKey, Follows;
  }

  /** The leaves below one more edge. */
  lemma {:induction false} LeavesTurn(H: Cells, es: seq<Node?>, i: nat, h: nat, before: Node?, leaf: Node?, length: nat,
                                      last: Node?, more: nat)
    requires i < |es| && es[i] != null && Counted(H, LeavesUnder(H, es[i], h), last, more)
    requires if i == 0 then leaf == before && length == 0 else Counted(H, LeavesOfAll(H, es[..i], h), leaf, length)
    ensures Counted(H, LeavesOfAll(H, es[..i + 1], h), last, length + more)
    ensures Joined(H, before, LeavesOfAll(H, es[..i + 1], h)) <==>
            Joined(H, before, LeavesOfAll(H, es[..i], h)) && Joined(H, leaf, LeavesUnder(H, es[i], h))
  {
    LeavesAddOne(H, es, i, h);
    var a, b := LeavesOfAll(H, es[..i], h), LeavesUnder(H, es[i], h);
    assert i == 0 ==> a == [];
    hide LeavesOfAll, LeavesUnder, Joined;
    CountedConcat(H, a, b, leaf, length, last, more);
    JoinedConcat(H, before, a, b);
  }

  lemma {:induction false} PassingStep(H: Cells, n: Node, h: nat, i: nat, prev: Bound, before: Node?, ok: bool,
                                       length: nat, lastKey: Bound, leaf: Node?,
                    turnOk: bool, more: nat, nextKey: Bound, last: Node?)
    requires Typed(H, n, h) && h > 0 && i < |H[n].edges| && Passing(H, n, h, i, prev, before, ok, length, lastKey, leaf)
    requires turnOk <==> TurnOk(H, n, h, i, lastKey, leaf)
    requires turnOk ==> nextKey == LastBelow(H, n, h, i)
    requires H[n].edges[i] != null && Counted(H, LeavesUnder(H, H[n].edges[i], h - 1), last, more)
    ensures Passing(H, n, h, i + 1, prev, before, ok && turnOk, length + more, nextKey, last)
  {
    EdgeTyped(H, n, h, i);
    assert n in H;
    hide LeavesOfAll, LeavesUnder, Counted, Joined, NodeOk, Typed, LastKey, StepsOk, StepOk, TurnOk, LastBelow;
    LeavesTurn(H, H[n].edges, i, h - 1, before, leaf, length, last, more);
    StepsAdd(H, n, h, i, prev);
    if ok {
      TurnIsStep(H, n, h, i, prev, lastKey, leaf);
    }
  }

  lemma {:induction false} PassingEnd(H: Cells, n: Node, h: nat, prev: Bound, before: Node?, ok: bool, length: nat,
                                      lastKey: Bound, leaf: Node?, p: Node?, idx: nat)
    requires Typed(H, n, h) && h > 0 && Passing(H, n, h, |H[n].edges|, prev, before, ok, length, lastKey, leaf)
    ensures ok && HeadOk(H, n, p, idx) <==> NodeOk(H, n, h, p, idx, prev) && LinksBelow(H, n, h, before)
    ensures ok ==> lastKey == At(LastKey(H, n, h))
    ensures Counted(H, LeavesUnder(H, n, h), leaf, length)
  {
    assert H[n].edges[..|H[n].edges|] == H[n].edges;
    assert LeavesUnder(H, n, h) == LeavesOfAll(H, H[n].edges, h - 1);
    StepsAreEdges(H, n, h, p, idx, prev);
    LastIsBelow(H, n, h);
  }

  method ValidateLeaf(n: Node, parent: Node?, idx: nat, prevKey: Bound, prevLeaf: Node?, ghost S: set<Node>)
    returns (ok: bool, length: nat, lastKey: Bound, lastLeaf: Node?)
    requires Arena(S) && Typed(Heap(S), n, 0)
    ensures ok <==> NodeOk(Heap(S), n, 0, parent, idx, prevKey) && LinksBelow(Heap(S), n, 0, prevLeaf)
    ensures ok ==> lastKey == At(LastKey(Heap(S), n, 0))
    ensures Counted(Heap(S), LeavesUnder(Heap(S), n, 0), lastLeaf, length)
  {
    hide Arena, Heap, Node.Valid, NodeOk, LastKey, Counted, LeavesUnder;
    ghost var H := Heap(S);
    HeapKeys(S);
    n.Known(S);
    n.ArenaAt(S);
    var headOk := ValidateHead(n, parent, idx, S);
    var keysOk;
    keysOk, lastKey := ValidateKeys(n, prevKey);
    ok, length, lastLeaf := headOk && keysOk && n.prev == prevLeaf, n.len, n;
    LeafOkIff(H, n, parent, idx, prevKey);
    CountedOne(H, n);
  }

  /**
   * Checks `n` and what is below it, given the last key and the last leaf seen before, and returns the ones seen
   * last.
   */
  method ValidateNode(n: Node, parent: Node?, idx: nat, height: nat, prevKey: Bound, prevLeaf: Node?,
                      ghost S: set<Node>)
    returns (ok: bool, length: nat, lastKey: Bound, lastLeaf: Node?)
    requires Arena(S) && Typed(Heap(S), n, height) && (prevLeaf != null ==> prevLeaf in S)
    ensures ok <==> NodeOk(Heap(S), n, height, parent, idx, prevKey) && LinksBelow(Heap(S), n, height, prevLeaf)
    ensures ok ==> lastKey == At(LastKey(Heap(S), n, height))
    ensures Counted(Heap(S), LeavesUnder(Heap(S), n, height), lastLeaf, length)
    decreases height, 3
  {
    ghost var H := Heap(S);
    HeapKeys(S);
    n.Known(S);
    hide Arena, Heap, Typed, NodeOk, LinksBelow, LastKey, Counted, LeavesUnder, Passing, HeadOk;
    if height == 0 {
      ok, length, lastKey, lastLeaf := ValidateLeaf(n, parent, idx, prevKey, prevLeaf, S);
    } else {
      var headOk := ValidateHead(n, parent, idx, S);
      var edgesOk;
      edgesOk, length, lastKey, lastLeaf := ValidateEdges(n, height, prevKey, prevLeaf, S);
      PassingEnd(H, n, height, prevKey, prevLeaf, edgesOk, length, lastKey, lastLeaf, parent, idx);
      ok := headOk && edgesOk;
    }
  }

  /** Checks what is below the edges of `n`, from left to right, and the keys between them. */
  method ValidateEdges(n: Node, height: nat, prevKey: Bound, prevLeaf: Node?, ghost S: set<Node>)
    returns (ok: bool, length: nat, lastKey: Bound, lastLeaf: Node?)
    requires Arena(S) && Typed(Heap(S), n, height) && height > 0 && (prevLeaf != null ==> prevLeaf in S)
    ensures Passing(Heap(S), n, height, |Heap(S)[n].edges|, prevKey, prevLeaf, ok, length, lastKey, lastLeaf)
    decreases height, 2
  {
    ghost var H := Heap(S);
    HeapKeys(S);
    n.Known(S);
    EdgeTyped(H, n, height, 0);
    PassingStart(H, n, height, prevKey, prevLeaf);
    hide Arena, Heap, Typed, NodeOk, LastKey, Counted, LeavesUnder, Passing, TurnOk, LastBelow;
    ok, length, lastKey, lastLeaf := true, 0, prevKey, prevLeaf;
    for i := 0 to n.len + 1
      invariant Passing(H, n, height, i, prevKey, prevLeaf, ok, length, lastKey, lastLeaf)
      invariant lastLeaf != null ==> lastLeaf in S
    {
      ok, length, lastKey, lastLeaf := ValidateTurn(n, height, i, prevKey, prevLeaf, ok, length, lastKey, lastLeaf, S);
    }
  }

  /** Checks the key before the edge at `i` of `n`, and what is below that edge. */
  method ValidateEdge(n: Node, height: nat, i: nat, prevKey: Bound, prevLeaf: Node?, ghost S: set<Node>)
    returns (ok: bool, length: nat, lastKey: Bound, lastLeaf: Node?)
    requires Arena(S) && Typed(Heap(S), n, height) && height > 0 && (prevLeaf != null ==> prevLeaf in S)
    requires i < |Heap(S)[n].edges| && Heap(S)[n].edges[i] != null
    ensures ok <==> TurnOk(Heap(S), n, height, i, prevKey, prevLeaf)
    ensures ok ==> lastKey == LastBelow(Heap(S), n, height, i)
    ensures Counted(Heap(S), LeavesUnder(Heap(S), Heap(S)[n].edges[i], height - 1), lastLeaf, length)
    ensures lastLeaf in S
    decreases height, 0
  {
    ghost var H := Heap(S);
    HeapKeys(S);
    n.Known(S);
    n.ArenaAt(S);
    EdgeTyped(H, n, height, i);
    var child := n.edges[i];
    assert child == H[n].edges[i];
    var keyOk, prev := true, prevKey;
    if i > 0 {
      keyOk, prev := Follows(prevKey, n.keys[i - 1], false), At(n.keys[i - 1]);
      assert H[n].keys[i - 1] == n.keys[i - 1];
    }
    var linkOk := true;
    if height == 1 && prevLeaf != null {
      prevLeaf.Known(S);
      linkOk := prevLeaf.next == child;
    }
    hide Arena, Heap, Typed, NodeOk, LastKey, LinksBelow, Counted, LeavesUnder, TurnOk, LastBelow, Follows;
    TurnOkIff(H, n, height, i, prevKey, prevLeaf, child);
    var childOk;
    childOk, length, lastKey, lastLeaf := ValidateNode(child, n, i, height - 1, prev, prevLeaf, S);
    ok := keyOk && linkOk && childOk;
    assert lastLeaf in S by { InHeap(S, LeavesUnder(H, child, height - 1), lastLeaf, length); }
  }

  lemma InHeap(S: set<Node>, ls: seq<Node>, lastLeaf: Node?, length: nat)
    requires Counted(Heap(S), ls, lastLeaf, length)
    ensures lastLeaf in S
  {
  }

  /** One turn of the loop over the edges. */
  method ValidateTurn(n: Node, height: nat, i: nat, ghost prev: Bound, ghost before: Node?,
                      okBefore: bool, lengthBefore: nat, prevKey: Bound, prevLeaf: Node?, ghost S: set<Node>)
    returns (ok: bool, length: nat, lastKey: Bound, lastLeaf: Node?)
    requires Arena(S) && Typed(Heap(S), n, height) && height > 0 && i < |Heap(S)[n].edges| &&
             (prevLeaf != null ==> prevLeaf in S)
    requires Passing(Heap(S), n, height, i, prev, before, okBefore, lengthBefore, prevKey, prevLeaf)
    ensures Passing(Heap(S), n, height, i + 1, prev, before, ok, length, lastKey, lastLeaf) && lastLeaf in S
    decreases height, 1
  {
    ghost var H := Heap(S);
    EdgeTyped(H, n, height, i);
    hide *;
    var turnOk, more;
    turnOk, more, lastKey, lastLeaf := ValidateEdge(n, height, i, prevKey, prevLeaf, S);
    PassingStep(H, n, height, i, prev, before, okBefore, lengthBefore, prevKey, prevLeaf, turnOk, more, lastKey,
      lastLeaf);
    ok, length := okBefore && turnOk, lengthBefore + more;
  }

  /** `t` is a B+ tree with these fields that holds as many entries as they say. */
  ghost predicate TreeOf(H: Cells, t: Shape, root: Node, height: nat, length: nat) {
    t.root == root && t.height == height && Wf(H, t, null) && |FlatKeys(H, t.leaves)| == length
  }

  lemma {:induction false} CountedIffMap(H: Cells, root: Node, height: nat, length: nat)
    requires Typed(H, root, height)
    ensures Passes(H, root, height) && |FlatKeys(H, LeavesUnder(H, root, height))| == length <==>
            exists t: Shape :: TreeOf(H, t, root, height, length)
  {
    PassesIffTree(H, root, height);
    if t: Shape :| t.root == root && t.height == height && Wf(H, t, null) {
      ChainIsLeaves(H, t, null);
      assert Passes(H, root, height) && |FlatKeys(H, LeavesUnder(H, root, height))| == length ==>
             TreeOf(H, t, root, height, length);
    }
    if t: Shape :| TreeOf(H, t, root, height, length) {
      ChainIsLeaves(H, t, null);
    }
  }

  /** Decides whether a map with these fields is as it should be. */
  method Validate(root: Node?, height: nat, length: nat, ghost S: set<Node>) returns (ok: bool)
    requires Arena(S) && (root != null ==> Typed(Heap(S), root, height))
    ensures ok <==> root == null || exists t: Shape :: TreeOf(Heap(S), t, root, height, length)
  {
    if root == null {
      return true;
    }
    var count, lastKey, lastLeaf;
    ok, count, lastKey, lastLeaf := ValidateNode(root, null, 0, height, NegInf, null, S);
    hide Arena, Heap, Typed, NodeOk, LeavesUnder, LinksBelow, TreeOf, LastKey;
    Verdict(Heap(S), root, height, length, ok, count, lastLeaf);
    HeapKeys(S);
    lastLeaf.Known(S);
    ok := ok && count == length && lastLeaf.next == null;
  }

  lemma {:induction false} Verdict(H: Cells, root: Node, height: nat, length: nat, ok: bool, count: nat,
                                   lastLeaf: Node?)
    requires Typed(H, root, height) && Counted(H, LeavesUnder(H, root, height), lastLeaf, count)
    requires ok <==> NodeOk(H, root, height, null, 0, NegInf) && LinksBelow(H, root, height, null)
    ensures lastLeaf != null && lastLeaf in H
    ensures ok && count == length && H[lastLeaf].next == null <==> exists t: Shape :: TreeOf(H, t, root, height, length)
  {
    CountedIffMap(H, root, height, length);
    if height == 0 {
      CountedOne(H, root);
      JoinedOne(H, null, root);
    }
    hide Typed, NodeOk, LeavesUnder, TreeOf, Joined, LastKey;
  }

  /** The fields of every valid map are accepted. */
  lemma MapPasses(m: Maps.BTreeMap)
    requires m.Valid()
    ensures m.root != null ==>
              var H := Heap(m.store.nodes);
              Typed(H, m.root, m.height) && TreeOf(H, m.Tree(), m.root, m.height, m.length)
  {
    if m.root != null {
      RootAt(Heap(m.store.nodes), m.Tree(), null);
      TreePasses(Heap(m.store.nodes), m.Tree(), m.root);
    }
  }

  /** A map that is not in shape after it has been cleared is accepted all the same, because it has no root. */
  method ClearedPasses(store: Store) returns (tree: Maps.BTreeMap, ok: bool)
    requires store.Valid()
    modifies store`nodes, store`buffers, store`edgeBuffers, store`allocs, store`freed, store.nodes, store.buffers,
             store.edgeBuffers
    ensures fresh(tree) && !tree.Valid() && ok
  {
    hide Arena, Heap, Node.Valid, Store.Valid, Maps.BTreeMap.Valid, Typed, TreeOf;
    tree := Runs.ClearTall(store);
    ghost var none: set<Node> := {};
    assert Arena(none) by { NoneLive(); }
    ok := Validate(tree.root, tree.height, tree.length, none);
  }

  lemma NoneLive()
    ensures Arena({})
  {
  }
}
