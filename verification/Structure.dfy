/** What is reachable from the root of a B+ tree, and how much it holds. */
module Structure {
  import opened Seqs
  import opened Nodes
  import opened Trees
  import opened Contents
  import opened Removal

  // ---- the leaves, going down from the root ----

  /** The leaves below `n`, which is `h` levels above them, from left to right. */
  ghost function LeavesUnder(H: Cells, n: Node, h: nat): seq<Node>
    decreases h, 0
  {
    if h == 0 || n !in H then [n] else LeavesOfAll(H, H[n].edges, h - 1)
  }

  ghost function LeavesOfAll(H: Cells, es: seq<Node?>, h: nat): seq<Node>
    decreases h, |es| + 1
  {
    if es == [] then [] else (if es[0] == null then [] else LeavesUnder(H, es[0], h)) + LeavesOfAll(H, es[1..], h)
  }

  /** `part` is a run of leaves, from index `a` to before `b` of the chain, with the bounds `lo` and `hi`. */
  ghost predicate IsRun(A: Places, ls: seq<Node>, part: seq<Node>, a: nat, b: nat, lo: Bound, hi: Bound) {
    && a < b <= |ls| && part == ls[a..b] && ls[a] in A && ls[b - 1] in A && A[ls[a]].lo == lo && A[ls[b - 1]].hi == hi
    && A[ls[a]].height == A[ls[b - 1]].height == 0
  }

  /** The leaves below a node are a run of the chain with the bounds of the node. */
  lemma {:induction false} LeavesAreRun(H: Cells, t: Shape, hole: Node?, n: Node) returns (a: nat, b: nat)
    requires Wf(H, t, hole) && n in t.places
    ensures IsRun(t.places, t.leaves, LeavesUnder(H, n, t.places[n].height), a, b, t.places[n].lo, t.places[n].hi)
    decreases t.places[n].height, 0
  {
    RootAt(H, t, hole);
    if t.places[n].height == 0 {
      a := LeafIndex(H, t, hole, n);
      b := a + 1;
      assert t.leaves[a..b] == [n];
    } else {
      LocalAt(H, t, hole, n);
      assert H[n].edges[0..] == H[n].edges;
      a, b := EdgesAreRun(H, t, hole, n, 0);
    }
  }

  lemma LeafIndex(H: Cells, t: Shape, hole: Node?, n: Node) returns (q: nat)
    requires Wf(H, t, hole) && n in t.places && t.places[n].height == 0
    ensures q < |t.leaves| && t.leaves[q] == n
  {
    q :| 0 <= q < |t.leaves| && t.leaves[q] == n;
  }

  /** So are the leaves below the edges from index `i` on. */
  lemma {:induction false} EdgesAreRun(H: Cells, t: Shape, hole: Node?, n: Node, i: nat) returns (a: nat, b: nat)
    requires Wf(H, t, hole) && n in t.places && n in H && t.places[n].height > 0 && i <= |H[n].keys| &&
             |H[n].edges| == |H[n].keys| + 1
    ensures IsRun(t.places, t.leaves, LeavesOfAll(H, H[n].edges[i..], t.places[n].height - 1), a, b,
                  LoOf(t.places[n], H[n].keys, i), t.places[n].hi)
    decreases t.places[n].height - 1, |H[n].edges| - i
  {
    hide Wf, LocalOk, FillOk, LeavesUnder;
    var A, ls, es, h := t.places, t.leaves, H[n].edges, t.places[n].height - 1;
    Child(H, t, hole, n, i);
    a, b := LeavesAreRun(H, t, hole, es[i]);
    assert es[i..][0] == es[i] && es[i..][1..] == es[i + 1..];
    if i == |H[n].keys| {
      assert LeavesOfAll(H, es[i + 1..], h) == [];
      assert LeavesOfAll(H, es[i..], h) == LeavesUnder(H, es[i], h);
    } else {
      var c, d := EdgesAreRun(H, t, hole, n, i + 1);
      RunsMeet(H, t, hole, b - 1, c);
      assert ls[a..b] + ls[c..d] == ls[a..d];
      b := d;
    }
  }

  lemma RunsMeet(H: Cells, t: Shape, hole: Node?, i: nat, j: nat)
    requires Wf(H, t, hole) && i < |t.leaves| && j < |t.leaves| && t.leaves[i] in t.places && t.leaves[j] in t.places
    requires t.places[t.leaves[i]].height == t.places[t.leaves[j]].height == 0
    requires t.places[t.leaves[i]].hi == t.places[t.leaves[j]].lo
    ensures j == i + 1
  {
    var k := Neighbours(H, t.places, t.leaves, t.leaves[i], t.leaves[j]);
    ChainDistinct(H, t.places, t.leaves);
  }

  /** The chain visits exactly the leaves of the tree, from left to right. */
  lemma {:induction false} ChainIsLeaves(H: Cells, t: Shape, hole: Node?)
    requires Wf(H, t, hole)
    ensures LeavesUnder(H, t.root, t.height) == t.leaves
  {
    RootAt(H, t, hole);
    var a, b := LeavesAreRun(H, t, hole, t.root);
    var l := |t.leaves| - 1;
    assert LinkAt(H, t.places, t.leaves, l) && LocalOk(H, t.places, t.leaves[l]);
    if a > 0 {
      ChainOrder(H, t.places, t.leaves, 0, a);
      assert false;
    }
    if b - 1 < l {
      ChainOrder(H, t.places, t.leaves, b - 1, l);
      assert false;
    }
    assert t.leaves[0..|t.leaves|] == t.leaves;
  }

  // ---- all nodes, children before parents ----

  ghost function PostOrder(H: Cells, n: Node, h: nat): seq<Node>
    decreases h, 0
  {
    if h == 0 || n !in H then [n] else PostOrderAll(H, H[n].edges, h - 1) + [n]
  }

  ghost function PostOrderAll(H: Cells, es: seq<Node?>, h: nat): seq<Node>
    decreases h, |es| + 1
  {
    if es == [] then [] else (if es[0] == null then [] else PostOrder(H, es[0], h)) + PostOrderAll(H, es[1..], h)
  }

  /** `x` is below the bounds and the height of a place. */
  ghost predicate Within(A: Places, x: Node, h: nat, lo: Bound, hi: Bound) {
    x in A && A[x].height <= h && LessEq(lo, A[x].lo) && LessEq(A[x].hi, hi) && Less(A[x].lo, A[x].hi)
  }

  /** Every node of `s` has the parent `up` or has its parent later in `s`. */
  ghost predicate ParentsLater(H: Cells, s: seq<Node>, up: Node?) {
    forall i {:trigger s[i]} :: 0 <= i < |s| ==> s[i] in H && (H[s[i]].parent == up || ParentFrom(H, s, i))
  }

  ghost predicate ParentFrom(H: Cells, s: seq<Node>, i: nat)
    requires i < |s| && s[i] in H
  {
    exists j :: i < j < |s| && s[j] == H[s[i]].parent
  }

  ghost predicate AllWithin(A: Places, s: seq<Node>, h: nat, lo: Bound, hi: Bound) {
    forall i {:trigger s[i]} :: 0 <= i < |s| ==> Within(A, s[i], h, lo, hi)
  }

  lemma ParentsLaterConcat(H: Cells, a: seq<Node>, b: seq<Node>, up: Node?)
    requires ParentsLater(H, a, up) && ParentsLater(H, b, up)
    ensures ParentsLater(H, a + b, up)
  {
    forall i | 0 <= i < |a + b|
      ensures (a + b)[i] in H && (H[(a + b)[i]].parent == up || ParentFrom(H, a + b, i))
    {
      if i < |a| && H[a[i]].parent != up {
        var j :| i < j < |a| && a[j] == H[a[i]].parent;
        assert (a + b)[j] == H[(a + b)[i]].parent;
      } else if |a| <= i && H[b[i - |a|]].parent != up {
        assert ParentFrom(H, b, i - |a|);
        var j :| i - |a| < j < |b| && b[j] == H[b[i - |a|]].parent;
        assert (a + b)[|a| + j] == H[(a + b)[i]].parent;
      }
    }
  }

  lemma ParentsLaterTop(H: Cells, s: seq<Node>, n: Node)
    requires ParentsLater(H, s, n) && n in H
    ensures ParentsLater(H, s + [n], H[n].parent)
  {
    var r := s + [n];
    forall i | 0 <= i < |r|
      ensures r[i] in H && (H[r[i]].parent == H[n].parent || ParentFrom(H, r, i))
    {
      if i < |s| {
        if H[s[i]].parent == n {
          assert r[|s|] == H[r[i]].parent;
        } else {
          var j :| i < j < |s| && s[j] == H[s[i]].parent;
          assert r[j] == H[r[i]].parent;
        }
      }
    }
  }

  lemma WithinWider(A: Places, s: seq<Node>, h: nat, lo: Bound, hi: Bound, k: nat, lo1: Bound, hi1: Bound)
    requires AllWithin(A, s, h, lo, hi) && h <= k && LessEq(lo1, lo) && LessEq(hi, hi1)
    ensures AllWithin(A, s, k, lo1, hi1)
  {
  }

  /** Nodes on both sides of a bound are distinct. */
  lemma DistinctSides(A: Places, a: seq<Node>, b: seq<Node>, h: nat, lo: Bound, mid: Bound, hi: Bound)
    requires AllWithin(A, a, h, lo, mid) && AllWithin(A, b, h, mid, hi) && Distinct(a) && Distinct(b)
    ensures Distinct(a + b)
  {
    forall i, j | 0 <= i < |a| && 0 <= j < |b|
      ensures a[i] != b[j]
    {
      assert Within(A, a[i], h, lo, mid) && Within(A, b[j], h, mid, hi);
    }
  }

  /** The nodes below `n` are distinct, lie within the place of `n`, and each comes before its parent. */
  lemma {:induction false} PostOrderOk(H: Cells, t: Shape, hole: Node?, n: Node)
    requires Wf(H, t, hole) && n in t.places
    ensures n in H && PostOrder(H, n, t.places[n].height) != []
    ensures var s, a := PostOrder(H, n, t.places[n].height), t.places[n];
            Distinct(s) && AllWithin(t.places, s, a.height, a.lo, a.hi) && ParentsLater(H, s, H[n].parent)
    decreases t.places[n].height, 0
  {
    RootAt(H, t, hole);
    PlaceNotEmpty(H, t, hole, n);
    var a := t.places[n];
    if a.height > 0 {
      assert H[n].edges[0..] == H[n].edges;
      LocalAt(H, t, hole, n);
      PostOrderEdges(H, t, hole, n, 0);
      hide Wf, LocalOk, PostOrderAll;
      var s := PostOrderAll(H, H[n].edges, a.height - 1);
      ParentsLaterTop(H, s, n);
      WithinWider(t.places, s, a.height - 1, a.lo, a.hi, a.height, a.lo, a.hi);
      PlaceAfter(t.places, s, a.height - 1, a.lo, a.hi, n);
    }
  }

  lemma PlaceNotEmpty(H: Cells, t: Shape, hole: Node?, n: Node)
    requires Wf(H, t, hole) && n in t.places
    ensures Less(t.places[n].lo, t.places[n].hi)
  {
    LocalAt(H, t, hole, n);
  }

  /** A node is not one of those that lie below it. */
  lemma PlaceAfter(A: Places, s: seq<Node>, h: nat, lo: Bound, hi: Bound, n: Node)
    requires AllWithin(A, s, h, lo, hi) && Distinct(s) && n in A && h < A[n].height
    ensures Distinct(s + [n])
  {
    forall i | 0 <= i < |s|
      ensures s[i] != n
    {
      assert Within(A, s[i], h, lo, hi);
    }
  }

  /** The same for the nodes below the edges of `n` from index `i` on. */
  lemma {:induction false} PostOrderEdges(H: Cells, t: Shape, hole: Node?, n: Node, i: nat)
    requires Wf(H, t, hole) && n in t.places && n in H && t.places[n].height > 0 && i <= |H[n].keys| &&
             |H[n].edges| == |H[n].keys| + 1
    ensures var s, a := PostOrderAll(H, H[n].edges[i..], t.places[n].height - 1), t.places[n];
            Distinct(s) && AllWithin(t.places, s, a.height - 1, LoOf(a, H[n].keys, i), a.hi) && ParentsLater(H, s, n)
    decreases t.places[n].height - 1, |H[n].edges| - i
  {
    var es, h, a := H[n].edges, t.places[n].height - 1, t.places[n];
    LocalAt(H, t, hole, n);
    Child(H, t, hole, n, i);
    PostOrderOk(H, t, hole, es[i]);
    assert es[i..][0] == es[i] && es[i..][1..] == es[i + 1..];
    var s := PostOrder(H, es[i], h);
    if i == |H[n].keys| {
      hide Wf, LocalOk, PostOrder;
      assert PostOrderAll(H, es[i + 1..], h) == [];
      assert PostOrderAll(H, es[i..], h) == s;
    } else {
      PostOrderEdges(H, t, hole, n, i + 1);
      var r := PostOrderAll(H, es[i + 1..], h);
      PlaceNotEmpty(H, t, hole, es[i]);
      var lo, mid := LoOf(a, H[n].keys, i), LoOf(a, H[n].keys, i + 1);
      assert mid == At(H[n].keys[i]) && LessEq(lo, mid) && LessEq(mid, a.hi);
      hide Wf, LocalOk, PostOrder;
      assert PostOrderAll(H, es[i..], h) == s + r;
      ParentsLaterConcat(H, s, r, n);
      DistinctSides(t.places, s, r, h, lo, mid, a.hi);
      WithinWider(t.places, s, h, lo, mid, h, lo, a.hi);
      WithinWider(t.places, r, h, mid, a.hi, h, lo, a.hi);
    }
  }

  lemma {:induction false} PostOrderConcat(H: Cells, a: seq<Node?>, b: seq<Node?>, h: nat)
    ensures PostOrderAll(H, a + b, h) == PostOrderAll(H, a, h) + PostOrderAll(H, b, h)
  {
    if a == [] {
      assert a + b == b;
    } else {
      assert (a + b)[1..] == a[1..] + b;
      PostOrderConcat(H, a[1..], b, h);
    }
  }

  /** The nodes below the edges up to the one at `i`, below it, and below the later ones. */
  lemma {:induction false} PostOrderAt(H: Cells, es: seq<Node?>, i: nat, h: nat)
    requires i < |es| && es[i] != null
    ensures PostOrderAll(H, es[..i + 1], h) == PostOrderAll(H, es[..i], h) + PostOrder(H, es[i], h)
    ensures PostOrderAll(H, es[i..], h) == PostOrder(H, es[i], h) + PostOrderAll(H, es[i + 1..], h)
    ensures PostOrderAll(H, es, h) == PostOrderAll(H, es[..i], h) + PostOrderAll(H, es[i..], h)
  {
    assert es[..i + 1] == es[..i] + [es[i]] && es[i..] == [es[i]] + es[i + 1..] && es == es[..i] + es[i..];
    PostOrderConcat(H, es[..i], [es[i]], h);
    PostOrderConcat(H, [es[i]], es[i + 1..], h);
    PostOrderConcat(H, es[..i], es[i..], h);
    assert [es[i]][1..] == [];
    assert PostOrderAll(H, [es[i]], h) == PostOrder(H, es[i], h);
  }

  // ---- every node of the tree is reached ----

  lemma {:induction false} InAll(H: Cells, es: seq<Node?>, h: nat, i: nat, x: Node)
    requires i < |es| && es[i] != null && x in PostOrder(H, es[i], h)
    ensures x in PostOrderAll(H, es, h)
  {
    if i > 0 {
      InAll(H, es[1..], h, i - 1, x);
    }
  }

  lemma {:induction false} FromAll(H: Cells, es: seq<Node?>, h: nat, x: Node) returns (i: nat)
    requires x in PostOrderAll(H, es, h)
    ensures i < |es| && es[i] != null && x in PostOrder(H, es[i], h)
  {
    if es[0] != null && x in PostOrder(H, es[0], h) {
      i := 0;
    } else {
      i := FromAll(H, es[1..], h, x);
      i := i + 1;
    }
  }

  /** With a node its children are reached. */
  lemma {:induction false} ReachedBelow(H: Cells, t: Shape, hole: Node?, n: Node, p: Node, c: Node)
    requires Wf(H, t, hole) && n in t.places && c in t.places && c in H && c != t.root && H[c].parent == p
    requires p in PostOrder(H, n, t.places[n].height)
    ensures c in PostOrder(H, n, t.places[n].height)
    decreases t.places[n].height
  {
    hide Wf, LocalOk, PostOrderAll;
    RootAt(H, t, hole);
    Parent(H, t, hole, c);
    var h := t.places[n].height;
    if p == n {
      PostOrderOk(H, t, hole, c);
      InAll(H, H[n].edges, h - 1, H[c].parentIdx, c);
    } else {
      var i := FromAll(H, H[n].edges, h - 1, p);
      Kid(H, t, hole, n, i);
      ReachedBelow(H, t, hole, H[n].edges[i], p, c);
      InAll(H, H[n].edges, h - 1, i, c);
    }
  }

  lemma Kid(H: Cells, t: Shape, hole: Node?, n: Node, i: nat)
    requires Wf(H, t, hole) && n in t.places && n in H && t.places[n].height > 0 && i < |H[n].edges|
    ensures H[n].edges[i] != null && H[n].edges[i] in t.places &&
            t.places[H[n].edges[i]].height + 1 == t.places[n].height
  {
    LocalAt(H, t, hole, n);
    Child(H, t, hole, n, i);
  }

  lemma {:induction false} Reached(H: Cells, t: Shape, hole: Node?, x: Node)
    requires Wf(H, t, hole) && x in t.places
    ensures x in PostOrder(H, t.root, t.height)
    decreases t.height + 1 - t.places[x].height
  {
    HeightBound(H, t, hole, x);
    RootAt(H, t, hole);
    if x != t.root {
      Parent(H, t, hole, x);
      HeightBound(H, t, hole, H[x].parent);
      Reached(H, t, hole, H[x].parent);
      hide Wf, LocalOk;
      ReachedBelow(H, t, hole, t.root, H[x].parent, x);
    }
  }

  /** Going down from the root one comes to every node of the tree once, and to each one before its parent. */
  lemma {:induction false} TreeIsPostOrder(H: Cells, t: Shape, hole: Node?)
    requires Wf(H, t, hole)
    ensures var s := PostOrder(H, t.root, t.height);
            && Distinct(s) && ParentsLater(H, s, null)
            && forall x: Node :: x in s <==> x in t.places
  {
    RootAt(H, t, hole);
    PostOrderOk(H, t, hole, t.root);
    hide Wf, PostOrder;
    var s := PostOrder(H, t.root, t.height);
    forall x: Node
      ensures x in s <==> x in t.places
    {
      if x in t.places { Reached(H, t, hole, x); }
      if x in s {
        var i :| 0 <= i < |s| && s[i] == x;
        assert Within(t.places, s[i], t.height, NegInf, PosInf);
      }
    }
  }

  /** No node is at two edges. */
  lemma OneEdge(H: Cells, t: Shape, hole: Node?, p: Node, i: nat, q: Node, j: nat)
    requires Wf(H, t, hole) && p in t.places && q in t.places && p in H && q in H && i < |H[p].edges| &&
             j < |H[q].edges|
    requires H[p].edges[i] == H[q].edges[j]
    ensures p == q && i == j
  {
    LocalAt(H, t, hole, p);
    LocalAt(H, t, hole, q);
  }

  // ---- how much a tree of a given height holds ----

  ghost function Pow(b: nat, e: nat): (r: nat)
    ensures b > 0 ==> r > 0
  {
    if e == 0 then 1 else b * Pow(b, e - 1)
  }

  /** The number of entries below `n`. */
  ghost function SizeUnder(H: Cells, n: Node, h: nat): nat {
    |FlatKeys(H, LeavesUnder(H, n, h))|
  }

  lemma {:induction false} PowZero(b: nat)
    ensures Pow(b, 0) == 1
  {
  }

  lemma {:induction false} PowStep(a: nat, b: nat, e: nat)
    requires e > 0
    ensures a * Pow(b, e) == b * (a * Pow(b, e - 1))
  {
  }

  lemma {:induction false} SizeBounds(H: Cells, t: Shape, n: Node)
    requires Wf(H, t, null) && n in t.places
    ensures SizeUnder(H, n, t.places[n].height) <= M * Pow(M + 1, t.places[n].height)
    ensures n != t.root ==> M / 2 * Pow(M / 2 + 1, t.places[n].height) <= SizeUnder(H, n, t.places[n].height)
    ensures n == t.root && t.height > 0 ==> M * Pow(M / 2 + 1, t.height - 1) <= SizeUnder(H, n, t.height)
    decreases t.places[n].height, 0
  {
    hide Pow;
    RootAt(H, t, null);
    LocalAt(H, t, null, n);
    var h := t.places[n].height;
    if h == 0 {
      PowZero(M + 1);
      PowZero(M / 2 + 1);
      FlatSplit(H, [n], 0);
      assert FlatKeys(H, LeavesUnder(H, n, 0)) == H[n].keys;
    } else {
      assert H[n].edges[0..] == H[n].edges;
      EdgesSize(H, t, n, 0);
      PowStep(M, M + 1, h);
      PowStep(M / 2, M / 2 + 1, h);
      hide FlatKeys, LeavesOfAll, LocalOk;
      var k, x, y := |H[n].edges|, M / 2 * Pow(M / 2 + 1, h - 1), M * Pow(M + 1, h - 1);
      Times(k, M + 1, y);
      if n != t.root {
        Times(M / 2 + 1, k, x);
      } else {
        Times(2, k, x);
      }
    }
  }

  ghost function Copies(k: nat, x: nat): nat {
    k * x
  }

  lemma OneMore(k: nat, x: nat, y: nat, s: nat, r: nat)
    requires x <= s <= y && Copies(k, x) <= r <= Copies(k, y)
    ensures Copies(k + 1, x) <= s + r <= Copies(k + 1, y)
  {
  }

  lemma OneCopy(x: nat)
    ensures Copies(1, x) == x
  {
  }

  lemma Times(j: nat, k: nat, x: nat)
    requires j <= k
    ensures j * x <= k * x
  {
  }

  lemma {:induction false} EdgesSize(H: Cells, t: Shape, n: Node, i: nat)
    requires Wf(H, t, null) && n in t.places && n in H && t.places[n].height > 0 && i < |H[n].edges| == |H[n].keys| + 1
    ensures var h, k := t.places[n].height - 1, |H[n].edges| - i;
            var s := |FlatKeys(H, LeavesOfAll(H, H[n].edges[i..], h))|;
            Copies(k, M / 2 * Pow(M / 2 + 1, h)) <= s <= Copies(k, M * Pow(M + 1, h))
    decreases t.places[n].height - 1, |H[n].edges| - i
  {
    hide Wf, LocalOk, FillOk, Pow, Copies;
    var es, h, k := H[n].edges, t.places[n].height - 1, |H[n].edges| - i;
    Child(H, t, null, n, i);
    SizeBounds(H, t, es[i]);
    assert es[i..][0] == es[i] && es[i..][1..] == es[i + 1..];
    var x, y := M / 2 * Pow(M / 2 + 1, h), M * Pow(M + 1, h);
    if i + 1 == |es| {
      OneCopy(x);
      OneCopy(y);
      assert LeavesOfAll(H, es[i + 1..], h) == [];
      assert LeavesOfAll(H, es[i..], h) == LeavesUnder(H, es[i], h);
    } else {
      EdgesSize(H, t, n, i + 1);
      FlatConcat(H, LeavesUnder(H, es[i], h), LeavesOfAll(H, es[i + 1..], h));
      OneMore(k - 1, x, y, |FlatKeys(H, LeavesUnder(H, es[i], h))|, |FlatKeys(H, LeavesOfAll(H, es[i + 1..], h))|);
    }
  }

  /** A tree of height `h` of at least 1 holds between 8 * 5^(h-1) and 8 * 9^h entries. */
  lemma {:induction false} TreeSize(H: Cells, t: Shape)
    requires Wf(H, t, null)
    ensures |FlatKeys(H, t.leaves)| <= 8 * Pow(9, t.height)
    ensures t.height > 0 ==> 8 * Pow(5, t.height - 1) <= |FlatKeys(H, t.leaves)|
  {
    RootAt(H, t, null);
    ChainIsLeaves(H, t, null);
    SizeBounds(H, t, t.root);
  }
}
