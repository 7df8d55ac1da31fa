/** What it means for the nodes of a heap to form a B+ tree. */
module Trees {
  import opened Seqs
  import opened Nodes

  /** A bound on keys. */
  datatype Bound = NegInf | At(key: Key) | PosInf

  predicate Less(a: Bound, b: Bound) {
    match (a, b)
    case (NegInf, NegInf) => false
    case (NegInf, _) => true
    case (At(k), At(l)) => k < l
    case (At(_), PosInf) => true
    case (_, _) => false
  }

  /** `k` is at least the lower bound `b`. */
  predicate Below(b: Bound, k: Key) {
    b == At(k) || Less(b, At(k))
  }

  /** Where a node belongs: its distance to the leaves, and the keys its subtree may hold, `lo <= key < hi`. */
  datatype Place = Place(height: nat, lo: Bound, hi: Bound)

  type Places = map<Node, Place>

  /** A tree: its root and height, the place of each node, and its leaves from left to right. */
  datatype Shape = Shape(root: Node, height: nat, places: Places, leaves: seq<Node>)

  // ---- one node ----

  ghost predicate LeafOk(c: Cell, a: Place) {
    && c.edges == [] && |c.vals| == |c.keys| && Increasing(c.keys) && Less(a.lo, a.hi)
    && forall i :: 0 <= i < |c.keys| ==> Below(a.lo, c.keys[i]) && Less(At(c.keys[i]), a.hi)
  }

  function LoOf(a: Place, ks: seq<Key>, i: nat): Bound
    requires i <= |ks|
  {
    if i == 0 then a.lo else At(ks[i - 1])
  }

  function HiOf(a: Place, ks: seq<Key>, i: nat): Bound
    requires i <= |ks|
  {
    if i < |ks| then At(ks[i]) else a.hi
  }

  /** The edge at `i` has the range between the keys around it. */
  ghost predicate ChildOk(A: Places, a: Place, ks: seq<Key>, es: seq<Node?>, i: nat)
    requires a.height > 0 && i <= |ks| && |es| == |ks| + 1
  {
    es[i] in A && A[es[i]] == Place(a.height - 1, LoOf(a, ks, i), HiOf(a, ks, i))
  }

  /** An internal node at `a` may have the keys `ks` and the edges `es`. */
  ghost predicate InnerOk(A: Places, a: Place, ks: seq<Key>, es: seq<Node?>) {
    && a.height > 0 && |es| == |ks| + 1 && Increasing(ks) && Less(a.lo, a.hi)
    && (forall i :: 0 <= i < |ks| ==> Less(a.lo, At(ks[i])) && Less(At(ks[i]), a.hi))
    && (forall i {:trigger es[i]} {:trigger ChildOk(A, a, ks, es, i)} :: 0 <= i < |es| ==> ChildOk(A, a, ks, es, i))
  }

  /** Each edge of `n` points back to `n` with the right index. */
  ghost predicate LinksOk(H: Cells, n: Node)
    requires n in H
  {
    forall i :: 0 <= i < |H[n].edges| ==>
      H[n].edges[i] in H && H[H[n].edges[i]].parent == n && H[H[n].edges[i]].parentIdx == i
  }

  ghost predicate LocalOk(H: Cells, A: Places, n: Node) {
    && n in H && n in A
    && if A[n].height == 0 then LeafOk(H[n], A[n])
       else H[n].vals == [] && InnerOk(A, A[n], H[n].keys, H[n].edges) && LinksOk(H, n)
  }

  /** `n` is an edge of its parent, at its parent index. */
  ghost predicate UpOk(H: Cells, A: Places, n: Node) {
    && n in H && H[n].parent != null && H[n].parent in H && H[n].parent in A
    && H[n].parentIdx < |H[H[n].parent].edges| && H[H[n].parent].edges[H[n].parentIdx] == n
  }

  /** Every node but the root is at least half full; `hole`, if any, may lack one more key. */
  ghost predicate FillOk(H: Cells, root: Node, hole: Node?, n: Node) {
    && n in H && |H[n].keys| <= M
    && (if n == hole then n == root || M / 2 - 1 <= |H[n].keys|
        else if n == root then 1 <= |H[n].keys| else M / 2 <= |H[n].keys|)
  }

  ghost function Opt(n: Node?): set<Node> {
    if n == null then {} else {n}
  }

  // ---- all nodes ----

  ghost predicate AllLocal(H: Cells, A: Places, except: set<Node>) {
    forall n {:trigger LocalOk(H, A, n)} :: n in A && n !in except ==> LocalOk(H, A, n)
  }

  ghost predicate AllUp(H: Cells, A: Places, except: set<Node>) {
    forall n {:trigger UpOk(H, A, n)} :: n in A && n !in except ==> UpOk(H, A, n)
  }

  ghost predicate AllFill(H: Cells, A: Places, root: Node, hole: Node?) {
    forall n {:trigger FillOk(H, root, hole, n)} :: n in A ==> FillOk(H, root, hole, n)
  }

  // ---- the chain of leaves ----

  ghost predicate LinkAt(H: Cells, A: Places, ls: seq<Node>, i: nat)
    requires i < |ls|
  {
    && ls[i] in A && ls[i] in H && A[ls[i]].height == 0
    && H[ls[i]].prev == (if i == 0 then null else ls[i - 1])
    && H[ls[i]].next == (if i + 1 == |ls| then null else ls[i + 1])
    && A[ls[i]].lo == (if i == 0 then NegInf else if ls[i - 1] in A then A[ls[i - 1]].hi else PosInf)
    && (i + 1 == |ls| ==> A[ls[i]].hi == PosInf)
  }

  /** `ls` are the leaves, doubly linked in this order, and their ranges follow each other without gaps. */
  ghost predicate ChainOk(H: Cells, A: Places, ls: seq<Node>) {
    && |ls| > 0
    && (forall i {:trigger LinkAt(H, A, ls, i)} :: 0 <= i < |ls| ==> LinkAt(H, A, ls, i))
    && (forall n {:trigger A[n]} :: n in A && A[n].height == 0 ==> n in ls)
  }

  // ---- the tree ----

  ghost predicate RootOk(H: Cells, t: Shape) {
    && t.root in t.places && t.places.Keys <= H.Keys
    && t.places[t.root] == Place(t.height, NegInf, PosInf) && H[t.root].parent == null
  }

  /** The nodes of `t` form a B+ tree, but for one key that `hole`, if any, may lack. */
  ghost predicate Wf(H: Cells, t: Shape, hole: Node?) {
    && RootOk(H, t)
    && AllLocal(H, t.places, {})
    && AllUp(H, t.places, {t.root})
    && AllFill(H, t.places, t.root, hole)
    && ChainOk(H, t.places, t.leaves)
  }

  // ---- what a change to some nodes leaves in place ----

  /** The parent of `n` sees no difference. */
  ghost predicate SeenSame(H0: Cells, A0: Places, H1: Cells, A1: Places, n: Node) {
    && n in H0 && n in H1 && n in A0 && n in A1 && A1[n] == A0[n]
    && H1[n].parent == H0[n].parent && H1[n].parentIdx == H0[n].parentIdx
  }

  ghost predicate BodySame(H0: Cells, H1: Cells, n: Node) {
    n in H0 && n in H1 && H1[n].keys == H0[n].keys && H1[n].vals == H0[n].vals && H1[n].edges == H0[n].edges
  }

  lemma LocalFrame(H0: Cells, A0: Places, H1: Cells, A1: Places, n: Node)
    requires LocalOk(H0, A0, n) && BodySame(H0, H1, n) && n in A1 && A1[n] == A0[n]
    requires A0[n].height > 0 ==> forall i :: 0 <= i < |H0[n].edges| ==> SeenSame(H0, A0, H1, A1, H0[n].edges[i])
    ensures LocalOk(H1, A1, n)
  {
  }

  /** Nodes outside `T` stay locally right if their bodies are the same, and only edges of `T` look different. */
  lemma LocalsFrame(H0: Cells, A0: Places, H1: Cells, A1: Places, T: set<Node>, X: set<Node>)
    requires AllLocal(H0, A0, X)
    requires forall n {:trigger BodySame(H0, H1, n)} :: n in A0 && n !in T && n !in X ==>
             BodySame(H0, H1, n) && n in A1 && A1[n] == A0[n]
    requires forall n {:trigger SeenSame(H0, A0, H1, A1, n)} ::
               n in A0 && n in H0 && H0[n].parent !in T && H0[n].parent != null ==> SeenSame(H0, A0, H1, A1, n)
    ensures forall n {:trigger LocalOk(H1, A1, n)} :: n in A0 && n !in T && n !in X ==> LocalOk(H1, A1, n)
  {
    forall n | n in A0 && n !in T && n !in X
      ensures LocalOk(H1, A1, n)
    {
      assert LocalOk(H0, A0, n) && BodySame(H0, H1, n);
      if A0[n].height > 0 {
        forall i | 0 <= i < |H0[n].edges|
          ensures SeenSame(H0, A0, H1, A1, H0[n].edges[i])
        {
          assert ChildOk(A0, A0[n], H0[n].keys, H0[n].edges, i);
        }
      }
      LocalFrame(H0, A0, H1, A1, n);
    }
  }

  /** Changes that keep all parents and edges leave every node at its place in its parent. */
  lemma UpsFrame(H0: Cells, A0: Places, H1: Cells, A1: Places, X: set<Node>)
    requires AllUp(H0, A0, X) && A1.Keys == A0.Keys
    requires forall n {:trigger EdgesSame(H0, H1, n)} :: n in A0 && n in H0 ==> EdgesSame(H0, H1, n)
    ensures AllUp(H1, A1, X)
  {
    forall n | n in A1 && n !in X
      ensures UpOk(H1, A1, n)
    {
      assert UpOk(H0, A0, n) && EdgesSame(H0, H1, n) && EdgesSame(H0, H1, H0[n].parent);
    }
  }

  /** A node whose parent keeps its edges stays at its place in it. */
  lemma UpFrame(H0: Cells, A0: Places, H1: Cells, A1: Places, n: Node)
    requires UpOk(H0, A0, n) && n in H1 && H1[n].parent == H0[n].parent && H1[n].parentIdx == H0[n].parentIdx
    requires H0[n].parent in H1 && H0[n].parent in A1 && H1[H0[n].parent].edges == H0[H0[n].parent].edges
    ensures UpOk(H1, A1, n)
  {
  }

  ghost predicate EdgesSame(H0: Cells, H1: Cells, n: Node) {
    && n in H0 && n in H1 && H1[n].edges == H0[n].edges
    && H1[n].parent == H0[n].parent && H1[n].parentIdx == H0[n].parentIdx
  }

  /** The edges of a locally right node are where they say they are. */
  lemma UpFromLocal(H: Cells, A: Places, p: Node, i: nat)
    requires LocalOk(H, A, p) && i < |H[p].edges|
    ensures H[p].edges[i] != null && UpOk(H, A, H[p].edges[i])
  {
  }

  /** The parent of a node other than the root. */
  lemma Parent(H: Cells, t: Shape, hole: Node?, n: Node)
    requires Wf(H, t, hole) && n in t.places && n != t.root
    ensures n in H && H[n].parent != null && H[n].parent in H && H[n].parent in t.places
    ensures var p, i := H[n].parent, H[n].parentIdx;
            && LocalOk(H, t.places, p) && FillOk(H, t.root, hole, p) && t.places[p].height == t.places[n].height + 1
            && i <= |H[p].keys| && |H[p].edges| == |H[p].keys| + 1 && H[p].edges[i] == n
            && ChildOk(t.places, t.places[p], H[p].keys, H[p].edges, i)
  {
    assert UpOk(H, t.places, n);
    assert LocalOk(H, t.places, H[n].parent);
    assert FillOk(H, t.root, hole, H[n].parent);
  }

  /** An edge of an internal node. */
  lemma Child(H: Cells, t: Shape, hole: Node?, p: Node, i: nat)
    requires Wf(H, t, hole) && p in t.places && t.places[p].height > 0 && p in H && i <= |H[p].keys|
    ensures |H[p].edges| == |H[p].keys| + 1 && H[p].edges[i] != null
    ensures var n := H[p].edges[i];
            && n in H && n in t.places && H[n].parent == p && H[n].parentIdx == i && n != t.root
            && LocalOk(H, t.places, n) && FillOk(H, t.root, hole, n)
            && ChildOk(t.places, t.places[p], H[p].keys, H[p].edges, i)
  {
    assert LocalOk(H, t.places, p);
    assert ChildOk(t.places, t.places[p], H[p].keys, H[p].edges, i);
    assert LocalOk(H, t.places, H[p].edges[i]);
    assert FillOk(H, t.root, hole, H[p].edges[i]);
  }

  predicate LessEq(a: Bound, b: Bound) {
    a == b || Less(a, b)
  }

  /** The ranges of the leaves increase along the chain. */
  lemma ChainOrder(H: Cells, A: Places, ls: seq<Node>, i: nat, j: nat)
    requires ChainOk(H, A, ls) && AllLocal(H, A, {}) && i < j < |ls|
    ensures ls[i] in A && ls[j] in A && LessEq(A[ls[i]].hi, A[ls[j]].lo) && Less(A[ls[i]].lo, A[ls[j]].lo)
    decreases j
  {
    assert LinkAt(H, A, ls, i) && LinkAt(H, A, ls, j) && LinkAt(H, A, ls, j - 1);
    assert LocalOk(H, A, ls[j - 1]) && LocalOk(H, A, ls[i]);
    if i < j - 1 {
      ChainOrder(H, A, ls, i, j - 1);
    }
  }

  /** Two leaves with adjacent ranges are neighbours in the chain. */
  lemma Neighbours(H: Cells, A: Places, ls: seq<Node>, a: Node, b: Node) returns (j: nat)
    requires ChainOk(H, A, ls) && AllLocal(H, A, {})
    requires a in A && b in A && A[a].height == A[b].height == 0 && A[a].hi == A[b].lo
    ensures j + 1 < |ls| && ls[j] == a && ls[j + 1] == b
    ensures a in H && b in H && H[a].next == b && H[b].prev == a
  {
    j :| 0 <= j < |ls| && ls[j] == a;
    var k :| 0 <= k < |ls| && ls[k] == b;
    assert LinkAt(H, A, ls, j) && LinkAt(H, A, ls, k) && LocalOk(H, A, a) && LocalOk(H, A, b);
    if j + 1 == |ls| {
      assert false;
    } else {
      assert LinkAt(H, A, ls, j + 1);
      if k < j + 1 {
        ChainOrder(H, A, ls, k, j + 1);
      } else if j + 1 < k {
        ChainOrder(H, A, ls, j + 1, k);
      }
    }
  }

  ghost predicate ChainSame(H0: Cells, H1: Cells, n: Node) {
    n in H0 && n in H1 && H1[n].prev == H0[n].prev && H1[n].next == H0[n].next
  }

  ghost predicate LinksSame(H0: Cells, A0: Places, H1: Cells, A1: Places, n: Node) {
    ChainSame(H0, H1, n) && n in A0 && n in A1 && A1[n] == A0[n]
  }

  /** The chain depends only on the links and the places of the leaves. */
  lemma ChainFrame(H0: Cells, A0: Places, H1: Cells, A1: Places, ls: seq<Node>)
    requires ChainOk(H0, A0, ls)
    requires forall n {:trigger LinksSame(H0, A0, H1, A1, n)} :: n in A0 && A0[n].height == 0 && n in H0 ==>
               LinksSame(H0, A0, H1, A1, n)
    requires forall n {:trigger A1[n]} :: n in A1 && A1[n].height == 0 ==> n in A0 && A0[n].height == 0
    ensures ChainOk(H1, A1, ls)
  {
    forall i | 0 <= i < |ls|
      ensures LinkAt(H1, A1, ls, i)
    {
      assert LinkAt(H0, A0, ls, i) && LinksSame(H0, A0, H1, A1, ls[i]);
      if i > 0 {
        assert LinkAt(H0, A0, ls, i - 1) && LinksSame(H0, A0, H1, A1, ls[i - 1]);
      }
    }
  }

  /** Only the nodes of `T` have changed themselves, and only edges of `T` look different to their parents. */
  ghost predicate ChangedOnly(H0: Cells, A0: Places, H1: Cells, A1: Places, T: set<Node>) {
    && (forall n {:trigger BodySame(H0, H1, n)} :: n in A0 && n !in T ==>
       BodySame(H0, H1, n) && n in A1 && A1[n] == A0[n])
    && (forall n {:trigger SeenSame(H0, A0, H1, A1, n)} ::
          n in A0 && n in H0 && H0[n].parent !in T && H0[n].parent != null ==> SeenSame(H0, A0, H1, A1, n))
    && (forall n :: n in A1 && n !in T ==> n in A0)
  }

  /** A change to some nodes leaves the tree locally right if it leaves those nodes so. */
  lemma PatchLocal(H0: Cells, A0: Places, H1: Cells, A1: Places, T: set<Node>)
    requires AllLocal(H0, A0, {}) && ChangedOnly(H0, A0, H1, A1, T)
    requires forall n {:trigger LocalOk(H1, A1, n)} :: n in T && n in A1 ==> LocalOk(H1, A1, n)
    ensures AllLocal(H1, A1, {})
  {
    forall n | n in A0 && n !in T
      ensures BodySame(H0, H1, n) && n in A1 && A1[n] == A0[n]
    {
    }
    LocalsFrame(H0, A0, H1, A1, T, {});
  }

  /** A change to some nodes leaves every node at its place in its parent if it leaves their edges so. */
  lemma PatchUp(H0: Cells, t: Shape, H1: Cells, A1: Places, root: Node, T: set<Node>)
    requires AllUp(H0, t.places, {t.root}) && ChangedOnly(H0, t.places, H1, A1, T)
    requires t.places.Keys <= H0.Keys
    requires forall n {:trigger UpOk(H1, A1, n)} ::
               n in A1 && n != root && (n !in t.places || n == t.root || H0[n].parent in T) ==> UpOk(H1, A1, n)
    ensures AllUp(H1, A1, {root})
  {
    forall n | n in A1 && n != root
      ensures UpOk(H1, A1, n)
    {
      if n in t.places && n != t.root && H0[n].parent !in T {
        assert UpOk(H0, t.places, n) && SeenSame(H0, t.places, H1, A1, n) && BodySame(H0, H1, H0[n].parent);
      }
    }
  }

  lemma ChainDistinct(H: Cells, A: Places, ls: seq<Node>)
    requires ChainOk(H, A, ls) && AllLocal(H, A, {})
    ensures Distinct(ls)
  {
    forall i, j | 0 <= i < j < |ls|
      ensures ls[i] != ls[j]
    {
      ChainOrder(H, A, ls, i, j);
    }
  }

  ghost function AtLeast(A: Places, h: nat): set<Node> {
    set n | n in A && A[n].height >= h
  }

  /** Only the root is as high as the tree. */
  lemma {:induction false} HeightBound(H: Cells, t: Shape, hole: Node?, n: Node)
    requires Wf(H, t, hole) && n in t.places
    ensures t.places[n].height <= t.height && (n == t.root <==> t.places[n].height == t.height)
    decreases |AtLeast(t.places, t.places[n].height)|
  {
    if n == t.root {
      assert RootOk(H, t);
    } else {
      Parent(H, t, hole, n);
      var p := H[n].parent;
      assert AtLeast(t.places, t.places[p].height) < AtLeast(t.places, t.places[n].height) by {
        assert n in AtLeast(t.places, t.places[n].height) && n !in AtLeast(t.places, t.places[p].height);
      }
      SmallerSet(AtLeast(t.places, t.places[p].height), AtLeast(t.places, t.places[n].height));
      hide Wf;
      HeightBound(H, t, hole, p);
    }
  }

  lemma SmallerSet<T>(a: set<T>, b: set<T>)
    requires a < b
    ensures |a| < |b|
  {
    var x :| x in b && x !in a;
    assert b == (a + {x}) + (b - (a + {x}));
  }
}
