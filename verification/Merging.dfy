/** Why merging two siblings leaves a B+ tree, but for the key that their parent loses. */
module Merging {
  import opened Seqs
  import opened Nodes
  import opened Trees
  import opened Contents
  import opened Removal

  /** `left` and `right` are the edges at `j` and `j + 1` of `p`, and together they fit in one node. */
  ghost predicate MergeKin(H: Cells, A: Places, left: Node, right: Node, p: Node, j: nat) {
    && left in H && right in H && p in H && left in A && right in A && p in A
    && j < |H[p].keys| && InnerOk(A, A[p], H[p].keys, H[p].edges) && LinksOk(H, p) && H[p].vals == []
    && H[p].edges[j] == left && H[p].edges[j + 1] == right
    && LocalOk(H, A, left) && LocalOk(H, A, right)
  }

  lemma MergeKinPlaces(H: Cells, A: Places, left: Node, right: Node, p: Node, j: nat)
    requires MergeKin(H, A, left, right, p, j)
    ensures var m := At(H[p].keys[j]); A[left].hi == m == A[right].lo
    ensures A[left].height == A[right].height == A[p].height - 1
    ensures left != right && left != p && right != p && Distinct(H[p].edges) && |H[p].edges| == |H[p].keys| + 1
  {
    assert ChildOk(A, A[p], H[p].keys, H[p].edges, j) && ChildOk(A, A[p], H[p].keys, H[p].edges, j + 1);
    KidsBelow(H, A, p);
  }

  ghost function Dropped(left: Node, right: Node, s: Node): Node {
    if s == left then right else left
  }

  /** The places after `left` and `right` have become `s`. */
  ghost function MergedPlaces(A: Places, left: Node, right: Node, s: Node): Places
    requires left in A && right in A
  {
    (A - {Dropped(left, right, s)})[s := Place(A[left].height, A[left].lo, A[right].hi)]
  }

  /** The key and the edge that `p` loses are gone, and its later edges are renumbered. */
  ghost predicate ParentMerged(H: Cells, H1: Cells, left: Node, right: Node, s: Node, p: Node, j: nat)
    requires p in H && j < |H[p].keys| && |H[p].edges| == |H[p].keys| + 1
  {
    && H1.Keys == H.Keys - {Dropped(left, right, s)} && p in H1 && s in H1
    && BodyIs(H1[p], Del(H[p].keys, j), H[p].vals, Del(H[p].edges, if s == left then j + 1 else j))
    && H1[p].parent == H[p].parent && H1[p].parentIdx == H[p].parentIdx
    && H1[s].parent == p && H1[s].parentIdx == j
    && (forall i :: j + 2 <= i < |H[p].edges| ==>
          H[p].edges[i] in H1 && H1[H[p].edges[i]].parent == p && H1[H[p].edges[i]].parentIdx == i - 1)
  }

  ghost predicate BodyIs(c: Cell, ks: seq<Key>, vs: seq<Value>, es: seq<Node?>) {
    c.keys == ks && c.vals == vs && c.edges == es
  }

  /** `s` has the edges of both nodes, and each of them knows it. */
  ghost predicate EdgesMerged(H: Cells, H1: Cells, left: Node, right: Node, s: Node)
    requires left in H && right in H
  {
    && s in H1 && H1[s].edges == H[left].edges + H[right].edges
    && forall i :: 0 <= i < |H1[s].edges| ==>
         H1[s].edges[i] in H1 && H1[H1[s].edges[i]].parent == s && H1[H1[s].edges[i]].parentIdx == i
  }

  /** The other nodes have the same bodies, and those that are not later edges of `p`
      or edges of the merged nodes the same parents. */
  ghost predicate OthersMerged(H: Cells, H1: Cells, left: Node, right: Node, p: Node, j: nat)
    requires left in H && right in H && p in H && j + 2 <= |H[p].edges|
  {
    && (forall n {:trigger BodySame(H, H1, n)} :: n in H && n != left && n != right && n != p ==> BodySame(H, H1, n))
    && (forall n {:trigger H1[n]} ::
          (n in H && n != left && n != right && n !in H[p].edges[j + 2..] && n !in H[left].edges &&
            n !in H[right].edges) ==>
          (n in H1 && H1[n].parent == H[n].parent && H1[n].parentIdx == H[n].parentIdx))
  }

  /** `H1` is `H` with `left` and `right` merged into `s`, one of the two, and the other one gone. */
  ghost predicate Merged(H: Cells, H1: Cells, left: Node, right: Node, s: Node, p: Node, j: nat, mid: seq<Key>)
    requires left in H && right in H && p in H && j < |H[p].keys| && |H[p].edges| == |H[p].keys| + 1
  {
    && (s == left || s == right)
    && ParentMerged(H, H1, left, right, s, p, j)
    && EdgesMerged(H, H1, left, right, s)
    && H1[s].keys == H[left].keys + mid + H[right].keys && H1[s].vals == H[left].vals + H[right].vals
    && OthersMerged(H, H1, left, right, p, j)
  }

  // ---- the merged node ----

  lemma LeafJoin(c: Cell, d: Cell, e: Cell, a: Place, b: Place)
    requires LeafOk(c, a) && LeafOk(d, b) && a.hi == b.lo
    requires BodyIs(e, c.keys + d.keys, c.vals + d.vals, [])
    ensures LeafOk(e, Place(a.height, a.lo, b.hi))
  {
  }

  lemma InnerJoin(A: Places, A1: Places, a: Place, b: Place, ks: seq<Key>, es: seq<Node?>, ls: seq<Key>, fs: seq<Node?>,
                  m: Key)
    requires InnerOk(A, a, ks, es) && InnerOk(A, b, ls, fs) && a.hi == At(m) == b.lo && a.height == b.height
    requires forall i :: 0 <= i < |es| && es[i] in A ==> es[i] in A1 && A1[es[i]] == A[es[i]]
    requires forall i :: 0 <= i < |fs| && fs[i] in A ==> fs[i] in A1 && A1[fs[i]] == A[fs[i]]
    ensures InnerOk(A1, Place(a.height, a.lo, b.hi), ks + [m] + ls, es + fs)
  {
    var c, ns, gs := Place(a.height, a.lo, b.hi), ks + [m] + ls, es + fs;
    forall i | 0 <= i < |gs|
      ensures ChildOk(A1, c, ns, gs, i)
    {
      if i < |es| {
        assert ChildOk(A, a, ks, es, i);
      } else {
        assert ChildOk(A, b, ls, fs, i - |es|);
      }
    }
    assert forall i :: 0 <= i < |ks| ==> Less(At(ks[i]), At(m));
    assert forall i :: 0 <= i < |ls| ==> Less(At(m), At(ls[i]));
  }

  lemma MergedAtNode(H: Cells, H1: Cells, A: Places, left: Node, right: Node, s: Node, p: Node, j: nat, mid: seq<Key>)
    requires MergeKin(H, A, left, right, p, j) && Merged(H, H1, left, right, s, p, j, mid)
    requires mid == if A[left].height == 0 then [] else [H[p].keys[j]]
    ensures LocalOk(H1, MergedPlaces(A, left, right, s), s)
  {
    hide OthersMerged, ParentMerged;
    var A1 := MergedPlaces(A, left, right, s);
    MergeKinPlaces(H, A, left, right, p, j);
    assert A1[s] == Place(A[left].height, A[left].lo, A[right].hi);
    if A[left].height == 0 {
      LeafJoin(H[left], H[right], H1[s], A[left], A[right]);
    } else {
      KidsBelow(H, A, left);
      KidsBelow(H, A, right);
      InnerJoin(A, A1, A[left], A[right], H[left].keys, H[left].edges, H[right].keys, H[right].edges, H[p].keys[j]);
    }
  }

  // ---- their parent ----

  lemma InnerDropEdge(A: Places, a: Place, ks: seq<Key>, es: seq<Node?>, j: nat, s: Node)
    requires InnerOk(A, a, ks, es) && Distinct(es) && j < |ks|
    requires es[j] != null && es[j + 1] != null && es[j] in A && es[j + 1] in A && (s == es[j] || s == es[j + 1])
    ensures InnerOk(MergedPlaces(A, es[j], es[j + 1], s), a, Del(ks, j), Del(es, if s == es[j] then j + 1 else j))
  {
    var A1, ks1, es1 := MergedPlaces(A, es[j], es[j + 1], s), Del(ks, j), Del(es, if s == es[j] then j + 1 else j);
    assert es1[j] == s;
    assert ChildOk(A, a, ks, es, j) && ChildOk(A, a, ks, es, j + 1);
    forall i | 0 <= i < |es1|
      ensures ChildOk(A1, a, ks1, es1, i)
    {
      assert ChildOk(A, a, ks, es, if i < j then i else i + 1);
      if i > 0 && i < |ks1| { assert ks1[i - 1] == if i - 1 < j then ks[i - 1] else ks[i]; }
    }
  }

  lemma MergedParentLinks(H: Cells, H1: Cells, A: Places, left: Node, right: Node, s: Node, p: Node, j: nat,
                          mid: seq<Key>)
    requires MergeKin(H, A, left, right, p, j) && Merged(H, H1, left, right, s, p, j, mid)
    ensures LinksOk(H1, p)
  {
    MergeKinPlaces(H, A, left, right, p, j);
    KidsBelow(H, A, p);
    EdgesBelow(H, A, left);
    EdgesBelow(H, A, right);
    hide EdgesMerged, InnerOk, LocalOk;
    forall i | 0 <= i < |H1[p].edges|
      ensures H1[p].edges[i] in H1 && H1[H1[p].edges[i]].parent == p && H1[H1[p].edges[i]].parentIdx == i
    {
      if i < j {
        assert H1[p].edges[i] == H[p].edges[i];
      } else if i == j {
        assert H1[p].edges[i] == s;
      } else {
        assert H1[p].edges[i] == H[p].edges[i + 1];
      }
    }
  }

  /** The edges of a locally right node are one level below it. */
  lemma EdgesBelow(H: Cells, A: Places, n: Node)
    requires LocalOk(H, A, n)
    ensures forall x: Node {:trigger x in H[n].edges} :: x in H[n].edges ==>
              x in H && x in A && A[x].height + 1 == A[n].height && H[x].parent == n
  {
    if A[n].height > 0 {
      KidsBelow(H, A, n);
    }
  }

  lemma MergedAtParent(H: Cells, H1: Cells, A: Places, left: Node, right: Node, s: Node, p: Node, j: nat, mid: seq<Key>)
    requires MergeKin(H, A, left, right, p, j) && Merged(H, H1, left, right, s, p, j, mid)
    ensures LocalOk(H1, MergedPlaces(A, left, right, s), p)
  {
    hide EdgesMerged, OthersMerged;
    MergeKinPlaces(H, A, left, right, p, j);
    InnerDropEdge(A, A[p], H[p].keys, H[p].edges, j, s);
    MergedParentLinks(H, H1, A, left, right, s, p, j, mid);
  }

  // ---- all nodes ----

  lemma MergedUp(H: Cells, H1: Cells, A: Places, left: Node, right: Node, s: Node, p: Node, j: nat, mid: seq<Key>,
                 n: Node)
    requires MergeKin(H, A, left, right, p, j) && Merged(H, H1, left, right, s, p, j, mid)
    requires LocalOk(H1, MergedPlaces(A, left, right, s), s) && LocalOk(H1, MergedPlaces(A, left, right, s), p)
    requires n in MergedPlaces(A, left, right, s) && UpOk(H, A, n) && H[n].parent in {left, right, p}
    ensures UpOk(H1, MergedPlaces(A, left, right, s), n)
  {
    hide LocalOk, OthersMerged, InnerOk, LinksOk;
    var A1, q, k := MergedPlaces(A, left, right, s), H[n].parent, H[n].parentIdx;
    MergeKinPlaces(H, A, left, right, p, j);
    if q == p {
      var i := if k < j then k else if k <= j + 1 then j else k - 1;
      assert H1[p].edges[i] == n;
      UpFromLocal(H1, A1, p, i);
    } else {
      var i := if q == left then k else |H[left].edges| + k;
      assert H1[s].edges[i] == n;
      UpFromLocal(H1, A1, s, i);
    }
  }

  lemma MergedSeen(H: Cells, H1: Cells, A: Places, left: Node, right: Node, s: Node, p: Node, j: nat, mid: seq<Key>)
    requires MergeKin(H, A, left, right, p, j) && Merged(H, H1, left, right, s, p, j, mid)
    requires A.Keys <= H.Keys
    ensures forall n {:trigger SeenSame(H, A, H1, MergedPlaces(A, left, right, s), n)} ::
              n in A && n in H && H[n].parent !in {left, right, p} && H[n].parent != null ==>
              SeenSame(H, A, H1, MergedPlaces(A, left, right, s), n)
  {
    MergeKinPlaces(H, A, left, right, p, j);
    KidsBelow(H, A, p);
    EdgesBelow(H, A, left);
    EdgesBelow(H, A, right);
    EdgesBelowParent(H, A, p);
    hide EdgesMerged, InnerOk, LocalOk, LinksOk;
    var A1 := MergedPlaces(A, left, right, s);
    forall n | n in A && n in H && H[n].parent !in {left, right, p} && H[n].parent != null
      ensures SeenSame(H, A, H1, A1, n)
    {
      assert n !in H[p].edges[j + 2..] && n !in H[left].edges && n !in H[right].edges;
    }
  }

  lemma MergedChanges(H: Cells, H1: Cells, A: Places, left: Node, right: Node, s: Node, p: Node, j: nat, mid: seq<Key>)
    requires MergeKin(H, A, left, right, p, j) && Merged(H, H1, left, right, s, p, j, mid)
    requires A.Keys <= H.Keys
    ensures ChangedOnly(H, A, H1, MergedPlaces(A, left, right, s), {left, right, p})
  {
    MergeKinPlaces(H, A, left, right, p, j);
    MergedSeen(H, H1, A, left, right, s, p, j, mid);
    hide EdgesMerged, InnerOk, LocalOk, LinksOk, SeenSame;
  }

  lemma EdgesBelowParent(H: Cells, A: Places, p: Node)
    requires p in H && p in A && InnerOk(A, A[p], H[p].keys, H[p].edges) && LinksOk(H, p)
    ensures forall x: Node {:trigger x in H[p].edges} :: x in H[p].edges ==> x in H && H[x].parent == p
  {
    KidsBelow(H, A, p);
  }

  /** Before a merge: one of the two siblings lacks a key, and the other cannot spare one. */
  ghost predicate CanMerge(H: Cells, t: Shape, left: Node, right: Node, s: Node, p: Node, j: nat) {
    && Wf(H, t, s) && MergeKin(H, t.places, left, right, p, j) && (s == left || s == right)
    && |H[s].keys| == M / 2 - 1 && |H[Dropped(left, right, s)].keys| <= M / 2
  }

  lemma CanMergeHolds(H: Cells, t: Shape, left: Node, right: Node, s: Node, p: Node, j: nat)
    requires Wf(H, t, s) && p in t.places && t.places[p].height > 0 && p in H && j < |H[p].keys|
    requires |H[p].edges| == |H[p].keys| + 1 && left == H[p].edges[j] && right == H[p].edges[j + 1] &&
             (s == left || s == right)
    requires left in H && right in H && |H[s].keys| == M / 2 - 1 && |H[Dropped(left, right, s)].keys| <= M / 2
    ensures CanMerge(H, t, left, right, s, p, j)
  {
    hide AllLocal, AllUp, AllFill, ChainOk;
    Child(H, t, s, p, j);
    Child(H, t, s, p, j + 1);
    assert LocalOk(H, t.places, p) by { LocalAt(H, t, s, p); }
  }

  lemma MergedFill(H: Cells, H1: Cells, t: Shape, left: Node, right: Node, s: Node, p: Node, j: nat, mid: seq<Key>)
    requires CanMerge(H, t, left, right, s, p, j) && Merged(H, H1, left, right, s, p, j, mid) && |mid| <= 1
    ensures AllFill(H1, MergedPlaces(t.places, left, right, s), t.root, p)
    ensures left != t.root && right != t.root
  {
    MergeKinPlaces(H, t.places, left, right, p, j);
    assert left != t.root && right != t.root;
    hide EdgesMerged, InnerOk, LocalOk, ChainOk, AllUp;
    forall n | n in MergedPlaces(t.places, left, right, s)
      ensures FillOk(H1, t.root, p, n)
    {
      assert FillOk(H, t.root, s, n) && FillOk(H, t.root, s, Dropped(left, right, s));
      assert n != left && n != right && n != p ==> BodySame(H, H1, n);
    }
  }

  lemma MergedUps(H: Cells, H1: Cells, t: Shape, left: Node, right: Node, s: Node, p: Node, j: nat, mid: seq<Key>)
    requires CanMerge(H, t, left, right, s, p, j) && Merged(H, H1, left, right, s, p, j, mid)
    requires mid == if t.places[left].height == 0 then [] else [H[p].keys[j]]
    ensures forall n {:trigger UpOk(H1, MergedPlaces(t.places, left, right, s), n)} ::
              n in MergedPlaces(t.places, left, right, s) && n != t.root && H[n].parent in {left, right, p} ==>
              UpOk(H1, MergedPlaces(t.places, left, right, s), n)
  {
    hide LocalOk, InnerOk, LinksOk, FillOk, ChainOk, AllFill, EdgesMerged, Merged;
    var A, A1 := t.places, MergedPlaces(t.places, left, right, s);
    MergedAtNode(H, H1, A, left, right, s, p, j, mid);
    MergedAtParent(H, H1, A, left, right, s, p, j, mid);
    forall n | n in A1 && n != t.root && H[n].parent in {left, right, p}
      ensures UpOk(H1, A1, n)
    {
      assert UpOk(H, A, n);
      MergedUp(H, H1, A, left, right, s, p, j, mid, n);
    }
  }

  lemma MergedRoot(H: Cells, H1: Cells, t: Shape, left: Node, right: Node, s: Node, p: Node, j: nat, mid: seq<Key>,
                   ls: seq<Node>)
    requires CanMerge(H, t, left, right, s, p, j) && Merged(H, H1, left, right, s, p, j, mid) && left != t.root &&
             right != t.root
    ensures RootOk(H1, t.(places := MergedPlaces(t.places, left, right, s), leaves := ls))
  {
    EdgesBelow(H, t.places, left);
    EdgesBelow(H, t.places, right);
    EdgesBelowParent(H, t.places, p);
    KidsBelow(H, t.places, p);
    hide AllLocal, AllUp, AllFill, ChainOk, InnerOk, LocalOk, LinksOk, EdgesMerged;
  }

  lemma MergedOk(H: Cells, H1: Cells, t: Shape, left: Node, right: Node, s: Node, p: Node, j: nat, mid: seq<Key>,
                 ls: seq<Node>)
    requires CanMerge(H, t, left, right, s, p, j) && Merged(H, H1, left, right, s, p, j, mid)
    requires mid == if t.places[left].height == 0 then [] else [H[p].keys[j]]
    requires ChainOk(H1, MergedPlaces(t.places, left, right, s), ls)
    ensures Wf(H1, t.(places := MergedPlaces(t.places, left, right, s), leaves := ls), p)
  {
    hide LocalOk, InnerOk, LinksOk, FillOk, UpOk, ChainOk, AllFill, ChangedOnly, EdgesMerged;
    var A, A1 := t.places, MergedPlaces(t.places, left, right, s);
    MergedAtNode(H, H1, A, left, right, s, p, j, mid);
    MergedAtParent(H, H1, A, left, right, s, p, j, mid);
    MergedFill(H, H1, t, left, right, s, p, j, mid);
    MergedChanges(H, H1, A, left, right, s, p, j, mid);
    PatchLocal(H, A, H1, A1, {left, right, p});
    MergedUps(H, H1, t, left, right, s, p, j, mid);
    MergedRoot(H, H1, t, left, right, s, p, j, mid, ls);
    PatchUp(H, t, H1, A1, t.root, {left, right, p});
  }

  // ---- the chain ----

  /** `s` takes the place of `left` and `right` in the chain. */
  ghost predicate ChainMerged(H: Cells, H1: Cells, left: Node, right: Node, s: Node)
    requires left in H && right in H
  {
    && s in H1 && H1[s].prev == H[left].prev && H1[s].next == H[right].next
    && forall n {:trigger ChainMergedAt(H, H1, left, right, s, n)} :: n in H && n != left && n != right ==>
         ChainMergedAt(H, H1, left, right, s, n)
  }

  ghost predicate ChainMergedAt(H: Cells, H1: Cells, left: Node, right: Node, s: Node, n: Node)
    requires left in H && right in H && n in H
  {
    && n in H1
    && H1[n].prev == (if n == H[right].next then s else H[n].prev)
    && H1[n].next == (if n == H[left].prev then s else H[n].next)
  }

  ghost function MergedLeaves(ls: seq<Node>, q: nat, s: Node): seq<Node>
    requires q + 1 < |ls|
  {
    ls[..q] + [s] + ls[q + 2..]
  }

  lemma MergedLinkHere(H: Cells, H1: Cells, A: Places, left: Node, right: Node, s: Node, ls: seq<Node>, q: nat, i: nat)
    requires ChainOk(H, A, ls) && Distinct(ls) && (s == left || s == right)
    requires q + 1 < |ls| && ls[q] == left && ls[q + 1] == right && left in A && right in A && left in H && right in H
    requires ChainMerged(H, H1, left, right, s) && i == q
    ensures LinkAt(H1, MergedPlaces(A, left, right, s), MergedLeaves(ls, q, s), i)
  {
    assert LinkAt(H, A, ls, q) && LinkAt(H, A, ls, q + 1);
    assert q > 0 ==> LinkAt(H, A, ls, q - 1);
  }

  lemma MergedLeavesAt(ls: seq<Node>, q: nat, s: Node)
    requires q + 1 < |ls|
    ensures |MergedLeaves(ls, q, s)| == |ls| - 1
    ensures forall j {:trigger MergedLeaves(ls, q, s)[j]} :: 0 <= j < |ls| - 1 ==>
              MergedLeaves(ls, q, s)[j] == if j < q then ls[j] else if j == q then s else ls[j + 1]
  {
  }

  lemma MergedLink(H: Cells, H1: Cells, A: Places, left: Node, right: Node, s: Node, ls: seq<Node>, q: nat, i: nat)
    requires ChainOk(H, A, ls) && Distinct(ls) && (s == left || s == right)
    requires q + 1 < |ls| && ls[q] == left && ls[q + 1] == right && left in A && right in A && left in H && right in H
    requires ChainMerged(H, H1, left, right, s) && i < |ls| - 1
    ensures LinkAt(H1, MergedPlaces(A, left, right, s), MergedLeaves(ls, q, s), i)
  {
    if i == q {
      MergedLinkHere(H, H1, A, left, right, s, ls, q, i);
      return;
    }
    MergedLeavesAt(ls, q, s);
    hide MergedLeaves;
    var k := if i < q then i else i + 1;
    assert LinkAt(H, A, ls, k) && (i > 0 ==> LinkAt(H, A, ls, k - 1));
    assert LinkAt(H, A, ls, q) && LinkAt(H, A, ls, q + 1);
    assert ls[k] in H && ls[k] != left && ls[k] != right && ChainMergedAt(H, H1, left, right, s, ls[k]);
  }

  lemma ChainMergedOk(H: Cells, H1: Cells, A: Places, left: Node, right: Node, s: Node, ls: seq<Node>, q: nat)
    requires ChainOk(H, A, ls) && AllLocal(H, A, {}) && (s == left || s == right)
    requires q + 1 < |ls| && ls[q] == left && ls[q + 1] == right && left in A && right in A && left in H && right in H
    requires ChainMerged(H, H1, left, right, s)
    ensures ChainOk(H1, MergedPlaces(A, left, right, s), MergedLeaves(ls, q, s))
  {
    var A1, ls1 := MergedPlaces(A, left, right, s), MergedLeaves(ls, q, s);
    ChainDistinct(H, A, ls);
    assert LinkAt(H, A, ls, q) && LinkAt(H, A, ls, q + 1);
    forall i | 0 <= i < |ls1|
      ensures LinkAt(H1, A1, ls1, i)
    {
      MergedLink(H, H1, A, left, right, s, ls, q, i);
    }
    forall n | n in A1 && A1[n].height == 0
      ensures n in ls1
    {
      assert n == s || n in ls;
      if n != s {
        var k :| 0 <= k < |ls| && ls[k] == n;
        assert if k < q then ls1[k] == n else ls1[k - 1] == n;
      } else {
        assert ls1[q] == s;
      }
    }
  }

  // ---- the steps of the code ----

  /** The leaf `s` has the entries and the outer links of both leaves. */
  ghost function LeafAbsorbed(H: Cells, left: Node, right: Node, s: Node): Cell
    requires left in H && right in H && s in H
  {
    H[s].(keys := H[left].keys + H[right].keys, vals := H[left].vals + H[right].vals, prev := H[left].prev,
      next := H[right].next)
  }

  ghost function SetNextOf(H: Cells, n: Node?, s: Node): Cells
    requires n != null ==> n in H
  {
    if n == null then H else H[n := H[n].(next := s)]
  }

  ghost function SetPrevOf(H: Cells, n: Node?, s: Node): Cells
    requires n != null ==> n in H
  {
    if n == null then H else H[n := H[n].(prev := s)]
  }

  /** The links around two neighbouring leaves. */
  ghost predicate OuterLinks(H: Cells, left: Node, right: Node, p: Node)
    requires left in H && right in H
  {
    && (H[left].prev != null ==> H[left].prev in H && H[left].prev !in {left, right, p} && H[H[left].prev].next == left)
    && (H[right].next != null ==>
          H[right].next in H && H[right].next !in {left, right, p} && H[H[right].next].prev == right)
  }

  lemma OuterLinksHold(H: Cells, A: Places, ls: seq<Node>, left: Node, right: Node, p: Node)
    requires ChainOk(H, A, ls) && AllLocal(H, A, {}) && p in A && A[p].height > 0
    requires left in A && right in A && A[left].height == A[right].height == 0 && A[left].hi == A[right].lo
    ensures left in H && right in H && OuterLinks(H, left, right, p)
  {
    var q := Neighbours(H, A, ls, left, right);
    ChainDistinct(H, A, ls);
    assert LinkAt(H, A, ls, q) && LinkAt(H, A, ls, q + 1);
    if q > 0 { assert LinkAt(H, A, ls, q - 1); }
    if q + 2 < |ls| { assert LinkAt(H, A, ls, q + 2); }
  }

  /** The heap after the leaf `s` has absorbed its sibling, and the outer neighbour has been told. */
  ghost function LeavesJoined(H: Cells, left: Node, right: Node, s: Node): Cells
    requires left in H && right in H && s in H && (s == left || s == right)
    requires (H[left].prev != null ==> H[left].prev in H) && (H[right].next != null ==> H[right].next in H)
  {
    var H1 := H[s := LeafAbsorbed(H, left, right, s)];
    if s == right then SetNextOf(H1, H[left].prev, s) else SetPrevOf(H1, H[right].next, s)
  }

  /** The parent `p` loses the key at `j` and the edge at `e`, and the edges `es` after it move down by one. */
  ghost predicate EdgeRemoved(H1: Cells, H2: Cells, p: Node, j: nat, e: nat, es: seq<Node?>)
    requires p in H1 && j < |H1[p].keys| && e < |H1[p].edges|
  {
    Bumped(H1[p := H1[p].(keys := Del(H1[p].keys, j), edges := Del(H1[p].edges, e))], H2, es, -1)
  }

  /**
   * The edges `es` of `p` after the dropped one: those after the pair, `fs`, and `right` too if it is the one that
   * stays.
   */
  ghost predicate Later(H: Cells, left: Node, right: Node, s: Node, p: Node, j: nat, es: seq<Node?>, fs: seq<Node?>)
    requires left in H && right in H && p in H
  {
    && left != right && p != left && p != right && (s == left || s == right)
    && |H[p].edges| == |H[p].keys| + 1 && j < |H[p].keys| && fs == H[p].edges[j + 2..]
    && H[left].parent == p && H[right].parent == p && H[left].parentIdx == j && H[right].parentIdx == j + 1
    && (right in es <==> s == right) && left !in es && p !in es && left !in fs && right !in fs && p !in fs
    && (forall n {:trigger n in es} {:trigger n in fs} :: n in H && n != right ==> (n in es <==> n in fs))
    && (forall n {:trigger n in fs} :: n in H && n in fs ==> H[n].parent == p)
    && (forall i {:trigger H[p].edges[i]} :: j + 2 <= i < |H[p].edges| ==>
          H[p].edges[i] in H && H[p].edges[i] in fs && H[H[p].edges[i]].parentIdx == i)
  }

  lemma LaterHolds(H: Cells, A: Places, left: Node, right: Node, s: Node, p: Node, j: nat, es: seq<Node?>,
                   fs: seq<Node?>)
    requires MergeKin(H, A, left, right, p, j) && (s == left || s == right) && |H[p].edges| == |H[p].keys| + 1
    requires es == H[p].edges[if s == left then j + 2 else j + 1..] && fs == H[p].edges[j + 2..]
    ensures Later(H, left, right, s, p, j, es, fs)
  {
    MergeKinPlaces(H, A, left, right, p, j);
    KidsBelow(H, A, p);
    assert s == right ==> es == [right] + fs;
    assert forall i :: j + 2 <= i < |H[p].edges| ==> fs[i - j - 2] == H[p].edges[i];
  }

  /** `H2` is `H` after the leaf `s` has absorbed its sibling, cell by cell. */
  ghost predicate Joined(H: Cells, H2: Cells, left: Node, right: Node, s: Node)
    requires left in H && right in H && s in H
  {
    && H2.Keys == H.Keys && H2[s] == LeafAbsorbed(H, left, right, s)
    && forall n {:trigger H2[n]} :: n in H && n != left && n != right ==>
         H2[n] == H[n].(prev := if n == H[right].next then s else H[n].prev, next := if n == H[left].prev then s
           else H[n].next)
  }

  lemma LeavesJoinedCells(H: Cells, left: Node, right: Node, s: Node, p: Node)
    requires left in H && right in H && (s == left || s == right) && left != right && OuterLinks(H, left, right, p)
    ensures Joined(H, LeavesJoined(H, left, right, s), left, right, s)
    ensures p in H && p != left && p != right ==> LeavesJoined(H, left, right, s)[p] == H[p]
  {
  }

  /** `H2` is `H` after `s` has absorbed its sibling, as far as `p` and the nodes outside the pair are concerned. */
  ghost predicate HalfMerged(H: Cells, H2: Cells, left: Node, right: Node, s: Node, p: Node)
    requires left in H && right in H && p in H
  {
    && H2.Keys == H.Keys && s in H2 && H2[p] == H[p]
    && (forall n {:trigger BodySame(H, H2, n)} :: n in H && n != left && n != right ==> BodySame(H, H2, n))
    && (forall n {:trigger H2[n]} :: n in H && n !in H[left].edges && n !in H[right].edges ==>
          H2[n].parent == H[n].parent && H2[n].parentIdx == H[n].parentIdx)
  }

  lemma StepsParent(H: Cells, H2: Cells, H3: Cells, left: Node, right: Node, s: Node, p: Node, j: nat, es: seq<Node?>,
                    fs: seq<Node?>)
    requires left in H && right in H && p in H && Later(H, left, right, s, p, j, es, fs)
    requires HalfMerged(H, H2, left, right, s, p) && EdgeRemoved(H2, H3, p, j, if s == left then j + 1 else j, es)
    requires forall n {:trigger H[n]} :: n in H && (n in H[left].edges || n in H[right].edges) ==> H[n].parent != p
    ensures ParentMerged(H, H3 - {Dropped(left, right, s)}, left, right, s, p, j)
  {
    forall i | j + 2 <= i < |H[p].edges|
      ensures H[p].edges[i] in H3 && H3[H[p].edges[i]].parent == p && H3[H[p].edges[i]].parentIdx == i - 1
    {
      assert H[p].edges[i] in fs;
    }
  }

  lemma StepsOthers(H: Cells, H2: Cells, H3: Cells, left: Node, right: Node, s: Node, p: Node, j: nat, es: seq<Node?>,
                    fs: seq<Node?>)
    requires left in H && right in H && p in H && Later(H, left, right, s, p, j, es, fs)
    requires HalfMerged(H, H2, left, right, s, p) && EdgeRemoved(H2, H3, p, j, if s == left then j + 1 else j, es)
    ensures OthersMerged(H, H3 - {Dropped(left, right, s)}, left, right, p, j)
  {
    var H4 := H3 - {Dropped(left, right, s)};
    forall n | n in H && n != left && n != right && n != p
      ensures BodySame(H, H4, n)
    {
      assert BodySame(H, H2, n) && H3[n].keys == H2[n].keys;
    }
  }

  // ---- leaves ----

  lemma JoinedHalf(H: Cells, H2: Cells, left: Node, right: Node, s: Node, p: Node)
    requires left in H && right in H && p in H && (s == left || s == right) && H[left].edges == H[right].edges == []
    requires Joined(H, H2, left, right, s) && H2[p] == H[p]
    requires forall n {:trigger H2[n]} :: n in H && (n == left || n == right) && n != s ==> H2[n] == H[n]
    ensures HalfMerged(H, H2, left, right, s, p)
  {
    forall n | n in H && n != left && n != right
      ensures BodySame(H, H2, n)
    {
      assert H2[n].keys == H[n].keys;
    }
  }

  lemma EdgeRemovedLinks(H1: Cells, H2: Cells, p: Node, j: nat, e: nat, es: seq<Node?>)
    requires p in H1 && j < |H1[p].keys| && e < |H1[p].edges| && EdgeRemoved(H1, H2, p, j, e, es)
    ensures H2.Keys == H1.Keys
    ensures forall n {:trigger H2[n]} :: n in H1 ==> H2[n].prev == H1[n].prev && H2[n].next == H1[n].next
  {
  }

  lemma LeafStepsChain(H: Cells, H2: Cells, H3: Cells, left: Node, right: Node, s: Node, p: Node, j: nat,
                       es: seq<Node?>, fs: seq<Node?>)
    requires left in H && right in H && p in H && Later(H, left, right, s, p, j, es, fs)
    requires Joined(H, H2, left, right, s) && H2[p] == H[p] &&
             EdgeRemoved(H2, H3, p, j, if s == left then j + 1 else j, es)
    ensures ChainMerged(H, H3 - {Dropped(left, right, s)}, left, right, s)
  {
    hide EdgeRemoved;
    EdgeRemovedLinks(H2, H3, p, j, if s == left then j + 1 else j, es);
    var H4 := H3 - {Dropped(left, right, s)};
    forall n | n in H && n != left && n != right
      ensures ChainMergedAt(H, H4, left, right, s, n)
    {
      assert H3[n].prev == H2[n].prev && H3[n].next == H2[n].next;
    }
  }

  /** The parent of the merged leaves has lost an edge, and the leaf that is no longer an edge is gone. */
  lemma LeafMerged(H: Cells, H3: Cells, A: Places, left: Node, right: Node, s: Node, p: Node, j: nat, es: seq<Node?>)
    requires MergeKin(H, A, left, right, p, j) && A[left].height == 0 && (s == left || s == right)
    requires |H[p].edges| == |H[p].keys| + 1 && OuterLinks(H, left, right, p)
    requires es == H[p].edges[if s == left then j + 2 else j + 1..]
    requires p in LeavesJoined(H, left, right, s) && LeavesJoined(H, left, right, s)[p] == H[p]
    requires EdgeRemoved(LeavesJoined(H, left, right, s), H3, p, j, if s == left then j + 1 else j, es)
    ensures Merged(H, H3 - {Dropped(left, right, s)}, left, right, s, p, j, [])
    ensures ChainMerged(H, H3 - {Dropped(left, right, s)}, left, right, s)
  {
    hide LeavesJoined, Later, HalfMerged, EdgeRemoved, ParentMerged, OthersMerged, ChainMerged, LeafAbsorbed;
    var H2, fs := LeavesJoined(H, left, right, s), H[p].edges[j + 2..];
    MergeKinPlaces(H, A, left, right, p, j);
    LaterHolds(H, A, left, right, s, p, j, es, fs);
    LeafPairEdges(H, A, left, right, p, j);
    LeavesJoinedCells(H, left, right, s, p);
    LeavesJoinedDropped(H, left, right, s, p);
    JoinedHalf(H, H2, left, right, s, p);
    StepsParent(H, H2, H3, left, right, s, p, j, es, fs);
    StepsOthers(H, H2, H3, left, right, s, p, j, es, fs);
    LeafStepsChain(H, H2, H3, left, right, s, p, j, es, fs);
    EdgeRemovedKeeps(H2, H3, p, j, if s == left then j + 1 else j, es, s);
    LeafAbsorbedCell(H, left, right, s);
  }

  lemma LeafAbsorbedCell(H: Cells, left: Node, right: Node, s: Node)
    requires left in H && right in H && s in H
    ensures var c := LeafAbsorbed(H, left, right, s);
            c.keys == H[left].keys + [] + H[right].keys && c.vals == H[left].vals + H[right].vals &&
              c.edges == H[s].edges
  {
  }

  lemma LeafPairEdges(H: Cells, A: Places, left: Node, right: Node, p: Node, j: nat)
    requires MergeKin(H, A, left, right, p, j) && A[left].height == 0
    ensures H[left].edges == [] && H[right].edges == [] && A[right].height == 0
  {
    MergeKinPlaces(H, A, left, right, p, j);
  }

  lemma LeavesJoinedDropped(H: Cells, left: Node, right: Node, s: Node, p: Node)
    requires left in H && right in H && (s == left || s == right) && left != right && OuterLinks(H, left, right, p)
    ensures LeavesJoined(H, left, right, s)[Dropped(left, right, s)] == H[Dropped(left, right, s)]
  {
  }

  lemma EdgeRemovedKeeps(H1: Cells, H2: Cells, p: Node, j: nat, e: nat, es: seq<Node?>, n: Node)
    requires p in H1 && j < |H1[p].keys| && e < |H1[p].edges| && EdgeRemoved(H1, H2, p, j, e, es) && n != p && n in H1
    ensures n in H2 && H2[n] == H1[n].(parentIdx := H2[n].parentIdx)
  {
  }

  // ---- internal nodes ----

  /** `H2` is `H` after the edges of the dropped node have been given to `s`, which has then absorbed them. */
  ghost predicate InnerJoined(H: Cells, H1: Cells, H2: Cells, left: Node, right: Node, s: Node, m: Key)
    requires left in H && right in H && s in H
  {
    && Adopted(H, H1, H[Dropped(left, right, s)].edges, s) && s in H1
    && Bumped(H1[s := H1[s].(keys := H[left].keys + [m] + H[right].keys, edges := H[left].edges + H[right].edges)],
              H2, H[right].edges, |H[left].keys| + 1)
  }

  /** The two nodes and the levels below and above them do not overlap. */
  ghost predicate InnerApart(H: Cells, left: Node, right: Node, p: Node)
    requires left in H && right in H && p in H
  {
    && left != right && p != left && p != right
    && |H[left].edges| == |H[left].keys| + 1 && H[left].vals == [] && H[right].vals == []
    && (forall n {:trigger n in H[left].edges} {:trigger n in H[right].edges} :: n in H ==>
          && (n in H[left].edges ==> H[n].parent == left && n != left && n != right && n != p)
          && (n in H[right].edges ==> H[n].parent == right && n != left && n != right && n != p))
    && (forall i {:trigger H[left].edges[i]} :: 0 <= i < |H[left].edges| ==>
          H[left].edges[i] in H && H[H[left].edges[i]].parent == left && H[H[left].edges[i]].parentIdx == i)
    && (forall i {:trigger H[right].edges[i]} :: 0 <= i < |H[right].edges| ==>
          H[right].edges[i] in H && H[H[right].edges[i]].parent == right && H[H[right].edges[i]].parentIdx == i)
  }

  lemma InnerApartHolds(H: Cells, A: Places, left: Node, right: Node, p: Node, j: nat)
    requires MergeKin(H, A, left, right, p, j) && A[left].height > 0
    ensures InnerApart(H, left, right, p)
  {
    MergeKinPlaces(H, A, left, right, p, j);
    KidsBelow(H, A, left);
    KidsBelow(H, A, right);
  }

  lemma InnerJoinedBodies(H: Cells, H1: Cells, H2: Cells, left: Node, right: Node, s: Node, p: Node, m: Key)
    requires left in H && right in H && p in H && InnerApart(H, left, right, p) && (s == left || s == right)
    requires InnerJoined(H, H1, H2, left, right, s, m)
    ensures forall n {:trigger BodySame(H, H2, n)} :: n in H && n != left && n != right ==> BodySame(H, H2, n)
  {
    forall n | n in H && n != left && n != right
      ensures BodySame(H, H2, n)
    {
      assert H1[n].keys == H[n].keys && H1[n].vals == H[n].vals && H1[n].edges == H[n].edges;
      assert H2[n] == H1[n].(parentIdx := H2[n].parentIdx);
    }
  }

  lemma InnerJoinedParents(H: Cells, H1: Cells, H2: Cells, left: Node, right: Node, s: Node, p: Node, m: Key)
    requires left in H && right in H && p in H && InnerApart(H, left, right, p) && (s == left || s == right)
    requires InnerJoined(H, H1, H2, left, right, s, m)
    ensures H2.Keys == H.Keys && s in H2 && H2[p] == H[p]
    ensures forall n {:trigger H2[n]} :: n in H && n !in H[left].edges && n !in H[right].edges ==>
              H2[n].parent == H[n].parent && H2[n].parentIdx == H[n].parentIdx
    ensures H2[s].keys == H[left].keys + [m] + H[right].keys && H2[s].vals == [] &&
            H2[s].edges == H[left].edges + H[right].edges
  {
    assert s !in H[left].edges && s !in H[right].edges && p !in H[left].edges && p !in H[right].edges;
    assert H[s].vals == [];
    hide InnerApart;
  }

  lemma InnerJoinedHalf(H: Cells, H1: Cells, H2: Cells, left: Node, right: Node, s: Node, p: Node, m: Key)
    requires left in H && right in H && p in H && InnerApart(H, left, right, p) && (s == left || s == right)
    requires InnerJoined(H, H1, H2, left, right, s, m)
    ensures HalfMerged(H, H2, left, right, s, p)
    ensures s in H2 && H2[s].keys == H[left].keys + [m] + H[right].keys && H2[s].vals == [] &&
            H2[s].edges == H[left].edges + H[right].edges
  {
    InnerJoinedBodies(H, H1, H2, left, right, s, p, m);
    InnerJoinedParents(H, H1, H2, left, right, s, p, m);
    hide BodySame, InnerApart, InnerJoined;
  }

  lemma InnerJoinedEdges(H: Cells, H1: Cells, H2: Cells, left: Node, right: Node, s: Node, p: Node, m: Key)
    requires left in H && right in H && p in H && InnerApart(H, left, right, p) && (s == left || s == right)
    requires InnerJoined(H, H1, H2, left, right, s, m)
    ensures forall i {:trigger H[left].edges[i]} :: 0 <= i < |H[left].edges| ==>
              var x := H[left].edges[i]; x in H2 && H2[x].parent == s && H2[x].parentIdx == i
    ensures forall i {:trigger H[right].edges[i]} :: 0 <= i < |H[right].edges| ==>
              var x := H[right].edges[i]; x in H2 && H2[x].parent == s && H2[x].parentIdx == |H[left].edges| + i
  {
    forall i | 0 <= i < |H[left].edges|
      ensures var x := H[left].edges[i]; x in H2 && H2[x].parent == s && H2[x].parentIdx == i
    {
      assert H[left].edges[i] in H[left].edges && H[left].edges[i] !in H[right].edges;
    }
    forall i | 0 <= i < |H[right].edges|
      ensures var x := H[right].edges[i]; x in H2 && H2[x].parent == s && H2[x].parentIdx == |H[left].edges| + i
    {
      assert H[right].edges[i] in H[right].edges && H[right].edges[i] !in H[left].edges;
    }
  }

  lemma InnerStepsEdges(H: Cells, H2: Cells, H3: Cells, left: Node, right: Node, s: Node, p: Node, j: nat, e: nat,
                        es: seq<Node?>)
    requires left in H && right in H && p in H && InnerApart(H, left, right, p) && (s == left || s == right) && s in H2
    requires H2[s].edges == H[left].edges + H[right].edges
    requires forall i {:trigger H[left].edges[i]} :: 0 <= i < |H[left].edges| ==>
               var x := H[left].edges[i]; x in H2 && H2[x].parent == s && H2[x].parentIdx == i
    requires forall i {:trigger H[right].edges[i]} :: 0 <= i < |H[right].edges| ==>
               var x := H[right].edges[i]; x in H2 && H2[x].parent == s && H2[x].parentIdx == |H[left].edges| + i
    requires p in H2 && j < |H2[p].keys| && e < |H2[p].edges| && EdgeRemoved(H2, H3, p, j, e, es)
    requires forall n {:trigger H[n]} :: n in H && n in es ==> H[n].parent == p
    ensures EdgesMerged(H, H3 - {Dropped(left, right, s)}, left, right, s)
  {
    var H4, all := H3 - {Dropped(left, right, s)}, H[left].edges + H[right].edges;
    forall i | 0 <= i < |all|
      ensures all[i] in H4 && H4[all[i]].parent == s && H4[all[i]].parentIdx == i
    {
      var x := if i < |H[left].edges| then H[left].edges[i] else H[right].edges[i - |H[left].edges|];
      assert x in H[left].edges || x in H[right].edges;
      assert x == all[i] && x !in es && x != p && x != left && x != right;
    }
  }

  lemma LaterParents(H: Cells, left: Node, right: Node, s: Node, p: Node, j: nat, es: seq<Node?>, fs: seq<Node?>)
    requires left in H && right in H && p in H && Later(H, left, right, s, p, j, es, fs)
    ensures forall n {:trigger H[n]} :: n in H && n in es ==> H[n].parent == p
  {
  }

  /** The parent of the merged internal nodes has lost an edge, and the node that is no longer an edge is gone. */
  lemma InnerMerged(H: Cells, H1: Cells, H2: Cells, H3: Cells, A: Places, left: Node, right: Node, s: Node, p: Node,
                    j: nat, es: seq<Node?>)
    requires MergeKin(H, A, left, right, p, j) && A[left].height > 0 && (s == left || s == right)
    requires |H[p].edges| == |H[p].keys| + 1 && es == H[p].edges[if s == left then j + 2 else j + 1..]
    requires InnerJoined(H, H1, H2, left, right, s, H[p].keys[j]) && p in H2 && H2[p] == H[p]
    requires EdgeRemoved(H2, H3, p, j, if s == left then j + 1 else j, es)
    ensures Merged(H, H3 - {Dropped(left, right, s)}, left, right, s, p, j, [H[p].keys[j]])
  {
    hide Later, HalfMerged, EdgeRemoved, ParentMerged, OthersMerged, EdgesMerged, InnerJoined;
    var fs := H[p].edges[j + 2..];
    LaterHolds(H, A, left, right, s, p, j, es, fs);
    LaterParents(H, left, right, s, p, j, es, fs);
    InnerApartHolds(H, A, left, right, p, j);
    InnerApartParents(H, left, right, p);
    InnerJoinedHalf(H, H1, H2, left, right, s, p, H[p].keys[j]);
    InnerJoinedEdges(H, H1, H2, left, right, s, p, H[p].keys[j]);
    MergeKinPlaces(H, A, left, right, p, j);
    hide MergeKin;
    InnerStepsEdges(H, H2, H3, left, right, s, p, j, if s == left then j + 1 else j, es);
    StepsParent(H, H2, H3, left, right, s, p, j, es, fs);
    StepsOthers(H, H2, H3, left, right, s, p, j, es, fs);
    EdgeRemovedKeeps(H2, H3, p, j, if s == left then j + 1 else j, es, s);
  }

  lemma InnerApartParents(H: Cells, left: Node, right: Node, p: Node)
    requires left in H && right in H && p in H && InnerApart(H, left, right, p)
    ensures forall n {:trigger H[n]} :: n in H && (n in H[left].edges || n in H[right].edges) ==> H[n].parent != p
  {
  }

  // ---- what a merge keeps ----

  lemma LeafMergedKept(H: Cells, H4: Cells, t: Shape, hole: Node?, left: Node, right: Node, s: Node, p: Node, j: nat,
                       q: nat)
    requires Wf(H, t, hole) && left in t.places && right in t.places && p in t.places && t.places[p].height > 0
    requires left in H && right in H && p in H && j < |H[p].keys| && |H[p].edges| == |H[p].keys| + 1
    requires Merged(H, H4, left, right, s, p, j, []) && left != right
    requires q + 1 < |t.leaves| && t.leaves[q] == left && t.leaves[q + 1] == right
    requires ForeignSame(H, H4, t.places)
    ensures Kept(H, t, H4, t.(places := MergedPlaces(t.places, left, right, s), leaves := MergedLeaves(t.leaves, q, s)))
  {
    var A, ls := t.places, t.leaves;
    ChainDistinct(H, A, ls);
    forall i | 0 <= i < |ls| && i != q && i != q + 1
      ensures EntriesSame(H, H4, ls[i])
    {
      assert LinkAt(H, A, ls, i) && BodySame(H, H4, ls[i]);
    }
    assert LinkAt(H, A, ls, q) && LinkAt(H, A, ls, q + 1);
    FlatMerge(H, H4, ls, q, s);
    MergedOthersGone(H, H4, A, left, right, s);
  }

  lemma MergedOthersGone(H: Cells, H4: Cells, A: Places, left: Node, right: Node, s: Node)
    requires left in A && right in A && left in H && right in H && (s == left || s == right) && left != right &&
             ForeignSame(H, H4, A)
    requires H4.Keys == H.Keys - {Dropped(left, right, s)}
    ensures H4 - MergedPlaces(A, left, right, s).Keys == H - A.Keys
  {
    assert MergedPlaces(A, left, right, s).Keys == A.Keys - {Dropped(left, right, s)};
  }

  lemma InnerMergedKept(H: Cells, H4: Cells, t: Shape, hole: Node?, left: Node, right: Node, s: Node, p: Node, j: nat,
                        mid: seq<Key>)
    requires Wf(H, t, hole) && left in t.places && right in t.places && p in t.places && t.places[p].height > 0
    requires t.places[left].height > 0 && t.places[right].height > 0
    requires left in H && right in H && p in H && j < |H[p].keys| && |H[p].edges| == |H[p].keys| + 1
    requires Merged(H, H4, left, right, s, p, j, mid) && left != right
    requires ForeignSame(H, H4, t.places)
    ensures Kept(H, t, H4, t.(places := MergedPlaces(t.places, left, right, s)))
  {
    var A, ls := t.places, t.leaves;
    forall i | 0 <= i < |ls|
      ensures EntriesSame(H, H4, ls[i])
    {
      assert LinkAt(H, A, ls, i) && BodySame(H, H4, ls[i]);
    }
    FlatFrame(H, H4, ls);
    var A1 := MergedPlaces(A, left, right, s);
    assert A1.Keys == A.Keys - {Dropped(left, right, s)};
    assert H4 - A1.Keys == H - A.Keys;
  }

  /** No node outside `A` changes. */
  ghost predicate ForeignSame(H: Cells, H1: Cells, A: Places) {
    forall n {:trigger H1[n]} {:trigger H[n]} :: n in H && n !in A ==> n in H1 && H1[n] == H[n]
  }

  /** A node of `A` gets another body, and edges that are nodes of `A` are renumbered. */
  lemma BumpedAfter(H1: Cells, n: Node, c: Cell, H2: Cells, es: seq<Node?>, d: int, A: Places)
    requires n in H1 && n in A && c.prev == H1[n].prev && c.next == H1[n].next && Bumped(H1[n := c], H2, es, d)
    requires forall x {:trigger x in A} :: x in es && x in H1 ==> x in A
    ensures H2.Keys == H1.Keys && ForeignSame(H1, H2, A)
    ensures forall x {:trigger ChainSame(H1, H2, x)} :: x in H1 ==> ChainSame(H1, H2, x)
  {
    forall x | x in H1 && x !in A
      ensures H2[x] == H1[x]
    {
      assert x !in es;
    }
  }

  lemma EdgesIn(H: Cells, A: Places, left: Node, right: Node, p: Node, j: nat)
    requires MergeKin(H, A, left, right, p, j)
    ensures forall x {:trigger x in A} :: x in H[p].edges ==> x in A && x in H
    ensures p in A && p !in H[p].edges && left in A && right in A
  {
    EdgesBelowParent(H, A, p);
    KidsBelow(H, A, p);
    hide InnerOk, LocalOk, LinksOk;
  }

  lemma EdgeRemovedForeign(H: Cells, H2: Cells, H3: Cells, A: Places, left: Node, right: Node, s: Node, p: Node, j: nat,
                           es: seq<Node?>)
    requires MergeKin(H, A, left, right, p, j) && (s == left || s == right) && |H[p].edges| == |H[p].keys| + 1
    requires es == H[p].edges[if s == left then j + 2 else j + 1..]
    requires ForeignSame(H, H2, A) && H2.Keys == H.Keys && p in H2 && H2[p] == H[p]
    requires EdgeRemoved(H2, H3, p, j, if s == left then j + 1 else j, es)
    ensures ForeignSame(H, H3 - {Dropped(left, right, s)}, A) && H3.Keys == H.Keys
    ensures forall n {:trigger ChainSame(H2, H3, n)} :: n in H ==> ChainSame(H2, H3, n)
  {
    EdgesIn(H, A, left, right, p, j);
    var c := H2[p].(keys := Del(H2[p].keys, j), edges := Del(H2[p].edges, if s == left then j + 1 else j));
    hide MergeKin, Bumped;
    assert forall x :: x in es ==> x in H[p].edges;
    BumpedAfter(H2, p, c, H3, es, -1, A);
  }

  lemma LeavesJoinedForeign(H: Cells, A: Places, ls: seq<Node>, left: Node, right: Node, s: Node, p: Node)
    requires left in A && right in A && left in H && right in H && (s == left || s == right)
    requires A[left].height == A[right].height == 0 && ChainOk(H, A, ls) && OuterLinks(H, left, right, p) &&
             left != right
    ensures ForeignSame(H, LeavesJoined(H, left, right, s), A) && LeavesJoined(H, left, right, s).Keys == H.Keys
  {
    LeavesJoinedCells(H, left, right, s, p);
    var i :| 0 <= i < |ls| && ls[i] == left;
    var k :| 0 <= k < |ls| && ls[k] == right;
    assert LinkAt(H, A, ls, i) && LinkAt(H, A, ls, k);
    assert i > 0 ==> LinkAt(H, A, ls, i - 1);
    assert k + 1 < |ls| ==> LinkAt(H, A, ls, k + 1);
    hide LeavesJoined;
  }

  /** Merging two leaves. */
  lemma LeafMergeOk(H: Cells, H3: Cells, t: Shape, left: Node, right: Node, s: Node, p: Node, j: nat, es: seq<Node?>)
    returns (t1: Shape)
    requires CanMerge(H, t, left, right, s, p, j) && t.places[left].height == 0
    requires |H[p].edges| == |H[p].keys| + 1 && OuterLinks(H, left, right, p)
    requires es == H[p].edges[if s == left then j + 2 else j + 1..]
    requires p in LeavesJoined(H, left, right, s) && LeavesJoined(H, left, right, s)[p] == H[p]
    requires EdgeRemoved(LeavesJoined(H, left, right, s), H3, p, j, if s == left then j + 1 else j, es)
    ensures t1.root == t.root && t1.height == t.height && t1.places == MergedPlaces(t.places, left, right, s)
    ensures Wf(H3 - {Dropped(left, right, s)}, t1, p) && Kept(H, t, H3 - {Dropped(left, right, s)}, t1)
  {
    var H4, A := H3 - {Dropped(left, right, s)}, t.places;
    hide LeavesJoined, EdgeRemoved, Merged, ChainMerged, Kept;
    MergeKinPlaces(H, A, left, right, p, j);
    LeafMerged(H, H3, A, left, right, s, p, j, es);
    LeavesJoinedForeign(H, A, t.leaves, left, right, s, p);
    EdgeRemovedForeign(H, LeavesJoined(H, left, right, s), H3, A, left, right, s, p, j, es);
    var q := Neighbours(H, A, t.leaves, left, right);
    hide MergeKin, LocalOk, InnerOk, ChainOk, MergedPlaces, MergedLeaves;
    ChainMergedOk(H, H4, A, left, right, s, t.leaves, q);
    MergedOk(H, H4, t, left, right, s, p, j, [], MergedLeaves(t.leaves, q, s));
    LeafMergedKept(H, H4, t, s, left, right, s, p, j, q);
    t1 := t.(places := MergedPlaces(A, left, right, s), leaves := MergedLeaves(t.leaves, q, s));
  }

  lemma AdoptedForeign(H: Cells, H1: Cells, A: Places, n: Node, s: Node)
    requires LocalOk(H, A, n) && Adopted(H, H1, H[n].edges, s)
    ensures ForeignSame(H, H1, A) && H1.Keys == H.Keys
    ensures forall x {:trigger ChainSame(H, H1, x)} :: x in H ==> ChainSame(H, H1, x)
  {
    EdgesBelow(H, A, n);
    hide LocalOk;
  }

  lemma AbsorbedForeign(H: Cells, H1: Cells, H2: Cells, A: Places, n: Node, s: Node, d: int, ks: seq<Key>,
                        es: seq<Node?>)
    requires LocalOk(H, A, n) && H1.Keys == H.Keys && s in H1 && s in A
    requires Bumped(H1[s := H1[s].(keys := ks, edges := es)], H2, H[n].edges, d)
    ensures ForeignSame(H1, H2, A) && H2.Keys == H.Keys
    ensures forall x {:trigger ChainSame(H1, H2, x)} :: x in H ==> ChainSame(H1, H2, x)
  {
    EdgesBelow(H, A, n);
    hide LocalOk, Bumped;
    BumpedAfter(H1, s, H1[s].(keys := ks, edges := es), H2, H[n].edges, d, A);
  }

  lemma InnerJoinedForeign(H: Cells, H1: Cells, H2: Cells, A: Places, left: Node, right: Node, s: Node, m: Key)
    requires left in H && right in H && left in A && right in A && (s == left || s == right)
    requires LocalOk(H, A, left) && LocalOk(H, A, right)
    requires InnerJoined(H, H1, H2, left, right, s, m)
    ensures ForeignSame(H, H2, A) && H2.Keys == H.Keys
    ensures forall n {:trigger ChainSame(H, H2, n)} :: n in H ==> ChainSame(H, H2, n)
  {
    hide LocalOk;
    AdoptedForeign(H, H1, A, Dropped(left, right, s), s);
    AbsorbedForeign(H, H1, H2, A, right, s, |H[left].keys| + 1, H[left].keys + [m] + H[right].keys,
      H[left].edges + H[right].edges);
    hide Adopted, Bumped;
    forall n | n in H
      ensures ChainSame(H, H2, n)
    {
      assert ChainSame(H, H1, n) && ChainSame(H1, H2, n);
    }
  }

  lemma InnerChain(H: Cells, H2: Cells, H3: Cells, A: Places, ls: seq<Node>, left: Node, right: Node, s: Node)
    requires ChainOk(H, A, ls) && left in A && right in A && A[left].height > 0 && A[right].height > 0
    requires forall n {:trigger ChainSame(H, H2, n)} :: n in H ==> ChainSame(H, H2, n)
    requires forall n {:trigger ChainSame(H2, H3, n)} :: n in H ==> ChainSame(H2, H3, n)
    requires s == left || s == right
    ensures ChainOk(H3 - {Dropped(left, right, s)}, MergedPlaces(A, left, right, s), ls)
  {
    var H4, A1 := H3 - {Dropped(left, right, s)}, MergedPlaces(A, left, right, s);
    forall n | n in A && A[n].height == 0 && n in H
      ensures LinksSame(H, A, H4, A1, n)
    {
      assert ChainSame(H, H2, n) && ChainSame(H2, H3, n);
    }
    ChainFrame(H, A, H4, A1, ls);
  }

  /** Merging two internal nodes. */
  lemma InnerMergeOk(H: Cells, H1: Cells, H2: Cells, H3: Cells, t: Shape, left: Node, right: Node, s: Node, p: Node,
                     j: nat, es: seq<Node?>)
    returns (t1: Shape)
    requires CanMerge(H, t, left, right, s, p, j) && t.places[left].height > 0
    requires |H[p].edges| == |H[p].keys| + 1 && es == H[p].edges[if s == left then j + 2 else j + 1..]
    requires InnerJoined(H, H1, H2, left, right, s, H[p].keys[j]) && p in H2 && H2[p] == H[p]
    requires EdgeRemoved(H2, H3, p, j, if s == left then j + 1 else j, es)
    ensures t1.root == t.root && t1.height == t.height && t1.places == MergedPlaces(t.places, left, right, s)
    ensures Wf(H3 - {Dropped(left, right, s)}, t1, p) && Kept(H, t, H3 - {Dropped(left, right, s)}, t1)
  {
    var H4, A := H3 - {Dropped(left, right, s)}, t.places;
    hide InnerJoined, EdgeRemoved, Merged, Kept;
    MergeKinPlaces(H, A, left, right, p, j);
    InnerMerged(H, H1, H2, H3, A, left, right, s, p, j, es);
    InnerJoinedForeign(H, H1, H2, A, left, right, s, H[p].keys[j]);
    EdgeRemovedForeign(H, H2, H3, A, left, right, s, p, j, es);
    t1 := t.(places := MergedPlaces(A, left, right, s));
    InnerChain(H, H2, H3, A, t.leaves, left, right, s);
    hide MergeKin, LocalOk, InnerOk, ChainOk, MergedPlaces;
    MergedOk(H, H4, t, left, right, s, p, j, [H[p].keys[j]], t.leaves);
    InnerMergedKept(H, H4, t, s, left, right, s, p, j, [H[p].keys[j]]);
  }
}
