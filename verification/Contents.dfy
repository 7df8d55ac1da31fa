/** The entries of a tree, in the order of its chain of leaves. */
module Contents {
  import opened Seqs
  import opened Nodes
  import opened Trees

  ghost function FlatKeys(H: Cells, ls: seq<Node>): seq<Key> {
    if ls == [] then [] else (if ls[0] in H then H[ls[0]].keys else []) + FlatKeys(H, ls[1..])
  }

  ghost function FlatVals(H: Cells, ls: seq<Node>): seq<Value> {
    if ls == [] then [] else (if ls[0] in H then H[ls[0]].vals else []) + FlatVals(H, ls[1..])
  }

  lemma {:induction false} FlatConcat(H: Cells, a: seq<Node>, b: seq<Node>)
    ensures FlatKeys(H, a + b) == FlatKeys(H, a) + FlatKeys(H, b)
    ensures FlatVals(H, a + b) == FlatVals(H, a) + FlatVals(H, b)
  {
    if a == [] {
      assert a + b == b;
    } else {
      assert (a + b)[1..] == a[1..] + b;
      FlatConcat(H, a[1..], b);
    }
  }

  lemma {:induction false} FlatFrame(H0: Cells, H1: Cells, ls: seq<Node>)
    requires forall i :: 0 <= i < |ls| ==> EntriesSame(H0, H1, ls[i])
    ensures FlatKeys(H1, ls) == FlatKeys(H0, ls) && FlatVals(H1, ls) == FlatVals(H0, ls)
  {
    if ls != [] {
      assert EntriesSame(H0, H1, ls[0]);
      FlatFrame(H0, H1, ls[1..]);
    }
  }

  ghost predicate EntriesSame(H0: Cells, H1: Cells, n: Node) {
    n in H0 && n in H1 && H1[n].keys == H0[n].keys && H1[n].vals == H0[n].vals
  }

  /** The entries before, in and after the leaf at `q`. */
  lemma {:induction false} FlatSplit(H: Cells, ls: seq<Node>, q: nat)
    requires q < |ls| && ls[q] in H
    ensures FlatKeys(H, ls) == FlatKeys(H, ls[..q]) + H[ls[q]].keys + FlatKeys(H, ls[q + 1..])
    ensures FlatVals(H, ls) == FlatVals(H, ls[..q]) + H[ls[q]].vals + FlatVals(H, ls[q + 1..])
  {
    assert ls == ls[..q] + ls[q..] && ls[q..][1..] == ls[q + 1..];
    FlatConcat(H, ls[..q], ls[q..]);
  }

  /** Two neighbours may share their entries out differently. */
  lemma {:induction false} FlatPair(H0: Cells, H1: Cells, ls: seq<Node>, q: nat)
    requires q + 1 < |ls| && Distinct(ls) && ls[q] in H0 && ls[q + 1] in H0 && ls[q] in H1 && ls[q + 1] in H1
    requires forall i :: 0 <= i < |ls| && i != q && i != q + 1 ==> EntriesSame(H0, H1, ls[i])
    requires H1[ls[q]].keys + H1[ls[q + 1]].keys == H0[ls[q]].keys + H0[ls[q + 1]].keys
    requires H1[ls[q]].vals + H1[ls[q + 1]].vals == H0[ls[q]].vals + H0[ls[q + 1]].vals
    ensures FlatKeys(H1, ls) == FlatKeys(H0, ls) && FlatVals(H1, ls) == FlatVals(H0, ls)
  {
    FlatSplitTwo(H0, ls, q);
    FlatSplitTwo(H1, ls, q);
    FlatFrame(H0, H1, ls[..q]);
    FlatFrame(H0, H1, ls[q + 2..]);
  }

  lemma {:induction false} FlatSplitTwo(H: Cells, ls: seq<Node>, q: nat)
    requires q + 1 < |ls| && ls[q] in H && ls[q + 1] in H
    ensures FlatKeys(H, ls) == FlatKeys(H, ls[..q]) + (H[ls[q]].keys + H[ls[q + 1]].keys) + FlatKeys(H, ls[q + 2..])
    ensures FlatVals(H, ls) == FlatVals(H, ls[..q]) + (H[ls[q]].vals + H[ls[q + 1]].vals) + FlatVals(H, ls[q + 2..])
  {
    FlatSplit(H, ls, q);
    assert ls[q + 1..][1..] == ls[q + 2..];
  }

  /** One leaf may take the place of two neighbours if it has their entries. */
  lemma {:induction false} FlatMerge(H0: Cells, H1: Cells, ls: seq<Node>, q: nat, s: Node)
    requires q + 1 < |ls| && ls[q] in H0 && ls[q + 1] in H0 && s in H1
    requires forall i :: 0 <= i < |ls| && i != q && i != q + 1 ==> EntriesSame(H0, H1, ls[i])
    requires H1[s].keys == H0[ls[q]].keys + H0[ls[q + 1]].keys && H1[s].vals == H0[ls[q]].vals + H0[ls[q + 1]].vals
    ensures FlatKeys(H1, ls[..q] + [s] + ls[q + 2..]) == FlatKeys(H0, ls)
    ensures FlatVals(H1, ls[..q] + [s] + ls[q + 2..]) == FlatVals(H0, ls)
  {
    var ls1 := ls[..q] + [s] + ls[q + 2..];
    FlatSplitTwo(H0, ls, q);
    FlatSplit(H1, ls1, q);
    assert ls1[..q] == ls[..q] && ls1[q + 1..] == ls[q + 2..];
    FlatFrame(H0, H1, ls[..q]);
    FlatFrame(H0, H1, ls[q + 2..]);
  }

  /** From (H0, t0) to (H1, t1) the entries are the same, and so are all nodes outside the tree. */
  ghost predicate Kept(H0: Cells, t0: Shape, H1: Cells, t1: Shape) {
    && FlatKeys(H1, t1.leaves) == FlatKeys(H0, t0.leaves) && FlatVals(H1, t1.leaves) == FlatVals(H0, t0.leaves)
    && H1 - t1.places.Keys == H0 - t0.places.Keys
  }
}
