/** The entries of a B+ tree are sorted, and what a change to one leaf does to them. */
module Entries {
  import opened Seqs
  import opened Nodes
  import opened Trees
  import opened Contents

  // ---- order ----

  lemma IncreasingConcat(a: seq<Key>, b: seq<Key>, x: Bound)
    requires Increasing(a) && Increasing(b)
    requires (forall i :: 0 <= i < |a| ==> Less(At(a[i]), x)) && (forall k :: k in b ==> Below(x, k))
    ensures Increasing(a + b)
  {
    forall i, j | 0 <= i < |a| && 0 <= j < |b|
      ensures a[i] < b[j]
    {
      assert b[j] in b;
    }
  }

  /** All keys from leaf `q` on are increasing and not below its range. */
  lemma {:induction false} SortedFrom(H: Cells, A: Places, ls: seq<Node>, q: nat)
    requires ChainOk(H, A, ls) && AllLocal(H, A, {}) && q < |ls|
    ensures ls[q] in A && Increasing(FlatKeys(H, ls[q..])) && |FlatVals(H, ls[q..])| == |FlatKeys(H, ls[q..])|
    ensures forall k :: k in FlatKeys(H, ls[q..]) ==> Below(A[ls[q]].lo, k)
    decreases |ls| - q
  {
    assert LinkAt(H, A, ls, q) && LocalOk(H, A, ls[q]);
    var rest, c := ls[q + 1..], H[ls[q]];
    assert ls[q..] == [ls[q]] + rest && ls[q..][1..] == rest;
    assert FlatKeys(H, ls[q..]) == c.keys + FlatKeys(H, rest);
    if q + 1 < |ls| {
      SortedFrom(H, A, ls, q + 1);
      assert LinkAt(H, A, ls, q + 1);
      IncreasingConcat(c.keys, FlatKeys(H, rest), A[ls[q]].hi);
    }
    forall k | k in FlatKeys(H, ls[q..])
      ensures Below(A[ls[q]].lo, k)
    {
      assert k in c.keys || k in FlatKeys(H, rest);
    }
  }

  /** All keys before leaf `q` are below its range. */
  lemma {:induction false} SortedBefore(H: Cells, A: Places, ls: seq<Node>, q: nat)
    requires ChainOk(H, A, ls) && AllLocal(H, A, {}) && q < |ls|
    ensures ls[q] in A && forall k :: k in FlatKeys(H, ls[..q]) ==> Less(At(k), A[ls[q]].lo)
    decreases q
  {
    assert LinkAt(H, A, ls, q);
    if q > 0 {
      SortedBefore(H, A, ls, q - 1);
      assert LinkAt(H, A, ls, q - 1) && LocalOk(H, A, ls[q - 1]);
      assert ls[..q] == ls[..q - 1] + [ls[q - 1]];
      FlatConcat(H, ls[..q - 1], [ls[q - 1]]);
      assert FlatKeys(H, [ls[q - 1]]) == H[ls[q - 1]].keys;
      forall k | k in FlatKeys(H, ls[..q])
        ensures Less(At(k), A[ls[q]].lo)
      {
        assert k in FlatKeys(H, ls[..q - 1]) || k in H[ls[q - 1]].keys;
      }
    }
  }

  /** The keys of a B+ tree are strictly increasing along its chain of leaves. */
  lemma {:induction false} Sorted(H: Cells, t: Shape, hole: Node?)
    requires Wf(H, t, hole)
    ensures Increasing(FlatKeys(H, t.leaves)) && |FlatVals(H, t.leaves)| == |FlatKeys(H, t.leaves)|
  {
    SortedFrom(H, t.places, t.leaves, 0);
    assert t.leaves[0..] == t.leaves;
  }

  /** The number of entries before index `i` of the leaf `q`. */
  ghost function Position(H: Cells, ls: seq<Node>, q: nat, i: nat): nat
    requires q < |ls|
  {
    |FlatKeys(H, ls[..q])| + i
  }

  /** `i` is where the key belongs among the keys. */
  ghost predicate Splits(ks: seq<Key>, i: nat, key: Key) {
    && i <= |ks| && (forall j :: 0 <= j < i ==> ks[j] < key) && (forall j :: i <= j < |ks| ==> key < ks[j])
  }

  /** Where the key belongs in the one leaf whose range has it, it belongs in the tree. */
  lemma {:induction false} SplitsTree(H: Cells, t: Shape, hole: Node?, q: nat, i: nat, key: Key)
    requires Wf(H, t, hole) && q < |t.leaves| && t.leaves[q] in H && t.leaves[q] in t.places
    requires Below(t.places[t.leaves[q]].lo, key) && Less(At(key), t.places[t.leaves[q]].hi)
    requires Splits(H[t.leaves[q]].keys, i, key)
    ensures Splits(FlatKeys(H, t.leaves), Position(H, t.leaves, q, i), key)
  {
    var A, ls := t.places, t.leaves;
    SortedBefore(H, A, ls, q);
    FlatSplit(H, ls, q);
    var pre, post := FlatKeys(H, ls[..q]), FlatKeys(H, ls[q + 1..]);
    if q + 1 < |ls| {
      SortedFrom(H, A, ls, q + 1);
      assert LinkAt(H, A, ls, q + 1);
    }
    forall j | 0 <= j < |pre|
      ensures pre[j] < key
    {
      assert pre[j] in pre;
    }
    forall j | 0 <= j < |post|
      ensures key < post[j]
    {
      assert post[j] in post;
    }
  }

  // ---- the way down ----

  /** The range of `n` has the key. */
  ghost predicate Covers(A: Places, n: Node, key: Key) {
    n in A && Below(A[n].lo, key) && Less(At(key), A[n].hi)
  }

  /** The result of searching the keys for the key: its index, or where it belongs. */
  ghost predicate Searched(ks: seq<Key>, found: bool, i: nat, key: Key) {
    if found then i < |ks| && ks[i] == key else Splits(ks, i, key)
  }

  /** The edge after the key itself, or the edge where the key belongs, covers the key. */
  lemma DescendOk(H: Cells, t: Shape, hole: Node?, n: Node, found: bool, i: nat, key: Key)
    requires Wf(H, t, hole) && Covers(t.places, n, key) && t.places[n].height > 0 && n in H &&
             Searched(H[n].keys, found, i, key)
    ensures |H[n].edges| == |H[n].keys| + 1 && i < |H[n].edges| && (found ==> i < |H[n].keys|)
    ensures var c := H[n].edges[if found then i + 1 else i];
            c != null && c in H && Covers(t.places, c, key) && t.places[c].height == t.places[n].height - 1
  {
    hide AllUp, AllFill, ChainOk;
    assert LocalOk(H, t.places, n);
    Child(H, t, hole, n, if found then i + 1 else i);
    assert found && i + 1 < |H[n].keys| ==> H[n].keys[i] < H[n].keys[i + 1];
  }

  /** The key is in the tree exactly if it is in the leaf that covers it. */
  lemma {:induction false} LeafDecides(H: Cells, t: Shape, hole: Node?, n: Node, found: bool, i: nat, key: Key)
    returns (q: nat)
    requires Wf(H, t, hole) && Covers(t.places, n, key) && t.places[n].height == 0 && n in H &&
             Searched(H[n].keys, found, i, key)
    ensures q < |t.leaves| && t.leaves[q] == n
    ensures Searched(FlatKeys(H, t.leaves), found, Position(H, t.leaves, q, i), key)
  {
    hide AllUp, AllFill, AllLocal;
    q :| 0 <= q < |t.leaves| && t.leaves[q] == n;
    if found {
      FlatSplit(H, t.leaves, q);
    } else {
      SplitsTree(H, t, hole, q, i, key);
    }
  }

  /** The entry at index `i` of the leaf `q` is the one at that position of the tree. */
  lemma {:induction false} EntryAt(H: Cells, t: Shape, hole: Node?, q: nat, i: nat)
    requires Wf(H, t, hole) && q < |t.leaves| && t.leaves[q] in H && i < |H[t.leaves[q]].keys|
    ensures i < |H[t.leaves[q]].vals|
    ensures var p := Position(H, t.leaves, q, i);
            && p < |FlatKeys(H, t.leaves)| == |FlatVals(H, t.leaves)|
            && FlatKeys(H, t.leaves)[p] == H[t.leaves[q]].keys[i] && FlatVals(H, t.leaves)[p] == H[t.leaves[q]].vals[i]
  {
    var ls := t.leaves;
    Sorted(H, t, hole);
    assert LinkAt(H, t.places, ls, q) && LocalOk(H, t.places, ls[q]);
    FlatSplit(H, ls, q);
    FlatLengths(H, t.places, ls, ls[..q]);
    hide Wf, FlatKeys, FlatVals;
  }

  // ---- a change to one leaf ----

  /** A leaf may change its entries if they fit its place. */
  lemma LeafPatchOk(H: Cells, t: Shape, n: Node, c: Cell, hole: Node?)
    requires Wf(H, t, null) && n in t.places && t.places[n].height == 0 && n in H && (hole == null || hole == n)
    requires c == H[n].(keys := c.keys, vals := c.vals) && LeafOk(c, t.places[n]) && FillOk(H[n := c], t.root, hole, n)
    ensures Wf(H[n := c], t, hole)
  {
    hide LocalOk, ChainOk, UpOk;
    var H1, A := H[n := c], t.places;
    LeafPatchLocal(H, t, n, c);
    LocalsFrame(H, A, H1, A, {n}, {});
    LeafPatchEdges(H, t, n, c);
    UpsFrame(H, A, H1, A, {t.root});
    ChainFrame(H, A, H1, A, t.leaves);
    forall m | m in A
      ensures FillOk(H1, t.root, hole, m)
    {
      assert FillOk(H, t.root, null, m);
    }
  }

  lemma LeafPatchLocal(H: Cells, t: Shape, n: Node, c: Cell)
    requires Wf(H, t, null) && n in t.places && t.places[n].height == 0 && n in H
    requires c == H[n].(keys := c.keys, vals := c.vals) && LeafOk(c, t.places[n])
    ensures LocalOk(H[n := c], t.places, n)
  {
  }

  lemma LeafPatchEdges(H: Cells, t: Shape, n: Node, c: Cell)
    requires Wf(H, t, null) && n in t.places && n in H && c == H[n].(keys := c.keys, vals := c.vals)
    ensures forall m {:trigger EdgesSame(H, H[n := c], m)} :: m in t.places && m in H ==> EdgesSame(H, H[n := c], m)
  {
  }

  /** The entries of a tree after the leaf at `q` has got other entries. */
  lemma {:induction false} LeafPatchEntries(H: Cells, t: Shape, q: nat, c: Cell)
    requires Wf(H, t, null) && q < |t.leaves| && t.leaves[q] in H
    ensures var ls, n, H1 := t.leaves, t.leaves[q], H[t.leaves[q] := c];
            && FlatKeys(H, ls) == FlatKeys(H, ls[..q]) + H[n].keys + FlatKeys(H, ls[q + 1..])
            && FlatVals(H, ls) == FlatVals(H, ls[..q]) + H[n].vals + FlatVals(H, ls[q + 1..])
            && FlatKeys(H1, ls) == FlatKeys(H, ls[..q]) + c.keys + FlatKeys(H, ls[q + 1..])
            && FlatVals(H1, ls) == FlatVals(H, ls[..q]) + c.vals + FlatVals(H, ls[q + 1..])
            && |FlatVals(H, ls[..q])| == |FlatKeys(H, ls[..q])|
  {
    var ls, H1 := t.leaves, H[t.leaves[q] := c];
    ChainDistinct(H, t.places, ls);
    LeafPatchFrame(H, t, q, c);
    FlatSplit(H, ls, q);
    FlatSplit(H1, ls, q);
    FlatFrame(H, H1, ls[..q]);
    FlatFrame(H, H1, ls[q + 1..]);
    FlatLengths(H, t.places, ls, ls[..q]);
  }

  lemma LeafPatchFrame(H: Cells, t: Shape, q: nat, c: Cell)
    requires Wf(H, t, null) && q < |t.leaves| && t.leaves[q] in H && Distinct(t.leaves)
    ensures forall i {:trigger t.leaves[i]} :: 0 <= i < |t.leaves| && i != q ==>
            EntriesSame(H, H[t.leaves[q] := c], t.leaves[i])
  {
    forall i | 0 <= i < |t.leaves| && i != q
      ensures EntriesSame(H, H[t.leaves[q] := c], t.leaves[i])
    {
      assert LinkAt(H, t.places, t.leaves, i);
    }
  }

  lemma {:induction false} FlatLengths(H: Cells, A: Places, ls: seq<Node>, part: seq<Node>)
    requires ChainOk(H, A, ls) && AllLocal(H, A, {}) && forall i :: 0 <= i < |part| ==> part[i] in ls
    ensures |FlatVals(H, part)| == |FlatKeys(H, part)|
  {
    if part != [] {
      var i :| 0 <= i < |ls| && ls[i] == part[0];
      assert LinkAt(H, A, ls, i) && LocalOk(H, A, ls[i]);
      FlatLengths(H, A, ls, part[1..]);
    }
  }

  lemma DelMiddle<T>(a: seq<T>, b: seq<T>, c: seq<T>, i: nat)
    requires i < |b|
    ensures Del(a + b + c, |a| + i) == a + Del(b, i) + c && (a + b + c)[|a| + i] == b[i]
  {
  }

  lemma InsMiddle<T>(a: seq<T>, b: seq<T>, c: seq<T>, i: nat, x: T)
    requires i <= |b|
    ensures Ins(a + b + c, |a| + i, x) == a + Ins(b, i, x) + c
  {
  }

  lemma SetMiddle<T>(a: seq<T>, b: seq<T>, c: seq<T>, i: nat, x: T)
    requires i < |b|
    ensures (a + b + c)[|a| + i := x] == a + b[i := x] + c && (a + b + c)[|a| + i] == b[i]
  {
  }

  /** A leaf may lose an entry, and then lack a key. */
  lemma RemoveValOk(H: Cells, t: Shape, q: nat, i: nat, c: Cell)
    requires Wf(H, t, null) && q < |t.leaves| && t.leaves[q] in H && i < |H[t.leaves[q]].keys| == |H[t.leaves[q]].vals|
    requires var n := t.leaves[q]; c == H[n].(keys := Del(H[n].keys, i), vals := Del(H[n].vals, i))
    ensures Wf(H[t.leaves[q] := c], t, t.leaves[q])
  {
    var n := t.leaves[q];
    assert LinkAt(H, t.places, t.leaves, q) && LocalOk(H, t.places, n) && FillOk(H, t.root, null, n);
    IncreasingDel(H[n].keys, i);
    hide AllLocal, AllUp, AllFill, ChainOk;
    LeafPatchOk(H, t, n, c, n);
  }

  /** Then the tree has lost that entry. */
  lemma {:induction false} RemoveValEntries(H: Cells, t: Shape, q: nat, i: nat, c: Cell)
    requires Wf(H, t, null) && q < |t.leaves| && t.leaves[q] in H && i < |H[t.leaves[q]].keys| == |H[t.leaves[q]].vals|
    requires var n := t.leaves[q]; c == H[n].(keys := Del(H[n].keys, i), vals := Del(H[n].vals, i))
    ensures var n, p, H1 := t.leaves[q], Position(H, t.leaves, q, i), H[t.leaves[q] := c];
            && p < |FlatKeys(H, t.leaves)| == |FlatVals(H, t.leaves)| == |FlatKeys(H1, t.leaves)| + 1
            && FlatKeys(H1, t.leaves) == Del(FlatKeys(H, t.leaves), p) &&
               FlatVals(H1, t.leaves) == Del(FlatVals(H, t.leaves), p)
            && FlatKeys(H, t.leaves)[p] == H[n].keys[i] && FlatVals(H, t.leaves)[p] == H[n].vals[i]
  {
    var ls, n := t.leaves, t.leaves[q];
    LeafPatchEntries(H, t, q, c);
    Sorted(H, t, null);
    hide Wf, FlatKeys, FlatVals, Del, Increasing;
    DelMiddle(FlatKeys(H, ls[..q]), H[n].keys, FlatKeys(H, ls[q + 1..]), i);
    DelMiddle(FlatVals(H, ls[..q]), H[n].vals, FlatVals(H, ls[q + 1..]), i);
  }

  /** From (H0, t0) to (H1, t1) an entry has been inserted at `p`, and all nodes outside the tree are the same. */
  ghost predicate Inserted(H0: Cells, t0: Shape, H1: Cells, t1: Shape, p: nat, key: Key, val: Value) {
    && p <= |FlatKeys(H0, t0.leaves)| == |FlatVals(H0, t0.leaves)|
    && FlatKeys(H1, t1.leaves) == Ins(FlatKeys(H0, t0.leaves), p, key)
    && FlatVals(H1, t1.leaves) == Ins(FlatVals(H0, t0.leaves), p, val)
    && H1 - t1.places.Keys == H0 - t0.places.Keys
  }

  /** A leaf that is not full may get an entry where it belongs. */
  lemma InsertValOk(H: Cells, t: Shape, q: nat, i: nat, key: Key, val: Value, c: Cell)
    requires Wf(H, t, null) && q < |t.leaves| && t.leaves[q] in H && |H[t.leaves[q]].keys| < M
    requires Covers(t.places, t.leaves[q], key) && Splits(H[t.leaves[q]].keys, i, key) && i <= |H[t.leaves[q]].vals|
    requires var n := t.leaves[q]; c == H[n].(keys := Ins(H[n].keys, i, key), vals := Ins(H[n].vals, i, val))
    ensures Wf(H[t.leaves[q] := c], t, null)
  {
    var n := t.leaves[q];
    assert LinkAt(H, t.places, t.leaves, q) && LocalOk(H, t.places, n) && FillOk(H, t.root, null, n);
    IncreasingIns(H[n].keys, i, key);
    hide AllLocal, AllUp, AllFill, ChainOk;
    LeafPatchOk(H, t, n, c, null);
  }

  /** Then the tree has got that entry. */
  lemma {:induction false} InsertValEntries(H: Cells, t: Shape, q: nat, i: nat, key: Key, val: Value, c: Cell)
    requires Wf(H, t, null) && q < |t.leaves| && t.leaves[q] in H && i <= |H[t.leaves[q]].keys| == |H[t.leaves[q]].vals|
    requires var n := t.leaves[q]; c == H[n].(keys := Ins(H[n].keys, i, key), vals := Ins(H[n].vals, i, val))
    ensures Inserted(H, t, H[t.leaves[q] := c], t, Position(H, t.leaves, q, i), key, val)
  {
    var ls, n := t.leaves, t.leaves[q];
    hide AllLocal, AllUp, AllFill, FlatKeys, FlatVals, Ins, Increasing;
    LeafPatchEntries(H, t, q, c);
    Sorted(H, t, null);
    assert LinkAt(H, t.places, ls, q);
    InsideOnly(H, t, n, c);
    hide Wf;
    InsMiddle(FlatKeys(H, ls[..q]), H[n].keys, FlatKeys(H, ls[q + 1..]), i, key);
    InsMiddle(FlatVals(H, ls[..q]), H[n].vals, FlatVals(H, ls[q + 1..]), i, val);
  }

  lemma InsideOnly(H: Cells, t: Shape, n: Node, c: Cell)
    requires n in t.places
    ensures H[n := c] - t.places.Keys == H - t.places.Keys
  {
  }

  /** A leaf may get another value for one of its keys. */
  lemma SetValOk(H: Cells, t: Shape, q: nat, i: nat, val: Value, c: Cell)
    requires Wf(H, t, null) && q < |t.leaves| && t.leaves[q] in H && i < |H[t.leaves[q]].vals|
    requires var n := t.leaves[q]; c == H[n].(vals := H[n].vals[i := val])
    ensures Wf(H[t.leaves[q] := c], t, null)
  {
    var n := t.leaves[q];
    assert LinkAt(H, t.places, t.leaves, q) && LocalOk(H, t.places, n) && FillOk(H, t.root, null, n);
    hide AllLocal, AllUp, AllFill, ChainOk;
    LeafPatchOk(H, t, n, c, null);
  }

  /** Then the tree has that value for that key. */
  lemma {:induction false} SetValEntries(H: Cells, t: Shape, q: nat, i: nat, val: Value, c: Cell)
    requires Wf(H, t, null) && q < |t.leaves| && t.leaves[q] in H && i < |H[t.leaves[q]].vals|
    requires var n := t.leaves[q]; c == H[n].(vals := H[n].vals[i := val])
    ensures var p, H1 := Position(H, t.leaves, q, i), H[t.leaves[q] := c];
            && p < |FlatVals(H, t.leaves)| && FlatKeys(H1, t.leaves) == FlatKeys(H, t.leaves)
            && FlatVals(H1, t.leaves) == FlatVals(H, t.leaves)[p := val] &&
               FlatVals(H, t.leaves)[p] == H[t.leaves[q]].vals[i]
  {
    var ls, n := t.leaves, t.leaves[q];
    LeafPatchEntries(H, t, q, c);
    hide Wf, FlatKeys, FlatVals;
    SetMiddle(FlatVals(H, ls[..q]), H[n].vals, FlatVals(H, ls[q + 1..]), i, val);
  }

  // ---- the map that the entries stand for ----

  ghost function ToMap(ks: seq<Key>, vs: seq<Value>): (m: map<Key, Value>)
    requires |ks| == |vs|
  {
    if ks == [] then map[] else ToMap(ks[1..], vs[1..])[ks[0] := vs[0]]
  }

  lemma {:induction false} ToMapAt(ks: seq<Key>, vs: seq<Value>)
    requires |ks| == |vs| && Increasing(ks)
    ensures forall k :: k in ToMap(ks, vs) <==> k in ks
    ensures forall i :: 0 <= i < |ks| ==> ToMap(ks, vs)[ks[i]] == vs[i]
    ensures |ToMap(ks, vs)| == |ks|
  {
    if ks != [] {
      ToMapAt(ks[1..], vs[1..]);
      forall i | 0 <= i < |ks|
        ensures ks[i] in ToMap(ks, vs) && ToMap(ks, vs)[ks[i]] == vs[i]
      {
        if i > 0 {
          assert ks[i] == ks[1..][i - 1] && vs[i] == vs[1..][i - 1];
        }
      }
      assert ks[0] !in ks[1..];
      assert ToMap(ks, vs).Keys == ToMap(ks[1..], vs[1..]).Keys + {ks[0]};
    }
  }

  /** `m` is the map of the entries if it has their keys and values. */
  lemma {:induction false} ToMapIs(ks: seq<Key>, vs: seq<Value>, m: map<Key, Value>)
    requires |ks| == |vs| && Increasing(ks)
    requires forall k :: k in m <==> k in ks
    requires forall i :: 0 <= i < |ks| ==> ks[i] in m && m[ks[i]] == vs[i]
    ensures ToMap(ks, vs) == m
  {
    ToMapAt(ks, vs);
    var m0 := ToMap(ks, vs);
    forall k
      ensures k in m0 <==> k in m
    {
      assert k in m0 <==> k in ks;
    }
    assert m0.Keys == m.Keys;
    forall k | k in m0
      ensures m0[k] == m[k]
    {
      var i :| 0 <= i < |ks| && ks[i] == k;
      assert m0[ks[i]] == vs[i] == m[ks[i]];
    }
    assert m0 == m;
  }

  lemma IncreasingIns(ks: seq<Key>, i: nat, key: Key)
    requires Increasing(ks) && Splits(ks, i, key)
    ensures Increasing(Ins(ks, i, key)) && key !in ks && forall k :: k in Ins(ks, i, key) <==> k == key || k in ks
  {
    assert Ins(ks, i, key)[i] == key;
    forall j | 0 <= j < |ks|
      ensures ks[j] in Ins(ks, i, key)
    {
      assert ks[j] == Ins(ks, i, key)[if j < i then j else j + 1];
    }
  }

  lemma {:induction false} ToMapIns(ks: seq<Key>, vs: seq<Value>, i: nat, key: Key, val: Value)
    requires |ks| == |vs| && Increasing(ks) && Splits(ks, i, key)
    ensures Increasing(Ins(ks, i, key)) && key !in ToMap(ks, vs)
    ensures ToMap(Ins(ks, i, key), Ins(vs, i, val)) == ToMap(ks, vs)[key := val]
  {
    ToMapAt(ks, vs);
    IncreasingIns(ks, i, key);
    var ks1, vs1, m := Ins(ks, i, key), Ins(vs, i, val), ToMap(ks, vs)[key := val];
    forall j | 0 <= j < |ks1|
      ensures m[ks1[j]] == vs1[j]
    {
      if j != i {
        var j0 := if j < i then j else j - 1;
        assert ks1[j] == ks[j0] && vs1[j] == vs[j0];
      }
    }
    ToMapIs(ks1, vs1, m);
  }

  lemma IncreasingDel(ks: seq<Key>, i: nat)
    requires Increasing(ks) && i < |ks|
    ensures Increasing(Del(ks, i)) && forall k :: k in Del(ks, i) <==> k != ks[i] && k in ks
  {
    forall j | 0 <= j < |ks| && j != i
      ensures ks[j] in Del(ks, i)
    {
      assert ks[j] == Del(ks, i)[if j < i then j else j - 1];
    }
  }

  lemma {:induction false} ToMapDel(ks: seq<Key>, vs: seq<Value>, i: nat)
    requires |ks| == |vs| && Increasing(ks) && i < |ks|
    ensures Increasing(Del(ks, i)) && ks[i] in ToMap(ks, vs) && ToMap(ks, vs)[ks[i]] == vs[i]
    ensures ToMap(Del(ks, i), Del(vs, i)) == ToMap(ks, vs) - {ks[i]}
  {
    ToMapAt(ks, vs);
    IncreasingDel(ks, i);
    var ks1, vs1, m := Del(ks, i), Del(vs, i), ToMap(ks, vs) - {ks[i]};
    forall j | 0 <= j < |ks1|
      ensures ks1[j] in m && m[ks1[j]] == vs1[j]
    {
      var j0 := if j < i then j else j + 1;
      assert ks1[j] == ks[j0] && vs1[j] == vs[j0];
    }
    ToMapIs(ks1, vs1, m);
  }

  lemma {:induction false} ToMapSet(ks: seq<Key>, vs: seq<Value>, i: nat, val: Value)
    requires |ks| == |vs| && Increasing(ks) && i < |ks|
    ensures ks[i] in ToMap(ks, vs) && ToMap(ks, vs)[ks[i]] == vs[i]
    ensures ToMap(ks, vs[i := val]) == ToMap(ks, vs)[ks[i] := val]
  {
    ToMapAt(ks, vs);
    ToMapIs(ks, vs[i := val], ToMap(ks, vs)[ks[i] := val]);
  }

  lemma SomeKey(ks: seq<Key>)
    requires ks != []
    ensures ks[0] in ks
  {
  }

  /** Two increasing sequences of the same keys are the same. */
  lemma {:induction false} SameKeys(ks: seq<Key>, ks1: seq<Key>)
    requires Increasing(ks) && Increasing(ks1) && forall k :: k in ks <==> k in ks1
    ensures ks == ks1
  {
    if ks == [] {
      if ks1 != [] {
        SomeKey(ks1);
        assert false;
      }
    } else {
      assert ks[0] in ks1 && ks1[0] in ks;
      assert ks[0] == ks1[0];
      forall k
        ensures k in ks[1..] <==> k in ks1[1..]
      {
        assert k in ks[1..] <==> k in ks && k != ks[0];
        assert k in ks1[1..] <==> k in ks1 && k != ks1[0];
      }
      SameKeys(ks[1..], ks1[1..]);
    }
  }

  /** Maps with the same contents have the same entries in the same order. */
  lemma {:induction false} SameMapSameEntries(ks: seq<Key>, vs: seq<Value>, ks1: seq<Key>, vs1: seq<Value>)
    requires |ks| == |vs| && Increasing(ks) && |ks1| == |vs1| && Increasing(ks1)
    requires ToMap(ks, vs) == ToMap(ks1, vs1)
    ensures ks == ks1 && vs == vs1
  {
    ToMapAt(ks, vs);
    ToMapAt(ks1, vs1);
    var m, m1 := ToMap(ks, vs), ToMap(ks1, vs1);
    forall k
      ensures k in ks <==> k in ks1
    {
      assert k in m <==> k in m1;
    }
    SameKeys(ks, ks1);
    assert forall i :: 0 <= i < |ks| ==> m[ks[i]] == vs[i] && m1[ks1[i]] == vs1[i];
  }
}
