/** Runs of operations on maps that share a store, against runs of the same operations on finite maps. */
module Runs {
  import opened Seqs
  import opened Nodes
  import opened Stores
  import opened Trees
  import opened Contents
  import opened Entries
  import opened Removal
  import opened Maps
  import opened Structure
  import Consumption

  datatype Op =
    | Insert(key: Key, val: Value)
    | Remove(key: Key)
    | PopFirst
    | PopLast
    | GetOrInsert(key: Key, val: Value)
    | Update(key: Key, update: Option<Value> -> Outcome<Value>)
    | Extend(items: seq<(Key, Value)>)

  datatype Out = Old(was: Option<Value>) | Popped(entry: Option<(Key, Value)>) | Now(val: Value) | Unwound | Done

  ghost predicate IsFirst(m: map<Key, Value>, k: Key) {
    k in m && forall l :: l in m ==> k <= l
  }

  ghost predicate IsLast(m: map<Key, Value>, k: Key) {
    k in m && forall l :: l in m ==> l <= k
  }

  /** What an operation does to a finite map, and what it returns. */
  ghost predicate Does(m: map<Key, Value>, op: Op, m1: map<Key, Value>, out: Out) {
    match op
    case Insert(k, v) => m1 == m[k := v] && out == Old(if k in m then Some(m[k]) else None)
    case Remove(k) => m1 == m - {k} && out == Old(if k in m then Some(m[k]) else None)
    case PopFirst =>
      if m == map[] then m1 == m && out == Popped(None)
      else out.Popped? && out.entry.Some? && var (k, v) := out.entry.value; IsFirst(m, k) && v == m[k] && m1 == m - {k}
    case PopLast =>
      if m == map[] then m1 == m && out == Popped(None)
      else out.Popped? && out.entry.Some? && var (k, v) := out.entry.value; IsLast(m, k) && v == m[k] && m1 == m - {k}
    case GetOrInsert(k, v) => m1 == (if k in m then m else m[k := v]) && out == Now(if k in m then m[k] else v)
    case Update(k, f) =>
      (match f(if k in m then Some(m[k]) else None)
       case Panics => m1 == m - {k} && out == Unwound
       case Returns(None, r) => m1 == m - {k} && out == Now(r)
       case Returns(Some(v), r) => m1 == m[k := v] && out == Now(r))
    case Extend(items) => m1 == Extended(m, items) && out == Done
  }

  /** An operation has one outcome. */
  lemma DoesUnique(m: map<Key, Value>, op: Op, m1: map<Key, Value>, out: Out, m2: map<Key, Value>, out2: Out)
    requires Does(m, op, m1, out) && Does(m, op, m2, out2)
    ensures m1 == m2 && out == out2
  {
    if (op.PopFirst? || op.PopLast?) && m != map[] {
      var k, l := out.entry.value.0, out2.entry.value.0;
      assert k <= l && l <= k;
    }
  }

  /** What an operation does, said of each key. */
  lemma DoesMeans(m: map<Key, Value>, op: Op, m1: map<Key, Value>, out: Out)
    requires Does(m, op, m1, out)
    ensures op.Insert? ==> op.key in m1 && m1[op.key] == op.val && Elsewhere(m, m1, op.key)
    ensures op.Insert? || op.Remove? ==>
              out.Old? && if op.key in m then out.was == Some(m[op.key]) else out.was == None
    ensures op.Remove? ==> op.key !in m1 && Elsewhere(m, m1, op.key)
    ensures op.PopFirst? || op.PopLast? ==>
              && out.Popped? && (out.entry == None <==> m == map[]) && (out.entry == None ==> m1 == map[])
              && (out.entry.Some? ==>
                   var (k, v) := out.entry.value;
                   && k in m && v == m[k] && k !in m1 && Elsewhere(m, m1, k)
                   && forall l :: l in m1 ==> if op.PopFirst? then k < l else l < k)
    ensures op.GetOrInsert? ==>
              && op.key in m1 && out == Now(m1[op.key]) && Elsewhere(m, m1, op.key)
              && m1[op.key] == if op.key in m then m[op.key] else op.val
    ensures op.Update? ==>
              && Elsewhere(m, m1, op.key)
              && match op.update(if op.key in m then Some(m[op.key]) else None)
                 case Panics => op.key !in m1 && out == Unwound
                 case Returns(None, r) => op.key !in m1 && out == Now(r)
                 case Returns(Some(v), r) => op.key in m1 && m1[op.key] == v && out == Now(r)
    ensures op.Extend? ==>
              && out == Done
              && (forall k :: k in m1 <==> k in m || exists i :: 0 <= i < |op.items| && op.items[i].0 == k)
              && (forall i :: 0 <= i < |op.items| && op.items[i].0 !in KeysFrom(op.items, i + 1) ==>
                    m1[op.items[i].0] == op.items[i].1)
              && (forall k :: k in m && k !in KeysFrom(op.items, 0) ==> m1[k] == m[k])
  {
    if op.Extend? {
      ExtendedAt(m, op.items);
      forall i | 0 <= i < |op.items| && op.items[i].0 !in KeysFrom(op.items, i + 1)
        ensures m1[op.items[i].0] == op.items[i].1
      {
        assert forall j :: i < j < |op.items| ==> op.items[j].0 in KeysFrom(op.items, i + 1);
      }
      forall k | k in m && k !in KeysFrom(op.items, 0)
        ensures m1[k] == m[k]
      {
        assert forall j :: 0 <= j < |op.items| ==> op.items[j].0 in KeysFrom(op.items, 0);
      }
    }
  }

  ghost function KeysFrom(items: seq<(Key, Value)>, i: nat): set<Key> {
    set j | i <= j < |items| :: items[j].0
  }

  /** Both maps are the same but for this key. */
  ghost predicate Elsewhere(m: map<Key, Value>, m1: map<Key, Value>, key: Key) {
    forall k :: k != key ==> (k in m1 <==> k in m) && (k in m ==> m1[k] == m[k])
  }

  /** The root, if any, has not been left behind, and there is one exactly if there are entries. */
  lemma {:induction false} RootIff(tree: BTreeMap)
    requires tree.Valid()
    ensures tree.root != null ==> tree.root !in tree.leaked
    ensures tree.root == null <==> tree.Contents() == map[]
  {
    hide Arena, Store.Valid, Wf, FlatKeys, FlatVals;
    tree.EntriesSorted();
    ToMapAt(tree.Keys(), tree.Vals());
    if tree.root != null {
      RootAt(Heap(tree.store.nodes), tree.Tree(), null);
      assert tree.Keys()[0] in tree.Contents();
    }
  }

  /** Inserting leaves no map empty but an empty one. */
  lemma {:induction false} ExtendedEmpty(m: map<Key, Value>, items: seq<(Key, Value)>)
    ensures Extended(m, items) == map[] ==> m == map[]
  {
    if items != [] {
      var n := |items| - 1;
      assert items[n].0 in Extended(m, items);
    }
  }

  /** Runs one operation on the map. */
  method RunOne(tree: BTreeMap, op: Op) returns (out: Out)
    requires tree.Valid()
    modifies tree`root, tree`length, tree`height, tree`places, tree`leaves, tree`leaked
    modifies tree.store`nodes, tree.store`buffers, tree.store`edgeBuffers, tree.store`allocs, tree.store`freed
    modifies tree.store.nodes, tree.store.buffers, tree.store.edgeBuffers
    ensures tree.Valid() && tree.Outside() == old(tree.Outside()) && tree.store.Grown()
    ensures Does(old(tree.Contents()), op, tree.Contents(), out)
    ensures tree.leaked == old(tree.leaked) + (if tree.root == null then Opt(old(tree.root)) else {})
  {
    hide Arena, Heap, Node.Valid, Store.Valid, BTreeMap.Valid, BTreeMap.Outside, BTreeMap.Contents, BTreeMap.Finds;
    RootIff(tree);
    ghost var m := tree.Contents();
    match op
    case Insert(k, v) =>
      var r := tree.Insert(k, v);
      RootIff(tree);
      assert k in tree.Contents();
      out := Old(r);
    case Remove(k) =>
      var r := tree.Remove(k);
      out := Old(r);
    case PopFirst =>
      out := RunPopFirst(tree);
    case PopLast =>
      out := RunPopLast(tree);
    case GetOrInsert(k, v) =>
      out := RunGetOrInsert(tree, k, v);
    case Update(k, f) =>
      var r := tree.UpdateAndReturn(k, f);
      out := if r.Some? then Now(r.value) else Unwound;
    case Extend(items) =>
      out := RunExtend(tree, items);
  }

  method RunGetOrInsert(tree: BTreeMap, k: Key, v: Value) returns (out: Out)
    requires tree.Valid()
    modifies tree`root, tree`length, tree`height, tree`places, tree`leaves
    modifies tree.store`nodes, tree.store`buffers, tree.store`edgeBuffers, tree.store`allocs
    modifies tree.store.nodes, tree.store.buffers, tree.store.edgeBuffers
    ensures tree.Valid() && tree.Outside() == old(tree.Outside()) && tree.store.Grown() && tree.root != null
    ensures Does(old(tree.Contents()), Op.GetOrInsert(k, v), tree.Contents(), out)
  {
    hide Arena, Heap, Node.Valid, Store.Valid, BTreeMap.Valid, BTreeMap.Outside, BTreeMap.Contents, BTreeMap.Finds;
    var node, idx, q := tree.GetOrInsert(k, v);
    var val := tree.ValAt(k, node, idx, q);
    RootIff(tree);
    assert k in tree.Contents();
    out := Now(val);
  }

  method RunExtend(tree: BTreeMap, items: seq<(Key, Value)>) returns (out: Out)
    requires tree.Valid()
    modifies tree`root, tree`length, tree`height, tree`places, tree`leaves
    modifies tree.store`nodes, tree.store`buffers, tree.store`edgeBuffers, tree.store`allocs
    modifies tree.store.nodes, tree.store.buffers, tree.store.edgeBuffers
    ensures tree.Valid() && tree.Outside() == old(tree.Outside()) && tree.store.Grown()
    ensures Does(old(tree.Contents()), Op.Extend(items), tree.Contents(), out)
    ensures tree.root == null ==> old(tree.root) == null
  {
    hide Arena, Heap, Node.Valid, Store.Valid, BTreeMap.Valid, BTreeMap.Outside, BTreeMap.Contents;
    RootIff(tree);
    ghost var m := tree.Contents();
    tree.Extend(items);
    RootIff(tree);
    if tree.root == null { ExtendedEmpty(m, items); }
    out := Done;
  }

  method RunPopFirst(tree: BTreeMap) returns (out: Out)
    requires tree.Valid()
    modifies tree`root, tree`length, tree`height, tree`places, tree`leaves, tree`leaked
    modifies tree.store`nodes, tree.store`freed, tree.store.nodes, tree.store.buffers, tree.store.edgeBuffers
    ensures tree.Valid() && tree.Outside() == old(tree.Outside()) && tree.store.Grown()
    ensures Does(old(tree.Contents()), PopFirst, tree.Contents(), out)
    ensures tree.leaked == old(tree.leaked) + (if tree.root == null then Opt(old(tree.root)) else {})
  {
    hide Arena, Heap, Node.Valid, Store.Valid, BTreeMap.Valid, BTreeMap.Outside, FlatKeys, FlatVals, ToMap;
    tree.EntriesSorted();
    ghost var ks, vs := tree.Keys(), tree.Vals();
    var r := tree.PopFirst();
    tree.EntriesSorted();
    PopFirstDoes(ks, vs, r, tree.Keys(), tree.Vals());
    out := Popped(r);
  }

  method RunPopLast(tree: BTreeMap) returns (out: Out)
    requires tree.Valid()
    modifies tree`root, tree`length, tree`height, tree`places, tree`leaves, tree`leaked
    modifies tree.store`nodes, tree.store`freed, tree.store.nodes, tree.store.buffers, tree.store.edgeBuffers
    ensures tree.Valid() && tree.Outside() == old(tree.Outside()) && tree.store.Grown()
    ensures Does(old(tree.Contents()), PopLast, tree.Contents(), out)
    ensures tree.leaked == old(tree.leaked) + (if tree.root == null then Opt(old(tree.root)) else {})
  {
    hide Arena, Heap, Node.Valid, Store.Valid, BTreeMap.Valid, BTreeMap.Outside, FlatKeys, FlatVals, ToMap;
    tree.EntriesSorted();
    ghost var ks, vs := tree.Keys(), tree.Vals();
    var r := tree.PopLast();
    tree.EntriesSorted();
    PopLastDoes(ks, vs, r, tree.Keys(), tree.Vals());
    out := Popped(r);
  }

  /** Taking the first of the sorted entries takes the entry with the smallest key from the map. */
  lemma {:induction false} PopFirstDoes(ks: seq<Key>, vs: seq<Value>, r: Option<(Key, Value)>, ks1: seq<Key>,
                                        vs1: seq<Value>)
    requires Increasing(ks) && |ks| == |vs| && |ks1| == |vs1| && (r.None? <==> ks == [])
    requires if r.None? then ks1 == [] && vs1 == [] else ks == [r.value.0] + ks1 && vs == [r.value.1] + vs1
    ensures Does(ToMap(ks, vs), PopFirst, ToMap(ks1, vs1), Popped(r))
  {
    ToMapAt(ks, vs);
    if ks != [] {
      ToMapDel(ks, vs, 0);
      assert Del(ks, 0) == ks1 && Del(vs, 0) == vs1;
      assert ks[0] in ks;
    }
  }

  lemma {:induction false} PopLastDoes(ks: seq<Key>, vs: seq<Value>, r: Option<(Key, Value)>, ks1: seq<Key>,
                                       vs1: seq<Value>)
    requires Increasing(ks) && |ks| == |vs| && |ks1| == |vs1| && (r.None? <==> ks == [])
    requires if r.None? then ks1 == [] && vs1 == [] else ks == ks1 + [r.value.0] && vs == vs1 + [r.value.1]
    ensures Does(ToMap(ks, vs), PopLast, ToMap(ks1, vs1), Popped(r))
  {
    ToMapAt(ks, vs);
    if ks != [] {
      var l := |ks| - 1;
      ToMapDel(ks, vs, l);
      assert Del(ks, l) == ks1 && Del(vs, l) == vs1;
      assert ks[l] in ks;
    }
  }

  /** A run of operations takes one finite map to another, with these outcomes. */
  ghost predicate Runs(m: map<Key, Value>, ops: seq<Op>, m1: map<Key, Value>, outs: seq<Out>) {
    |outs| == |ops| &&
    if ops == [] then m1 == m
    else var l := |ops| - 1; exists m0 :: Runs(m, ops[..l], m0, outs[..l]) && Does(m0, ops[l], m1, outs[l])
  }

  lemma {:induction false} RunsUnique(m: map<Key, Value>, ops: seq<Op>, m1: map<Key, Value>, outs: seq<Out>,
                                      m2: map<Key, Value>, outs2: seq<Out>)
    requires Runs(m, ops, m1, outs) && Runs(m, ops, m2, outs2)
    ensures m1 == m2 && outs == outs2
  {
    if ops != [] {
      var l := |ops| - 1;
      var a :| Runs(m, ops[..l], a, outs[..l]) && Does(a, ops[l], m1, outs[l]);
      var b :| Runs(m, ops[..l], b, outs2[..l]) && Does(b, ops[l], m2, outs2[l]);
      RunsUnique(m, ops[..l], a, outs[..l], b, outs2[..l]);
      DoesUnique(a, ops[l], m1, outs[l], m2, outs2[l]);
      assert outs == outs[..l] + [outs[l]] && outs2 == outs2[..l] + [outs2[l]];
    }
  }

  /** A run goes through a sequence of maps, with one operation between each two of them. */
  ghost predicate Trace(ms: seq<map<Key, Value>>, ops: seq<Op>, outs: seq<Out>) {
    |ms| == |ops| + 1 && |outs| == |ops| && forall i :: 0 <= i < |ops| ==> Does(ms[i], ops[i], ms[i + 1], outs[i])
  }

  lemma {:induction false} RunIsTrace(m: map<Key, Value>, ops: seq<Op>, m1: map<Key, Value>, outs: seq<Out>)
    ensures Runs(m, ops, m1, outs) <==> exists ms :: Trace(ms, ops, outs) && ms[0] == m && ms[|ops|] == m1
  {
    if Runs(m, ops, m1, outs) {
      var ms := TraceOf(m, ops, m1, outs);
      assert Trace(ms, ops, outs) && ms[0] == m && ms[|ops|] == m1;
    }
    if ms :| Trace(ms, ops, outs) && ms[0] == m && ms[|ops|] == m1 {
      TraceRuns(ms, ops, outs);
    }
  }

  lemma {:induction false} TraceOf(m: map<Key, Value>, ops: seq<Op>, m1: map<Key, Value>, outs: seq<Out>)
    returns (ms: seq<map<Key, Value>>)
    requires Runs(m, ops, m1, outs)
    ensures Trace(ms, ops, outs) && ms[0] == m && ms[|ops|] == m1
  {
    if ops == [] {
      ms := [m];
    } else {
      var l := |ops| - 1;
      var m0 :| Runs(m, ops[..l], m0, outs[..l]) && Does(m0, ops[l], m1, outs[l]);
      var before := TraceOf(m, ops[..l], m0, outs[..l]);
      ms := before + [m1];
      forall i | 0 <= i < |ops|
        ensures Does(ms[i], ops[i], ms[i + 1], outs[i])
      {
        if i < l {
          assert Does(before[i], ops[..l][i], before[i + 1], outs[..l][i]);
        }
      }
    }
  }

  lemma {:induction false} TraceRuns(ms: seq<map<Key, Value>>, ops: seq<Op>, outs: seq<Out>)
    requires Trace(ms, ops, outs)
    ensures Runs(ms[0], ops, ms[|ops|], outs)
  {
    if ops != [] {
      var l := |ops| - 1;
      forall i | 0 <= i < l
        ensures Does(ms[..|ops|][i], ops[..l][i], ms[..|ops|][i + 1], outs[..l][i])
      {
        assert Does(ms[i], ops[i], ms[i + 1], outs[i]);
      }
      TraceRuns(ms[..|ops|], ops[..l], outs[..l]);
      assert Does(ms[l], ops[l], ms[l + 1], outs[l]);
    }
  }

  /** In this run the operation at `i` takes the last entry of a map that had some. */
  ghost predicate Empties(m: map<Key, Value>, ops: seq<Op>, outs: seq<Out>, i: nat)
    requires i < |ops| && i < |outs|
  {
    exists m0 :: Runs(m, ops[..i], m0, outs[..i]) && m0 != map[] && Does(m0, ops[i], map[], outs[i])
  }

  /** Whether an operation empties the map is decided by the contents before and after it. */
  lemma {:induction false} EmptiesIff(m: map<Key, Value>, ops: seq<Op>, outs: seq<Out>, i: nat, m0: map<Key, Value>,
                                      m1: map<Key, Value>)
    requires i < |ops| && i < |outs| && Runs(m, ops[..i], m0, outs[..i]) && Does(m0, ops[i], m1, outs[i])
    ensures Empties(m, ops, outs, i) <==> m0 != map[] && m1 == map[]
  {
    hide Runs, Does;
    if a :| Runs(m, ops[..i], a, outs[..i]) && a != map[] && Does(a, ops[i], map[], outs[i]) {
      RunsUnique(m, ops[..i], m0, outs[..i], a, outs[..i]);
      DoesUnique(m0, ops[i], m1, outs[i], map[], outs[i]);
    }
  }

  /** No operation of the run so far has taken the last entry of a map that had some. */
  ghost predicate NeverEmptied(m: map<Key, Value>, ops: seq<Op>, outs: seq<Out>) {
    |outs| <= |ops| && forall i :: 0 <= i < |outs| ==> !Empties(m, ops, outs, i)
  }

  lemma {:induction false} NeverEmptiedStep(m: map<Key, Value>, ops: seq<Op>, outs: seq<Out>, out: Out, m0: map<Key,
                                            Value>, m1: map<Key, Value>)
    requires |outs| < |ops| && Runs(m, ops[..|outs|], m0, outs) && Does(m0, ops[|outs|], m1, out)
    ensures NeverEmptied(m, ops, outs + [out]) <==> NeverEmptied(m, ops, outs) && !(m0 != map[] && m1 == map[])
  {
    hide Runs, Does;
    var r := outs + [out];
    assert r[..|outs|] == outs;
    EmptiesIff(m, ops, r, |outs|, m0, m1);
    forall i | 0 <= i < |outs|
      ensures Empties(m, ops, r, i) <==> Empties(m, ops, outs, i)
    {
      assert r[..i] == outs[..i];
    }
    hide Empties;
    if NeverEmptied(m, ops, r) {
      forall i | 0 <= i < |outs|
        ensures !Empties(m, ops, outs, i)
      {
        assert !Empties(m, ops, r, i);
      }
    }
  }

  /** A run with one more operation never empties the map exactly if it did not before and that operation does not. */
  lemma {:induction false} NeverEmptiedMore(m: map<Key, Value>, ops: seq<Op>, outs: seq<Out>, op: Op, out: Out,
                                            m0: map<Key, Value>, m1: map<Key, Value>)
    requires Runs(m, ops, m0, outs) && Does(m0, op, m1, out)
    ensures NeverEmptied(m, ops + [op], outs + [out]) <==> NeverEmptied(m, ops, outs) && !(m0 != map[] && m1 == map[])
  {
    hide Does;
    var more := ops + [op];
    assert more[..|outs|] == ops;
    NeverEmptiedStep(m, more, outs, out, m0, m1);
    forall i | 0 <= i < |outs|
      ensures Empties(m, more, outs, i) <==> Empties(m, ops, outs, i)
    {
      assert more[..i] == ops[..i];
    }
    hide Empties, Runs;
    if NeverEmptied(m, more, outs) {
      forall i | 0 <= i < |outs|
        ensures !Empties(m, ops, outs, i)
      {
        assert !Empties(m, more, outs, i);
      }
    }
  }

  /** A run on one map. It leaves a node behind exactly if one of its operations takes the last entry of the map. */
  method Run(tree: BTreeMap, ops: seq<Op>) returns (outs: seq<Out>)
    requires tree.Valid()
    modifies tree`root, tree`length, tree`height, tree`places, tree`leaves, tree`leaked
    modifies tree.store`nodes, tree.store`buffers, tree.store`edgeBuffers, tree.store`allocs, tree.store`freed
    modifies tree.store.nodes, tree.store.buffers, tree.store.edgeBuffers
    ensures tree.Valid() && tree.Outside() == old(tree.Outside())
    ensures Runs(old(tree.Contents()), ops, tree.Contents(), outs)
    ensures old(tree.leaked) <= tree.leaked
    ensures tree.leaked == old(tree.leaked) <==> NeverEmptied(old(tree.Contents()), ops, outs)
  {
    hide Arena, Heap, Node.Valid, Store.Valid, BTreeMap.Valid, BTreeMap.Contents, BTreeMap.Outside, Does, Runs,
         NeverEmptied;
    outs := [];
    ghost var m, l := tree.Contents(), tree.leaked;
    RunsNone(m, ops);
    for i := 0 to |ops|
      invariant tree.Valid() && tree.Outside() == old(tree.Outside()) && tree.store.Grown() && |outs| == i
      invariant Runs(m, ops[..i], tree.Contents(), outs) && l <= tree.leaked
      invariant tree.leaked == l <==> NeverEmptied(m, ops, outs)
    {
      ghost var m0 := tree.Contents();
      RootIff(tree);
      var out := RunOne(tree, ops[i]);
      RootIff(tree);
      RunsStep(m, ops[..i], m0, outs, ops[i], tree.Contents(), out);
      NeverEmptiedStep(m, ops, outs, out, m0, tree.Contents());
      assert ops[..i] + [ops[i]] == ops[..i + 1];
      outs := outs + [out];
    }
    assert ops[..|ops|] == ops;
  }

  lemma {:induction false} RunsNone(m: map<Key, Value>, ops: seq<Op>)
    ensures Runs(m, ops[..0], m, []) && NeverEmptied(m, ops, [])
  {
  }

  // ---- several maps in one store ----

  /** What is not the one map's keeps its nodes, and they stay apart from the nodes of that map. */
  lemma Untouched(H0: Cells, H1: Cells, owned0: set<Node>, owned1: set<Node>, other: set<Node>)
    requires H1 - owned1 == H0 - owned0 && other <= H0.Keys && other !! owned0
    ensures other !! owned1 && other <= H1.Keys
    ensures forall n {:trigger n in other} :: n in other ==> n in H0 && n in H1 && H1[n] == H0[n]
    ensures H1 - (owned1 + other) == H0 - (owned0 + other)
  {
    var r := H0 - owned0;
    assert other <= r.Keys;
    assert H1 - (owned1 + other) == r - other == H0 - (owned0 + other);
  }

  /** Both maps are in shape, live in the same store, and share no node. */
  ghost predicate Beside(a: BTreeMap, b: BTreeMap)
    reads a, b, a.store, a.store.nodes, a.store.buffers, a.store.edgeBuffers, b.store, b.store.nodes, b.store.buffers,
          b.store.edgeBuffers
  {
    a != b && a.store == b.store && a.Valid() && b.Valid() && a.Owned() !! b.Owned()
  }

  /** The map is in shape as far as these cells are concerned, and its nodes are among them. */
  ghost predicate InShape(b: BTreeMap, H: Cells)
    reads b
  {
    && b.Owned() <= H.Keys && b.leaked !! b.places.Keys && b.length == |FlatKeys(H, b.leaves)| == |FlatVals(H,
       b.leaves)|
    && if b.root == null then b.height == 0 && b.places == map[] && b.leaves == [] else Wf(H, b.Tree(), null)
  }

  /** The contents of the map as far as these cells are concerned. */
  ghost function ContentsIn(b: BTreeMap, H: Cells): map<Key, Value>
    requires InShape(b, H)
    reads b
  {
    ToMap(FlatKeys(H, b.leaves), FlatVals(H, b.leaves))
  }

  lemma OwnedLive(b: BTreeMap)
    requires b.Valid()
    ensures Heap(b.store.nodes).Keys == b.store.nodes && b.Owned() <= b.store.nodes
    ensures InShape(b, Heap(b.store.nodes)) && ContentsIn(b, Heap(b.store.nodes)) == b.Contents()
  {
    hide Arena, Wf, FlatKeys, FlatVals, ToMap;
    HeapKeys(b.store.nodes);
    b.EntriesSorted();
    if b.root != null {
      RootAt(Heap(b.store.nodes), b.Tree(), null);
    }
  }

  /** An operation on the map `a` has left the map `b` as it was in the cells `H0`, where `a` had the nodes `owned0`. */
  lemma {:induction false} KeptBeside(a: BTreeMap, b: BTreeMap, H0: Cells, owned0: set<Node>)
    requires a != b && a.store == b.store && a.Valid() && a.Outside() == H0 - owned0
    requires InShape(b, H0) && b.Owned() !! owned0
    ensures Beside(a, b) && b.Keys() == FlatKeys(H0, b.leaves) && b.Vals() == FlatVals(H0, b.leaves)
    ensures b.Contents() == ContentsIn(b, H0)
    ensures Heap(a.store.nodes) - (a.Owned() + b.Owned()) == H0 - (owned0 + b.Owned())
  {
    hide Arena, Heap, Store.Valid, Wf, ToMap;
    a.Parts();
    HeapKeys(a.store.nodes);
    Untouched(H0, Heap(a.store.nodes), owned0, a.Owned(), b.Owned());
    if b.root != null {
      Consumption.Isolated(H0, Heap(b.store.nodes), b.Tree(), null);
    }
  }

  /** An operation on one map leaves the other one as it is. */
  method RunBeside(a: BTreeMap, op: Op, ghost b: BTreeMap) returns (out: Out)
    requires Beside(a, b)
    modifies a`root, a`length, a`height, a`places, a`leaves, a`leaked
    modifies a.store`nodes, a.store`buffers, a.store`edgeBuffers, a.store`allocs, a.store`freed
    modifies a.store.nodes, a.store.buffers, a.store.edgeBuffers
    ensures Beside(a, b) && a.store.Grown()
    ensures Does(old(a.Contents()), op, a.Contents(), out) && (a.root != null ==> a.leaked == old(a.leaked))
    ensures b.Keys() == old(b.Keys()) && b.Vals() == old(b.Vals()) && b.Contents() == old(b.Contents())
    ensures Heap(a.store.nodes) - (a.Owned() + b.Owned()) == old(Heap(a.store.nodes) - (a.Owned() + b.Owned()))
  {
    hide Arena, Heap, Node.Valid, Store.Valid, BTreeMap.Valid, BTreeMap.Contents, BTreeMap.Owned, Does, InShape,
         ContentsIn;
    ghost var h0, owned0 := Heap(a.store.nodes), a.Owned();
    OwnedLive(b);
    out := RunOne(a, op);
    KeptBeside(a, b, h0, owned0);
  }

  /** All maps are in shape, they live in this store, and no two of them share a node. */
  ghost predicate AllBeside(store: Store, maps: seq<BTreeMap>)
    reads maps, store, store.nodes, store.buffers, store.edgeBuffers
  {
    && (forall i {:trigger maps[i]} :: 0 <= i < |maps| ==> maps[i].store == store && maps[i].Valid())
    && forall i, j :: 0 <= i < |maps| && 0 <= j < |maps| && i != j ==>
         maps[i] != maps[j] && maps[i].Owned() !! maps[j].Owned()
  }

  /** The nodes of all these maps but one. */
  ghost function OwnedBut(maps: seq<BTreeMap>, but: BTreeMap?): set<Node>
    reads maps
  {
    set m, n | m in maps && m != but && n in m.Owned() :: n
  }

  /** Everything in the store that belongs to none of these maps. */
  ghost function OutsideAll(store: Store, maps: seq<BTreeMap>): Cells
    reads maps, store, store.nodes
  {
    Heap(store.nodes) - OwnedBut(maps, null)
  }

  lemma OutsideAllBut(store: Store, maps: seq<BTreeMap>, a: BTreeMap)
    requires a in maps && a.store == store
    ensures OutsideAll(store, maps) == a.Outside() - OwnedBut(maps, a)
  {
    hide Heap, BTreeMap.Owned;
    assert OwnedBut(maps, null) == a.Owned() + OwnedBut(maps, a);
  }

  /** Runs one operation on one of the maps. */
  method RunAt(store: Store, maps: seq<BTreeMap>, i: nat, a: BTreeMap, op: Op) returns (out: Out)
    requires AllBeside(store, maps) && i < |maps| && a == maps[i]
    modifies a`root, a`length, a`height, a`places, a`leaves, a`leaked
    modifies store`nodes, store`buffers, store`edgeBuffers, store`allocs, store`freed
    modifies store.nodes, store.buffers, store.edgeBuffers
    ensures AllBeside(store, maps) && store.Grown() && OutsideAll(store, maps) == old(OutsideAll(store, maps))
    ensures a.leaked == old(a.leaked) + (if a.root == null then Opt(old(a.root)) else {})
    ensures Does(old(a.Contents()), op, a.Contents(), out)
    ensures forall j :: 0 <= j < |maps| && j != i ==> maps[j].Contents() == old(maps[j].Contents())
  {
    hide Arena, Heap, Node.Valid, Store.Valid, BTreeMap.Valid, BTreeMap.Contents, BTreeMap.Owned, Does, Store.Grown,
         OutsideAll, InShape, ContentsIn;
    ghost var h0, owned0, others := Heap(store.nodes), a.Owned(), OwnedBut(maps, a);
    OutsideAllBut(store, maps, a);
    forall j | 0 <= j < |maps|
      ensures InShape(maps[j], h0) && ContentsIn(maps[j], h0) == maps[j].Contents()
    {
      OwnedLive(maps[j]);
    }
    out := RunOne(a, op);
    forall j | 0 <= j < |maps| && j != i
      ensures Beside(a, maps[j]) && maps[j].Contents() == old(maps[j].Contents())
    {
      KeptBeside(a, maps[j], h0, owned0);
    }
    assert OwnedBut(maps, a) == others;
    OutsideAllBut(store, maps, a);
  }

  ghost function OpsOf(ops: seq<(nat, Op)>, who: nat): seq<Op> {
    if ops == [] then []
    else var l := |ops| - 1; OpsOf(ops[..l], who) + if ops[l].0 == who then [ops[l].1] else []
  }

  ghost function OutsOf(ops: seq<(nat, Op)>, outs: seq<Out>, who: nat): seq<Out>
    requires |outs| == |ops|
  {
    if ops == [] then []
    else var l := |ops| - 1; OutsOf(ops[..l], outs[..l], who) + if ops[l].0 == who then [outs[l]] else []
  }

  lemma {:induction false} RunsStep(m: map<Key, Value>, ops: seq<Op>, m0: map<Key, Value>, outs: seq<Out>, op: Op,
                                    m1: map<Key, Value>, out: Out)
    requires Runs(m, ops, m0, outs) && Does(m0, op, m1, out)
    ensures Runs(m, ops + [op], m1, outs + [out])
  {
    var l := |ops|;
    assert (ops + [op])[..l] == ops && (outs + [out])[..l] == outs;
    assert Runs(m, (ops + [op])[..l], m0, (outs + [out])[..l]) && Does(m0, (ops + [op])[l], m1, (outs + [out])[l]);
  }

  /**
   * Each operation of an interleaving is among those of its map, with its outcome, after as many as came before it, and
   * there are no others.
   */
  lemma {:induction false} OpsOfAt(ops: seq<(nat, Op)>, outs: seq<Out>, who: nat, i: nat)
    requires |outs| == |ops| && i < |ops|
    ensures |OpsOf(ops, who)| == |OutsOf(ops, outs, who)| == |set j | 0 <= j < |ops| && ops[j].0 == who|
    ensures var p := |set j | 0 <= j < i && ops[j].0 == who|;
            ops[i].0 == who ==>
              p < |OpsOf(ops, who)| && OpsOf(ops, who)[p] == ops[i].1 && OutsOf(ops, outs, who)[p] == outs[i]
  {
    OpsOfCount(ops, outs, who);
    if ops[i].0 == who {
      OpsOfPlace(ops, outs, who, i);
      OpsOfCount(ops[..i], outs[..i], who);
      var p := set j | 0 <= j < i && ops[j].0 == who;
      assert p == set j | 0 <= j < |ops[..i]| && ops[..i][j].0 == who;
    }
  }

  lemma {:induction false} OpsOfCount(ops: seq<(nat, Op)>, outs: seq<Out>, who: nat)
    requires |outs| == |ops|
    ensures |OpsOf(ops, who)| == |OutsOf(ops, outs, who)| == |set j | 0 <= j < |ops| && ops[j].0 == who|
  {
    var all := set j | 0 <= j < |ops| && ops[j].0 == who;
    if ops == [] {
      assert all == {};
    } else {
      var l := |ops| - 1;
      OpsOfCount(ops[..l], outs[..l], who);
      var before := set j | 0 <= j < |ops[..l]| && ops[..l][j].0 == who;
      if ops[l].0 == who {
        assert all == before + {l};
      } else {
        assert all == before;
      }
    }
  }

  lemma {:induction false} OpsOfPlace(ops: seq<(nat, Op)>, outs: seq<Out>, who: nat, i: nat)
    requires |outs| == |ops| && i < |ops| && ops[i].0 == who
    ensures var p := |OpsOf(ops[..i], who)|;
            && p < |OpsOf(ops, who)| && p < |OutsOf(ops, outs, who)|
            && OpsOf(ops, who)[p] == ops[i].1 && OutsOf(ops, outs, who)[p] == outs[i]
  {
    var l := |ops| - 1;
    OpsOfCount(ops[..i], outs[..i], who);
    OpsOfCount(ops[..l], outs[..l], who);
    if i < l {
      OpsOfPlace(ops[..l], outs[..l], who, i);
      assert ops[..l][..i] == ops[..i];
    }
  }

  /** One more operation of the interleaving is one more of the map that it is for, and none of the other. */
  lemma {:induction false} OpsOfStep(ops: seq<(nat, Op)>, outs: seq<Out>, i: nat, out: Out, who: nat)
    requires i < |ops| && |outs| == i
    ensures OpsOf(ops[..i + 1], who) == OpsOf(ops[..i], who) + (if ops[i].0 == who then [ops[i].1] else [])
    ensures OutsOf(ops[..i + 1], outs + [out], who) == OutsOf(ops[..i], outs,
            who) + (if ops[i].0 == who then [out] else [])
  {
    assert ops[..i + 1][..i] == ops[..i] && (outs + [out])[..i] == outs;
  }

  /**
   * The outcomes so far are those of a run of the operations that were for this map; `kept` says that none of them has
   * emptied it.
   */
  ghost predicate RunsSoFar(m: map<Key, Value>, ops: seq<(nat, Op)>, i: nat, who: nat, m1: map<Key, Value>,
                            outs: seq<Out>, kept: bool) {
    && i <= |ops| && |outs| == i
    && Runs(m, OpsOf(ops[..i], who), m1, OutsOf(ops[..i], outs, who))
    && (kept <==> NeverEmptied(m, OpsOf(ops[..i], who), OutsOf(ops[..i], outs, who)))
  }

  lemma SoFarStart(m: map<Key, Value>, ops: seq<(nat, Op)>, who: nat)
    ensures RunsSoFar(m, ops, 0, who, m, [], true)
  {
    RunsNone(m, []);
  }

  /** One turn: the operation is for this map and does its work, or it is not and leaves the map alone. */
  lemma {:induction false} SoFarStep(m: map<Key, Value>, ops: seq<(nat, Op)>, i: nat, who: nat, m0: map<Key, Value>,
                                     outs: seq<Out>, kept: bool, m1: map<Key, Value>, out: Out, kept1: bool)
    requires i < |ops| && RunsSoFar(m, ops, i, who, m0, outs, kept)
    requires if ops[i].0 == who then Does(m0, ops[i].1, m1, out) && (kept1 <==> kept && !(m0 != map[] && m1 == map[]))
             else m1 == m0 && kept1 == kept
    ensures RunsSoFar(m, ops, i + 1, who, m1, outs + [out], kept1)
  {
    hide Does, NeverEmptied;
    OpsOfStep(ops, outs, i, out, who);
    var mine, got := OpsOf(ops[..i], who), OutsOf(ops[..i], outs, who);
    if ops[i].0 == who {
      RunsStep(m, mine, m0, got, ops[i].1, m1, out);
      NeverEmptiedMore(m, mine, got, ops[i].1, out, m0, m1);
    } else {
      assert mine + [] == mine && got + [] == got;
    }
  }

  lemma {:induction false} SoFarAll(m: map<Key, Value>, ops: seq<(nat, Op)>, who: nat, m1: map<Key, Value>,
                                    outs: seq<Out>, kept: bool)
    requires RunsSoFar(m, ops, |ops|, who, m1, outs, kept)
    ensures Runs(m, OpsOf(ops, who), m1, OutsOf(ops, outs, who))
    ensures kept <==> NeverEmptied(m, OpsOf(ops, who), OutsOf(ops, outs, who))
  {
    assert ops[..|ops|] == ops;
  }

  /** For each of the maps, where it stands in its own run; `ms` and `ls` are their contents and leaks at the start. */
  ghost predicate AllSoFar(store: Store, maps: seq<BTreeMap>, ops: seq<(nat, Op)>, i: nat, outs: seq<Out>,
                           ms: map<nat, map<Key, Value>>, ls: map<nat, set<Node>>)
    reads maps, store, store.nodes, store.buffers, store.edgeBuffers
  {
    && AllBeside(store, maps) && |outs| == i
    && forall k: nat :: k < |maps| ==>
         && k in ms && k in ls && ls[k] <= maps[k].leaked
         && RunsSoFar(ms[k], ops, i, k, maps[k].Contents(), outs, maps[k].leaked == ls[k])
  }

  /** The next operation of an interleaving. */
  method RunNext(store: Store, maps: seq<BTreeMap>, ops: seq<(nat, Op)>, i: nat, ghost outs: seq<Out>,
                 ghost ms: map<nat, map<Key, Value>>, ghost ls: map<nat, set<Node>>)
    returns (out: Out)
    requires AllSoFar(store, maps, ops, i, outs, ms, ls) && i < |ops| && ops[i].0 < |maps|
    modifies maps, store`nodes, store`buffers, store`edgeBuffers, store`allocs, store`freed
    modifies store.nodes, store.buffers, store.edgeBuffers
    ensures AllSoFar(store, maps, ops, i + 1, outs + [out], ms, ls) && store.Grown()
    ensures OutsideAll(store, maps) == old(OutsideAll(store, maps))
  {
    hide Arena, Heap, Node.Valid, Store.Valid, BTreeMap.Valid, BTreeMap.Contents, BTreeMap.Owned, OutsideAll, Does,
         RunsSoFar, Store.Grown;
    var a := maps[ops[i].0];
    RootIff(a);
    out := RunAt(store, maps, ops[i].0, a, ops[i].1);
    RootIff(a);
    forall k: nat | k < |maps|
      ensures RunsSoFar(ms[k], ops, i + 1, k, maps[k].Contents(), outs + [out], maps[k].leaked == ls[k])
    {
      SoFarStep(ms[k], ops, i, k, old(maps[k].Contents()), outs, old(maps[k].leaked) == ls[k], maps[k].Contents(), out,
        maps[k].leaked == ls[k]);
    }
  }

  /** All operations of an interleaving. */
  method RunEach(store: Store, maps: seq<BTreeMap>, ops: seq<(nat, Op)>, ghost ms: map<nat, map<Key, Value>>,
                 ghost ls: map<nat, set<Node>>)
    returns (outs: seq<Out>)
    requires AllSoFar(store, maps, ops, 0, [], ms, ls) && forall i :: 0 <= i < |ops| ==> ops[i].0 < |maps|
    modifies maps, store`nodes, store`buffers, store`edgeBuffers, store`allocs, store`freed
    modifies store.nodes, store.buffers, store.edgeBuffers
    ensures AllSoFar(store, maps, ops, |ops|, outs, ms, ls)
    ensures OutsideAll(store, maps) == old(OutsideAll(store, maps))
  {
    hide AllSoFar, OutsideAll;
    outs := [];
    for i := 0 to |ops|
      invariant AllSoFar(store, maps, ops, i, outs, ms, ls) && store.Grown()
      invariant OutsideAll(store, maps) == old(OutsideAll(store, maps))
    {
      var out := RunNext(store, maps, ops, i, outs, ms, ls);
      outs := outs + [out];
    }
  }

  /**
   * Any interleaving of operations on any number of maps in one store is, for each of them, a run of its own
   * operations on a finite map, which leaves a node behind exactly if one of them takes the map's last entry. What
   * belongs to none of the maps stays as it is.
   */
  method RunAll(store: Store, maps: seq<BTreeMap>, ops: seq<(nat, Op)>) returns (outs: seq<Out>)
    requires AllBeside(store, maps) && forall i :: 0 <= i < |ops| ==> ops[i].0 < |maps|
    modifies maps, store`nodes, store`buffers, store`edgeBuffers, store`allocs, store`freed
    modifies store.nodes, store.buffers, store.edgeBuffers
    ensures AllBeside(store, maps) && |outs| == |ops| && OutsideAll(store, maps) == old(OutsideAll(store, maps))
    ensures forall k: nat :: k < |maps| ==>
              && Runs(old(maps[k].Contents()), OpsOf(ops, k), maps[k].Contents(), OutsOf(ops, outs, k))
              && old(maps[k].leaked) <= maps[k].leaked
              && (maps[k].leaked == old(maps[k].leaked) <==>
                  NeverEmptied(old(maps[k].Contents()), OpsOf(ops, k), OutsOf(ops, outs, k)))
  {
    hide Arena, Heap, Node.Valid, Store.Valid, BTreeMap.Valid, BTreeMap.Contents, BTreeMap.Owned, OutsideAll, Does,
         Runs, NeverEmptied, OpsOf, OutsOf, RunsSoFar, Store.Grown;
    ghost var ms: map<nat, map<Key, Value>> := map k: nat | k < |maps| :: maps[k].Contents();
    ghost var ls: map<nat, set<Node>> := map k: nat | k < |maps| :: maps[k].leaked;
    forall k: nat | k < |maps|
      ensures RunsSoFar(ms[k], ops, 0, k, maps[k].Contents(), [], true)
    {
      SoFarStart(ms[k], ops, k);
    }
    outs := RunEach(store, maps, ops, ms, ls);
    forall k: nat | k < |maps|
      ensures Runs(ms[k], OpsOf(ops, k), maps[k].Contents(), OutsOf(ops, outs, k))
      ensures maps[k].leaked == ls[k] <==> NeverEmptied(ms[k], OpsOf(ops, k), OutsOf(ops, outs, k))
    {
      SoFarAll(ms[k], ops, k, maps[k].Contents(), outs, maps[k].leaked == ls[k]);
    }
  }

  // ---- the nodes of a map ----

  /**
   * Every node ever allocated is in one place: deallocated once, another map's, left behind by an emptied tree, or at
   * one position of the tree of this map.
   */
  lemma {:induction false} EveryNode(tree: BTreeMap, n: Node)
    requires tree.Valid() && n in tree.store.allocs
    ensures Distinct(tree.store.allocs) && Distinct(tree.store.freed) && Distinct(tree.Nodes())
    ensures n in tree.store.freed <==> n !in tree.store.nodes
    ensures n in tree.store.nodes <==> n in tree.Outside() || n in tree.leaked || n in tree.Nodes()
    ensures !(n in tree.Outside() && n in tree.leaked) && !(n in tree.Outside() && n in tree.Nodes()) &&
            !(n in tree.leaked && n in tree.Nodes())
  {
    hide Arena, Wf;
    HeapKeys(tree.store.nodes);
    OwnedLive(tree);
    if tree.root != null {
      TreeIsPostOrder(Heap(tree.store.nodes), tree.Tree(), null);
    }
  }

  /** A map of the keys 0 to 8. */
  method NineMap(store: Store) returns (tree: BTreeMap)
    requires store.Valid()
    modifies store`nodes, store`buffers, store`edgeBuffers, store`allocs, store.nodes, store.buffers, store.edgeBuffers
    ensures fresh(tree) && tree.store == store && tree.Valid() && 0 < tree.height && store.Grown()
    ensures tree.root != null && tree.length == 9
  {
    hide Arena, Heap, Node.Valid, Store.Valid, BTreeMap.Valid, BTreeMap.Contents, BTreeMap.Outside;
    tree := new BTreeMap(store);
    NoEntries(tree);
    var items := [(0, 0), (1, 0), (2, 0), (3, 0), (4, 0), (5, 0), (6, 0), (7, 0), (8, 0)];
    tree.Extend(items);
    NineEntries(tree, items);
  }

  /** After a tree with more than one level has been cleared, its height stays, and the map is no longer in shape. */
  method ClearTall(store: Store) returns (tree: BTreeMap)
    requires store.Valid()
    modifies store`nodes, store`buffers, store`edgeBuffers, store`allocs, store`freed, store.nodes, store.buffers,
             store.edgeBuffers
    ensures fresh(tree) && tree.root == null && tree.length == 0 && 0 < tree.height && !tree.Valid()
  {
    tree := NineMap(store);
    tree.Clear();
  }

  /** Nine entries suffice for a consumption that reads a deallocated leaf and leaves the root allocated. */
  method ReadFreed(store: Store)
    returns (turns: seq<bool>, fronts: seq<(Key, Value)>, backs: seq<(Key, Value)>, ghost done: seq<Node>,
             ghost cells: Cells, ghost tree: Shape)
    requires store.Valid()
    modifies store`nodes, store`buffers, store`edgeBuffers, store`allocs, store`freed, store.nodes, store.buffers,
             store.edgeBuffers
    ensures Wf(cells, tree, null) && |FlatKeys(cells, tree.leaves)| == 9
    ensures Consumption.MetBehindLeaf(cells, tree, store.nodes, turns, fronts, backs, done)
    ensures store.freed == old(store.freed) + done
  {
    hide Arena, Heap, Wf, FlatKeys, FlatVals, Store.Valid, BTreeMap.Valid, Consumption.MetBehindLeaf;
    var m := NineMap(store);
    cells, tree := NineTree(m);
    turns, fronts, backs, done := Consumption.DeadRead(m);
  }

  lemma {:induction false} NineTree(m: BTreeMap) returns (cells: Cells, tree: Shape)
    requires m.Valid() && m.root != null
    ensures tree == m.Tree() && cells == Heap(m.places.Keys)
    ensures Wf(cells, tree, null) && |FlatKeys(cells, tree.leaves)| == m.length
  {
    hide Arena, Heap, Wf, FlatKeys, FlatVals, Consumption.Freed, Consumption.Progress;
    cells, tree := Heap(m.places.Keys), m.Tree();
    Consumption.TakenOver(m.store.nodes, tree);
    Consumption.TreeAlone(m.store.nodes, tree);
  }

  lemma {:induction false} NoEntries(tree: BTreeMap)
    requires tree.Valid() && tree.Keys() == []
    ensures tree.Contents() == map[]
  {
    hide Arena, Store.Valid, Wf;
    tree.EntriesSorted();
  }

  /** Nine entries do not fit in one leaf. */
  lemma {:induction false} NineEntries(tree: BTreeMap, items: seq<(Key, Value)>)
    requires tree.Valid() && |items| == 9 && (forall i :: 0 <= i < 9 ==> items[i].0 == i) &&
             tree.Contents() == Extended(map[], items)
    ensures 0 < tree.height && tree.root != null && tree.length == 9
  {
    hide Arena, Store.Valid, Wf, FlatKeys, FlatVals;
    tree.EntriesSorted();
    ToMapAt(tree.Keys(), tree.Vals());
    ExtendedKeys(items, 9);
    assert items[..9] == items;
    RootIff(tree);
    if tree.root != null {
      TreeSize(Heap(tree.store.nodes), tree.Tree());
    }
  }

  lemma {:induction false} ExtendedKeys(items: seq<(Key, Value)>, n: nat)
    requires n <= |items| && forall i :: 0 <= i < n ==> items[i].0 == i
    ensures |Extended(map[], items[..n])| == n && forall k :: k in Extended(map[], items[..n]) ==> k < n
  {
    if n > 0 {
      ExtendedKeys(items, n - 1);
      assert items[..n][..n - 1] == items[..n - 1];
      var m := Extended(map[], items[..n - 1]);
      assert n - 1 !in m;
      assert m[n - 1 := items[n - 1].1].Keys == m.Keys + {n - 1};
    }
  }
}
