/** The double-ended iterator over the entries of a map, and the comparison of maps. */
module Iterators {
  import opened Nodes
  import opened Stores
  import opened Trees
  import opened Contents
  import opened Entries
  import opened Cursors
  import opened Maps

  type Entry = (Key, Value)

  ghost function Pairs(ks: seq<Key>, vs: seq<Value>): (r: seq<Entry>)
    requires |ks| == |vs|
    ensures |r| == |ks|
  {
    seq(|ks|, i requires 0 <= i < |ks| => (ks[i], vs[i]))
  }

  ghost function Rev<T>(s: seq<T>): (r: seq<T>)
    ensures |r| == |s|
  {
    if s == [] then [] else Rev(s[1..]) + [s[0]]
  }

  lemma {:induction false} RevLast<T>(s: seq<T>, x: T)
    ensures Rev(s + [x]) == [x] + Rev(s)
  {
    if s == [] {
      assert (s + [x])[1..] == [];
    } else {
      assert (s + [x])[1..] == s[1..] + [x];
      RevLast(s[1..], x);
    }
  }

  /** `fronts` are the first of all entries, `backs` the last ones from the end, and `length` are left between them. */
  ghost predicate Yielded(all: seq<Entry>, fronts: seq<Entry>, length: nat, backs: seq<Entry>) {
    |all| == |fronts| + length + |backs| && fronts == all[..|fronts|] && Rev(backs) == all[|fronts| + length..]
  }

  lemma YieldFront(all: seq<Entry>, fronts: seq<Entry>, length: nat, backs: seq<Entry>)
    requires Yielded(all, fronts, length, backs) && 0 < length
    ensures Yielded(all, fronts + [all[|fronts|]], length - 1, backs)
  {
  }

  lemma YieldBack(all: seq<Entry>, fronts: seq<Entry>, length: nat, backs: seq<Entry>)
    requires Yielded(all, fronts, length, backs) && 0 < length
    ensures Yielded(all, fronts, length - 1, backs + [all[|fronts| + length - 1]])
  {
    RevLast(backs, all[|fronts| + length - 1]);
  }

  /** What comes from the front are the first entries, and what comes from the back the last ones from the end. */
  lemma {:induction false} YieldedAt(ks: seq<Key>, vs: seq<Value>, fronts: seq<Entry>, length: nat, backs: seq<Entry>)
    requires |ks| == |vs| && Yielded(Pairs(ks, vs), fronts, length, backs)
    ensures |fronts| + length + |backs| == |ks|
    ensures forall i :: 0 <= i < |fronts| ==> fronts[i] == (ks[i], vs[i])
    ensures forall i :: 0 <= i < |backs| ==> backs[i] == (ks[|ks| - 1 - i], vs[|ks| - 1 - i])
  {
    var all := Pairs(ks, vs);
    forall i | 0 <= i < |backs|
      ensures backs[i] == all[|ks| - 1 - i]
    {
      RevAt(backs, i);
      assert all[|fronts| + length..][|backs| - 1 - i] == all[|ks| - 1 - i];
    }
  }

  lemma {:induction false} RevAt<T>(s: seq<T>, i: nat)
    requires i < |s|
    ensures Rev(s)[|s| - 1 - i] == s[i]
  {
    if i > 0 {
      RevAt(s[1..], i - 1);
    }
  }

  /** When nothing is left, what was yielded at the front and, in reverse, at the back are all entries in order. */
  lemma {:induction false} YieldedAll(all: seq<Entry>, fronts: seq<Entry>, backs: seq<Entry>)
    requires Yielded(all, fronts, 0, backs)
    ensures all == fronts + Rev(backs)
  {
  }

  lemma {:induction false} BetweenFront(H: Cells, t: Shape, c: Node, i: nat, d: Node?, j: nat, front: nat, length: nat)
    requires Wf(H, t, null) && Between(H, t, c, i, d, j, front, length) && 0 < length
    ensures c in H && Between(H, t, NextNode(H, c, i), NextIndex(H, c, i), d, j, front + 1, length - 1)
  {
    var q: nat :| AddressAt(H, t, c, i, q, front);
    NextAddress(H, t, c, i, q, front);
    hide Wf, Position, FlatKeys;
    if 1 < length {
      assert AddressAt(H, t, NextNode(H, c, i), NextIndex(H, c, i), if i + 1 < |H[c].keys| then q
             else q + 1, front + 1);
    }
  }

  lemma {:induction false} BetweenBack(H: Cells, t: Shape, c: Node?, i: nat, d: Node, j: nat, front: nat, length: nat,
                                       k: nat)
    requires Wf(H, t, null) && Between(H, t, c, i, d, j, front, length) && 0 < length && d in H
    requires var n := PrevNode(H, d, j);
             if j > 0 then k + 1 == j else 1 < length && n != null ==> n in H && k + 1 == |H[n].keys|
    ensures Between(H, t, c, i, PrevNode(H, d, j), k, front, length - 1)
  {
    var q: nat :| AddressAt(H, t, d, j, q, front + length - 1);
    PrevAddress(H, t, d, j, q, front + length - 1);
    hide Wf, Position, FlatKeys;
    if 1 < length {
      assert AddressAt(H, t, PrevNode(H, d, j), k, if j > 0 then q else q - 1, front + length - 2);
    }
  }

  /** What is at an address. */
  lemma {:induction false} EntryThere(H: Cells, t: Shape, c: Node?, i: nat, p: nat)
    requires Wf(H, t, null) && Address(H, t, c, i, p)
    ensures c != null && c in H && c in t.places && i < |H[c].keys| == |H[c].vals| && H[c].edges == []
    ensures p < |FlatKeys(H, t.leaves)| == |FlatVals(H, t.leaves)|
    ensures FlatKeys(H, t.leaves)[p] == H[c].keys[i] && FlatVals(H, t.leaves)[p] == H[c].vals[i]
    ensures i == 0 && H[c].prev != null ==> H[c].prev in H && 0 < |H[H[c].prev].keys|
  {
    var q: nat :| AddressAt(H, t, c, i, q, p);
    EntryAt(H, t, null, q, i);
    LeafLinks(H, t, q);
    LeafAt(H, t, q);
    if q > 0 { LeafLinks(H, t, q - 1); }
    hide Wf, FlatKeys, FlatVals;
  }

  /** Both cursors are at the ends of what is left: `length` entries after the first `front` ones. */
  ghost predicate Between(H: Cells, t: Shape, cursor: Node?, i: nat, backCursor: Node?, j: nat, front: nat,
                          length: nat) {
    && front + length <= Count(H, t)
    && (0 < length ==> Address(H, t, cursor, i, front) && Address(H, t, backCursor, j, front + length - 1))
  }

  /** The cursors at the first and at the last entry of the map. */
  method EndCursors(tree: BTreeMap) returns (cursor: Cursor, backCursor: Cursor)
    requires tree.Valid()
    ensures fresh(cursor) && fresh(backCursor) && cursor != backCursor
    ensures tree.root != null ==>
              && tree.leaves != [] && cursor.node == tree.leaves[0] && cursor.index == 0
              && var l := tree.leaves[|tree.leaves| - 1];
                 backCursor.node == l && l in tree.store.nodes && l in Heap(tree.store.nodes) &&
                   Heap(tree.store.nodes)[l] == l.cell
                 && backCursor.index + 1 == |l.cell.keys|
  {
    hide Arena, Heap, BTreeMap.Valid, Store.Valid, Wf, FlatKeys, FlatVals;
    var first := tree.FirstLeaf();
    var last := tree.LastLeaf();
    tree.Parts();
    if tree.root != null {
      EndAddresses(Heap(tree.store.nodes), tree.Tree());
      HeapKeys(tree.store.nodes);
      tree.store.Use(last);
    }
    cursor := new Cursor(first, 0);
    backCursor := new Cursor.AtEnd(last, tree.store.nodes);
  }

  class Iter {
    const tree: BTreeMap
    var cursor: Cursor
    var backCursor: Cursor
    var length: nat
    /** The entries yielded at the front and at the back so far. */
    ghost var fronts: seq<Entry>
    ghost var backs: seq<Entry>

    ghost predicate Valid()
      reads this, cursor, backCursor, tree, tree.store, tree.store.nodes, tree.store.buffers, tree.store.edgeBuffers
    {
      && tree.Valid() && cursor != backCursor
      && |tree.Vals()| == |tree.Keys()|
      && Yielded(Pairs(tree.Keys(), tree.Vals()), fronts, length, backs)
      && (tree.root != null ==>
            Between(Heap(tree.store.nodes), tree.Tree(), cursor.node, cursor.index, backCursor.node, backCursor.index,
              |fronts|, length))
    }

    constructor (tree: BTreeMap)
      requires tree.Valid()
      ensures this.tree == tree && Valid() && length == tree.length && fronts == [] && backs == [] && fresh(cursor) &&
              fresh(backCursor)
    {
      hide Arena, Heap, Store.Valid, Wf, FlatKeys, FlatVals;
      this.tree := tree;
      tree.EntriesSorted();
      if tree.root != null {
        EndAddresses(Heap(tree.store.nodes), tree.Tree());
      }
      var first, last := EndCursors(tree);
      cursor, backCursor := first, last;
      length := tree.length;
      fronts, backs := [], [];
    }

    /** Yields the next entry from the front. */
    method Next() returns (r: Option<Entry>)
      requires Valid()
      modifies `length, `fronts, cursor
      ensures Valid() && backs == old(backs) && cursor == old(cursor) && backCursor == old(backCursor)
      ensures if old(length) == 0 then r == None && length == 0 && fronts == old(fronts)
              else length == old(length) - 1 && r.Some? && fronts == old(fronts) + [r.value]
    {
      hide Arena, Heap, Node.Valid, Store.Valid, BTreeMap.Valid, Wf, FlatKeys, FlatVals, Between, Yielded, Address;
      if length == 0 {
        return None;
      }
      FrontReady();
      ghost var h, t, S := Heap(tree.store.nodes), tree.Tree(), tree.store.nodes;
      ghost var all := Pairs(tree.Keys(), tree.Vals());
      YieldFront(all, fronts, length, backs);
      BetweenFront(h, t, cursor.node, cursor.index, backCursor.node, backCursor.index, |fronts|, length);
      var key, val := cursor.KeyValue(S);
      cursor.Advance(S);
      length := length - 1;
      fronts := fronts + [(key, val)];
      r := Some((key, val));
    }

    /** What has just been yielded is the next entry. */
    lemma LastYielded(f: seq<Entry>, l: nat, x: Option<Entry>)
      requires Valid() && if l == 0 then x == None else x.Some? && fronts == f + [x.value]
      ensures |tree.Vals()| == |tree.Keys()|
      ensures l != 0 ==> |f| < |tree.Keys()| && x == Some(Pairs(tree.Keys(), tree.Vals())[|f|])
    {
      hide BTreeMap.Valid, Between;
    }

    lemma YieldedSoFar()
      requires Valid()
      ensures |tree.Vals()| == |tree.Keys()| && Yielded(Pairs(tree.Keys(), tree.Vals()), fronts, length, backs)
    {
      hide BTreeMap.Valid, Yielded, Between;
    }

    lemma FrontReady()
      requires Valid() && 0 < length
      ensures tree.root != null && Arena(tree.store.nodes) && Wf(Heap(tree.store.nodes), tree.Tree(), null)
      ensures |fronts| < |tree.Keys()|
      ensures var n, i := cursor.node, cursor.index;
              && n != null && n in tree.store.nodes && n.IsLeaf() && i < n.len && i < |n.cell.keys| == |n.cell.vals|
              && n.cell.keys[i] == tree.Keys()[|fronts|] && n.cell.vals[i] == tree.Vals()[|fronts|]
    {
      hide Arena, Heap, Node.Valid, Store.Valid, Buffered, Wf, FlatKeys, FlatVals, Address;
      tree.EntriesSorted();
      HeapKeys(tree.store.nodes);
      EntryThere(Heap(tree.store.nodes), tree.Tree(), cursor.node, cursor.index, |fronts|);
      tree.store.Use(cursor.node);
    }

    /** Yields the next entry from the back. */
    method NextBack() returns (r: Option<Entry>)
      requires Valid()
      modifies `length, `backs, backCursor
      ensures Valid() && fronts == old(fronts) && cursor == old(cursor) && backCursor == old(backCursor)
      ensures if old(length) == 0 then r == None && length == 0 && backs == old(backs)
              else length == old(length) - 1 && r.Some? && backs == old(backs) + [r.value]
    {
      hide Arena, Heap, Node.Valid, Store.Valid, BTreeMap.Valid, Wf, FlatKeys, FlatVals, Between, Yielded, Address;
      if length == 0 {
        return None;
      }
      BackReady();
      ghost var h, t, S := Heap(tree.store.nodes), tree.Tree(), tree.store.nodes;
      ghost var all := Pairs(tree.Keys(), tree.Vals());
      YieldBack(all, fronts, length, backs);
      ghost var d, j := backCursor.node, backCursor.index;
      var key, val := backCursor.KeyValue(S);
      d.Known(S);
      ghost var _ := backCursor.AdvanceBack(S);
      BetweenBack(h, t, cursor.node, cursor.index, d, j, |fronts|, length, backCursor.index);
      length := length - 1;
      backs := backs + [(key, val)];
      r := Some((key, val));
    }

    lemma BackReady()
      requires Valid() && 0 < length
      ensures tree.root != null && Arena(tree.store.nodes) && Wf(Heap(tree.store.nodes), tree.Tree(), null)
      ensures |fronts| + length <= |tree.Keys()|
      ensures var n, i, p := backCursor.node, backCursor.index, |fronts| + length - 1;
              && n != null && n in tree.store.nodes && n.IsLeaf() && i < n.len && i < |n.cell.keys| == |n.cell.vals|
              && n.cell.keys[i] == tree.Keys()[p] && n.cell.vals[i] == tree.Vals()[p]
              && (i == 0 && n.prev != null ==> n.prev in tree.store.nodes && 0 < n.prev.len)
    {
      hide Arena, Heap, Node.Valid, Store.Valid, Buffered, Wf, FlatKeys, FlatVals, Address;
      tree.EntriesSorted();
      HeapKeys(tree.store.nodes);
      EntryThere(Heap(tree.store.nodes), tree.Tree(), backCursor.node, backCursor.index, |fronts| + length - 1);
      tree.store.Use(backCursor.node);
      if backCursor.node.prev != null && backCursor.index == 0 {
        tree.store.Use(backCursor.node.prev);
      }
    }
  }

  /** How many of the first `n` turns are at the front. */
  ghost function FrontTurns(turns: seq<bool>, n: nat): (r: nat)
    requires n <= |turns|
  {
    if n == 0 then 0 else FrontTurns(turns, n - 1) + if turns[n - 1] then 1 else 0
  }

  lemma {:induction false} OneWayTurns(turns: seq<bool>, n: nat)
    requires n <= |turns|
    ensures (forall i :: 0 <= i < |turns| ==> turns[i]) ==> FrontTurns(turns, n) == n
    ensures (forall i :: 0 <= i < |turns| ==> !turns[i]) ==> FrontTurns(turns, n) == 0
  {
    if n > 0 {
      OneWayTurns(turns, n - 1);
    }
  }

  lemma {:induction false} FrontTurnsCount(turns: seq<bool>, n: nat)
    requires n <= |turns|
    ensures FrontTurns(turns, n) == |set i | 0 <= i < n && turns[i]|
  {
    var front := set i | 0 <= i < n && turns[i];
    if n == 0 {
      assert front == {};
    } else {
      FrontTurnsCount(turns, n - 1);
      var before := set i | 0 <= i < n - 1 && turns[i];
      if turns[n - 1] {
        assert front == before + {n - 1};
      } else {
        assert front == before;
      }
    }
  }

  /** Iterates over a map from both ends, in any order of turns; `true` takes an entry from the front. */
  method Iterate(tree: BTreeMap, turns: seq<bool>) returns (fronts: seq<Entry>, backs: seq<Entry>, left: nat)
    requires tree.Valid()
    ensures |tree.Vals()| == |tree.Keys()| == tree.length
    ensures left == if |turns| < tree.length then tree.length - |turns| else 0
    ensures |fronts| + left + |backs| == tree.length
    ensures forall i :: 0 <= i < |fronts| ==> fronts[i] == (tree.Keys()[i], tree.Vals()[i])
    ensures forall i :: 0 <= i < |backs| ==>
              backs[i] == (tree.Keys()[tree.length - 1 - i], tree.Vals()[tree.length - 1 - i])
    ensures left == 0 ==> Pairs(tree.Keys(), tree.Vals()) == fronts + Rev(backs)
    ensures var taken := if |turns| < tree.length then |turns| else tree.length;
            |fronts| == |set i | 0 <= i < taken && turns[i]|
    ensures (forall i :: 0 <= i < |turns| ==> turns[i]) ==> backs == []
    ensures (forall i :: 0 <= i < |turns| ==> !turns[i]) ==> fronts == []
  {
    hide Arena, Heap, Node.Valid, Store.Valid, BTreeMap.Valid, Wf, FlatKeys, FlatVals, Iter.Valid, Pairs, Yielded, Rev;
    tree.EntriesSorted();
    var it := new Iter(tree);
    fronts, backs := [], [];
    for k := 0 to |turns|
      invariant it.tree == tree && it.Valid() && fresh(it.cursor) && fresh(it.backCursor)
      invariant fronts == it.fronts && backs == it.backs
      invariant it.length == if k < tree.length then tree.length - k else 0
      invariant |fronts| == FrontTurns(turns, if k < tree.length then k else tree.length)
      invariant |fronts| + |backs| == if k < tree.length then k else tree.length
    {
      if turns[k] {
        var r := it.Next();
        fronts := if r.Some? then fronts + [r.value] else fronts;
      } else {
        var r := it.NextBack();
        backs := if r.Some? then backs + [r.value] else backs;
      }
    }
    left := it.length;
    OneWayTurns(turns, if |turns| < tree.length then |turns| else tree.length);
    it.YieldedSoFar();
    YieldedAt(tree.Keys(), tree.Vals(), fronts, left, backs);
    FrontTurnsCount(turns, if |turns| < tree.length then |turns| else tree.length);
    if left == 0 {
      YieldedAll(Pairs(tree.Keys(), tree.Vals()), fronts, backs);
    }
  }

  lemma {:induction false} EndAddresses(H: Cells, t: Shape)
    requires Wf(H, t, null)
    ensures t.leaves != [] && t.leaves[0] in H && t.leaves[|t.leaves| - 1] in H &&
            0 < |H[t.leaves[|t.leaves| - 1]].keys|
    ensures 0 < Count(H, t) && Address(H, t, t.leaves[0], 0, 0)
    ensures var l := t.leaves[|t.leaves| - 1]; Address(H, t, l, |H[l].keys| - 1, Count(H, t) - 1)
  {
    EndEntries(H, t);
    var l := |t.leaves| - 1;
    assert AddressAt(H, t, t.leaves[0], 0, 0, 0);
    assert AddressAt(H, t, t.leaves[l], |H[t.leaves[l]].keys| - 1, l, Count(H, t) - 1);
  }

  /** Sorted entries are the same exactly if the maps that they stand for are. */
  lemma {:induction false} PairsDecide(ks: seq<Key>, vs: seq<Value>, ks1: seq<Key>, vs1: seq<Value>)
    requires |ks| == |vs| && Increasing(ks) && |ks1| == |vs1| && Increasing(ks1)
    ensures Pairs(ks, vs) == Pairs(ks1, vs1) <==> ToMap(ks, vs) == ToMap(ks1, vs1)
  {
    var p, p1 := Pairs(ks, vs), Pairs(ks1, vs1);
    if p == p1 {
      forall i | 0 <= i < |ks|
        ensures ks[i] == ks1[i] && vs[i] == vs1[i]
      {
        assert p[i] == (ks[i], vs[i]) && p1[i] == (ks1[i], vs1[i]);
      }
      assert ks == ks1 && vs == vs1;
    }
    if ToMap(ks, vs) == ToMap(ks1, vs1) {
      SameMapSameEntries(ks, vs, ks1, vs1);
    }
  }

  /** What one more step of both iterators says about all entries. */
  lemma StepDecides(all: seq<Entry>, all1: seq<Entry>, fronts: seq<Entry>, length: nat, length1: nat, x: Option<Entry>,
                    y: Option<Entry>)
    requires Yielded(all, fronts, length, []) && Yielded(all1, fronts, length1, [])
    requires x == (if length == 0 then None else Some(all[|fronts|])) &&
             y == (if length1 == 0 then None else Some(all1[|fronts|]))
    ensures x != y ==> all != all1
    ensures x == y == None ==> all == all1
  {
  }

  /** Yields the next entry of an iterator that has only been used from the front. */
  method NextEntry(i: Iter) returns (x: Option<Entry>)
    requires i.Valid() && i.backs == []
    modifies i`length, i`fronts, i.cursor
    ensures i.Valid() && i.backs == [] && i.cursor == old(i.cursor) && i.backCursor == old(i.backCursor)
    ensures |i.tree.Vals()| == |i.tree.Keys()|
    ensures var all := Pairs(i.tree.Keys(), i.tree.Vals());
            && Yielded(all, old(i.fronts), old(i.length), [])
            && (if old(i.length) == 0 then x == None && i.length == 0 && i.fronts == old(i.fronts)
                else |old(i.fronts)| < |all| && x == Some(all[|old(i.fronts)|]) && i.length == old(i.length) - 1
                     && i.fronts == old(i.fronts) + [x.value])
  {
    hide Iter.Valid, BTreeMap.Valid, Pairs, Yielded;
    i.YieldedSoFar();
    ghost var f, l := i.fronts, i.length;
    x := i.Next();
    i.LastYielded(f, l, x);
  }

  /** Compares the entries of two maps, with iterators that have not been used. */
  method EqualEntries(i: Iter, j: Iter) returns (eq: bool)
    requires i.Valid() && j.Valid() && i != j && i.cursor != j.cursor && i.cursor != j.backCursor &&
             j.cursor != i.backCursor
    requires i.fronts == j.fronts == [] && i.backs == j.backs == []
    modifies i`length, i`fronts, i.cursor, j`length, j`fronts, j.cursor
    ensures |i.tree.Vals()| == |i.tree.Keys()| && |j.tree.Vals()| == |j.tree.Keys()|
    ensures eq <==> Pairs(i.tree.Keys(), i.tree.Vals()) == Pairs(j.tree.Keys(), j.tree.Vals())
  {
    hide Arena, Heap, Node.Valid, Store.Valid, BTreeMap.Valid, Wf, FlatKeys, FlatVals, Iter.Valid, Pairs, Yielded;
    i.YieldedSoFar();
    j.YieldedSoFar();
    ghost var all, all1 := Pairs(i.tree.Keys(), i.tree.Vals()), Pairs(j.tree.Keys(), j.tree.Vals());
    while true
      invariant i.Valid() && j.Valid() && i.cursor == old(i.cursor) && j.cursor == old(j.cursor)
      invariant i.backCursor == old(i.backCursor) && j.backCursor == old(j.backCursor)
      invariant i.fronts == j.fronts && i.backs == j.backs == []
      decreases i.length
    {
      ghost var f, m, n := i.fronts, i.length, j.length;
      var x := NextEntry(i);
      var y := NextEntry(j);
      StepDecides(all, all1, f, m, n, x, y);
      if x != y || x == None {
        eq := x == y;
        break;
      }
    }
  }

  /**
   * Compares two maps entry by entry: they are equal exactly if they have the same contents, whatever their trees
   * look like.
   */
  method Equal(a: BTreeMap, b: BTreeMap) returns (eq: bool)
    requires a.Valid() && b.Valid()
    ensures eq <==> old(a.Contents() == b.Contents())
  {
    hide Arena, Heap, Node.Valid, Store.Valid, BTreeMap.Valid, Wf, FlatKeys, FlatVals, ToMap, Iter.Valid, Pairs;
    a.EntriesSorted();
    b.EntriesSorted();
    PairsDecide(a.Keys(), a.Vals(), b.Keys(), b.Vals());
    var i := new Iter(a);
    var j := new Iter(b);
    eq := EqualEntries(i, j);
  }
}
