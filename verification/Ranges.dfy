/** The addresses of the first and the last entry of a range of keys. */
module Ranges {
  import opened Nodes
  import opened Stores
  import opened Trees
  import opened Contents
  import opened Entries
  import opened Removal
  import opened Cursors
  import opened Maps
  import Iterators

  datatype KeyBound = Included(key: Key) | Excluded(key: Key) | Unbounded

  datatype NodeBounds = NodeBounds(startNode: Node, endNode: Node, startIndex: nat, endIndex: nat)

  ghost predicate AfterStart(start: KeyBound, k: Key) {
    match start
    case Included(b) => b <= k
    case Excluded(b) => b < k
    case Unbounded => true
  }

  ghost predicate BeforeEnd(end: KeyBound, k: Key) {
    match end
    case Included(b) => k <= b
    case Excluded(b) => k < b
    case Unbounded => true
  }

  /** The keys from index `s` on are those after the start. */
  ghost predicate StartsAt(ks: seq<Key>, start: KeyBound, s: nat) {
    && s <= |ks| && (forall j :: 0 <= j < s ==> !AfterStart(start, ks[j])) &&
       (forall j :: s <= j < |ks| ==> AfterStart(start, ks[j]))
  }

  /** The keys up to index `e` are those before the end. */
  ghost predicate EndsAt(ks: seq<Key>, end: KeyBound, e: nat) {
    && e <= |ks| && (forall j :: 0 <= j < e ==> BeforeEnd(end, ks[j])) &&
       (forall j :: e <= j < |ks| ==> !BeforeEnd(end, ks[j]))
  }

  /** What the indices say of each key. */
  lemma IndicesMean(ks: seq<Key>, start: KeyBound, end: KeyBound, s: nat, e: nat)
    requires StartsAt(ks, start, s) && EndsAt(ks, end, e)
    ensures s <= |ks| && e <= |ks| && (start.Unbounded? ==> s == 0) && (end.Unbounded? ==> e == |ks|)
    ensures start.Included? ==> forall j :: 0 <= j < |ks| ==> (s <= j <==> start.key <= ks[j])
    ensures start.Excluded? ==> forall j :: 0 <= j < |ks| ==> (s <= j <==> start.key < ks[j])
    ensures end.Included? ==> forall j :: 0 <= j < |ks| ==> (j < e <==> ks[j] <= end.key)
    ensures end.Excluded? ==> forall j :: 0 <= j < |ks| ==> (j < e <==> ks[j] < end.key)
  {
    forall j | 0 <= j < |ks|
      ensures (AfterStart(start, ks[j]) <==> s <= j) && (BeforeEnd(end, ks[j]) <==> j < e)
    {
    }
    assert start.Unbounded? && 0 < s ==> AfterStart(start, ks[0]);
    assert end.Unbounded? && e < |ks| ==> BeforeEnd(end, ks[e]);
  }

  /**
   * The first index is at most the second one exactly if every key is after the start or before the end. This is so
   * if the start is not past the end, unless both exclude the same key.
   */
  lemma IndicesInOrder(ks: seq<Key>, start: KeyBound, end: KeyBound, s: nat, e: nat)
    requires StartsAt(ks, start, s) && EndsAt(ks, end, e)
    ensures s <= e <==> forall k :: k in ks ==> AfterStart(start, k) || BeforeEnd(end, k)
    ensures
      && (start.Unbounded? || end.Unbounded? ==> s <= e)
      && (!start.Unbounded? && !end.Unbounded? && start.key < end.key ==> s <= e)
      && (!start.Unbounded? && !end.Unbounded? && start.key == end.key && (start.Included? || end.Included?) ==> s <= e)
  {
    if e < s {
      assert ks[e] in ks && !AfterStart(start, ks[e]) && !BeforeEnd(end, ks[e]);
    }
  }

  /** The keys between both indices are exactly the keys in the range. */
  lemma RangeIsSlice(ks: seq<Key>, start: KeyBound, end: KeyBound, s: nat, e: nat)
    requires StartsAt(ks, start, s) && EndsAt(ks, end, e) && s <= e
    ensures forall k :: k in ks[s..e] <==>
              && k in ks && (start.Unbounded? || start.key < k || (start.Included? && start.key == k))
              && (end.Unbounded? || k < end.key || (end.Included? && k == end.key))
  {
    forall k
      ensures k in ks[s..e] <==> k in ks && AfterStart(start, k) && BeforeEnd(end, k)
    {
      if k in ks && AfterStart(start, k) && BeforeEnd(end, k) {
        var i :| 0 <= i < |ks| && ks[i] == k;
        assert ks[s..e][i - s] == k;
      }
    }
  }

  // ---- addresses around an index ----

  lemma {:induction false} LeafCount(H: Cells, t: Shape, q: nat)
    requires Wf(H, t, null) && q < |t.leaves|
    ensures t.leaves[q] in H && Position(H, t.leaves, q, 0) + |H[t.leaves[q]].keys| <= Count(H, t)
    ensures Position(H, t.leaves, q, 0) + |H[t.leaves[q]].keys| == Count(H, t) <==> q + 1 == |t.leaves|
    ensures q + 1 < |t.leaves| ==>
              && t.leaves[q + 1] in H && M / 2 <= |H[t.leaves[q + 1]].keys|
              && Position(H, t.leaves, q + 1, 0) == Position(H, t.leaves, q, 0) + |H[t.leaves[q]].keys|
  {
    LeafLinks(H, t, q);
    FlatSplit(H, t.leaves, q);
    if q + 1 < |t.leaves| {
      LeafLinks(H, t, q + 1);
      PositionNext(H, t.leaves, q);
      FlatSplit(H, t.leaves, q + 1);
      NotRoot(H, t, q, q + 1);
    } else {
      assert FlatKeys(H, t.leaves[q + 1..]) == [];
    }
  }

  /** With two leaves, neither is the root. */
  lemma NotRoot(H: Cells, t: Shape, q: nat, r: nat)
    requires Wf(H, t, null) && q < |t.leaves| && r < |t.leaves| && q != r
    ensures t.leaves[r] in H && M / 2 <= |H[t.leaves[r]].keys|
  {
    assert LinkAt(H, t.places, t.leaves, q) && LinkAt(H, t.places, t.leaves, r) && FillOk(H, t.root, null, t.leaves[r]);
    ChainDistinct(H, t.places, t.leaves);
    if t.leaves[r] == t.root {
      RootLeaf(H, t, null);
      assert false;
    }
  }

  /** The address of the entry number `p`, if there is one. */
  ghost predicate AddressOf(H: Cells, t: Shape, r: Option<(Node, nat)>, p: int) {
    if 0 <= p < Count(H, t) then r.Some? && Address(H, t, r.value.0, r.value.1, p) else r == None
  }

  /** The address of an index that may be the length of its leaf. */
  method NormalizeAddress(node: Node, idx: nat, ghost S: set<Node>, ghost t: Shape, ghost q: nat)
    returns (r: Option<(Node, nat)>)
    requires Arena(S) && Wf(Heap(S), t, null) && q < |t.leaves| && t.leaves[q] == node && node in S &&
             idx <= |node.cell.keys|
    ensures AddressOf(Heap(S), t, r, Position(Heap(S), t.leaves, q, idx))
  {
    hide Arena, Heap, Wf, FlatKeys;
    ghost var H := Heap(S);
    node.Known(S);
    LeafLinks(H, t, q);
    LeafCount(H, t, q);
    if idx < node.len {
      assert AddressAt(H, t, node, idx, q, Position(H, t.leaves, q, idx));
      r := Some((node, idx));
    } else if node.next == null {
      r := None;
    } else {
      assert AddressAt(H, t, node.next, 0, q + 1, Position(H, t.leaves, q + 1, 0));
      r := Some((node.next, 0));
    }
  }

  /** The address before an index. */
  method AddressBefore(node: Node, idx: nat, ghost S: set<Node>, ghost t: Shape, ghost q: nat)
    returns (r: Option<(Node, nat)>)
    requires Arena(S) && Wf(Heap(S), t, null) && q < |t.leaves| && t.leaves[q] == node && node in S &&
             idx <= |node.cell.keys|
    ensures AddressOf(Heap(S), t, r, Position(Heap(S), t.leaves, q, idx) - 1)
  {
    hide Arena, Heap, Wf, FlatKeys;
    ghost var H := Heap(S);
    node.Known(S);
    LeafLinks(H, t, q);
    LeafCount(H, t, q);
    if idx > 0 {
      assert AddressAt(H, t, node, idx - 1, q, Position(H, t.leaves, q, idx - 1));
      r := Some((node, idx - 1));
    } else if node.prev == null {
      FirstPosition(H, t.leaves);
      r := None;
    } else {
      LeafLinks(H, t, q - 1);
      LeafCount(H, t, q - 1);
      HeapKeys(S);
      node.prev.Known(S);
      assert AddressAt(H, t, node.prev, node.prev.len - 1, q - 1, Position(H, t.leaves, q - 1, node.prev.len - 1));
      r := Some((node.prev, node.prev.len - 1));
    }
  }

  lemma {:induction false} FirstPosition(H: Cells, ls: seq<Node>)
    requires ls != []
    ensures Position(H, ls, 0, 0) == 0
  {
    assert FlatKeys(H, ls[..0]) == [];
  }

  /** The address after an index. */
  method AddressAfter(node: Node, idx: nat, ghost S: set<Node>, ghost t: Shape, ghost q: nat)
    returns (r: Option<(Node, nat)>)
    requires Arena(S) && Wf(Heap(S), t, null) && q < |t.leaves| && t.leaves[q] == node && node in S &&
             idx <= |node.cell.keys|
    ensures AddressOf(Heap(S), t, r, Position(Heap(S), t.leaves, q, idx) + 1)
  {
    hide Arena, Heap, Wf, FlatKeys;
    ghost var H := Heap(S);
    node.Known(S);
    LeafLinks(H, t, q);
    LeafCount(H, t, q);
    if idx < node.len - 1 {
      assert AddressAt(H, t, node, idx + 1, q, Position(H, t.leaves, q, idx + 1));
      r := Some((node, idx + 1));
    } else if node.next == null {
      r := None;
    } else {
      var i := if idx == node.len - 1 then 0 else 1;
      LeafCount(H, t, q + 1);
      assert AddressAt(H, t, node.next, i, q + 1, Position(H, t.leaves, q + 1, i));
      r := Some((node.next, i));
    }
  }

  // ---- the ends of a range ----

  /** The key at index `p` or the place where it belongs says where a range with that bound starts and ends. */
  lemma BoundsAt(ks: seq<Key>, key: Key, found: bool, p: nat)
    requires Increasing(ks) && Searched(ks, found, p, key)
    ensures StartsAt(ks, Included(key), p) && StartsAt(ks, Excluded(key), if found then p + 1 else p)
    ensures EndsAt(ks, Excluded(key), p) && EndsAt(ks, Included(key), if found then p + 1 else p)
  {
  }

  /** The address of the first entry after the start. */
  method StartAddress(tree: BTreeMap, start: KeyBound) returns (r: Option<(Node, nat)>, ghost s: nat)
    requires tree.Valid()
    ensures StartsAt(tree.Keys(), start, s)
    ensures if tree.root == null then r == None else AddressOf(Heap(tree.store.nodes), tree.Tree(), r, s)
  {
    hide Arena, Heap, Node.Valid, Store.Valid, BTreeMap.Valid, Wf, FlatKeys, FlatVals, Position, AddressOf, StartsAt;
    tree.EntriesSorted();
    tree.Parts();
    ghost var S := tree.store.nodes;
    if start.Unbounded? {
      AllAfter(tree.Keys());
      var leaf := tree.FirstLeaf();
      s := 0;
      if leaf == null {
        return None, 0;
      }
      FirstAddressOf(Heap(S), tree.Tree());
      return Some((leaf, 0)), 0;
    }
    var find, q, _ := tree.FindKey(start.key);
    match find
    case NoRoot =>
      NoKeys(start);
      return None, 0;
    case Before(node, idx) =>
      s := Position(Heap(S), tree.leaves, q, idx);
      BoundsAt(tree.Keys(), start.key, false, s);
      SearchedIndex(node.cell.keys, false, idx, start.key);
      r := NormalizeAddress(node, idx, S, tree.Tree(), q);
    case At(node, idx) =>
      ghost var p := Position(Heap(S), tree.leaves, q, idx);
      BoundsAt(tree.Keys(), start.key, true, p);
      SearchedIndex(node.cell.keys, true, idx, start.key);
      if start.Included? {
        s := p;
        FoundAddress(Heap(S), tree.Tree(), node, idx, q, S);
        r := Some((node, idx));
      } else {
        s := p + 1;
        r := AddressAfter(node, idx, S, tree.Tree(), q);
      }
  }

  lemma AllAfter(ks: seq<Key>)
    ensures StartsAt(ks, Unbounded, 0) && EndsAt(ks, Unbounded, |ks|)
  {
  }

  lemma NoKeys(b: KeyBound)
    ensures StartsAt([], b, 0) && EndsAt([], b, 0)
  {
  }

  lemma SearchedIndex(ks: seq<Key>, found: bool, i: nat, key: Key)
    requires Searched(ks, found, i, key)
    ensures i <= |ks| && (found ==> i < |ks|)
  {
  }

  lemma {:induction false} FirstAddressOf(H: Cells, t: Shape)
    requires Wf(H, t, null)
    ensures t.leaves != [] && AddressOf(H, t, Some((t.leaves[0], 0)), 0)
  {
    Iterators.EndAddresses(H, t);
  }

  lemma {:induction false} FoundAddress(H: Cells, t: Shape, node: Node, i: nat, q: nat, S: set<Node>)
    requires Wf(H, t, null) && q < |t.leaves| && t.leaves[q] == node && node in S && H == Heap(S) &&
             i < |node.cell.keys|
    ensures AddressOf(H, t, Some((node, i)), Position(H, t.leaves, q, i))
  {
    LeafCount(H, t, q);
    assert AddressAt(H, t, node, i, q, Position(H, t.leaves, q, i));
  }

  /** The address of the last entry before the end. */
  method EndAddress(tree: BTreeMap, end: KeyBound) returns (r: Option<(Node, nat)>, ghost e: nat)
    requires tree.Valid()
    ensures EndsAt(tree.Keys(), end, e)
    ensures if tree.root == null then r == None else AddressOf(Heap(tree.store.nodes), tree.Tree(), r, e - 1)
  {
    hide Arena, Heap, Node.Valid, Store.Valid, BTreeMap.Valid, Wf, FlatKeys, FlatVals, Position, AddressOf, EndsAt;
    tree.EntriesSorted();
    tree.Parts();
    ghost var S := tree.store.nodes;
    if end.Unbounded? {
      AllAfter(tree.Keys());
      var leaf := tree.LastLeaf();
      e := |tree.Keys()|;
      if leaf == null {
        r := None;
      } else {
        LastAddressOf(Heap(S), tree.Tree());
        HeapKeys(S);
        leaf.Known(S);
        r := Some((leaf, leaf.len - 1));
      }
      return;
    }
    var find, q, _ := tree.FindKey(end.key);
    match find
    case NoRoot =>
      NoKeys(end);
      return None, 0;
    case Before(node, idx) =>
      e := Position(Heap(S), tree.leaves, q, idx);
      BoundsAt(tree.Keys(), end.key, false, e);
      SearchedIndex(node.cell.keys, false, idx, end.key);
      r := AddressBefore(node, idx, S, tree.Tree(), q);
    case At(node, idx) =>
      ghost var p := Position(Heap(S), tree.leaves, q, idx);
      BoundsAt(tree.Keys(), end.key, true, p);
      SearchedIndex(node.cell.keys, true, idx, end.key);
      if end.Included? {
        e := p + 1;
        FoundAddress(Heap(S), tree.Tree(), node, idx, q, S);
        r := Some((node, idx));
      } else {
        e := p;
        r := AddressBefore(node, idx, S, tree.Tree(), q);
      }
  }

  lemma {:induction false} LastAddressOf(H: Cells, t: Shape)
    requires Wf(H, t, null)
    ensures t.leaves != [] && var l := t.leaves[|t.leaves| - 1];
            l in H && 0 < |H[l].keys| && AddressOf(H, t, Some((l, |H[l].keys| - 1)), Count(H, t) - 1)
  {
    Iterators.EndAddresses(H, t);
  }

  /** Whether the entry at `m`, `i` comes right after the one at `n`, `j`, as far as the code looks. */
  ghost predicate Touching(H: Cells, m: Node, i: nat, n: Node, j: nat) {
    m in H && ((m == n && i == j + 1) || (i == 0 && H[m].prev == n))
  }

  /**
   * Of two entries that are not more than one out of order the first touches the second exactly if it comes right
   * after it.
   */
  lemma {:induction false} TouchingDecides(H: Cells, t: Shape, m: Node, i: nat, p: nat, n: Node, j: nat, r: nat)
    requires Wf(H, t, null) && Address(H, t, m, i, p) && Address(H, t, n, j, r) && p <= r + 1
    ensures Touching(H, m, i, n, j) <==> p == r + 1
  {
    var q: nat :| AddressAt(H, t, m, i, q, p);
    var q1: nat :| AddressAt(H, t, n, j, q1, r);
    LeafLinks(H, t, q);
    ChainDistinct(H, t.places, t.leaves);
    PrevAddress(H, t, m, i, q, p);
    hide Wf, FlatKeys;
    if p == r + 1 {
      var k := PrevNode(H, m, i);
      AddressUnique(H, t, n, j, q1, k, if i > 0 then i - 1 else |H[k].keys| - 1, if i > 0 then q else q - 1, r);
    }
    if i == 0 && H[m].prev == n {
      LeafLinks(H, t, q - 1);
      LeafCount(H, t, q - 1);
    }
  }

  /**
   * The addresses of the first and the last entry of a range, or nothing if there is none. The entries of the range
   * are those from number `s` to before `e`, unless some keys are neither after the start nor before the end.
   */
  method Bounds(tree: BTreeMap, start: KeyBound, end: KeyBound)
    returns (r: Option<NodeBounds>, ghost s: nat, ghost e: nat)
    requires tree.Valid()
    ensures StartsAt(tree.Keys(), start, s) && EndsAt(tree.Keys(), end, e) && s <= |tree.Keys()| && e <= |tree.Keys()|
    ensures (start.Unbounded? ==> s == 0) && (end.Unbounded? ==> e == |tree.Keys()|)
    ensures start.Included? ==> forall j :: 0 <= j < |tree.Keys()| ==> (s <= j <==> start.key <= tree.Keys()[j])
    ensures start.Excluded? ==> forall j :: 0 <= j < |tree.Keys()| ==> (s <= j <==> start.key < tree.Keys()[j])
    ensures end.Included? ==> forall j :: 0 <= j < |tree.Keys()| ==> (j < e <==> tree.Keys()[j] <= end.key)
    ensures end.Excluded? ==> forall j :: 0 <= j < |tree.Keys()| ==> (j < e <==> tree.Keys()[j] < end.key)
    ensures s <= e ==> (r.None? <==> s == e)
    ensures s <= e <==> forall k :: k in tree.Keys() ==> AfterStart(start, k) || BeforeEnd(end, k)
    ensures
      && (start.Unbounded? || end.Unbounded? ==> s <= e)
      && (!start.Unbounded? && !end.Unbounded? && start.key < end.key ==> s <= e)
      && (!start.Unbounded? && !end.Unbounded? && start.key == end.key && (start.Included? || end.Included?) ==> s <= e)
    ensures r.Some? ==>
              && tree.root != null
              && Address(Heap(tree.store.nodes), tree.Tree(), r.value.startNode, r.value.startIndex, s)
              && 0 < e && Address(Heap(tree.store.nodes), tree.Tree(), r.value.endNode, r.value.endIndex, e - 1)
  {
    hide Arena, Heap, Node.Valid, Store.Valid, BTreeMap.Valid, Wf, FlatKeys, FlatVals, StartsAt, EndsAt, Address,
         AfterStart, BeforeEnd;
    tree.Parts();
    tree.EntriesSorted();
    var first, last;
    first, s := StartAddress(tree, start);
    last, e := EndAddress(tree, end);
    IndicesMean(tree.Keys(), start, end, s, e);
    IndicesInOrder(tree.Keys(), start, end, s, e);
    if first.None? || last.None? {
      return None, s, e;
    }
    ghost var S := tree.store.nodes;
    var (startNode, startIndex) := first.value;
    var (endNode, endIndex) := last.value;
    Iterators.EntryThere(Heap(S), tree.Tree(), startNode, startIndex, s);
    HeapKeys(S);
    startNode.Known(S);
    if s <= e {
      TouchingDecides(Heap(S), tree.Tree(), startNode, startIndex, s, endNode, endIndex, e - 1);
    }
    if (startNode == endNode && startIndex == endIndex + 1) || (startIndex == 0 && startNode.prev == endNode) {
      return None, s, e;
    }
    r := Some(NodeBounds(startNode, endNode, startIndex, endIndex));
  }
}
