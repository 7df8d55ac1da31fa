/** Positions in the chain of leaves, and the cursor that every iterator uses. */
module Cursors {
  import opened Nodes
  import opened Trees
  import opened Contents
  import opened Entries

  // ---- addresses ----

  /** Index `i` of the leaf `q` is the address of the entry number `p`. */
  ghost predicate AddressAt(H: Cells, t: Shape, node: Node?, i: nat, q: nat, p: nat) {
    && q < |t.leaves| && t.leaves[q] == node && node in H && i < |H[node].keys|
    && p == Position(H, t.leaves, q, i)
  }

  ghost predicate Address(H: Cells, t: Shape, node: Node?, i: nat, p: nat) {
    exists q: nat :: AddressAt(H, t, node, i, q, p)
  }

  ghost function Count(H: Cells, t: Shape): nat {
    |FlatKeys(H, t.leaves)|
  }

  /** The next address of an entry: in the same leaf, or the first of the next leaf. */
  ghost function NextNode(H: Cells, node: Node, i: nat): Node?
    requires node in H
  {
    if i + 1 < |H[node].keys| then node else H[node].next
  }

  ghost function NextIndex(H: Cells, node: Node, i: nat): nat
    requires node in H
  {
    if i + 1 < |H[node].keys| then i + 1 else 0
  }

  /** The positions of two neighbouring leaves follow each other. */
  lemma {:induction false} PositionNext(H: Cells, ls: seq<Node>, q: nat)
    requires q + 1 < |ls| && ls[q] in H
    ensures Position(H, ls, q + 1, 0) == Position(H, ls, q, 0) + |H[ls[q]].keys|
  {
    assert ls[..q + 1] == ls[..q] + [ls[q]];
    FlatConcat(H, ls[..q], [ls[q]]);
    assert FlatKeys(H, [ls[q]]) == H[ls[q]].keys + FlatKeys(H, []);
  }

  /** What is known of the leaf at `q`. */
  lemma LeafLinks(H: Cells, t: Shape, q: nat)
    requires Wf(H, t, null) && q < |t.leaves|
    ensures t.leaves[q] in H && t.leaves[q] in t.places && 1 <= |H[t.leaves[q]].keys| == |H[t.leaves[q]].vals|
    ensures H[t.leaves[q]].next == (if q + 1 == |t.leaves| then null else t.leaves[q + 1])
    ensures H[t.leaves[q]].prev == (if q == 0 then null else t.leaves[q - 1])
  {
    assert LinkAt(H, t.places, t.leaves, q) && LocalOk(H, t.places, t.leaves[q]) &&
           FillOk(H, t.root, null, t.leaves[q]);
  }

  /** After the last entry there is no address, and after another one comes the address of the next entry. */
  lemma {:induction false} NextAddress(H: Cells, t: Shape, node: Node, i: nat, q: nat, p: nat)
    requires Wf(H, t, null) && AddressAt(H, t, node, i, q, p)
    ensures p < Count(H, t)
    ensures p + 1 == Count(H, t) ==> NextNode(H, node, i) == null
    ensures p + 1 < Count(H, t) ==>
              AddressAt(H, t, NextNode(H, node, i), NextIndex(H, node, i), if i + 1 < |H[node].keys| then q
                else q + 1, p + 1)
  {
    LeafLinks(H, t, q);
    FlatSplit(H, t.leaves, q);
    if q + 1 < |t.leaves| {
      LeafLinks(H, t, q + 1);
      PositionNext(H, t.leaves, q);
      FlatSplit(H, t.leaves, q + 1);
    } else {
      assert FlatKeys(H, t.leaves[q + 1..]) == [];
    }
  }

  ghost function PrevNode(H: Cells, node: Node, i: nat): Node?
    requires node in H
  {
    if i > 0 then node else H[node].prev
  }

  /** Before the first entry there is no address, and before another one comes the address of the previous entry. */
  lemma {:induction false} PrevAddress(H: Cells, t: Shape, node: Node, i: nat, q: nat, p: nat)
    requires Wf(H, t, null) && AddressAt(H, t, node, i, q, p)
    ensures p == 0 <==> PrevNode(H, node, i) == null
    ensures var n := PrevNode(H, node, i);
            n != null ==>
              && n in H && 1 <= |H[n].keys|
              && AddressAt(H, t, n, if i > 0 then i - 1 else |H[n].keys| - 1, if i > 0 then q else q - 1, p - 1)
  {
    LeafLinks(H, t, q);
    if q > 0 {
      LeafLinks(H, t, q - 1);
      PositionNext(H, t.leaves, q - 1);
    } else {
      assert FlatKeys(H, t.leaves[..0]) == [];
    }
  }

  /** An entry has one address. */
  lemma {:induction false} AddressUnique(H: Cells, t: Shape, m: Node, i: nat, q: nat, n: Node, j: nat, r: nat, p: nat)
    requires Wf(H, t, null) && AddressAt(H, t, m, i, q, p) && AddressAt(H, t, n, j, r, p)
    ensures m == n && i == j && q == r
  {
    if q < r {
      PositionsGrow(H, t, q, r);
      assert false;
    }
    if r < q {
      PositionsGrow(H, t, r, q);
      assert false;
    }
  }

  lemma {:induction false} PositionsGrow(H: Cells, t: Shape, q: nat, r: nat)
    requires Wf(H, t, null) && q < r < |t.leaves|
    ensures t.leaves[q] in H && Position(H, t.leaves, q, 0) + |H[t.leaves[q]].keys| <= Position(H, t.leaves, r, 0)
    decreases r - q
  {
    LeafLinks(H, t, q);
    PositionNext(H, t.leaves, q);
    if q + 1 < r {
      PositionsGrow(H, t, q + 1, r);
    }
  }

  /** Going on and coming back leads to the same address, and so the other way round. */
  lemma {:induction false} NextThenPrev(H: Cells, t: Shape, node: Node, i: nat, p: nat)
    requires Wf(H, t, null) && Address(H, t, node, i, p)
    ensures p + 1 < Count(H, t) ==>
              var n, j := NextNode(H, node, i), NextIndex(H, node, i);
              n != null && n in H && PrevNode(H, n, j) == node && i == if j > 0 then j - 1 else |H[node].keys| - 1
    ensures 0 < p ==>
              var n := PrevNode(H, node, i);
              n != null && n in H && var j := if i > 0 then i - 1 else |H[n].keys| - 1;
              0 <= j && NextNode(H, n, j) == node && NextIndex(H, n, j) == i
  {
    var q: nat :| AddressAt(H, t, node, i, q, p);
    hide Position, FlatKeys;
    NextAddress(H, t, node, i, q, p);
    PrevAddress(H, t, node, i, q, p);
    LeafLinks(H, t, q);
    if q + 1 < |t.leaves| { LeafLinks(H, t, q + 1); }
    if q > 0 { LeafLinks(H, t, q - 1); }
  }

  // ---- the cursor ----

  /** What an index of 16 bits becomes below 0. */
  const MAX_INDEX: nat := 0xFFFF

  /** An address that moves: no node means that there is no current entry. */
  class Cursor {
    var node: Node?
    var index: nat

    constructor (node: Node?, index: nat)
      ensures this.node == node && this.index == index
    {
      this.node, this.index := node, index;
    }

    /** At the last entry of the leaf. */
    constructor AtEnd(node: Node?, ghost S: set<Node>)
      requires Arena(S) && (node != null ==> node in S && 0 < node.len)
      ensures this.node == node && (node != null ==> index + 1 == |node.cell.keys|)
    {
      this.node, index := node, if node == null then 0 else node.len - 1;
      new;
      if node != null { node.Known(S); }
    }

    /** Moves to the next entry. */
    method Advance(ghost S: set<Node>)
      requires Arena(S) && node != null && node in S && 0 < node.len
      modifies this
      ensures var h, n := Heap(S), old(node);
              n in h && node == NextNode(h, n, old(index)) && index == NextIndex(h, n, old(index))
    {
      node.Known(S);
      if index < node.len - 1 {
        index := index + 1;
      } else {
        node := node.next;
        index := 0;
      }
    }

    /**
     * Moves to the previous entry. Of the previous leaf only the length is read; if that leaf is not live the length,
     * and so the index, can be anything. `dead` says that this has happened.
     */
    method AdvanceBack(ghost S: set<Node>) returns (ghost dead: bool)
      requires Arena(S) && node != null && node in S
      requires index == 0 && node.prev != null && node.prev in S ==> 0 < node.prev.len
      modifies this
      ensures var h, n := Heap(S), old(node);
              && n in h && node == PrevNode(h, n, old(index))
              && (old(index) > 0 ==> index == old(index) - 1)
              && (old(index) == 0 && node == null ==> index == 0)
              && (old(index) == 0 && node in h ==> index + 1 == |h[node].keys|)
              && (dead <==> old(index) == 0 && node != null && node !in h)
    {
      dead := false;
      node.Known(S);
      if index > 0 {
        index := index - 1;
      } else {
        node := node.prev;
        if node == null {
          index := 0;
        } else {
          if node in S { node.Known(S); }
          dead := node !in S;
          index := if node.len == 0 then MAX_INDEX else node.len - 1;
        }
      }
    }

    method Detach()
      modifies `node
      ensures node == null
    {
      node := null;
    }

    /** The current entry. */
    method KeyValue(ghost S: set<Node>) returns (key: Key, val: Value)
      requires Arena(S) && node != null && node in S && node.IsLeaf() && index < node.len
      ensures var c := node.cell; index < |c.keys| == |c.vals| && key == c.keys[index] && val == c.vals[index]
    {
      node.ArenaAt(S);
      key, val := node.keys[index], node.vals[index];
    }
  }
}
