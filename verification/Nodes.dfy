/** A node of the B+ tree and the operations that work on it in place. */
module Nodes {
  import opened Seqs

  type Key = int
  type Value = int

  /** The number of keys a node can hold. */
  const M: nat := 8

  /** The value of a node: the initialized part of each buffer, and the links. */
  datatype Cell = Cell(
    parent: Node?, parentIdx: nat,
    keys: seq<Key>, vals: seq<Value>,
    prev: Node?, next: Node?,
    edges: seq<Node?>)

  /** The cells of a set of nodes. */
  type Cells = map<Node, Cell>

  /** A leaf has a buffer of `M` values, an internal node a buffer of `M + 1` edges. */
  class Node {
    /** The abstract value of the fields below. */
    ghost var cell: Cell

    var parent: Node?
    /** Only meaningful when `parent` is non-null. */
    var parentIdx: nat
    var len: nat
    const keys: array<Key>
    const vals: array<Value>
    const edges: array<Node?>
    var prev: Node?
    var next: Node?

    constructor Leaf()
      ensures Valid() && IsLeaf() && fresh(keys) && fresh(vals) && fresh(edges)
      ensures cell == Cell(null, 0, [], [], null, null, [])
    {
      parent, parentIdx, len, prev, next := null, 0, 0, null, null;
      keys, vals, edges := new Key[M], new Value[M], new Node?[0];
      cell := Cell(null, 0, [], [], null, null, []);
    }

    constructor Internal()
      ensures Valid() && !IsLeaf() && fresh(keys) && fresh(vals) && fresh(edges)
      ensures |cell.edges| == 1 && cell == Cell(null, 0, [], [], null, null, cell.edges)
    {
      parent, parentIdx, len, prev, next := null, 0, 0, null, null;
      keys, vals, edges := new Key[M], new Value[0], new Node?[M + 1];
      new;
      cell := Cell(null, 0, [], [], null, null, edges[..1]);
    }

    predicate IsLeaf() {
      vals.Length == M
    }

    ghost predicate Shaped() {
      && keys.Length == M
      && (if IsLeaf() then edges.Length == 0 else vals.Length == 0 && edges.Length == M + 1)
      && keys != vals
    }

    /** The fields say what `cell` says. */
    ghost predicate Valid()
      reads this, keys, vals, edges
    {
      && Shaped()
      && len <= M
      && cell == Cell(parent, parentIdx, keys[..len], if IsLeaf() then vals[..len] else [],
                      prev, next, if IsLeaf() then [] else edges[..len + 1])
    }

    /** A change to this node alone is an update of the heap at this node. */
    twostate lemma OnlyThis(S: set<Node>)
      requires old(Arena(S)) && this in S && Valid()
      requires forall n :: n in S && n != this ==> n.Valid() && n.cell == old(n.cell)
      ensures Arena(S) && Heap(S) == old(Heap(S))[this := cell]
    {
    }

    lemma ArenaAt(S: set<Node>)
      requires Arena(S) && this in S
      ensures Valid()
    {
    }

    /** What the fields of a live node say about its cell. */
    lemma Known(S: set<Node>)
      requires Arena(S) && this in S
      ensures Heap(S).Keys == S && Heap(S)[this] == cell && len == |cell.keys| <= M
      ensures parent == cell.parent && parentIdx == cell.parentIdx && prev == cell.prev && next == cell.next
      ensures if IsLeaf() then cell.edges == [] && |cell.vals| == len else |cell.edges| == len + 1
    {
    }

    /** The edges of a live internal node are in its buffer. */
    lemma EdgesFit(S: set<Node>)
      requires Arena(S) && this in S && !IsLeaf()
      ensures len + 1 <= edges.Length
    {
    }

    lemma HeapAt(S: set<Node>)
      requires this in S
      ensures this in Heap(S) && Heap(S)[this] == cell && Heap(S)[this := cell] == Heap(S)
    {
    }

    // ---- links ----

    method SetParent(p: Node, idx: nat, ghost S: set<Node>)
      requires Arena(S) && this in S
      modifies this`parent, this`parentIdx, this`cell
      ensures Arena(S) && Heap(S) == old(Heap(S))[this := cell] && cell == old(cell).(parent := p, parentIdx := idx)
    {
      parent, parentIdx := p, idx;
      cell := cell.(parent := p, parentIdx := idx);
      OnlyThis(S);
    }

    method SetParentIdx(idx: nat, ghost S: set<Node>)
      requires Arena(S) && this in S
      modifies this`parentIdx, this`cell
      ensures Arena(S) && Heap(S) == old(Heap(S))[this := cell] && cell == old(cell).(parentIdx := idx)
    {
      parentIdx := idx;
      cell := cell.(parentIdx := idx);
      OnlyThis(S);
    }

    /** Sets the parent and leaves the parent index. */
    method SetParentNode(p: Node, ghost S: set<Node>)
      requires Arena(S) && this in S
      modifies this`parent, this`cell
      ensures Arena(S) && Heap(S) == old(Heap(S))[this := cell] && cell == old(cell).(parent := p)
    {
      parent := p;
      cell := cell.(parent := p);
      OnlyThis(S);
    }

    method ClearParent(ghost S: set<Node>)
      requires Arena(S) && this in S
      modifies this`parent, this`cell
      ensures Arena(S) && Heap(S) == old(Heap(S))[this := cell] && cell == old(cell).(parent := null)
    {
      parent := null;
      cell := cell.(parent := null);
      OnlyThis(S);
    }

    method SetPrev(p: Node?, ghost S: set<Node>)
      requires Arena(S) && this in S
      modifies this`prev, this`cell
      ensures Arena(S) && Heap(S) == old(Heap(S))[this := cell] && cell == old(cell).(prev := p)
    {
      prev := p;
      cell := cell.(prev := p);
      OnlyThis(S);
    }

    method SetNext(p: Node?, ghost S: set<Node>)
      requires Arena(S) && this in S
      modifies this`next, this`cell
      ensures Arena(S) && Heap(S) == old(Heap(S))[this := cell] && cell == old(cell).(next := p)
    {
      next := p;
      cell := cell.(next := p);
      OnlyThis(S);
    }

    // ---- keys and values ----

    /** The index of `key`, or the index at which it would be inserted. */
    method Search(key: Key) returns (found: bool, idx: nat)
      requires Valid() && Increasing(cell.keys)
      ensures idx <= |cell.keys|
      ensures found ==> idx < |cell.keys| && cell.keys[idx] == key
      ensures forall i :: 0 <= i < idx ==> cell.keys[i] < key
      ensures !found ==> forall i :: idx <= i < |cell.keys| ==> key < cell.keys[i]
    {
      var lo, hi := 0, len;
      while lo < hi
        invariant 0 <= lo <= hi <= len
        invariant forall i :: 0 <= i < lo ==> cell.keys[i] < key
        invariant forall i :: hi <= i < len ==> key < cell.keys[i]
      {
        var mid := (lo + hi) / 2;
        if keys[mid] == key {
          return true, mid;
        } else if keys[mid] < key {
          lo := mid + 1;
        } else {
          hi := mid;
        }
      }
      return false, lo;
    }

    /** Inserts without rebalancing. */
    method InsertVal(idx: nat, key: Key, val: Value, ghost S: set<Node>)
      requires Arena(S) && this in S && IsLeaf() && idx <= len < M
      modifies this`len, this`cell, keys, vals
      ensures Arena(S)
      ensures Heap(S) == old(Heap(S))[this := cell] && cell == old(cell).(keys := Ins(old(cell).keys, idx, key),
              vals := Ins(old(cell).vals, idx, val))
    {
      InsertAt(keys, len, idx, key);
      InsertAt(vals, len, idx, val);
      len := len + 1;
      cell := cell.(keys := Ins(cell.keys, idx, key), vals := Ins(cell.vals, idx, val));
      forall n | n in S && n != this ensures n.Valid() { assert Apart(this, n); }
      OnlyThis(S);
    }

    /** Removes without rebalancing. */
    method RemoveVal(idx: nat, ghost S: set<Node>) returns (key: Key, val: Value)
      requires Arena(S) && this in S && IsLeaf() && idx < len
      modifies this`len, this`cell, keys, vals
      ensures Arena(S) && key == old(cell).keys[idx] && val == old(cell).vals[idx]
      ensures Heap(S) == old(Heap(S))[this := cell] && cell == old(cell).(keys := Del(old(cell).keys, idx),
              vals := Del(old(cell).vals, idx))
    {
      key, val := keys[idx], vals[idx];
      RemoveAt(keys, len, idx);
      RemoveAt(vals, len, idx);
      len := len - 1;
      cell := cell.(keys := Del(cell.keys, idx), vals := Del(cell.vals, idx));
      forall n | n in S && n != this ensures n.Valid() { assert Apart(this, n); }
      OnlyThis(S);
    }

    method ReplaceKey(idx: nat, key: Key, ghost S: set<Node>) returns (was: Key)
      requires Arena(S) && this in S && idx < len
      modifies keys, this`cell
      ensures Arena(S) && was == old(cell).keys[idx]
      ensures Heap(S) == old(Heap(S))[this := cell] && cell == old(cell).(keys := old(cell).keys[idx := key])
    {
      was := keys[idx];
      keys[idx] := key;
      cell := cell.(keys := cell.keys[idx := key]);
      forall n | n in S && n != this ensures n.Valid() { assert Apart(this, n); }
      OnlyThis(S);
    }

    method ReplaceVal(idx: nat, val: Value, ghost S: set<Node>) returns (was: Value)
      requires Arena(S) && this in S && IsLeaf() && idx < len
      modifies vals, this`cell
      ensures Arena(S) && was == old(cell).vals[idx]
      ensures Heap(S) == old(Heap(S))[this := cell] && cell == old(cell).(vals := old(cell).vals[idx := val])
    {
      was := vals[idx];
      vals[idx] := val;
      cell := cell.(vals := cell.vals[idx := val]);
      forall n | n in S && n != this ensures n.Valid() { assert Apart(this, n); }
      OnlyThis(S);
    }

    /** Stores (key, val) at `idx` and returns what was there. */
    method SwapVal(idx: nat, key: Key, val: Value, ghost S: set<Node>) returns (k: Key, v: Value)
      requires Arena(S) && this in S && IsLeaf() && idx < len
      modifies this`cell, keys, vals
      ensures Arena(S) && k == old(cell).keys[idx] && v == old(cell).vals[idx]
      ensures Heap(S) == old(Heap(S))[this := cell] && cell == old(cell).(keys := old(cell).keys[idx := key],
              vals := old(cell).vals[idx := val])
    {
      k, v := keys[idx], vals[idx];
      keys[idx] := key;
      vals[idx] := val;
      cell := cell.(keys := cell.keys[idx := key], vals := cell.vals[idx := val]);
      forall n | n in S && n != this ensures n.Valid() { assert Apart(this, n); }
      OnlyThis(S);
    }

    /** With the pending entry (key, val) at index `i`, the keys are `ks` and the values `vs`. */
    ghost predicate PendingVal(i: nat, key: Key, val: Value, ks: seq<Key>, vs: seq<Value>)
      reads this`cell
    {
      i <= |cell.keys| == |cell.vals| && Ins(cell.keys, i, key) == ks && Ins(cell.vals, i, val) == vs
    }

    /** Swaps the pending entry, at index `i`, with the entry stored there. */
    method SwapValUp(i: nat, key: Key, val: Value, ghost ks: seq<Key>, ghost vs: seq<Value>, ghost S: set<Node>)
      returns (k: Key, v: Value)
      requires Arena(S) && this in S && IsLeaf() && i < len && PendingVal(i, key, val, ks, vs)
      modifies this`cell, keys, vals
      ensures Arena(S) && PendingVal(i + 1, k, v, ks, vs)
      ensures Heap(S) == old(Heap(S))[this := cell] && cell == old(cell).(keys := cell.keys, vals := cell.vals)
    {
      SwapUp(cell.keys, i, key);
      SwapUp(cell.vals, i, val);
      k, v := SwapVal(i, key, val, S);
    }

    /** Swaps the pending entry, at index `i + 1`, with the entry stored before there. */
    method SwapValDown(i: nat, key: Key, val: Value, ghost ks: seq<Key>, ghost vs: seq<Value>, ghost S: set<Node>)
      returns (k: Key, v: Value)
      requires Arena(S) && this in S && IsLeaf() && i < len && PendingVal(i + 1, key, val, ks, vs)
      modifies this`cell, keys, vals
      ensures Arena(S) && PendingVal(i, k, v, ks, vs)
      ensures Heap(S) == old(Heap(S))[this := cell] && cell == old(cell).(keys := cell.keys, vals := cell.vals)
    {
      SwapDown(cell.keys, i, key);
      SwapDown(cell.vals, i, val);
      k, v := SwapVal(i, key, val, S);
    }

    /** Moves the pending entry (key, val) from index `idx` to index `m` by swaps. */
    method SwapToIndex(idx: nat, m: nat, key: Key, val: Value, ghost ks: seq<Key>, ghost vs: seq<Value>,
                       ghost S: set<Node>)
      returns (k: Key, v: Value)
      requires Arena(S) && this in S && IsLeaf() && idx <= len && m <= len && PendingVal(idx, key, val, ks, vs)
      modifies this`cell, keys, vals
      ensures Arena(S) && PendingVal(m, k, v, ks, vs)
      ensures Heap(S) == old(Heap(S))[this := cell] && cell == old(cell).(keys := cell.keys, vals := cell.vals)
    {
      hide Arena, Heap, PendingVal;
      var i := idx;
      k, v := key, val;
      assert Heap(S)[this := cell] == Heap(S) by { HeapAt(S); }
      while i < m
        invariant idx <= i <= len && (i <= m || i == idx)
        invariant Arena(S) && PendingVal(i, k, v, ks, vs)
        invariant Heap(S) == old(Heap(S))[this := cell] && cell == old(cell).(keys := cell.keys, vals := cell.vals)
      {
        k, v := SwapValUp(i, k, v, ks, vs, S);
        i := i + 1;
      }
      while i > m
        invariant m <= i <= len
        invariant Arena(S) && PendingVal(i, k, v, ks, vs)
        invariant Heap(S) == old(Heap(S))[this := cell] && cell == old(cell).(keys := cell.keys, vals := cell.vals)
      {
        i := i - 1;
        k, v := SwapValDown(i, k, v, ks, vs, S);
      }
    }

    /** A new leaf of (k, v) and this leaf's entries from `m` on. */
    method CopyUpperHalf(m: nat, k: Key, v: Value) returns (right: Node)
      requires Valid() && IsLeaf() && 0 < m <= len
      ensures right.Valid() && right.IsLeaf()
      ensures fresh(right) && fresh(right.keys) && fresh(right.vals) && fresh(right.edges)
      ensures right.cell == Cell(null, 0, [k] + cell.keys[m..], [v] + cell.vals[m..], null, cell.next, [])
    {
      right := new Node.Leaf();
      CopyTailAfter(right.keys, k, keys, m, len - m);
      CopyTailAfter(right.vals, v, vals, m, len - m);
      right.len := len - m + 1;
      right.next := next;
      right.cell := Cell(null, 0, [k] + cell.keys[m..], [v] + cell.vals[m..], null, next, []);
      assert keys[m..m + (len - m)] == cell.keys[m..] && vals[m..m + (len - m)] == cell.vals[m..];
    }

    method TruncateVals(m: nat, ghost S: set<Node>)
      requires Arena(S) && this in S && IsLeaf() && m <= len
      modifies this`len, this`cell
      ensures Arena(S)
      ensures Heap(S) == old(Heap(S))[this := cell] && cell == old(cell).(keys := old(cell).keys[..m],
              vals := old(cell).vals[..m])
    {
      len := m;
      cell := cell.(keys := cell.keys[..m], vals := cell.vals[..m]);
      OnlyThis(S);
    }

    /** Splits a full leaf around a new entry: this node keeps the lower half, `right` gets the
        upper half, and `median` is the first key of `right`. */
    method SplitLeaf(idx: nat, key: Key, val: Value, ghost S: set<Node>) returns (right: Node, median: Key)
      requires Arena(S) && this in S && IsLeaf() && idx <= len && M / 2 <= len && len % 2 == 0
      modifies this`len, this`cell, keys, vals
      ensures Arena(S) && right.Valid() && right.IsLeaf()
      ensures fresh(right) && fresh(right.keys) && fresh(right.vals) && fresh(right.edges)
      ensures var c, m := old(cell), old(len) / 2;
              var ks, vs := Ins(c.keys, idx, key), Ins(c.vals, idx, val);
              && Heap(S) == old(Heap(S))[this := cell] && cell == c.(keys := ks[..m], vals := vs[..m])
              && right.cell == Cell(null, 0, ks[m..], vs[m..], null, c.next, [])
              && median == ks[m]
    {
      hide Arena, Heap, Node.Valid;
      var m := len / 2;
      ArenaAt(S);
      Known(S);
      ghost var ks, vs := Ins(cell.keys, idx, key), Ins(cell.vals, idx, val);
      var k, v := SwapToIndex(idx, m, key, val, ks, vs, S);
      InsSplit(cell.keys, m, k);
      InsSplit(cell.vals, m, v);
      Known(S);
      right := CutLeaf(m, k, v, S);
      median := k;
    }

    /** Copies out the upper half after a given entry, and truncates this node. */
    method CutLeaf(m: nat, k: Key, v: Value, ghost S: set<Node>) returns (right: Node)
      requires Arena(S) && this in S && IsLeaf() && 0 < m <= len
      modifies this`len, this`cell
      ensures Arena(S) && right.Valid() && right.IsLeaf()
      ensures fresh(right) && fresh(right.keys) && fresh(right.vals) && fresh(right.edges)
      ensures var c := old(cell);
              && m <= |c.keys| == |c.vals|
              && right.cell == Cell(null, 0, [k] + c.keys[m..], [v] + c.vals[m..], null, c.next, [])
              && Heap(S) == old(Heap(S))[this := cell] && cell == c.(keys := c.keys[..m], vals := c.vals[..m])
    {
      hide Arena, Heap;
      ArenaAt(S);
      right := CopyUpperHalf(m, k, v);
      TruncateVals(m, S);
    }

    /** Absorbs the entries of `p` and its `prev`. */
    method MergePrevLeaf(p: Node, ghost S: set<Node>)
      requires Arena(S) && this in S && p in S && p != this && IsLeaf() && p.IsLeaf() && p.len + len <= M
      modifies this`len, this`prev, this`cell, keys, vals
      ensures Arena(S)
      ensures var c, d := old(cell), old(p.cell);
              Heap(S) == old(Heap(S))[this := cell] && cell == c.(keys := d.keys + c.keys, vals := d.vals + c.vals,
                prev := d.prev)
    {
      assert Apart(this, p);
      PrependFrom(keys, len, p.keys, p.len);
      PrependFrom(vals, len, p.vals, p.len);
      len := p.len + len;
      prev := p.prev;
      cell := cell.(keys := p.cell.keys + cell.keys, vals := p.cell.vals + cell.vals, prev := p.cell.prev);
      forall n | n in S && n != this ensures n.Valid() { assert Apart(this, n); }
      OnlyThis(S);
    }

    /** Absorbs the entries of `n` and its `next`. */
    method MergeNextLeaf(n: Node, ghost S: set<Node>)
      requires Arena(S) && this in S && n in S && n != this && IsLeaf() && n.IsLeaf() && len + n.len <= M
      modifies this`len, this`next, this`cell, keys, vals
      ensures Arena(S)
      ensures var c, d := old(cell), old(n.cell);
              Heap(S) == old(Heap(S))[this := cell] && cell == c.(keys := c.keys + d.keys, vals := c.vals + d.vals,
                next := d.next)
    {
      assert Apart(this, n);
      AppendFrom(keys, len, n.keys, n.len);
      AppendFrom(vals, len, n.vals, n.len);
      len := len + n.len;
      next := n.next;
      cell := cell.(keys := cell.keys + n.cell.keys, vals := cell.vals + n.cell.vals, next := n.cell.next);
      forall o | o in S && o != this ensures o.Valid() { assert Apart(this, o); }
      OnlyThis(S);
    }

    // ---- keys and edges ----

    /** Writes `key` at `idx` and `edge` at `e`, shifting the later ones. */
    method InsertKeyEdge(idx: nat, e: nat, key: Key, edge: Node, ghost S: set<Node>)
      requires Arena(S) && this in S && !IsLeaf() && idx <= len < M && e <= len + 1
      modifies this`len, this`cell, keys, edges
      ensures Arena(S)
      ensures Heap(S) == old(Heap(S))[this := cell] && cell == old(cell).(keys := Ins(old(cell).keys, idx, key),
              edges := Ins(old(cell).edges, e, edge))
      ensures len == old(len) + 1 && edges[e + 1..len + 1] == old(cell).edges[e..]
    {
      InsertAt(keys, len, idx, key);
      InsertAt(edges, len + 1, e, edge);
      len := len + 1;
      cell := cell.(keys := Ins(cell.keys, idx, key), edges := Ins(cell.edges, e, edge));
      forall n | n in S && n != this ensures n.Valid() { assert Apart(this, n); }
      OnlyThis(S);
    }

    /** Inserts `key` and, after or before it, `edge`, whose parent index is already set. */
    method InsertEdge(idx: nat, afterKey: bool, key: Key, edge: Node, ghost S: set<Node>)
      requires Arena(S) && this in S && !IsLeaf() && idx <= len < M && OwnsEdges(Heap(S), this)
      requires edge in S && edge != this && edge.cell.parentIdx == (if afterKey then idx + 1 else idx)
      modifies this`len, this`cell, keys, edges, S`parentIdx, S`cell
      ensures Arena(S)
      ensures var e, c := if afterKey then idx + 1 else idx, old(cell);
              Bumped(old(Heap(S))[this := c.(keys := Ins(c.keys, idx, key), edges := Ins(c.edges, e, edge))],
                     Heap(S), c.edges[e..], 1)
    {
      var e := if afterKey then idx + 1 else idx;
      hide Arena, Heap;
      ArenaAt(S);
      HeapAt(S);
      ghost var h := Heap(S);
      InsertKeyEdge(idx, e, key, edge, S);
      OwnsLater(h, this, e, cell);
      BumpParentIdx(edges[e + 1..len + 1], e, 1, S);
    }

    /** Writes the only edge of a node that has no keys. */
    method SetLastEdge(edge: Node, ghost S: set<Node>)
      requires Arena(S) && this in S && !IsLeaf() && edge.cell.parentIdx == len
      modifies edges, this`cell
      ensures Arena(S)
      ensures Heap(S) == old(Heap(S))[this := cell] && cell == old(cell).(edges := old(cell).edges[old(len) := edge])
    {
      edges[len] := edge;
      cell := cell.(edges := cell.edges[len := edge]);
      forall n | n in S && n != this ensures n.Valid() { assert Apart(this, n); }
      OnlyThis(S);
    }

    /** Removes the key at `idx` and the edge at `e`, shifting the later ones. */
    method RemoveKeyEdge(idx: nat, e: nat, ghost S: set<Node>) returns (key: Key, edge: Node?)
      requires Arena(S) && this in S && !IsLeaf() && idx < len && e <= len
      modifies this`len, this`cell, keys, edges
      ensures Arena(S)
      ensures key == old(cell).keys[idx] && edge == old(cell).edges[e]
      ensures Heap(S) == old(Heap(S))[this := cell] && cell == old(cell).(keys := Del(old(cell).keys, idx),
              edges := Del(old(cell).edges, e))
      ensures len == old(len) - 1 && edges[e..len + 1] == old(cell).edges[e + 1..]
    {
      key, edge := keys[idx], edges[e];
      RemoveAt(keys, len, idx);
      RemoveAt(edges, len + 1, e);
      len := len - 1;
      cell := cell.(keys := Del(cell.keys, idx), edges := Del(cell.edges, e));
      forall n | n in S && n != this ensures n.Valid() { assert Apart(this, n); }
      OnlyThis(S);
    }

    /** Removes the key at `idx` and the edge after or before it, without rebalancing. */
    method RemoveEdge(idx: nat, afterKey: bool, ghost S: set<Node>) returns (key: Key, edge: Node?)
      requires Arena(S) && this in S && !IsLeaf() && idx < len && OwnsEdges(Heap(S), this)
      modifies this`len, this`cell, keys, edges, S`parentIdx, S`cell
      ensures Arena(S)
      ensures var e, c := if afterKey then idx + 1 else idx, old(cell);
              && key == c.keys[idx] && edge == c.edges[e]
              && Bumped(old(Heap(S))[this := c.(keys := Del(c.keys, idx), edges := Del(c.edges, e))],
                        Heap(S), c.edges[e + 1..], -1)
    {
      var e := if afterKey then idx + 1 else idx;
      hide Arena, Heap;
      ArenaAt(S);
      HeapAt(S);
      ghost var h := Heap(S);
      key, edge := RemoveKeyEdge(idx, e, S);
      OwnsLater(h, this, e + 1, cell);
      BumpParentIdx(edges[e..len + 1], e + 1, -1, S);
    }

    /** Removes the last key and the edge after it. */
    method RemoveLastEdge(ghost S: set<Node>) returns (key: Key, edge: Node?)
      requires Arena(S) && this in S && !IsLeaf() && 0 < len
      modifies this`len, this`cell
      ensures Arena(S)
      ensures var c := old(cell);
              && key == c.keys[|c.keys| - 1] && edge == c.edges[|c.keys|]
              && Heap(S) == old(Heap(S))[this := cell] && cell == c.(keys := c.keys[..|c.keys| - 1],
                 edges := c.edges[..|c.keys|])
    {
      key, edge := keys[len - 1], edges[len];
      len := len - 1;
      cell := cell.(keys := cell.keys[..len], edges := cell.edges[..len + 1]);
      OnlyThis(S);
    }

    /** Stores `key` at `idx` and `edge` after it, and returns what was there. */
    method SwapKeyEdge(idx: nat, key: Key, edge: Node, ghost S: set<Node>) returns (k: Key, e: Node?)
      requires Arena(S) && this in S && !IsLeaf() && idx < len
      modifies this`cell, keys, edges
      ensures Arena(S) && k == old(cell).keys[idx] && e == old(cell).edges[idx + 1]
      ensures Heap(S) == old(Heap(S))[this := cell] && cell == old(cell).(keys := old(cell).keys[idx := key],
              edges := old(cell).edges[idx + 1 := edge])
    {
      k, e := keys[idx], edges[idx + 1];
      keys[idx], edges[idx + 1] := key, edge;
      cell := cell.(keys := cell.keys[idx := key], edges := cell.edges[idx + 1 := edge]);
      forall n | n in S && n != this ensures n.Valid() { assert Apart(this, n); }
      OnlyThis(S);
    }

    /** Moves the pending key and edge up from index `idx` to index `m` by swaps, renumbering as it goes. */
    method SwapEdgeUp(idx: nat, m: nat, key: Key, edge: Node, ghost h: Cells, ghost ks: seq<Key>, ghost es: seq<Node?>,
                      ghost S: set<Node>)
      returns (k: Key, e: Node)
      requires Arena(S) && this in S && !IsLeaf() && idx <= m <= len
      requires Splitting(h, Heap(S), this, idx, key, edge, ks, es) && Shifted(Heap(S), es, idx)
      modifies this`cell, keys, edges, S`parentIdx, S`cell
      ensures Arena(S) && Splitting(h, Heap(S), this, m, k, e, ks, es) && Shifted(Heap(S), es, m)
    {
      hide Arena, Splitting, Shifted;
      var i := idx;
      k, e := key, edge;
      while i < m
        invariant idx <= i <= m
        invariant Arena(S) && Splitting(h, Heap(S), this, i, k, e, ks, es) && Shifted(Heap(S), es, i)
      {
        ghost var h1 := Heap(S);
        ArenaAt(S);
        SplittingUp(h, h1, this, i, k, e, ks, es);
        k, e := SwapKeyEdge(i, k, e, S);
        i := i + 1;
        e.SetParentIdx(i + 1, S);
      }
    }

    /** Moves the pending key and edge down from index `idx` to index `m` by swaps. */
    method SwapEdgeDown(idx: nat, m: nat, key: Key, edge: Node, ghost h: Cells, ghost ks: seq<Key>,
                        ghost es: seq<Node?>,
                        ghost S: set<Node>)
      returns (k: Key, e: Node)
      requires Arena(S) && this in S && !IsLeaf() && m <= idx <= len
      requires Splitting(h, Heap(S), this, idx, key, edge, ks, es)
      modifies this`cell, keys, edges
      ensures Arena(S) && Splitting(h, Heap(S), this, m, k, e, ks, es)
    {
      hide Arena, Splitting;
      var i := idx;
      k, e := key, edge;
      while i > m
        invariant m <= i <= len
        invariant Arena(S) && Splitting(h, Heap(S), this, i, k, e, ks, es)
      {
        i := i - 1;
        SplittingDown(h, Heap(S), this, i, k, e, ks, es);
        k, e := SwapKeyEdge(i, k, e, S);
      }
    }

    /** A new internal node of `e` and this node's keys from `m` on and edges after them. */
    method CopyUpperEdges(m: nat, e: Node) returns (right: Node)
      requires Valid() && !IsLeaf() && m <= len
      ensures right.Valid() && !right.IsLeaf() && right.len == len - m && right.len + 1 <= right.edges.Length
      ensures right.edges[..right.len + 1] == right.cell.edges
      ensures fresh(right) && fresh(right.keys) && fresh(right.vals) && fresh(right.edges)
      ensures right.cell == Cell(null, 0, cell.keys[m..], [], null, null, [e] + cell.edges[m + 1..])
    {
      right := new Node.Internal();
      CopyTail(right.keys, keys, m, len - m);
      CopyTailAfter(right.edges, e, edges, m + 1, len - m);
      right.len := len - m;
      right.cell := Cell(null, 0, cell.keys[m..], [], null, null, [e] + cell.edges[m + 1..]);
      assert keys[m..m + (len - m)] == cell.keys[m..] && edges[m + 1..m + 1 + (len - m)] == cell.edges[m + 1..];
    }

    method TruncateEdges(m: nat, ghost S: set<Node>)
      requires Arena(S) && this in S && !IsLeaf() && m <= len
      modifies this`len, this`cell
      ensures Arena(S)
      ensures Heap(S) == old(Heap(S))[this := cell] && cell == old(cell).(keys := old(cell).keys[..m],
              edges := old(cell).edges[..m + 1])
    {
      len := m;
      cell := cell.(keys := cell.keys[..m], edges := cell.edges[..m + 1]);
      OnlyThis(S);
    }

    /** Moves the pending key and edge to index `m` by swaps. */
    method SwapEdgeToIndex(idx: nat, m: nat, key: Key, edge: Node, ghost ks: seq<Key>, ghost es: seq<Node?>,
                           ghost S: set<Node>)
      returns (k: Key, e: Node)
      requires Arena(S) && this in S && !IsLeaf() && idx <= len && m <= len && OwnsEdges(Heap(S), this)
      requires edge in S && edge != this && edge !in cell.edges && edge.cell.parentIdx == idx + 1
      requires ks == Ins(cell.keys, idx, key) && es == Ins(cell.edges, idx + 1, edge)
      modifies this`cell, keys, edges, S`parentIdx, S`cell
      ensures Arena(S) && Splitting(old(Heap(S)), Heap(S), this, m, k, e, ks, es)
    {
      hide Arena, Heap, Node.Valid, Ins, Splitting, Shifted;
      Known(S);
      edge.Known(S);
      SplittingStart(Heap(S), this, idx, key, edge, ks, es);
      if idx <= m {
        k, e := SwapEdgeUp(idx, m, key, edge, Heap(S), ks, es, S);
      } else {
        k, e := SwapEdgeDown(idx, m, key, edge, Heap(S), ks, es, S);
      }
    }

    /** Splits a full internal node around a new key and the edge after it: this node keeps the
        lower half, `right` gets the upper half, and `median` is the key between them. */
    method SplitInternal(idx: nat, key: Key, edge: Node, ghost S: set<Node>) returns (right: Node, median: Key)
      requires Arena(S) && this in S && !IsLeaf() && idx <= len && M / 2 <= len && len % 2 == 0 &&
               OwnsEdges(Heap(S), this)
      requires edge in S && edge != this && edge !in cell.edges && edge.cell.parentIdx == idx + 1
      modifies this`len, this`cell, keys, edges, S`parentIdx, S`cell
      ensures Arena(S) && right.Valid() && !right.IsLeaf()
      ensures fresh(right) && fresh(right.keys) && fresh(right.vals) && fresh(right.edges)
      ensures var c, m := old(cell), old(len) / 2;
              var ks, es := Ins(c.keys, idx, key), Ins(c.edges, idx + 1, edge);
              && right.cell == Cell(null, 0, ks[m + 1..], [], null, null, es[m + 1..])
              && median == ks[m]
              && Renumbered(old(Heap(S))[this := c.(keys := ks[..m], edges := es[..m + 1])], Heap(S), es, m)
    {
      hide Arena, Heap, Node.Valid, Ins, Splitting, Shifted, Renumbered, OwnsEdges;
      Known(S);
      ArenaAt(S);
      var m := len / 2;
      ghost var h, ks, es := Heap(S), Ins(cell.keys, idx, key), Ins(cell.edges, idx + 1, edge);
      var k, e := SwapEdgeToIndex(idx, m, key, edge, ks, es, S);
      right := FinishSplit(m, k, e, h, ks, es, S);
      median := k;
    }

    /** Copies out the upper half, numbers it, and truncates this node. */
    method FinishSplit(m: nat, key: Key, edge: Node, ghost h: Cells, ghost ks: seq<Key>, ghost es: seq<Node?>,
                       ghost S: set<Node>)
      returns (right: Node)
      requires Arena(S) && this in S && !IsLeaf() && len == 2 * m && Splitting(h, Heap(S), this, m, key, edge, ks, es)
      modifies this`len, this`cell, S`parentIdx, S`cell
      ensures Arena(S) && right.Valid() && !right.IsLeaf()
      ensures fresh(right) && fresh(right.keys) && fresh(right.vals) && fresh(right.edges)
      ensures m < |ks| && m + 1 < |es| && this in h && key == ks[m]
      ensures right.cell == Cell(null, 0, ks[m + 1..], [], null, null, es[m + 1..])
      ensures Renumbered(h[this := h[this].(keys := ks[..m], edges := es[..m + 1])], Heap(S), es, m)
    {
      hide Arena, Heap, Node.Valid, Splitting, Renumbered;
      ghost var h1 := Heap(S);
      SplittingParts(h, h1, this, m, key, edge, ks, es);
      ArenaAt(S);
      Known(S);
      right := CopyUpperEdges(m, edge);
      assert right.edges[..m + 1] == es[m + 1..];
      TruncateEdges(m, S);
      RenumberFromZero(right.edges[..m + 1], S);
      SplittingEnd(h, h1, Heap(S), this, m, key, edge, ks, es);
    }

    /** Absorbs the key between `p` and this node, and the keys and edges of `p`. */
    method AbsorbPrevInternal(middleKey: Key, p: Node, ghost S: set<Node>)
      requires Arena(S) && this in S && p in S && p != this && !IsLeaf() && !p.IsLeaf() && p.len + len < M
      modifies this`len, this`cell, keys, edges
      ensures Arena(S)
      ensures var c, d := old(cell), old(p.cell);
              Heap(S) == old(Heap(S))[this := cell] && cell == c.(keys := d.keys + [middleKey] + c.keys,
                edges := d.edges + c.edges)
      ensures len == p.len + 1 + old(len) && edges[p.len + 1..len + 1] == old(cell).edges
    {
      assert Apart(this, p);
      PrependFromWith(keys, len, p.keys, p.len, middleKey);
      PrependFrom(edges, len + 1, p.edges, p.len + 1);
      len := p.len + len + 1;
      cell := cell.(keys := p.cell.keys + [middleKey] + cell.keys, edges := p.cell.edges + cell.edges);
      forall n | n in S && n != this ensures n.Valid() { assert Apart(this, n); }
      OnlyThis(S);
    }

    /** Absorbs the keys and edges of `p`, whose edges already have this node as parent. */
    method MergePrevInternal(middleKey: Key, p: Node, ghost S: set<Node>)
      requires Arena(S) && this in S && p in S && p != this && !IsLeaf() && !p.IsLeaf() && p.len + len < M
      requires OwnsEdges(Heap(S), this) && p !in cell.edges
      modifies this`len, this`cell, keys, edges, S`parentIdx, S`cell
      ensures Arena(S)
      ensures var c, d := old(cell), old(p.cell);
              Bumped(old(Heap(S))[this := c.(keys := d.keys + [middleKey] + c.keys, edges := d.edges + c.edges)],
                     Heap(S), c.edges, |d.keys| + 1)
    {
      hide Arena, Heap, Node.Valid, Bumped;
      Known(S);
      p.Known(S);
      ghost var h := Heap(S);
      AbsorbPrevInternal(middleKey, p, S);
      OwnsLater(h, this, 0, cell);
      EdgesFit(S);
      BumpParentIdx(edges[p.len + 1..len + 1], 0, p.len + 1, S);
    }

    /** Absorbs the key between this node and `n`, and the keys and edges of `n`. */
    method AbsorbNextInternal(middleKey: Key, n: Node, ghost S: set<Node>)
      requires Arena(S) && this in S && n in S && n != this && !IsLeaf() && !n.IsLeaf() && len + n.len < M
      modifies this`len, this`cell, keys, edges
      ensures Arena(S)
      ensures var c, d := old(cell), old(n.cell);
              Heap(S) == old(Heap(S))[this := cell] && cell == c.(keys := c.keys + [middleKey] + d.keys,
                edges := c.edges + d.edges)
      ensures len == old(len) + 1 + n.len && edges[old(len) + 1..len + 1] == n.cell.edges
    {
      assert Apart(this, n);
      AppendFromWith(keys, len, middleKey, n.keys, n.len);
      AppendFrom(edges, len + 1, n.edges, n.len + 1);
      len := len + n.len + 1;
      cell := cell.(keys := cell.keys + [middleKey] + n.cell.keys, edges := cell.edges + n.cell.edges);
      forall o | o in S && o != this ensures o.Valid() { assert Apart(this, o); }
      OnlyThis(S);
    }

    /** Absorbs the keys and edges of `n`, whose edges already have this node as parent. */
    method MergeNextInternal(middleKey: Key, n: Node, ghost S: set<Node>)
      requires Arena(S) && this in S && n in S && n != this && !IsLeaf() && !n.IsLeaf() && len + n.len < M
      requires this !in n.cell.edges && OwnsEdges(Heap(S), n)
      modifies this`len, this`cell, keys, edges, S`parentIdx, S`cell
      ensures Arena(S)
      ensures var c, d := old(cell), old(n.cell);
              Bumped(old(Heap(S))[this := c.(keys := c.keys + [middleKey] + d.keys, edges := c.edges + d.edges)],
                     Heap(S), d.edges, |c.keys| + 1)
    {
      hide Arena, Heap, Node.Valid, Bumped;
      Known(S);
      n.Known(S);
      ghost var h := Heap(S);
      var k := len;
      AbsorbNextInternal(middleKey, n, S);
      OwnsAfter(h, n, this, cell);
      EdgesFit(S);
      BumpParentIdx(edges[k + 1..len + 1], 0, k + 1, S);
    }
  }

  ghost predicate Increasing(s: seq<Key>) {
    forall i, j :: 0 <= i < j < |s| ==> s[i] < s[j]
  }

  ghost predicate AllIn(es: seq<Node?>, S: set<Node>) {
    forall i :: 0 <= i < |es| ==> es[i] in S
  }

  /** Two nodes share no buffer. */
  ghost predicate Apart(n: Node, m: Node) {
    && n.keys != m.keys && n.keys != m.vals && n.vals != m.keys && n.vals != m.vals && n.edges != m.edges
  }

  /** Every node of `S` is in shape, and no two share a buffer. */
  ghost predicate Arena(S: set<Node>)
    reads S, set n: Node | n in S :: n.keys, set n: Node | n in S :: n.vals, set n: Node | n in S :: n.edges
  {
    && (forall n :: n in S ==> n.Valid())
    && (forall n, m {:trigger Apart(n, m)} :: n in S && m in S && n != m ==> Apart(n, m))
  }

  /** The buffers of the nodes of `S` are in `ks` and `es`. */
  ghost predicate Buffered(S: set<Node>, ks: set<array<int>>, es: set<array<Node?>>) {
    forall n :: n in S ==> n.keys in ks && n.vals in ks && n.edges in es
  }

  ghost function Heap(S: set<Node>): Cells
    reads S`cell
  {
    map n | n in S :: n.cell
  }

  lemma HeapKeys(S: set<Node>)
    ensures Heap(S).Keys == S
  {
  }

  /** `H1` is `H0` with the parent index of every node of `es` moved by `d`. */
  ghost predicate Bumped(H0: Cells, H1: Cells, es: seq<Node?>, d: int) {
    && H1.Keys == H0.Keys
    && (forall n {:trigger H1[n]} :: n in H0 && n !in es ==> H1[n] == H0[n])
    && (forall n {:trigger H1[n]} :: n in H0 && n in es ==>
          0 <= H0[n].parentIdx + d && H1[n] == H0[n].(parentIdx := H0[n].parentIdx + d))
  }

  /** The parent indices that `H` gives to `es` count up from `first`. */
  ghost predicate NumberedIn(H: Cells, es: seq<Node?>, first: int) {
    forall i :: 0 <= i < |es| ==> es[i] in H && H[es[i]].parentIdx == first + i
  }

  /** Every edge of `n` is another node, and has `n`'s index for it. */
  ghost predicate OwnsEdges(H: Cells, n: Node) {
    n in H && n !in H[n].edges && NumberedIn(H, H[n].edges, 0)
  }

  /** A change to `n` leaves the numbers of the edges it had. */
  lemma OwnsLater(H: Cells, n: Node, e: nat, c: Cell)
    requires OwnsEdges(H, n) && e <= |H[n].edges|
    ensures NumberedIn(H[n := c], H[n].edges[e..], e)
  {
  }

  /** A change to a node that is no edge of `n` leaves the numbers of the edges of `n`. */
  lemma OwnsAfter(H: Cells, n: Node, m: Node, c: Cell)
    requires OwnsEdges(H, n) && m !in H[n].edges
    ensures NumberedIn(H[m := c], H[n].edges, 0)
  {
  }

  lemma NumberedDistinct(H: Cells, es: seq<Node?>, first: int)
    requires NumberedIn(H, es, first)
    ensures Distinct(es)
  {
  }

  lemma BumpedNone(H: Cells, es: seq<Node?>, d: int)
    ensures Bumped(H, H, es[..0], d)
  {
  }

  lemma BumpedStep(H0: Cells, H1: Cells, es: seq<Node?>, i: nat, first: nat, d: int)
    requires i < |es| && NumberedIn(H0, es, first) && Bumped(H0, H1, es[..i], d) && 0 <= first + d
    ensures es[i] in H1 && 0 <= H1[es[i]].parentIdx + d
    ensures Bumped(H0, H1[es[i] := H1[es[i]].(parentIdx := H1[es[i]].parentIdx + d)], es[..i + 1], d)
  {
    NumberedDistinct(H0, es, first);
    assert es[..i + 1] == es[..i] + [es[i]];
  }

  /** Adds `d` to the parent index of every node of `es`. */
  method BumpParentIdx(es: seq<Node?>, ghost first: nat, d: int, ghost S: set<Node>)
    requires Arena(S) && NumberedIn(Heap(S), es, first) && 0 <= first + d
    modifies S`parentIdx, S`cell
    ensures Arena(S) && Bumped(old(Heap(S)), Heap(S), es, d)
  {
    hide Arena, Bumped;
    ghost var h := Heap(S);
    BumpedNone(h, es, d);
    for i := 0 to |es|
      invariant Arena(S) && Bumped(h, Heap(S), es[..i], d)
    {
      es[i].ArenaAt(S);
      BumpedStep(h, Heap(S), es, i, first, d);
      es[i].SetParentIdx(es[i].parentIdx + d, S);
    }
    assert es[..|es|] == es;
  }

  /** Gives the nodes of `es` the parent indices from 0 on. */
  method RenumberFromZero(es: seq<Node?>, ghost S: set<Node>)
    requires Arena(S) && Distinct(es) && AllIn(es, S)
    modifies S`parentIdx, S`cell
    ensures Arena(S) && OnlyIdx(old(Heap(S)), Heap(S), es) && NumberedIn(Heap(S), es, 0)
  {
    hide Arena;
    ghost var h := Heap(S);
    for i := 0 to |es|
      invariant Arena(S) && OnlyIdx(h, Heap(S), es) && NumberedIn(Heap(S), es[..i], 0)
    {
      RenumberStep(h, Heap(S), es, i);
      es[i].SetParentIdx(i, S);
    }
    assert es[..|es|] == es;
  }

  lemma RenumberStep(H0: Cells, H1: Cells, es: seq<Node?>, i: nat)
    requires OnlyIdx(H0, H1, es) && i < |es| && Distinct(es) && es[i] in H1 && NumberedIn(H1, es[..i], 0)
    ensures var H2 := H1[es[i] := H1[es[i]].(parentIdx := i)];
            OnlyIdx(H0, H2, es) && NumberedIn(H2, es[..i + 1], 0)
  {
  }

  /** From `H0` to `H1` only parent indices change, and only those of nodes in `es`. */
  ghost predicate OnlyIdx(H0: Cells, H1: Cells, es: seq<Node?>) {
    && H1.Keys == H0.Keys
    && (forall n {:trigger H1[n]} :: n in H0 ==> H1[n] == H0[n].(parentIdx := H1[n].parentIdx))
    && (forall n {:trigger H1[n]} :: n in H0 && n !in es ==> H1[n].parentIdx == H0[n].parentIdx)
  }

  /** From `H0` to `H1` the nodes of `es` up to index `m` are numbered from 0, and those after it from 0 again. */
  ghost predicate Renumbered(H0: Cells, H1: Cells, es: seq<Node?>, m: nat) {
    m < |es| && OnlyIdx(H0, H1, es) && NumberedIn(H1, es[..m + 1], 0) && NumberedIn(H1, es[m + 1..], 0)
  }

  /** A split of `n` is under way: `key` is pending at index `i` and `edge` after it, together with them `n`
      has the keys `ks` and the edges `es`, the edges before the pending one have their indices, and since
      `h` nothing else has changed but parent indices in `es`. */
  ghost predicate Splitting(h: Cells, H: Cells, n: Node, i: nat, key: Key, edge: Node?, ks: seq<Key>, es: seq<Node?>) {
    && n in h && n !in es && Distinct(es) && AllIn(es, h.Keys)
    && n in H && H[n].parentIdx == h[n].parentIdx
    && i <= |H[n].keys| && |H[n].edges| == |H[n].keys| + 1
    && Ins(H[n].keys, i, key) == ks && Ins(H[n].edges, i + 1, edge) == es
    && OnlyIdx(h[n := h[n].(keys := H[n].keys, edges := H[n].edges)], H, es)
    && forall j :: 0 <= j <= i ==> H[es[j]].parentIdx == j
  }

  /**
   * The edges of `es` up to the one after index `i` have their indices, and each later one the index before its own.
   */
  ghost predicate Shifted(H: Cells, es: seq<Node?>, i: nat) {
    forall j :: 0 <= j < |es| ==> es[j] in H && H[es[j]].parentIdx == if j <= i + 1 then j else j - 1
  }

  lemma SplittingStart(h: Cells, n: Node, i: nat, key: Key, edge: Node, ks: seq<Key>, es: seq<Node?>)
    requires n in h && i <= |h[n].keys| && |h[n].edges| == |h[n].keys| + 1 && n !in h[n].edges &&
             NumberedIn(h, h[n].edges, 0)
    requires edge in h && edge != n && edge !in h[n].edges && h[edge].parentIdx == i + 1
    requires ks == Ins(h[n].keys, i, key) && es == Ins(h[n].edges, i + 1, edge)
    ensures Splitting(h, h, n, i, key, edge, ks, es) && Shifted(h, es, i)
  {
    NumberedDistinct(h, h[n].edges, 0);
    DistinctIns(h[n].edges, i + 1, edge);
    assert h[n := h[n].(keys := h[n].keys, edges := h[n].edges)] == h;
  }

  lemma ShiftedUp(h: Cells, H: Cells, n: Node, i: nat, key: Key, edge: Node, ks: seq<Key>, es: seq<Node?>)
    requires Splitting(h, H, n, i, key, edge, ks, es) && Shifted(H, es, i) && i < |H[n].keys|
    ensures var k, e := H[n].keys[i], H[n].edges[i + 1];
            var H1 := H[n := H[n].(keys := H[n].keys[i := key], edges := H[n].edges[i + 1 := edge])];
            e in H1 && Shifted(H1[e := H1[e].(parentIdx := i + 2)], es, i + 1)
  {
    SwapUp(H[n].keys, i, key);
    SwapUp(H[n].edges, i + 1, edge);
    assert es[i + 2] == H[n].edges[i + 1];
  }

  lemma SplittingUp(h: Cells, H: Cells, n: Node, i: nat, key: Key, edge: Node, ks: seq<Key>, es: seq<Node?>)
    requires Splitting(h, H, n, i, key, edge, ks, es) && Shifted(H, es, i) && i < |H[n].keys|
    ensures var k, e := H[n].keys[i], H[n].edges[i + 1];
            var H1 := H[n := H[n].(keys := H[n].keys[i := key], edges := H[n].edges[i + 1 := edge])];
            && e in H1 && e != n
            && Splitting(h, H1[e := H1[e].(parentIdx := i + 2)], n, i + 1, k, e, ks, es)
            && Shifted(H1[e := H1[e].(parentIdx := i + 2)], es, i + 1)
  {
    ShiftedUp(h, H, n, i, key, edge, ks, es);
    hide Shifted;
    SwapUp(H[n].keys, i, key);
    SwapUp(H[n].edges, i + 1, edge);
    assert es[i + 2] == H[n].edges[i + 1];
  }

  lemma SplittingDown(h: Cells, H: Cells, n: Node, i: nat, key: Key, edge: Node, ks: seq<Key>, es: seq<Node?>)
    requires Splitting(h, H, n, i + 1, key, edge, ks, es)
    ensures var k, e := H[n].keys[i], H[n].edges[i + 1];
            var H1 := H[n := H[n].(keys := H[n].keys[i := key], edges := H[n].edges[i + 1 := edge])];
            e in H1 && Splitting(h, H1, n, i, k, e, ks, es)
  {
    SwapDown(H[n].keys, i, key);
    SwapDown(H[n].edges, i + 1, edge);
    assert es[i + 1] == H[n].edges[i + 1];
  }

  lemma SplittingParts(h: Cells, H: Cells, n: Node, m: nat, key: Key, edge: Node, ks: seq<Key>, es: seq<Node?>)
    requires Splitting(h, H, n, m, key, edge, ks, es)
    ensures n in h && n in H && m <= |H[n].keys| && |H[n].edges| == |H[n].keys| + 1 && |ks| == |H[n].keys| + 1 &&
            |es| == |H[n].edges| + 1
    ensures H[n].keys[..m] == ks[..m] && key == ks[m] && H[n].keys[m..] == ks[m + 1..]
    ensures H[n].edges[..m + 1] == es[..m + 1] && [edge] + H[n].edges[m + 1..] == es[m + 1..]
    ensures Distinct(es[m + 1..]) && AllIn(es[m + 1..], H.Keys)
  {
    InsSplit(H[n].keys, m, key);
    InsSplit(H[n].edges, m + 1, edge);
  }

  /** The change of a node and of some indices can be made in either order. */
  lemma OnlyIdxPatch(h: Cells, H: Cells, n: Node, ks: seq<Key>, fs: seq<Node?>, es: seq<Node?>)
    requires n in h && n in H && OnlyIdx(h[n := h[n].(keys := H[n].keys, edges := H[n].edges)], H, es)
    ensures OnlyIdx(h[n := h[n].(keys := ks, edges := fs)], H[n := H[n].(keys := ks, edges := fs)], es)
  {
  }

  lemma OnlyIdxTwice(A: Cells, B: Cells, C: Cells, es: seq<Node?>, fs: seq<Node?>)
    requires OnlyIdx(A, B, es) && OnlyIdx(B, C, fs) && forall x :: x in fs ==> x in es
    ensures OnlyIdx(A, C, es)
  {
  }

  lemma SplittingEnd(h: Cells, H: Cells, H2: Cells, n: Node, m: nat, key: Key, edge: Node, ks: seq<Key>, es: seq<Node?>)
    requires Splitting(h, H, n, m, key, edge, ks, es)
    requires m < |ks| && m + 1 < |es|
    requires OnlyIdx(H[n := H[n].(keys := ks[..m], edges := es[..m + 1])], H2, es[m + 1..]) &&
             NumberedIn(H2, es[m + 1..], 0)
    ensures Renumbered(h[n := h[n].(keys := ks[..m], edges := es[..m + 1])], H2, es, m)
  {
    var c := h[n].(keys := ks[..m], edges := es[..m + 1]);
    var B := H[n := H[n].(keys := ks[..m], edges := es[..m + 1])];
    OnlyIdxPatch(h, H, n, ks[..m], es[..m + 1], es);
    TailMembers(es, m + 1, es[m + 1..]);
    hide Splitting, Ins;
    OnlyIdxTwice(h[n := c], B, H2, es, es[m + 1..]);
    assert forall j {:trigger es[j]} :: 0 <= j <= m ==> es[j] !in es[m + 1..];
  }

  /** `H1` is `H0` with `p` as the parent of every node of `es`. */
  ghost predicate Adopted(H0: Cells, H1: Cells, es: seq<Node?>, p: Node) {
    && H1.Keys == H0.Keys
    && (forall n {:trigger H1[n]} :: n in H0 && n !in es ==> H1[n] == H0[n])
    && (forall n {:trigger H1[n]} :: n in H0 && n in es ==> H1[n] == H0[n].(parent := p))
  }

  lemma AdoptedStep(H0: Cells, H1: Cells, es: seq<Node?>, i: nat, p: Node)
    requires i < |es| && es[i] in H0 && Adopted(H0, H1, es[..i], p)
    ensures Adopted(H0, H1[es[i] := H1[es[i]].(parent := p)], es[..i + 1], p)
  {
    assert es[..i + 1] == es[..i] + [es[i]];
  }

  /** Makes `p` the parent of every node of `es`. */
  method SetParentOfAll(es: seq<Node?>, p: Node, ghost S: set<Node>)
    requires Arena(S) && AllIn(es, S)
    modifies S`parent, S`cell
    ensures Arena(S) && Adopted(old(Heap(S)), Heap(S), es, p)
  {
    for i := 0 to |es|
      invariant Arena(S) && Adopted(old(Heap(S)), Heap(S), es[..i], p)
    {
      AdoptedStep(old(Heap(S)), Heap(S), es, i, p);
      es[i].SetParentNode(p, S);
    }
    assert es[..|es|] == es;
  }

  /** Shifts the items from `idx` on and writes `x` at `idx`. */
  method InsertAt<T>(a: array<T>, len: nat, idx: nat, x: T)
    requires idx <= len < a.Length
    modifies a
    ensures a[..len + 1] == Ins(old(a[..len]), idx, x)
  {
    if len > idx {
      CopyWithin(a, idx + 1, idx, len - idx);
    }
    a[idx] := x;
  }

  method RemoveAt<T>(a: array<T>, len: nat, idx: nat)
    requires idx < len <= a.Length
    modifies a
    ensures a[..len - 1] == Del(old(a[..len]), idx)
  {
    if idx + 1 < len {
      CopyWithin(a, idx, idx + 1, len - 1 - idx);
    }
  }

  /** Puts the first `n` items of `b` before those of `a`. */
  method PrependFrom<T>(a: array<T>, len: nat, b: array<T>, n: nat)
    requires a != b && len + n <= a.Length && n <= b.Length
    modifies a
    ensures a[..n + len] == b[..n] + old(a[..len])
  {
    CopyWithin(a, n, 0, len);
    CopyFrom(a, 0, b, 0, n);
  }

  /** Puts the first `n` items of `b` and then `mid` before those of `a`. */
  method PrependFromWith<T>(a: array<T>, len: nat, b: array<T>, n: nat, mid: T)
    requires a != b && len + n < a.Length && n <= b.Length
    modifies a
    ensures a[..n + 1 + len] == b[..n] + [mid] + old(a[..len])
  {
    CopyWithin(a, n + 1, 0, len);
    CopyFrom(a, 0, b, 0, n);
    a[n] := mid;
  }

  /** Puts the first `n` items of `b` after those of `a`. */
  method AppendFrom<T>(a: array<T>, len: nat, b: array<T>, n: nat)
    requires a != b && len + n <= a.Length && n <= b.Length
    modifies a
    ensures a[..len + n] == old(a[..len]) + b[..n]
  {
    CopyFrom(a, len, b, 0, n);
  }

  /** Puts `mid` and then the first `n` items of `b` after those of `a`. */
  method AppendFromWith<T>(a: array<T>, len: nat, mid: T, b: array<T>, n: nat)
    requires a != b && len + n < a.Length && n <= b.Length
    modifies a
    ensures a[..len + 1 + n] == old(a[..len]) + [mid] + b[..n]
  {
    a[len] := mid;
    CopyFrom(a, len + 1, b, 0, n);
  }

  /** Moves `n` items within a buffer; source and destination may overlap. */
  method CopyWithin<T>(a: array<T>, dst: nat, src: nat, n: nat)
    requires dst + n <= a.Length && src + n <= a.Length
    modifies a
    ensures forall i :: 0 <= i < a.Length ==> a[i] == if dst <= i < dst + n then old(a[src + i - dst]) else old(a[i])
  {
    forall i | 0 <= i < n {
      a[dst + i] := a[src + i];
    }
  }

  method CopyFrom<T>(a: array<T>, dst: nat, b: array<T>, src: nat, n: nat)
    requires a != b && dst + n <= a.Length && src + n <= b.Length
    modifies a
    ensures forall i :: 0 <= i < a.Length ==> a[i] == if dst <= i < dst + n then b[src + i - dst] else old(a[i])
  {
    forall i | 0 <= i < n {
      a[dst + i] := b[src + i];
    }
  }

  /** Copies `n` items to the front of another array. */
  method CopyTail<T>(a: array<T>, b: array<T>, src: nat, n: nat)
    requires a != b && n <= a.Length && src + n <= b.Length
    modifies a
    ensures a[..n] == b[src..src + n]
  {
    CopyFrom(a, 0, b, src, n);
  }

  /** Copies `n` items to the front of another array, after `x`. */
  method CopyTailAfter<T>(a: array<T>, x: T, b: array<T>, src: nat, n: nat)
    requires a != b && n < a.Length && src + n <= b.Length
    modifies a
    ensures a[..n + 1] == [x] + b[src..src + n]
  {
    CopyFrom(a, 1, b, src, n);
    a[0] := x;
  }
}
