/** The iterator over a range of keys: what it yields, and when that is the range. */
module RangeIterators {
  import opened Seqs
  import opened Nodes
  import opened Stores
  import opened Trees
  import opened Contents
  import opened Entries
  import opened Cursors
  import opened Maps
  import opened Iterators
  import opened Ranges

  // ---- addresses and the numbers of entries ----

  /** `c`, `i` is the address of entry number `p`, or detached if there is none. */
  ghost predicate Holds(H: Cells, t: Shape, c: Node?, i: nat, p: Option<nat>) {
    if p.None? then c == null else Address(H, t, c, i, p.value)
  }

  /** Addresses are equal exactly if the numbers of their entries are. */
  lemma {:induction false} SameAddress(H: Cells, t: Shape, m: Node?, i: nat, p: nat, n: Node?, j: nat, r: nat)
    requires Wf(H, t, null) && Address(H, t, m, i, p) && Address(H, t, n, j, r)
    ensures (m == n && i == j) <==> p == r
  {
    var q: nat :| AddressAt(H, t, m, i, q, p);
    var q1: nat :| AddressAt(H, t, n, j, q1, r);
    ChainDistinct(H, t.places, t.leaves);
    if p == r {
      AddressUnique(H, t, m, i, q, n, j, q1, p);
    }
  }

  /** Where the cursor is after the entry number `p`. */
  lemma {:induction false} HoldsNext(H: Cells, t: Shape, c: Node, i: nat, p: nat)
    requires Wf(H, t, null) && Address(H, t, c, i, p)
    ensures c in H && p < Count(H, t)
    ensures NextNode(H, c, i) == null <==> p + 1 == Count(H, t)
    ensures p + 1 != Count(H, t) ==> Address(H, t, NextNode(H, c, i), NextIndex(H, c, i), p + 1)
  {
    var q: nat :| AddressAt(H, t, c, i, q, p);
    NextAddress(H, t, c, i, q, p);
  }

  /** Where the cursor is before the entry number `p`, if its new index is `k`. */
  lemma {:induction false} HoldsPrev(H: Cells, t: Shape, c: Node, i: nat, p: nat, k: nat)
    requires Wf(H, t, null) && Address(H, t, c, i, p) && c in H
    requires var n := PrevNode(H, c, i); if i > 0 then k + 1 == i else n != null ==> n in H && k + 1 == |H[n].keys|
    ensures PrevNode(H, c, i) == null <==> p == 0
    ensures p > 0 ==> Address(H, t, PrevNode(H, c, i), k, p - 1)
  {
    var q: nat :| AddressAt(H, t, c, i, q, p);
    PrevAddress(H, t, c, i, q, p);
  }

  /** What a turn at the front or at the back yields, and where it leaves both cursors. */
  ghost predicate TurnDone(all: seq<Entry>, s: nat, e: nat, atFront: bool, front: Option<nat>, back: Option<nat>,
                           x: Option<Entry>, front1: Option<nat>, back1: Option<nat>) {
    var from := if atFront then front else back;
    if from.None? then x == None && front1 == front && back1 == back
    else
      && from.value < |all| && x == Some(all[from.value]) && 0 < e
      && if atFront then AfterFront(all, e, from.value, back, front1, back1)
         else AfterBack(s, from.value, front, front1, back1)
  }

  /** Where the front leaves both cursors after entry number `p`. */
  ghost predicate AfterFront(all: seq<Entry>, e: nat, p: nat, back: Option<nat>, front1: Option<nat>,
                             back1: Option<nat>) {
    if p + 1 == |all| || p + 2 == e then front1 == back1 == None else front1 == Some(p + 1) && back1 == back
  }

  /** Where the back leaves both cursors after entry number `p`. */
  ghost predicate AfterBack(s: nat, p: nat, front: Option<nat>, front1: Option<nat>, back1: Option<nat>) {
    if p == 0 || p == s + 1 then front1 == back1 == None else back1 == Some(p - 1) && front1 == front
  }

  /** A cursor stands at entry number `p`, where both can be read and moved on from. */
  ghost predicate EntryOf(tree: BTreeMap, c: Cursor, p: nat)
    reads c, tree, tree.store, tree.store.nodes
  {
    var n, i := c.node, c.index;
    && p < |tree.Keys()| == |tree.Vals()|
    && n != null && n in tree.store.nodes && n.IsLeaf() && i < n.len && i < |n.cell.keys| == |n.cell.vals|
    && n.cell.keys[i] == tree.Keys()[p] && n.cell.vals[i] == tree.Vals()[p]
    && (i == 0 && n.prev != null ==> n.prev in tree.store.nodes && 0 < n.prev.len)
  }

  lemma EntryReady(tree: BTreeMap, c: Cursor, p: nat)
    requires tree.Valid() && tree.root != null && Address(Heap(tree.store.nodes), tree.Tree(), c.node, c.index, p)
    ensures EntryOf(tree, c, p)
  {
    hide Arena, Heap, Node.Valid, Buffered, Wf, FlatKeys, FlatVals, Address;
    tree.EntriesSorted();
    HeapKeys(tree.store.nodes);
    EntryThere(Heap(tree.store.nodes), tree.Tree(), c.node, c.index, p);
    tree.store.Use(c.node);
    if c.node.prev != null && c.index == 0 {
      tree.store.Use(c.node.prev);
    }
  }

  // ---- the walk that the addresses bound ----

  /** The entry at a cursor. */
  method EntryAtCursor(tree: BTreeMap, c: Cursor, ghost p: nat) returns (r: Entry)
    requires tree.Valid() && tree.root != null && Address(Heap(tree.store.nodes), tree.Tree(), c.node, c.index, p)
    ensures |tree.Vals()| == |tree.Keys()| && p < |tree.Keys()| && r == Pairs(tree.Keys(), tree.Vals())[p]
  {
    hide Arena, Heap, Node.Valid, BTreeMap.Valid, Wf, FlatKeys, FlatVals, Address;
    EntryReady(tree, c, p);
    tree.Parts();
    var key, val := c.KeyValue(tree.store.nodes);
    r := (key, val);
  }

  /** Moves a cursor from one entry to the next, or off the last one. */
  method Onward(tree: BTreeMap, c: Cursor, ghost p: nat)
    requires tree.Valid() && tree.root != null && Address(Heap(tree.store.nodes), tree.Tree(), c.node, c.index, p)
    modifies c
    ensures tree.Valid() && tree.root != null
    ensures if p + 1 == |tree.Keys()| then c.node == null
            else Address(Heap(tree.store.nodes), tree.Tree(), c.node, c.index, p + 1)
  {
    hide Arena, Heap, Node.Valid, BTreeMap.Valid, Wf, FlatKeys, FlatVals, Address;
    EntryReady(tree, c, p);
    tree.Parts();
    HoldsNext(Heap(tree.store.nodes), tree.Tree(), c.node, c.index, p);
    c.Advance(tree.store.nodes);
  }

  /** The range goes from index `s` to before `e` of the keys. */
  ghost predicate IsRange(ks: seq<Key>, from: KeyBound, to: KeyBound, s: nat, e: nat) {
    s <= e <= |ks| && StartsAt(ks, from, s) && EndsAt(ks, to, e)
  }

  /** These are the entries of the range, in order. */
  ghost predicate IsSlice(ks: seq<Key>, all: seq<Entry>, from: KeyBound, to: KeyBound, items: seq<Entry>) {
    exists s: nat, e: nat :: IsRange(ks, from, to, s, e) && |ks| == |all| && items == all[s..e]
  }

  lemma RangeWithin(ks: seq<Key>, from: KeyBound, to: KeyBound, s: nat, e: nat)
    requires StartsAt(ks, from, s) && EndsAt(ks, to, e) && s <= e
    ensures IsRange(ks, from, to, s, e)
  {
  }

  lemma EntryNumber(tree: BTreeMap, n: Node?, i: nat, p: nat)
    requires tree.Valid() && tree.root != null && Address(Heap(tree.store.nodes), tree.Tree(), n, i, p)
    ensures p < |tree.Keys()| == |tree.Vals()|
  {
    hide Arena, Heap, Wf, FlatKeys, FlatVals, Address;
    EntryThere(Heap(tree.store.nodes), tree.Tree(), n, i, p);
  }

  /** Goes along the chain from entry number `s` to an address, that of entry number `e`, both included. */
  method WalkTo(tree: BTreeMap, cursor: Cursor, endNode: Node, endIndex: nat, ghost s: nat, ghost e: nat)
    returns (items: seq<Entry>)
    requires tree.Valid() && tree.root != null && s <= e
    requires Address(Heap(tree.store.nodes), tree.Tree(), cursor.node, cursor.index, s)
    requires Address(Heap(tree.store.nodes), tree.Tree(), endNode, endIndex, e)
    modifies cursor
    ensures |tree.Vals()| == |tree.Keys()| && e < |tree.Keys()|
    ensures items == Pairs(tree.Keys(), tree.Vals())[s..e + 1]
  {
    hide Arena, Heap, Node.Valid, BTreeMap.Valid, Wf, FlatKeys, FlatVals, Address, Pairs;
    tree.Parts();
    ghost var H, t := Heap(tree.store.nodes), tree.Tree();
    EntryNumber(tree, endNode, endIndex, e);
    var item := EntryAtCursor(tree, cursor, s);
    items := [item];
    ghost var p := s;
    SameAddress(H, t, cursor.node, cursor.index, p, endNode, endIndex, e);
    while cursor.node != endNode || cursor.index != endIndex
      invariant tree.Valid() && s <= p <= e && Address(H, t, cursor.node, cursor.index, p)
      invariant items == Pairs(tree.Keys(), tree.Vals())[s..p + 1]
      invariant cursor.node == endNode && cursor.index == endIndex <==> p == e
      decreases e - p
    {
      Onward(tree, cursor, p);
      p := p + 1;
      item := EntryAtCursor(tree, cursor, p);
      items := items + [item];
      SameAddress(H, t, cursor.node, cursor.index, p, endNode, endIndex, e);
    }
  }

  /** What lies between both addresses of a range, along the chain, is exactly the range. */
  method Walk(tree: BTreeMap, from: KeyBound, to: KeyBound) returns (items: seq<Entry>)
    requires tree.Valid() && forall k :: k in tree.Keys() ==> AfterStart(from, k) || BeforeEnd(to, k)
    ensures |tree.Vals()| == |tree.Keys()|
    ensures IsSlice(tree.Keys(), Pairs(tree.Keys(), tree.Vals()), from, to, items)
  {
    hide Arena, Heap, Node.Valid, BTreeMap.Valid, Wf, FlatKeys, FlatVals, Address, StartsAt, EndsAt, AfterStart,
         BeforeEnd, Pairs;
    tree.EntriesSorted();
    ghost var s, e;
    var b;
    b, s, e := Bounds(tree, from, to);
    RangeWithin(tree.Keys(), from, to, s, e);
    items := [];
    if b.Some? {
      var cursor := new Cursor(b.value.startNode, b.value.startIndex);
      items := WalkTo(tree, cursor, b.value.endNode, b.value.endIndex, s, e - 1);
    }
    assert items == Pairs(tree.Keys(), tree.Vals())[s..e];
  }

  class Range {
    const tree: BTreeMap
    var cursor: Cursor
    var backCursor: Cursor
    const bounds: Option<NodeBounds>
    /** The range goes from the entry number `start` to before the one numbered `end`. */
    ghost const start: nat
    ghost const end: nat
    /** The numbers of the entries at the cursors. */
    ghost var front: Option<nat>
    ghost var back: Option<nat>

    ghost predicate Valid()
      reads this, cursor, backCursor, tree, tree.store, tree.store.nodes, tree.store.buffers, tree.store.edgeBuffers
    {
      && tree.Valid() && cursor != backCursor && |tree.Vals()| == |tree.Keys()|
      && if bounds.None? then front == back == None && cursor.node == backCursor.node == null
         else tree.root != null && Attached(Heap(tree.store.nodes), tree.Tree(), bounds.value)
    }

    ghost predicate Attached(H: Cells, t: Shape, b: NodeBounds)
      reads this, cursor, backCursor
    {
      && Address(H, t, b.startNode, b.startIndex, start) && 0 < end && Address(H, t, b.endNode, b.endIndex, end - 1)
      && Holds(H, t, cursor.node, cursor.index, front) && Holds(H, t, backCursor.node, backCursor.index, back)
    }

    constructor (tree: BTreeMap, from: KeyBound, to: KeyBound)
      requires tree.Valid()
      ensures Valid() && this.tree == tree && fresh(cursor) && fresh(backCursor)
      ensures StartsAt(tree.Keys(), from, start) && EndsAt(tree.Keys(), to, end)
      ensures if bounds.None? then front == back == None else front == Some(start) && back == Some(end - 1)
      ensures start <= |tree.Keys()| && end <= |tree.Keys()| && (start <= end ==> (bounds.None? <==> start == end))
      ensures bounds.Some? ==> start < |tree.Keys()| && 0 < end
    {
      hide Arena, Heap, BTreeMap.Valid, Wf, FlatKeys, FlatVals, StartsAt, EndsAt, Address, AfterStart,
           BeforeEnd;
      tree.EntriesSorted();
      var b;
      ghost var s, e;
      b, s, e := Bounds(tree, from, to);
      this.tree := tree;
      bounds, start, end := b, s, e;
      match b {
        case None =>
          cursor := new Cursor(null, 0);
          backCursor := new Cursor(null, 0);
          front, back := None, None;
        case Some(b) =>
          EntryNumber(tree, b.startNode, b.startIndex, s);
          cursor := new Cursor(b.startNode, b.startIndex);
          backCursor := new Cursor(b.endNode, b.endIndex);
          front, back := Some(s), Some(e - 1);
      }
    }

    /** A cursor is detached exactly if it has no entry. */
    lemma Attachment()
      requires Valid()
      ensures front.Some? <==> cursor.node != null
      ensures back.Some? <==> backCursor.node != null
      ensures |tree.Vals()| == |tree.Keys()|
    {
      hide BTreeMap.Valid;
    }

    lemma Ready()
      requires Valid() && (front.Some? || back.Some?)
      ensures bounds.Some? && tree.root != null && Arena(tree.store.nodes) &&
              Wf(Heap(tree.store.nodes), tree.Tree(), null)
      ensures front.Some? ==> EntryOf(tree, cursor, front.value)
      ensures back.Some? ==> EntryOf(tree, backCursor, back.value)
    {
      hide Arena, Heap, Node.Valid, BTreeMap.Valid, Wf, FlatKeys, FlatVals, Address, EntryOf;
      tree.Parts();
      if front.Some? { EntryReady(tree, cursor, front.value); }
      if back.Some? { EntryReady(tree, backCursor, back.value); }
    }

    /** Moves the front cursor to the next entry of the map. */
    method StepFront()
      requires Valid() && cursor.node != null
      modifies `front, cursor
      ensures Valid() && old(front).Some? && front == if old(front).value + 1 == |tree.Keys()| then None
              else Some(old(front).value + 1)
    {
      hide Arena, Heap, Node.Valid, BTreeMap.Valid, Wf, FlatKeys, FlatVals, Address;
      Attachment();
      ghost var p := front.value;
      Onward(tree, cursor, p);
      front := if p + 1 == |tree.Keys()| then None else Some(p + 1);
    }

    /** Moves the back cursor to the previous entry of the map. */
    method StepBack()
      requires Valid() && backCursor.node != null
      modifies `back, backCursor
      ensures Valid() && old(back).Some? && back == if old(back).value == 0 then None else Some(old(back).value - 1)
    {
      hide Arena, Heap, Node.Valid, BTreeMap.Valid, Wf, FlatKeys, FlatVals, Address;
      Attachment();
      Ready();
      ghost var H, t, c, i, p := Heap(tree.store.nodes), tree.Tree(), backCursor.node, backCursor.index, back.value;
      c.Known(tree.store.nodes);
      ghost var _ := backCursor.AdvanceBack(tree.store.nodes);
      HoldsPrev(H, t, c, i, p, backCursor.index);
      back := if p == 0 then None else Some(p - 1);
    }

    /** Makes both cursors have no entry. */
    method DetachBoth()
      requires Valid()
      modifies `front, `back, cursor, backCursor
      ensures Valid() && front == back == None && cursor == old(cursor) && backCursor == old(backCursor)
    {
      hide BTreeMap.Valid, Address, Arena, Heap, Wf, FlatKeys, FlatVals;
      cursor.Detach();
      backCursor.Detach();
      front, back := None, None;
    }

    /** Whether a cursor, at entry number `p`, is at an address, of entry number `r`. */
    lemma AtBound(c: Cursor, p: nat, n: Node, i: nat, r: nat)
      requires Valid() && ((c == cursor && front == Some(p)) || (c == backCursor && back == Some(p)))
      requires tree.root != null && Address(Heap(tree.store.nodes), tree.Tree(), n, i, r)
      ensures c.node == n && c.index == i <==> p == r
    {
      hide Arena, Heap, BTreeMap.Valid, Wf, Address, EntryOf;
      Ready();
      SameAddress(Heap(tree.store.nodes), tree.Tree(), c.node, c.index, p, n, i, r);
    }

    lemma HasEnd()
      requires Valid()
      ensures |tree.Vals()| == |tree.Keys()| && (front.Some? || back.Some? ==> 0 < end)
    {
      hide BTreeMap.Valid, Address;
    }

    /** The addresses of the first and the last entry of the range. */
    lemma BoundsOf()
      requires Valid() && bounds.Some?
      ensures tree.root != null && 0 < end
      ensures var b := bounds.value;
              && Address(Heap(tree.store.nodes), tree.Tree(), b.startNode, b.startIndex, start)
              && Address(Heap(tree.store.nodes), tree.Tree(), b.endNode, b.endIndex, end - 1)
    {
      hide BTreeMap.Valid, Address;
    }

    /**
     * Moves the front cursor on; both cursors are detached when it reaches the last entry of the range, or the end of
     * the map.
     */
    method Advance()
      requires Valid() && cursor.node != null
      modifies `front, `back, cursor, backCursor
      ensures Valid() && cursor == old(cursor) && backCursor == old(backCursor)
      ensures old(front).Some?
      ensures if old(front).value + 1 == |tree.Keys()| || old(front).value + 2 == end then front == back == None
              else front == Some(old(front).value + 1) && back == old(back)
    {
      hide Arena, Heap, BTreeMap.Valid, Range.Valid, Wf, FlatKeys, FlatVals, Address, EntryOf;
      StepFront();
      Attachment();
      if cursor.node == null {
        DetachBoth();
      } else {
        Ready();
        BoundsOf();
        var b := bounds.value;
        AtBound(cursor, front.value, b.endNode, b.endIndex, end - 1);
        if cursor.node == b.endNode && cursor.index == b.endIndex {
          DetachBoth();
        }
      }
    }

    /**
     * Moves the back cursor on; both cursors are detached when it reaches the first entry of the range, or the start
     * of the map.
     */
    method AdvanceBack()
      requires Valid() && backCursor.node != null
      modifies `front, `back, cursor, backCursor
      ensures Valid() && cursor == old(cursor) && backCursor == old(backCursor)
      ensures old(back).Some?
      ensures if old(back).value == 0 || old(back).value == start + 1 then front == back == None
              else back == Some(old(back).value - 1) && front == old(front)
    {
      hide Arena, Heap, BTreeMap.Valid, Range.Valid, Wf, FlatKeys, FlatVals, Address, EntryOf;
      StepBack();
      Attachment();
      if backCursor.node == null {
        DetachBoth();
      } else {
        Ready();
        BoundsOf();
        var b := bounds.value;
        AtBound(backCursor, back.value, b.startNode, b.startIndex, start);
        if backCursor.node == b.startNode && backCursor.index == b.startIndex {
          DetachBoth();
        }
      }
    }

    /** Yields the entry at the front cursor. */
    method Next() returns (r: Option<Entry>)
      requires Valid()
      modifies `front, `back, cursor, backCursor
      ensures Valid() && cursor == old(cursor) && backCursor == old(backCursor)
      ensures |tree.Vals()| == |tree.Keys()|
      ensures match old(front)
              case None => r == None && front == None && back == old(back)
              case Some(p) =>
                && p < |tree.Keys()| && r == Some((tree.Keys()[p], tree.Vals()[p]))
                && if p + 1 == |tree.Keys()| || p + 2 == end then front == back == None
                   else front == Some(p + 1) && back == old(back)
    {
      hide BTreeMap.Valid, Range.Valid, EntryOf;
      Attachment();
      if cursor.node == null {
        return None;
      }
      var x := Peek(cursor, front.value);
      Advance();
      r := Some(x);
    }

    /** The entry at a cursor. */
    method Peek(c: Cursor, ghost p: nat) returns (r: Entry)
      requires Valid() && ((c == cursor && front == Some(p)) || (c == backCursor && back == Some(p)))
      ensures |tree.Vals()| == |tree.Keys()| && p < |tree.Keys()| && r == (tree.Keys()[p], tree.Vals()[p])
    {
      hide Arena, Heap, Node.Valid, BTreeMap.Valid, Wf, FlatKeys, FlatVals, Address;
      r := EntryAtCursor(tree, c, p);
    }

    /** Yields the entry at the back cursor. */
    method NextBack() returns (r: Option<Entry>)
      requires Valid()
      modifies `front, `back, cursor, backCursor
      ensures Valid() && cursor == old(cursor) && backCursor == old(backCursor)
      ensures |tree.Vals()| == |tree.Keys()|
      ensures match old(back)
              case None => r == None && back == None && front == old(front)
              case Some(p) =>
                && p < |tree.Keys()| && r == Some((tree.Keys()[p], tree.Vals()[p]))
                && if p == 0 || p == start + 1 then front == back == None
                   else back == Some(p - 1) && front == old(front)
    {
      hide BTreeMap.Valid, Range.Valid, EntryOf;
      Attachment();
      if backCursor.node == null {
        return None;
      }
      var x := Peek(backCursor, back.value);
      AdvanceBack();
      r := Some(x);
    }
  }

  /** One turn. */
  method TakeTurn(r: Range, atFront: bool) returns (x: Option<Entry>)
    requires r.Valid()
    modifies r`front, r`back, r.cursor, r.backCursor
    ensures r.Valid() && r.cursor == old(r.cursor) && r.backCursor == old(r.backCursor) &&
            |r.tree.Vals()| == |r.tree.Keys()|
    ensures TurnDone(Pairs(r.tree.Keys(), r.tree.Vals()), r.start, r.end, atFront, old(r.front), old(r.back), x,
            r.front, r.back)
  {
    hide Range.Valid, BTreeMap.Valid;
    r.HasEnd();
    if atFront {
      x := r.Next();
    } else {
      x := r.NextBack();
    }
  }

  // ---- what a range yields ----

  /** Where iteration from the front stops, for a range from `s` to before `e` that has addresses. */
  ghost function FrontStop(s: nat, e: nat, count: nat): (r: nat)
    requires s <= count && e <= count
  {
    if e <= s + 1 then count else e - 1
  }

  /** Where iteration from the back stops. */
  ghost function BackStop(s: nat, e: nat): nat {
    if e <= s + 1 then 0 else s + 1
  }

  /** What has come out from the front so far, and where the cursor is. */
  ghost predicate FrontSoFar(all: seq<Entry>, s: nat, stop: nat, front: Option<nat>, items: seq<Entry>) {
    && s <= stop <= |all|
    && if front.Some? then s <= front.value < stop && items == all[s..front.value] else items == all[s..stop]
  }

  lemma FrontMore(all: seq<Entry>, s: nat, e: nat, front: Option<nat>, back: Option<nat>, items: seq<Entry>,
                  x: Option<Entry>, front1: Option<nat>, back1: Option<nat>)
    requires s <= |all| && e <= |all| && FrontSoFar(all, s, FrontStop(s, e, |all|), front, items)
    requires TurnDone(all, s, e, true, front, back, x, front1, back1) && x.Some?
    ensures FrontSoFar(all, s, FrontStop(s, e, |all|), front1, items + [x.value])
  {
    assert items + [x.value] == all[s..front.value + 1];
  }

  /** What has come out from the back so far, and where the cursor is. */
  ghost predicate BackSoFar(all: seq<Entry>, stop: nat, e: nat, back: Option<nat>, items: seq<Entry>) {
    && stop <= e <= |all|
    && if back.Some? then stop <= back.value < e && items == Rev(all[back.value + 1..e])
       else items == Rev(all[stop..e])
  }

  lemma {:induction false} BackMore(all: seq<Entry>, s: nat, e: nat, front: Option<nat>, back: Option<nat>,
                                    items: seq<Entry>,
                                    x: Option<Entry>, front1: Option<nat>, back1: Option<nat>)
    requires BackSoFar(all, BackStop(s, e), e, back, items)
    requires TurnDone(all, s, e, false, front, back, x, front1, back1) && x.Some?
    ensures BackSoFar(all, BackStop(s, e), e, back1, items + [x.value])
  {
    RevStep(all, back.value, e);
  }

  /**
   * All that comes out of a range from the front. It is the range exactly if the range is empty or holds only the last
   * entry of the map.
   */
  method FromFront(tree: BTreeMap, from: KeyBound, to: KeyBound)
    returns (items: seq<Entry>, ghost s: nat, ghost e: nat)
    requires tree.Valid()
    ensures |tree.Vals()| == |tree.Keys()| && s <= |tree.Keys()| && e <= |tree.Keys()|
    ensures StartsAt(tree.Keys(), from, s) && EndsAt(tree.Keys(), to, e)
    ensures var all := Pairs(tree.Keys(), tree.Vals());
            && (s == e ==> items == [])
            && (s + 1 == e ==> items == all[s..])
            && (s + 2 <= e ==> items == all[s..e - 1])
            && (e < s ==> items == [] || items == all[s..])
            && (s <= e ==> (items == all[s..e] <==> s == e || s + 1 == e == |all|))
  {
    hide Arena, Heap, Node.Valid, BTreeMap.Valid, Wf, FlatKeys, FlatVals, Pairs, Range.Valid, FrontSoFar, StartsAt,
         EndsAt;
    tree.EntriesSorted();
    ghost var all := Pairs(tree.Keys(), tree.Vals());
    var r := new Range(tree, from, to);
    s, e := r.start, r.end;
    items := [];
    if r.bounds.None? {
      return;
    }
    r.HasEnd();
    FrontStart(all, s, e);
    while true
      invariant r.Valid() && r.tree == tree && fresh(r.cursor) && fresh(r.backCursor)
      invariant FrontSoFar(all, s, FrontStop(s, e, |all|), r.front, items)
      decreases if r.front.Some? then |all| + 1 - r.front.value else 0
    {
      ghost var front, back := r.front, r.back;
      var x := TakeTurn(r, true);
      if x.None? {
        break;
      }
      FrontMore(all, s, e, front, back, items, x, r.front, r.back);
      items := items + [x.value];
    }
    FrontEnd(all, s, e, items);
  }

  lemma FrontStart(all: seq<Entry>, s: nat, e: nat)
    requires s < |all| && e <= |all| && s != e
    ensures FrontSoFar(all, s, FrontStop(s, e, |all|), Some(s), [])
  {
  }

  lemma FrontEnd(all: seq<Entry>, s: nat, e: nat, items: seq<Entry>)
    requires s <= |all| && e <= |all| && FrontSoFar(all, s, FrontStop(s, e, |all|), None, items)
    ensures s + 2 <= e ==> items == all[s..e - 1]
    ensures e <= s + 1 ==> items == all[s..]
    ensures s < e ==> (items == all[s..e] <==> s + 1 == e == |all|)
  {
    assert |items| == FrontStop(s, e, |all|) - s;
  }

  /** A range starts and ends at one index. */
  lemma BoundsUnique(ks: seq<Key>, start: KeyBound, s: nat, s1: nat, end: KeyBound, e: nat, e1: nat)
    requires StartsAt(ks, start, s) && StartsAt(ks, start, s1) && EndsAt(ks, end, e) && EndsAt(ks, end, e1)
    ensures s == s1 && e == e1
  {
    assert (s < |ks| ==> AfterStart(start, ks[s])) && (s1 < |ks| ==> AfterStart(start, ks[s1]));
    assert (e < |ks| ==> !BeforeEnd(end, ks[e])) && (e1 < |ks| ==> !BeforeEnd(end, ks[e1]));
  }

  /** All entries of the range without bounds: of a map with two or more entries the last one is missing. */
  method WholeRange(tree: BTreeMap) returns (items: seq<Entry>)
    requires tree.Valid()
    ensures |tree.Vals()| == |tree.Keys()| == tree.length
    ensures items == Pairs(tree.Keys(), tree.Vals())[..if tree.length < 2 then tree.length else tree.length - 1]
  {
    hide Arena, Heap, BTreeMap.Valid, Wf, FlatKeys, FlatVals, Pairs;
    tree.EntriesSorted();
    AllAfter(tree.Keys());
    ghost var s, e;
    items, s, e := FromFront(tree, Unbounded, Unbounded);
    BoundsUnique(tree.Keys(), Unbounded, s, 0, Unbounded, e, |tree.Keys()|);
  }

  /**
   * All that comes out of a range from the back. It is the range exactly if the range is empty or holds only the first
   * entry of the map.
   */
  method FromBack(tree: BTreeMap, from: KeyBound, to: KeyBound)
    returns (items: seq<Entry>, ghost s: nat, ghost e: nat)
    requires tree.Valid()
    ensures |tree.Vals()| == |tree.Keys()| && s <= |tree.Keys()| && e <= |tree.Keys()|
    ensures StartsAt(tree.Keys(), from, s) && EndsAt(tree.Keys(), to, e)
    ensures var all := Pairs(tree.Keys(), tree.Vals());
            && (s == e ==> items == [])
            && (s + 1 == e ==> items == Rev(all[..e]))
            && (s + 2 <= e ==> items == Rev(all[s + 1..e]))
            && (e < s ==> items == [] || items == Rev(all[..e]))
            && (s <= e ==> (items == Rev(all[s..e]) <==> s == e || (s == 0 && e == 1)))
  {
    hide Arena, Heap, Node.Valid, BTreeMap.Valid, Wf, FlatKeys, FlatVals, Pairs, Range.Valid, BackSoFar, StartsAt,
         EndsAt, Rev;
    tree.EntriesSorted();
    ghost var all := Pairs(tree.Keys(), tree.Vals());
    var r := new Range(tree, from, to);
    s, e := r.start, r.end;
    items := [];
    if r.bounds.None? {
      RevEmpty(all[s..s]);
      return;
    }
    r.HasEnd();
    BackStart(all, s, e);
    while true
      invariant r.Valid() && r.tree == tree && fresh(r.cursor) && fresh(r.backCursor)
      invariant BackSoFar(all, BackStop(s, e), e, r.back, items)
      decreases if r.back.Some? then r.back.value + 1 else 0
    {
      ghost var front, back := r.front, r.back;
      var x := TakeTurn(r, false);
      if x.None? {
        break;
      }
      BackMore(all, s, e, front, back, items, x, r.front, r.back);
      items := items + [x.value];
    }
    BackEnd(all, s, e, items);
  }

  lemma {:induction false} BackStart(all: seq<Entry>, s: nat, e: nat)
    requires s <= |all| && 0 < e <= |all| && s != e
    ensures BackSoFar(all, BackStop(s, e), e, Some(e - 1), [])
  {
    RevEmpty(all[e..e]);
  }

  lemma {:induction false} BackEnd(all: seq<Entry>, s: nat, e: nat, items: seq<Entry>)
    requires s <= |all| && BackSoFar(all, BackStop(s, e), e, None, items)
    ensures s + 2 <= e ==> items == Rev(all[s + 1..e])
    ensures e <= s + 1 ==> items == Rev(all[..e])
    ensures s < e ==> (items == Rev(all[s..e]) <==> s == 0 && e == 1)
  {
    assert |items| == e - BackStop(s, e);
  }

  /** After how many entries from the front, or from the back, iteration over the range from `s` to before `e` stops. */
  ghost function FrontQuota(s: nat, e: nat, count: nat): nat
    requires s <= e <= count
  {
    if s == e then 0 else if s + 1 == e then count - s else e - 1 - s
  }

  ghost function BackQuota(s: nat, e: nat): nat
    requires s <= e
  {
    if s == e then 0 else if s + 1 == e then e else e - 1 - s
  }

  /** Before turn `n` neither end has used up its quota. */
  ghost predicate Going(turns: seq<bool>, n: nat, s: nat, e: nat, count: nat) {
    n <= |turns| && s <= e <= count && FrontTurns(turns, n) < FrontQuota(s, e, count) &&
      n - FrontTurns(turns, n) < BackQuota(s, e)
  }

  /** Where a run over a range is before turn `k`; `n` is that turn, or the one at which it stopped. */
  ghost predicate Ranging(all: seq<Entry>, s: nat, e: nat, turns: seq<bool>, k: nat, n: nat,
                          front: Option<nat>, back: Option<nat>, fronts: seq<Entry>, backs: seq<Entry>) {
    && n <= k <= |turns| && s <= e <= |all| && (forall j :: 0 <= j < n ==> Going(turns, j, s, e, |all|))
    && |fronts| == FrontTurns(turns, n) && |fronts| + |backs| == n && s + |fronts| <= |all| && |backs| <= e
    && fronts == all[s..s + |fronts|] && Rev(backs) == all[e - |backs|..e]
    && if Going(turns, n, s, e, |all|) then n == k && front == Some(s + |fronts|) && e > |backs| &&
       back == Some(e - 1 - |backs|)
       else front == back == None
  }

  lemma {:induction false} RangingStart(all: seq<Entry>, s: nat, e: nat, turns: seq<bool>)
    requires s <= e <= |all|
    ensures Ranging(all, s, e, turns, 0, 0, if s == e then None else Some(s), if s == e then None
            else Some(e - 1), [], [])
  {
  }

  lemma {:induction false} RangingFront(all: seq<Entry>, s: nat, e: nat, turns: seq<bool>, k: nat, n: nat,
                                        p: nat, back: Option<nat>, fronts: seq<Entry>, backs: seq<Entry>,
                                        front1: Option<nat>, back1: Option<nat>)
    requires Ranging(all, s, e, turns, k, n, Some(p), back, fronts, backs) && k < |turns| && turns[k] && p < |all|
    requires AfterFront(all, e, p, back, front1, back1)
    ensures Ranging(all, s, e, turns, k + 1, k + 1, front1, back1, fronts + [all[p]], backs)
  {
    assert fronts + [all[p]] == all[s..p + 1];
    assert FrontTurns(turns, k + 1) == |fronts| + 1;
  }

  lemma {:induction false} RangingBack(all: seq<Entry>, s: nat, e: nat, turns: seq<bool>, k: nat, n: nat,
                                       front: Option<nat>, p: nat, fronts: seq<Entry>, backs: seq<Entry>,
                                       front1: Option<nat>, back1: Option<nat>)
    requires Ranging(all, s, e, turns, k, n, front, Some(p), fronts, backs) && k < |turns| && !turns[k] && p < |all|
    requires AfterBack(s, p, front, front1, back1)
    ensures Ranging(all, s, e, turns, k + 1, k + 1, front1, back1, fronts, backs + [all[p]])
  {
    hide Rev;
    RevLast(backs, all[p]);
    assert [all[p]] + all[p + 1..e] == all[p..e];
    assert FrontTurns(turns, k + 1) == |fronts|;
  }

  lemma {:induction false} RangingIdle(all: seq<Entry>, s: nat, e: nat, turns: seq<bool>, k: nat, n: nat,
                                       front: Option<nat>, back: Option<nat>, fronts: seq<Entry>, backs: seq<Entry>)
    requires Ranging(all, s, e, turns, k, n, front, back, fronts, backs) && k < |turns| && (front.None? || back.None?)
    ensures front == back == None && Ranging(all, s, e, turns, k + 1, n, None, None, fronts, backs)
  {
  }

  /** One turn of a run. */
  lemma {:induction false} RangingTurn(all: seq<Entry>, s: nat, e: nat, turns: seq<bool>, k: nat, n: nat,
                                       front: Option<nat>, back: Option<nat>, fronts: seq<Entry>, backs: seq<Entry>,
                                       x: Option<Entry>, front1: Option<nat>, back1: Option<nat>)
    requires Ranging(all, s, e, turns, k, n, front, back, fronts, backs) && k < |turns|
    requires TurnDone(all, s, e, turns[k], front, back, x, front1, back1)
    ensures Ranging(all, s, e, turns, k + 1, if front.None? then n else k + 1, front1, back1,
                    if turns[k] && x.Some? then fronts + [x.value] else fronts,
                    if !turns[k] && x.Some? then backs + [x.value] else backs)
  {
    if front.None? || back.None? {
      RangingIdle(all, s, e, turns, k, n, front, back, fronts, backs);
    } else if turns[k] {
      RangingFront(all, s, e, turns, k, n, front.value, back, fronts, backs, front1, back1);
    } else {
      RangingBack(all, s, e, turns, k, n, front, back.value, fronts, backs, front1, back1);
    }
    hide Ranging;
  }

  lemma {:induction false} RangingEnd(all: seq<Entry>, s: nat, e: nat, turns: seq<bool>, n: nat,
                                      front: Option<nat>, back: Option<nat>, fronts: seq<Entry>, backs: seq<Entry>)
    requires Ranging(all, s, e, turns, |turns|, n, front, back, fronts, backs)
    ensures n <= |turns| && |fronts| == FrontTurns(turns, n) && |fronts| + |backs| == n
    ensures s + |fronts| <= |all| && |backs| <= e
    ensures fronts == all[s..s + |fronts|] && Rev(backs) == all[e - |backs|..e]
    ensures fronts + Rev(backs) == all[s..e] <==> |fronts| + |backs| == e - s
    ensures n == |turns| || |fronts| == FrontQuota(s, e, |all|) || |backs| == BackQuota(s, e)
    ensures forall k :: 0 <= k < n ==>
              FrontTurns(turns, k) < FrontQuota(s, e, |all|) && k - FrontTurns(turns, k) < BackQuota(s, e)
  {
    if |fronts| + |backs| == e - s {
      assert all[s..s + |fronts|] + all[e - |backs|..e] == all[s..e];
    }
    forall k | 0 <= k < n
      ensures FrontTurns(turns, k) < FrontQuota(s, e, |all|) && k - FrontTurns(turns, k) < BackQuota(s, e)
    {
      assert Going(turns, k, s, e, |all|);
    }
    if 0 < n < |turns| {
      assert Going(turns, n - 1, s, e, |all|);
      assert FrontTurns(turns, n) == FrontTurns(turns, n - 1) + if turns[n - 1] then 1 else 0;
    }
  }

  /**
   * Iterates over a range from both ends, in any order of turns; `true` takes an entry from the front. It stops before
   * turn `n`: there are no more turns, or one of the ends has just used up its quota of entries. What has come out is
   * the range exactly if it is as many entries; if it is more, the cursors have crossed and some came out twice.
   */
  method IterateRange(tree: BTreeMap, from: KeyBound, to: KeyBound, turns: seq<bool>)
    returns (fronts: seq<Entry>, backs: seq<Entry>, ghost s: nat, ghost e: nat, ghost n: nat)
    requires tree.Valid()
    ensures |tree.Vals()| == |tree.Keys()| && s <= |tree.Keys()| && e <= |tree.Keys()| && n <= |turns|
    ensures StartsAt(tree.Keys(), from, s) && EndsAt(tree.Keys(), to, e)
    ensures s <= e ==>
              && |fronts| == FrontTurns(turns, n) && |fronts| + |backs| == n
              && s + |fronts| <= |tree.Keys()| && |backs| <= e
    ensures s <= e ==>
              var all := Pairs(tree.Keys(), tree.Vals());
              && fronts == all[s..s + |fronts|] && Rev(backs) == all[e - |backs|..e]
              && (fronts + Rev(backs) == all[s..e] <==> |fronts| + |backs| == e - s)
    ensures s <= e ==>
              var frontQuota := if s == e then 0 else if s + 1 == e then |tree.Keys()| - s else e - 1 - s;
              var backQuota := if s == e then 0 else if s + 1 == e then e else e - 1 - s;
              && (n == |turns| || |fronts| == frontQuota || |backs| == backQuota)
              && forall k :: 0 <= k < n ==> FrontTurns(turns, k) < frontQuota && k - FrontTurns(turns, k) < backQuota
  {
    hide Arena, Heap, Node.Valid, BTreeMap.Valid, Wf, FlatKeys, FlatVals, Pairs, Range.Valid, Ranging, TurnDone,
         StartsAt, EndsAt;
    tree.EntriesSorted();
    ghost var all := Pairs(tree.Keys(), tree.Vals());
    var r := new Range(tree, from, to);
    s, e, n := r.start, r.end, 0;
    fronts, backs := [], [];
    if s <= e { RangingStart(all, s, e, turns); }
    for k := 0 to |turns|
      invariant r.Valid() && r.tree == tree && fresh(r.cursor) && fresh(r.backCursor) && n <= k
      invariant s <= e ==> Ranging(all, s, e, turns, k, n, r.front, r.back, fronts, backs)
    {
      ghost var front, back := r.front, r.back;
      var x := TakeTurn(r, turns[k]);
      if s <= e {
        RangingTurn(all, s, e, turns, k, n, front, back, fronts, backs, x, r.front, r.back);
      }
      n := if front.None? then n else k + 1;
      fronts, backs := if turns[k] && x.Some? then fronts + [x.value]
        else fronts, if !turns[k] && x.Some? then backs + [x.value] else backs;
    }
    if s <= e {
      RangingEnd(all, s, e, turns, n, r.front, r.back, fronts, backs);
    }
  }

  lemma {:induction false} RevEmpty(s: seq<Entry>)
    requires s == []
    ensures Rev(s) == []
  {
  }

  lemma {:induction false} RevFirst(x: Entry, s: seq<Entry>)
    ensures Rev([x] + s) == Rev(s) + [x]
  {
    assert ([x] + s)[1..] == s;
  }

  lemma RevStep(all: seq<Entry>, p: nat, e: nat)
    requires p < e <= |all|
    ensures Rev(all[p..e]) == Rev(all[p + 1..e]) + [all[p]]
  {
    assert all[p..e] == [all[p]] + all[p + 1..e];
    RevFirst(all[p], all[p + 1..e]);
  }

  // ---- small maps ----

  /** A map with these contents has these entries in this order. */
  lemma {:induction false} KnownEntries(tree: BTreeMap, ks: seq<Key>, vs: seq<Value>)
    requires tree.Valid() && |ks| == |vs| && Increasing(ks) && tree.Contents() == ToMap(ks, vs)
    ensures tree.Keys() == ks && tree.Vals() == vs
  {
    hide Arena, Wf, FlatKeys, FlatVals, ToMap;
    tree.EntriesSorted();
    SameMapSameEntries(tree.Keys(), tree.Vals(), ks, vs);
  }

  /** Inserting entries in the order of their keys gives the map of these entries. */
  lemma {:induction false} InOrderOfKeys(ks: seq<Key>, vs: seq<Value>, n: nat)
    requires |ks| == |vs| && Increasing(ks) && n <= |ks|
    ensures ToMap(ks[..n], vs[..n]) == Extended(map[], Pairs(ks, vs)[..n])
  {
    if n > 0 {
      var l := n - 1;
      InOrderOfKeys(ks, vs, l);
      var items := Pairs(ks, vs)[..n];
      assert items[..l] == Pairs(ks, vs)[..l] && items[l] == (ks[l], vs[l]);
      ToMapIns(ks[..l], vs[..l], l, ks[l], vs[l]);
      assert Ins(ks[..l], l, ks[l]) == ks[..n] && Ins(vs[..l], l, vs[l]) == vs[..n];
    }
  }

  /** A map with these entries, of which the keys increase. */
  method SmallMap(store: Store, items: seq<(Key, Value)>, ghost ks: seq<Key>, ghost vs: seq<Value>)
    returns (tree: BTreeMap)
    requires store.Valid() && |ks| == |vs| && Increasing(ks) && items == Pairs(ks, vs)
    modifies store`nodes, store`buffers, store`edgeBuffers, store`allocs, store.nodes, store.buffers, store.edgeBuffers
    ensures fresh(tree) && tree.Valid() && tree.Keys() == ks && tree.Vals() == vs
  {
    hide Arena, Heap, Node.Valid, Store.Valid, BTreeMap.Valid, BTreeMap.Contents, BTreeMap.Outside, ToMap, Extended,
         Pairs;
    tree := new BTreeMap(store);
    assert tree.Contents() == map[] by { NoContents(tree); }
    tree.Extend(items);
    InOrderOfKeys(ks, vs, |ks|);
    assert ks[..|ks|] == ks && vs[..|vs|] == vs && items[..|items|] == items;
    KnownEntries(tree, ks, vs);
  }

  lemma {:induction false} NoContents(tree: BTreeMap)
    requires tree.Valid() && tree.Keys() == []
    ensures tree.Contents() == map[]
  {
    hide Arena, Store.Valid, Wf;
    tree.EntriesSorted();
  }

  /**
   * Of two entries, the range of both misses one from either end, and the range of the first alone goes on to the
   * second.
   */
  method TwoEntries(store: Store) returns (both: seq<Entry>, backwards: seq<Entry>, first: seq<Entry>)
    requires store.Valid()
    modifies store`nodes, store`buffers, store`edgeBuffers, store`allocs, store.nodes, store.buffers, store.edgeBuffers
    ensures both == [(1, 10)] && backwards == [(2, 20)] && first == [(1, 10), (2, 20)]
  {
    hide Arena, Heap, Node.Valid, Store.Valid, BTreeMap.Valid, FlatKeys, FlatVals, Rev;
    ghost var ks, vs := [1, 2], [10, 20];
    assert Pairs(ks, vs) == [(1, 10), (2, 20)];
    var tree := SmallMap(store, [(1, 10), (2, 20)], ks, vs);
    ghost var s, e;
    both, s, e := FromFront(tree, Included(1), Included(2));
    IndicesOf(ks, s, e);
    backwards, s, e := FromBack(tree, Included(1), Included(2));
    IndicesOf(ks, s, e);
    assert Pairs(ks, vs)[1..2] == [(2, 20)] && Pairs(ks, vs)[0..1] == [(1, 10)];
    RevOne((2, 20));
    first, s, e := FromFront(tree, Included(1), Included(1));
    BoundsUnique(ks, Included(1), s, 0, Included(1), e, 1);
  }

  lemma {:induction false} RevOne(x: Entry)
    ensures Rev([x]) == [x]
  {
    assert [x][1..] == [];
  }

  /** The indices of the range from the first to the last key. */
  lemma IndicesOf(ks: seq<Key>, s: nat, e: nat)
    requires ks == [1, 2] || ks == [1, 2, 3, 4]
    requires StartsAt(ks, Included(1), s) && EndsAt(ks, Included(|ks|), e)
    ensures s == 0 && e == |ks|
  {
    BoundsUnique(ks, Included(1), s, 0, Included(|ks|), e, |ks|);
  }

  /** Of four entries, five turns that alternate between the ends yield the third entry twice. */
  method FourEntries(store: Store) returns (fronts: seq<Entry>, backs: seq<Entry>)
    requires store.Valid()
    modifies store`nodes, store`buffers, store`edgeBuffers, store`allocs, store.nodes, store.buffers, store.edgeBuffers
    ensures fronts == [(1, 10), (2, 20), (3, 30)] && backs == [(4, 40), (3, 30)]
  {
    hide Arena, Heap, Node.Valid, Store.Valid, BTreeMap.Valid, FlatKeys, FlatVals, Rev;
    ghost var ks, vs := [1, 2, 3, 4], [10, 20, 30, 40];
    assert Pairs(ks, vs) == [(1, 10), (2, 20), (3, 30), (4, 40)];
    var tree := SmallMap(store, [(1, 10), (2, 20), (3, 30), (4, 40)], ks, vs);
    var turns := [true, false, true, false, true];
    ghost var s, e, n;
    fronts, backs, s, e, n := IterateRange(tree, Included(1), Included(4), turns);
    IndicesOf(ks, s, e);
    FiveTurns(turns);
    assert n == 5 && |fronts| == 3 && |backs| == 2;
    assert Pairs(ks, vs)[0..3] == [(1, 10), (2, 20), (3, 30)] && Pairs(ks, vs)[2..4] == [(3, 30), (4, 40)];
    RevTwice(backs);
    RevTwo((3, 30), (4, 40));
  }

  lemma {:induction false} RevTwo(x: Entry, y: Entry)
    ensures Rev([x, y]) == [y, x]
  {
    assert [x, y][1..] == [y] && [y][1..] == [];
  }

  lemma {:induction false} FiveTurns(turns: seq<bool>)
    requires turns == [true, false, true, false, true]
    ensures FrontTurns(turns, 1) == 1 && FrontTurns(turns, 2) == 1 && FrontTurns(turns, 3) == 2
    ensures FrontTurns(turns, 4) == 2 && FrontTurns(turns, 5) == 3 && FrontTurns(turns, 0) == 0
  {
    assert FrontTurns(turns, 1) == 1;
    assert FrontTurns(turns, 2) == 1;
    assert FrontTurns(turns, 3) == 2;
    assert FrontTurns(turns, 4) == 2;
  }

  lemma {:induction false} RevTwice(s: seq<Entry>)
    ensures Rev(Rev(s)) == s
  {
    if s != [] {
      RevLast(Rev(s[1..]), s[0]);
      RevTwice(s[1..]);
    }
  }
}
