/** The map: a B+ tree in a store that it may share with other maps. */
module Maps {
  import opened Seqs
  import opened Nodes
  import opened Stores
  import opened Trees
  import opened Contents
  import opened Entries
  import opened Removal
  import opened Rebalance
  import opened Insertion
  import opened Overflow
  import opened Structure
  import opened Dropping

  /** Where a key is, or where it belongs. */
  datatype Find = NoRoot | Before(node: Node, idx: nat) | At(node: Node, idx: nat)

  datatype Option<T> = None | Some(value: T)

  /** How a function given by the caller ends: it panics, or it returns an optional value and a result. */
  datatype Outcome<+R> = Panics | Returns(val: Option<Value>, result: R)

  /** The map with the entries inserted one after the other. */
  function Extended(m: map<Key, Value>, items: seq<(Key, Value)>): map<Key, Value> {
    if items == [] then m
    else var n := |items| - 1; Extended(m, items[..n])[items[n].0 := items[n].1]
  }

  /** The keys are the old ones and those of the items; a key has the value of its last item, or else its old one. */
  lemma {:induction false} ExtendedAt(m: map<Key, Value>, items: seq<(Key, Value)>)
    ensures forall k :: k in Extended(m, items) <==> k in m || exists i :: 0 <= i < |items| && items[i].0 == k
    ensures forall i :: 0 <= i < |items| && (forall j :: i < j < |items| ==> items[j].0 != items[i].0) ==>
              items[i].0 in Extended(m, items) && Extended(m, items)[items[i].0] == items[i].1
    ensures forall k :: k in m && (forall i :: 0 <= i < |items| ==> items[i].0 != k) ==>
              k in Extended(m, items) && Extended(m, items)[k] == m[k]
  {
    forall i | 0 <= i < |items|
      ensures items[i].0 in Extended(m, items)
      ensures (forall j :: i < j < |items| ==> items[j].0 != items[i].0) ==>
                Extended(m, items)[items[i].0] == items[i].1
    {
      ExtendedItem(m, items, i);
    }
    forall k | forall i :: 0 <= i < |items| ==> items[i].0 != k
      ensures k in Extended(m, items) <==> k in m
      ensures k in m ==> Extended(m, items)[k] == m[k]
    {
      ExtendedOther(m, items, k);
    }
  }

  lemma {:induction false} ExtendedItem(m: map<Key, Value>, items: seq<(Key, Value)>, i: nat)
    requires i < |items|
    ensures items[i].0 in Extended(m, items)
    ensures (forall j :: i < j < |items| ==> items[j].0 != items[i].0) ==>
              Extended(m, items)[items[i].0] == items[i].1
  {
    var n := |items| - 1;
    if i < n {
      ExtendedItem(m, items[..n], i);
      if forall j :: i < j < |items| ==> items[j].0 != items[i].0 {
        assert items[n].0 != items[i].0;
        assert forall j :: i < j < n ==> items[..n][j].0 != items[i].0;
      }
    }
  }

  lemma {:induction false} ExtendedOther(m: map<Key, Value>, items: seq<(Key, Value)>, k: Key)
    requires forall i :: 0 <= i < |items| ==> items[i].0 != k
    ensures k in Extended(m, items) <==> k in m
    ensures k in m ==> Extended(m, items)[k] == m[k]
  {
    if items != [] {
      ExtendedOther(m, items[..|items| - 1], k);
    }
  }

  class BTreeMap {
    const store: Store
    var root: Node?
    var length: nat
    var height: nat
    /** The places of the nodes of the tree, and its leaves from left to right. */
    ghost var places: Places
    ghost var leaves: seq<Node>
    /** The last leaves of trees emptied by removals, which stay allocated. */
    ghost var leaked: set<Node>

    ghost function Tree(): Shape
      requires root != null
      reads this
    {
      Shape(root, height, places, leaves)
    }

    ghost function Tree?(): Option<Shape>
      reads this
    {
      if root == null then None else Some(Tree())
    }

    /** The nodes that were allocated for this map and not deallocated. */
    ghost function Owned(): set<Node>
      reads this
    {
      places.Keys + leaked
    }

    /** Everything in the store that is not this map's. */
    ghost function Outside(): Cells
      reads this, store, store.nodes
    {
      Heap(store.nodes) - Owned()
    }

    /** The keys and the values in the order of the chain of leaves. */
    ghost function Keys(): seq<Key>
      reads this, store, store.nodes
    {
      FlatKeys(Heap(store.nodes), leaves)
    }

    ghost function Vals(): seq<Value>
      reads this, store, store.nodes
    {
      FlatVals(Heap(store.nodes), leaves)
    }

    ghost predicate Valid()
      reads this, store, store.nodes, store.buffers, store.edgeBuffers
    {
      && store.Valid() && leaked <= store.nodes && leaked !! places.Keys
      && length == |Keys()|
      && if root == null then height == 0 && places == map[] && leaves == []
         else Wf(Heap(store.nodes), Tree(), null)
    }

    constructor (store: Store)
      requires store.Valid()
      ensures this.store == store && root == null && Owned() == {} && Valid() && Keys() == [] && Vals() == []
    {
      this.store := store;
      root, length, height := null, 0, 0;
      places, leaves, leaked := map[], [], {};
    }

    lemma EntriesSorted()
      requires Valid()
      ensures Increasing(Keys()) && |Vals()| == |Keys()| == length && (root == null <==> Keys() == [])
    {
      hide Arena, Buffered, Wf;
      if root != null {
        Sorted(Heap(store.nodes), Tree(), null);
        KeptSame(Heap(store.nodes), Tree());
        NotEmpty(Heap(store.nodes), Tree(), Heap(store.nodes), Tree());
      }
    }

    /** The parts of `Valid` that iteration needs. */
    lemma Parts()
      requires Valid()
      ensures store.Valid() && Arena(store.nodes) && length == |Keys()| &&
              (root == null ==> leaves == [] && Keys() == [])
      ensures root != null ==> Wf(Heap(store.nodes), Tree(), null)
    {
    }

    /** The finite map that this map stands for. */
    ghost function Contents(): map<Key, Value>
      requires Valid()
      reads this, store, store.nodes, store.buffers, store.edgeBuffers
    {
      EntriesSorted();
      ToMap(Keys(), Vals())
    }

    /** The result of a search: the leaf at `q` in the chain, and an index in it. */
    ghost predicate Finds(node: Node, q: nat, idx: nat, found: bool, key: Key)
      reads this, store, store.nodes
    {
      && root != null && q < |leaves| && leaves[q] == node && node in store.nodes && Covers(places, node, key) &&
         places[node].height == 0
      && Searched(node.cell.keys, found, idx, key)
      && Searched(Keys(), found, Position(Heap(store.nodes), leaves, q, idx), key)
    }

    /** A search visits one node on each level, which is few compared with the number of entries. */
    lemma DescentBound()
      requires Valid() && root != null
      ensures length <= 8 * Pow(9, height) && (0 < height ==> 8 * Pow(5, height - 1) <= length)
    {
      hide Arena, Store.Valid, Wf, FlatKeys, FlatVals, Pow;
      TreeSize(Heap(store.nodes), Tree());
    }

    /** `node`, on level `level`, is where the search for the key has come. */
    ghost predicate Searching(node: Node, level: nat, key: Key)
      reads this, store
    {
      node in store.nodes && Covers(places, node, key) && places[node].height == level <= height
    }

    /** Searches one node: the key is found, or its place in a leaf, or the edge to go on with. */
    method FindStep(node: Node, level: nat, key: Key) returns (found: bool, idx: nat, next: Node?, ghost q: nat)
      requires Valid() && root != null && Searching(node, level, key)
      ensures if level == 0 then Finds(node, q, idx, found, key) else next != null && Searching(next, level - 1, key)
    {
      hide Arena, Heap, Node.Valid, Store.Valid, Buffered, Wf, FlatKeys, FlatVals;
      ghost var h, t := Heap(store.nodes), Tree();
      store.Use(node);
      LocalAt(h, t, null, node);
      node.ArenaAt(store.nodes);
      HeapKeys(store.nodes);
      found, idx := node.Search(key);
      q, next := 0, null;
      if level == 0 {
        q := LeafDecides(h, t, null, node, found, idx, key);
      } else {
        DescendOk(h, t, null, node, found, idx, key);
        next := EdgeAt(node, if found then idx + 1 else idx, store.nodes);
      }
    }

    /** Finds the key or where it belongs, going down from the root, and visits few nodes on the way. */
    method FindKey(key: Key) returns (f: Find, ghost q: nat, ghost visits: nat)
      requires Valid()
      ensures match f
        case NoRoot => root == null && key !in Contents()
        case Before(node, idx) => Finds(node, q, idx, false, key) && key !in Contents()
        case At(node, idx) => Finds(node, q, idx, true, key) && key in Contents()
      ensures visits == if root == null then 0 else height + 1
      ensures 2 <= visits ==> 8 * Pow(5, visits - 2) <= length
    {
      hide Arena, Heap, Node.Valid, Store.Valid, Buffered, Wf, FlatKeys, FlatVals, Searching, Pow;
      q, visits := 0, 0;
      EntriesSorted();
      ToMapAt(Keys(), Vals());
      if root == null {
        return NoRoot, q, visits;
      }
      DescentBound();
      SearchingRoot(key);
      var node: Node, level := root, height;
      while true
        invariant Searching(node, level, key) && visits + level == height
        decreases level
      {
        visits := visits + 1;
        var found, idx, next;
        found, idx, next, q := FindStep(node, level, key);
        if level == 0 {
          return if found then Find.At(node, idx) else Before(node, idx), q, visits;
        }
        node, level := next, level - 1;
      }
    }

    lemma SearchingRoot(key: Key)
      requires Valid() && root != null
      ensures Searching(root, height, key)
    {
      hide Arena, Heap, Node.Valid, Store.Valid, Buffered, Wf, FlatKeys, FlatVals;
      RootAt(Heap(store.nodes), Tree(), null);
      HeapKeys(store.nodes);
    }

    /** This map is in shape and has the entries of the tree `t0` in `h0`, and nothing has changed outside
        that tree and the nodes `given`. */
    ghost predicate Holds(h0: Cells, t0: Shape, given: set<Node>)
      reads this, store, store.nodes, store.buffers, store.edgeBuffers
    {
      && Valid() && Keys() == FlatKeys(h0, t0.leaves) && Vals() == FlatVals(h0, t0.leaves)
      && Outside() == h0 - (t0.places.Keys + given)
    }

    /** The map may still own `t0`, besides what it has leaked. */
    ghost predicate CanHold(h0: Cells, t0: Shape)
      reads this
    {
      && leaked <= h0.Keys && leaked !! t0.places.Keys && t0.places.Keys <= h0.Keys &&
         length == |FlatKeys(h0, t0.leaves)|
    }

    /** Takes over the tree `t`, to which `t0` has been changed without changing the entries or anything outside. */
    ghost method Settle(h0: Cells, t0: Shape, t: Shape)
      requires root != null && store.Valid() && t.root == root && t.height == height
      requires Wf(Heap(store.nodes), t, null) && Kept(h0, t0, Heap(store.nodes), t)
      requires CanHold(h0, t0)
      modifies this`places, this`leaves
      ensures Holds(h0, t0, leaked)
    {
      hide Store.Valid, Wf, Buffered;
      KeptOutside(h0, t0, Heap(store.nodes), t, leaked);
      places, leaves := t.places, t.leaves;
    }

    /** The single edge of the empty root `node` becomes the root. */
    method LowerRoot(node: Node, ghost t: Shape)
      requires store.Valid() && node in store.nodes && Wf(Heap(store.nodes), t, node) && t.root == node &&
               t.height == height > 0
      requires node.len == 0
      modifies `root, `height, store`nodes, store`freed, store.nodes, store.buffers, store.edgeBuffers
      ensures store.Valid() && store.nodes == old(store.nodes) - {node} && height == old(height) - 1
      ensures root != null && root != node && root in old(Heap(store.nodes)) &&
              old(Heap(store.nodes))[node].edges == [root]
      ensures var h := old(Heap(store.nodes)); Heap(store.nodes) == (h - {node})[root := h[root].(parent := null)]
    {
      hide Arena, Heap, Node.Valid, Store.Valid, Buffered, Wf, LocalOk, FillOk, Accounted;
      ghost var h := Heap(store.nodes);
      store.Use(node);
      RootAt(h, t, node);
      OnlyEdge(h, t);
      height := height - 1;
      var child := EdgeAt(node, 0, store.nodes);
      assert h[node].edges == [child];
      root := child;
      RemoveParent(store, node, child);
    }

    method PromoteChild(node: Node, ghost h0: Cells, ghost t0: Shape, ghost t: Shape)
      requires store.Valid() && t.root == node && t.height == height > 0 && node in store.nodes && node.len == 0
      requires Wf(Heap(store.nodes), t, node) && Kept(h0, t0, Heap(store.nodes), t)
      requires CanHold(h0, t0)
      modifies `root, `height, `places, `leaves, store`nodes, store`freed, store.nodes, store.buffers,
               store.edgeBuffers
      ensures Holds(h0, t0, leaked) && store.nodes <= old(store.nodes)
    {
      hide Arena, Heap, Node.Valid, Store.Valid, Buffered, Wf, FlatKeys, FlatVals, Kept, Lowered, Holds;
      ghost var h := Heap(store.nodes);
      store.Use(node);
      LowerRoot(node, t);
      LoweredOk(h, t, root);
      LoweredRoot(t, root);
      KeptTwice(h0, t0, h, t, Heap(store.nodes), Lowered(t, root));
      Settle(h0, t0, Lowered(t, root));
    }

    /**
     * The end of rebalancing at the root `node`: an empty tree goes, and an internal root with one edge makes way for
     * it.
     */
    method ShrinkRoot(node: Node, isLeaf: bool, ghost h0: Cells, ghost t0: Shape, ghost t: Shape)
      requires store.Valid() && root == node && t.root == node && t.height == height && node in store.nodes
      requires Wf(Heap(store.nodes), t, node) && Kept(h0, t0, Heap(store.nodes), t) && isLeaf == (height == 0)
      requires CanHold(h0, t0)
      modifies `root, `height, `places, `leaves, `leaked, store`nodes, store`freed, store.nodes, store.buffers,
               store.edgeBuffers
      ensures Holds(h0, t0, old(leaked)) && leaked == (if length == 0 then old(leaked) + {node} else old(leaked))
      ensures store.nodes <= old(store.nodes)
    {
      hide Arena, Heap, Node.Valid, Store.Valid, Buffered, Wf, FlatKeys, FlatVals, Accounted, Kept, Holds;
      ghost var h := Heap(store.nodes);
      store.Use(node);
      RootAt(h, t, node);
      KeptEntries(h0, t0, h, t);
      if isLeaf {
        RootLeaf(h, t, node);
        if node.len == 0 {
          root := null;
          Abandon(h0, t0, t, node);
        } else {
          HoleFilled(h, t, node);
          Settle(h0, t0, t);
        }
      } else {
        TallNotEmpty(h, t, node);
        if node.len < 1 {
          PromoteChild(node, h0, t0, t);
        } else {
          HoleFilled(h, t, node);
          Settle(h0, t0, t);
        }
      }
    }

    /**
     * Rebalancing has come to `node`: only it may lack a key, by one, and the entries are already those of `t0` in
     * `h0`.
     */
    ghost predicate Turning(h0: Cells, t0: Shape, t: Shape, node: Node, isLeaf: bool)
      reads this, store, store.nodes, store.buffers, store.edgeBuffers
    {
      && store.Valid() && CanHold(h0, t0) && root == t.root == t0.root && height == t.height == t0.height
      && node in store.nodes && node in t.places && isLeaf == (t.places[node].height == 0)
      && Wf(Heap(store.nodes), t, node) && Kept(h0, t0, Heap(store.nodes), t)
    }

    lemma TurningAt(h0: Cells, t0: Shape, t: Shape, node: Node, isLeaf: bool)
      requires Turning(h0, t0, t, node, isLeaf)
      ensures store.Valid() && node in store.nodes && node in t.places &&
              t.places[node].height <= t.height == t0.height && root == t0.root
      ensures isLeaf == (t.places[node].height == 0) && Kept(h0, t0, Heap(store.nodes), t) && CanHold(h0, t0)
      ensures node.parent == null <==> node == root
      ensures root == t.root && height == t.height && (node == root ==>
              Wf(Heap(store.nodes), t, node) && isLeaf == (height == 0))
      ensures node.parent != null ==>
                && node.parent in store.nodes && node.parent in t.places
                && t.places[node.parent].height == t.places[node].height + 1 <= t.height
      ensures node.len < M / 2 && node.parent != null ==> Underfull(Heap(store.nodes), t, node, node.parent,
              node.parentIdx)
      ensures M / 2 <= node.len ==> Wf(Heap(store.nodes), t, null) && 0 < length
    {
      hide Arena, Heap, Node.Valid, Store.Valid, Buffered, Wf, FlatKeys, FlatVals, Kept;
      store.Use(node);
      RootAt(Heap(store.nodes), t, node);
      AboveRoot(Heap(store.nodes), t, node, node);
      if M / 2 <= node.len {
        HoleFilled(Heap(store.nodes), t, node);
        NotEmpty(h0, t0, Heap(store.nodes), t);
      }
    }

    /** One turn at a node with a parent. */
    method Turn(node: Node, parent: Node, isLeaf: bool, ghost h0: Cells, ghost t0: Shape, ghost t: Shape)
      returns (done: bool, ghost t1: Shape)
      requires Turning(h0, t0, t, node, isLeaf) && node.len < M / 2 && node.parent == parent
      modifies `places, `leaves, store`nodes, store`freed, store.nodes, store.buffers, store.edgeBuffers
      ensures store.nodes <= old(store.nodes)
      ensures if done then Holds(h0, t0, leaked) && 0 < length
              else
                && Turning(h0, t0, t1, parent, false) && node in t.places
                && t1.places[parent].height == t.places[node].height + 1
    {
      hide Arena, Heap, Node.Valid, Store.Valid, Buffered, Wf, FlatKeys, FlatVals, Kept, Holds, Rebalanced, Underfull;
      TurningAt(h0, t0, t, node, isLeaf);
      ghost var h := Heap(store.nodes);
      done, t1 := RebalanceAt(store, node, parent, node.parentIdx, isLeaf, t);
      RebalancedHolds(h0, t0, h, t, Heap(store.nodes), t1, node, parent, done);
      if done {
        NotEmpty(h0, t0, Heap(store.nodes), t1);
        Settle(h0, t0, t1);
      } else {
        HeapKeys(store.nodes);
      }
    }

    /** Makes a leaf with one entry the root of an empty map. */
    method InsertRoot(key: Key, val: Value)
      requires Valid() && root == null
      modifies `root, `length, `places, `leaves, store`nodes, store`buffers, store`edgeBuffers, store`allocs
      ensures Valid() && Outside() == old(Outside()) && Keys() == [key] && Vals() == [val]
      ensures root != null && Finds(root, 0, 0, true, key) && store.Grown()
    {
      hide Arena, Heap, Node.Valid, Store.Valid, Accounted, Buffered, FlatKeys, FlatVals, Wf, Store.Grown;
      ghost var h := Heap(store.nodes);
      HeapKeys(store.nodes);
      EntriesSorted();
      var leaf := NewLeaf(store, key, val);
      root := leaf;
      places, leaves := map[leaf := Place(0, NegInf, PosInf)], [leaf];
      length := length + 1;
      SingleOk(h, Heap(store.nodes), Tree(), key, val);
      SingleOutside(h, leaf, Cell(null, 0, [key], [val], null, null, []), leaked);
      HeapAtNew(store.nodes, h, leaf, Cell(null, 0, [key], [val], null, null, []));
    }

    /** Takes over the tree `t`, to which `t0` has been changed by inserting an entry at `p`. */
    ghost method SettleInserted(h0: Cells, t0: Shape, t: Shape, p: nat, key: Key, val: Value)
      requires Climbed(h0, t0, t, p, key, val)
      requires leaked <= h0.Keys && leaked !! t0.places.Keys && t0.places.Keys <= h0.Keys &&
               length == |FlatKeys(h0, t0.leaves)| + 1
      modifies this`places, this`leaves
      ensures HoldsInserted(h0, t0, p, key, val) && root != null
    {
      hide Store.Valid, Wf, Buffered, FlatKeys, FlatVals;
      KeptOutside(h0, t0, Heap(store.nodes), t, leaked);
      places, leaves := t.places, t.leaves;
    }

    /**
     * This map is in shape and has the entries of the tree `t0` in `h0` and one more, and nothing has changed outside
     * that tree.
     */
    ghost predicate HoldsInserted(h0: Cells, t0: Shape, p: nat, key: Key, val: Value)
      reads this, store, store.nodes, store.buffers, store.edgeBuffers
    {
      && Valid() && p <= |FlatKeys(h0, t0.leaves)| == |FlatVals(h0, t0.leaves)|
      && Keys() == Ins(FlatKeys(h0, t0.leaves), p, key) && Vals() == Ins(FlatVals(h0, t0.leaves), p, val)
      && Outside() == h0 - (t0.places.Keys + leaked)
    }

    /** `t` is a B+ tree again, and has one entry more than `t0`. */
    ghost predicate Climbed(h0: Cells, t0: Shape, t: Shape, p: nat, key: Key, val: Value)
      reads `root, `height, store, store.nodes, store.buffers, store.edgeBuffers
    {
      && store.Valid() && root == t.root && height == t.height && Wf(Heap(store.nodes), t, null)
      && Inserted(h0, t0, Heap(store.nodes), t, p, key, val)
    }

    /**
     * `node` has been split, `right` and its first key are still to be given to the parent, and all entries are
     * there.
     */
    ghost predicate Climbing(h0: Cells, t0: Shape, t: Shape, node: Node, median: Key, right: Node, p: nat, key: Key,
                             val: Value)
      reads `root, `height, store, store.nodes, store.buffers, store.edgeBuffers
    {
      && store.Valid() && root == t.root && height == t.height && node in store.nodes && right in store.nodes
      && Pending(Heap(store.nodes), t, node, median, right) && Inserted(h0, t0, Heap(store.nodes), t, p, key, val)
    }

    lemma ClimbingAt(h0: Cells, t0: Shape, t: Shape, node: Node, median: Key, right: Node, p: nat, key: Key, val: Value)
      requires Climbing(h0, t0, t, node, median, right, p, key, val)
      ensures node in t.places && t.places[node].height <= t.height == height
      ensures node.parent != null ==> node.parent in store.nodes && node.parent.len <= M
    {
      hide Arena, Heap, Node.Valid, Store.Valid, Buffered, Pending, Inserted;
      store.Use(node);
      PendingNodes(Heap(store.nodes), t, node, median, right);
      PendingHeight(Heap(store.nodes), t, node, median, right, node);
      if node.parent != null { store.Use(node.parent); }
    }

    /** The root has been split. */
    method ClimbRoot(node: Node, median: Key, right: Node, ghost h0: Cells, ghost t0: Shape, ghost t: Shape,
                     ghost p: nat, ghost key: Key, ghost val: Value) returns (ghost t1: Shape)
      requires Climbing(h0, t0, t, node, median, right, p, key, val) && node.parent == null
      modifies `root, `height, store`nodes, store`buffers, store`edgeBuffers, store`allocs, store.nodes, store.buffers,
               store.edgeBuffers
      ensures Climbed(h0, t0, t1, p, key, val) && store.Grown()
    {
      hide Arena, Heap, Node.Valid, Store.Valid, Buffered, Wf, Pending, Kept, Inserted;
      ghost var h := Heap(store.nodes);
      height := height + 1;
      root, t1 := GrowAt(store, node, median, right, t);
      InsertedKept(h0, t0, h, t, Heap(store.nodes), t1, p, key, val);
    }

    /** The parent has room. */
    method ClimbInto(node: Node, median: Key, right: Node, parent: Node, ghost h0: Cells, ghost t0: Shape,
                     ghost t: Shape,
                     ghost p: nat, ghost key: Key, ghost val: Value)
      requires Climbing(h0, t0, t, node, median, right, p, key, val) && node.parent == parent &&
               parent in store.nodes && parent.len < M
      modifies store.nodes, store.buffers, store.edgeBuffers
      ensures Climbed(h0, t0, t, p, key, val)
    {
      hide Arena, Heap, Node.Valid, Store.Valid, Store.Grown, Buffered, Wf, Pending, Kept, Inserted;
      ghost var h := Heap(store.nodes);
      AttachAt(store, node, median, right, parent, node.parentIdx, t);
      InsertedKept(h0, t0, h, t, Heap(store.nodes), t, p, key, val);
    }

    /** The parent is full and is split too. */
    method ClimbPast(node: Node, median: Key, right: Node, parent: Node, ghost h0: Cells, ghost t0: Shape,
                     ghost t: Shape,
                     ghost p: nat, ghost key: Key, ghost val: Value) returns (r: Node, k: Key, ghost t1: Shape)
      requires Climbing(h0, t0, t, node, median, right, p, key, val) && node.parent == parent &&
               parent in store.nodes && parent.len == M
      modifies store`nodes, store`buffers, store`edgeBuffers, store`allocs, store.nodes, store.buffers,
               store.edgeBuffers
      ensures Climbing(h0, t0, t1, parent, k, r, p, key, val) && store.Grown()
      ensures node in t.places && parent in t1.places && t.places[node].height < t1.places[parent].height <= height
    {
      hide Arena, Heap, Node.Valid, Store.Valid, Store.Grown, Buffered, Wf, Pending, Kept, Inserted;
      ghost var h := Heap(store.nodes);
      store.Use(node);
      PendingNodes(h, t, node, median, right);
      r, k, t1 := SplitInnerAt(store, node, median, right, parent, node.parentIdx, t);
      InsertedKept(h0, t0, h, t, Heap(store.nodes), t1, p, key, val);
      ClimbingAt(h0, t0, t1, parent, k, r, p, key, val);
    }

    /** One turn of the loop: `right` goes to the parent of `node`, or under a new root with it. */
    method ClimbOnce(node: Node, median: Key, right: Node, ghost h0: Cells, ghost t0: Shape, ghost t: Shape,
                     ghost p: nat, ghost key: Key, ghost val: Value)
      returns (parent: Node?, k: Key, r: Node, ghost t1: Shape)
      requires Climbing(h0, t0, t, node, median, right, p, key, val)
      modifies `root, `height, store`nodes, store`buffers, store`edgeBuffers, store`allocs, store.nodes, store.buffers,
               store.edgeBuffers
      ensures store.Grown() && node in t.places
      ensures if parent == null then Climbed(h0, t0, t1, p, key, val)
              else height == old(height) && Climbing(h0, t0, t1, parent, k, r, p, key, val) && parent in t1.places
                   && t.places[node].height < t1.places[parent].height <= height
    {
      hide Arena, Heap, Node.Valid, Store.Valid, Buffered, Climbing, Climbed;
      ClimbingAt(h0, t0, t, node, median, right, p, key, val);
      parent, k, r, t1 := node.parent, median, right, t;
      if parent == null {
        t1 := ClimbRoot(node, median, right, h0, t0, t, p, key, val);
      } else if parent.len < M {
        ClimbInto(node, median, right, parent, h0, t0, t, p, key, val);
        parent := null;
      } else {
        r, k, t1 := ClimbPast(node, median, right, parent, h0, t0, t, p, key, val);
      }
    }

    /** Gives the new right nodes to their parents, splitting full ones on the way up. */
    method ClimbUp(start: Node, k: Key, r: Node, ghost h0: Cells, ghost t0: Shape, ghost ts: Shape, ghost p: nat,
                   ghost key: Key, ghost val: Value)
      returns (ghost t: Shape)
      requires Climbing(h0, t0, ts, start, k, r, p, key, val)
      modifies `root, `height, store`nodes, store`buffers, store`edgeBuffers, store`allocs, store.nodes, store.buffers,
               store.edgeBuffers
      ensures Climbed(h0, t0, t, p, key, val) && store.Grown()
    {
      hide Arena, Heap, Node.Valid, Store.Valid, Buffered, Climbing, Climbed;
      ClimbingAt(h0, t0, ts, start, k, r, p, key, val);
      var node: Node, median, right := start, k, r;
      t := ts;
      while true
        invariant Climbing(h0, t0, t, node, median, right, p, key, val) && store.Grown()
        invariant node in t.places && t.places[node].height <= height
        decreases height - t.places[node].height
      {
        var parent;
        parent, median, right, t := ClimbOnce(node, median, right, h0, t0, t, p, key, val);
        if parent == null {
          break;
        }
        node := parent;
      }
    }

    method SplitAndClimb(node: Node, key: Key, val: Value, idx: nat, ghost q: nat) returns (ghost t: Shape)
      requires Valid() && Finds(node, q, idx, false, key) && node.len == M
      modifies `root, `height, store`nodes, store`buffers, store`edgeBuffers, store`allocs, store.nodes, store.buffers,
               store.edgeBuffers
      ensures Climbed(old(Heap(store.nodes)), old(Tree()), t, old(Position(Heap(store.nodes), leaves, q, idx)), key,
              val) && store.Grown()
    {
      hide Arena, Heap, Node.Valid, Store.Valid, Buffered, Climbing, Climbed, BTreeMap.Valid, Position;
      ghost var h0, t0, p0 := Heap(store.nodes), Tree(), Position(Heap(store.nodes), leaves, q, idx);
      var right, median;
      right, median, t := SplitStart(node, key, val, idx, q);
      t := ClimbUp(node, median, right, h0, t0, t, p0, key, val);
    }

    /** Inserts an entry before index `idx` of the leaf `node`. */
    method InsertBefore(key: Key, val: Value, node: Node, idx: nat, ghost q: nat)
      requires Valid() && Finds(node, q, idx, false, key)
      modifies `root, `length, `height, `places, `leaves
      modifies store`nodes, store`buffers, store`edgeBuffers, store`allocs, store.nodes, store.buffers,
               store.edgeBuffers
      ensures HoldsInserted(old(Heap(store.nodes)), old(Tree()), old(Position(Heap(store.nodes), leaves, q, idx)), key,
              val)
      ensures root != null && store.Grown()
    {
      hide Arena, Heap, Node.Valid, Store.Valid, BTreeMap.Valid, Buffered, Wf, FlatKeys, FlatVals, Inserted, Pending,
           Kept,
        HoldsInserted, Position, Climbing, Climbed, Finds;
      ReadyToInsert(node, q, idx, key);
      ghost var h0, t0, p0 := Heap(store.nodes), Tree(), Position(Heap(store.nodes), leaves, q, idx);
      ghost var t := t0;
      if node.len < M {
        InsertIntoLeaf(node, key, val, idx, q);
      } else {
        t := SplitAndClimb(node, key, val, idx, q);
      }
      length := length + 1;
      SettleInserted(h0, t0, t, p0, key, val);
    }

    lemma ReadyToInsert(node: Node, q: nat, idx: nat, key: Key)
      requires Valid() && Finds(node, q, idx, false, key)
      ensures root != null && q < |leaves| && node.len <= M && leaked !! places.Keys && length == |Keys()|
      ensures leaked <= Heap(store.nodes).Keys && places.Keys <= Heap(store.nodes).Keys
    {
      hide Arena, Heap, Node.Valid, Store.Valid, Buffered, Wf, FlatKeys, FlatVals, Position;
      HeapKeys(store.nodes);
      RootAt(Heap(store.nodes), Tree(), null);
      store.Use(node);
    }

    method InsertIntoLeaf(node: Node, key: Key, val: Value, idx: nat, ghost q: nat)
      requires Valid() && Finds(node, q, idx, false, key) && node.len < M
      modifies store.nodes, store.buffers, store.edgeBuffers
      ensures Climbed(old(Heap(store.nodes)), Tree(), Tree(), old(Position(Heap(store.nodes), leaves, q, idx)), key,
              val)
    {
      hide Arena, Heap, Node.Valid, Store.Valid, Buffered, Wf, FlatKeys, FlatVals, Inserted, Position, Ins;
      ghost var h, t := Heap(store.nodes), Tree();
      store.Use(node);
      LeafAt(h, t, q);
      node.InsertVal(idx, key, val, store.nodes);
      InsertValOk(h, t, q, idx, key, val, node.cell);
      InsertValEntries(h, t, q, idx, key, val, node.cell);
      store.Keep();
    }

    method SplitStart(node: Node, key: Key, val: Value, idx: nat, ghost q: nat)
      returns (right: Node, median: Key, ghost t: Shape)
      requires Valid() && Finds(node, q, idx, false, key) && node.len == M
      modifies store`nodes, store`buffers, store`edgeBuffers, store`allocs, store.nodes, store.buffers,
               store.edgeBuffers
      ensures Climbing(old(Heap(store.nodes)), Tree(), t, node, median, right,
              old(Position(Heap(store.nodes), leaves, q, idx)), key, val)
      ensures store.Grown()
    {
      hide Arena, Heap, Node.Valid, Store.Valid, Store.Grown, Buffered, Wf, FlatKeys, FlatVals, Inserted, Pending,
           Position;
      ghost var h, t0 := Heap(store.nodes), Tree();
      store.Use(node);
      CanSplitLeafHolds(h, t0, q, node, idx, key);
      right, median, t := SplitLeafAt(store, node, idx, key, val, t0, q);
    }

    /** Restores the B+ tree after the leaf `start` has lost an entry, going up as long as nodes are merged. */
    method PostRemoval(start: Node)
      requires store.Valid() && root != null && start in store.nodes && start in places && places[start].height == 0
      requires Wf(Heap(store.nodes), Tree(), start) && leaked <= store.nodes && leaked !! places.Keys &&
               length == |Keys()| + 1
      modifies `root, `length, `height, `places, `leaves, `leaked, store`nodes, store`freed, store.nodes, store.buffers,
               store.edgeBuffers
      ensures Holds(old(Heap(store.nodes)), old(Tree()), old(leaked)) && length == old(length) - 1
      ensures leaked == (if length == 0 then old(leaked) + {old(root)} else old(leaked))
      ensures store.nodes <= old(store.nodes)
    {
      hide Arena, Heap, Node.Valid, Store.Valid, Buffered, Wf, FlatKeys, FlatVals, Kept, Holds, Underfull;
      ghost var h0, t0 := Heap(store.nodes), Tree();
      HeapKeys(store.nodes);
      RootAt(h0, t0, start);
      KeptSame(h0, t0);
      length := length - 1;

      var node: Node, isLeaf := start, true;
      ghost var t := t0;
      assert Turning(h0, t0, t, node, isLeaf);
      hide Turning;
      while node.len < M / 2
        invariant Turning(h0, t0, t, node, isLeaf) && node in t.places && t.places[node].height <= t.height
        invariant store.nodes <= old(store.nodes) && leaked == old(leaked) && length == old(length) - 1
        decreases t.height - t.places[node].height
      {
        TurningAt(h0, t0, t, node, isLeaf);
        var parent := node.parent;
        if parent == null {
          ShrinkRoot(node, isLeaf, h0, t0, t);
          return;
        }
        var done;
        done, t := Turn(node, parent, isLeaf, h0, t0, t);
        if done {
          return;
        }
        node, isLeaf := parent, false;
        TurningAt(h0, t0, t, node, isLeaf);
      }
      TurningAt(h0, t0, t, node, isLeaf);
      Settle(h0, t0, t);
    }

    /** The leaf `node` loses its entry at `idx`. */
    method RemoveEntry(node: Node, idx: nat, ghost q: nat) returns (key: Key, val: Value)
      requires Valid() && root != null && q < |leaves| && leaves[q] == node && node in store.nodes &&
               idx < |node.cell.keys|
      modifies `root, `length, `height, `places, `leaves, `leaked, store`nodes, store`freed, store.nodes, store.buffers,
               store.edgeBuffers
      ensures Valid() && Outside() == old(Outside()) && store.nodes <= old(store.nodes) && length == old(length) - 1
      ensures var p := old(Position(Heap(store.nodes), leaves, q, idx));
              && p < |old(Keys())| == |old(Vals())| && Keys() == Del(old(Keys()), p) && Vals() == Del(old(Vals()), p)
              && key == old(Keys())[p] && val == old(Vals())[p]
      ensures leaked == (if length == 0 then old(leaked) + {old(root)} else old(leaked))
    {
      hide Arena, Heap, Node.Valid, Store.Valid, Buffered, Wf, FlatKeys, FlatVals, Position, Del;
      ghost var h, t := Heap(store.nodes), Tree();
      store.Use(node);
      LeafAt(h, t, q);
      key, val := node.RemoveVal(idx, store.nodes);
      RemoveValOk(h, t, q, idx, node.cell);
      RemoveValEntries(h, t, q, idx, node.cell);
      PatchOutside(h, node, node.cell, Owned());
      store.Keep();
      HeapKeys(store.nodes);
      PostRemoval(node);
    }

    /** The entry at `idx` of the leaf `node` gets another value. */
    method ReplaceEntry(node: Node, idx: nat, val: Value, ghost q: nat) returns (was: Value)
      requires Valid() && root != null && q < |leaves| && leaves[q] == node && node in store.nodes &&
               idx < |node.cell.keys|
      modifies store.nodes, store.buffers, store.edgeBuffers
      ensures Valid() && Outside() == old(Outside()) && Keys() == old(Keys())
      ensures var p := old(Position(Heap(store.nodes), leaves, q, idx));
              p < |old(Vals())| && Vals() == old(Vals())[p := val] && was == old(Vals())[p]
    {
      hide Arena, Heap, Node.Valid, Store.Valid, Buffered, Wf, FlatKeys, FlatVals, Position;
      ghost var h, t := Heap(store.nodes), Tree();
      store.Use(node);
      LeafAt(h, t, q);
      was := node.ReplaceVal(idx, val, store.nodes);
      SetValOk(h, t, q, idx, val, node.cell);
      SetValEntries(h, t, q, idx, val, node.cell);
      PatchOutside(h, node, node.cell, Owned());
      store.Keep();
    }

    /** The empty map gets its first entry. */
    method InsertFirst(key: Key, val: Value)
      requires Valid() && root == null
      modifies `root, `length, `places, `leaves, store`nodes, store`buffers, store`edgeBuffers, store`allocs
      ensures Valid() && Outside() == old(Outside()) && store.Grown() && root != null && Finds(root, 0, 0, true, key)
      ensures Contents() == old(Contents())[key := val]
    {
      hide Arena, Heap, Node.Valid, Store.Valid, Store.Grown, Buffered, Wf, FlatKeys, FlatVals, ToMap;
      EntriesSorted();
      ToMapSingle(key, val);
      InsertRoot(key, val);
    }

    /** A key that the map does not have is inserted where it belongs. */
    method InsertNew(key: Key, val: Value, node: Node, idx: nat, ghost q: nat)
      requires Valid() && Finds(node, q, idx, false, key)
      modifies `root, `length, `height, `places, `leaves
      modifies store`nodes, store`buffers, store`edgeBuffers, store`allocs, store.nodes, store.buffers,
               store.edgeBuffers
      ensures Valid() && Outside() == old(Outside()) && store.Grown() && root != null
      ensures Contents() == old(Contents())[key := val]
    {
      hide Arena, Heap, Node.Valid, Store.Valid, Store.Grown, Buffered, Wf, FlatKeys, FlatVals, Position, ToMap, Ins;
      EntriesSorted();
      ToMapIns(Keys(), Vals(), Position(Heap(store.nodes), leaves, q, idx), key, val);
      InsertBefore(key, val, node, idx, q);
    }

    /** A key that the map has gets another value. */
    method Overwrite(ghost key: Key, val: Value, node: Node, idx: nat, ghost q: nat) returns (was: Value)
      requires Valid() && Finds(node, q, idx, true, key)
      modifies store.nodes, store.buffers, store.edgeBuffers
      ensures Valid() && Outside() == old(Outside()) && root != null
      ensures key in old(Contents()) && Contents() == old(Contents())[key := val] && was == old(Contents())[key]
    {
      hide Arena, Heap, Node.Valid, Store.Valid, Buffered, Wf, FlatKeys, FlatVals, Position, ToMap;
      EntriesSorted();
      ToMapSet(Keys(), Vals(), Position(Heap(store.nodes), leaves, q, idx), val);
      was := ReplaceEntry(node, idx, val, q);
    }

    /** A key that the map has is removed. */
    method RemoveFound(ghost key: Key, node: Node, idx: nat, ghost q: nat) returns (k: Key, v: Value)
      requires Valid() && Finds(node, q, idx, true, key)
      modifies `root, `length, `height, `places, `leaves, `leaked, store`nodes, store`freed, store.nodes, store.buffers,
               store.edgeBuffers
      ensures Valid() && Outside() == old(Outside()) && store.nodes <= old(store.nodes)
      ensures key in old(Contents()) && Contents() == old(Contents()) - {key} && k == key && v == old(Contents())[key]
      ensures leaked == old(leaked) + (if root == null then Opt(old(root)) else {})
    {
      hide Arena, Heap, Node.Valid, Store.Valid, Buffered, Wf, FlatKeys, FlatVals, Position, Del, ToMap;
      EntriesSorted();
      ToMapDel(Keys(), Vals(), Position(Heap(store.nodes), leaves, q, idx));
      k, v := RemoveEntry(node, idx, q);
      EntriesSorted();
    }

    /** Inserts the entry, and returns the value that the key had. */
    method Insert(key: Key, val: Value) returns (r: Option<Value>)
      requires Valid()
      modifies `root, `length, `height, `places, `leaves
      modifies store`nodes, store`buffers, store`edgeBuffers, store`allocs, store.nodes, store.buffers,
               store.edgeBuffers
      ensures Valid() && Outside() == old(Outside()) && store.Grown()
      ensures Contents() == old(Contents())[key := val]
      ensures r == if key in old(Contents()) then Some(old(Contents())[key]) else None
    {
      hide Arena, Heap, Node.Valid, Store.Valid, BTreeMap.Valid, Contents, Outside, Finds;
      var find, q, _ := FindKey(key);
      match find
      case NoRoot =>
        InsertFirst(key, val);
        r := None;
      case Before(node, idx) =>
        InsertNew(key, val, node, idx, q);
        r := None;
      case At(node, idx) =>
        var was := Overwrite(key, val, node, idx, q);
        r := Some(was);
    }

    /** Where the key has been found its value is stored. */
    lemma ValThere(key: Key, node: Node, idx: nat, q: nat)
      requires Valid() && Finds(node, q, idx, true, key)
      ensures node in store.nodes && idx < node.vals.Length
      ensures key in Contents() && node.vals[idx] == Contents()[key]
    {
      hide Arena, Heap, Store.Valid, Buffered, Wf, FlatKeys, FlatVals, Position;
      store.Use(node);
      EntriesSorted();
      ToMapAt(Keys(), Vals());
      EntryAt(Heap(store.nodes), Tree(), null, q, idx);
      LeafAt(Heap(store.nodes), Tree(), q);
      node.ArenaAt(store.nodes);
    }

    /** The value at an address where the key has been found. */
    method ValAt(ghost key: Key, node: Node, idx: nat, ghost q: nat) returns (val: Value)
      requires Valid() && Finds(node, q, idx, true, key)
      ensures key in Contents() && val == Contents()[key]
    {
      hide BTreeMap.Valid, Contents, Finds;
      ValThere(key, node, idx, q);
      val := node.vals[idx];
    }

    method Get(key: Key) returns (r: Option<Value>)
      requires Valid()
      ensures r == if key in Contents() then Some(Contents()[key]) else None
    {
      hide Arena, Heap, Node.Valid, Store.Valid, BTreeMap.Valid, Contents, Finds;
      var find, q, _ := FindKey(key);
      if find.At? {
        var val := ValAt(key, find.node, find.idx, q);
        r := Some(val);
      } else {
        r := None;
      }
    }

    /** Inserts a key that the map does not have, and returns the address of its value. */
    method InsertAndFind(key: Key, val: Value, node: Node, idx: nat, ghost q: nat)
      returns (node1: Node, idx1: nat, ghost q1: nat)
      requires Valid() && Finds(node, q, idx, false, key)
      modifies `root, `length, `height, `places, `leaves
      modifies store`nodes, store`buffers, store`edgeBuffers, store`allocs, store.nodes, store.buffers,
               store.edgeBuffers
      ensures Valid() && Outside() == old(Outside()) && store.Grown() && Finds(node1, q1, idx1, true, key)
      ensures Contents() == old(Contents())[key := val]
    {
      hide Arena, Heap, Node.Valid, Store.Valid, BTreeMap.Valid, Contents, Outside, Finds;
      InsertNew(key, val, node, idx, q);
      var find;
      ghost var visits;
      find, q1, visits := FindKey(key);
      node1, idx1 := find.node, find.idx;
    }

    /** The address of the value of the key, which is inserted with `val` if the map does not have it. */
    method GetOrInsert(key: Key, val: Value) returns (node: Node, idx: nat, ghost q: nat)
      requires Valid()
      modifies `root, `length, `height, `places, `leaves
      modifies store`nodes, store`buffers, store`edgeBuffers, store`allocs, store.nodes, store.buffers,
               store.edgeBuffers
      ensures Valid() && Outside() == old(Outside()) && store.Grown() && Finds(node, q, idx, true, key)
      ensures Contents() == if key in old(Contents()) then old(Contents()) else old(Contents())[key := val]
      ensures node in store.nodes && idx < node.vals.Length && node.vals[idx] == Contents()[key]
    {
      hide Arena, Heap, Node.Valid, Store.Valid, BTreeMap.Valid, Contents, Outside, Finds;
      var find;
      ghost var visits;
      find, q, visits := FindKey(key);
      match find {
      case NoRoot =>
        InsertFirst(key, val);
        node, idx, q := root, 0, 0;
      case Before(n, i) =>
        node, idx, q := InsertAndFind(key, val, n, i, q);
      case At(n, i) =>
        node, idx := n, i;
      }
      ValThere(key, node, idx, q);
    }

    /**
     * Replaces what the map has for the key, an optional value, by what `update` makes of it, and returns the result
     * of that. If `update` panics the key is removed, and the panic goes on.
     */
    method UpdateAndReturn<R>(key: Key, update: Option<Value> -> Outcome<R>) returns (r: Option<R>)
      requires Valid()
      modifies `root, `length, `height, `places, `leaves, `leaked
      modifies store`nodes, store`buffers, store`edgeBuffers, store`allocs, store`freed, store.nodes, store.buffers,
               store.edgeBuffers
      ensures Valid() && Outside() == old(Outside()) && store.Grown()
      ensures match update(if key in old(Contents()) then Some(old(Contents())[key]) else None)
              case Panics => r == None && Contents() == old(Contents()) - {key}
              case Returns(None, result) => r == Some(result) && Contents() == old(Contents()) - {key}
              case Returns(Some(v), result) => r == Some(result) && Contents() == old(Contents())[key := v]
      ensures leaked == old(leaked) + (if root == null then Opt(old(root)) else {})
    {
      hide Arena, Heap, Node.Valid, Store.Valid, BTreeMap.Valid, Contents, Outside, Finds;
      var find, q, _ := FindKey(key);
      match find
      case NoRoot =>
        r := UpdateMissing(key, update, find, q);
      case At(node, idx) =>
        r := UpdateFound(key, update, node, idx, q);
      case Before(_, _) =>
        r := UpdateMissing(key, update, find, q);
    }

    method UpdateMissing<R>(key: Key, update: Option<Value> -> Outcome<R>, find: Find, ghost q: nat)
      returns (r: Option<R>)
      requires Valid() && key !in Contents()
      requires (find == NoRoot && root == null) || (find.Before? && Finds(find.node, q, find.idx, false, key))
      modifies `root, `length, `height, `places, `leaves
      modifies store`nodes, store`buffers, store`edgeBuffers, store`allocs, store.nodes, store.buffers,
               store.edgeBuffers
      ensures Valid() && Outside() == old(Outside()) && store.Grown() && (old(root) != null ==> root != null)
      ensures match update(None)
              case Panics => r == None && Contents() == old(Contents())
              case Returns(None, result) => r == Some(result) && Contents() == old(Contents())
              case Returns(Some(v), result) => r == Some(result) && Contents() == old(Contents())[key := v]
    {
      hide Arena, Heap, Node.Valid, Store.Valid, BTreeMap.Valid, Contents, Outside, Finds;
      var u := update(None);
      if u.Returns? && u.val.Some? {
        if find == NoRoot {
          InsertFirst(key, u.val.value);
        } else {
          InsertNew(key, u.val.value, find.node, find.idx, q);
        }
      }
      r := if u.Returns? then Some(u.result) else None;
    }

    method UpdateFound<R>(key: Key, update: Option<Value> -> Outcome<R>, node: Node, idx: nat, ghost q: nat)
      returns (r: Option<R>)
      requires Valid() && Finds(node, q, idx, true, key)
      modifies `root, `length, `height, `places, `leaves, `leaked, store`nodes, store`freed, store.nodes, store.buffers,
               store.edgeBuffers
      ensures Valid() && Outside() == old(Outside()) && store.Grown()
      ensures match update(if key in old(Contents()) then Some(old(Contents())[key]) else None)
              case Panics => r == None && Contents() == old(Contents()) - {key}
              case Returns(None, result) => r == Some(result) && Contents() == old(Contents()) - {key}
              case Returns(Some(v), result) => r == Some(result) && Contents() == old(Contents())[key := v]
      ensures leaked == old(leaked) + (if root == null then Opt(old(root)) else {})
    {
      hide Arena, Heap, Node.Valid, Store.Valid, BTreeMap.Valid, Contents, Outside, Finds;
      var val := ValAt(key, node, idx, q);
      var u := update(Some(val));
      if u.Returns? && u.val.Some? {
        var _ := Overwrite(key, u.val.value, node, idx, q);
      } else {
        var _, _ := RemoveFound(key, node, idx, q);
      }
      r := if u.Returns? then Some(u.result) else None;
    }

    /** Inserts the entries one after the other, so that of several values for a key the last one stays. */
    method Extend(items: seq<(Key, Value)>)
      requires Valid()
      modifies `root, `length, `height, `places, `leaves
      modifies store`nodes, store`buffers, store`edgeBuffers, store`allocs, store.nodes, store.buffers,
               store.edgeBuffers
      ensures Valid() && Outside() == old(Outside()) && store.Grown()
      ensures Contents() == Extended(old(Contents()), items)
      ensures forall k :: k in Contents() <==>
                k in old(Contents()) || exists i :: 0 <= i < |items| && items[i].0 == k
      ensures forall i :: 0 <= i < |items| && (forall j :: i < j < |items| ==> items[j].0 != items[i].0) ==>
                items[i].0 in Contents() && Contents()[items[i].0] == items[i].1
      ensures forall k :: k in old(Contents()) && (forall i :: 0 <= i < |items| ==> items[i].0 != k) ==>
                k in Contents() && Contents()[k] == old(Contents())[k]
    {
      hide Arena, Heap, Node.Valid, Store.Valid, BTreeMap.Valid, Contents, Outside;
      ghost var m := Contents();
      for i := 0 to |items|
        invariant Valid() && Outside() == old(Outside()) && store.Grown()
        invariant Contents() == Extended(m, items[..i])
      {
        assert items[..i + 1][..i] == items[..i];
        var _ := Insert(items[i].0, items[i].1);
      }
      assert items[..|items|] == items;
      ExtendedAt(m, items);
    }

    /** Removes the key, and returns what was stored for it. */
    method RemoveKeyValue(key: Key) returns (r: Option<(Key, Value)>)
      requires Valid()
      modifies `root, `length, `height, `places, `leaves, `leaked, store`nodes, store`freed, store.nodes, store.buffers,
               store.edgeBuffers
      ensures Valid() && Outside() == old(Outside()) && store.nodes <= old(store.nodes)
      ensures Contents() == old(Contents()) - {key}
      ensures r == if key in old(Contents()) then Some((key, old(Contents())[key])) else None
      ensures r.None? ==> Heap(store.nodes) == old(Heap(store.nodes)) && Tree?() == old(Tree?())
      ensures leaked == old(leaked) + (if root == null then Opt(old(root)) else {})
    {
      hide Arena, Heap, Node.Valid, Store.Valid, BTreeMap.Valid, Contents, Outside, Finds;
      var find, q, _ := FindKey(key);
      match find
      case NoRoot => r := None;
      case Before(_, _) => r := None;
      case At(node, idx) =>
        var k, v := RemoveFound(key, node, idx, q);
        r := Some((k, v));
    }

    method Remove(key: Key) returns (r: Option<Value>)
      requires Valid()
      modifies `root, `length, `height, `places, `leaves, `leaked, store`nodes, store`freed, store.nodes, store.buffers,
               store.edgeBuffers
      ensures Valid() && Outside() == old(Outside()) && store.nodes <= old(store.nodes)
      ensures Contents() == old(Contents()) - {key}
      ensures r == if key in old(Contents()) then Some(old(Contents())[key]) else None
      ensures leaked == old(leaked) + (if root == null then Opt(old(root)) else {})
    {
      hide Arena, Heap, Node.Valid, Store.Valid, Buffered, Wf, FlatKeys, FlatVals, ToMap;
      var kv := RemoveKeyValue(key);
      r := if kv.Some? then Some(kv.value.1) else None;
    }

    method FirstLeaf() returns (leaf: Node?)
      requires Valid()
      ensures if root == null then leaf == null else leaves != [] && leaf == leaves[0]
    {
      hide Arena, Heap, Node.Valid, Store.Valid, Buffered, Wf, FlatKeys, FlatVals;
      if root == null {
        return null;
      }
      ghost var h, t := Heap(store.nodes), Tree();
      RootAt(h, t, null);
      HeapKeys(store.nodes);
      var node: Node := root;
      for i := 0 to height
        invariant node in store.nodes && node in places && places[node].height == height - i &&
                  places[node].lo == NegInf
      {
        store.Use(node);
        Child(h, t, null, node, 0);
        node := EdgeAt(node, 0, store.nodes);
      }
      EndLeaf(h, t, node);
      leaf := node;
    }

    method LastLeaf() returns (leaf: Node?)
      requires Valid()
      ensures if root == null then leaf == null else leaves != [] && leaf == leaves[|leaves| - 1]
    {
      hide Arena, Heap, Node.Valid, Store.Valid, Buffered, Wf, FlatKeys, FlatVals;
      if root == null {
        return null;
      }
      ghost var h, t := Heap(store.nodes), Tree();
      RootAt(h, t, null);
      HeapKeys(store.nodes);
      var node: Node := root;
      for i := 0 to height
        invariant node in store.nodes && node in places && places[node].height == height - i &&
                  places[node].hi == PosInf
      {
        store.Use(node);
        Child(h, t, null, node, node.len);
        node := EdgeAt(node, node.len, store.nodes);
      }
      EndLeaf(h, t, node);
      leaf := node;
    }

    /** Removes the entry with the smallest key. */
    method PopFirst() returns (r: Option<(Key, Value)>)
      requires Valid()
      modifies `root, `length, `height, `places, `leaves, `leaked, store`nodes, store`freed, store.nodes, store.buffers,
               store.edgeBuffers
      ensures Valid() && Outside() == old(Outside()) && store.nodes <= old(store.nodes)
      ensures r.None? <==> old(Keys()) == []
      ensures r.None? ==> Keys() == [] && Vals() == []
      ensures r.Some? ==> old(Keys()) == [r.value.0] + Keys() && old(Vals()) == [r.value.1] + Vals()
      ensures leaked == old(leaked) + (if root == null then Opt(old(root)) else {})
    {
      hide Arena, Heap, Node.Valid, Store.Valid, Buffered, Accounted, Wf, FlatKeys, FlatVals, Position;
      EntriesSorted();
      var leaf := FirstLeaf();
      if leaf == null {
        return None;
      }
      EndEntries(Heap(store.nodes), Tree());
      HeapKeys(store.nodes);
      store.Use(leaf);
      var key, val := RemoveEntry(leaf, 0, 0);
      r := Some((key, val));
      EntriesSorted();
    }

    /** Removes the entry with the largest key. */
    method PopLast() returns (r: Option<(Key, Value)>)
      requires Valid()
      modifies `root, `length, `height, `places, `leaves, `leaked, store`nodes, store`freed, store.nodes, store.buffers,
               store.edgeBuffers
      ensures Valid() && Outside() == old(Outside()) && store.nodes <= old(store.nodes)
      ensures r.None? <==> old(Keys()) == []
      ensures r.None? ==> Keys() == [] && Vals() == []
      ensures r.Some? ==> old(Keys()) == Keys() + [r.value.0] && old(Vals()) == Vals() + [r.value.1]
      ensures leaked == old(leaked) + (if root == null then Opt(old(root)) else {})
    {
      hide Arena, Heap, Node.Valid, Store.Valid, Buffered, Accounted, Wf, FlatKeys, FlatVals, Position;
      EntriesSorted();
      var leaf := LastLeaf();
      if leaf == null {
        return None;
      }
      EndEntries(Heap(store.nodes), Tree());
      HeapKeys(store.nodes);
      store.Use(leaf);
      var idx := leaf.len - 1;
      var key, val := RemoveEntry(leaf, idx, |leaves| - 1);
      r := Some((key, val));
      EntriesSorted();
    }

    /** The nodes of the tree, each before its parent. */
    ghost function Nodes(): seq<Node>
      reads this, store, store.nodes
    {
      if root == null then [] else PostOrder(Heap(store.nodes), root, height)
    }

    /** Takes the root and deallocates exactly the nodes of the tree, each once and each before its parent. */
    method DropNodes()
      requires Valid()
      modifies `root, `places, `leaves, store`nodes, store`freed, store.nodes, store.buffers, store.edgeBuffers
      ensures root == null && places == map[] && leaves == [] && store.Valid()
      ensures store.nodes == old(store.nodes) - old(places.Keys) && store.freed == old(store.freed) + old(Nodes())
      ensures Outside() == old(Outside()) && leaked <= store.nodes
    {
      hide Arena, Heap, Node.Valid, Store.Valid, Wf, PostOrder, FlatKeys;
      if root != null {
        var node := root;
        ghost var h, t := Heap(store.nodes), Tree();
        root := null;
        DropTree(store, node, height, t);
        LessOutside(h, t.places.Keys, leaked);
        places, leaves := map[], [];
      }
    }

    /** Drops the map. */
    method Drop()
      requires Valid()
      modifies `root, `places, `leaves, store`nodes, store`freed, store.nodes, store.buffers, store.edgeBuffers
      ensures store.Valid() && store.nodes == old(store.nodes) - old(places.Keys) &&
              store.freed == old(store.freed) + old(Nodes())
      ensures Outside() == old(Outside())
    {
      DropNodes();
    }

    /**
     * Clears the map. The height stays, so afterwards the map is only in shape if the tree was a single leaf or there
     * was none.
     */
    method Clear()
      requires Valid()
      modifies `root, `places, `leaves, `length, store`nodes, store`freed, store.nodes, store.buffers,
               store.edgeBuffers
      ensures root == null && length == 0 && height == old(height) && Keys() == []
      ensures Valid() <==> old(height) == 0
      ensures store.Valid() && store.nodes == old(store.nodes) - old(places.Keys) &&
              store.freed == old(store.freed) + old(Nodes())
      ensures Outside() == old(Outside())
    {
      hide Arena, Heap, Node.Valid, Store.Valid, Wf, Nodes;
      DropNodes();
      length := 0;
    }

    /** Gives up the tree `t`, an empty leaf. */
    ghost method Abandon(h0: Cells, t0: Shape, t: Shape, node: Node)
      requires store.Valid() && root == null && height == 0 && t.places.Keys == {node} && node in store.nodes
      requires FlatKeys(Heap(store.nodes), t.leaves) == [] && FlatVals(Heap(store.nodes), t.leaves) == []
      requires Kept(h0, t0, Heap(store.nodes), t) && CanHold(h0, t0)
      modifies `places, `leaves, `leaked
      ensures Holds(h0, t0, old(leaked)) && leaked == old(leaked) + {node}
    {
      hide Store.Valid, Buffered;
      KeptOutside(h0, t0, Heap(store.nodes), t, leaked);
      places, leaves, leaked := map[], [], leaked + {node};
      assert Owned() == t.places.Keys + old(leaked);
    }
  }

  /** Deallocates `node`, and `child` loses its parent. */
  method RemoveParent(st: Store, node: Node, child: Node)
    requires st.Valid() && node in st.nodes && child in st.nodes && node != child
    modifies st`nodes, st`freed, child`parent, child`cell, node, node.keys, node.vals, node.edges
    ensures st.Valid() && st.nodes == old(st.nodes) - {node}
    ensures child in old(Heap(st.nodes))
    ensures var h := old(Heap(st.nodes)); Heap(st.nodes) == (h - {node})[child := h[child].(parent := null)]
  {
    hide Arena, Heap, Node.Valid, Store.Valid, Buffered, Accounted;
    st.Use(child);
    st.Dealloc(node);
    st.Use(child);
    child.ClearParent(st.nodes);
    st.Keep();
  }

  lemma LessOutside(H: Cells, K: set<Node>, L: set<Node>)
    ensures (H - K) - L == H - (K + L)
    ensures (H - K).Keys == H.Keys - K
  {
  }

  lemma {:induction false} TreeLive(S: set<Node>, t: Shape)
    requires Arena(S) && Wf(Heap(S), t, null)
    ensures var s := PostOrder(Heap(S), t.root, t.height);
            AllLive(Heap(S), Heap(S), s) && Elems(s) == t.places.Keys && t.places.Keys <= S
  {
    hide Arena, Wf, PostOrder;
    TreeIsPostOrder(Heap(S), t, null);
    RootAt(Heap(S), t, null);
    HeapKeys(S);
  }

  /** Deallocates exactly the nodes of the tree. */
  method DropTree(st: Store, node: Node, height: nat, ghost t: Shape)
    requires st.Valid() && Wf(Heap(st.nodes), t, null) && t.root == node && t.height == height
    modifies st`nodes, st`freed, st.nodes, st.buffers, st.edgeBuffers
    ensures st.Valid() && t.places.Keys <= old(st.nodes) && st.nodes == old(st.nodes) - t.places.Keys
    ensures st.freed == old(st.freed) + PostOrder(old(Heap(st.nodes)), node, height)
    ensures Heap(st.nodes) == old(Heap(st.nodes)) - t.places.Keys
  {
    hide Arena, Node.Valid, Store.Valid, Wf, PostOrder, AllLive, Elems;
    ghost var h := Heap(st.nodes);
    RootAt(h, t, null);
    st.Parts();
    TreeLive(st.nodes, t);
    HeapKeys(st.nodes);
    DropNodePtr(st, node, height, h, t);
    HeapKeys(st.nodes);
  }

  lemma LoweredRoot(t: Shape, c: Node)
    requires t.height > 0
    ensures Lowered(t, c).root == c && Lowered(t, c).height == t.height - 1
  {
  }

  /** The leaf without a lower bound is the first one, and the one without an upper bound the last one. */
  lemma EndLeaf(H: Cells, t: Shape, n: Node)
    requires Wf(H, t, null) && n in t.places && t.places[n].height == 0
    ensures t.leaves != []
    ensures t.places[n].lo == NegInf ==> n == t.leaves[0]
    ensures t.places[n].hi == PosInf ==> n == t.leaves[|t.leaves| - 1]
  {
    var ls := t.leaves;
    var k :| 0 <= k < |ls| && ls[k] == n;
    assert LinkAt(H, t.places, ls, k) && LocalOk(H, t.places, n);
    if k > 0 {
      assert LinkAt(H, t.places, ls, k - 1) && LocalOk(H, t.places, ls[k - 1]);
    }
    if k + 1 < |ls| {
      assert LinkAt(H, t.places, ls, k + 1) && LocalOk(H, t.places, ls[k + 1]);
    }
  }

  /** Where the first and the last entry of a tree are. */
  lemma {:induction false} EndEntries(H: Cells, t: Shape)
    requires Wf(H, t, null)
    ensures t.leaves != [] && t.leaves[0] in H && Position(H, t.leaves, 0, 0) == 0 && 0 < |H[t.leaves[0]].keys|
    ensures var l := |t.leaves| - 1;
            && t.leaves[l] in H && 0 < |H[t.leaves[l]].keys|
            && Position(H, t.leaves, l, |H[t.leaves[l]].keys| - 1) == |FlatKeys(H, t.leaves)| - 1
  {
    var l := |t.leaves| - 1;
    assert LinkAt(H, t.places, t.leaves, 0) && LinkAt(H, t.places, t.leaves, l);
    assert FillOk(H, t.root, null, t.leaves[0]) && FillOk(H, t.root, null, t.leaves[l]);
    FlatSplit(H, t.leaves, l);
    assert FlatKeys(H, t.leaves[l + 1..]) == [];
  }

  lemma PatchOutside(H: Cells, n: Node, c: Cell, owned: set<Node>)
    requires n in owned
    ensures H[n := c] - owned == H - owned
  {
  }

  lemma LeafAt(H: Cells, t: Shape, q: nat)
    requires Wf(H, t, null) && q < |t.leaves|
    ensures t.leaves[q] in H && t.leaves[q] in t.places && t.places[t.leaves[q]].height == 0
    ensures var c := H[t.leaves[q]]; |c.vals| == |c.keys| && c.edges == []
  {
    assert LinkAt(H, t.places, t.leaves, q) && LocalOk(H, t.places, t.leaves[q]);
  }

  lemma {:induction false} ToMapSingle(key: Key, val: Value)
    ensures ToMap([], []) == map[] && ToMap([key], [val]) == map[key := val]
  {
    assert [key][1..] == [] && [val][1..] == [];
  }

  lemma CanSplitLeafHolds(H: Cells, t: Shape, q: nat, n: Node, i: nat, key: Key)
    requires Wf(H, t, null) && q < |t.leaves| && t.leaves[q] == n && n in H && Covers(t.places, n, key) &&
             t.places[n].height == 0
    requires |H[n].keys| == M && Splits(H[n].keys, i, key)
    ensures CanSplitLeaf(H, t, q, n, i, key)
  {
    LocalAt(H, t, null, n);
    assert LinkAt(H, t.places, t.leaves, q);
    if q + 1 < |t.leaves| {
      assert LinkAt(H, t.places, t.leaves, q + 1);
      ChainOrder(H, t.places, t.leaves, q, q + 1);
    }
  }

  /** A new leaf with one entry. */
  method NewLeaf(st: Store, key: Key, val: Value) returns (leaf: Node)
    requires st.Valid()
    modifies st`nodes, st`buffers, st`edgeBuffers, st`allocs
    ensures st.Valid() && st.Grown() && st.nodes == old(st.nodes) + {leaf} && leaf !in old(Heap(st.nodes))
    ensures Heap(st.nodes) == old(Heap(st.nodes))[leaf := Cell(null, 0, [key], [val], null, null, [])]
  {
    hide Arena, Node.Valid, Store.Valid;
    leaf := NewSingle(key, val);
    st.Alloc(leaf);
  }

  method NewSingle(key: Key, val: Value) returns (leaf: Node)
    ensures fresh(leaf) && leaf.Valid() && fresh(leaf.keys) && fresh(leaf.vals) && fresh(leaf.edges)
    ensures leaf.cell == Cell(null, 0, [key], [val], null, null, [])
  {
    leaf := new Node.Leaf();
    leaf.InsertVal(0, key, val, {leaf});
  }

  /** A single leaf with one entry is a B+ tree. */
  lemma {:induction false} SingleOk(H: Cells, H1: Cells, t: Shape, key: Key, val: Value)
    requires t == Shape(t.root, 0, map[t.root := Place(0, NegInf, PosInf)], [t.root])
    requires H1 == H[t.root := Cell(null, 0, [key], [val], null, null, [])]
    ensures Wf(H1, t, null) && FlatKeys(H1, t.leaves) == [key] && FlatVals(H1, t.leaves) == [val] &&
            Position(H1, t.leaves, 0, 0) == 0
  {
    assert LinkAt(H1, t.places, t.leaves, 0);
    assert t.leaves[1..] == [];
  }

  lemma HeapAtNew(S: set<Node>, h: Cells, n: Node, c: Cell)
    requires Heap(S) == h[n := c]
    ensures n in S && n.cell == c
  {
    assert n in Heap(S) && Heap(S)[n] == c;
  }

  lemma SingleOutside(H: Cells, n: Node, c: Cell, leaked: set<Node>)
    requires n !in H && leaked <= H.Keys
    ensures H[n := c] - ({n} + leaked) == H - leaked && n !in leaked
  {
  }

  lemma {:induction false} NotEmpty(H0: Cells, t0: Shape, H: Cells, t: Shape)
    requires Wf(H, t, null) && Kept(H0, t0, H, t)
    ensures 0 < |FlatKeys(H0, t0.leaves)|
  {
    if t.height == 0 {
      LocalAt(H, t, null, t.root);
      RootLeaf(H, t, null);
    } else {
      TallNotEmpty(H, t, null);
    }
  }

  lemma KeptSame(H: Cells, t: Shape)
    ensures Kept(H, t, H, t)
  {
  }

  lemma RebalancedHolds(h0: Cells, t0: Shape, h: Cells, t: Shape, h1: Cells, t1: Shape, node: Node, p: Node, done: bool)
    requires Kept(h0, t0, h, t) && Rebalanced(h, t, h1, t1, p, done)
    requires p in t.places && node in t.places && t.places[p].height == t.places[node].height + 1
    ensures t1.root == t.root && t1.height == t.height && Wf(h1, t1, if done then null else p) && Kept(h0, t0, h1, t1)
    ensures !done ==> p in t1.places && t1.places[p].height == t.places[node].height + 1 && p in h1
  {
    hide Wf;
    KeptTwice(h0, t0, h, t, h1, t1);
    RootAt(h1, t1, if done then null else p);
  }

  lemma {:induction false} KeptEntries(H0: Cells, t0: Shape, H1: Cells, t1: Shape)
    requires Kept(H0, t0, H1, t1)
    ensures FlatKeys(H1, t1.leaves) == FlatKeys(H0, t0.leaves) && FlatVals(H1, t1.leaves) == FlatVals(H0, t0.leaves)
  {
  }

  lemma KeptTwice(H0: Cells, t0: Shape, H1: Cells, t1: Shape, H2: Cells, t2: Shape)
    requires Kept(H0, t0, H1, t1) && Kept(H1, t1, H2, t2)
    ensures Kept(H0, t0, H2, t2)
  {
  }

  lemma KeptOutside(H0: Cells, t0: Shape, H1: Cells, t1: Shape, leaked: set<Node>)
    requires H1 - t1.places.Keys == H0 - t0.places.Keys && leaked <= H0.Keys && leaked !! t0.places.Keys
    ensures leaked <= H1.Keys && leaked !! t1.places.Keys
    ensures H1 - (t1.places.Keys + leaked) == H0 - (t0.places.Keys + leaked)
  {
    var r := H0 - t0.places.Keys;
    assert leaked <= r.Keys;
    assert r == H1 - t1.places.Keys;
    assert H1 - (t1.places.Keys + leaked) == r - leaked == H0 - (t0.places.Keys + leaked);
  }
}
