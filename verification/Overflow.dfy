/** The steps of an insertion that overflows a node, in place. */
module Overflow {
  import opened Seqs
  import opened Nodes
  import opened Stores
  import opened Trees
  import opened Contents
  import opened Entries
  import opened Insertion
  import opened Rebalance
  import opened Removal

  // ---- the steps as changes of the heap ----

  /** The heap after the full leaf `node` has been split, and before the chain goes through `right`. */
  ghost function LeafHalved(H: Cells, node: Node, idx: nat, key: Key, val: Value, right: Node): Cells
    requires node in H && idx <= |H[node].keys| == |H[node].vals| && |H[node].keys| == M
  {
    var ks, vs := Ins(H[node].keys, idx, key), Ins(H[node].vals, idx, val);
    H[node := H[node].(keys := ks[..M / 2], vals := vs[..M / 2])][right := Cell(null, 0, ks[M / 2..], vs[M / 2..], null,
      H[node].next, [])]
  }

  ghost predicate CanHalve(H: Cells, node: Node, idx: nat) {
    && node in H && idx <= |H[node].keys| == |H[node].vals| && |H[node].keys| == M
    && (H[node].next != null ==> H[node].next in H && H[node].next != node)
  }

  method HalveLeaf(st: Store, node: Node, idx: nat, key: Key, val: Value) returns (right: Node, median: Key)
    requires st.Valid() && node in st.nodes && node.IsLeaf() && CanHalve(Heap(st.nodes), node, idx)
    modifies st`nodes, st`buffers, st`edgeBuffers, st`allocs, node`len, node`cell, node.keys, node.vals
    ensures st.Valid() && fresh(right) && st.nodes == old(st.nodes) + {right}
    ensures st.Grown()
    ensures right !in old(Heap(st.nodes)) && Heap(st.nodes) == LeafHalved(old(Heap(st.nodes)), node, idx, key, val,
            right)
    ensures median == Ins(old(Heap(st.nodes))[node].keys, idx, key)[M / 2]
  {
    hide Arena, Heap, Node.Valid, Store.Valid, Buffered, Ins, Accounted;
    st.Use(node);
    right, median := node.SplitLeaf(idx, key, val, st.nodes);
    st.Keep();
    st.Alloc(right);
  }

  /** The heap after `right` has got its place in the chain after `node`. */
  ghost function Linked(H: Cells, node: Node, right: Node): Cells
    requires node in H && right in H
  {
    var nx := H[right].next;
    var H1 := H[node := H[node].(next := right)][right := H[right].(prev := node)];
    if nx == null || nx !in H1 then H1 else H1[nx := H1[nx].(prev := right)]
  }

  lemma HalvedLinked(H: Cells, node: Node, idx: nat, key: Key, val: Value, right: Node)
    requires CanHalve(H, node, idx) && right !in H
    ensures var H1 := LeafHalved(H, node, idx, key, val, right);
            && H1.Keys == H.Keys + {right} && right in H1 && node in H1 && H1[right].next == H[node].next
            && Linked(H1, node, right) == LeafSplit(H, node, idx, key, val, right)
  {
    hide Ins;
  }

  method LinkRight(node: Node, right: Node, ghost S: set<Node>)
    requires Arena(S) && node in S && right in S && node != right && right.next != right
    requires right.next != null ==> right.next in S && right.next != node
    modifies node`next, node`cell, S`prev, S`cell
    ensures Arena(S)
    ensures node in old(Heap(S)) && right in old(Heap(S)) && Heap(S) == Linked(old(Heap(S)), node, right)
  {
    hide Arena, Heap, Node.Valid;
    node.Known(S);
    right.Known(S);
    if right.next != null { right.next.Known(S); }
    node.SetNext(right, S);
    right.SetPrev(node, S);
    right.Known(S);
    var next := right.next;
    if next != null {
      next.SetPrev(right, S);
    }
  }

  /** Splits the full leaf `node` around a new entry and links the new leaf `right` into the chain. */
  method SplitFullLeaf(st: Store, node: Node, idx: nat, key: Key, val: Value) returns (right: Node, median: Key)
    requires st.Valid() && node in st.nodes && node.IsLeaf() && CanHalve(Heap(st.nodes), node, idx)
    modifies st`nodes, st`buffers, st`edgeBuffers, st`allocs
    modifies node`len, node.keys, node.vals, node`next, st.nodes`prev, st.nodes`cell
    ensures st.Valid() && fresh(right) && st.nodes == old(st.nodes) + {right}
    ensures st.Grown()
    ensures right !in old(Heap(st.nodes)) && Heap(st.nodes) == LeafSplit(old(Heap(st.nodes)), node, idx, key, val,
            right)
    ensures median == Ins(old(Heap(st.nodes))[node].keys, idx, key)[M / 2]
  {
    hide Arena, Heap, Node.Valid, Store.Valid, Buffered, Ins, Accounted, LeafHalved, LeafSplit, Linked, Store.Grown;
    ghost var h := Heap(st.nodes);
    st.Use(node);
    right, median := HalveLeaf(st, node, idx, key, val);
    HalvedLinked(h, node, idx, key, val, right);
    st.Use(right);
    ghost var h1 := Heap(st.nodes);
    LinkRight(node, right, st.nodes);
    assert Heap(st.nodes) == Linked(h1, node, right);
    st.Keep();
  }

  /** Puts a new root over `left` and `right`. */
  method PlantRoot(st: Store, left: Node, right: Node, key: Key) returns (root: Node)
    requires st.Valid() && left in st.nodes && right in st.nodes && left != right
    modifies st`nodes, st`buffers, st`edgeBuffers, st`allocs, st.nodes`parent, st.nodes`parentIdx, st.nodes`cell
    ensures st.Valid() && fresh(root) && st.nodes == old(st.nodes) + {root} && st.Grown()
    ensures left in old(Heap(st.nodes)) && right in old(Heap(st.nodes)) && root !in old(Heap(st.nodes))
    ensures Heap(st.nodes) == GrowRoot(old(Heap(st.nodes)), left, key, right, root)
  {
    hide Arena, Heap, Node.Valid, Store.Valid, Buffered, Ins, Accounted, Bumped, GrowRoot, Planted, Store.Grown;
    ghost var c0;
    ghost var h := Heap(st.nodes);
    HeapKeys(st.nodes);
    root, c0 := PlantLast(st, left, right);
    st.Parts();
    PlantFirst(root, left, right, key, h, c0, st.nodes);
    st.Keep();
  }

  method PlantFirst(root: Node, left: Node, ghost right: Node, key: Key, ghost h: Cells, ghost c0: Cell,
                    ghost S: set<Node>)
    requires Arena(S) && root in S && left in S && root != left && !root.IsLeaf() &&
             Planted(h, Heap(S), left, right, root, c0)
    modifies root`len, root.keys, root.edges, S`parentIdx, S`cell
    ensures Arena(S) && left in h && right in h && Heap(S) == GrowRoot(h, left, key, right, root)
  {
    hide Arena, Heap, Node.Valid, Ins, Bumped, GrowRoot;
    ghost var h1 := Heap(S);
    root.Known(S);
    left.Known(S);
    PlantedOwns(h, h1, left, key, right, root, c0);
    hide Planted;
    root.InsertEdge(0, false, key, left, S);
    PlantedOk(h, h1, Heap(S), left, key, right, root, c0);
  }

  method NewInternal(st: Store) returns (root: Node)
    requires st.Valid()
    modifies st`nodes, st`buffers, st`edgeBuffers, st`allocs
    ensures st.Valid() && st.Grown() && fresh(root) && fresh(root.keys) && fresh(root.edges) && !root.IsLeaf()
    ensures st.nodes == old(st.nodes) + {root} && root !in old(Heap(st.nodes))
    ensures |root.cell.edges| == 1 && root.cell == Cell(null, 0, [], [], null, null, root.cell.edges)
    ensures Heap(st.nodes) == old(Heap(st.nodes))[root := root.cell]
  {
    hide Arena, Node.Valid, Store.Valid;
    root := new Node.Internal();
    st.Alloc(root);
  }

  /** A new node over `left` and `right`, which has only the edge to `right` so far. */
  method PlantLast(st: Store, left: Node, right: Node) returns (root: Node, ghost c0: Cell)
    requires st.Valid() && left in st.nodes && right in st.nodes && left != right
    modifies st`nodes, st`buffers, st`edgeBuffers, st`allocs, st.nodes`parent, st.nodes`parentIdx, st.nodes`cell
    ensures st.Valid() && fresh(root) && fresh(root.keys) && fresh(root.edges) && !root.IsLeaf() &&
            st.nodes == old(st.nodes) + {root} && st.Grown()
    ensures Planted(old(Heap(st.nodes)), Heap(st.nodes), left, right, root, c0)
  {
    hide Arena, Heap, Node.Valid, Store.Valid, Buffered, Accounted, Store.Grown;
    st.Use(left);
    st.Use(right);
    root := NewInternal(st);
    st.Use(root);
    c0 := root.cell;
    left.SetParent(root, 0, st.nodes);
    right.SetParent(root, 0, st.nodes);
    root.Known(st.nodes);
    root.SetLastEdge(right, st.nodes);
    st.Keep();
  }

  ghost predicate Planted(H: Cells, H1: Cells, left: Node, right: Node, r: Node, c0: Cell) {
    && left in H && right in H && left != right && r !in H && |c0.edges| == 1 &&
       c0 == Cell(null, 0, [], [], null, null, c0.edges)
    && H1 == H[r := c0][left := H[left].(parent := r, parentIdx := 0)][right := H[right].(parent := r, parentIdx := 0)]
              [r := c0.(edges := c0.edges[0 := right])]
  }

  lemma PlantedOwns(H: Cells, H1: Cells, left: Node, key: Key, right: Node, r: Node, c0: Cell)
    requires Planted(H, H1, left, right, r, c0)
    ensures OwnsEdges(H1, r) && left in H1 && H1[left].parentIdx == 0 && H1[r].keys == [] && H1[r].edges == [right]
  {
  }

  lemma PlantedOk(H: Cells, H1: Cells, H2: Cells, left: Node, key: Key, right: Node, r: Node, c0: Cell)
    requires Planted(H, H1, left, right, r, c0) && r in H1 && H1[r].keys == [] && H1[r].edges == [right]
    requires Bumped(H1[r := H1[r].(keys := Ins(H1[r].keys, 0, key), edges := Ins(H1[r].edges, 0, left))], H2,
             H1[r].edges[0..], 1)
    ensures H2 == GrowRoot(H, left, key, right, r)
  {
    assert H1[r].edges[0..] == [right];
    assert Ins([right], 0, left) == [left, right] && Ins([], 0, key) == [key];
    forall n | n in H2
      ensures H2[n] == GrowRoot(H, left, key, right, r)[n]
    {
      assert n in [right] <==> n == right;
    }
  }

  /** `right` becomes the edge of `p` after the one at `i`. */
  method AttachEdge(p: Node, i: nat, key: Key, right: Node, ghost left: Node, ghost S: set<Node>)
    requires Arena(S) && p in S && right in S && right != p && !p.IsLeaf() && p.len < M && i <= p.len
    requires OwnsEdges(Heap(S), p) && right !in p.cell.edges && left in S && left.cell.parentIdx == i
    modifies p`len, p.keys, p.edges, S`parent, S`parentIdx, S`cell
    ensures Arena(S) && AttachSteps(old(Heap(S)), Heap(S), left, key, right, p)
  {
    hide Arena, Heap, Node.Valid, Ins, Bumped;
    ghost var h := Heap(S);
    p.Known(S);
    right.Known(S);
    left.Known(S);
    right.SetParent(p, i + 1, S);
    OwnsEdgesKept(h, Heap(S), p);
    p.InsertEdge(i, true, key, right, S);
  }

  /** Tells the edges of `r` their parent. */
  method AdoptEdges(r: Node, ghost S: set<Node>)
    requires Arena(S) && r in S && !r.IsLeaf() && AllIn(r.cell.edges, S)
    modifies S`parent, S`cell
    ensures Arena(S) && Adopted(old(Heap(S)), Heap(S), old(r.cell.edges), r)
  {
    r.ArenaAt(S);
    assert r.edges[..r.len + 1] == r.cell.edges;
    SetParentOfAll(r.edges[..r.len + 1], r, S);
  }

  /** `p` has been split, but its upper edges do not know their parent yet. */
  ghost predicate InnerHalved(H: Cells, H1: Cells, right: Node, i: nat, p: Node, ks: seq<Key>, es: seq<Node?>)
    requires right in H && p in H && |ks| == M + 1 && |es| == M + 2
  {
    Renumbered(H[right := H[right].(parent := p, parentIdx := i + 1)][p := H[p].(keys := ks[..M / 2],
      edges := es[..M / 2 + 1])], H1, es, M / 2)
  }

  lemma InnerHalvedUpper(H: Cells, H1: Cells, right: Node, i: nat, p: Node, ks: seq<Key>, es: seq<Node?>)
    requires right in H && p in H && |ks| == M + 1 && |es| == M + 2 && InnerHalved(H, H1, right, i, p, ks, es)
    ensures AllIn(es[M / 2 + 1..], H.Keys)
  {
  }

  /** A full node can be split. */
  ghost predicate CanHalveInner(H: Cells, p: Node, i: nat, right: Node) {
    && p in H && right in H && right != p && |H[p].keys| == M && |H[p].edges| == M + 1 && i <= M
    && OwnsEdges(H, p) && right !in H[p].edges
  }

  /** The keys and the edges that `p` would have with the new ones. */
  ghost function OverKeys(H: Cells, p: Node, i: nat, key: Key): (ks: seq<Key>)
    requires p in H && i <= |H[p].keys|
    ensures |ks| == |H[p].keys| + 1
  {
    Ins(H[p].keys, i, key)
  }

  ghost function OverEdges(H: Cells, p: Node, i: nat, right: Node): (es: seq<Node?>)
    requires p in H && i < |H[p].edges|
    ensures |es| == |H[p].edges| + 1
  {
    Ins(H[p].edges, i + 1, right)
  }

  method CutInner(p: Node, i: nat, key: Key, right: Node, ghost S: set<Node>) returns (r: Node, median: Key)
    requires Arena(S) && p in S && right in S && !p.IsLeaf() && CanHalveInner(Heap(S), p, i, right)
    modifies p`len, p.keys, p.edges, right`parent, S`parentIdx, S`cell
    ensures Arena(S) && r.Valid() && !r.IsLeaf() && fresh(r) && fresh(r.keys) && fresh(r.vals) && fresh(r.edges)
    ensures var h := old(Heap(S));
            var ks, es := OverKeys(h, p, i, key), OverEdges(h, p, i, right);
            && InnerHalved(h, Heap(S), right, i, p, ks, es) && median == ks[M / 2]
            && r.cell == Cell(null, 0, ks[M / 2 + 1..], [], null, null, es[M / 2 + 1..])
  {
    hide Arena, Heap, Node.Valid, Ins, Renumbered;
    ghost var h := Heap(S);
    p.Known(S);
    right.Known(S);
    right.SetParent(p, i + 1, S);
    OwnsEdgesKept(h, Heap(S), p);
    p.Known(S);
    r, median := p.SplitInternal(i, key, right, S);
  }

  method HalveInner(st: Store, p: Node, i: nat, key: Key, right: Node) returns (r: Node, median: Key, ghost h1: Cells)
    requires st.Valid() && p in st.nodes && right in st.nodes && !p.IsLeaf() &&
             CanHalveInner(Heap(st.nodes), p, i, right)
    modifies st`nodes, st`buffers, st`edgeBuffers, st`allocs, p`len, p.keys, p.edges, right`parent, st.nodes`parentIdx,
             st.nodes`cell
    ensures st.Valid() && fresh(r) && !r.IsLeaf() && st.nodes == old(st.nodes) + {r}
    ensures st.Grown()
    ensures var h := old(Heap(st.nodes));
            var ks, es := OverKeys(h, p, i, key), OverEdges(h, p, i, right);
            && InnerHalved(h, h1, right, i, p, ks, es) && median == ks[M / 2] && r !in h &&
               r.cell.edges == es[M / 2 + 1..]
            && Heap(st.nodes) == h1[r := Cell(null, 0, ks[M / 2 + 1..], [], null, null, es[M / 2 + 1..])]
  {
    hide Arena, Heap, Node.Valid, Store.Valid, Buffered, Accounted, OverKeys, OverEdges, InnerHalved, CanHalveInner;
    st.Use(p);
    r, median := CutInner(p, i, key, right, st.nodes);
    h1 := Heap(st.nodes);
    st.Keep();
    st.Alloc(r);
  }

  /** Splits the full node `p` around the key and the edge to `right` after the edge at `i`. */
  method SplitFullInner(st: Store, p: Node, i: nat, key: Key, right: Node)
    returns (r: Node, median: Key, ghost h1: Cells)
    requires st.Valid() && p in st.nodes && right in st.nodes && !p.IsLeaf() &&
             CanHalveInner(Heap(st.nodes), p, i, right)
    modifies st`nodes, st`buffers, st`edgeBuffers, st`allocs, p`len, p.keys, p.edges, st.nodes`parent,
             st.nodes`parentIdx, st.nodes`cell
    ensures st.Valid() && fresh(r) && st.nodes == old(st.nodes) + {r}
    ensures st.Grown()
    ensures var h := old(Heap(st.nodes));
            var ks, es := OverKeys(h, p, i, key), OverEdges(h, p, i, right);
            r !in h && SplitSteps(h, h1, Heap(st.nodes), right, i, p, r, ks, es) && median == ks[M / 2]
  {
    hide Arena, Heap, Node.Valid, Store.Valid, Buffered, Accounted, Renumbered, Adopted, OverKeys, OverEdges,
         Store.Grown;
    ghost var h := Heap(st.nodes);
    HeapKeys(st.nodes);
    r, median, h1 := HalveInner(st, p, i, key, right);
    InnerHalvedUpper(h, h1, right, i, p, OverKeys(h, p, i, key), OverEdges(h, p, i, right));
    st.Use(r);
    AdoptEdges(r, st.nodes);
    st.Keep();
  }

  // ---- the steps on the tree ----

  lemma PendingNodes(H: Cells, t: Shape, left: Node, key: Key, right: Node)
    requires Pending(H, t, left, key, right)
    ensures left in H && right in H && left in t.places && t.root in t.places && left != right
    ensures H[left].parent == null ==> left == t.root
    ensures H[left].parent != null ==>
              && H[left].parent in H && H[left].parent in t.places
              && t.places[H[left].parent].height == t.places[left].height + 1
  {
    if H[left].parent != null {
      PendingKids(H, t.places, left, key, right, H[left].parent);
    }
  }

  lemma PendingReady(H: Cells, t: Shape, left: Node, key: Key, right: Node, p: Node)
    requires Pending(H, t, left, key, right) && H[left].parent == p
    ensures OwnsEdges(H, p) && right !in H[p].edges && right != p && H[left].parentIdx <= |H[p].keys| &&
            |H[p].edges| == |H[p].keys| + 1
  {
    PendingKids(H, t.places, left, key, right, p);
  }

  /** A full leaf is split around the new entry. */
  method SplitLeafAt(st: Store, node: Node, idx: nat, key: Key, val: Value, ghost t: Shape, ghost q: nat)
    returns (right: Node, median: Key, ghost t1: Shape)
    requires st.Valid() && node in st.nodes && CanSplitLeaf(Heap(st.nodes), t, q, node, idx, key)
    modifies st`nodes, st`buffers, st`edgeBuffers, st`allocs, st.nodes, st.buffers, st.edgeBuffers
    ensures st.Valid() && st.Grown()
    ensures Pending(Heap(st.nodes), t1, node, median, right) && t1.root == t.root && t1.height == t.height
    ensures Inserted(old(Heap(st.nodes)), t, Heap(st.nodes), t1, Position(old(Heap(st.nodes)), t.leaves, q, idx), key,
            val)
    ensures node in st.nodes && right in st.nodes && old(st.nodes) <= st.nodes
  {
    hide Arena, Heap, Node.Valid, Store.Valid, Store.Grown, Buffered, Pending, Inserted, LeafSplit, CanSplitLeaf,
         CanHalve, Ins, Position;
    ghost var h := Heap(st.nodes);
    st.Use(node);
    SplitLeafReady(h, t, q, node, idx, key);
    right, median := SplitFullLeaf(st, node, idx, key, val);
    t1 := SplitLeafStep(h, t, q, node, idx, key, val, right);
  }

  lemma SplitLeafStep(H: Cells, t: Shape, q: nat, node: Node, idx: nat, key: Key, val: Value, right: Node)
    returns (t1: Shape)
    requires CanSplitLeaf(H, t, q, node, idx, key) && right !in H
    ensures var H1 := LeafSplit(H, node, idx, key, val, right);
            && Pending(H1, t1, node, Ins(H[node].keys, idx, key)[M / 2], right) && t1.root == t.root &&
               t1.height == t.height
            && Inserted(H, t, H1, t1, Position(H, t.leaves, q, idx), key, val)
  {
    hide LeafSplit, LeafSplitCells, Pending, Inserted, Wf;
    var H1 := LeafSplit(H, node, idx, key, val, right);
    LeafSplitByCell(H, node, idx, key, val, right);
    LeafSplitOk(H, H1, t, q, node, idx, key, val, right);
    LeafSplitEntries(H, H1, t, q, node, idx, key, val, right);
    t1 := LeafSplitShape(t, q, node, Ins(H[node].keys, idx, key)[M / 2], right);
  }

  lemma SplitLeafReady(H: Cells, t: Shape, q: nat, node: Node, idx: nat, key: Key)
    requires CanSplitLeaf(H, t, q, node, idx, key)
    ensures node in H && CanHalve(H, node, idx) && idx <= |H[node].keys| == M && H[node].edges == [] &&
            q < |t.leaves| && node in t.places
  {
    LocalAt(H, t, null, node);
  }

  /** The root has been split: a new root takes both parts. */
  method GrowAt(st: Store, left: Node, key: Key, right: Node, ghost t: Shape) returns (root: Node, ghost t1: Shape)
    requires st.Valid() && left in st.nodes && right in st.nodes && Pending(Heap(st.nodes), t, left, key, right) &&
             left.parent == null
    modifies st`nodes, st`buffers, st`edgeBuffers, st`allocs, st.nodes, st.buffers, st.edgeBuffers
    ensures st.Valid() && st.Grown()
    ensures Wf(Heap(st.nodes), t1, null) && Kept(old(Heap(st.nodes)), t, Heap(st.nodes), t1) && t1.root == root &&
            t1.height == t.height + 1
    ensures old(st.nodes) <= st.nodes
  {
    hide Arena, Heap, Node.Valid, Store.Valid, Store.Grown, Buffered, Wf, Pending, Kept, GrowRoot;
    ghost var h := Heap(st.nodes);
    st.Use(left);
    PendingNodes(h, t, left, key, right);
    root := PlantRoot(st, left, right, key);
    GrowOk(h, t, left, key, right, root);
    t1 := GrowShape(t, root);
  }

  /** The parent has room for the key and the edge. */
  method AttachAt(st: Store, left: Node, key: Key, right: Node, p: Node, i: nat, ghost t: Shape)
    requires st.Valid() && left in st.nodes && right in st.nodes && p in st.nodes &&
             Pending(Heap(st.nodes), t, left, key, right)
    requires left.parent == p && left.parentIdx == i && p.len < M
    modifies st.nodes, st.buffers, st.edgeBuffers
    ensures st.Valid() && Wf(Heap(st.nodes), t, null) && Kept(old(Heap(st.nodes)), t, Heap(st.nodes), t)
  {
    hide Arena, Heap, Node.Valid, Store.Valid, Store.Grown, Buffered, Wf, Pending, Kept, AttachSteps, OwnsEdges;
    ghost var h := Heap(st.nodes);
    st.Use(left);
    st.Use(p);
    PendingReady(h, t, left, key, right, p);
    AttachEdge(p, i, key, right, left, st.nodes);
    st.Keep();
    AttachOk(h, Heap(st.nodes), t, left, key, right, p);
  }

  /** The parent is full, and is split around the key and the edge. */
  method SplitInnerAt(st: Store, left: Node, key: Key, right: Node, p: Node, i: nat, ghost t: Shape)
    returns (r: Node, median: Key, ghost t1: Shape)
    requires st.Valid() && left in st.nodes && right in st.nodes && p in st.nodes &&
             Pending(Heap(st.nodes), t, left, key, right)
    requires left.parent == p && left.parentIdx == i && p.len == M
    modifies st`nodes, st`buffers, st`edgeBuffers, st`allocs, st.nodes, st.buffers, st.edgeBuffers
    ensures st.Valid() && st.Grown()
    ensures Pending(Heap(st.nodes), t1, p, median, r) && Kept(old(Heap(st.nodes)), t, Heap(st.nodes), t1)
    ensures t1.root == t.root && t1.height == t.height && p in t.places && p in t1.places &&
            t1.places[p].height == t.places[p].height
    ensures p in st.nodes && r in st.nodes && old(st.nodes) <= st.nodes
  {
    hide Arena, Heap, Node.Valid, Store.Valid, Store.Grown, Buffered, Pending, Kept, SplitSteps, OwnsEdges, OverKeys,
         OverEdges;
    ghost var h := Heap(st.nodes);
    st.Use(left);
    st.Use(p);
    PendingNodes(h, t, left, key, right);
    PendingReady(h, t, left, key, right, p);
    ghost var h1;
    r, median, h1 := SplitFullInner(st, p, i, key, right);
    t1 := SplitInnerStep(h, h1, Heap(st.nodes), t, left, key, right, p, r);
  }

  lemma SplitInnerStep(H: Cells, H1: Cells, H3: Cells, t: Shape, left: Node, key: Key, right: Node, p: Node, r: Node)
    returns (t1: Shape)
    requires Pending(H, t, left, key, right) && H[left].parent == p && |H[p].keys| == M && |H[p].edges| == M + 1 &&
             right in H && r !in H
    requires var i := H[left].parentIdx;
             i <= M && SplitSteps(H, H1, H3, right, i, p, r, OverKeys(H, p, i, key), OverEdges(H, p, i, right))
    ensures Pending(H3, t1, p, OverKeys(H, p, H[left].parentIdx, key)[M / 2], r) && Kept(H, t, H3, t1)
    ensures t1.root == t.root && t1.height == t.height && p in t1.places && p in t.places &&
            t1.places[p].height == t.places[p].height
  {
    hide Kept, SplitSteps, SplitCells, Fresh;
    var i := H[left].parentIdx;
    var ks, es := OverKeys(H, p, i, key), OverEdges(H, p, i, right);
    OverflowsHolds(H, t, left, key, right, p, ks, es);
    hide Pending, Overflows;
    OverflowsEdges(H, t, left, key, right, p, r, ks, es);
    SplitByCell(H, H1, H3, right, i, p, r, ks, es);
    SplitUpOk(H, H3, t, left, key, right, p, r, ks, es);
    t1 := t.(places := SplitPlaces(t.places, p, ks[M / 2], r));
  }
}
