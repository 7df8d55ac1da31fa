/** The moves of rebalancing after a removal, in place. */
module Rebalance {
  import opened Seqs
  import opened Nodes
  import opened Stores
  import opened Trees
  import opened Contents
  import opened Removal
  import opened Merging

  // ---- the moves as changes of the heap ----

  /** The last entry of the leaf `prev` moves to its next sibling `node`. */
  method MoveLastEntry(node: Node, prev: Node, p: Node, i: nat, ghost S: set<Node>)
    requires Arena(S) && node in S && prev in S && p in S && node != prev && p != node && p != prev
    requires node.IsLeaf() && prev.IsLeaf() && 0 < i <= p.len && 0 < prev.len && node.len < M
    modifies node`len, node`cell, node.keys, node.vals, prev`len, prev`cell, prev.keys, prev.vals, p`cell, p.keys
    ensures Arena(S)
    ensures var h := old(Heap(S));
            && 0 < |h[prev].keys| == |h[prev].vals| && i <= |h[p].keys|
            && Heap(S) == LeafFromPrev(h, node, prev, p, i)
  {
    hide Arena, Heap, Node.Valid, Ins, Del, LeafFromPrev;
    ghost var h := Heap(S);
    node.Known(S);
    prev.Known(S);
    p.Known(S);
    var key, val := prev.RemoveVal(prev.len - 1, S);
    ghost var c := prev.cell;
    node.InsertVal(0, key, val, S);
    ghost var d := node.cell;
    var _ := p.ReplaceKey(i - 1, key, S);
    LeafFromPrevSteps(h, node, prev, p, i, c, d, p.cell);
  }

  /** The first entry of the leaf `next` moves to its previous sibling `node`. */
  method MoveFirstEntry(node: Node, next: Node, p: Node, i: nat, ghost S: set<Node>)
    requires Arena(S) && node in S && next in S && p in S && node != next && p != node && p != next
    requires node.IsLeaf() && next.IsLeaf() && i < p.len && 1 < next.len && node.len < M
    modifies node`len, node`cell, node.keys, node.vals, next`len, next`cell, next.keys, next.vals, p`cell, p.keys
    ensures Arena(S)
    ensures var h := old(Heap(S));
            && 1 < |h[next].keys| == |h[next].vals| && i < |h[p].keys| && |h[node].keys| == |h[node].vals|
            && Heap(S) == LeafFromNext(h, node, next, p, i)
  {
    hide Arena, Heap, Ins, Del, LeafFromNext;
    ghost var h := Heap(S);
    node.Known(S);
    next.Known(S);
    p.Known(S);
    next.ArenaAt(S);
    assert next.keys[1] == next.cell.keys[1];
    hide Node.Valid;
    var _ := p.ReplaceKey(i, next.keys[1], S);
    ghost var c := p.cell;
    var key, val := next.RemoveVal(0, S);
    ghost var d := next.cell;
    node.InsertVal(node.len, key, val, S);
    LeafFromNextSteps(h, node, next, p, i, c, d, node.cell);
  }

  /** The last key of `prev` goes up to `p`, and its last edge gets `node` as parent. */
  method DetachLastEdge(node: Node, prev: Node, p: Node, i: nat, ghost S: set<Node>) returns (key: Key, e: Node)
    requires Arena(S) && node in S && prev in S && p in S && node != prev && p != node && p != prev
    requires !prev.IsLeaf() && 0 < i <= p.len && 0 < prev.len && |prev.cell.edges| == |prev.cell.keys| + 1
    requires var e := prev.cell.edges[|prev.cell.keys|]; e in S && e != node && e != prev && e != p
    modifies prev`len, prev`cell, p`cell, p.keys, S`parent, S`parentIdx, S`cell
    ensures Arena(S)
    ensures var h := old(Heap(S)); var last := |h[prev].keys| - 1;
            && e in h && e == h[prev].edges[last + 1] && i <= |h[p].keys| && key == h[p].keys[i - 1]
            && Heap(S) == h[prev := h[prev].(keys := h[prev].keys[..last], edges := h[prev].edges[..last + 1])]
                           [p := h[p].(keys := h[p].keys[i - 1 := h[prev].keys[last]])]
                           [e := h[e].(parent := node, parentIdx := 0)]
  {
    hide Arena, Heap, Node.Valid;
    prev.Known(S);
    p.Known(S);
    prev.cell.edges[|prev.cell.keys|].Known(S);
    var k;
    k, e := prev.RemoveLastEdge(S);
    key := p.ReplaceKey(i - 1, k, S);
    e.SetParent(node, 0, S);
  }

  /** The last edge of `prev` moves to its next sibling `node`. */
  method MoveLastEdge(node: Node, prev: Node, p: Node, i: nat, ghost S: set<Node>)
    requires Arena(S) && node in S && prev in S && p in S && node != prev && p != node && p != prev
    requires !node.IsLeaf() && !prev.IsLeaf() && 0 < i <= p.len && 0 < prev.len && node.len < M
    requires OwnsEdges(Heap(S), node) && p !in node.cell.edges && prev !in node.cell.edges
    requires |prev.cell.edges| == |prev.cell.keys| + 1
    requires var e := prev.cell.edges[|prev.cell.keys|];
             e in S && e != node && e != prev && e != p && e !in node.cell.edges
    modifies node`len, node`cell, node.keys, node.edges, prev`len, prev`cell, p`cell, p.keys, S`parent, S`parentIdx,
             S`cell
    ensures Arena(S)
    ensures var h := old(Heap(S));
            && 0 < |h[prev].keys| && i <= |h[p].keys| && |h[prev].edges| == |h[prev].keys| + 1
            && InnerFromPrev(h, Heap(S), node, prev, p, i)
  {
    hide Arena, Heap, Node.Valid, Ins, Bumped;
    ghost var h := Heap(S);
    node.Known(S);
    prev.Known(S);
    p.Known(S);
    var key, e := DetachLastEdge(node, prev, p, i, S);
    node.Known(S);
    e.Known(S);
    OwnsEdgesKept(h, Heap(S), node);
    node.InsertEdge(0, false, key, e, S);
  }

  /** A node keeps owning its edges if neither it nor their indices change. */
  lemma OwnsEdgesKept(H: Cells, H1: Cells, n: Node)
    requires OwnsEdges(H, n) && n in H1 && H1[n].edges == H[n].edges
    requires forall x {:trigger x in H[n].edges} :: x in H && x in H[n].edges ==>
             x in H1 && H1[x].parentIdx == H[x].parentIdx
    ensures OwnsEdges(H1, n)
  {
    forall i | 0 <= i < |H1[n].edges|
      ensures H1[n].edges[i] in H1 && H1[H1[n].edges[i]].parentIdx == i
    {
      assert H[n].edges[i] in H && H[n].edges[i] in H[n].edges;
    }
  }

  /** The first edge of `next` moves to its previous sibling `node`. */
  method MoveFirstEdge(node: Node, next: Node, p: Node, i: nat, ghost S: set<Node>) returns (ghost h1: Cells)
    requires Arena(S) && node in S && next in S && p in S && node != next && p != node && p != next
    requires !node.IsLeaf() && !next.IsLeaf() && i < p.len && 0 < next.len && node.len < M
    requires OwnsEdges(Heap(S), node) && OwnsEdges(Heap(S), next) && FamiliesApart(Heap(S), node, next, p)
    modifies node`len, node`cell, node.keys, node.edges, next`len, next`cell, next.keys, next.edges, p`cell, p.keys
    modifies S`parent, S`parentIdx, S`cell
    ensures Arena(S)
    ensures FirstEdgeTaken(old(Heap(S)), h1, next) && FirstEdgeGiven(old(Heap(S)), h1, Heap(S), node, next, p, i)
  {
    hide Arena, Heap, Node.Valid, FirstEdgeGiven, FirstEdgeTaken, Ins, Del, OwnsEdges;
    ghost var h := Heap(S);
    node.Known(S);
    next.Known(S);
    p.Known(S);
    var k, e := TakeFirstEdge(node, next, p, S);
    h1 := Heap(S);
    GiveLastEdge(node, next, p, i, k, e, h, S);
  }

  method TakeFirstEdge(ghost node: Node, next: Node, ghost p: Node, ghost S: set<Node>) returns (k: Key, e: Node)
    requires Arena(S) && node in S && next in S && p in S && node != next && p != node && p != next
    requires !next.IsLeaf() && 0 < next.len
    requires OwnsEdges(Heap(S), node) && OwnsEdges(Heap(S), next) && FamiliesApart(Heap(S), node, next, p)
    modifies next`len, next`cell, next.keys, next.edges, S`parentIdx, S`cell
    ensures Arena(S) && FirstEdgeTaken(old(Heap(S)), Heap(S), next) && e in S && e != node
    ensures 0 < |old(next.cell).keys| && 0 < |old(next.cell).edges| && k == old(next.cell).keys[0] &&
            e == old(next.cell).edges[0]
    ensures node.cell == old(node.cell) && p.cell == old(p.cell) && OwnsEdges(Heap(S), node) && e !in node.cell.edges
  {
    hide Arena, Heap, Node.Valid, Del;
    ghost var h := Heap(S);
    node.Known(S);
    next.Known(S);
    p.Known(S);
    ghost var c := h[next].(keys := Del(h[next].keys, 0), edges := Del(h[next].edges, 0));
    var d;
    k, d := next.RemoveEdge(0, false, S);
    FirstEdgeKept(h, Heap(S), node, next, p, c, d);
    e := d;
    node.Known(S);
    p.Known(S);
  }

  method GiveLastEdge(node: Node, ghost next: Node, p: Node, i: nat, k: Key, e: Node, ghost h: Cells,
                      ghost S: set<Node>)
    requires Arena(S) && node in S && p in S && e in S && p != node && e != node && !node.IsLeaf() && i < p.len &&
             node.len < M
    requires OwnsEdges(Heap(S), node) && e !in node.cell.edges && p !in node.cell.edges
    requires node in h && p in h && next in h && h[node] == node.cell && h[p] == p.cell
    requires 0 < |h[next].keys| < |h[next].edges| && k == h[next].keys[0] && e == h[next].edges[0] && e != p
    modifies node`len, node`cell, node.keys, node.edges, p`cell, p.keys, S`parent, S`parentIdx, S`cell
    ensures Arena(S) && FirstEdgeGiven(h, old(Heap(S)), Heap(S), node, next, p, i)
  {
    hide Arena, Heap, Node.Valid, Ins, Bumped;
    ghost var h1 := Heap(S);
    node.Known(S);
    p.Known(S);
    e.Known(S);
    var key := p.ReplaceKey(i, k, S);
    ghost var d := p.cell;
    e.SetParent(node, node.len + 1, S);
    ghost var f := e.cell;
    OwnsEdgesKept(h1, h1[p := d][e := f], node);
    ghost var n := node.len;
    node.InsertEdge(node.len, true, key, e, S);
    assert h[node].edges[n + 1..] == [];
  }

  /** The two siblings, their edges and their parent do not overlap. */
  ghost predicate FamiliesApart(H: Cells, node: Node, next: Node, p: Node)
    requires node in H && next in H
  {
    && p !in H[node].edges && next !in H[node].edges && p !in H[next].edges && node !in H[next].edges
    && forall x {:trigger x in H[node].edges} {:trigger x in H[next].edges} :: x in H && x in H[node].edges ==>
       x !in H[next].edges
  }

  lemma FirstEdgeKept(h: Cells, h1: Cells, node: Node, next: Node, p: Node, c: Cell, e: Node?)
    requires node in h && next in h && p in h && node != next && p != node && p != next
    requires OwnsEdges(h, node) && OwnsEdges(h, next) && 0 < |h[next].edges| && e == h[next].edges[0]
    requires FamiliesApart(h, node, next, p)
    requires Bumped(h[next := c], h1, h[next].edges[1..], -1)
    ensures h1.Keys == h.Keys && h1[node] == h[node] && h1[p] == h[p] && OwnsEdges(h1, node) && e != null && e in h1
  {
    assert node !in h[next].edges[1..] && p !in h[next].edges[1..];
    forall i | 0 <= i < |h1[node].edges|
      ensures h1[node].edges[i] in h1 && h1[h1[node].edges[i]].parentIdx == i
    {
      assert h[node].edges[i] in h && h[node].edges[i] !in h[next].edges;
    }
  }

  /** The leaf `node` absorbs its previous sibling `prev`, and `prev` goes. */
  method AbsorbPrevLeaf(st: Store, node: Node, prev: Node, p: Node, i: nat) returns (ghost h3: Cells)
    requires st.Valid() && node in st.nodes && prev in st.nodes && p in st.nodes && node != prev && p != node &&
             p != prev
    requires node.IsLeaf() && prev.IsLeaf() && !p.IsLeaf() && 0 < i <= p.len && prev.len + node.len <= M
    requires OwnsEdges(Heap(st.nodes), p) && OuterLinks(Heap(st.nodes), prev, node, p) && node.cell.prev == prev
    modifies st`nodes, st`freed, node`len, node`prev, node`cell, node.keys, node.vals, st.nodes`next,
             st.nodes`parentIdx, st.nodes`cell
    modifies p`len, p.keys, p.edges, prev, prev.keys, prev.vals, prev.edges
    ensures st.Valid() && st.nodes == old(st.nodes) - {prev} && st.freed == old(st.freed) + [prev]
    ensures var h := old(Heap(st.nodes));
            && i <= |h[p].keys| && |h[p].edges| == |h[p].keys| + 1
            && p in LeavesJoined(h, prev, node, node) && LeavesJoined(h, prev, node, node)[p] == h[p]
            && EdgeRemoved(LeavesJoined(h, prev, node, node), h3, p, i - 1, i - 1, h[p].edges[i..])
            && Heap(st.nodes) == h3 - {prev}
  {
    hide Arena, Heap, Node.Valid, Store.Valid, Buffered, Accounted, Del, Bumped, LeavesJoined, OuterLinks;
    ghost var h := Heap(st.nodes);
    st.Use(node);
    st.Use(prev);
    st.Use(p);
    JoinLeavesPrev(node, prev, p, st.nodes);
    p.Known(st.nodes);
    JoinedOwns(h, prev, node, node, p);
    var _, _ := p.RemoveEdge(i - 1, false, st.nodes);
    h3 := Heap(st.nodes);
    st.Keep();
    st.Dealloc(prev);
  }

  method JoinLeavesPrev(node: Node, prev: Node, ghost p: Node, ghost S: set<Node>)
    requires Arena(S) && node in S && prev in S && node != prev && node.IsLeaf() && prev.IsLeaf() &&
             prev.len + node.len <= M
    requires OuterLinks(Heap(S), prev, node, p)
    modifies node`len, node`prev, node`cell, node.keys, node.vals, S`next, S`cell
    ensures Arena(S) && Heap(S) == LeavesJoined(old(Heap(S)), prev, node, node)
  {
    hide Arena, Heap, Node.Valid;
    node.Known(S);
    prev.Known(S);
    if prev.prev != null { prev.prev.Known(S); }
    node.MergePrevLeaf(prev, S);
    node.Known(S);
    var newPrev := node.prev;
    if newPrev != null {
      newPrev.SetNext(node, S);
    }
  }

  lemma JoinedOwns(H: Cells, left: Node, right: Node, s: Node, p: Node)
    requires left in H && right in H && p in H && left != right && p != left && p != right && (s == left || s == right)
    requires OuterLinks(H, left, right, p) && OwnsEdges(H, p)
    ensures var H2 := LeavesJoined(H, left, right, s); p in H2 && H2[p] == H[p] && OwnsEdges(H2, p)
  {
    LeavesJoinedCells(H, left, right, s, p);
    LeavesJoinedDropped(H, left, right, s, p);
    hide LeavesJoined, OuterLinks;
    var H2 := LeavesJoined(H, left, right, s);
    forall x | x in H && x in H[p].edges
      ensures x in H2 && H2[x].parentIdx == H[x].parentIdx
    {
    }
    OwnsEdgesKept(H, H2, p);
  }

  /** The leaf `node` absorbs its next sibling `next`, and `next` goes. */
  method AbsorbNextLeaf(st: Store, node: Node, next: Node, p: Node, i: nat) returns (ghost h3: Cells)
    requires st.Valid() && node in st.nodes && next in st.nodes && p in st.nodes && node != next && p != node &&
             p != next
    requires node.IsLeaf() && next.IsLeaf() && !p.IsLeaf() && i < p.len && node.len + next.len <= M
    requires OwnsEdges(Heap(st.nodes), p) && OuterLinks(Heap(st.nodes), node, next, p) && node.cell.next == next
    modifies st`nodes, st`freed, node`len, node`next, node`cell, node.keys, node.vals, st.nodes`prev,
             st.nodes`parentIdx, st.nodes`cell
    modifies p`len, p.keys, p.edges, next, next.keys, next.vals, next.edges
    ensures st.Valid() && st.nodes == old(st.nodes) - {next} && st.freed == old(st.freed) + [next]
    ensures var h := old(Heap(st.nodes));
            && i < |h[p].keys| && |h[p].edges| == |h[p].keys| + 1
            && p in LeavesJoined(h, node, next, node) && LeavesJoined(h, node, next, node)[p] == h[p]
            && EdgeRemoved(LeavesJoined(h, node, next, node), h3, p, i, i + 1, h[p].edges[i + 2..])
            && Heap(st.nodes) == h3 - {next}
  {
    hide Arena, Heap, Node.Valid, Store.Valid, Buffered, Accounted, Del, Bumped, LeavesJoined, OuterLinks;
    ghost var h := Heap(st.nodes);
    st.Use(node);
    st.Use(next);
    st.Use(p);
    JoinLeavesNext(node, next, p, st.nodes);
    p.Known(st.nodes);
    JoinedOwns(h, node, next, node, p);
    var _, _ := p.RemoveEdge(i, true, st.nodes);
    h3 := Heap(st.nodes);
    st.Keep();
    st.Dealloc(next);
  }

  method JoinLeavesNext(node: Node, next: Node, ghost p: Node, ghost S: set<Node>)
    requires Arena(S) && node in S && next in S && node != next && node.IsLeaf() && next.IsLeaf() &&
             node.len + next.len <= M
    requires OuterLinks(Heap(S), node, next, p)
    modifies node`len, node`next, node`cell, node.keys, node.vals, S`prev, S`cell
    ensures Arena(S) && Heap(S) == LeavesJoined(old(Heap(S)), node, next, node)
  {
    hide Arena, Heap, Node.Valid;
    node.Known(S);
    next.Known(S);
    if next.next != null { next.next.Known(S); }
    node.MergeNextLeaf(next, S);
    node.Known(S);
    var newNext := node.next;
    if newNext != null {
      newNext.SetPrev(node, S);
    }
  }

  /** The internal node `node` absorbs its previous sibling `prev`, and `prev` goes. */
  method AbsorbPrevInner(st: Store, node: Node, prev: Node, p: Node, i: nat)
    returns (ghost h1: Cells, ghost h2: Cells, ghost h3: Cells)
    requires st.Valid() && node in st.nodes && prev in st.nodes && p in st.nodes && node != prev && p != node &&
             p != prev
    requires !node.IsLeaf() && !prev.IsLeaf() && !p.IsLeaf() && 0 < i <= p.len && prev.len + node.len < M
    requires OwnsEdges(Heap(st.nodes), p) && OwnsEdges(Heap(st.nodes), node) && OwnsEdges(Heap(st.nodes), prev)
    requires FamiliesApart(Heap(st.nodes), node, prev, p) && FamilyApart(Heap(st.nodes), p, node, prev)
    modifies st`nodes, st`freed, node`len, node`cell, node.keys, node.edges, st.nodes`parent, st.nodes`parentIdx,
             st.nodes`cell
    modifies p`len, p.keys, p.edges, prev, prev.keys, prev.vals, prev.edges
    ensures st.Valid() && st.nodes == old(st.nodes) - {prev} && st.freed == old(st.freed) + [prev]
    ensures var h := old(Heap(st.nodes));
            && i <= |h[p].keys| && |h[p].edges| == |h[p].keys| + 1
            && InnerJoined(h, h1, h2, prev, node, node, h[p].keys[i - 1]) && p in h2 && h2[p] == h[p]
            && EdgeRemoved(h2, h3, p, i - 1, i - 1, h[p].edges[i..])
            && Heap(st.nodes) == h3 - {prev}
  {
    hide Arena, Heap, Node.Valid, Store.Valid, Buffered, Accounted, Del, Bumped, InnerJoined, OwnsEdges;
    ghost var h := Heap(st.nodes);
    st.Use(node);
    st.Use(prev);
    st.Use(p);
    var key := KeyAt(p, i - 1, st.nodes);
    h1 := JoinInnerPrev(node, prev, p, key, st.nodes);
    h2 := Heap(st.nodes);
    p.Known(st.nodes);
    var _, _ := p.RemoveEdge(i - 1, false, st.nodes);
    h3 := Heap(st.nodes);
    st.Keep();
    st.Dealloc(prev);
  }

  method KeyAt(p: Node, i: nat, ghost S: set<Node>) returns (key: Key)
    requires Arena(S) && p in S && i < p.len
    ensures i < |p.cell.keys| && key == p.cell.keys[i]
  {
    p.ArenaAt(S);
    hide Arena;
    key := p.keys[i];
  }

  /** None of `node` and `other` is an edge of the other, and no edge of `p` is an edge of them. */
  ghost predicate FamilyApart(H: Cells, p: Node, node: Node, other: Node)
    requires p in H && node in H && other in H
  {
    forall x {:trigger x in H[p].edges} :: x in H && x in H[p].edges ==> x !in H[node].edges && x !in H[other].edges
  }

  method JoinInnerPrev(node: Node, prev: Node, ghost p: Node, key: Key, ghost S: set<Node>) returns (ghost h1: Cells)
    requires Arena(S) && node in S && prev in S && p in S && node != prev && p != node && p != prev
    requires !node.IsLeaf() && !prev.IsLeaf() && prev.len + node.len < M
    requires OwnsEdges(Heap(S), p) && OwnsEdges(Heap(S), node) && OwnsEdges(Heap(S), prev)
    requires FamiliesApart(Heap(S), node, prev, p) && FamilyApart(Heap(S), p, node, prev)
    modifies node`len, node`cell, node.keys, node.edges, S`parent, S`parentIdx, S`cell
    ensures Arena(S) && InnerJoined(old(Heap(S)), h1, Heap(S), prev, node, node, key)
    ensures p.cell == old(p.cell) && OwnsEdges(Heap(S), p)
  {
    hide Arena, Heap;
    ghost var h := Heap(S);
    node.Known(S);
    prev.Known(S);
    p.Known(S);
    prev.ArenaAt(S);
    assert prev.edges[..prev.len + 1] == prev.cell.edges;
    hide Node.Valid;
    AllInOwned(h, prev);
    SetParentOfAll(prev.edges[..prev.len + 1], node, S);
    h1 := Heap(S);
    node.Known(S);
    prev.Known(S);
    AdoptedOwns(h, h1, node, prev, p);
    node.MergePrevInternal(key, prev, S);
    p.Known(S);
    AbsorbedOwns(h, h1, Heap(S), prev, node, node, p, key);
  }

  lemma AllInOwned(H: Cells, n: Node)
    requires OwnsEdges(H, n)
    ensures AllIn(H[n].edges, H.Keys)
  {
  }

  lemma AdoptedOwns(H: Cells, H1: Cells, node: Node, d: Node, p: Node)
    requires node in H && d in H && p in H && FamiliesApart(H, node, d, p) && OwnsEdges(H, node) && OwnsEdges(H, d)
    requires Adopted(H, H1, H[d].edges, node)
    ensures H1.Keys == H.Keys && H1[node] == H[node] && H1[d] == H[d] && OwnsEdges(H1, node) && OwnsEdges(H1, d)
  {
    forall i | 0 <= i < |H[node].edges|
      ensures H[node].edges[i] in H1 && H1[H[node].edges[i]].parentIdx == i
    {
    }
  }

  lemma AbsorbedOwns(H: Cells, H1: Cells, H2: Cells, left: Node, right: Node, s: Node, p: Node, m: Key)
    requires left in H && right in H && p in H && (s == left || s == right) && p != s && OwnsEdges(H, p)
    requires InnerJoined(H, H1, H2, left, right, s, m) && FamilyApart(H, p, left, right)
    requires p !in H[left].edges && p !in H[right].edges
    ensures p in H2 && H2[p] == H[p] && OwnsEdges(H2, p)
  {
    forall i | 0 <= i < |H[p].edges|
      ensures H[p].edges[i] in H2 && H2[H[p].edges[i]].parentIdx == i
    {
      assert H[p].edges[i] in H && H[p].edges[i] in H[p].edges;
    }
  }

  /** The internal node `node` absorbs its next sibling `next`, and `next` goes. */
  method AbsorbNextInner(st: Store, node: Node, next: Node, p: Node, i: nat)
    returns (ghost h1: Cells, ghost h2: Cells, ghost h3: Cells)
    requires st.Valid() && node in st.nodes && next in st.nodes && p in st.nodes && node != next && p != node &&
             p != next
    requires !node.IsLeaf() && !next.IsLeaf() && !p.IsLeaf() && i < p.len && node.len + next.len < M
    requires OwnsEdges(Heap(st.nodes), p) && OwnsEdges(Heap(st.nodes), next)
    requires FamiliesApart(Heap(st.nodes), node, next, p) && FamilyApart(Heap(st.nodes), p, node, next)
    modifies st`nodes, st`freed, node`len, node`cell, node.keys, node.edges, st.nodes`parent, st.nodes`parentIdx,
             st.nodes`cell
    modifies p`len, p.keys, p.edges, next, next.keys, next.vals, next.edges
    ensures st.Valid() && st.nodes == old(st.nodes) - {next} && st.freed == old(st.freed) + [next]
    ensures var h := old(Heap(st.nodes));
            && i < |h[p].keys| && |h[p].edges| == |h[p].keys| + 1
            && InnerJoined(h, h1, h2, node, next, node, h[p].keys[i]) && p in h2 && h2[p] == h[p]
            && EdgeRemoved(h2, h3, p, i, i + 1, h[p].edges[i + 2..])
            && Heap(st.nodes) == h3 - {next}
  {
    hide Arena, Heap, Node.Valid, Store.Valid, Buffered, Accounted, Del, Bumped, InnerJoined, OwnsEdges;
    ghost var h := Heap(st.nodes);
    st.Use(node);
    st.Use(next);
    st.Use(p);
    var key := KeyAt(p, i, st.nodes);
    h1 := JoinInnerNext(node, next, p, key, st.nodes);
    h2 := Heap(st.nodes);
    p.Known(st.nodes);
    var _, _ := p.RemoveEdge(i, true, st.nodes);
    h3 := Heap(st.nodes);
    st.Keep();
    st.Dealloc(next);
  }

  method JoinInnerNext(node: Node, next: Node, ghost p: Node, key: Key, ghost S: set<Node>) returns (ghost h1: Cells)
    requires Arena(S) && node in S && next in S && p in S && node != next && p != node && p != next
    requires !node.IsLeaf() && !next.IsLeaf() && node.len + next.len < M
    requires OwnsEdges(Heap(S), p) && OwnsEdges(Heap(S), next)
    requires FamiliesApart(Heap(S), node, next, p) && FamilyApart(Heap(S), p, node, next)
    modifies node`len, node`cell, node.keys, node.edges, S`parent, S`parentIdx, S`cell
    ensures Arena(S) && InnerJoined(old(Heap(S)), h1, Heap(S), node, next, node, key)
    ensures p.cell == old(p.cell) && OwnsEdges(Heap(S), p)
  {
    hide Arena, Heap;
    ghost var h := Heap(S);
    node.Known(S);
    next.Known(S);
    p.Known(S);
    next.ArenaAt(S);
    assert next.edges[..next.len + 1] == next.cell.edges;
    hide Node.Valid;
    AllInOwned(h, next);
    SetParentOfAll(next.edges[..next.len + 1], node, S);
    h1 := Heap(S);
    node.Known(S);
    next.Known(S);
    AdoptedNext(h, h1, node, next, p);
    node.MergeNextInternal(key, next, S);
    p.Known(S);
    AbsorbedOwns(h, h1, Heap(S), node, next, node, p, key);
  }

  lemma AdoptedNext(H: Cells, H1: Cells, node: Node, d: Node, p: Node)
    requires node in H && d in H && p in H && FamiliesApart(H, node, d, p) && OwnsEdges(H, d)
    requires Adopted(H, H1, H[d].edges, node)
    ensures H1.Keys == H.Keys && H1[node] == H[node] && H1[d] == H[d] && OwnsEdges(H1, d)
  {
  }

  // ---- the moves as steps of rebalancing ----

  lemma OwnsFromLinks(H: Cells, A: Places, n: Node)
    requires n in H && n in A && InnerOk(A, A[n], H[n].keys, H[n].edges) && LinksOk(H, n)
    ensures OwnsEdges(H, n)
  {
    KidsBelow(H, A, n);
  }

  lemma LastEdgeReady(H: Cells, t: Shape, node: Node, prev: Node, p: Node, i: nat)
    requires CanTakePrev(H, t, node, prev, p, i) && t.places[node].height > 0
    ensures H[node].edges != [] && |H[prev].edges| == |H[prev].keys| + 1 && node != prev && p != node && p != prev
    ensures OwnsEdges(H, node) && p !in H[node].edges && prev !in H[node].edges
    ensures var e := H[prev].edges[|H[prev].keys|]; e in H && e != node && e != prev && e != p && e !in H[node].edges
  {
    PrevKinHolds(H, t, node, prev, p, i);
    OwnsFromLinks(H, t.places, node);
    KidsBelow(H, t.places, node);
    KidsBelow(H, t.places, prev);
    KidsBelow(H, t.places, p);
    hide LocalOk, InnerOk, LinksOk, Wf;
  }

  method TakeEntryFromPrev(st: Store, node: Node, prev: Node, p: Node, i: nat, ghost t: Shape) returns (ghost t1: Shape)
    requires st.Valid() && node in st.nodes && prev in st.nodes && p in st.nodes
    requires CanTakePrev(Heap(st.nodes), t, node, prev, p, i) && t.places[node].height == 0
    modifies st.nodes, st.buffers, st.edgeBuffers
    ensures st.Valid() && Wf(Heap(st.nodes), t1, null) && Kept(old(Heap(st.nodes)), t, Heap(st.nodes), t1)
    ensures t1.root == t.root && t1.height == t.height && t1.places.Keys == t.places.Keys
  {
    hide Arena, Heap, Wf, Kept, Node.Valid, Store.Valid, Buffered, LeafFromPrev;
    ghost var h := Heap(st.nodes);
    st.Use(node);
    st.Use(prev);
    st.Use(p);
    LeafFromPrevOk(h, t, node, prev, p, i);
    MoveLastEntry(node, prev, p, i, st.nodes);
    t1 := t.(places := MoveBound(t.places, prev, node, h[prev].keys[|h[prev].keys| - 1]));
    st.Keep();
  }

  method TakeEdgeFromPrev(st: Store, node: Node, prev: Node, p: Node, i: nat, ghost t: Shape) returns (ghost t1: Shape)
    requires st.Valid() && node in st.nodes && prev in st.nodes && p in st.nodes
    requires CanTakePrev(Heap(st.nodes), t, node, prev, p, i) && t.places[node].height > 0
    modifies st.nodes, st.buffers, st.edgeBuffers
    ensures st.Valid() && Wf(Heap(st.nodes), t1, null) && Kept(old(Heap(st.nodes)), t, Heap(st.nodes), t1)
    ensures t1.root == t.root && t1.height == t.height && t1.places.Keys == t.places.Keys
  {
    hide Arena, Heap, Wf, Kept, Node.Valid, Store.Valid, Buffered, InnerFromPrev;
    ghost var h := Heap(st.nodes);
    st.Use(node);
    st.Use(prev);
    st.Use(p);
    LastEdgeReady(h, t, node, prev, p, i);
    MoveLastEdge(node, prev, p, i, st.nodes);
    InnerFromPrevOk(h, Heap(st.nodes), t, node, prev, p, i);
    t1 := t.(places := MoveBound(t.places, prev, node, h[prev].keys[|h[prev].keys| - 1]));
    st.Keep();
  }

  /** `node` takes an entry or an edge from its previous sibling. */
  method TakeFromPrev(st: Store, node: Node, prev: Node, p: Node, i: nat, isLeaf: bool, ghost t: Shape)
    returns (ghost t1: Shape)
    requires st.Valid() && node in st.nodes && prev in st.nodes && p in st.nodes
    requires CanTakePrev(Heap(st.nodes), t, node, prev, p, i) && isLeaf == (t.places[node].height == 0)
    modifies st.nodes, st.buffers, st.edgeBuffers
    ensures st.Valid() && Wf(Heap(st.nodes), t1, null) && Kept(old(Heap(st.nodes)), t, Heap(st.nodes), t1)
    ensures t1.root == t.root && t1.height == t.height && t1.places.Keys == t.places.Keys
  {
    if isLeaf {
      t1 := TakeEntryFromPrev(st, node, prev, p, i, t);
    } else {
      t1 := TakeEdgeFromPrev(st, node, prev, p, i, t);
    }
  }

  lemma FirstEdgeReady(H: Cells, t: Shape, node: Node, next: Node, p: Node, i: nat)
    requires CanTakeNext(H, t, node, next, p, i) && t.places[node].height > 0
    ensures |H[node].edges| == |H[node].keys| + 1 && |H[next].edges| == |H[next].keys| + 1 && H[next].edges[0] != null
    ensures node != next && p != node && p != next
    ensures OwnsEdges(H, node) && OwnsEdges(H, next) && FamiliesApart(H, node, next, p)
  {
    NextKinHolds(H, t, node, next, p, i);
    OwnsFromLinks(H, t.places, node);
    OwnsFromLinks(H, t.places, next);
    KidsBelow(H, t.places, node);
    KidsBelow(H, t.places, next);
    KidsBelow(H, t.places, p);
    hide LocalOk, InnerOk, LinksOk, Wf;
  }

  method TakeEntryFromNext(st: Store, node: Node, next: Node, p: Node, i: nat, ghost t: Shape) returns (ghost t1: Shape)
    requires st.Valid() && node in st.nodes && next in st.nodes && p in st.nodes
    requires CanTakeNext(Heap(st.nodes), t, node, next, p, i) && t.places[node].height == 0
    modifies st.nodes, st.buffers, st.edgeBuffers
    ensures st.Valid() && Wf(Heap(st.nodes), t1, null) && Kept(old(Heap(st.nodes)), t, Heap(st.nodes), t1)
    ensures t1.root == t.root && t1.height == t.height && t1.places.Keys == t.places.Keys
  {
    hide Arena, Heap, Wf, Kept, Node.Valid, Store.Valid, Buffered, LeafFromNext;
    ghost var h := Heap(st.nodes);
    st.Use(node);
    st.Use(next);
    st.Use(p);
    LeafFromNextOk(h, t, node, next, p, i);
    MoveFirstEntry(node, next, p, i, st.nodes);
    t1 := t.(places := MoveBound(t.places, node, next, h[next].keys[1]));
    st.Keep();
  }

  method TakeEdgeFromNext(st: Store, node: Node, next: Node, p: Node, i: nat, ghost t: Shape) returns (ghost t1: Shape)
    requires st.Valid() && node in st.nodes && next in st.nodes && p in st.nodes
    requires CanTakeNext(Heap(st.nodes), t, node, next, p, i) && t.places[node].height > 0
    modifies st.nodes, st.buffers, st.edgeBuffers
    ensures st.Valid() && Wf(Heap(st.nodes), t1, null) && Kept(old(Heap(st.nodes)), t, Heap(st.nodes), t1)
    ensures t1.root == t.root && t1.height == t.height && t1.places.Keys == t.places.Keys
  {
    hide Arena, Heap, Wf, Kept, Node.Valid, Store.Valid, Buffered, FirstEdgeTaken, FirstEdgeGiven, InnerFromNextCells,
         FamiliesApart;
    ghost var h := Heap(st.nodes);
    st.Use(node);
    st.Use(next);
    st.Use(p);
    FirstEdgeReady(h, t, node, next, p, i);
    NextKinHolds(h, t, node, next, p, i);
    ghost var h1 := MoveFirstEdge(node, next, p, i, st.nodes);
    InnerFromNextByCell(h, h1, Heap(st.nodes), t.places, node, next, p, i, h[next].edges[0]);
    InnerFromNextOk(h, Heap(st.nodes), t, node, next, p, i);
    t1 := t.(places := MoveBound(t.places, node, next, h[next].keys[0]));
    st.Keep();
  }

  /** `node` takes an entry or an edge from its next sibling. */
  method TakeFromNext(st: Store, node: Node, next: Node, p: Node, i: nat, isLeaf: bool, ghost t: Shape)
    returns (ghost t1: Shape)
    requires st.Valid() && node in st.nodes && next in st.nodes && p in st.nodes
    requires CanTakeNext(Heap(st.nodes), t, node, next, p, i) && isLeaf == (t.places[node].height == 0)
    modifies st.nodes, st.buffers, st.edgeBuffers
    ensures st.Valid() && Wf(Heap(st.nodes), t1, null) && Kept(old(Heap(st.nodes)), t, Heap(st.nodes), t1)
    ensures t1.root == t.root && t1.height == t.height && t1.places.Keys == t.places.Keys
  {
    if isLeaf {
      t1 := TakeEntryFromNext(st, node, next, p, i, t);
    } else {
      t1 := TakeEdgeFromNext(st, node, next, p, i, t);
    }
  }

  lemma MergeReady(H: Cells, t: Shape, left: Node, right: Node, s: Node, p: Node, j: nat)
    requires CanMerge(H, t, left, right, s, p, j)
    ensures left != right && p != left && p != right && |H[p].edges| == |H[p].keys| + 1 && OwnsEdges(H, p) &&
            j < |H[p].keys|
    ensures t.places[left].height == t.places[right].height == t.places[p].height - 1
    ensures FamiliesApart(H, left, right, p) && FamiliesApart(H, right, left, p)
    ensures FamilyApart(H, p, left, right) && FamilyApart(H, p, right, left)
    ensures if t.places[left].height == 0 then H[left].edges == [] && H[right].edges == []
            else
              && t.places[left].height > 0 && OwnsEdges(H, left) && OwnsEdges(H, right)
              && H[left].edges != [] && H[right].edges != []
  {
    var A := t.places;
    MergeKinPlaces(H, A, left, right, p, j);
    OwnsFromLinks(H, A, p);
    KidsBelow(H, A, p);
    EdgesBelow(H, A, left);
    EdgesBelow(H, A, right);
    if A[left].height > 0 {
      OwnsFromLinks(H, A, left);
      OwnsFromLinks(H, A, right);
    }
    hide InnerOk, LinksOk, Wf;
  }

  lemma LeafMergeReady(H: Cells, t: Shape, left: Node, right: Node, s: Node, p: Node, j: nat)
    requires CanMerge(H, t, left, right, s, p, j) && t.places[left].height == 0
    ensures OuterLinks(H, left, right, p) && H[left].next == right && H[right].prev == left
  {
    MergeKinPlaces(H, t.places, left, right, p, j);
    OuterLinksHold(H, t.places, t.leaves, left, right, p);
    var q := Neighbours(H, t.places, t.leaves, left, right);
  }

  /** `node` absorbs its previous sibling, and their parent may then lack a key. */
  method MergeWithPrev(st: Store, node: Node, prev: Node, p: Node, i: nat, isLeaf: bool, ghost t: Shape)
    returns (ghost t1: Shape)
    requires st.Valid() && node in st.nodes && prev in st.nodes && p in st.nodes && 0 < i
    requires CanMerge(Heap(st.nodes), t, prev, node, node, p, i - 1) && isLeaf == (t.places[node].height == 0)
    modifies st`nodes, st`freed, st.nodes, st.buffers, st.edgeBuffers
    ensures st.Valid() && Wf(Heap(st.nodes), t1, p) && Kept(old(Heap(st.nodes)), t, Heap(st.nodes), t1)
    ensures t1.root == t.root && t1.height == t.height && t1.places == MergedPlaces(t.places, prev, node, node)
    ensures st.nodes == old(st.nodes) - {prev} && st.freed == old(st.freed) + [prev]
  {
    hide Arena, Heap, Wf, Kept, Node.Valid, Store.Valid, Buffered, MergeKin, FamiliesApart, FamilyApart, OuterLinks,
         OwnsEdges, LeavesJoined,
      EdgeRemoved, InnerJoined, MergedPlaces;
    ghost var h := Heap(st.nodes);
    st.Use(node);
    st.Use(prev);
    st.Use(p);
    MergeReady(h, t, prev, node, node, p, i - 1);
    assert |h[prev].keys| <= M / 2 && |h[node].keys| == M / 2 - 1;
    if isLeaf {
      LeafMergeReady(h, t, prev, node, node, p, i - 1);
      ghost var h3 := AbsorbPrevLeaf(st, node, prev, p, i);
      t1 := LeafMergeOk(h, h3, t, prev, node, node, p, i - 1, h[p].edges[i..]);
    } else {
      ghost var h1, h2, h3 := AbsorbPrevInner(st, node, prev, p, i);
      t1 := InnerMergeOk(h, h1, h2, h3, t, prev, node, node, p, i - 1, h[p].edges[i..]);
    }
  }

  /** `node` absorbs its next sibling, and their parent may then lack a key. */
  method MergeWithNext(st: Store, node: Node, next: Node, p: Node, i: nat, isLeaf: bool, ghost t: Shape)
    returns (ghost t1: Shape)
    requires st.Valid() && node in st.nodes && next in st.nodes && p in st.nodes
    requires CanMerge(Heap(st.nodes), t, node, next, node, p, i) && isLeaf == (t.places[node].height == 0)
    modifies st`nodes, st`freed, st.nodes, st.buffers, st.edgeBuffers
    ensures st.Valid() && Wf(Heap(st.nodes), t1, p) && Kept(old(Heap(st.nodes)), t, Heap(st.nodes), t1)
    ensures t1.root == t.root && t1.height == t.height && t1.places == MergedPlaces(t.places, node, next, node)
    ensures st.nodes == old(st.nodes) - {next} && st.freed == old(st.freed) + [next]
  {
    hide Arena, Heap, Wf, Kept, Node.Valid, Store.Valid, Buffered, MergeKin, FamiliesApart, FamilyApart, OuterLinks,
         OwnsEdges, LeavesJoined,
      EdgeRemoved, InnerJoined, MergedPlaces;
    ghost var h := Heap(st.nodes);
    st.Use(node);
    st.Use(next);
    st.Use(p);
    MergeReady(h, t, node, next, node, p, i);
    assert |h[next].keys| <= M / 2 && |h[node].keys| == M / 2 - 1;
    if isLeaf {
      LeafMergeReady(h, t, node, next, node, p, i);
      ghost var h3 := AbsorbNextLeaf(st, node, next, p, i);
      t1 := LeafMergeOk(h, h3, t, node, next, node, p, i, h[p].edges[i + 2..]);
    } else {
      ghost var h1, h2, h3 := AbsorbNextInner(st, node, next, p, i);
      t1 := InnerMergeOk(h, h1, h2, h3, t, node, next, node, p, i, h[p].edges[i + 2..]);
    }
  }

  method EdgeAt(p: Node, i: nat, ghost S: set<Node>) returns (edge: Node?)
    requires Arena(S) && p in S && !p.IsLeaf() && i <= p.len
    ensures i < |p.cell.edges| && edge == p.cell.edges[i]
  {
    p.ArenaAt(S);
    hide Arena;
    edge := p.edges[i];
  }

  /** What is known of a node that lacks a key and is not the root. */
  lemma HoleReady(H: Cells, t: Shape, node: Node, p: Node, i: nat)
    requires Wf(H, t, node) && node in t.places && node in H && |H[node].keys| < M / 2
    requires H[node].parent == p && H[node].parentIdx == i
    ensures node != t.root && |H[node].keys| == M / 2 - 1 && p in H && p in t.places && H[p].edges != []
    ensures t.places[p].height == t.places[node].height + 1 <= t.height
    ensures i <= |H[p].keys| && |H[p].edges| == |H[p].keys| + 1 && 1 <= |H[p].keys| && H[p].edges[i] == node
    ensures 0 < i ==> H[p].edges[i - 1] != null && H[p].edges[i - 1] in H && H[p].edges[i - 1] in t.places
    ensures i < |H[p].keys| ==> H[p].edges[i + 1] != null && H[p].edges[i + 1] in H && H[p].edges[i + 1] in t.places
  {
    hide AllLocal, AllUp, AllFill, ChainOk;
    LocalAt(H, t, node, node);
    Parent(H, t, node, node);
    if 0 < i { Child(H, t, node, p, i - 1); }
    if i < |H[p].keys| { Child(H, t, node, p, i + 1); }
    HeightBound(H, t, node, node);
  }

  /** What rebalancing around `node` leaves: a B+ tree, or one in which only the parent `p` may lack a key. */
  ghost predicate Rebalanced(H0: Cells, t0: Shape, H1: Cells, t1: Shape, p: Node, done: bool) {
    && t1.root == t0.root && t1.height == t0.height
    && Wf(H1, t1, if done then null else p) && Kept(H0, t0, H1, t1)
    && (!done ==> p in t0.places && p in t1.places && t1.places[p] == t0.places[p])
  }

  lemma MergedOthers(A: Places, left: Node, right: Node, s: Node, p: Node)
    requires left in A && right in A && p in A && p != left && p != right && (s == left || s == right)
    ensures p in MergedPlaces(A, left, right, s) && MergedPlaces(A, left, right, s)[p] == A[p]
  {
  }

  /** `node` lacks a key, and is the edge at `i` of `p`. */
  ghost predicate Underfull(H: Cells, t: Shape, node: Node, p: Node, i: nat) {
    && Wf(H, t, node) && node in t.places && node in H && |H[node].keys| < M / 2
    && H[node].parent == p && H[node].parentIdx == i
  }

  /** The node at edge `j`, if there is one, cannot spare a key. */
  ghost predicate Spent(H: Cells, p: Node, j: int) {
    p in H && (0 <= j < |H[p].edges| ==> H[p].edges[j] in H && |H[H[p].edges[j]].keys| <= M / 2)
  }

  /** One turn of the loop for a node with a parent: `node` takes from a sibling or merges with one. */
  method RebalanceAt(st: Store, node: Node, p: Node, i: nat, isLeaf: bool, ghost t: Shape)
    returns (done: bool, ghost t1: Shape)
    requires st.Valid() && node in st.nodes && p in st.nodes && Underfull(Heap(st.nodes), t, node, p, i)
    requires isLeaf == (t.places[node].height == 0)
    modifies st`nodes, st`freed, st.nodes, st.buffers, st.edgeBuffers
    ensures st.Valid() && st.nodes <= old(st.nodes)
    ensures Rebalanced(old(Heap(st.nodes)), t, Heap(st.nodes), t1, p, done)
  {
    hide Arena, Heap, Wf, Kept, Node.Valid, Store.Valid, Buffered, Underfull, Rebalanced, Spent;
    done, t1 := TakeAt(st, node, p, i, isLeaf, t);
    if !done {
      t1 := MergeAt(st, node, p, i, isLeaf, t);
    }
  }

  /** Tries to redistribute with the previous sibling, and then with the next one. */
  method TakeAt(st: Store, node: Node, p: Node, i: nat, isLeaf: bool, ghost t: Shape)
    returns (done: bool, ghost t1: Shape)
    requires st.Valid() && node in st.nodes && p in st.nodes && Underfull(Heap(st.nodes), t, node, p, i)
    requires isLeaf == (t.places[node].height == 0)
    modifies st.nodes, st.buffers, st.edgeBuffers
    ensures st.Valid()
    ensures if done then Rebalanced(old(Heap(st.nodes)), t, Heap(st.nodes), t1, p, true)
            else
              && Heap(st.nodes) == old(Heap(st.nodes))
              && Spent(Heap(st.nodes), p, i - 1) && Spent(Heap(st.nodes), p, i + 1)
  {
    hide Arena, Heap, Wf, Kept, Node.Valid, Store.Valid, Buffered;
    t1 := t;
    ghost var h := Heap(st.nodes);
    st.Use(node);
    HoleReady(h, t, node, p, i);
    st.Use(p);
    if 0 < i {
      var prev := EdgeAt(p, i - 1, st.nodes);
      st.Use(prev);
      if prev.len > M / 2 {
        t1 := TakeFromPrev(st, node, prev, p, i, isLeaf, t);
        return true, t1;
      }
    }
    if i < p.len {
      var next := EdgeAt(p, i + 1, st.nodes);
      st.Use(next);
      if next.len > M / 2 {
        t1 := TakeFromNext(st, node, next, p, i, isLeaf, t);
        return true, t1;
      }
    }
    done := false;
  }

  /** Merges with the previous sibling, or with the next one if there is none. */
  method MergeAt(st: Store, node: Node, p: Node, i: nat, isLeaf: bool, ghost t: Shape) returns (ghost t1: Shape)
    requires st.Valid() && node in st.nodes && p in st.nodes && Underfull(Heap(st.nodes), t, node, p, i)
    requires isLeaf == (t.places[node].height == 0)
    requires Spent(Heap(st.nodes), p, i - 1) && Spent(Heap(st.nodes), p, i + 1)
    modifies st`nodes, st`freed, st.nodes, st.buffers, st.edgeBuffers
    ensures st.Valid() && st.nodes <= old(st.nodes)
    ensures Rebalanced(old(Heap(st.nodes)), t, Heap(st.nodes), t1, p, false)
  {
    hide Arena, Heap, Wf, Kept, Node.Valid, Store.Valid, Buffered, MergedPlaces, MergeKin;
    ghost var h := Heap(st.nodes);
    st.Use(node);
    HoleReady(h, t, node, p, i);
    st.Use(p);
    if 0 < i {
      var prev := EdgeAt(p, i - 1, st.nodes);
      st.Use(prev);
      CanMergeHolds(h, t, prev, node, node, p, i - 1);
      MergeReady(h, t, prev, node, node, p, i - 1);
      t1 := MergeWithPrev(st, node, prev, p, i, isLeaf, t);
      MergedOthers(t.places, prev, node, node, p);
    } else {
      var next := EdgeAt(p, i + 1, st.nodes);
      st.Use(next);
      CanMergeHolds(h, t, node, next, node, p, i);
      MergeReady(h, t, node, next, node, p, i);
      t1 := MergeWithNext(st, node, next, p, i, isLeaf, t);
      MergedOthers(t.places, node, next, node, p);
    }
  }
}
