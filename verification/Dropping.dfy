/** Deallocation of a whole tree. */
module Dropping {
  import opened Seqs
  import opened Nodes
  import opened Stores
  import opened Trees
  import opened Removal
  import opened Rebalance
  import opened Structure

  /** The nodes of `s` are among the live ones `G`, and have the cells that they have in `H`. */
  ghost predicate AllLive(G: Cells, H: Cells, s: seq<Node>) {
    forall i {:trigger s[i]} :: 0 <= i < |s| ==> s[i] in G && s[i] in H && G[s[i]] == H[s[i]]
  }

  ghost function Elems(s: seq<Node>): set<Node> {
    set x | x in s
  }

  lemma LiveTop(G: Cells, H: Cells, r: seq<Node>, n: Node)
    requires AllLive(G, H, r + [n]) && Distinct(r + [n])
    ensures AllLive(G, H, r) && Distinct(r) && n !in r && n in G && n in H && G[n] == H[n]
    ensures Elems(r + [n]) == Elems(r) + {n}
  {
    var s := r + [n];
    assert s[|r|] == n;
    assert forall i :: 0 <= i < |r| ==> r[i] == s[i];
  }

  /** What comes after a dropped part is still live. */
  lemma LiveMiddle(G: Cells, H: Cells, all: seq<Node>, a: seq<Node>, b: seq<Node>, c: seq<Node>, n: Node)
    requires all == a + (b + c) && AllLive(G, H, all) && Distinct(all) && n !in all
    ensures AllLive(G - Elems(a), H, b) && Elems(a + b) == Elems(a) + Elems(b) && n !in Elems(b)
  {
    var s := a + (b + c);
    forall i | 0 <= i < |b|
      ensures b[i] in G - Elems(a) && b[i] in H && G[b[i]] == H[b[i]]
    {
      assert s[|a| + i] == b[i];
      assert forall j :: 0 <= j < |a| ==> a[j] == s[j];
    }
  }

  /** Deallocates the nodes below `node` and then `node` itself. */
  method DropNodePtr(st: Store, node: Node, height: nat, ghost H: Cells, ghost t: Shape)
    requires st.Valid() && Wf(H, t, null) && node in t.places && t.places[node].height == height
    requires AllLive(Heap(st.nodes), H, PostOrder(H, node, height))
    modifies st`nodes, st`freed, st.nodes, st.buffers, st.edgeBuffers
    ensures st.Valid() && st.freed == old(st.freed) + PostOrder(H, node, height)
    ensures Heap(st.nodes) == old(Heap(st.nodes)) - Elems(PostOrder(H, node, height))
    decreases height, 2
  {
    hide Arena, Heap, Node.Valid, Store.Valid, Accounted, Buffered, Wf, PostOrder, AllLive, Elems, Droppable;
    ghost var G := Heap(st.nodes);
    ghost var r := NodeReady(G, H, t, node, height);
    HeapKeys(st.nodes);
    st.Use(node);
    if height > 0 {
      DropEdges(st, node, height, H, t);
    }
    st.Dealloc(node);
  }

  /** What comes before a node in post-order, and what is left when that and the node have gone. */
  lemma {:induction false} NodeReady(G: Cells, H: Cells, t: Shape, node: Node, height: nat) returns (r: seq<Node>)
    requires Wf(H, t, null) && node in t.places && t.places[node].height == height
    requires AllLive(G, H, PostOrder(H, node, height))
    ensures PostOrder(H, node, height) == r + [node] && (height > 0 ==> Droppable(G, H, t, node, height))
    ensures node in G && node in H && r == if height == 0 then [] else PostOrderAll(H, H[node].edges, height - 1)
    ensures G - Elems(PostOrder(H, node, height)) == G - Elems(r) - {node} && (r == [] ==> G - Elems(r) == G)
  {
    hide Wf, LocalOk, PostOrder, PostOrderAll, AllLive;
    PostOrderOk(H, t, null, node);
    NodeLast(H, t, node, height);
    r := if height == 0 then [] else PostOrderAll(H, H[node].edges, height - 1);
    LiveTop(G, H, r, node);
  }

  lemma {:induction false} NoneDropped(F: seq<Node>, G: Cells, H: Cells, es: seq<Node?>, h: nat)
    ensures Dropped(F, G, F, G, H, es[..0], h)
  {
    NoElems();
    assert PostOrderAll(H, es[..0], h) == [];
  }

  lemma NoElems()
    ensures Elems([]) == {}
  {
  }

  lemma {:induction false} NodeLast(H: Cells, t: Shape, n: Node, h: nat)
    requires Wf(H, t, null) && n in t.places && t.places[n].height == h
    ensures n in H && PostOrder(H, n, h) == (if h == 0 then [] else PostOrderAll(H, H[n].edges, h - 1)) + [n]
    ensures h > 0 ==> |H[n].edges| == |H[n].keys| + 1
  {
    RootAt(H, t, null);
    LocalAt(H, t, null, n);
  }

  /** What is known while the edges of a node are dropped: nothing of `s` has changed, and the node is not in it. */
  ghost predicate Droppable(G: Cells, H: Cells, t: Shape, node: Node, height: nat) {
    && Wf(H, t, null) && node in t.places && t.places[node].height == height > 0
    && node in G && node in H && G[node] == H[node] && |H[node].edges| == |H[node].keys| + 1
    && var s := PostOrderAll(H, H[node].edges, height - 1); node !in s && AllLive(G, H, s) && Distinct(s)
  }

  /** What is below the nodes `es` of height `h`, and nothing else, has been deallocated since `F` and `G`. */
  ghost predicate Dropped(freed: seq<Node>, now: Cells, F: seq<Node>, G: Cells, H: Cells, es: seq<Node?>, h: nat) {
    freed == F + PostOrderAll(H, es, h) && now == G - Elems(PostOrderAll(H, es, h))
  }

  lemma {:induction false} EdgeReady(freed: seq<Node>, now: Cells, F: seq<Node>, G: Cells, H: Cells, t: Shape,
                                     node: Node, height: nat, i: nat)
    requires Droppable(G, H, t, node, height) && i < |H[node].edges|
    requires Dropped(freed, now, F, G, H, H[node].edges[..i], height - 1)
    ensures Wf(H, t, null) && |H[node].edges| == |H[node].keys| + 1
    ensures node in now ==> now[node] == H[node]
    ensures var c := H[node].edges[i];
            && c != null && c in t.places && t.places[c].height == height - 1
            && AllLive(now, H, PostOrder(H, c, height - 1)) && node !in Elems(PostOrder(H, c, height - 1))
  {
    hide Wf, LocalOk, PostOrder, PostOrderAll, AllLive, Elems;
    var es, h := H[node].edges, height - 1;
    Kid(H, t, null, node, i);
    PostOrderAt(H, es, i, h);
    LiveMiddle(G, H, PostOrderAll(H, es, h), PostOrderAll(H, es[..i], h), PostOrder(H, es[i], h),
      PostOrderAll(H, es[i + 1..], h), node);
  }

  lemma {:induction false} EdgeDropped(freed: seq<Node>, now: Cells, F: seq<Node>, G: Cells, H: Cells, es: seq<Node?>,
                                       i: nat, h: nat, freed1: seq<Node>, now1: Cells)
    requires i < |es| && es[i] != null && Dropped(freed, now, F, G, H, es[..i], h)
    requires freed1 == freed + PostOrder(H, es[i], h) && now1 == now - Elems(PostOrder(H, es[i], h))
    ensures Dropped(freed1, now1, F, G, H, es[..i + 1], h)
  {
    PostOrderAt(H, es, i, h);
    hide PostOrder, PostOrderAll;
    var a, b := PostOrderAll(H, es[..i], h), PostOrder(H, es[i], h);
    assert Elems(a + b) == Elems(a) + Elems(b);
    assert G - Elems(a) - Elems(b) == G - (Elems(a) + Elems(b));
  }

  /** Drops what is below the edge `i` of `node`. */
  method DropEdge(st: Store, node: Node, i: nat, height: nat, ghost F: seq<Node>, ghost G: Cells, ghost H: Cells,
                  ghost t: Shape)
    requires st.Valid() && Droppable(G, H, t, node, height) && i < |H[node].edges| && node in st.nodes
    requires Dropped(st.freed, Heap(st.nodes), F, G, H, H[node].edges[..i], height - 1)
    modifies st`nodes, st`freed, st.nodes, st.buffers, st.edgeBuffers
    ensures st.Valid() && st.nodes <= old(st.nodes) && node in st.nodes
    ensures Dropped(st.freed, Heap(st.nodes), F, G, H, H[node].edges[..i + 1], height - 1)
    decreases height, 0
  {
    hide Arena, Heap, Node.Valid, Store.Valid, Wf, LocalOk, PostOrder, PostOrderAll, AllLive, Elems, Dropped;
    ghost var freed, now := st.freed, Heap(st.nodes);
    EdgeReady(freed, now, F, G, H, t, node, height, i);
    st.Use(node);
    var child := EdgeAt(node, i, st.nodes);
    DropNodePtr(st, child, height - 1, H, t);
    HeapKeys(st.nodes);
    EdgeDropped(freed, now, F, G, H, H[node].edges, i, height - 1, st.freed, Heap(st.nodes));
  }

  /** Drops what is below all edges of `node`. */
  method DropEdges(st: Store, node: Node, height: nat, ghost H: Cells, ghost t: Shape)
    requires st.Valid() && node in st.nodes && Droppable(Heap(st.nodes), H, t, node, height)
    modifies st`nodes, st`freed, st.nodes, st.buffers, st.edgeBuffers
    ensures st.Valid() && st.freed == old(st.freed) + PostOrderAll(H, H[node].edges, height - 1)
    ensures Heap(st.nodes) == old(Heap(st.nodes)) - Elems(PostOrderAll(H, H[node].edges, height - 1))
    ensures node in st.nodes
    decreases height, 1
  {
    hide Arena, Heap, Node.Valid, Store.Valid, Dropped, Wf, LocalOk, PostOrder, PostOrderAll, AllLive, Elems;
    ghost var es, h, F, G := H[node].edges, height - 1, st.freed, Heap(st.nodes);
    NoneDropped(F, G, H, es, h);
    st.Use(node);
    var len := node.len;
    for i := 0 to len + 1
      invariant st.Valid() && st.nodes <= old(st.nodes) && node in st.nodes
      invariant Dropped(st.freed, Heap(st.nodes), F, G, H, es[..i], h)
    {
      DropEdge(st, node, i, height, F, G, H, t);
    }
    AllDropped(st.freed, Heap(st.nodes), F, G, H, es, h);
  }

  lemma {:induction false} AllDropped(freed: seq<Node>, now: Cells, F: seq<Node>, G: Cells, H: Cells, es: seq<Node?>,
                                      h: nat)
    requires Dropped(freed, now, F, G, H, es[..|es|], h)
    ensures freed == F + PostOrderAll(H, es, h) && now == G - Elems(PostOrderAll(H, es, h))
  {
    assert es[..|es|] == es;
  }
}
