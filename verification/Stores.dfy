/** The arena that the nodes of all maps live in. */
module Stores {
  import opened Seqs
  import opened Nodes

  class Store {
    /** The live nodes. */
    ghost var nodes: set<Node>
    /** The buffers of all nodes ever live. */
    ghost var buffers: set<array<int>>
    ghost var edgeBuffers: set<array<Node?>>
    /** The nodes ever allocated, and those deallocated, in order. */
    ghost var allocs: seq<Node>
    ghost var freed: seq<Node>

    ghost predicate Valid()
      reads this, nodes, buffers, edgeBuffers
    {
      Buffered(nodes, buffers, edgeBuffers) && Arena(nodes) && Accounted(nodes, allocs, freed)
    }

    /** Since the old state the store has only got fresh nodes and fresh buffers. */
    twostate predicate Grown()
      reads this
    {
      && fresh(nodes - old(nodes)) && fresh(buffers - old(buffers)) && fresh(edgeBuffers - old(edgeBuffers))
    }

    /** What is known of a live node. */
    lemma Use(n: Node)
      requires Valid() && n in nodes
      ensures Arena(nodes) && Buffered(nodes, buffers, edgeBuffers) && Accounted(nodes, allocs, freed)
      ensures n.keys in buffers && n.vals in buffers && n.edges in edgeBuffers
      ensures Heap(nodes).Keys == nodes && Heap(nodes)[n] == n.cell && n.len == |n.cell.keys| <= M
      ensures n.parent == n.cell.parent && n.parentIdx == n.cell.parentIdx && n.prev == n.cell.prev &&
              n.next == n.cell.next
      ensures if n.IsLeaf() then n.cell.edges == [] && |n.cell.vals| == n.len else |n.cell.edges| == n.len + 1
    {
      n.Known(nodes);
    }

    lemma Parts()
      requires Valid()
      ensures Arena(nodes) && Buffered(nodes, buffers, edgeBuffers) && Accounted(nodes, allocs, freed)
    {
    }

    lemma Keep()
      requires Arena(nodes) && Buffered(nodes, buffers, edgeBuffers) && Accounted(nodes, allocs, freed)
      ensures Valid()
    {
    }

    constructor ()
      ensures nodes == {} && allocs == [] && freed == [] && Valid()
    {
      nodes, buffers, edgeBuffers, allocs, freed := {}, {}, {}, [], [];
    }

    /** Makes a node live. */
    method Alloc(n: Node)
      requires Valid() && n.Valid() && n !in allocs && forall m :: m in nodes ==> Apart(m, n)
      modifies this`nodes, this`buffers, this`edgeBuffers, this`allocs
      ensures nodes == old(nodes) + {n} && n !in old(nodes) && Valid() && allocs == old(allocs) + [n]
      ensures buffers == old(buffers) + {n.keys, n.vals} && edgeBuffers == old(edgeBuffers) + {n.edges}
      ensures Heap(nodes) == old(Heap(nodes))[n := n.cell]
    {
      hide Arena, Heap, Accounted;
      AccountedAlloc(nodes, allocs, freed, n);
      ArenaAdd(nodes, n);
      nodes := nodes + {n};
      buffers, edgeBuffers := buffers + {n.keys, n.vals}, edgeBuffers + {n.edges};
      allocs := allocs + [n];
    }

    /** Ends the life of a live node. From then on nothing is known of its fields and buffers. */
    method Dealloc(n: Node)
      requires Valid() && n in nodes
      modifies this`nodes, this`freed, n, n.keys, n.vals, n.edges
      ensures nodes == old(nodes) - {n} && Valid() && freed == old(freed) + [n]
      ensures Heap(nodes) == old(Heap(nodes)) - {n}
    {
      hide Accounted, Node.Valid;
      AccountedDealloc(nodes, allocs, freed, n);
      ghost var rest := nodes - {n};
      assert forall m :: m in rest ==> Apart(m, n);
      modify n, n.keys, n.vals, n.edges;
      assert forall m :: m in rest ==> m.Valid();
      nodes, freed := rest, freed + [n];
    }
  }

  /** Every node is allocated once and deallocated at most once, and is live in between. */
  ghost predicate Accounted(nodes: set<Node>, allocs: seq<Node>, freed: seq<Node>) {
    && Distinct(allocs) && Distinct(freed)
    && (forall n :: n in allocs ==> n in nodes || n in freed)
    && (forall n :: n in nodes ==> n in allocs)
    && (forall n :: n in freed ==> n in allocs && n !in nodes)
  }

  lemma ArenaAdd(S: set<Node>, n: Node)
    requires Arena(S) && n.Valid() && forall m :: m in S ==> Apart(m, n)
    ensures Arena(S + {n}) && Heap(S + {n}) == Heap(S)[n := n.cell]
  {
  }

  lemma AccountedAlloc(nodes: set<Node>, allocs: seq<Node>, freed: seq<Node>, n: Node)
    requires Accounted(nodes, allocs, freed) && n !in allocs
    ensures Accounted(nodes + {n}, allocs + [n], freed)
  {
  }

  lemma AccountedDealloc(nodes: set<Node>, allocs: seq<Node>, freed: seq<Node>, n: Node)
    requires Accounted(nodes, allocs, freed) && n in nodes
    ensures Accounted(nodes - {n}, allocs, freed + [n])
  {
  }
}
