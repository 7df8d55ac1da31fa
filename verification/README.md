# B+ tree maps in a shared arena

A model of an ordered map that is a B+ tree with fan-out 8. The nodes of all maps live in a
common store (`src/store.rs`). A node has a parent pointer and its index in the parent, the
leaves form a doubly linked chain, and insertion and removal work on the nodes in place
(`src/node.rs`, `src/map.rs`).

The model keeps the form of the code. A node is an object with fixed-size buffers for keys, values
and edges. Splits swap in loops, shifts and merges copy slices of these buffers, the two cascades are loops up the
parent pointers, and a map is an object with `root`, `length` and `height`. Node pointers are object
references, and the store is an object that records which nodes are live, which were ever allocated,
and in which order they were deallocated. Deallocating a node makes its fields and buffers unknown, so whatever is proved of a
value read from a node was read while the node was live.

## How the proofs are built

- `Nodes.Node.cell` is the value of a node, `Nodes.Heap` the finite map from the live nodes to
  their values. Each method on a node says what it does to that map and thereby what it leaves alone.
- `Trees.Wf` is the invariant of a tree: the order of keys and separators, at least half full nodes,
  leaves of equal depth, parent pointers and indices, the chain of leaves. It is stated node by node
  over a ghost assignment of a place (height and key range) to every node. It is not recursive, so a
  change to a few nodes is checked at those nodes. A separator need not be the key of an entry.
- `Trees.Wf` has a parameter for one node that may lack a key. This is what holds at every turn of the
  underflow loop. `Insertion.Pending` says that everything holds but for one new right sibling, which is
  what holds at every turn of the overflow loop.
- `Contents.FlatKeys` and `Contents.FlatVals` are the entries in the order of the chain, and
  `Maps.BTreeMap.Contents` is the finite map that they stand for. Every operation is specified by it.
- `Maps.BTreeMap.Valid` ties the fields of a map to all of this, and `Maps.BTreeMap.Outside` is
  everything in the store that belongs to somebody else.
- `Validation.PassesIffTree` says that the checks of `validate` together are as strong as `Trees.Wf`. Of these checks, those
  of the parents rule out on their own that a node is at two edges (`Sharing.OnePath`); those of the order of keys do
  not (`Sharing.OrderAllowsSharing`).

The modules: `Seqs`, `Nodes`, `Stores` (data); `Trees`, `Contents`, `Entries`, `Structure`, `Spans`
(what a tree is); `Removal`, `Merging`, `Rebalance` (underflow); `Insertion`, `Overflow` (overflow);
`Maps`, `Dropping`, `Runs` (the map); `Cursors`, `Iterators`, `Consumption`, `Ranges`,
`RangeIterators` (iteration); `Validation`, `Sharing` (the self-check).

## Where the code does not do what it is for

- `clear` (src/map.rs:293-300) leaves `height` as it is, and `insert_root` does not set it either.
  `Maps.BTreeMap.Clear` proves that the map is in shape afterwards if and only if the height was 0, and
  `Runs.ClearTall` gives nine insertions after which it is not.
- Iterating over a range (src/map.rs:1627-1655) gives up when the cursor reaches the last entry of the range,
  before that entry is yielded, and does not notice the end if the range has one entry. The cursors do not notice
  that they have met either. `RangeIterators.FromFront` and `RangeIterators.FromBack` prove exactly which entries come out
  at one end, and that these are the range if and only if it is empty or its only entry is the last (from the back: the
  first) one of the map. `RangeIterators.IterateRange` does the same for any order of turns at both ends: what comes out is
  the range if and only if it is as many entries. `RangeIterators.TwoEntries` and `RangeIterators.FourEntries` are concrete
  cases, the second with an entry that comes out twice. The bounds of a range are right: `RangeIterators.Walk` goes along
  the chain from the one to the other and meets exactly the range.
- Consuming a map from both ends leaves nodes allocated. `Consumption.IntoIter.AllFreed` proves that all nodes
  are deallocated if and only if all entries were taken from one end, and that otherwise the root stays. `Runs.ReadFreed`
  is a map of nine entries with a run that leaves the root.
- Consuming a map from both ends may also read a deallocated node: `next_back` moves its cursor before the first entry of a
  leaf by reading the length of the previous leaf (src/cursor.rs:68-75, src/map.rs:1455-1460), which the front may have
  deallocated. `Consumption.IntoIter.NextBack` proves that this leaf is live if and only if more than one entry was left
  before the call. `Consumption.Consume` proves for every run that such a read happens if and only if the last entry
  is taken from the back and is the first one of a leaf other than the first leaf. `Consumption.DeadRead` is a run in which it
  happens for every tree with more than one level, and only for those; `Runs.ReadFreed` is a map of nine entries. The entry that is yielded is always read from a live leaf.
- `validate` accepts every map without a root (src/map.rs:491-502), and so the one that `clear` leaves of a tall tree.
  `Validation.ClearedPasses` is such a map.
- A map that becomes empty by removals unlinks its last leaf without deallocating it (src/map.rs:890-892).
  The ghost field `leaked` collects these leaves, and `Runs.Run` proves that a run adds to it if and only if one of its
  operations takes the last entry of the map.

## Model

| member | source | states |
|---|---|---|
| Nodes.Node.Search | src/map.rs:726-735 | in increasing keys, `found` only at the key itself; all keys before the index are smaller and, if not found, all from it on are larger |
| Nodes.Node.InsertVal | src/node.rs:340-363 | keys and values become the old ones with the entry inserted at the index, every other node of the arena is unchanged |
| Nodes.Node.RemoveVal | src/node.rs:434-458 | returns the entry at the index, which is deleted; every other node is unchanged |
| Nodes.Node.ReplaceKey | src/node.rs:526-531 | returns the old key, and only that key changes |
| Nodes.Node.ReplaceVal | src/node.rs:535-540 | returns the old value, and only that value changes |
| Nodes.Node.InsertEdge | src/node.rs:367-419 | key and edge are inserted before or after, and exactly the edges behind the new one have their parent index moved up by one |
| Nodes.Node.RemoveEdge | src/node.rs:462-504 | returns key and edge, which are deleted, and exactly the edges behind have their parent index moved down by one |
| Nodes.Node.RemoveLastEdge | src/node.rs:508-522 | returns the last key and the last edge, and the node has the rest |
| Nodes.Node.SetLastEdge | src/node.rs:423-430 | only that edge changes |
| Nodes.Node.SwapToIndex | src/node.rs:561-571 | swapping the pending entry to the middle keeps keys and values with the pending entry put in equal to the insertion that was asked for |
| Nodes.Node.SplitLeaf | src/node.rs:548-590 | for every insertion index, left and right part together are the sorted insertion, cut in the middle; the median is the first key of the right part, which also takes over the `next` link |
| Nodes.Node.SwapEdgeUp | src/node.rs:618-628 | swapping key and edge up keeps them paired as in the insertion, and leaves every edge passed on the way with its final parent index |
| Nodes.Node.SplitInternal | src/node.rs:598-661 | for every insertion index, left part, median and right part together are the keys with the new one inserted; every edge is on the right side of its key and numbered from 0 in its part |
| Nodes.Node.MergePrevLeaf | src/node.rs:666-702 | the entries of the other leaf come before this leaf's, and its `prev` link is taken over |
| Nodes.Node.MergeNextLeaf | src/node.rs:707-733 | the entries of the other leaf come after this leaf's, and its `next` link is taken over |
| Nodes.Node.MergePrevInternal | src/node.rs:738-780 | keys of the other node, middle key, own keys, with the edges in the same order; exactly the own edges are renumbered behind the absorbed ones |
| Nodes.Node.MergeNextInternal | src/node.rs:785-816 | own keys, middle key, keys of the other node, with the edges in the same order; exactly the absorbed edges are renumbered behind the own ones |
| Nodes.SplittingUp | src/node.rs:618-628 | one swap upwards with its renumbering keeps what the split of an internal node has to maintain |
| Nodes.SplittingDown | src/node.rs:629-637 | one swap downwards keeps it |
| Nodes.SplittingEnd | src/node.rs:639-661 | after the cut, both parts' edges have their numbers and nothing else has changed |
| Stores.Store.Alloc | src/store.rs:18-20 | the node is live, all others are unchanged, and no node is ever allocated twice |
| Stores.Store.Dealloc | src/store.rs:23-25 | only a live node can be deallocated, once, and all others are unchanged; of the fields and buffers of the node nothing is known from then on |
| Trees.HeightBound | src/map.rs:407-414 | only the root is as high as the tree |
| Trees.ChainOrder | src/node.rs:40-50 | the key ranges of the leaves increase along the chain |
| Trees.Neighbours | src/node.rs:40-50 | leaves with adjacent ranges are linked to each other in both directions |
| Entries.Sorted | src/map.rs:379-506 | along the chain the keys are strictly increasing, whatever the separators are |
| Entries.DescendOk | src/map.rs:726-738 | the edge after an equal separator, or at the insertion point, covers the key |
| Entries.LeafDecides | src/map.rs:726-738 | the key is in the tree exactly if it is in the leaf that covers it, at the same place in the order |
| Entries.SplitsTree | src/map.rs:715-743 | the insertion point in the covering leaf is the one insertion point in all entries |
| Entries.ToMapIns | src/map.rs:201-216 | inserting into the sorted entries is `m[key := val]` on the map that they stand for |
| Entries.ToMapDel | src/map.rs:241-253 | deleting from the sorted entries removes that key from the map |
| Entries.SameMapSameEntries | src/map.rs:1015-1018 | sorted entries are determined by the map that they stand for |
| Removal.LeafFromPrevOk | src/map.rs:905-919 | a leaf that lacks a key is repaired by the last entry of its previous sibling with the separator set to it: the whole tree is well-formed, the entries are the same |
| Removal.LeafFromNextOk | src/map.rs:922-940 | the same with the first entry of the next sibling and its second key as separator |
| Removal.InnerFromPrevOk | src/map.rs:912-918 | an internal node is repaired by rotating the last edge of its previous sibling through the parent |
| Removal.InnerFromNextOk | src/map.rs:932-940 | the same with the first edge of the next sibling |
| Removal.LoweredOk | src/map.rs:893-900 | the only edge of an empty root can be the root of a well-formed tree, one level lower |
| Removal.HoleFilled | src/map.rs:884-891 | if the node that may lack a key does not, nothing is missing |
| Removal.RootLeaf | src/map.rs:886-892 | a root that is a leaf is the only node |
| Merging.LeafMergeOk | src/map.rs:945-985 | merging two leaves in either direction and removing the edge leaves a tree in which only the parent may lack a key, with the same entries and the chain closed |
| Merging.InnerMergeOk | src/map.rs:945-985 | the same for two internal nodes |
| Merging.ChainMergedOk | src/map.rs:948-951 | one leaf takes the place of two neighbours in the chain |
| Rebalance.TakeFromPrev | src/map.rs:905-919 | the code that takes from the previous sibling gives a well-formed tree with the same entries and nodes |
| Rebalance.TakeFromNext | src/map.rs:922-940 | the code that takes from the next sibling does too |
| Rebalance.MergeWithPrev | src/map.rs:945-964 | the previous sibling is absorbed and deallocated, the same entries stay, and only the parent may lack a key |
| Rebalance.MergeWithNext | src/map.rs:965-985 | the next sibling is absorbed and deallocated, likewise |
| Rebalance.TakeAt | src/map.rs:904-941 | either the tree is repaired, or nothing has changed and neither sibling can spare a key |
| Rebalance.RebalanceAt | src/map.rs:904-990 | one turn of the underflow loop repairs the tree or moves the one missing key to the parent; entries are kept, no node is added |
| Insertion.LeafSplitOk | src/map.rs:822-829 | after a leaf split all is well but for the new leaf, which the parent does not know yet; the chain goes through it |
| Insertion.LeafSplitEntries | src/map.rs:822-829 | the chain then has exactly one more entry, at its place |
| Insertion.AttachOk | src/map.rs:851-855 | giving the new node to a parent with room makes the tree well-formed |
| Insertion.GrowOk | src/map.rs:832-846 | a new root over both parts makes a well-formed tree, one level higher |
| Insertion.SplitUpOk | src/map.rs:857-869 | splitting a full parent around the new edge leaves all well but for the upper part of the parent |
| Insertion.InnerSplit | src/node.rs:598-661 | an internal node that is right at its place can be cut at any key into two that are |
| Overflow.SplitFullLeaf | src/map.rs:822-829 | the code for a leaf split has exactly that effect on the heap, with all three chain links set |
| Overflow.PlantRoot | src/map.rs:832-846 | the code for a new root has exactly that effect on the heap |
| Overflow.SplitLeafAt | src/map.rs:817-829 | from a well-formed tree and a full leaf to the pending state with the new entry in it |
| Overflow.AttachAt | src/map.rs:851-855 | from the pending state to a well-formed tree with the same entries, if the parent has room |
| Overflow.SplitInnerAt | src/map.rs:857-869 | from the pending state to the pending state one level higher, with the same entries |
| Overflow.GrowAt | src/map.rs:832-846 | from the pending state at the root to a well-formed tree, with the same entries |
| Maps.BTreeMap.constructor | src/map.rs:69-77 | a new map is in shape, empty and owns no node |
| Maps.BTreeMap.FindKey | src/map.rs:715-743 | `At` exactly if the map has the key, otherwise the one place in leaf order where it belongs; the number of visited nodes is the height and one, and 8 * 5^(visits-2) <= length |
| Maps.BTreeMap.DescentBound | src/map.rs:715-743 | the height is logarithmic in the number of entries, from above and from below |
| Maps.BTreeMap.FirstLeaf | src/map.rs:697-703 | the first leaf of the chain |
| Maps.BTreeMap.LastLeaf | src/map.rs:706-712 | the last leaf of the chain |
| Maps.BTreeMap.InsertRoot | src/map.rs:799-807 | an empty map gets its one entry in shape |
| Maps.BTreeMap.ClimbOnce | src/map.rs:831-870 | one turn of the overflow loop: the tree plus the detached right sibling already holds exactly the new contents, and the turn finishes or moves up one level |
| Maps.BTreeMap.ClimbUp | src/map.rs:831-870 | the overflow loop ends, and restores the invariant |
| Maps.BTreeMap.InsertBefore | src/map.rs:810-873 | one entry is added at the insertion point, the whole invariant holds, nothing outside changes |
| Maps.BTreeMap.Turn | src/map.rs:884-991 | one turn of the underflow loop: contents stay final, and at most the parent lacks a key afterwards |
| Maps.BTreeMap.ShrinkRoot | src/map.rs:885-902 | an empty root leaf or a root with one edge goes, and the whole invariant holds |
| Maps.BTreeMap.PostRemoval | src/map.rs:876-992 | the underflow loop ends, and restores the whole invariant without changing an entry or anything outside |
| Maps.BTreeMap.Get | src/map.rs:105-113 | the value of the key exactly if the map has it |
| Maps.BTreeMap.Insert | src/map.rs:201-216 | contents become `m[key := val]`, the previous value is returned, the whole invariant is kept, nothing outside the map changes |
| Maps.BTreeMap.GetOrInsert | src/map.rs:221-238 | the address of the key's value, in a live node, which is inserted only if the key was not there |
| Maps.BTreeMap.RemoveKeyValue | src/map.rs:241-253 | contents lose exactly that key, the stored pair is returned, the whole invariant is kept; if the key was not there, no node changes |
| Maps.BTreeMap.Remove | src/map.rs:257-262 | the same, returning the value |
| Maps.BTreeMap.PopFirst | src/map.rs:266-275 | removes and returns the first entry, and nothing only of an empty map |
| Maps.BTreeMap.PopLast | src/map.rs:279-289 | removes and returns the last entry, and nothing only of an empty map |
| Maps.BTreeMap.UpdateAndReturn | src/map.rs:311-358 | the function, which may panic, is given the value of the key exactly if the map has it; if it returns a value the key has that one, if it returns none or panics the key is gone, its result is returned, no other key changes, and the whole invariant is kept |
| Maps.BTreeMap.Extend | src/map.rs:1045-1049 | the keys are the old ones and those of the items, a key has the value of the last item with it, and a key of no item keeps its value |
| Maps.ExtendedAt | src/map.rs:1045-1049 | the same of inserting one after the other into a finite map |
| Maps.BTreeMap.Clear | src/map.rs:293-300 | the nodes of the tree are deallocated, and the map is in shape afterwards if and only if the height was 0 |
| Maps.BTreeMap.Drop | src/map.rs:1054-1066 | exactly the nodes of the tree are deallocated, children before parents, and nothing else |
| Dropping.DropNodePtr | src/map.rs:1068-1089 | deallocates the nodes below a node in post-order, each once, while they are still live |
| Structure.ChainIsLeaves | src/map.rs:697-712 | following the chain visits exactly the leaves of the tree from left to right |
| Structure.TreeIsPostOrder | src/map.rs:1068-1089 | going down from the root reaches every node of the tree exactly once, and each one before its parent |
| Structure.OneEdge | src/map.rs:407-414 | no node is at two edges |
| Structure.TreeSize | src/map.rs:416-422 | a tree of height h >= 1 has between 8 * 5^(h-1) and 8 * 9^h entries |
| Spans.Disjoint | src/map.rs:416-470 | nodes of one height have disjoint key ranges |
| Spans.HiUp | src/map.rs:1137-1152 | a node that ends where a higher one does is the last edge of its parent |
| Spans.LoUp | src/map.rs:1099-1117 | a node that starts where a higher one does is the first edge of its parent |
| Cursors.NextAddress | src/cursor.rs:50-60 | the address after that of entry p is that of entry p + 1, and there is none after the last |
| Cursors.PrevAddress | src/cursor.rs:64-77 | the address before that of entry p is that of entry p - 1, and there is none before the first |
| Cursors.AddressUnique | src/cursor.rs:92-95 | an entry has one address |
| Cursors.NextThenPrev | src/cursor.rs:50-77 | going on and going back undo each other on adjacent entries |
| Cursors.Cursor.Advance | src/cursor.rs:50-60 | the cursor moves to the next address |
| Cursors.Cursor.AdvanceBack | src/cursor.rs:64-77 | the cursor moves to the previous address; whether the length of a leaf that is not live has been read, in which case the new index is unknown |
| Iterators.EndCursors | src/map.rs:1201-1208 | both cursors start at the ends of the chain, the front one at its first and the back one at its last entry |
| Iterators.Iter.Next | src/map.rs:1230-1257 | in any interleaving with `NextBack` yields the next entry from the front, `length` counts what is left, and nothing comes after that |
| Iterators.Iter.NextBack | src/map.rs:1240-1271 | the same from the back |
| Iterators.Iterate | src/map.rs:1249-1281 | a whole run, for any order of turns: entry i from the front is the i-th one and entry i from the back the i-th one from the end, as many come from the front as there are turns for it, the number left is exact, and once nothing is left both make up all entries |
| Iterators.PairsDecide | src/map.rs:1015-1018 | sorted entries are equal exactly if the maps that they stand for are |
| Iterators.Equal | src/map.rs:1015-1018 | comparing the entries of two maps decides whether their contents are equal, whatever the shapes of the trees |
| Consumption.DeallocUpLasts | src/map.rs:1125-1153 | deallocates exactly the nodes that end with this leaf and are not deallocated yet, each after all its edges |
| Consumption.DeallocUpFirsts | src/map.rs:1095-1118 | deallocates exactly the nodes that start with this leaf and are not deallocated yet, each after all its edges |
| Consumption.FreeNode | src/map.rs:1110-1111 | the parent and the index there are read while the node is live, and then the node is deallocated, after all its edges |
| Consumption.Isolated | src/map.rs:1408-1421 | a tree is well-formed by itself, independently of all other nodes of the store |
| Consumption.EndsApart | src/map.rs:1428-1462 | as long as entries are left, the leaves of both cursors are live: neither end has deallocated past the other |
| Consumption.IntoIter.constructor | src/map.rs:1408-1421 | takes over the whole tree with its entries |
| Consumption.IntoIter.Next | src/map.rs:1428-1440 | yields the entry of the sorted contents at its position from the front, which can only be read before its leaf is deallocated; live nodes only become fewer |
| Consumption.IntoIter.NextBack | src/map.rs:1450-1462 | the same from the back; the previous leaf, if its length is read, is live if and only if more than one entry was left |
| Consumption.IntoIter.NeverTwice | src/map.rs:1428-1462 | in any interleaving every entry comes once and in order, and no node is deallocated twice or before its edges |
| Consumption.IntoIter.LiveExactly | src/map.rs:1095-1153 | at any time, a node is live if and only if the entries below it have not all been taken from the front, and not all from the back |
| Consumption.IntoIter.AllFreed | src/map.rs:1095-1153 | once everything is yielded, all nodes are deallocated if and only if all entries came from one end, and otherwise the root stays live |
| Consumption.IntoIter.ReadLive | src/cursor.rs:68-75 | the leaf whose length moving the back cursor reads is live if and only if more than one entry is left |
| Consumption.IntoIter.LastRead | src/cursor.rs:68-75 | with one entry left a previous leaf is read if and only if the entry is the first one of a later leaf |
| Consumption.PrevLive | src/cursor.rs:68-75 | the same, over the cells and the nodes deallocated so far |
| Consumption.Consume | src/map.rs:1424-1472 | a whole run, for any order of turns: which entries come from which end, how much is left, which nodes are deallocated, exactly when all of them or the root are, and exactly when a deallocated node is read |
| Consumption.DeadRead | src/map.rs:1450-1462 | for every map a run to its end that leaves the root live and whose last turn takes, from the back, the first entry of a leaf whose previous leaf is deallocated: it does if and only if the tree has more than one level |
| Ranges.NormalizeAddress | src/node.rs:838-848 | the address of the entry at an index that may be one past the leaf, if there is one |
| Ranges.AddressBefore | src/node.rs:852-858 | the address of the entry before an index, if there is one |
| Ranges.AddressAfter | src/node.rs:862-873 | the address of the entry after an index, if there is one |
| Ranges.StartAddress | src/map.rs:750-764 | the first entry that is not before the bound, if there is one |
| Ranges.EndAddress | src/map.rs:765-779 | the last entry that is not after the bound, if there is one |
| Ranges.RangeIsSlice | src/map.rs:746-796 | between both indices, if the first is at most the second, are exactly the keys in the range |
| Ranges.IndicesInOrder | src/map.rs:746-796 | the first index is at most the second if and only if every key is after the start or before the end, and always so unless the start is past the end or both exclude the same key |
| Ranges.TouchingDecides | src/map.rs:781-786 | the comparison of addresses detects exactly the ranges that have no entry |
| Ranges.Bounds | src/map.rs:746-796 | for all bounds, the indices at which the keys after the start begin and those before the end stop; if the first is at most the second, nothing exactly if they are equal, and otherwise the addresses of the first and the last entry of the range; when the first is at most the second |
| RangeIterators.Walk | src/map.rs:746-796 | going along the chain from the first address to the last one, both included, meets exactly the entries of the range in order, unless some keys are neither after the start nor before the end |
| RangeIterators.SameAddress | src/map.rs:1627-1639 | addresses are equal exactly if they are those of the same entry |
| RangeIterators.Range.constructor | src/map.rs:1588-1611 | the cursors start at the ends of the range, and are detached exactly if the range is empty, for indices in order |
| RangeIterators.Range.Advance | src/map.rs:1627-1639 | the cursor moves on, and both cursors are detached when it reaches the last entry of the range or the end of the map |
| RangeIterators.Range.AdvanceBack | src/map.rs:1643-1655 | the same towards the first entry of the range or the start of the map |
| RangeIterators.Range.Next | src/map.rs:1662-1666 | yields the entry at the cursor and moves on, or detaches both cursors on reaching the last entry of the range or the end of the map |
| RangeIterators.Range.NextBack | src/map.rs:1671-1675 | yields the entry at the back cursor and moves on, or detaches both cursors on reaching the first entry of the range or the start of the map |
| RangeIterators.BoundsUnique | src/map.rs:746-796 | a range determines its two indices among the sorted keys |
| RangeIterators.FromFront | src/map.rs:606-611 | for a range from index s to before e: nothing if e = s, all entries from s on if e = s + 1, those from s to before e - 1 otherwise, which is the range if and only if it is empty or its only entry is the last of the map |
| RangeIterators.FromBack | src/map.rs:606-611 | for a range from index s to before e, in reverse: nothing if e = s, all entries before e if e = s + 1, those from s + 1 to before e otherwise, which is the range if and only if it is empty or its only entry is the first of the map |
| RangeIterators.IterateRange | src/map.rs:1662-1675 | for any order of turns, exactly which entries come out at both ends, that the run stops when one end has had no entry for an empty range, all on its side of a single entry, or all but one of a longer range, and that what comes out is the range if and only if it is as many entries |
| RangeIterators.RangingTurn | src/map.rs:1627-1655 | one turn at either end: it yields the next entry, and both ends stop together when one has used up its quota |
| RangeIterators.TwoEntries | src/map.rs:1627-1655 | a map of two entries: the range of both misses one from either end, and the range of the first alone goes on to the second |
| RangeIterators.FourEntries | src/map.rs:1627-1655 | a map of four entries and five alternating turns: the cursors cross, and one entry comes out twice |
| RangeIterators.WholeRange | src/map.rs:606-611 | the range without bounds misses the last entry of every map with two or more |
| Runs.DoesUnique | src/map.rs:201-358 | each operation has one outcome on a finite map |
| Runs.DoesMeans | src/map.rs:201-358 | what each operation does to a finite map, said of each key, and what it returns |
| Runs.RunsUnique | src/map.rs:201-358 | so has each run |
| Runs.RunIsTrace | src/map.rs:201-358 | a run is a sequence of maps with one operation between each two of them |
| Runs.RunOne | src/map.rs:201-358 | every operation does to the map what it does to a finite map |
| Runs.Run | src/map.rs:201-358 | every run of operations is simulated by the same run on a finite map, and it leaves a node behind if and only if one of its operations takes the last entry of the map |
| Runs.EmptiesIff | src/map.rs:885-892 | whether an operation of a run empties the map is decided by the contents before and after it |
| Runs.RunBeside | src/store.rs:5-7 | an operation on one of two maps in a store leaves the other's nodes, contents and shape unchanged, and the maps stay disjoint |
| Runs.RunAt | src/store.rs:5-7 | an operation on one of any number of maps in a store does its work, leaves the contents of all others and everything outside unchanged, and the maps stay in shape and disjoint |
| Runs.RunAll | src/store.rs:5-7 | any interleaving of operations on any number of maps in a store is, for each of them, a run of its own operations on a finite map, which leaves a node behind if and only if one of them takes that map's last entry; nothing outside the maps changes |
| Runs.OpsOfAt | src/store.rs:5-7 | the operations of one map in an interleaving: each one for it, in order, with its outcome, and no others |
| Runs.EveryNode | src/map.rs:1054-1089 | every node ever allocated is deallocated once, another map's, left behind by an emptied tree, or at one position of the tree |
| Runs.ReadFreed | src/map.rs:1450-1462 | nine insertions and a consumption of that tree to its end, with its turns and what it yields, that reads a deallocated leaf last and leaves the root live |
| Runs.ClearTall | src/map.rs:293-300 | nine insertions and `clear` give a map that is empty but not in shape |
| Validation.PassesIffTree | src/map.rs:379-506 | for a root with the given number of levels below it, the checks of the pass all hold if and only if the nodes form a well-formed tree |
| Validation.PassedIsTree | src/map.rs:384-490 | nodes that pass can all be given places, with no node in two |
| Validation.TreePasses | src/map.rs:384-490 | every node of a well-formed tree passes |
| Validation.InsideApart | src/map.rs:416-460 | two groups of nodes that all have keys, as the fill checks demand, share no node if the first keys of the one lie in a range that ends where the range of the other's begins |
| Sharing.ParentOnPath | src/map.rs:407-414 | under the checks of the parents alone, a node that is reached from the root has the node before it on the way as its parent, and its index among that node's edges |
| Sharing.OnePath | src/map.rs:407-414 | the checks of the parents alone rule out shared nodes: every node is reached from the root by one path |
| Sharing.NodeOkParents | src/map.rs:407-414 | the pass makes the checks of the parents |
| Sharing.NodeOkOrder | src/map.rs:425-460 | the pass makes the checks of the order of keys, and ends with the last key |
| Sharing.OrderAllowsSharing | src/map.rs:425-460 | the checks of the order alone do not rule out shared nodes: a root with two edges to the same empty leaf passes them |
| Validation.ValidateKeys | src/map.rs:428-445 | decides whether the keys of a leaf increase, the first one from the last key seen before, and returns the last one |
| Validation.ValidateNode | src/map.rs:384-490 | the single pass that threads the last key and the last leaf decides all checks below a node, and counts the entries |
| Validation.Validate | src/map.rs:379-506 | accepts the fields of a map if and only if there is no root, or a well-formed tree with that root and height that holds `length` entries |
| Validation.ClearedPasses | src/map.rs:293-300 | a map that is no longer in shape after it has been cleared is accepted |
| Validation.MapPasses | src/map.rs:379-506 | the fields of every map in shape are accepted |

## Left out

- Keys and values: both are mathematical integers in the model. A total order and a clone that preserves equality are assumed.
- `u16` lengths and indices: all of them are at most 9, so they are natural numbers in the model. `usize` lengths and heights are unbounded.
- The binary search of the standard library: `Nodes.Node.Search` is a search of the model's own with the same contract.
- Unions, uninitialized memory, raw copies and drop glue: reading outside of the initialized part of a buffer is excluded by proof, but how it is laid out is not modelled. A copy of a slice assigns all its elements at once.
- Nodes.Node.SplitLeaf: requires an even length, as the node has when it is full. With an odd one the lengths of the copied slices would differ.
- Nodes.Node.SplitInternal: requires an even length, for the same reason.
- Panics: only the one of the function given to `UpdateAndReturn` is modelled, as an outcome. That function has no other effects.
- The slab arena behind the store: it is only the set of live nodes, with the history of allocations and deallocations.
- The last leaf of a map that removals have emptied: it is unlinked and not deallocated, so the full accounting of nodes has the extra term `leaked`.
- RangeIterators.IterateRange: if some keys are neither after the start nor before the end (the start is past the end, or both exclude the same key), the code defines no result. For such bounds only the addresses of a returned pair are described, and from one end that either nothing comes out or everything on that side.
- Cursors.Cursor.AdvanceBack: a length of 0 read from a deallocated leaf gives the index that wraps below 0; builds that check for overflow panic instead.
- Validation.Validate: the levels below the root are required to be there, as the pass would follow dangling pointers otherwise. It returns a flag, and not the messages that the code collects.
- Mutable iterators, keys and values iterators and peeking: they step like `Iter` and `Range`.
- The node iterator and the tracing collection of the copyable variants, sets, hashing, ordering of maps, printing, benchmarks.
- Debug assertions, apart from those whose truth is a precondition of the proofs.
