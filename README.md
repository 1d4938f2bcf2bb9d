# Indexed min-heap and weighted graph

This project models two classes of a small graph-algorithms repository:

- `Min_Heap` in heap.py. It is a binary min-heap of (key, value) items laid out in a list.
  Beside the list it keeps an `index` dictionary from each value to the slot that holds it.
  It offers `key`, `left`, `right`, `parent`, `swap`, `min_heapify`, `extract_min`, `insert`,
  `decrease_key`, `__len__`, `__bool__` and `__contains__`.
- `Graph` in graph.py. It is a weighted graph kept as two dictionaries: `adjacent`
  (vertex to set of neighbours) and `weight` ((from, to) to weight). It offers
  `addDirectedEdge`, `addUndirectedEdge`, `numVertices`, `vertices` and `edges`.

Both are modelled in their own imperative form.

- heap.dfy (module `IndexedMinHeap`) has the class `MinHeap`. Its fields are
  `heap: seq<Item<V>>` and `index: map<V, nat>`, and its methods reassign them.
  - The object invariant `Valid()` is heap order (`HeapOrdered`) plus the value/slot
    bijection (`Indexed`).
  - The abstract content is `Keys()`, the map from each present value to its key.
  - `decrease_key`'s `while` loop keeps heap.py's "hole" technique: parents are
    shifted down and the item is written back once. Its invariant `HoleInv` says
    that writing the item into the hole would give an indexed list with the
    intended content, ordered everywhere except at the hole.
- graph.dfy (module `WeightedGraph`) has the class `Graph`. Its fields are
  `adjacent: map<int, set<int>>` and `weight: map<(int, int), int>`.
  - The two mutators are specified by the pure functions `AddDirected` and
    `AddUndirected` on a `Tables` value.
  - The queries are functions reading the fields.
  - The invariant "every neighbour has a weight" (`WeightsCover`) is kept by every
    edge insertion; "the vertices are 0 .. n-1" (`Contiguous`) is kept by edges whose
    endpoints already have entries.

## Model

| member | source | states |
|---|---|---|
| IndexedMinHeap.Parent | heap.py:56-60 | the root's parent is -1 (floor division); any other slot's parent is a smaller slot |
| IndexedMinHeap.Left | heap.py:42-46 | the left child of i lies after i and its parent is i |
| IndexedMinHeap.Right | heap.py:49-53 | the right child of i is the slot after the left child and its parent is i |
| IndexedMinHeap.ChildOfParent | heap.py:42-60 | every non-root slot is the left or the right child of its parent |
| IndexedMinHeap.RootIsMin | heap.py:82-86 | in a heap-ordered list the root's key is at most every key, which is why extract_min returns the smallest key |
| IndexedMinHeap.SubHeapAtRoot | heap.py:92 | a heap under slot 0 is heap order of the whole list |
| IndexedMinHeap.IndexedSize | heap.py:135-139 | with the bijection, the list is exactly as long as the index has entries |
| IndexedMinHeap.IndexedPop | heap.py:90-91 | popping the last item and deleting its index entry keeps the bijection and removes just that value from the content |
| IndexedMinHeap.IndexedAppend | heap.py:100-101 | appending an item and indexing it at the last slot keeps the bijection and adds just that value with its key |
| IndexedMinHeap.SameContentSameItems | heap.py:63-79 | two indexed lists with the same content hold the same multiset of items, so any operation that keeps the content and the bijection permutes the items |
| IndexedMinHeap.ItemsMultiset | heap.py:1-11 | under the bijection, the multiset of items is exactly the (key, value) pairs of the content, each once |
| IndexedMinHeap.ContentItemsRemove | heap.py:90-91 | dropping v from a content drops exactly v's (key, value) pair from the items it describes |
| IndexedMinHeap.RemovedItem | heap.py:89-91 | when the content loses exactly v, the multiset of items loses exactly v's item (so extract_min removes only the returned pair, and insert adds only its new item) |
| IndexedMinHeap.ReplacedItem | heap.py:113-115 | when v's key changes to k in the content, the multiset of items exchanges v's old item for (k, v) and keeps every other item |
| IndexedMinHeap.Swapped | heap.py:132 | the list with slots i and j exchanged: those two slots swap and every other slot keeps its item |
| IndexedMinHeap.SwappedPermutes | heap.py:132 | exchanging two slots keeps the multiset of items |
| IndexedMinHeap.SwapKeepsIndex | heap.py:127-132 | exchanging two slots and both index entries keeps the bijection and the value-to-key content |
| IndexedMinHeap.OrderedIsOrderedExcept | heap.py:105-112 | a heap is ordered except at any slot, so decrease_key may be called on any present value of a valid heap |
| IndexedMinHeap.LowerKey | heap.py:113-115 | giving v's item the lower key k leaves a list that is heap-ordered except at v's slot, with content updated to v ↦ k |
| IndexedMinHeap.HoleStep | heap.py:117-121 | one loop iteration (the parent moves down into the hole and is re-indexed there) keeps the hole invariant, one level up |
| IndexedMinHeap.HoleDone | heap.py:123-124 | once the loop stops (root reached or parent key ≤ k), writing the item into the hole and indexing it gives a heap with the bijection and content K |
| IndexedMinHeap.ExtractPrep | heap.py:89-91 | swapping root and last item, popping it and deleting its entry keeps the bijection, leaves both root subtrees heaps and removes exactly the old root's value |
| IndexedMinHeap.ForSiftDown | heap.py:77-79 | after swapping slot i with its smaller child m, the subtrees under m's children are still heaps, so the recursive call is allowed |
| IndexedMinHeap.SiftDownStep | heap.py:77-79 | after the swap and the recursive call on m, the subtree under i is a heap |
| IndexedMinHeap.MinHeap.constructor | heap.py:27-32 | a new heap is empty and satisfies the invariant |
| IndexedMinHeap.MinHeap.Key | heap.py:35-39 | key(v) is v's key in the content and the item (key, v) is in the list; it is None (KeyError) exactly when no item holds v |
| IndexedMinHeap.MinHeap.Size | heap.py:135-139 | len is the number of values present |
| IndexedMinHeap.MinHeap.IsNonEmpty | heap.py:142-146 | bool(heap) holds exactly when some value is present |
| IndexedMinHeap.MinHeap.Contains | heap.py:149-153 | `v in heap` holds exactly when some slot holds v, and exactly when v is in the content |
| IndexedMinHeap.MinHeap.Swap | heap.py:127-132 | the list becomes `Swapped(heap, i, j)`; the index entries of the two values are exchanged in heap.py's assignment order; bijection and content are kept |
| IndexedMinHeap.MinHeap.MinHeapify | heap.py:63-79 | if the subtrees under i's children are heaps, afterwards the subtree under i is a heap; slots outside that subtree are unchanged; the new item at i is the old one at i, left(i) or right(i); bijection, content and length are kept |
| IndexedMinHeap.MinHeap.ExtractMin | heap.py:82-93 | on an empty heap it returns None and changes nothing; otherwise it returns the old root (k, v), k is at most every key, v was present with key k, the content loses exactly v, the length drops by one and the invariant holds |
| IndexedMinHeap.MinHeap.Insert | heap.py:96-102 | for an absent v, the content becomes the old content plus v ↦ k, the length grows by one and the invariant holds |
| IndexedMinHeap.MinHeap.DecreaseKey | heap.py:105-124 | for a present v and k ≤ key(v), the content becomes the old content with v ↦ k (other values and keys unchanged), the length is kept and heap order and the bijection hold |
| IndexedMinHeap.ExtractTwice | heap.py:82-93 | two extractions in a row return keys in non-decreasing order, and an empty first result means an empty second one |
| IndexedMinHeap.DecreaseBelowMin | heap.py:82-124 | after lowering v's key to k below every other key, the next extract_min returns exactly (k, v) |
| WeightedGraph.AddDirected | graph.py:45-50 | u's neighbour set (empty when u had no entry) gains v; (u, v) gets weight w; every other adjacency entry and weight is unchanged and earlier neighbours of u remain |
| WeightedGraph.AddDirectedVertexCount | graph.py:49 | the number of vertices grows by one exactly when u had no adjacency entry |
| WeightedGraph.AddUndirected | graph.py:53-58 | u's neighbour set becomes its old one plus v and v's its old one plus u (empty when missing); both directions weigh w; every other entry is unchanged |
| WeightedGraph.AddDirectedTwice | graph.py:49-50 | adding the same directed edge twice gives the tables of one addition with the last weight |
| WeightedGraph.AddDirectedKeepsWeightsCover | graph.py:45-50 | if every neighbour has a weight entry before a directed insertion, the same holds after it |
| WeightedGraph.AddUndirectedKeepsWeightsCover | graph.py:53-58 | the same for an undirected insertion |
| WeightedGraph.Range | graph.py:35 | `range(n)` as a set: exactly 0 .. n-1, of size n |
| WeightedGraph.KeysAreRange | graph.py:24-35 | when each of 0 .. numVertices()-1 has an entry, the entries are exactly those vertices |
| WeightedGraph.AddDirectedKeepsVertices | graph.py:45-50 | a directed edge out of an existing vertex keeps the vertices 0 .. n-1 and their number |
| WeightedGraph.AddUndirectedKeepsVertices | graph.py:53-58 | an undirected edge between existing vertices keeps the vertices 0 .. n-1 and their number |
| WeightedGraph.SetMin | graph.py:42 | the least element of a non-empty neighbour set |
| WeightedGraph.Ascending | graph.py:42 | a neighbour set listed once per element, strictly ascending |
| WeightedGraph.EdgesOutOf | graph.py:42 | one pair (u, v) per listed neighbour v, in list order |
| WeightedGraph.EdgesFrom | graph.py:42 | the edges out of vertices from .. n-1: exactly the pairs (u, v) with v a neighbour of u, lexicographically strictly increasing |
| WeightedGraph.FirstMissing | graph.py:42 | the first vertex of a range without an adjacency entry (where iteration raises KeyError), or the range's end |
| WeightedGraph.Graph.constructor | graph.py:67-68 | every vertex 0 .. n-1 gets an empty neighbour set and there are no weights; the vertices are contiguous and every neighbour is weighted |
| WeightedGraph.Graph.NumVertices | graph.py:24-28 | the number of adjacency entries; with contiguous entries a vertex has an entry exactly when it is in 0 .. n-1 |
| WeightedGraph.Graph.Vertices | graph.py:31-35 | `range(numVertices())`: slot j holds j, and with contiguous entries its members are exactly the vertices with an entry |
| WeightedGraph.Graph.Edges | graph.py:38-42 | complete exactly when the entries are contiguous, and then exactly the pairs (u, v) with u in vertices() and v a neighbour of u, each once, by ascending u; otherwise KeyError at the first missing vertex, after exactly the edges of the vertices before it |
| WeightedGraph.Graph.AddDirectedEdge | graph.py:45-50 | the new tables are `AddDirected` of the old ones |
| WeightedGraph.Graph.AddUndirectedEdge | graph.py:53-58 | the new tables are `AddUndirected` of the old ones |

## Left out

- Keys are modelled as unbounded integers. Python compares any ordered keys, including floats; nothing here depends on more than a total order.
- `Heap_Item` objects and their aliasing are not modelled. `decrease_key` changes `item.key` on the shared object; the model writes a new (key, value) pair into the slot. No other reference to an item exists in the code, so the result is the same.
- `__repr__` of `Heap_Item`, and `adjacentStr`, `__str__` and `__repr__` of `Graph`, are string formatting and are left out.
- `Graph.__init__`'s `input()` prompt and `randomGraph` (random numbers) are left out. `loadGraph` (file reading) is left out too; as written it also lacks `self`, so it cannot be called. The constructor models the common part of both: n vertices with empty neighbour sets (graph.py:67-68) and no weights. Edges are then added with the two methods.
- Running-time claims (O(log n), O(1)) are not modelled.
- MinHeap.Insert: requires that v is absent. heap.py does not check this; a duplicate would leave a stale item in the list. The model does not cover that case.
- MinHeap.DecreaseKey: requires that v is present and that k is at most its key, as heap.py's comments assume without a check. It also requires the list to be heap-ordered except at v's slot. A valid heap satisfies this (`OrderedIsOrderedExcept`), and so does the list right after insert appends its item.
- MinHeap.MinHeapify: requires heap order in both child subtrees, as its docstring assumes, and the bijection, which holds at both call sites (heap.py:79 and heap.py:92) and which the contract promises to keep.
- MinHeap.Swap, MinHeap.MinHeapify: these contracts state that the content map `Keys()` and the bijection are kept, not the multiset of items. That they permute the items follows from `SameContentSameItems` (and `SwappedPermutes` for one swap).
- MinHeap.ExtractMin, MinHeap.Insert, MinHeap.DecreaseKey: these contracts give the new `Keys()` exactly, not the multiset of items. The item multiset follows from `RemovedItem` (extract_min loses exactly the returned item; read the other way, insert gains exactly `Item(k, v)`) and `ReplacedItem` (decrease_key exchanges v's old item for `Item(k, v)`), which tie the items to the content's (key, value) pairs.
- Graph.Edges: Python yields the neighbours of a vertex in set-iteration order, which is unspecified. The model lists them in ascending order. The result is a finished sequence rather than a lazy generator.
- Graph.AddDirectedEdge: does no range check on its endpoints, matching graph.py. An out-of-range from-vertex gains an adjacency entry through `setdefault`, and `AddDirectedVertexCount` states how numVertices() then changes. graph.py does not fail fast with an out-of-range error.
- The query functions of `MinHeap` (`Key`, `Size`, `IsNonEmpty`, `Contains`) require the object invariant; they read the fields exactly as heap.py does.
