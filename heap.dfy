/** An indexed binary min-heap (heap.py).

    The heap keeps its items in a list laid out as a complete binary tree
    (slot i has children 2i+1 and 2i+2) and, beside it, a dictionary from
    each item's value to the slot that currently holds it. Every mutating
    operation keeps two invariants: heap order (a parent's key is at most
    its children's keys) and the bijection between values and slots. */
module IndexedMinHeap {

  /** A heap slot: a priority and the identity it belongs to (Heap_Item).
      heap.py mutates an item's key in place; here a slot is replaced by
      a new item instead. */
  datatype Item<V> = Item(key: int, value: V)

  /** `None` stands for Python's `None` result, or for the KeyError that a
      lookup of an absent value raises. */
  datatype Option<T> = None | Some(value: T)

  // ---------------------------------------------------------------------
  // Index arithmetic
  // ---------------------------------------------------------------------

  /** Parent slot. The root's parent is the sentinel -1: heap.py writes
      `(i-1)//2`, which floors, and Dafny's `/` agrees with flooring for a
      positive divisor. */
  function Parent(i: nat): (p: int)
    ensures i == 0 ==> p == -1
    ensures i > 0 ==> 0 <= p < i
  {
    (i - 1) / 2
  }

  /** Left child slot; its parent is i again. */
  function Left(i: nat): (l: nat)
    ensures Parent(l) == i && i < l
  {
    2 * i + 1
  }

  /** Right child slot; its parent is i again, and it sits just after the left child. */
  function Right(i: nat): (r: nat)
    ensures Parent(r) == i && r == Left(i) + 1
  {
    2 * (i + 1)
  }

  /** Every slot but the root is the left or the right child of its parent. */
  lemma ChildOfParent(c: nat)
    requires c > 0
    ensures Left(Parent(c)) == c || Right(Parent(c)) == c
  {
  }

  // ---------------------------------------------------------------------
  // Heap order
  // ---------------------------------------------------------------------

  /** The binary min-heap property over the whole list. */
  ghost predicate HeapOrdered<V>(h: seq<Item<V>>)
  {
    forall c :: 0 < c < |h| ==> h[Parent(c)].key <= h[c].key
  }

  /** Heap order that may fail only on the edge from slot i up to its
      parent, while i's parent still bounds i's children: the state sift-up
      (decrease_key) works in. */
  ghost predicate HeapOrderedExcept<V>(h: seq<Item<V>>, i: nat)
  {
    && (forall c :: 0 < c < |h| && c != i ==> h[Parent(c)].key <= h[c].key)
    && (forall c :: 0 < c < |h| && Parent(c) == i && i > 0 ==> h[Parent(i)].key <= h[c].key)
  }

  /** A heap is in particular ready for a sift-up from any slot. */
  lemma OrderedIsOrderedExcept<V>(h: seq<Item<V>>, i: nat)
    requires HeapOrdered(h)
    ensures HeapOrderedExcept(h, i)
  {
    forall c | 0 < c < |h| && Parent(c) == i && i > 0
      ensures h[Parent(i)].key <= h[c].key
    {
      assert h[Parent(i)].key <= h[i].key;
    }
  }

  /** Slot c lies in the subtree rooted at slot r. */
  predicate InSubtree(r: nat, c: nat)
    decreases c
  {
    c == r || (r < c && InSubtree(r, Parent(c)))
  }

  /** The subtree rooted at r is a min-heap (as far as the list reaches). */
  ghost predicate SubHeap<V>(h: seq<Item<V>>, r: nat)
  {
    forall c :: r < c < |h| && InSubtree(r, c) ==> h[Parent(c)].key <= h[c].key
  }

  /** A descendant of r other than r lies under r's left or right child. */
  lemma {:induction false} SubtreeSplit(r: nat, c: nat)
    requires InSubtree(r, c) && c != r
    ensures InSubtree(Left(r), c) || InSubtree(Right(r), c)
    decreases c
  {
    var p: nat := Parent(c);
    if p == r {
      ChildOfParent(c);
    } else {
      SubtreeSplit(r, p);
    }
  }

  /** Being in a subtree is transitive. */
  lemma {:induction false} SubtreeTrans(a: nat, b: nat, c: nat)
    requires InSubtree(a, b) && InSubtree(b, c)
    ensures InSubtree(a, c)
    decreases c
  {
    if c != b {
      SubtreeTrans(a, b, Parent(c));
    }
  }

  /** Two subtrees that share a slot are nested: the lower-numbered root is an
      ancestor of the other. */
  lemma {:induction false} SubtreesNested(a: nat, b: nat, c: nat)
    ensures InSubtree(a, c) && InSubtree(b, c) && a <= b ==> InSubtree(a, b)
    decreases c
  {
    if c != b && c > 0 {
      SubtreesNested(a, b, Parent(c));
    }
  }

  /** The subtrees of two siblings are disjoint. */
  lemma SiblingsDisjoint(i: nat, c: nat)
    ensures !(InSubtree(Left(i), c) && InSubtree(Right(i), c))
  {
    SubtreesNested(Left(i), Right(i), c);
  }

  /** Every slot lies in the subtree of the root. */
  lemma {:induction false} RootSubtreeIsAll(c: nat)
    ensures InSubtree(0, c)
    decreases c
  {
    if c > 0 {
      RootSubtreeIsAll(Parent(c));
    }
  }

  /** A sub-heap at the root is a heap. */
  lemma SubHeapAtRoot<V>(h: seq<Item<V>>)
    requires SubHeap(h, 0)
    ensures HeapOrdered(h)
  {
    forall c | 0 < c < |h|
      ensures h[Parent(c)].key <= h[c].key
    {
      RootSubtreeIsAll(c);
    }
  }

  /** The sub-heap at a child of r is contained in the sub-heap at r. */
  lemma SubHeapOfChild<V>(h: seq<Item<V>>, r: nat, m: nat)
    requires SubHeap(h, r) && r < m && InSubtree(r, m)
    ensures SubHeap(h, m)
  {
    forall c | m < c < |h| && InSubtree(m, c)
      ensures h[Parent(c)].key <= h[c].key
    {
      SubtreeTrans(r, m, c);
    }
  }

  /** The root of a heap holds a smallest key. */
  lemma {:induction false} RootIsMin<V>(h: seq<Item<V>>, c: nat)
    requires HeapOrdered(h) && c < |h|
    ensures h[0].key <= h[c].key
    decreases c
  {
    if c > 0 {
      RootIsMin(h, Parent(c));
    }
  }

  // ---------------------------------------------------------------------
  // The index map
  // ---------------------------------------------------------------------

  /** The bijection between values and slots: each slot's value maps to that
      slot, and each indexed value sits in the slot it maps to. */
  ghost predicate Indexed<V>(h: seq<Item<V>>, idx: map<V, nat>)
  {
    && (forall i :: 0 <= i < |h| ==> h[i].value in idx && idx[h[i].value] == i)
    && (forall v :: v in idx ==> idx[v] < |h| && h[idx[v]].value == v)
  }

  /** The abstract content of the heap: the key held for each present value. */
  ghost function KeysOf<V>(h: seq<Item<V>>, idx: map<V, nat>): (m: map<V, int>)
    requires Indexed(h, idx)
    ensures m.Keys == idx.Keys
    ensures forall i :: 0 <= i < |h| ==> h[i].value in m && m[h[i].value] == h[i].key
  {
    map v | v in idx :: h[idx[v]].key
  }

  /** The index has exactly one entry per slot. */
  lemma {:induction false} IndexedSize<V>(h: seq<Item<V>>, idx: map<V, nat>)
    requires Indexed(h, idx)
    ensures |idx| == |h|
    decreases |h|
  {
    if |h| == 0 {
      assert idx.Keys == {};
    } else {
      var n := |h| - 1;
      var v := h[n].value;
      IndexedPop(h, idx);
      IndexedSize(h[..n], idx - {v});
      assert idx.Keys == (idx - {v}).Keys + {v};
    }
  }

  /** Removing the last slot together with its value's index entry keeps the
      bijection and drops exactly that value from the content. */
  lemma IndexedPop<V>(h: seq<Item<V>>, idx: map<V, nat>)
    requires Indexed(h, idx) && |h| > 0
    ensures Indexed(h[..|h| - 1], idx - {h[|h| - 1].value})
    ensures KeysOf(h[..|h| - 1], idx - {h[|h| - 1].value}) == KeysOf(h, idx) - {h[|h| - 1].value}
  {
    var n := |h| - 1;
    var v := h[n].value;
    var h', idx' := h[..n], idx - {v};
    forall u | u in idx'
      ensures idx'[u] < |h'| && h'[idx'[u]].value == u
    {
      assert idx[u] != n;
    }
  }

  /** Appending an item for a fresh value, indexed at the new last slot, keeps
      the bijection and adds exactly that value to the content. */
  lemma IndexedAppend<V>(h: seq<Item<V>>, idx: map<V, nat>, k: int, v: V)
    requires Indexed(h, idx) && v !in idx
    ensures Indexed(h + [Item(k, v)], idx[v := |h|])
    ensures KeysOf(h + [Item(k, v)], idx[v := |h|]) == KeysOf(h, idx)[v := k]
  {
    var h', idx' := h + [Item(k, v)], idx[v := |h|];
    forall i | 0 <= i < |h'|
      ensures h'[i].value in idx' && idx'[h'[i].value] == i
    {
      if i < |h| {
        assert h'[i] == h[i];
      }
    }
  }

  /** The items of an indexed list are exactly the (key, value) pairs of its
      content, and no item is held twice. */
  lemma ItemsAreContent<V>(h: seq<Item<V>>, idx: map<V, nat>)
    requires Indexed(h, idx)
    ensures forall x: Item<V> :: x in h <==> x.value in KeysOf(h, idx) && KeysOf(h, idx)[x.value] == x.key
    ensures forall a, b :: 0 <= a < b < |h| ==> h[a] != h[b]
  {
    var m := KeysOf(h, idx);
    forall x: Item<V> | x.value in m && m[x.value] == x.key
      ensures x in h
    {
      assert h[idx[x.value]] == x;
    }
  }

  /** A list without repeats has the multiset of its set of elements. */
  lemma {:induction false} DistinctMultiset<T>(s: seq<T>)
    requires forall a, b :: 0 <= a < b < |s| ==> s[a] != s[b]
    ensures multiset(s) == multiset(set x | x in s)
    decreases |s|
  {
    if |s| > 0 {
      var t := s[1..];
      assert forall a, b :: 0 <= a < b < |t| ==> t[a] != t[b] by {
        forall a, b | 0 <= a < b < |t| ensures t[a] != t[b] {
          assert t[a] == s[a + 1] && t[b] == s[b + 1];
        }
      }
      DistinctMultiset(t);
      assert s == [s[0]] + t;
      assert s[0] !in t by {
        forall j | 0 <= j < |t| ensures t[j] != s[0] {
          assert t[j] == s[j + 1];
        }
      }
      assert (set x | x in s) == (set x | x in t) + {s[0]};
    }
  }

  /** Two indexed lists with the same content are permutations of each other:
      keeping the content and the bijection keeps the multiset of items. */
  lemma SameContentSameItems<V>(h1: seq<Item<V>>, idx1: map<V, nat>,
                                h2: seq<Item<V>>, idx2: map<V, nat>)
    requires Indexed(h1, idx1) && Indexed(h2, idx2)
    requires KeysOf(h1, idx1) == KeysOf(h2, idx2)
    ensures multiset(h1) == multiset(h2)
  {
    ItemsMultiset(h1, idx1);
    ItemsMultiset(h2, idx2);
  }

  /** The (key, value) items that a content map describes. */
  ghost function ContentItems<V>(K: map<V, int>): set<Item<V>>
  {
    set v | v in K :: Item(K[v], v)
  }

  /** The items of an indexed list, counted with multiplicity, are exactly
      the items its content describes, each once. */
  lemma ItemsMultiset<V>(h: seq<Item<V>>, idx: map<V, nat>)
    requires Indexed(h, idx)
    ensures multiset(h) == multiset(ContentItems(KeysOf(h, idx)))
  {
    assert (set y | y in h) == ContentItems(KeysOf(h, idx)) by {
      ItemsAreContent(h, idx);
    }
    assert forall a, b :: 0 <= a < b < |h| ==> h[a] != h[b] by {
      ItemsAreContent(h, idx);
    }
    DistinctMultiset(h);
  }

  /** A content without v describes the same items minus v's item. */
  lemma ContentItemsRemove<V>(K: map<V, int>, v: V)
    requires v in K
    ensures ContentItems(K) == ContentItems(K - {v}) + {Item(K[v], v)}
    ensures Item(K[v], v) !in ContentItems(K - {v})
  {
    forall x | x in ContentItems(K)
      ensures x in ContentItems(K - {v}) + {Item(K[v], v)}
    {
      if x.value != v {
        assert x.value in K - {v};
      }
    }
  }

  /** Removing one value from the content of an indexed list removes its
      (key, value) item from the multiset of items, and nothing else. Read
      the other way round, adding a value adds its item. */
  lemma RemovedItem<V>(h1: seq<Item<V>>, idx1: map<V, nat>,
                       h2: seq<Item<V>>, idx2: map<V, nat>, v: V)
    requires Indexed(h1, idx1) && Indexed(h2, idx2)
    requires v in KeysOf(h1, idx1) && KeysOf(h2, idx2) == KeysOf(h1, idx1) - {v}
    ensures multiset(h2) + multiset{Item(KeysOf(h1, idx1)[v], v)} == multiset(h1)
  {
    var K := KeysOf(h1, idx1);
    ItemsMultiset(h1, idx1);
    ItemsMultiset(h2, idx2);
    ContentItemsRemove(K, v);
  }

  /** Changing one value's key in the content of an indexed list exchanges
      its old item for the new one in the multiset of items. */
  lemma ReplacedItem<V>(h1: seq<Item<V>>, idx1: map<V, nat>,
                        h2: seq<Item<V>>, idx2: map<V, nat>, v: V, k: int)
    requires Indexed(h1, idx1) && Indexed(h2, idx2)
    requires v in KeysOf(h1, idx1) && KeysOf(h2, idx2) == KeysOf(h1, idx1)[v := k]
    ensures multiset(h2) + multiset{Item(KeysOf(h1, idx1)[v], v)}
         == multiset(h1) + multiset{Item(k, v)}
  {
    var K := KeysOf(h1, idx1);
    var K' := K[v := k];
    ItemsMultiset(h1, idx1);
    ItemsMultiset(h2, idx2);
    ContentItemsRemove(K, v);
    ContentItemsRemove(K', v);
    assert K' - {v} == K - {v};
  }

  /** The list with slots i and j exchanged. */
  function Swapped<T>(s: seq<T>, i: nat, j: nat): (r: seq<T>)
    requires i < |s| && j < |s|
    ensures |r| == |s| && r[i] == s[j] && r[j] == s[i]
    ensures forall m :: 0 <= m < |s| && m != i && m != j ==> r[m] == s[m]
  {
    s[i := s[j]][j := s[i]]
  }

  /** Exchanging two slots permutes the list. */
  lemma SwappedPermutes<T>(s: seq<T>, i: nat, j: nat)
    requires i < |s| && j < |s|
    ensures multiset(Swapped(s, i, j)) == multiset(s)
  {
    var t := s[i := s[j]];
    assert multiset(t) == multiset(s) - multiset{s[i]} + multiset{s[j]};
  }

  /** Exchanging two slots and both their index entries keeps the bijection
      and the content. */
  lemma SwapKeepsIndex<V>(h: seq<Item<V>>, idx: map<V, nat>, i: nat, j: nat)
    requires Indexed(h, idx) && i < |h| && j < |h|
    ensures Indexed(Swapped(h, i, j), idx[h[i].value := j][h[j].value := i])
    ensures KeysOf(Swapped(h, i, j), idx[h[i].value := j][h[j].value := i]) == KeysOf(h, idx)
  {
    var h', idx' := Swapped(h, i, j), idx[h[i].value := j][h[j].value := i];
    forall u | u in idx'
      ensures idx'[u] < |h'| && h'[idx'[u]].value == u && h'[idx'[u]].key == h[idx[u]].key
    {
      if u != h[i].value && u != h[j].value {
        assert idx[u] != i && idx[u] != j;
      }
    }
  }

  // ---------------------------------------------------------------------
  // Sift-up, one step at a time
  // ---------------------------------------------------------------------

  /** Lowering the key of slot i keeps the list ready for a sift-up from i. */
  lemma LowerKeyKeepsOrderedExcept<V>(h: seq<Item<V>>, i: nat, k: int)
    requires i < |h| && HeapOrderedExcept(h, i) && k <= h[i].key
    ensures HeapOrderedExcept(h[i := Item(k, h[i].value)], i)
  {
    var h' := h[i := Item(k, h[i].value)];
    forall c | 0 < c < |h'| && c != i
      ensures h'[Parent(c)].key <= h'[c].key
    {
      assert h[Parent(c)].key <= h[c].key;
    }
  }

  /** One step of sift-up: when slot i holds a smaller key than its parent,
      exchanging the two moves the only possible violation up to the parent. */
  lemma SiftUpStep<V>(h: seq<Item<V>>, i: nat)
    requires 0 < i < |h| && HeapOrderedExcept(h, i)
    requires h[i].key < h[Parent(i)].key
    ensures HeapOrderedExcept(Swapped(h, i, Parent(i)), Parent(i))
  {
    var p: nat := Parent(i);
    var h' := Swapped(h, i, p);
    forall c | 0 < c < |h'| && c != p
      ensures h'[Parent(c)].key <= h'[c].key
    {
      if c == i {
      } else if Parent(c) == i {
        assert h'[Parent(c)] == h[p] && h'[c] == h[c];
      } else if Parent(c) == p {
        assert h[p].key <= h[c].key;
      } else {
        assert h'[Parent(c)] == h[Parent(c)] && h'[c] == h[c];
      }
    }
    forall c | 0 < c < |h'| && Parent(c) == p && p > 0
      ensures h'[Parent(p)].key <= h'[c].key
    {
      assert h[Parent(p)].key <= h[p].key;
      if c != i {
        assert h[p].key <= h[c].key;
      }
    }
  }

  /** Sift-up stops at the root or below a parent with a key no larger:
      the list is then a heap. */
  lemma SiftUpDone<V>(h: seq<Item<V>>, i: nat)
    requires i < |h| && HeapOrderedExcept(h, i)
    requires i == 0 || h[Parent(i)].key <= h[i].key
    ensures HeapOrdered(h)
  {
  }

  // ---------------------------------------------------------------------
  // Sift-up as decrease_key runs it: a hole that climbs
  // ---------------------------------------------------------------------

  /** The invariant of decrease_key's loop, on the view with the moving item
      written into the hole at slot i and its index entry pointing there: the
      bijection holds, the content is K, and the list is ready for a sift-up
      from i. */
  ghost predicate HoleInv<V>(h: seq<Item<V>>, idx: map<V, nat>, i: nat, item: Item<V>,
                             K: map<V, int>)
  {
    && i < |h|
    && Indexed(h[i := item], idx[item.value := i])
    && KeysOf(h[i := item], idx[item.value := i]) == K
    && HeapOrderedExcept(h[i := item], i)
  }

  /** Writing the lowered key into v's slot establishes the loop invariant
      with the hole at that slot, the content changed only at v. */
  lemma LowerKey<V>(h: seq<Item<V>>, idx: map<V, nat>, v: V, k: int)
    requires Indexed(h, idx) && v in idx && k <= h[idx[v]].key
    requires HeapOrderedExcept(h, idx[v])
    ensures HoleInv(h[idx[v] := Item(k, v)], idx, idx[v], Item(k, v),
                    KeysOf(h, idx)[v := k])
  {
    var i := idx[v];
    LowerKeyKeepsOrderedExcept(h, i, k);
    assert idx[v := i] == idx;
    assert h[i := Item(k, v)][i := Item(k, v)] == h[i := Item(k, v)];
    forall u | u in idx
      ensures KeysOf(h[i := Item(k, v)], idx)[u] == KeysOf(h, idx)[v := k][u]
    {
      if u != v {
        assert idx[u] != i;
      }
    }
  }

  /** On that view, copying the parent p down into the hole and moving the
      hole up to p is a swap of slots i and p. */
  lemma HoleView<V>(h: seq<Item<V>>, idx: map<V, nat>, i: nat, p: nat, item: Item<V>)
    requires i < |h| && p < |h| && i != p
    requires Indexed(h[i := item], idx[item.value := i])
    ensures h[i := h[p]][p := item] == Swapped(h[i := item], i, p)
    ensures idx[h[p].value := i][item.value := p]
         == idx[item.value := i][item.value := p][h[p].value := i]
  {
    assert h[i := item][p].value == h[p].value;
  }

  /** One pass of decrease_key's loop keeps its invariant: when the item in the
      hole has a smaller key than the parent, the parent moves down and the
      hole moves up. */
  lemma HoleStep<V>(h: seq<Item<V>>, idx: map<V, nat>, i: nat, item: Item<V>,
                    K: map<V, int>)
    requires HoleInv(h, idx, i, item, K) && i > 0
    requires item.key < h[Parent(i)].key
    ensures HoleInv(h[i := h[Parent(i)]], idx[h[Parent(i)].value := i], Parent(i), item, K)
  {
    var p: nat := Parent(i);
    var hv, iv := h[i := item], idx[item.value := i];
    HoleView(h, idx, i, p, item);
    SwapKeepsIndex(hv, iv, i, p);
    SiftUpStep(hv, i);
  }

  /** When the loop stops, at the root or below a parent whose key is no
      larger, writing the item into the hole gives a heap. */
  lemma HoleDone<V>(h: seq<Item<V>>, idx: map<V, nat>, i: nat, item: Item<V>,
                    K: map<V, int>)
    requires HoleInv(h, idx, i, item, K)
    requires i == 0 || h[Parent(i)].key <= item.key
    ensures HeapOrdered(h[i := item]) && Indexed(h[i := item], idx[item.value := i])
    ensures KeysOf(h[i := item], idx[item.value := i]) == K
  {
    SiftUpDone(h[i := item], i);
  }

  /** What extract_min relies on before it heapifies: after the root is
      exchanged with the last slot and the last slot is dropped (with its
      index entry), the bijection holds, the content has lost exactly the old
      root's value, both subtrees under the root are still heaps, and the old
      root held a smallest key. */
  lemma ExtractPrep<V>(h: seq<Item<V>>, idx: map<V, nat>)
    requires HeapOrdered(h) && Indexed(h, idx) && |h| > 0
    ensures var n := |h| - 1;
            var h', idx' := Swapped(h, 0, n), idx[h[0].value := n][h[n].value := 0];
            && Indexed(h'[..n], idx' - {h[0].value})
            && KeysOf(h'[..n], idx' - {h[0].value}) == KeysOf(h, idx) - {h[0].value}
            && SubHeap(h'[..n], 1) && SubHeap(h'[..n], 2)
    ensures forall u :: u in idx ==> h[0].key <= KeysOf(h, idx)[u]
  {
    var n := |h| - 1;
    var h', idx' := Swapped(h, 0, n), idx[h[0].value := n][h[n].value := 0];
    SwapKeepsIndex(h, idx, 0, n);
    IndexedPop(h', idx');
    var t := h'[..n];
    forall c | 0 < c < |t| && Parent(c) > 0
      ensures t[Parent(c)].key <= t[c].key
    {
      assert t[c] == h[c] && t[Parent(c)] == h[Parent(c)];
    }
    forall u | u in idx
      ensures h[0].key <= KeysOf(h, idx)[u]
    {
      RootIsMin(h, idx[u]);
    }
  }

  // ---------------------------------------------------------------------
  // The heap object
  // ---------------------------------------------------------------------

  /** Min_Heap: the list of items and the value-to-slot index. */
  class MinHeap<V(==)> {
    var heap: seq<Item<V>>
    var index: map<V, nat>

    /** The object invariant: heap order and the bijection. */
    ghost predicate Valid()
      reads this
    {
      HeapOrdered(heap) && Indexed(heap, index)
    }

    /** The abstract content: the key of every present value. */
    ghost function Keys(): map<V, int>
      reads this
      requires Indexed(heap, index)
    {
      KeysOf(heap, index)
    }

    /** An empty heap. */
    constructor ()
      ensures Valid() && heap == [] && index == map[]
    {
      heap := [];
      index := map[];
    }

    /** key(v): the key of the item holding v; `None` when no item holds v
        (heap.py raises KeyError). */
    function Key(v: V): (r: Option<int>)
      reads this
      requires Valid()
      ensures r.None? <==> forall j :: 0 <= j < |heap| ==> heap[j].value != v
      ensures r.Some? ==> Item(r.value, v) in heap && v in Keys() && Keys()[v] == r.value
    {
      if v in index then Some(heap[index[v]].key) else None
    }

    /** __len__: the number of items, one per present value. */
    function Size(): (n: nat)
      reads this
      requires Valid()
      ensures n == |Keys()|
    {
      IndexedSize(heap, index);
      |heap|
    }

    /** __bool__: whether some value is present. */
    function IsNonEmpty(): (b: bool)
      reads this
      requires Valid()
      ensures b <==> Keys() != map[]
    {
      IndexedSize(heap, index);
      assert |Keys()| == |index|;
      |heap| > 0
    }

    /** __contains__: whether some item holds v. */
    function Contains(v: V): (b: bool)
      reads this
      requires Valid()
      ensures b <==> exists j :: 0 <= j < |heap| && heap[j].value == v
      ensures b <==> v in Keys()
    {
      v in index
    }

    /** swap: exchanges slots i and j and both of their index entries. */
    method Swap(i: nat, j: nat)
      requires i < |heap| && j < |heap|
      modifies this
      ensures heap == Swapped(old(heap), i, j)
      ensures index == old(index)[old(heap)[i].value := j][old(heap)[j].value := i]
      ensures old(Indexed(heap, index)) ==>
                Indexed(heap, index) && KeysOf(heap, index) == old(KeysOf(heap, index))
    {
      if Indexed(heap, index) {
        SwapKeepsIndex(heap, index, i, j);
      }
      index := index[heap[i].value := j][heap[j].value := i];
      heap := heap[i := heap[j]][j := heap[i]];
    }

    /** min_heapify: sift-down from slot i. When the subtrees under i's
        children are heaps, afterwards the subtree under i is one; nothing
        outside that subtree moves, the new item at i is the old one at i or
        at one of its children, and the content and bijection are kept. */
    method MinHeapify(i: nat)
      requires Indexed(heap, index)
      requires SubHeap(heap, Left(i)) && SubHeap(heap, Right(i))
      modifies this
      ensures Indexed(heap, index) && KeysOf(heap, index) == old(KeysOf(heap, index))
      ensures |heap| == old(|heap|)
      ensures SubHeap(heap, i)
      ensures forall c :: 0 <= c < |heap| && !InSubtree(i, c) ==> heap[c] == old(heap[c])
      ensures i < |heap| ==>
                || heap[i] == old(heap[i])
                || (Left(i) < |heap| && heap[i] == old(heap[Left(i)]))
                || (Right(i) < |heap| && heap[i] == old(heap[Right(i)]))
      decreases |heap| - i
    {
      var l := Left(i);
      var r := Right(i);
      var min := i;
      if l < |heap| && heap[l].key < heap[min].key {
        min := l;
      }
      if r < |heap| && heap[r].key < heap[min].key {
        min := r;
      }
      if min != i {
        ghost var h0 := heap;
        var s := if min == l then r else l;
        Swap(i, min);
        ghost var h1 := heap;
        ForSiftDown(h0, h1, i, min, s);
        MinHeapify(min);
        SiftDownStep(h0, h1, heap, i, min, s);
      } else {
        forall c | i < c < |heap| && InSubtree(i, c)
          ensures heap[Parent(c)].key <= heap[c].key
        {
          SubtreeSplit(i, c);
        }
      }
    }

    /** extract_min: removes and returns the (key, value) pair at the root,
        which holds a smallest key; on an empty heap returns None and
        changes nothing. */
    method ExtractMin() returns (r: Option<(int, V)>)
      requires Valid()
      modifies this
      ensures Valid()
      ensures old(|heap|) == 0 ==> r == None && heap == old(heap) && index == old(index)
      ensures old(|heap|) > 0 ==> r.Some? && old(heap)[0] == Item(r.value.0, r.value.1)
      ensures r.Some? ==>
                && r.value.1 in old(Keys()) && old(Keys())[r.value.1] == r.value.0
                && (forall u :: u in old(Keys()) ==> r.value.0 <= old(Keys())[u])
                && Keys() == old(Keys()) - {r.value.1}
                && |heap| == old(|heap|) - 1
    {
      if |heap| == 0 {
        return None;
      }
      ghost var h0, idx0 := heap, index;
      ghost var content := KeysOf(h0, idx0);
      var last := |heap| - 1;
      ExtractPrep(h0, idx0);
      Swap(0, last);
      var min := heap[last];
      assert min == h0[0];
      heap := heap[..last];
      index := index - {min.value};
      assert heap == Swapped(h0, 0, last)[..last];
      assert index == idx0[h0[0].value := last][h0[last].value := 0] - {h0[0].value};
      ghost var rest := KeysOf(heap, index);
      assert rest == content - {min.value} && |heap| == |h0| - 1;
      assert SubHeap(heap, Left(0)) && SubHeap(heap, Right(0));
      MinHeapify(0);
      assert KeysOf(heap, index) == rest;
      SubHeapAtRoot(heap);
      return Some((min.key, min.value));
    }

    /** insert: appends the item, indexes it at the last slot and sifts it
        up by reusing decrease_key with the same key. Requires that v is
        absent, which heap.py assumes and does not check. */
    method Insert(k: int, v: V)
      requires Valid() && v !in index
      modifies this
      ensures Valid()
      ensures Keys() == old(Keys())[v := k]
      ensures |heap| == old(|heap|) + 1
    {
      IndexedAppend(heap, index, k, v);
      heap := heap + [Item(k, v)];
      index := index[v := |heap| - 1];
      DecreaseKey(v, k);
    }

    /** decrease_key: sets v's key to k and sifts its item up, shifting each
        larger parent down into the hole and writing the item back once at
        the end. Requires, as heap.py assumes without checking, that v is
        present and k is not above its key; the list may be out of order only
        at v's slot, which covers both a heap and insert's freshly appended
        item. */
    method DecreaseKey(v: V, k: int)
      requires Indexed(heap, index) && v in index
      requires k <= heap[index[v]].key
      requires HeapOrderedExcept(heap, index[v])
      modifies this
      ensures Valid()
      ensures Keys() == old(Keys())[v := k]
      ensures |heap| == old(|heap|)
    {
      var i: nat := index[v];
      var item := Item(k, v);
      ghost var K := old(KeysOf(heap, index))[v := k];
      LowerKey(heap, index, v, k);
      heap := heap[i := item];
      var p := Parent(i);
      while i > 0 && k < heap[p].key
        invariant HoleInv(heap, index, i, item, K)
        invariant p == Parent(i) && |heap| == old(|heap|)
      {
        HoleStep(heap, index, i, item, K);
        var parent := heap[p];
        heap := heap[i := parent];
        index := index[parent.value := i];
        i, p := p, Parent(p);
      }
      HoleDone(heap, index, i, item, K);
      heap := heap[i := item];
      index := index[v := i];
    }
  }

  // ---------------------------------------------------------------------
  // Sift-down, one step
  // ---------------------------------------------------------------------

  /** After min_heapify exchanges slot i with its smaller child m (s is the
      other child), the subtrees under m's children are still heaps, so the
      recursive call on m is allowed. */
  lemma ForSiftDown<V>(h0: seq<Item<V>>, h1: seq<Item<V>>, i: nat, m: nat, s: nat)
    requires m < |h0| && i < |h0| && h1 == Swapped(h0, i, m)
    requires (m == Left(i) && s == Right(i)) || (m == Right(i) && s == Left(i))
    requires SubHeap(h0, Left(i)) && SubHeap(h0, Right(i))
    ensures SubHeap(h1, Left(m)) && SubHeap(h1, Right(m))
  {
    forall ch | ch == Left(m) || ch == Right(m)
      ensures SubHeap(h1, ch)
    {
      SubHeapOfChild(h0, m, ch);
      forall c | ch < c < |h1| && InSubtree(ch, c)
        ensures h1[Parent(c)].key <= h1[c].key
      {
        SubtreeTrans(ch, Parent(c), c);
        assert h1[c] == h0[c] && h1[Parent(c)] == h0[Parent(c)];
      }
    }
  }

  /** After the recursive call, the subtree under i is a heap and the frame
      of min_heapify holds for the whole step. */
  lemma SiftDownStep<V>(h0: seq<Item<V>>, h1: seq<Item<V>>, h2: seq<Item<V>>, i: nat, m: nat, s: nat)
    requires m < |h0| && i < |h0| && h1 == Swapped(h0, i, m) && |h2| == |h1|
    requires (m == Left(i) && s == Right(i)) || (m == Right(i) && s == Left(i))
    requires SubHeap(h0, Left(i)) && SubHeap(h0, Right(i))
    requires h0[m].key < h0[i].key && (s < |h0| ==> h0[m].key <= h0[s].key)
    requires SubHeap(h2, m)
    requires forall c :: 0 <= c < |h2| && !InSubtree(m, c) ==> h2[c] == h1[c]
    requires
      || h2[m] == h1[m]
      || (Left(m) < |h2| && h2[m] == h1[Left(m)])
      || (Right(m) < |h2| && h2[m] == h1[Right(m)])
    ensures SubHeap(h2, i)
    ensures forall c :: 0 <= c < |h2| && !InSubtree(i, c) ==> h2[c] == h0[c]
    ensures h2[i] == h0[m]
  {
    assert !InSubtree(m, i);
    // The new key at m is no smaller than the old key at m, now at i.
    if Left(m) < |h2| && h2[m] == h1[Left(m)] {
      assert h0[m].key <= h0[Left(m)].key;
    } else if Right(m) < |h2| && h2[m] == h1[Right(m)] {
      assert h0[m].key <= h0[Right(m)].key;
    }
    assert h2[i].key <= h2[m].key;
    forall c | i < c < |h2| && InSubtree(i, c)
      ensures h2[Parent(c)].key <= h2[c].key
    {
      SubtreeSplit(i, c);
      SiblingsDisjoint(i, c);
      if InSubtree(m, c) {
        if c != m {
          assert h2[Parent(c)].key <= h2[c].key;
        }
      } else {
        assert InSubtree(s, c);
        if c == s {
          SubtreesNested(m, s, s);
          SubtreesNested(s, m, s);
          assert h2[s] == h0[s];
        } else {
          assert InSubtree(s, Parent(c));
          SubtreesNested(m, Parent(c), Parent(c));
          SubtreesNested(Parent(c), m, Parent(c));
          SiblingsDisjoint(i, Parent(c));
          assert h2[c] == h0[c] && h2[Parent(c)] == h0[Parent(c)];
        }
      }
    }
    forall c | 0 <= c < |h2| && !InSubtree(i, c)
      ensures h2[c] == h0[c]
    {
      if InSubtree(m, c) {
        SubtreeTrans(i, m, c);
      }
    }
  }

  // ---------------------------------------------------------------------
  // A client: priority order of extraction
  // ---------------------------------------------------------------------

  /** Two extractions in a row come out in non-decreasing key order. */
  method ExtractTwice<V>(h: MinHeap<V>) returns (first: Option<(int, V)>, second: Option<(int, V)>)
    requires h.Valid()
    modifies h
    ensures h.Valid()
    ensures first.None? ==> second.None?
    ensures first.Some? && second.Some? ==> first.value.0 <= second.value.0
  {
    first := h.ExtractMin();
    second := h.ExtractMin();
  }

  /** Lowering a value's key below every other key makes it the next one
      extract_min returns. */
  method DecreaseBelowMin<V>(h: MinHeap<V>, v: V, k: int) returns (r: Option<(int, V)>)
    requires h.Valid() && v in h.index
    requires k <= h.Keys()[v]
    requires forall u :: u in h.Keys() && u != v ==> k < h.Keys()[u]
    modifies h
    ensures h.Valid()
    ensures r == Some((k, v))
  {
    OrderedIsOrderedExcept(h.heap, h.index[v]);
    h.DecreaseKey(v, k);
    ghost var keys := h.Keys();
    assert v in keys && keys[v] == k;
    r := h.ExtractMin();
    assert r.value.1 in keys && r.value.0 == keys[r.value.1] && r.value.0 <= k;
  }
}
