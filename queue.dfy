/**
 * The eviction queue of the cache: entries (`Item`) and the slice-backed
 * priority queue that holds them. The queue implements the five primitives
 * the heap algorithms drive (`Len`, `Less`, `Swap`, `Push`, `Pop`); the
 * algorithms themselves are in module `Heap`.
 */
module Queue {

  /** One cache entry. Only its position in the queue changes after creation. */
  class Item<V> {
    const key: string
    const value: V
    const priority: int   // insertion time, in seconds since the epoch
    const expire: int     // expiry time, in seconds since the epoch
    var index: int        // position in the queue, -1 once popped
    const memory: int     // bytes charged to the entry

    constructor (key: string, value: V, priority: int, expire: int, memory: int)
      ensures this.key == key && this.value == value
      ensures this.priority == priority && this.expire == expire
      ensures this.memory == memory && index == -1
    {
      this.key := key;
      this.value := value;
      this.priority := priority;
      this.expire := expire;
      this.memory := memory;
      index := -1;
    }
  }

  /** Position of the parent of slot k > 0 in the implicit binary tree. */
  function Parent(k: int): int
    requires k > 0
  {
    (k - 1) / 2
  }

  /** Heap order on the first n slots: no child is older than its parent. */
  predicate HeapUpTo<V>(s: seq<Item<V>>, n: int)
    requires n <= |s|
  {
    forall k {:trigger Parent(k)} :: 0 < k < n ==> s[Parent(k)].priority <= s[k].priority
  }

  /** Heap order on the first n slots except on the edge into slot i. */
  predicate HeapExceptUp<V>(s: seq<Item<V>>, n: int, i: int)
    requires n <= |s|
  {
    forall k {:trigger Parent(k)} :: 0 < k < n && k != i ==> s[Parent(k)].priority <= s[k].priority
  }

  /** Heap order on the first n slots except on the edges into and out of slot i. */
  predicate HeapExcept<V>(s: seq<Item<V>>, n: int, i: int)
    requires n <= |s|
  {
    forall k {:trigger Parent(k)} :: 0 < k < n && k != i && Parent(k) != i ==> s[Parent(k)].priority <= s[k].priority
  }

  /** The parent of slot i is no younger than the children of slot i. */
  predicate GrandOrdered<V>(s: seq<Item<V>>, n: int, i: int)
    requires 0 <= i < |s| && n <= |s|
  {
    i > 0 ==> forall k {:trigger Parent(k)} :: 0 < k < n && Parent(k) == i ==> s[Parent(i)].priority <= s[k].priority
  }

  /** In a heap every slot is at least as young as the root. */
  lemma {:induction false} RootOlderThan<V>(s: seq<Item<V>>, n: int, k: int)
    requires n <= |s| && HeapUpTo(s, n)
    requires 0 <= k < n
    ensures s[0].priority <= s[k].priority
    decreases k
  {
    if k > 0 {
      RootOlderThan(s, n, Parent(k));
    }
  }

  /** The root of a heap is its oldest item. */
  lemma RootIsOldest<V>(s: seq<Item<V>>)
    requires |s| > 0 && HeapUpTo(s, |s|)
    ensures forall y :: y in s ==> s[0].priority <= y.priority
  {
    forall y | y in s
      ensures s[0].priority <= y.priority
    {
      var k :| 0 <= k < |s| && s[k] == y;
      RootOlderThan(s, |s|, k);
    }
  }

  /** A sequence of items in which item i records position i. */
  ghost predicate IndexedSeq<V>(s: seq<Item<V>>)
    reads s
  {
    forall i :: 0 <= i < |s| ==> s[i].index == i
  }

  /** Items that record their own positions are pairwise distinct. */
  lemma IndexedDistinct<V>(s: seq<Item<V>>)
    requires IndexedSeq(s)
    ensures forall i, j :: 0 <= i < |s| && 0 <= j < |s| && s[i] == s[j] ==> i == j
  {
  }

  /** A min-heap of items by insertion time, backed by a slice. */
  class PriorityQueue<V> {
    var items: seq<Item<V>>

    /** Every queued item knows its own slot. */
    ghost predicate Indexed()
      reads this, items
    {
      IndexedSeq(items)
    }

    ghost predicate Valid()
      reads this, items
    {
      Indexed() && HeapUpTo(items, |items|)
    }

    constructor ()
      ensures items == [] && Valid()
    {
      items := [];
    }

    function Len(): (n: int)
      reads this
      ensures n == |items|
    {
      |items|
    }

    /** Slot i holds an item strictly older than slot j (min-heap order). */
    predicate Less(i: int, j: int): (b: bool)
      requires 0 <= i < |items| && 0 <= j < |items|
      reads this
      ensures b ==> i != j && items[i] != items[j]
    {
      items[i].priority < items[j].priority
    }

    /** Less is a strict order on slots, as the heap algorithms require of it. */
    lemma LessIsStrictOrder(i: int, j: int, k: int)
      requires 0 <= i < |items| && 0 <= j < |items| && 0 <= k < |items|
      ensures !Less(i, i)
      ensures Less(i, j) ==> !Less(j, i)
      ensures Less(i, j) && Less(j, k) ==> Less(i, k)
    {
    }

    /** Heap order on the queue is exactly: no slot is Less than its parent. */
    lemma HeapByLess()
      ensures HeapUpTo(items, |items|) <==> forall k :: 0 < k < |items| ==> !Less(k, Parent(k))
    {
    }

    /** Exchanges two slots and re-stamps both items with their new positions. */
    method Swap(i: int, j: int)
      requires 0 <= i < |items| && 0 <= j < |items|
      modifies this, items[i], items[j]
      ensures items == old(items)[i := old(items[j])][j := old(items[i])]
      ensures items[j].index == j && (items[i] != items[j] ==> items[i].index == i)
      ensures multiset(items) == multiset(old(items))
      ensures old(Indexed()) ==> Indexed()
    {
      items := items[i := items[j]][j := items[i]];
      items[i].index := i;
      items[j].index := j;
    }

    /** Appends x, stamping it with the old length. */
    method Push(x: Item<V>)
      modifies this, x
      ensures items == old(items) + [x] && x.index == old(|items|)
      ensures old(Indexed()) && x !in old(items) ==> Indexed()
    {
      x.index := |items|;
      items := items + [x];
    }

    /** Removes the last slot and marks its item as no longer queued; null on an empty queue. */
    method Pop() returns (x: Item?<V>)
      modifies this, if items == [] then {} else {items[|items| - 1]}
      ensures old(items) == [] ==> x == null && items == []
      ensures old(items) != [] ==>
                x == old(items[|items| - 1]) && x.index == -1 && items == old(items[..|items| - 1])
      ensures old(Indexed()) ==> Indexed()
    {
      var n := Len();
      if n == 0 {
        return null;
      }
      x := items[n - 1];
      x.index := -1;
      items := items[..n - 1];
    }
  }
}
