/**
 * The binary-heap algorithms of Go's container/heap package, written out
 * over the queue's primitives: every comparison goes through `Less` and
 * every move through `Swap`, `Push` and `Pop`.
 */
module Heap {
  import opened Queue

  /** Exchanges two slots of a sequence. */
  function Swapped<V>(s: seq<Item<V>>, i: int, j: int): (t: seq<Item<V>>)
    requires 0 <= i < |s| && 0 <= j < |s|
    ensures |t| == |s| && multiset(t) == multiset(s)
  {
    s[i := s[j]][j := s[i]]
  }

  /** One step of sift-up keeps the single out-of-order edge just above the moving item. */
  lemma SwapUpStep<V>(s: seq<Item<V>>, n: int, j: int)
    requires 0 < j < n <= |s|
    requires HeapExceptUp(s, n, j) && GrandOrdered(s, n, j)
    requires s[j].priority < s[Parent(j)].priority
    ensures HeapExceptUp(Swapped(s, Parent(j), j), n, Parent(j))
    ensures GrandOrdered(Swapped(s, Parent(j), j), n, Parent(j))
  {
    var i, t := Parent(j), Swapped(s, Parent(j), j);
    forall k | 0 < k < n && k != i
      ensures t[Parent(k)].priority <= t[k].priority
    {
      if k == j {
      } else if Parent(k) == j {
        assert t[k] == s[k] && t[j] == s[i];
      } else if Parent(k) == i {
        assert t[k] == s[k] && t[i] == s[j];
      } else {
        assert t[k] == s[k] && t[Parent(k)] == s[Parent(k)];
      }
    }
    if i > 0 {
      forall k | 0 < k < n && Parent(k) == i
        ensures t[Parent(i)].priority <= t[k].priority
      {
        assert t[Parent(i)] == s[Parent(i)];
      }
    }
  }

  /** One step of sift-down moves the out-of-order edges one level down. */
  lemma SwapDownStep<V>(s: seq<Item<V>>, n: int, i: int, j: int)
    requires 0 <= i && (j == 2 * i + 1 || j == 2 * i + 2) && j < n <= |s|
    requires j == 2 * i + 1 && j + 1 < n ==> s[j].priority <= s[j + 1].priority
    requires j == 2 * i + 2 ==> s[j].priority <= s[j - 1].priority
    requires HeapExcept(s, n, i) && GrandOrdered(s, n, i)
    requires s[j].priority < s[i].priority
    ensures HeapExcept(Swapped(s, i, j), n, j) && GrandOrdered(Swapped(s, i, j), n, j)
    ensures Swapped(s, i, j)[i].priority <= Swapped(s, i, j)[j].priority
  {
    var t := Swapped(s, i, j);
    assert Parent(j) == i;
    forall k | 0 < k < n && k != j && Parent(k) != j
      ensures t[Parent(k)].priority <= t[k].priority
    {
      if k == i {
        assert t[Parent(k)] == s[Parent(k)] && t[i] == s[j];
      } else if Parent(k) == i {
        assert k == 2 * i + 1 || k == 2 * i + 2;
        assert t[k] == s[k] && t[i] == s[j];
      } else {
        assert t[k] == s[k] && t[Parent(k)] == s[Parent(k)];
      }
    }
    forall k | 0 < k < n && Parent(k) == j
      ensures t[i].priority <= t[k].priority
    {
      assert t[k] == s[k] && t[i] == s[j];
    }
  }

  /**
   * Sift-down stops once slot i has no child in range or is no younger than
   * its younger child: then only the edge into i0 can be out of order, and
   * none is if the item moved.
   */
  lemma DownStop<V>(s: seq<Item<V>>, n: int, i0: int, i: int)
    requires 0 <= i0 <= i < |s| && n <= |s|
    requires HeapExcept(s, n, i) && (i > i0 ==> s[Parent(i)].priority <= s[i].priority)
    requires 2 * i + 1 < n ==> s[i].priority <= s[2 * i + 1].priority
    requires 2 * i + 2 < n ==> s[i].priority <= s[2 * i + 2].priority
    ensures HeapExceptUp(s, n, i0)
    ensures i > i0 || i0 == 0 ==> HeapUpTo(s, n)
  {
    forall k | 0 < k < n && Parent(k) == i
      ensures s[i].priority <= s[k].priority
    {
      assert k == 2 * i + 1 || k == 2 * i + 2;
    }
  }

  /** Moving the last item into slot i leaves only the edges at slot i out of order. */
  lemma SwapLastPre<V>(s: seq<Item<V>>, i: int)
    requires HeapUpTo(s, |s|) && 0 <= i < |s|
    ensures HeapExcept(Swapped(s, i, |s| - 1), |s| - 1, i)
    ensures GrandOrdered(Swapped(s, i, |s| - 1), |s| - 1, i)
  {
    var n, t := |s| - 1, Swapped(s, i, |s| - 1);
    forall k | 0 < k < n && k != i && Parent(k) != i
      ensures t[Parent(k)].priority <= t[k].priority
    {
      assert t[k] == s[k] && t[Parent(k)] == s[Parent(k)];
    }
    if i > 0 {
      forall k | 0 < k < n && Parent(k) == i
        ensures t[Parent(i)].priority <= t[k].priority
      {
        assert t[k] == s[k] && t[Parent(i)] == s[Parent(i)];
      }
    }
  }

  /**
   * Once the first n slots of a permutation t of s form a heap, dropping its
   * last slot leaves a heap that, with that slot, holds exactly s.
   */
  lemma DropLast<V>(s: seq<Item<V>>, t: seq<Item<V>>, n: int)
    requires multiset(t) == multiset(s) && |t| == n + 1 && n >= 0
    requires HeapUpTo(t, n)
    ensures HeapUpTo(t[..n], n)
    ensures multiset(t[..n]) + multiset{t[n]} == multiset(s)
  {
    assert t == t[..n] + [t[n]];
  }

  /** Membership survives a permutation. */
  lemma InPermutation<V>(s: seq<Item<V>>, t: seq<Item<V>>, k: int)
    requires multiset(s) == multiset(t) && 0 <= k < |s|
    ensures s[k] in t
  {
    assert s[k] in multiset(s);
  }

  /**
   * Sifts slot j0 up towards the root. Only the edge into j0 may be out of
   * order on entry; slots from n on are left alone.
   */
  method Up<V>(h: PriorityQueue<V>, j0: int, ghost n: int)
    requires h.Indexed()
    requires 0 <= j0 < n <= |h.items|
    requires HeapExceptUp(h.items, n, j0) && GrandOrdered(h.items, n, j0)
    modifies h, h.items
    ensures h.Indexed() && |h.items| == |old(h.items)|
    ensures HeapUpTo(h.items, n)
    ensures forall k :: n <= k < |h.items| ==> h.items[k] == old(h.items[k])
    ensures multiset(h.items) == multiset(old(h.items))
  {
    var j := j0;
    while true
      invariant h.Indexed() && |h.items| == |old(h.items)|
      invariant 0 <= j < n
      invariant HeapExceptUp(h.items, n, j) && GrandOrdered(h.items, n, j)
      invariant forall k :: n <= k < |h.items| ==> h.items[k] == old(h.items[k])
      invariant multiset(h.items) == multiset(old(h.items))
      decreases j
    {
      // Go's (j - 1) / 2 truncates toward zero, so the root is its own parent.
      var i := if j == 0 then 0 else (j - 1) / 2;
      if i == j || !h.Less(j, i) {
        break;
      }
      ghost var s := h.items;
      SwapUpStep(s, n, j);
      InPermutation(s, old(h.items), i);
      InPermutation(s, old(h.items), j);
      h.Swap(i, j);
      assert h.items == Swapped(s, i, j);
      j := i;
    }
  }

  /**
   * What sift-down keeps while the moving item sits in slot i, having
   * started in slot i0 of o: heap order apart from the edges at i, the edge
   * into i in order once the item has moved, nothing changed before it has,
   * slot n untouched, and the same items.
   */
  ghost predicate DownInv<V>(s: seq<Item<V>>, o: seq<Item<V>>, n: int, i0: int, i: int)
  {
    |s| == |o| && 0 <= i0 <= i < |s| && i0 <= n <= |s| && (i == i0 || i < n) &&
    HeapExcept(s, n, i) && GrandOrdered(s, n, i) &&
    (i > i0 ==> s[Parent(i)].priority <= s[i].priority) &&
    (i == i0 ==> GrandOrdered(o, n, i0) && s == o) &&
    (n < |s| ==> s[n] == o[n]) &&
    multiset(s) == multiset(o)
  }

  /** Swapping slot i with its younger out-of-order child j moves the invariant to j. */
  lemma DownAdvance<V>(s: seq<Item<V>>, o: seq<Item<V>>, n: int, i0: int, i: int, j: int)
    requires DownInv(s, o, n, i0, i)
    requires (j == 2 * i + 1 || j == 2 * i + 2) && j < n
    requires j == 2 * i + 1 && j + 1 < n ==> s[j].priority <= s[j + 1].priority
    requires j == 2 * i + 2 ==> s[j].priority <= s[j - 1].priority
    requires s[j].priority < s[i].priority
    ensures DownInv(Swapped(s, i, j), o, n, i0, j)
    ensures s[i] in o && s[j] in o
  {
    SwapDownStep(s, n, i, j);
    InPermutation(s, o, i);
    InPermutation(s, o, j);
    assert Parent(j) == i;
  }

  /**
   * One round of the sift-down loop: picks the older child of slot i and
   * swaps it up if it is older than slot i. Returns the child's slot, or i
   * when the loop stops.
   */
  method DownStep<V>(h: PriorityQueue<V>, n: int, ghost o: seq<Item<V>>, ghost i0: int, i: int)
    returns (next: int)
    requires h.Indexed()
    requires DownInv(h.items, o, n, i0, i)
    modifies h, o
    ensures h.Indexed()
    ensures next == i ==> h.items == old(h.items)
    ensures next == i ==> (2 * i + 1 < n ==> h.items[i].priority <= h.items[2 * i + 1].priority)
    ensures next == i ==> (2 * i + 2 < n ==> h.items[i].priority <= h.items[2 * i + 2].priority)
    ensures next != i ==> i < next < n && DownInv(h.items, o, n, i0, next)
    ensures next != i ==> (next == 2 * i + 1 || next == 2 * i + 2) &&
                          old(h.items)[next].priority < old(h.items)[i].priority &&
                          h.items == Swapped(old(h.items), i, next)
  {
    var j1 := 2 * i + 1;
    if j1 >= n {
      return i;
    }
    var j := j1;
    var j2 := j1 + 1;
    if j2 < n && h.Less(j2, j1) {
      j := j2;
    }
    if !h.Less(j, i) {
      return i;
    }
    SwapDown(h, n, o, i0, i, j);
    return j;
  }

  /** Swaps slot i with its younger out-of-order child j, moving the sift-down invariant to j. */
  method SwapDown<V>(h: PriorityQueue<V>, n: int, ghost o: seq<Item<V>>, ghost i0: int, i: int, j: int)
    requires h.Indexed()
    requires DownInv(h.items, o, n, i0, i)
    requires (j == 2 * i + 1 || j == 2 * i + 2) && j < n
    requires j == 2 * i + 1 && j + 1 < n ==> h.items[j].priority <= h.items[j + 1].priority
    requires j == 2 * i + 2 ==> h.items[j].priority <= h.items[j - 1].priority
    requires h.items[j].priority < h.items[i].priority
    modifies h, o
    ensures h.Indexed()
    ensures h.items == Swapped(old(h.items), i, j)
    ensures DownInv(h.items, o, n, i0, j)
  {
    ghost var s := h.items;
    DownAdvance(s, o, n, i0, i, j);
    h.Swap(i, j);
    assert h.items == Swapped(s, i, j);
  }

  /**
   * Sifts slot i0 down within the first n slots. The edges into and out of
   * i0 may be out of order on entry. Returns whether the item moved: if it
   * did, the first n slots form a heap; if not, nothing changed.
   */
  method Down<V>(h: PriorityQueue<V>, i0: int, n: int) returns (moved: bool)
    requires h.Indexed()
    requires 0 <= i0 < |h.items| && i0 <= n <= |h.items|
    requires HeapExcept(h.items, n, i0) && GrandOrdered(h.items, n, i0)
    modifies h, h.items
    ensures h.Indexed() && |h.items| == |old(h.items)|
    ensures HeapExceptUp(h.items, n, i0)
    ensures moved || i0 == 0 ==> HeapUpTo(h.items, n)
    ensures !moved ==> h.items == old(h.items)
    ensures n < |h.items| ==> h.items[n] == old(h.items[n])
    ensures multiset(h.items) == multiset(old(h.items))
  {
    ghost var o := h.items;
    var i := i0;
    while true
      invariant h.Indexed()
      invariant DownInv(h.items, o, n, i0, i)
      decreases n - i
    {
      var next := DownStep(h, n, o, i0, i);
      if next == i {
        break;
      }
      i := next;
    }
    DownStop(h.items, n, i0, i);
    moved := i > i0;
  }

  /** heap.Push: appends x and restores heap order. */
  method Push<V>(h: PriorityQueue<V>, x: Item<V>)
    requires h.Valid() && x !in h.items
    modifies h, h.items, x
    ensures h.Valid()
    ensures multiset(h.items) == multiset(old(h.items)) + multiset{x}
    ensures |h.items| == |old(h.items)| + 1
  {
    h.Push(x);
    Up(h, h.Len() - 1, h.Len());
  }

  /** heap.Pop: removes and returns the oldest item. */
  method Pop<V>(h: PriorityQueue<V>) returns (x: Item<V>)
    requires h.Valid() && |h.items| > 0
    modifies h, h.items
    ensures h.Valid()
    ensures x == old(h.items[0]) && x.index == -1
    ensures multiset(h.items) + multiset{x} == multiset(old(h.items))
    ensures |h.items| == |old(h.items)| - 1
    ensures forall y :: y in h.items ==> x.priority <= y.priority
  {
    ghost var s := h.items;
    RootIsOldest(s);
    var n := h.Len() - 1;
    SwapLastPre(s, 0);
    h.Swap(0, n);
    var _ := Down(h, 0, n);
    x := PopLast(h, s);
    forall z | z in h.items
      ensures x.priority <= z.priority
    {
      assert z in multiset(s);
    }
  }

  /**
   * The first half of heap.Remove: moves slot i to the last slot n and
   * restores heap order on the slots before it, sifting the item that took
   * slot i down or, if it did not move, up.
   */
  method SwapToEnd<V>(h: PriorityQueue<V>, i: int, n: int)
    requires h.Valid() && 0 <= i < n && n == |h.items| - 1
    modifies h, h.items
    ensures h.Indexed() && |h.items| == n + 1
    ensures HeapUpTo(h.items, n)
    ensures h.items[n] == old(h.items[i])
    ensures multiset(h.items) == multiset(old(h.items))
  {
    SwapLastPre(h.items, i);
    h.Swap(i, n);
    var moved := Down(h, i, n);
    if !moved {
      Up(h, i, n);
    }
  }

  /** heap.Remove: removes and returns the item in slot i. */
  method Remove<V>(h: PriorityQueue<V>, i: int) returns (x: Item<V>)
    requires h.Valid() && 0 <= i < |h.items|
    modifies h, h.items
    ensures h.Valid()
    ensures x == old(h.items[i]) && x.index == -1
    ensures multiset(h.items) + multiset{x} == multiset(old(h.items))
    ensures |h.items| == |old(h.items)| - 1
  {
    var n := h.Len() - 1;
    ghost var s := h.items;
    if n != i {
      SwapToEnd(h, i, n);
    }
    x := PopLast(h, s);
  }

  /**
   * The last step of heap.Pop and heap.Remove: the queue's own Pop takes
   * the last slot, which heap order on the slots before it leaves a heap.
   */
  method PopLast<V>(h: PriorityQueue<V>, ghost s: seq<Item<V>>) returns (x: Item<V>)
    requires h.Indexed() && |h.items| > 0
    requires HeapUpTo(h.items, |h.items| - 1)
    requires multiset(h.items) == multiset(s)
    modifies h, h.items[|h.items| - 1]
    ensures h.Valid()
    ensures x == old(h.items[|h.items| - 1]) && x.index == -1
    ensures h.items == old(h.items[..|h.items| - 1])
    ensures multiset(h.items) + multiset{x} == multiset(s)
  {
    ghost var t := h.items;
    var n := h.Len() - 1;
    DropLast(s, t, n);
    var y := h.Pop();
    x := y;
    assert h.items == t[..n];
  }
}
