/**
 * The in-memory cache: a map from key to entry, the eviction queue that
 * orders the same entries by insertion time, a running byte count and an
 * optional ceiling on it. Entries expire by time (checked on read and by the
 * collector) and by memory (the oldest are evicted while the count is over
 * the ceiling).
 *
 * The cache's lock and the goroutines it starts are not modelled: every
 * `go` step runs synchronously at the point where it is started, the clock
 * reading is the parameter `now` (seconds since the epoch), and the expiry
 * callback is reported as the keys it would be called with.
 */
module Caching {
  import opened Options
  import opened Size
  import opened Queue
  import Heap

  /** Bytes charged to every entry: the size of an interface value on a 64-bit platform. */
  const EntryCost: int := 16

  /** Nanoseconds in a second. */
  const Second: int := 1_000_000_000

  /** Whole seconds in a duration of d nanoseconds, truncated toward zero as Go's integer division does. */
  function Seconds(d: int): (s: int)
    ensures d >= 0 ==> 0 <= s * Second <= d < (s + 1) * Second
    ensures d < 0 ==> (s - 1) * Second < d <= s * Second <= 0
  {
    if d >= 0 then d / Second else -((-d) / Second)
  }

  /** The keys of m whose entries are still live at time now. */
  function LiveKeys<V>(m: map<string, Item<V>>, now: int): set<string> {
    set k | k in m && m[k].expire > now
  }

  /** The keys of m whose entries have expired at time now. */
  function ExpiredKeys<V>(m: map<string, Item<V>>, now: int): set<string> {
    set k | k in m && m[k].expire <= now
  }

  /** The keys of a sequence of entries. */
  function KeysOf<V>(s: seq<Item<V>>): set<string> {
    if s == [] then {} else KeysOf(s[..|s| - 1]) + {s[|s| - 1].key}
  }

  /** At every instant each key is either live or expired, never both. */
  lemma LiveExpiredPartition<V>(m: map<string, Item<V>>, now: int)
    ensures LiveKeys(m, now) + ExpiredKeys(m, now) == m.Keys
    ensures LiveKeys(m, now) !! ExpiredKeys(m, now)
    ensures |LiveKeys(m, now)| + |ExpiredKeys(m, now)| == |m|
  {
    assert LiveKeys(m, now) + ExpiredKeys(m, now) == m.Keys;
  }

  /** Visiting one more key k counts it among the live keys seen exactly when it is live. */
  lemma CountOneMore<V>(m: map<string, Item<V>>, now: int, seen: set<string>, k: string)
    requires k in m && k !in seen
    ensures |LiveKeys(m, now) * (seen + {k})| == |LiveKeys(m, now) * seen| + (if m[k].expire > now then 1 else 0)
  {
    if m[k].expire > now {
      assert LiveKeys(m, now) * (seen + {k}) == LiveKeys(m, now) * seen + {k};
    } else {
      assert LiveKeys(m, now) * (seen + {k}) == LiveKeys(m, now) * seen;
    }
  }

  /** Forgetting the keys in a and then k is forgetting the keys in a + {k}. */
  lemma ForgetOneMore<V>(m: map<string, Item<V>>, a: set<string>, k: string)
    ensures (m - a) - {k} == m - (a + {k})
  {
  }

  /** Every queued entry is the one its key maps to. */
  predicate InLockstep<V>(items: seq<Item<V>>, m: map<string, Item<V>>) {
    forall x :: x in items ==> x.key in m && m[x.key] == x
  }

  /**
   * Taking one item v out of s leaves t: every slot of t holds an item of
   * s, every other item of s is still there, and t is one shorter.
   */
  lemma Shrunk<V>(s: seq<Item<V>>, t: seq<Item<V>>, v: Item<V>)
    requires multiset(t) + multiset{v} == multiset(s)
    ensures forall i :: 0 <= i < |t| ==> t[i] in s
    ensures forall y :: y in s && y != v ==> y in t
    ensures v in s && |t| == |s| - 1
  {
    forall i | 0 <= i < |t|
      ensures t[i] in s
    {
      assert t[i] in multiset(t);
      assert t[i] in multiset(s);
    }
    forall y | y in s && y != v
      ensures y in t
    {
      assert y in multiset(s);
    }
    assert v in multiset(s);
    assert |multiset(t)| + 1 == |multiset(s)|;
  }

  /** Adding one item x to s gives t: every slot of t holds x or an item of s, and s is kept. */
  lemma Grown<V>(s: seq<Item<V>>, t: seq<Item<V>>, x: Item<V>)
    requires multiset(t) == multiset(s) + multiset{x}
    ensures forall i :: 0 <= i < |t| ==> t[i] in s || t[i] == x
    ensures forall y :: y in s ==> y in t
    ensures x in t
  {
    forall i | 0 <= i < |t|
      ensures t[i] in s || t[i] == x
    {
      assert t[i] in multiset(t);
    }
    forall y | y in s
      ensures y in t
    {
      assert y in multiset(s);
      assert y in multiset(t);
    }
    assert x in multiset(t);
  }

  /**
   * What evicting the oldest entries one at a time from the queue items0
   * leaves: the queue keeps only items of items0; queue and evicted entries
   * together are items0; the evicted entries are oldest first and none is
   * younger than a queued one.
   */
  ghost predicate Drained<V>(items: seq<Item<V>>, evicted: seq<Item<V>>, items0: seq<Item<V>>)
  {
    (forall i :: 0 <= i < |items| ==> items[i] in items0) &&
    multiset(items) + multiset(evicted) == multiset(items0) &&
    (forall a, b :: 0 <= a < b < |evicted| ==> evicted[a].priority <= evicted[b].priority) &&
    (forall x, y :: x in evicted && y in items ==> x.priority <= y.priority)
  }

  /** Popping the oldest item v of s, leaving t, and appending it to the evicted entries keeps them drained. */
  lemma EvictedInOrder<V>(s: seq<Item<V>>, t: seq<Item<V>>, v: Item<V>, evicted: seq<Item<V>>, items0: seq<Item<V>>)
    requires Drained(s, evicted, items0)
    requires multiset(t) + multiset{v} == multiset(s)
    requires forall i :: 0 <= i < |t| ==> t[i] in s
    requires forall y :: y in t ==> v.priority <= y.priority
    ensures Drained(t, evicted + [v], items0)
  {
    assert v in multiset(s);
    forall y | y in t
      ensures y in s
    {
      assert y in multiset(t);
      assert y in multiset(s);
    }
    assert multiset(evicted + [v]) == multiset(evicted) + multiset{v};
  }

  /** An item that records no position is not among items that record their own positions. */
  lemma NotQueued<V>(s: seq<Item<V>>, v: Item<V>)
    requires IndexedSeq(s) && v.index == -1
    ensures v !in s
  {
  }

  /** Dequeuing an entry and forgetting its key keeps the map and the queue in lockstep. */
  lemma LockstepAfterRemoval<V>(s: seq<Item<V>>, t: seq<Item<V>>, m: map<string, Item<V>>, v: Item<V>)
    requires InLockstep(s, m) && v in s
    requires forall y :: y in t ==> y in s && y != v
    ensures InLockstep(t, m - {v.key})
  {
    forall y | y in t
      ensures y.key in m - {v.key} && (m - {v.key})[y.key] == y
    {
      assert m[y.key] == y && m[v.key] == v;
    }
  }

  /** Queuing an entry under a fresh key and mapping the key to it keeps the lockstep. */
  lemma LockstepAfterInsert<V>(s: seq<Item<V>>, t: seq<Item<V>>, m: map<string, Item<V>>, x: Item<V>)
    requires InLockstep(s, m) && x.key !in m
    requires forall y :: y in t ==> y in s || y == x
    ensures InLockstep(t, m[x.key := x])
  {
    forall y | y in t
      ensures y.key in m[x.key := x] && m[x.key := x][y.key] == y
    {
      if y != x {
        assert m[y.key] == y;
      }
    }
  }

  class Cache<V> {
    var maxMemory: int                   // the ceiling in bytes; 0 or less means none
    var memory: int                      // bytes charged so far
    var mapping: map<string, Item<V>>
    var pq: PriorityQueue<V>

    /** Bytes charged beyond the entries in the queue. */
    ghost function Leak(): int
      reads this, pq
    {
      memory - EntryCost * |pq.items|
    }

    /**
     * The cache invariant: the queue is a heap whose items know their
     * slots and each cost EntryCost; every mapped entry carries its key and
     * is queued; the byte count covers at least the queued entries.
     */
    ghost predicate Valid()
      reads this, pq, pq.items
    {
      pq.Valid() &&
      (forall x :: x in pq.items ==> x.memory == EntryCost) &&
      (forall k :: k in mapping ==> mapping[k].key == k && mapping[k] in pq.items) &&
      Leak() >= 0
    }

    /** The byte count is exactly the cost of the queued entries. */
    ghost predicate Exact()
      reads this, pq
    {
      Leak() == 0
    }

    /** Map and queue hold the same entries. */
    ghost predicate Lockstep()
      reads this, pq
    {
      InLockstep(pq.items, mapping)
    }

    /** NewCache: no ceiling, nothing charged, empty map and queue. */
    constructor ()
      ensures Valid() && Exact() && Lockstep()
      ensures maxMemory == -1 && memory == 0 && mapping == map[] && pq.items == [] && fresh(pq)
    {
      maxMemory := -1;
      memory := 0;
      mapping := map[];
      pq := new PriorityQueue();
    }

    /**
     * SetMaxMemory: parses the ceiling; on success stores it and evicts down
     * to it; otherwise returns false and changes nothing.
     */
    method SetMaxMemory(size: string) returns (ok: bool, ghost evicted: seq<Item<V>>)
      requires Valid() && |size| >= 2
      modifies this, pq, pq.items
      ensures Valid() && pq == old(pq)
      ensures ok == ParseSize(size).Some?
      ensures ok ==> maxMemory == ParseSize(size).value
      ensures !ok ==> maxMemory == old(maxMemory) && evicted == [] && pq.items == old(pq.items)
      ensures multiset(pq.items) + multiset(evicted) == multiset(old(pq.items))
      ensures forall i :: 0 <= i < |pq.items| ==> pq.items[i] in old(pq.items)
      ensures mapping == old(mapping) - KeysOf(evicted)
      ensures memory == old(memory) - EntryCost * |evicted|
      ensures ok && maxMemory <= 0 ==> evicted == [] && pq.items == old(pq.items)
      ensures ok && maxMemory > 0 ==> memory <= maxMemory || pq.items == []
      ensures evicted != [] ==> memory + EntryCost > maxMemory
      ensures forall a, b :: 0 <= a < b < |evicted| ==> evicted[a].priority <= evicted[b].priority
      ensures forall x, y :: x in evicted && y in pq.items ==> x.priority <= y.priority
      ensures Leak() == old(Leak())
      ensures old(Lockstep()) ==> Lockstep()
    {
      match ParseSize(size)
      case None =>
        ok, evicted := false, [];
      case Some(num) =>
        maxMemory := num;
        evicted := TruncMemory();
        ok := true;
    }

    /**
     * truncMemory: while the byte count is over a positive ceiling, pops the
     * oldest entry and forgets its key. Stops early when the queue is empty.
     */
    method TruncMemory() returns (ghost evicted: seq<Item<V>>)
      requires Valid()
      modifies this, pq, pq.items
      ensures Valid() && pq == old(pq) && maxMemory == old(maxMemory)
      ensures maxMemory <= 0 ==> evicted == [] && pq.items == old(pq.items)
      ensures maxMemory > 0 ==> memory <= maxMemory || pq.items == []
      ensures evicted != [] ==> memory + EntryCost > maxMemory
      ensures multiset(pq.items) + multiset(evicted) == multiset(old(pq.items))
      ensures forall i :: 0 <= i < |pq.items| ==> pq.items[i] in old(pq.items)
      ensures mapping == old(mapping) - KeysOf(evicted)
      ensures memory == old(memory) - EntryCost * |evicted|
      ensures forall a, b :: 0 <= a < b < |evicted| ==> evicted[a].priority <= evicted[b].priority
      ensures forall x, y :: x in evicted && y in pq.items ==> x.priority <= y.priority
      ensures Leak() == old(Leak())
      ensures old(Lockstep()) ==> Lockstep()
    {
      evicted := [];
      if maxMemory <= 0 {
        return;
      }
      while memory > maxMemory
        invariant pq == old(pq) && maxMemory == old(maxMemory)
        invariant Evicting(old(mapping), old(pq.items), old(memory), old(Leak()), old(Lockstep()), evicted)
        invariant evicted != [] ==> memory + EntryCost > maxMemory
        decreases |pq.items|
      {
        if pq.Len() == 0 {
          return;
        }
        evicted := EvictOldest(old(mapping), old(pq.items), old(memory), old(Leak()), old(Lockstep()), evicted);
      }
    }

    /**
     * What truncMemory's loop keeps: the entries evicted so far, oldest first,
     * plus those still queued are the queue it started from; their keys are
     * forgotten and their bytes uncharged; none is younger than a queued one.
     */
    ghost predicate Evicting(m0: map<string, Item<V>>, items0: seq<Item<V>>, mem0: int, leak0: int, lock0: bool,
                             evicted: seq<Item<V>>)
      reads this, pq, pq.items
    {
      Valid() &&
      Drained(pq.items, evicted, items0) &&
      mapping == m0 - KeysOf(evicted) &&
      memory == mem0 - EntryCost * |evicted| &&
      Leak() == leak0 &&
      (lock0 ==> Lockstep())
    }

    /** One round of truncMemory: pops the oldest entry and forgets its key. */
    method EvictOldest(ghost m0: map<string, Item<V>>, ghost items0: seq<Item<V>>, ghost mem0: int,
                       ghost leak0: int, ghost lock0: bool, ghost evicted: seq<Item<V>>)
      returns (ghost evicted': seq<Item<V>>)
      requires pq.items != []
      requires Evicting(m0, items0, mem0, leak0, lock0, evicted)
      modifies this, pq, pq.items
      ensures pq == old(pq) && maxMemory == old(maxMemory)
      ensures Evicting(m0, items0, mem0, leak0, lock0, evicted')
      ensures |pq.items| == |old(pq.items)| - 1 && memory == old(memory) - EntryCost
      ensures evicted' == evicted + [old(pq.items[0])]
    {
      ghost var s, m := pq.items, mapping;
      var v := PopOldest();
      EvictedInOrder(s, pq.items, v, evicted, items0);
      DelItem(v, false);
      if lock0 {
        LockstepAfterRemoval(s, pq.items, m, v);
      }
      evicted' := evicted + [v];
      assert evicted'[..|evicted|] == evicted && evicted'[|evicted|] == v;
      assert mapping == m0 - KeysOf(evicted');
    }

    /**
     * Set: maps key to a new entry stamped now, expiring after the whole
     * seconds in expire, queues it, charges it, then evicts down to the
     * ceiling. An entry the key mapped to before stays queued.
     */
    method Set(key: string, val: V, expire: int, now: int) returns (ghost item: Item<V>, ghost evicted: seq<Item<V>>)
      requires Valid()
      modifies this, pq, pq.items
      ensures Valid() && pq == old(pq) && maxMemory == old(maxMemory)
      ensures fresh(item)
      ensures item.key == key && item.value == val && item.memory == EntryCost
      ensures item.priority == now && item.expire == now + Seconds(expire)
      ensures multiset(pq.items) + multiset(evicted) == multiset(old(pq.items)) + multiset{item}
      ensures forall i :: 0 <= i < |pq.items| ==> pq.items[i] in old(pq.items) || pq.items[i] == item
      ensures mapping == old(mapping)[key := item] - KeysOf(evicted)
      ensures memory == old(memory) + EntryCost - EntryCost * |evicted|
      ensures maxMemory <= 0 ==> evicted == []
      ensures maxMemory > 0 ==> memory <= maxMemory || pq.items == []
      ensures evicted != [] ==> memory + EntryCost > maxMemory
      ensures forall a, b :: 0 <= a < b < |evicted| ==> evicted[a].priority <= evicted[b].priority
      ensures forall x, y :: x in evicted && y in pq.items ==> x.priority <= y.priority
      ensures Leak() == old(Leak())
      ensures old(Lockstep()) && key !in old(mapping) ==> Lockstep()
    {
      var entry := new Item(key, val, now, now + Seconds(expire), EntryCost);
      item := entry;
      Admit(entry);
      evicted := TruncMemory();
    }

    /**
     * Set as evidently intended: an entry the key mapped to before is
     * deleted first, so the map and the queue stay in lockstep.
     */
    method SetReplacing(key: string, val: V, expire: int, now: int) returns (ghost item: Item<V>, ghost evicted: seq<Item<V>>)
      requires Valid()
      modifies this, pq, pq.items
      ensures Valid() && pq == old(pq) && maxMemory == old(maxMemory)
      ensures fresh(item)
      ensures item.key == key && item.value == val && item.memory == EntryCost
      ensures item.priority == now && item.expire == now + Seconds(expire)
      ensures key !in old(mapping) ==>
                multiset(pq.items) + multiset(evicted) == multiset(old(pq.items)) + multiset{item}
      ensures key in old(mapping) ==>
                multiset(pq.items) + multiset(evicted) + multiset{old(mapping)[key]} ==
                multiset(old(pq.items)) + multiset{item}
      ensures forall i :: 0 <= i < |pq.items| ==> pq.items[i] in old(pq.items) || pq.items[i] == item
      ensures mapping == old(mapping)[key := item] - KeysOf(evicted)
      ensures memory == old(memory) - (if key in old(mapping) then EntryCost else 0) + EntryCost - EntryCost * |evicted|
      ensures maxMemory <= 0 ==> evicted == []
      ensures maxMemory > 0 ==> memory <= maxMemory || pq.items == []
      ensures evicted != [] ==> memory + EntryCost > maxMemory
      ensures forall a, b :: 0 <= a < b < |evicted| ==> evicted[a].priority <= evicted[b].priority
      ensures forall x, y :: x in evicted && y in pq.items ==> x.priority <= y.priority
      ensures Leak() == old(Leak())
      ensures old(Lockstep()) ==> Lockstep()
    {
      ghost var s, m, mem := pq.items, mapping, memory;
      if key in mapping {
        var _ := Del(key);
      }
      assert key !in mapping && mapping == m - {key};
      assert memory == mem - (if key in m then EntryCost else 0);
      item, evicted := Set(key, val, expire, now);
      assert m[key := item] == (m - {key})[key := item];
    }

    /** The first half of Set: maps the entry's key to it, queues it and charges it. */
    method Admit(entry: Item<V>)
      requires Valid() && entry.memory == EntryCost && entry !in pq.items
      modifies this, pq, pq.items, entry
      ensures Valid() && pq == old(pq) && maxMemory == old(maxMemory)
      ensures mapping == old(mapping)[entry.key := entry]
      ensures multiset(pq.items) == multiset(old(pq.items)) + multiset{entry}
      ensures forall i :: 0 <= i < |pq.items| ==> pq.items[i] in old(pq.items) || pq.items[i] == entry
      ensures memory == old(memory) + EntryCost
      ensures Leak() == old(Leak())
      ensures old(Lockstep()) && entry.key !in old(mapping) ==> Lockstep()
    {
      ghost var s, m := pq.items, mapping;
      mapping := mapping[entry.key := entry];
      Enqueue(entry);
      if old(Lockstep()) && entry.key !in old(mapping) {
        LockstepAfterInsert(s, pq.items, m, entry);
      }
      memory := memory + entry.memory;
    }

    /** getItem: the entry key maps to, or null. */
    function GetItem(key: string): (r: Item?<V>)
      requires Valid()
      reads this, pq, pq.items
      ensures r != null <==> key in mapping
      ensures r != null ==> r == mapping[key] && r.key == key && r in pq.items
    {
      if key in mapping then mapping[key] else null
    }

    /**
     * Get: the value of a live entry. An expired entry is reported for the
     * expiry callback (notify) and deleted; a missing key changes nothing.
     */
    method Get(key: string, now: int) returns (r: Option<V>, notify: bool)
      requires Valid()
      modifies this, pq, pq.items
      ensures Valid() && pq == old(pq) && maxMemory == old(maxMemory)
      ensures r.Some? <==> key in old(mapping) && old(mapping)[key].expire > now
      ensures r.Some? ==> r.value == old(mapping)[key].value
      ensures notify <==> key in old(mapping) && old(mapping)[key].expire <= now
      ensures notify ==> mapping == old(mapping) - {key} && memory == old(memory) - EntryCost
      ensures notify ==> multiset(pq.items) + multiset{old(mapping)[key]} == multiset(old(pq.items))
      ensures !notify ==> mapping == old(mapping) && memory == old(memory) && pq.items == old(pq.items)
      ensures Leak() == old(Leak())
      ensures old(Lockstep()) ==> Lockstep()
    {
      var item := GetItem(key);
      r, notify := None, false;
      if item != null {
        if item.expire > now {
          return Some(item.value), false;
        }
        notify := true;
        var _ := Del(key);
      }
    }

    /** Del: forgets key and dequeues its entry; false, changing nothing, when key is not mapped. */
    method Del(key: string) returns (ok: bool)
      requires Valid()
      modifies this, pq, pq.items
      ensures Valid() && pq == old(pq) && maxMemory == old(maxMemory)
      ensures ok <==> key in old(mapping)
      ensures mapping == old(mapping) - {key}
      ensures ok ==> memory == old(memory) - EntryCost
      ensures ok ==> multiset(pq.items) + multiset{old(mapping)[key]} == multiset(old(pq.items))
      ensures ok ==> old(mapping)[key].index == -1
      ensures forall i :: 0 <= i < |pq.items| ==> pq.items[i] in old(pq.items)
      ensures !ok ==> memory == old(memory) && pq.items == old(pq.items)
      ensures Leak() == old(Leak())
      ensures old(Lockstep()) ==> Lockstep()
    {
      if key in mapping {
        DelItem(mapping[key], true);
        return true;
      }
      return false;
    }

    /** Exists: whether Get finds a live value, with Get's deletion of an expired entry. */
    method Exists(key: string, now: int) returns (ok: bool)
      requires Valid()
      modifies this, pq, pq.items
      ensures Valid() && pq == old(pq) && maxMemory == old(maxMemory)
      ensures ok <==> key in old(mapping) && old(mapping)[key].expire > now
      ensures ok ==> mapping == old(mapping) && memory == old(memory) && pq.items == old(pq.items)
      ensures !ok ==> mapping == old(mapping) - {key}
      ensures !ok && key in old(mapping) ==>
                memory == old(memory) - EntryCost &&
                multiset(pq.items) + multiset{old(mapping)[key]} == multiset(old(pq.items))
      ensures key !in old(mapping) ==> memory == old(memory) && pq.items == old(pq.items)
      ensures Leak() == old(Leak())
      ensures old(Lockstep()) ==> Lockstep()
    {
      var r, _ := Get(key, now);
      ok := r.Some?;
    }

    /** Flush: empties the map and replaces the queue; the byte count is left as it was. */
    method Flush() returns (ok: bool)
      requires Valid()
      modifies this
      ensures ok && Valid() && Lockstep()
      ensures mapping == map[] && fresh(pq) && pq.items == []
      ensures memory == old(memory) && maxMemory == old(maxMemory)
      ensures Leak() == old(memory)
    {
      mapping := map[];
      pq := new PriorityQueue();
      return true;
    }

    /** Flush as evidently intended: back to an empty cache charging nothing, keeping the ceiling. */
    method FlushReset() returns (ok: bool)
      requires Valid()
      modifies this
      ensures ok && Valid() && Exact() && Lockstep()
      ensures mapping == map[] && fresh(pq) && pq.items == []
      ensures memory == 0 && maxMemory == old(maxMemory)
    {
      ok := Flush();
      memory := 0;
    }

    /** Keys: the number of mapped entries still live at time now. */
    method Keys(now: int) returns (rv: int)
      ensures rv == |LiveKeys(mapping, now)|
    {
      rv := 0;
      var rest := mapping.Keys;
      ghost var seen: set<string> := {};
      while rest != {}
        invariant seen <= mapping.Keys && rest == mapping.Keys - seen
        invariant rv == |LiveKeys(mapping, now) * seen|
        decreases |rest|
      {
        var k :| k in rest;
        CountOneMore(mapping, now, seen, k);
        if mapping[k].expire > now {
          rv := rv + 1;
        }
        rest := rest - {k};
        seen := seen + {k};
      }
      assert LiveKeys(mapping, now) * seen == LiveKeys(mapping, now);
    }

    /**
     * What gc's scan keeps: the keys still to visit are keys of the map m0 it
     * started from; exactly the expired keys already visited are gone, each
     * with its entry; the invariant, the leak and the lockstep (if it held)
     * are kept.
     */
    ghost predicate Scanned(m0: map<string, Item<V>>, items0: seq<Item<V>>, leak0: int, lock0: bool,
                            now: int, rest: set<string>, expired: set<string>)
      reads this, pq, pq.items
    {
      Valid() &&
      (forall i :: 0 <= i < |pq.items| ==> pq.items[i] in items0) &&
      rest <= m0.Keys && rest !! expired && expired == ExpiredKeys(m0, now) - rest &&
      (forall k :: k in expired ==> m0[k] !in pq.items) &&
      mapping == m0 - expired &&
      |pq.items| == |items0| - |expired| &&
      Leak() == leak0 &&
      (lock0 ==> Lockstep())
    }

    /**
     * gc: every mapped entry expired at time now is reported for the expiry
     * callback and deleted.
     */
    method Gc(now: int) returns (expired: set<string>)
      requires Valid()
      modifies this, pq, pq.items
      ensures Valid() && pq == old(pq) && maxMemory == old(maxMemory)
      ensures forall k :: k in expired <==> k in old(mapping) && old(mapping)[k].expire <= now
      ensures mapping == old(mapping) - expired
      ensures memory == old(memory) - EntryCost * |expired|
      ensures |pq.items| == |old(pq.items)| - |expired|
      ensures forall i :: 0 <= i < |pq.items| ==> pq.items[i] in old(pq.items)
      ensures forall k :: k in expired ==> old(mapping)[k] !in pq.items
      ensures Leak() == old(Leak())
      ensures old(Lockstep()) ==> Lockstep()
    {
      expired := {};
      if |mapping| == 0 {
        return;
      }
      ScanStart(now);
      expired := Sweep(now, old(mapping), old(pq.items), old(Leak()), old(Lockstep()));
      ScanDone(old(mapping), old(pq.items), old(memory), old(Leak()), old(Lockstep()), now, expired);
    }

    /** gc's scan over every key of the map m0 it starts from. */
    method Sweep(now: int, ghost m0: map<string, Item<V>>, ghost items0: seq<Item<V>>, ghost leak0: int, ghost lock0: bool)
      returns (expired: set<string>)
      requires pq.items == items0 && Scanned(m0, items0, leak0, lock0, now, m0.Keys, {})
      modifies this, pq, pq.items
      ensures pq == old(pq) && maxMemory == old(maxMemory)
      ensures Scanned(m0, items0, leak0, lock0, now, {}, expired)
    {
      expired := {};
      var rest := mapping.Keys;
      while rest != {}
        invariant pq == old(pq) && maxMemory == old(maxMemory)
        invariant Scanned(m0, items0, leak0, lock0, now, rest, expired)
        decreases |rest|
      {
        var k :| k in rest;
        expired := GcVisit(k, now, m0, items0, leak0, lock0, rest, expired);
        rest := rest - {k};
      }
    }

    /** Before gc's scan nothing is visited and nothing deleted. */
    lemma ScanStart(now: int)
      requires Valid()
      ensures Scanned(mapping, pq.items, Leak(), Lockstep(), now, mapping.Keys, {})
    {
    }

    /** A finished scan has deleted exactly the expired keys of the map it started from. */
    lemma ScanDone(m0: map<string, Item<V>>, items0: seq<Item<V>>, mem0: int, leak0: int, lock0: bool, now: int,
                   expired: set<string>)
      requires Scanned(m0, items0, leak0, lock0, now, {}, expired)
      requires leak0 == mem0 - EntryCost * |items0|
      ensures Valid() && Leak() == leak0 && (lock0 ==> Lockstep())
      ensures memory == mem0 - EntryCost * |expired|
      ensures forall k :: k in expired <==> k in m0 && m0[k].expire <= now
      ensures mapping == m0 - expired
      ensures |pq.items| == |items0| - |expired|
      ensures forall i :: 0 <= i < |pq.items| ==> pq.items[i] in items0
      ensures forall k :: k in expired ==> m0[k] !in pq.items
    {
    }

    /** One round of gc's scan: deletes key k, not yet visited, if its entry has expired. */
    method GcVisit(k: string, now: int, ghost m0: map<string, Item<V>>, ghost items0: seq<Item<V>>,
                   ghost leak0: int, ghost lock0: bool, ghost rest: set<string>, expired: set<string>)
      returns (expired': set<string>)
      requires k in rest
      requires Scanned(m0, items0, leak0, lock0, now, rest, expired)
      modifies this, pq, pq.items
      ensures pq == old(pq) && maxMemory == old(maxMemory)
      ensures Scanned(m0, items0, leak0, lock0, now, rest - {k}, expired')
    {
      assert mapping[k] == m0[k];
      expired' := expired;
      if mapping[k].expire <= now {
        ghost var s := pq.items;
        var _ := Del(k);
        Shrunk(s, pq.items, m0[k]);
        ForgetOneMore(m0, expired, k);
        assert ExpiredKeys(m0, now) - (rest - {k}) == expired + {k};
        assert |expired + {k}| == |expired| + 1;
        expired' := expired + {k};
      } else {
        assert ExpiredKeys(m0, now) - (rest - {k}) == expired;
      }
    }

    /**
     * del: forgets v's key, dequeues v when removeHeap (otherwise the caller
     * has already popped it) and uncharges it.
     */
    method DelItem(v: Item<V>, removeHeap: bool)
      requires pq.Valid() && (forall x :: x in pq.items ==> x.memory == EntryCost)
      requires v.memory == EntryCost
      requires forall k :: k in mapping && k != v.key ==> mapping[k].key == k && mapping[k] in pq.items
      requires removeHeap ==> v in pq.items && Leak() >= 0
      requires !removeHeap ==> Leak() >= EntryCost
      modifies this, pq, pq.items
      ensures Valid() && pq == old(pq) && maxMemory == old(maxMemory)
      ensures mapping == old(mapping) - {v.key}
      ensures memory == old(memory) - v.memory
      ensures removeHeap ==> multiset(pq.items) + multiset{v} == multiset(old(pq.items)) && v.index == -1
      ensures forall i :: 0 <= i < |pq.items| ==> pq.items[i] in old(pq.items)
      ensures removeHeap ==> Leak() == old(Leak())
      ensures removeHeap && old(Lockstep()) ==> Lockstep()
      ensures !removeHeap ==> pq.items == old(pq.items)
    {
      ghost var s, m := pq.items, mapping;
      mapping := mapping - {v.key};
      if removeHeap {
        Dequeue(v);
        if old(Lockstep()) {
          LockstepAfterRemoval(s, pq.items, m, v);
        }
      }
      memory := memory - v.memory;
    }

    /** heap.Push(pq, x) for an unqueued x: adds x to the queue and nothing else. */
    method Enqueue(x: Item<V>)
      requires pq.Valid() && x !in pq.items
      modifies pq, pq.items, x
      ensures pq.Valid()
      ensures multiset(pq.items) == multiset(old(pq.items)) + multiset{x}
      ensures forall i :: 0 <= i < |pq.items| ==> pq.items[i] in old(pq.items) || pq.items[i] == x
      ensures forall y :: y in old(pq.items) ==> y in pq.items
      ensures forall y :: y in pq.items ==> y in old(pq.items) || y == x
      ensures x in pq.items && |pq.items| == |old(pq.items)| + 1
    {
      ghost var s := pq.items;
      Heap.Push(pq, x);
      Grown(s, pq.items, x);
    }

    /** heap.Pop(pq) on a non-empty queue: takes out the oldest entry and nothing else. */
    method PopOldest() returns (v: Item<V>)
      requires pq.Valid() && pq.items != []
      modifies pq, pq.items
      ensures pq.Valid() && v == old(pq.items[0]) && v.index == -1
      ensures multiset(pq.items) + multiset{v} == multiset(old(pq.items))
      ensures forall i :: 0 <= i < |pq.items| ==> pq.items[i] in old(pq.items)
      ensures forall y :: y in old(pq.items) && y != v ==> y in pq.items
      ensures forall y :: y in pq.items ==> v.priority <= y.priority
      ensures v in old(pq.items) && v !in pq.items && |pq.items| == |old(pq.items)| - 1
    {
      ghost var s := pq.items;
      v := Heap.Pop(pq);
      Shrunk(s, pq.items, v);
      NotQueued(pq.items, v);
    }

    /** heap.Remove(pq, v.index) for a queued v: takes v out of the queue and nothing else. */
    method Dequeue(v: Item<V>)
      requires pq.Valid() && v in pq.items
      modifies pq, pq.items
      ensures pq.Valid() && v.index == -1
      ensures multiset(pq.items) + multiset{v} == multiset(old(pq.items))
      ensures forall i :: 0 <= i < |pq.items| ==> pq.items[i] in old(pq.items)
      ensures forall y :: y in old(pq.items) && y != v ==> y in pq.items
      ensures v !in pq.items && |pq.items| == |old(pq.items)| - 1
    {
      ghost var s := pq.items;
      IndexedDistinct(pq.items);
      var _ := Heap.Remove(pq, v.index);
      Shrunk(s, pq.items, v);
      NotQueued(pq.items, v);
    }
  }
}
