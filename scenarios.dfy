/**
 * Concrete runs of the cache: a stored value is found at once, and two
 * defects of Flush and Set as written, next to the same runs through the
 * corrected operations.
 */
module Scenarios {
  import opened Queue
  import opened Options
  import opened Caching

  /** Flush as written: after Set("a") and Flush the cache is empty but still charges the entry. */
  method FlushKeepsCharge() returns (c: Cache<int>)
    ensures c.Valid() && c.mapping == map[] && c.pq.items == []
    ensures c.memory == EntryCost
  {
    c := new Cache();
    ghost var item, evicted := c.Set("a", 1, 60 * Second, 0);
    var _ := c.Flush();
  }

  /**
   * Why that matters: once the stale charge leaves less than one entry's
   * room under a ceiling, every Set evicts what it stored and the cache
   * stays empty for good.
   */
  method SetWhenOvercharged(c: Cache<int>, key: string, now: int)
    requires c.Valid() && c.maxMemory > 0 && c.Leak() + EntryCost > c.maxMemory
    modifies c, c.pq, c.pq.items
    ensures c.Valid() && c.pq.items == [] && c.mapping == map[]
    ensures c.Leak() + EntryCost > c.maxMemory
  {
    ghost var item, evicted := c.Set(key, 1, 60 * Second, now);
    assert c.mapping.Keys == {};
  }

  /**
   * A value just stored is found at once: with no positive ceiling, or with
   * room for one more entry under it, Set evicts nothing, and Get within the
   * expiry returns the value.
   */
  method SetThenGet(c: Cache<int>, key: string, val: int, now: int) returns (r: Option<int>)
    requires c.Valid() && (c.maxMemory <= 0 || c.memory + EntryCost <= c.maxMemory)
    modifies c, c.pq, c.pq.items
    ensures r == Some(val)
  {
    ghost var item, evicted := c.Set(key, val, 60 * Second, now);
    var notify;
    r, notify := c.Get(key, now);
  }

  /** FlushReset: the same run leaves nothing charged. */
  method FlushResetClears() returns (c: Cache<int>)
    ensures c.Valid() && c.Exact() && c.mapping == map[] && c.pq.items == []
    ensures c.memory == 0
  {
    c := new Cache();
    ghost var item, evicted := c.Set("a", 1, 60 * Second, 0);
    var _ := c.FlushReset();
  }

  /**
   * Set as written: setting "a" twice queues two entries; deleting "a"
   * dequeues only the second, and the first stays queued and charged with
   * no key left to reach it.
   */
  method OverwriteOrphans() returns (c: Cache<int>)
    ensures c.Valid() && c.mapping == map[]
    ensures |c.pq.items| == 1 && c.memory == EntryCost
  {
    c := new Cache();
    ghost var first, evicted1 := c.Set("a", 1, 60 * Second, 0);
    ghost var second, evicted2 := c.Set("a", 2, 60 * Second, 0);
    var _ := c.Del("a");
  }

  /** SetReplacing: the same run leaves an empty queue and nothing charged. */
  method ReplacingLeavesNothing() returns (c: Cache<int>)
    ensures c.Valid() && c.Exact() && c.Lockstep()
    ensures c.mapping == map[] && c.pq.items == [] && c.memory == 0
  {
    c := new Cache();
    ghost var first, evicted1 := c.SetReplacing("a", 1, 60 * Second, 0);
    ghost var second, evicted2 := c.SetReplacing("a", 2, 60 * Second, 0);
    var _ := c.Del("a");
  }
}
