# Cache with time-to-live and a memory ceiling

This project models the in-memory cache of weaming/2captcha-pool (`cache.go`).
The cache maps string keys to entries. Each entry records:
- its insertion time (`priority`);
- its expiry time;
- its position in the eviction queue (`index`);
- a fixed byte charge.

Entries leave the cache in four ways:
- by time: `Get` and the collector `gc` delete entries whose expiry time has come;
- by memory: while the byte count is above a positive ceiling, `truncMemory` evicts the oldest entries;
- by explicit `Del`;
- by `Flush`.

The eviction queue is a binary min-heap on insertion time, stored in a slice. Its algorithms are those of Go's `container/heap`, written out over the queue's own `Len`/`Less`/`Swap`/`Push`/`Pop`.

Modules:
- `Options` (options.dfy): `Option`, the stand-in for Go's `(value, error)` and nil results.
- `Size` (size.dfy): the ceiling string `<int64><KB|MB|GB>` read by `SetMaxMemory`, as pure functions. `strconv.ParseInt` in base 10 is `ParseInt64`, and its inverse `FormatInt` serves the round-trip lemmas. The products by 1000 wrap around in int64, as Go's do.
- `Queue` (queue.dfy): the `Item` class and the `PriorityQueue` class. The queue is a `seq` field that `Push`, `Pop` and `Swap` reassign. Each item's `index` is updated in place. This module also defines the heap-order predicates.
- `Heap` (heap.dfy):
  - sift-up (`Up`) and sift-down (`Down`, one round per `DownStep`);
  - `heap.Push`, `heap.Pop` and `heap.Remove`.

  Each is a method on the queue. `Up` and `Down` restore heap order and keep the same items (a multiset). `heap.Push`, `heap.Pop` and `heap.Remove` keep heap order and add or remove exactly one item. All of them keep every item's `index` equal to its slot.
- `Caching` (cache.dfy): the `Cache` class, with fields `maxMemory`, `memory`, `mapping` and `pq`, and all of its operations.
  - `Valid()` is the invariant every operation keeps:
    - the queue is a heap whose items know their slots;
    - every mapped entry carries its key and is queued;
    - `memory` covers at least the queued entries.
  - `Leak()` is `memory` minus the charge of the queued entries. Every operation except `Flush` and `FlushReset` keeps it unchanged.
  - `Lockstep()` says that map and queue hold the same entries. Every operation except `Set` on an existing key keeps it.
  - `Exact()` is `Leak() == 0`, the byte count being exactly the queue's charge.
- `Scenarios` (scenarios.dfy): concrete runs: a stored value is found at once, and the runs behind the two findings below.

The interface comments at cache.go:22-37 give ceilings as "1KB, 100KB, 1MB, 2MB, 1GB" and describe Flush as clearing all values. The model follows the code where it differs from them:
- The number may carry a sign and may be any int64 (`strconv.ParseInt`). A ceiling of zero or below disables eviction (`maxMemory <= 0`, cache.go:96).
- Flush empties map and queue but keeps the byte count (first finding below).

## Model

| member | source | states |
|---|---|---|
| Size.Wrap64 | cache.go:77-81 | an int64 product: the result is in int64 range, congruent to the exact value modulo 2^64, and equal to it when it fits |
| Size.ParseInt64 | cache.go:69-73 | a successful parse is a non-empty string and an int64 value |
| Size.ParseFormatRoundTrip | cache.go:69 | every int64 written in decimal parses back to itself |
| Size.RejectsNonDigit | cache.go:69-73 | a character that is neither a digit nor a leading sign makes the parse fail |
| Size.RejectsBareSign | cache.go:69-73 | "", "+" and "-" do not parse |
| Size.RejectsOutOfRange | cache.go:69-73 | a number outside int64, written in decimal, does not parse |
| Size.ParseSize | cache.go:68-85 | the ceiling is the last two characters as unit and the rest as number; success needs unit KB, MB or GB and a number that parses; the result is an int64 |
| Size.Scale | cache.go:75-85 | a unit is accepted exactly when it is KB, MB or GB, and the scaled value is an int64 |
| Size.ParseSizeScales | cache.go:68-85 | any int64 written with a known unit reads back as that number scaled by 1000 per step, each step wrapped to int64 |
| Size.ScaleExact | cache.go:76-81 | without overflow the stepwise products equal the exact product with 1000, 1000^2 or 1000^3 |
| Size.ParseSizeRoundTrip | cache.go:68-85 | "<n>KB", "<n>MB", "<n>GB" read back as n·10^3, n·10^6, n·10^9 whenever that fits in int64 |
| Size.RejectsUnknownUnit | cache.go:75-84 | a unit other than KB, MB, GB is refused, whatever the number |
| Size.OverflowWraps | cache.go:76-77 | "9223372036854776KB" is accepted as the negative ceiling -2^63+192, which disables eviction |
| Queue.Item.constructor | cache.go:225-232 | a new entry holds its key, value, times and charge and is not queued (index -1) |
| Queue.RootOlderThan | cache.go:244-247 | in heap order on the first n slots, slot 0 is no younger than any of them |
| Queue.RootIsOldest | cache.go:244-247 | the root of a heap is its oldest item |
| Queue.PriorityQueue.constructor | cache.go:53 | a new queue is empty and valid |
| Queue.PriorityQueue.Len | cache.go:240-242 | the number of queued items |
| Queue.PriorityQueue.Less | cache.go:244-247 | slot i holds a strictly older item than slot j; such slots are distinct and hold distinct items |
| Queue.PriorityQueue.LessIsStrictOrder | cache.go:244-247 | Less compares insertion times strictly: irreflexive, asymmetric and transitive |
| Queue.PriorityQueue.HeapByLess | cache.go:244-247 | the queue is in heap order exactly when no slot is Less than its parent |
| Queue.PriorityQueue.Swap | cache.go:249-255 | exchanges two slots, stamps both items with their new slots, keeps the items and keeps every item's index equal to its slot |
| Queue.PriorityQueue.Push | cache.go:257-264 | appends the item after stamping it with the old length; an unqueued item keeps the indexes right |
| Queue.PriorityQueue.Pop | cache.go:266-279 | on an empty queue returns null and changes nothing; otherwise removes the last slot, returns its item stamped -1, and keeps the indexes right |
| Heap.Up | cache.go:124 | sift-up of slot j0 restores heap order on the first n slots when only the edge into j0 was out of order and j0's parent is no younger than j0's children; slots from n on and the items are kept |
| Heap.Down | cache.go:109-110 | sift-down of slot i0 restores heap order apart from the edge into i0 (all of it when i0 is the root or the item moved); if it did not move nothing changed; slot n and the items are kept |
| Heap.DownStep | cache.go:109-110 | one round of sift-down: stops, changing nothing, when neither child of slot i is older; otherwise swaps slot i with its older child and carries the sift-down invariant to that child |
| Heap.PopLast | cache.go:266-279 | the queue's own Pop at the end of heap.Pop and heap.Remove: with heap order on the slots before the last, it drops the last slot, stamps its item -1 and leaves a valid heap |
| Heap.Push | cache.go:124 | heap.Push adds one unqueued item and keeps a valid heap |
| Heap.Pop | cache.go:109 | heap.Pop removes and returns the root, stamped -1; the rest stays a valid heap; the returned item is no younger than any left |
| Heap.SwapToEnd | cache.go:219 | the first half of heap.Remove: slot i goes to the last slot and the slots before it form a heap |
| Heap.Remove | cache.go:219 | heap.Remove takes out exactly the item in slot i, stamped -1, and keeps a valid heap |
| Caching.Seconds | cache.go:122 | whole seconds of a nanosecond duration, truncated toward zero |
| Caching.LiveExpiredPartition | cache.go:185-206 | the keys Keys counts and the keys gc deletes partition the map |
| Caching.EvictedInOrder | cache.go:103-114 | popping the oldest queued entry onto the evicted ones keeps them oldest first, none younger than a queued entry, and together with the queue the starting items |
| Caching.Cache.constructor | cache.go:48-56 | NewCache: no ceiling (-1), nothing charged, empty map and queue; valid, exact and in lockstep |
| Caching.Cache.SetMaxMemory | cache.go:67-93 | true exactly when the size parses, and then the ceiling is the parsed value; false changes nothing; on success the entries evicted are the ones taken out of queue and map and uncharged, they come out oldest first and none is younger than an entry left; without a positive ceiling nothing is evicted and the queue is untouched; eviction stops as soon as the count fits, so afterwards the count is under a positive ceiling or the queue is empty |
| Caching.Cache.TruncMemory | cache.go:95-115 | without a positive ceiling nothing is evicted and the queue is left exactly as it was; at the end the count is under the ceiling or the queue is empty; the evicted entries leave queue and map, are uncharged, come out oldest first and are no younger than any entry left; it stops as soon as the count fits |
| Caching.Cache.EvictOldest | cache.go:108-110 | one round of truncMemory pops the root, the oldest entry, appends exactly it to the evicted ones, forgets its key and uncharges it, keeping the eviction invariant |
| Caching.Cache.Set | cache.go:117-128 | maps key to a new entry stamped now, expiring after the whole seconds given, charged 16 bytes; queue and count grow by that entry less what truncMemory then evicts: nothing without a positive ceiling, otherwise the oldest entries first, stopping as soon as the count fits; lockstep is kept only for a key not already mapped |
| Caching.Cache.Admit | cache.go:121-125 | before eviction, Set grows the queue by exactly the new entry, the map by its key and the count by its charge |
| Caching.Cache.GetItem | cache.go:145-153 | getItem returns the mapped entry, which is queued, or null exactly when the key is not mapped |
| Caching.Cache.Get | cache.go:130-143 | a value exactly when the key maps to an entry with expiry after now; an expired entry is reported (notify) and deleted; otherwise nothing changes |
| Caching.Cache.Del | cache.go:155-164 | true exactly when the key was mapped, and then the entry is out of map and queue, stamped -1 and uncharged; false changes nothing |
| Caching.Cache.Exists | cache.go:166-169 | true exactly when the key maps to an entry that has not expired, and then nothing changes; on false the key is unmapped: an expired entry is taken out of the queue and uncharged, and for a missing key queue and count are unchanged |
| Caching.Cache.Flush | cache.go:171-178 | true; map and a fresh queue empty; the byte count is left as it was, which becomes unaccounted charge |
| Caching.Cache.Keys | cache.go:180-191 | the number of mapped entries whose expiry is after now |
| Caching.Cache.Gc | cache.go:193-213 | the deleted keys are exactly the mapped keys whose expiry is at or before now; each leaves the map, its entry leaves the queue and is uncharged, and every entry left in the queue was in it before |
| Caching.Cache.Sweep | cache.go:205-212 | gc's loop over every key of the map it starts from ends with exactly the expired keys deleted, each entry out of the queue |
| Caching.Cache.GcVisit | cache.go:205-211 | one round of gc's scan deletes the visited key exactly when its entry has expired |
| Caching.Cache.DelItem | cache.go:216-222 | del forgets the key and uncharges the entry; with removeHeap it also takes the entry out of the queue, otherwise the queue is untouched |
| Caching.Cache.Enqueue | cache.go:124 | heap.Push on the cache's queue adds the entry and nothing else |
| Caching.Cache.PopOldest | cache.go:109 | heap.Pop on the cache's queue takes out an entry no younger than any left, and nothing else |
| Caching.Cache.Dequeue | cache.go:219 | heap.Remove at a queued entry's index takes out that entry and nothing else |
| Caching.Cache.FlushReset | cache.go:171-178 | corrected Flush: empty map and queue and nothing charged, so the byte count is exact again |
| Caching.Cache.SetReplacing | cache.go:117-128 | corrected Set: an entry the key mapped to before is deleted first, so lockstep and the charge are kept for every key; eviction afterwards is as in Set: none without a positive ceiling, oldest first, stopping as soon as the count fits |
| Scenarios.FlushKeepsCharge | cache.go:171-178 | after Set("a") and Flush the cache is empty but still charged 16 bytes |
| Scenarios.SetWhenOvercharged | cache.go:103-125 | once the unaccounted charge leaves less than one entry's room under a positive ceiling, every Set leaves the cache empty |
| Scenarios.SetThenGet | cache.go:117-143 | with no positive ceiling, or room for one more entry under it, a value just stored is returned by Get within its expiry |
| Scenarios.FlushResetClears | cache.go:171-178 | the same run through FlushReset leaves nothing charged |
| Scenarios.OverwriteOrphans | cache.go:123-124 | Set("a") twice then Del("a") leaves one entry queued and charged with no key mapped to it |
| Scenarios.ReplacingLeavesNothing | cache.go:117-128 | the same run through SetReplacing leaves an empty queue and nothing charged |

## Left out

- Locks and goroutines are not modelled: the cache's read/write mutex, the queue's mutex, and the `go` spawns of `truncMemory`, `Del` and the expiry callback. Each spawned step runs synchronously where it is spawned. The windows in which another operation could interleave are not captured.
- The background loop in `NewCache`, which runs `gc` once a second, is not modelled. `Gc` is an operation the caller invokes.
- The expiry callback is a foreign function. It is not called. `Get` reports whether it would fire (`notify`), and `Gc` returns the keys it would fire for.
- `time.Now().Unix()` is the parameter `now`. `time.Sleep`, `log` output and the `DEBUG` switch are left out.
- `unsafe.Sizeof(val)` is the constant 16, the size of an interface value on a 64-bit platform.
- Caching.Cache.Set: `now + expire/time.Second` is computed without int64 wrap-around. Priorities, expiry times and the byte count are unbounded integers, and so is the count returned by `Keys`.
- Caching.Cache.SetMaxMemory: requires at least two characters. A shorter string makes Go's slice expression panic.
- Strings are sequences of characters, not of bytes. A ceiling string whose last two characters are not single bytes is cut differently than Go cuts it.
- The nil check after `heap.Pop` in `truncMemory` has no counterpart. The queue is checked non-empty just before, so the check never fails.
- The `j1 < 0` overflow guard of container/heap's sift-down is left out, because integers are unbounded. Clearing the popped slot for the garbage collector (`pq.items[n-1] = nil`) is also left out, since it has no observable effect.
- `Swap` has a value receiver, so it locks a copy of the queue's mutex. It still updates the shared slice, and the model updates the queue itself.
- `test()` in cache.go is not part of this model, and neither are main.go, crack.go, hub.go and types.go.

## Findings

| source | as written | input that shows it | evidently intended | confidence | as-written member | corrected member |
|---|---|---|---|---|---|---|
| cache.go:171-178 | Flush replaces map and queue but keeps the byte count, so the removed entries stay charged | Set("a"), then Flush: the cache is empty and still charged 16 bytes. Once 62 entries are charged this way and the ceiling is "1KB", every later Set is evicted at once | Flush resets the byte count to 0 | high, not executed | Scenarios.FlushKeepsCharge | Caching.Cache.FlushReset |
| cache.go:123-124 | Set on an existing key overwrites the map entry but leaves the old entry queued and charged | Set("a"), Set("a"), Del("a"): one entry is still queued and 16 bytes are still charged, with no key mapped to it | the old entry is removed from the queue and uncharged before the new one is added | high, not executed | Scenarios.OverwriteOrphans | Caching.Cache.SetReplacing |
