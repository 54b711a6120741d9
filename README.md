# SPSC ring-buffer queue: a verified sequential model

This project models `bm::SPSCQueue<T>` from the behavioral-model packet switch
(`include/bm/bm_sim/spsc_queue.h`). It is a bounded circular buffer that hands
items from exactly one producer thread to exactly one consumer thread.

- **Ring.** The ring is an array whose length `ring_capacity` is the smallest
  power of two at or above the requested capacity. An index is mapped to its
  slot by masking with `ring_capacity - 1`.
- **Depth.** A separate `queue_capacity` (at most `ring_capacity`) is the
  logical depth the protocol enforces.
- **Indices.** Each side owns a private 64-bit index (`prod_pi`, `cons_ci`).
  It also keeps a cached copy of the other side's index (`prod_ci`, `cons_pi`)
  and publishes its own index to the other side (`__prod_index`,
  `__cons_index`). All index arithmetic is unsigned and wraps modulo 2^64.
- **Thresholds.** Before it blocks, a side registers a wake-up threshold
  (`prod_event`, `cons_event`). The other side's notify routine signals it
  when the newly published index passes that threshold. The counters
  `prod_not` and `cons_not` record these signals.

The model is a sequential state machine: class `Spsc.Queue` has these fields,
and one method per routine of the header. The `modifies` frames state who owns
what. Producer methods may write only `prodIndex`, `prodEvent`, `prodCi`,
`prodPi`, `prodNot`, the ring and the ghost view. Consumer methods may write
only `consIndex`, `consEvent`, `consCi`, `consPi`, `consNot` and the ghost view.

The ghost field `contents` is the abstract FIFO: the items from `consCi` up to
`prodPi`, each in slot `index mod ring_capacity`. The object invariant `Valid()`
says four things:
- measured along the ring from `prodCi`, the indices come in the order
  `prodCi ≤ consIndex ≤ consCi ≤ consPi ≤ prodIndex ≤ prodPi`;
- at most `queueCap` items are in flight;
- `contents` holds exactly the items in those slots;
- every relation is stated with wrapping unsigned differences.

All of this holds for every index value, including states whose indices
straddle 2^64.

A blocking wait cannot be modelled sequentially, because nothing else runs
while the caller waits. So each waiting routine runs up to the point where the
thread would block on its semaphore, and it reports that outcome: `None` or
`false`. To get there it performs every state change the source makes:
- it registers the threshold;
- it publishes its index through the notify routine;
- it repeats the check.

Modules: `Wrap64` (uint64 arithmetic and the crossing test), `Ring` (powers of
two, bitwise AND, `normalize_index`, the ring size), `Spsc` (the queue),
`Thresholds` (what the registered thresholds achieve), `Scenarios` (runs on a
fresh queue).

### Behaviour worth knowing

The model follows the code as written; each of these is proved about it.
- **Initial thresholds.** `prod_event` and `cons_event` both start at 0
  (`spsc_queue.h:248`, `:254`). On a fresh queue the first forced push runs
  the crossing test with old index 0, new index 1 and threshold 0:
  `(1 - 0 - 1) < (1 - 0)`. The test succeeds, so the push signals the
  consumer and counts one signal in `prod_not`, though the consumer never
  waited (`FirstPushSignals`). A woken consumer re-checks, so this is
  harmless.
- **Space freed by a pop.** `cons_advance` publishes the consumer index only
  when the consumer has caught up with its copy of the producer index
  (`spsc_queue.h:175`). A single pop from a full queue therefore frees no
  slot the producer can see. The next push blocks until the consumer has
  drained everything it saw (`PopOneThenPush`, `BlockedUntilDrained`).
- **Unforced pushes.** As the comment at `spsc_queue.h:216` says,
  `prod_advance` publishes and notifies only when `force` is set. A push with
  `force = false` is invisible to the consumer. It becomes visible after a
  later forced push, or when the producer's own slow path publishes
  (`UnforcedPushIsDeferred`). `force` defaults to `true`.
- **Threshold meaning.** The crossing test
  `index_t(new - ev - 1) < index_t(new - old)` holds exactly when `ev` lies
  in the half-open range `[old, new)` modulo 2^64. In other words, the
  published index went from at most `ev` to beyond `ev`, as the field
  comments "wake up when index > event" say (`CrossedIff`, `CrossedSpan`).
  - With the consumer's threshold `cons_ci + want - 1` (`spsc_queue.h:146-147`),
    the consumer is signalled exactly when the `want`-th item becomes
    visible (`ConsumerWakeup`).
  - With the producer's threshold placed a quarter of the way from `prod_ci`
    to `prod_pi`, the producer is signalled once the consumer has taken more
    than a quarter of what the producer saw in flight. Occupancy is then
    below 75% of that amount, as the comment at `spsc_queue.h:187` describes
    (`ProducerWakeup`).

## Model

| member | source | states |
|---|---|---|
| `Wrap64.Crossed` | include/bm/bm_sim/spsc_queue.h:209 | the crossing test `index_t(new - ev - 1) < index_t(new - old)` of both notify routines; it never fires when the index did not move, nor for a threshold equal to the new index |
| `Wrap64.AddSubAreModular` | include/bm/bm_sim/spsc_queue.h:68 | index sums and differences are taken modulo 2^64, as on `uint64_t` |
| `Wrap64.CrossedIff` | include/bm/bm_sim/spsc_queue.h:209 | the notify test fires iff the threshold's distance from the old published index is below the distance the index moved, i.e. the threshold lies in [old, new) mod 2^64 |
| `Wrap64.CrossedSpan` | include/bm/bm_sim/spsc_queue.h:166 | the notify test fires iff the threshold is one of the indices old, old+1, …, new-1 (mod 2^64) that the published index stepped over |
| `Wrap64.CrossedRelative` | include/bm/bm_sim/spsc_queue.h:202-213 | for a threshold `k` past a base that both indices lie beyond, the test fires iff the index's distance from the base goes from at most `k` to more than `k` |
| `Ring.BitAnd` | include/bm/bm_sim/spsc_queue.h:226 | the bitwise `&` of two unsigned values, bit by bit; the result is at most either operand |
| `Ring.LowMask` | include/bm/bm_sim/spsc_queue.h:226 | `x & (r - 1)` equals `x mod r` for every power of two `r` |
| `Ring.NormalizeIndex` | include/bm/bm_sim/spsc_queue.h:225-227 | the slot of an index lies below `ring_capacity` and is the index modulo `ring_capacity` |
| `Ring.WrappedSlot` | include/bm/bm_sim/spsc_queue.h:225-227 | reducing an index modulo 2^64 first does not change its slot, since the ring size divides 2^64: index wrap-around is invisible in the ring |
| `Ring.SlotsDistinct` | include/bm/bm_sim/spsc_queue.h:225-227 | indices fewer than `ring_capacity` apart (with wrap-around) occupy different slots |
| `Ring.CeilPow2` | include/bm/bm_sim/spsc_queue.h:73 | the ring size for a requested capacity is a power of two, at least the capacity, and half of it is below the capacity |
| `Ring.CeilPow2Least` | include/bm/bm_sim/spsc_queue.h:73 | no power of two at or above the requested capacity is smaller than the computed ring size |
| `Spsc.Queue.constructor` | include/bm/bm_sim/spsc_queue.h:72-77 | `max_capacity` defaults to 1024; a fresh queue has ring size `CeilPow2(max_capacity)`, `queue_capacity = max_capacity`, all indices, thresholds and counters 0, empty contents; requires capacity ≥ 1 and ring size ≤ `max_size` = 2^63 |
| `Spsc.Queue.ProdHasSpace` | include/bm/bm_sim/spsc_queue.h:230-233 | refreshes `prod_ci := __cons_index` and answers `(prod_pi - prod_ci) mod 2^64 <= queue_capacity - want`; for `want <= queue_capacity` that is "`want` more items fit"; changes nothing else |
| `Spsc.Queue.ProdNotify` | include/bm/bm_sim/spsc_queue.h:202-213 | sets `__prod_index := prod_pi`; increments `prod_not` by one (mod 2^64) iff the crossing test against `cons_event` holds, else leaves it |
| `Spsc.Queue.ProdAdvance` | include/bm/bm_sim/spsc_queue.h:217-222 | `prod_pi` advances by `have`, the contents gain the `have` filled slots at the back; publishes and notifies iff `force`, else leaves `__prod_index` and `prod_not` |
| `Spsc.Queue.ProdAvailable` | include/bm/bm_sim/spsc_queue.h:197 | the value `prod_ci + queue_capacity - prod_pi` returned by `prod_wait_space`: whenever at most `queue_capacity` items are in flight it is `queue_capacity` minus that count, despite the wrap-around |
| `Spsc.Queue.ProdWaitSpace` | include/bm/bm_sim/spsc_queue.h:182-198 | with space: returns `prod_ci + queue_capacity - prod_pi` = free slots, thresholds untouched; without: sets `prod_event := prod_ci + (prod_pi - prod_ci)/4`, publishes via `prod_notify`, and reports that the producer would wait on its semaphore |
| `Spsc.Queue.PushFront` | include/bm/bm_sim/spsc_queue.h:124-131 | `force` defaults to `true`; succeeds iff `prod_pi - __cons_index < queue_capacity`; then writes the item to slot `normalize_index(prod_pi)` and no other slot, advances `prod_pi` by 1, contents become old contents + [item], publishes only when `force`; otherwise ring and contents unchanged and the producer's slow-path threshold is registered |
| `Spsc.Queue.ConsHasData` | include/bm/bm_sim/spsc_queue.h:236-239 | refreshes `cons_pi := __prod_index` and answers `(cons_pi - cons_ci) mod 2^64 >= want`; changes nothing else |
| `Spsc.Queue.ConsNotify` | include/bm/bm_sim/spsc_queue.h:159-170 | sets `__cons_index := cons_ci`; increments `cons_not` by one iff the crossing test against `prod_event` holds, else leaves it |
| `Spsc.Queue.ConsAdvance` | include/bm/bm_sim/spsc_queue.h:173-178 | `cons_ci` advances by `have`, the first `have` items leave the contents; publishes and notifies iff `cons_pi == cons_ci` afterwards, else leaves `__cons_index` and `cons_not` |
| `Spsc.Queue.ConsWaitData` | include/bm/bm_sim/spsc_queue.h:135-155 | with data: returns `cons_pi - cons_ci`, the number of visible items (at least `want`); without: sets `cons_event := cons_ci + want - 1`, publishes via `cons_notify`, and reports that the consumer would wait on its semaphore |
| `Spsc.Queue.PopBack` | include/bm/bm_sim/spsc_queue.h:89-95 | succeeds iff the published producer index is ahead of `cons_ci`; returns the head of the contents, the element in slot `normalize_index(cons_ci)`, removes it and advances `cons_ci` by 1, publishing only if the consumer caught up |
| `Spsc.Queue.MoveOut` | include/bm/bm_sim/spsc_queue.h:100-102 | the copying loop appends the items at `cons_ci`, …, `cons_ci + num - 1`, i.e. the first `num` items of the contents in FIFO order, to the container |
| `Spsc.Queue.PopBackBatch` | include/bm/bm_sim/spsc_queue.h:98-106 | succeeds iff at least one item is visible; appends exactly the `__prod_index - cons_ci` visible items to the container, oldest first, drops them from the contents, and leaves `cons_ci == cons_pi == __cons_index` (consumer caught up and published) |
| `Spsc.InFlightBound` | include/bm/bm_sim/spsc_queue.h:232 | in every valid state `0 <= (prod_pi - cons_ci) mod 2^64 <= queue_capacity <= ring_capacity`, and the contents hold exactly that many items |
| `Spsc.InFlightSlotsDistinct` | include/bm/bm_sim/spsc_queue.h:100-101 | no two in-flight items share a ring slot |
| `Spsc.PushSlotIsFree` | include/bm/bm_sim/spsc_queue.h:125-127 | when the space check passes, the slot `normalize_index(prod_pi)` that a push writes holds no unconsumed item |
| `Thresholds.ConsumerWakeup` | include/bm/bm_sim/spsc_queue.h:146-148 | with `cons_event = cons_ci + want - 1`, a producer publication from `before` to `after` signals iff fewer than `want` items were visible before and at least `want` after: no satisfying publication goes unsignalled |
| `Thresholds.ProducerWakeup` | include/bm/bm_sim/spsc_queue.h:187-189 | `prod_event` lies a quarter of the way from `prod_ci` to `prod_pi`; a consumer publication signals iff it moves the consumer index past that point, after which the occupancy is below three quarters of what the producer saw |
| `Scenarios.BatchedDrain` | include/bm/bm_sim/spsc_queue.h:98-106 | pushing a, b, c and draining once yields [a, b, c]; a second drain finds nothing |
| `Scenarios.PopOneThenPush` | include/bm/bm_sim/spsc_queue.h:173-178 | with capacity 4: push 4, pop 1 (the first item), then a push would block, since the pop did not publish the consumer index |
| `Scenarios.BlockedUntilDrained` | include/bm/bm_sim/spsc_queue.h:182-198 | with capacity 2: the third push blocks, still blocks after one pop, and goes through after the second pop, which signals the producer exactly once |
| `Scenarios.UnforcedPushIsDeferred` | include/bm/bm_sim/spsc_queue.h:217-222 | an item pushed with `force = false` is invisible to the consumer, which would block; the next forced push signals it once and the consumer then takes the first item |
| `Scenarios.FirstPushSignals` | include/bm/bm_sim/spsc_queue.h:254 | on a queue built and pushed with the default arguments (capacity 1024, forced push), `cons_event` starting at 0 makes the first push count one signal to a consumer that never waited |

## Left out

- `Semaphore` and the blocking `wait()` on `prod_sem` and `cons_sem`: thread parking cannot be expressed in a sequential model. The waiting routines stop where the thread would block and report it. The `signal()` calls are represented by the increments of `prod_not` and `cons_not` that accompany them.
- The microsecond `sleep_for` before the consumer's second check, and the `while (true)` retry loops: sleeping and retrying after a wake-up need another thread to change the state. The model performs the second check and the double check, which sequentially see the same state.
- `std::atomic`, memory ordering and `alignas(64)` padding: these are concurrency and cache-layout concerns. The shared indices are plain fields.
- `Spsc.Queue.PushFront`, `Spsc.Queue.PopBack`, `Spsc.Queue.PopBackBatch`: the source's versions always return `true` after blocking as long as needed. The model returns `false` or `None` where the thread would block, because a sequential model cannot wait for the other side.
- `Spsc.Queue.constructor`: the source computes the ring size as `1 << ceil(log2(max_capacity))` in floating point (`spsc_queue.h:73`). The model uses the exact smallest power of two (`CeilPow2`). The two differ for capacities just above a power of two 2^k for every k ≥ 49, such as 2^k + 1, whether or not a `double` holds the capacity exactly. There `log2` rounds down to exactly k, so the source's ring has 2^k slots, fewer than `queue_capacity`. The invariant `queue_capacity <= ring_capacity` then fails, and a push can overwrite a slot that has not been consumed. The model, and every property proved about it, is for the exact ring size. A capacity of 0, undefined in the source, is excluded by the precondition.
- The two `push_front` overloads (copy and move; both default `force` to `true`, as `PushFront` does), `std::forward`, and the deleted copy and move constructors: value categories are a C++ detail. The model has one push that stores the item.
- The moved-from state left in a ring slot by `pop_back`'s `std::move`: the model leaves the item in the slot. It is outside the contents either way.
- `targets/fast_switch/fast_switch.cpp` is not part of this model. It holds threads, the statistics printer, the runtime server, `main`, and calls into the packet parser, pipeline and deparser, which are outside this model.
