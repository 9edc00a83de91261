# timedelta_queues in Dafny

This project models `timedelta_queues`, a small Python library of sliding time windows over
timestamped items, and proves what its three queues do:

- `TimedeltaQueue` keeps the items no more than `delta` older than the most recently appended
  one. `append` pushes the new item, pops from the front while the front item is dated
  strictly before `date(obj) - delta`, and returns what it popped, oldest first.
- `FastWindowedStatsQueue` is the same queue with a running count, sum and sum of squares of
  one attribute, so that `mean` and the population `std` take constant time.
- `TimedeltaBufferQueue` puts a buffer window in front of a statistics window. Whatever the
  buffer evicts is appended to the statistics window one item at a time, oldest first, and
  `append` returns everything the statistics window evicted.

Items are `Item(date, x)`: integer dates (minutes in the scenarios) and the integer attribute
whose statistics are kept. Each `delta` is a `nat`.

The project has five modules:

- `Window` (window.dfy) defines the eviction rule on values. `Admit` is one append. `AdmitAll`
  feeds items one at a time. It also proves sortedness, the window bound, the inclusive
  boundary, prefix removal and the flush property.
- `Stats` (stats.dfy) gives reference definitions of the sum, the sum of squares, the mean and
  the population variance. A value is an exact fraction `Ratio(num, den)`, meaning
  `num / den`.
- `Cascade` (cascade.dfy) covers the two-stage buffer queue on values: one append
  (`BufferAdmit`), a run of appends (`BufferRun`) and the invariant the two stages keep.
- `TimedeltaQueues` (queues.dfy) holds the three classes with their state updated in place:
  - the queue contents are a `seq` field;
  - `append` is a `while` loop (or a `for` loop) with invariants;
  - each method is proved equal to its value-level definition.

  `FastWindowedStatsQueue` holds its underlying `TimedeltaQueue` as the field `base`, in place
  of the Python superclass.
- `Scenarios` (scenarios.dfy) proves the repository's test scenarios for every stream of one
  item per minute.

Facts about the code that the model pins down:

- **Inclusive boundary.** The eviction loop at `timedelta_queues/timedelta_queues.py:39` pops
  an item only when its date is strictly before `date(obj) - delta`. An item exactly `delta`
  older than the new item therefore stays (`Window.AdmitKeepsExactly`). This is why a
  31-minute window at one item per minute holds 32 items.
- **Flush threshold.** An append empties the queue down to the new item exactly when every
  retained item is dated strictly before `date(obj) - delta`, that is, more than `delta`
  older (`Window.AdmitFlush`). The comment at `test/test_timedelta_queue.py:37` says "at
  least"; the test itself appends an item 32 minutes after the last with a 31-minute delta,
  which is more than `delta`.
- **Delay.** An item reaches the statistics window only once the buffer evicts it, that is,
  once an appended item is dated strictly more than `buffer_delta` after it
  (`timedelta_queues/timedelta_queues.py:133`, `Cascade.DelayKept`).
- **No clamp.** `std` takes the square root of `_sum_squares/_n - (_sum/_n)**2` with no clamp
  (`timedelta_queues/timedelta_queues.py:67`). In exact arithmetic that argument equals the
  population variance and is never negative (`Stats.ShortcutVariance`).
- **First eviction.** With deltas 10 and 31 the statistics window first evicts an item on
  the append at zero-based index 43, the 44th item, as the guard `i > 42` at
  `test/test_timedelta_buffer_queue.py:55` expects (`Scenarios.BufferScenario`).
- **Empty window.** With `_n == 0`, `mean` and `std` divide by zero, which raises in Python.
  The model returns `ZeroDivision`.

## Model

| member | source | states |
|---|---|---|
| `Window.LeadingOlder` | timedelta_queues/timedelta_queues.py:39-40 | the number of items the eviction loop pops: every item before it is dated before the cutoff, and the next one, if any, is not |
| `Window.LeadingOlderUnique` | timedelta_queues/timedelta_queues.py:39-40 | any split point with only older items before it and a not-older item next is the one the loop stops at |
| `Window.Admit` | timedelta_queues/timedelta_queues.py:33-42 | one append: evicted ++ kept == old queue ++ [obj]; every evicted item is dated before `obj.date - delta`; the new item is the last one kept, so it is never evicted; the front kept item is not older than the cutoff; nothing is evicted exactly when the old front is not older than the cutoff |
| `Window.AdmitUnique` | timedelta_queues/timedelta_queues.py:33-42 | those promises determine the append: any split with an older prefix and a not-older front is the split `Admit` makes |
| `Window.AdmitWindow` | timedelta_queues/timedelta_queues.py:34-40 | appending in date order keeps the queue sorted, with every retained item no older than `obj.date - delta`, so checking only the front enforces the window |
| `Window.AdmitKeepsExactly` | timedelta_queues/timedelta_queues.py:36-40 | inclusive boundary: an item is retained if and only if its date is `>= obj.date - delta` |
| `Window.AdmitFlush` | timedelta_queues/timedelta_queues.py:33-40 | the append evicts the whole old queue if and only if every old item is dated before `obj.date - delta`, and then only the new item remains |
| `Window.AdmitAll` | timedelta_queues/timedelta_queues.py:136-138 | items appended one at a time, oldest first, each with its own cutoff: evicted ++ kept == queue ++ items, and the last item fed is the last one kept |
| `Window.AdmitAllSnoc` | timedelta_queues/timedelta_queues.py:136-138 | feeding one more item appends it to the kept queue and concatenates its evictions after the earlier ones, in order |
| `Window.AdmitAllAtOnce` | timedelta_queues/timedelta_queues.py:136-138 | feeding items in date order one at a time ends exactly like a single append of the last item to everything before it: same retained items, same evictions in the same order |
| `Window.AdmitAfterEvicting` | timedelta_queues/timedelta_queues.py:39-40 | popping some items older than the cutoff before an append does not change its outcome: the append pops the rest, and together they are what it pops from the whole queue |
| `Window.AdmitAllWindow` | timedelta_queues/timedelta_queues.py:136-138 | feeding items in date order keeps the queue sorted and within `delta` of the last item fed |
| `Window.AdmitAllWindowed` | timedelta_queues/timedelta_queues.py:136-138 | feeding items in date order to a windowed queue leaves it windowed |
| `Window.SortedSnoc` | timedelta_queues/timedelta_queues.py:34 | appending an item no older than the last keeps a queue sorted |
| `Window.SortedFrontOldest` | timedelta_queues/timedelta_queues.py:39 | in a sorted queue no item is older than the front one |
| `Stats.Values` | timedelta_queues/timedelta_queues.py:82-88 | the attribute values of the items, one per item, in queue order |
| `Stats.SumsConcat` | timedelta_queues/timedelta_queues.py:84-90 | the sum and the sum of squares split over concatenation |
| `Stats.SumsSnoc` | timedelta_queues/timedelta_queues.py:84-85 | adding an item adds its value to the sum and its square to the sum of squares |
| `Stats.SumsPrefix` | timedelta_queues/timedelta_queues.py:87-90 | each pass of the eviction loop takes back one more evicted value and its square |
| `Stats.SumsAfterEviction` | timedelta_queues/timedelta_queues.py:82-90 | after an append, the kept items' totals are the old totals plus the new value minus the evicted values |
| `Stats.ScaledDeviationSum` | timedelta_queues/timedelta_queues.py:62-63 | the deviations of the values from `b / a`, scaled by `a`, add up to `a * sum - n * b` |
| `Stats.MeanCentres` | timedelta_queues/timedelta_queues.py:62-63 | `sum / n` is the arithmetic mean: the deviations from it cancel out |
| `Stats.MeanUnique` | timedelta_queues/timedelta_queues.py:62-63 | any two means of the same window are equal as numbers |
| `Stats.ScaledSqDeviationExpand` | timedelta_queues/timedelta_queues.py:66-67 | the expansion of the sum of squared deviations in terms of the sum and the sum of squares |
| `Stats.ScaledSqDeviationNonNegative` | timedelta_queues/timedelta_queues.py:66-67 | a sum of squared deviations is never negative |
| `Stats.ShortcutVariance` | timedelta_queues/timedelta_queues.py:66-67 | `sum_squares/n - (sum/n)^2` equals the population variance of the window and is never negative, so the unclamped square root is defined |
| `Cascade.BufferAdmit` | timedelta_queues/timedelta_queues.py:133-140 | one buffer-queue append: evicted ++ stats ++ buffer == old stats ++ old buffer ++ [obj]; the new item ends the buffer; if the buffer evicts nothing, the statistics window is unchanged and nothing is returned |
| `Cascade.BufferRun` | timedelta_queues/timedelta_queues.py:124-140 | a fresh buffer queue after a sequence of appends; the last item appended ends the buffer |
| `Cascade.BufferRunSnoc` | timedelta_queues/timedelta_queues.py:124-140 | helper that unfolds `BufferRun` by one append, for the proofs by induction over appends |
| `Cascade.BufferAdmitInvariant` | timedelta_queues/timedelta_queues.py:98-140 | an append in date order preserves the two-stage invariant: the history is sorted with the statistics window holding the older part; each stage is windowed by its own delta; every statistics item is more than `buffer_delta` older than the newest item |
| `Cascade.HistoryExtends` | timedelta_queues/timedelta_queues.py:133 | an append in date order extends the sorted history of both stages |
| `Cascade.KeptSorted` | timedelta_queues/timedelta_queues.py:133-140 | what the two stages hold after an append is still sorted, statistics window first |
| `Cascade.FedSorted` | timedelta_queues/timedelta_queues.py:133-138 | the buffer's evictions come after the statistics window in date order, so they are fed in order |
| `Cascade.StatsWindowed` | timedelta_queues/timedelta_queues.py:136-138 | the statistics window stays within `queue_delta` of its newest item |
| `Cascade.DelayKept` | timedelta_queues/timedelta_queues.py:133-138 | every item in the statistics window is dated strictly before `obj.date - buffer_delta` |
| `Cascade.FeedStep` | timedelta_queues/timedelta_queues.py:136-138 | one pass of the replay loop: the next buffer eviction may be appended in date order, and the replay so far extends by exactly that append |
| `Cascade.FeedOrder` | timedelta_queues/timedelta_queues.py:136-137 | the next buffer eviction is no older than the statistics window, and the rest stays sorted after the append |
| `Cascade.FeedExtends` | timedelta_queues/timedelta_queues.py:136-138 | replaying one more buffer eviction appends it to the statistics window and concatenates its evictions after the earlier ones |
| `Cascade.BufferRunInvariant` | timedelta_queues/timedelta_queues.py:98-140 | every sequence of appends in date order from a fresh buffer queue keeps the two-stage invariant |
| `TimedeltaQueues.TimedeltaQueue.constructor` | timedelta_queues/timedelta_queues.py:21-24 | a new queue is empty and holds the given delta |
| `TimedeltaQueues.TimedeltaQueue.Append` | timedelta_queues/timedelta_queues.py:26-42 | the popping loop leaves the queue and returns the eviction list exactly as `Admit` defines them, and the queue stays sorted and windowed |
| `TimedeltaQueues.TimedeltaQueue.Length` | timedelta_queues/timedelta_queues.py:44-45 | `len` is the number of retained items |
| `TimedeltaQueues.FastWindowedStatsQueue.constructor` | timedelta_queues/timedelta_queues.py:54-59 | a new queue is empty, with zero count, sum and sum of squares |
| `TimedeltaQueues.FastWindowedStatsQueue.Append` | timedelta_queues/timedelta_queues.py:69-92 | evicts exactly what the plain queue's append evicts, and afterwards `_n`, `_sum` and `_sum_squares` are the count, sum and sum of squares of exactly the retained items |
| `TimedeltaQueues.FastWindowedStatsQueue.Mean` | timedelta_queues/timedelta_queues.py:61-63 | divides by zero exactly when the queue is empty; otherwise the result is the arithmetic mean of the retained values |
| `TimedeltaQueues.FastWindowedStatsQueue.Variance` | timedelta_queues/timedelta_queues.py:65-67 | the argument of `std`'s square root: divides by zero exactly when the queue is empty; otherwise it is non-negative and equals the population variance of the retained values |
| `TimedeltaQueues.FastWindowedStatsQueue.Length` | timedelta_queues/timedelta_queues.py:94-95 | the running count `_n` is the number of retained items |
| `TimedeltaQueues.TimedeltaBufferQueue.constructor` | timedelta_queues/timedelta_queues.py:104-114 | a new buffer queue has two empty, distinct stages with the given deltas |
| `TimedeltaQueues.TimedeltaBufferQueue.Append` | timedelta_queues/timedelta_queues.py:124-140 | the buffer, the statistics window and the returned list are exactly `BufferAdmit`'s, and the two-stage invariant is kept |
| `TimedeltaQueues.TimedeltaBufferQueue.Replay` | timedelta_queues/timedelta_queues.py:135-139 | the loop appends the buffer's evictions to the statistics window one at a time, oldest first, and returns the concatenation of what each append evicted, as `AdmitAll` defines |
| `TimedeltaQueues.TimedeltaBufferQueue.Mean` | timedelta_queues/timedelta_queues.py:116-118 | the mean of the statistics window; divides by zero exactly when that window is empty |
| `TimedeltaQueues.TimedeltaBufferQueue.Variance` | timedelta_queues/timedelta_queues.py:120-122 | the population variance of the statistics window, which is non-negative; divides by zero exactly when that window is empty |
| `Scenarios.WindowStart` | test/test_timedelta_queue.py:27-31 | the index of the oldest item retained after the first `m` items of a per-minute stream |
| `Scenarios.AdmitRamp` | test/test_timedelta_queue.py:24-32 | on a per-minute stream, appending item `m` to items `a .. m` leaves the last `delta + 1` minutes of the first `m + 1` items and evicts everything from `a` up to them, for any start `a` not past that window |
| `Scenarios.AdmitAllRamp` | test/test_timedelta_queue.py:24-32 | feeding a stretch of a per-minute stream moves the window from one prefix's last `delta + 1` minutes to the next prefix's |
| `Scenarios.AdmitAllBetween` | test/test_timedelta_queue.py:24-32 | the same for any start not past the final window: the queue ends as that window and everything before it is evicted, in order |
| `Scenarios.QueueRamp` | test/test_timedelta_queue.py:24-32 | a fresh queue fed a per-minute stream holds its last `delta + 1` minutes |
| `Scenarios.QueueScenario` | test/test_timedelta_queue.py:24-32 | with a 31-minute delta, append `i` leaves `min(i + 1, 32)` items, the most recent ones, and evicts one item from index 32 on |
| `Scenarios.QueueClearing` | test/test_timedelta_queue.py:34-40 | an item 32 minutes after the last evicts all 32 retained items and is left alone in the queue |
| `Scenarios.BufferAdmitRamp` | test/test_timedelta_buffer_queue.py:44-64 | on a per-minute stream, each buffer-queue append moves both windows on by one minute |
| `Scenarios.BufferRunRamp` | test/test_timedelta_buffer_queue.py:44-64 | the buffer holds the last `buffer_delta + 1` minutes and the statistics window the last `queue_delta + 1` minutes of what left the buffer |
| `Scenarios.BufferScenario` | test/test_timedelta_buffer_queue.py:44-64 | with deltas 10 and 31: the buffer holds `min(i + 1, 11)` items; the statistics window holds items `max(0, i - 42) .. i - 10`, which is `min(32, i - 10)` items after the first 11 appends; one item is evicted per append from index 43 on |

## Left out

- The square root in `std`, and floating-point division in `mean` and `std`. The model computes
  the exact mean and the exact argument of the square root as fractions. Floating-point
  rounding can make the unclamped argument a tiny negative number, giving `nan`; that is not
  modelled.
- Overflow of the sums. Attribute values are unbounded integers. With numpy `int64` values the
  running sums could wrap, and that is not modelled.
- `datetime`/`timedelta`: dates are integers and each delta is a `nat`. With a negative delta
  the Python loop would pop the new item and then index an empty deque. The model requires
  `delta >= 0`.
- The `date_getter` and `attr_getter` callables are the fixed projections `Item.date` and
  `Item.x`.
- `TimedeltaBufferQueue.__len__` returns `NotImplemented`, so `len()` raises `TypeError`. It
  has no behaviour to model.
- Appends out of date order. The code does not detect them. Every append method requires the
  new item to be no older than the newest retained one.
- `FastWindowedStatsQueue` inherits from `TimedeltaQueue` in Python. The model holds the base
  queue as the field `base` and calls its `Append` in place of `super().append`.
- `setup.py` and the tests' random value generation. The scenarios hold for every attribute
  value.
