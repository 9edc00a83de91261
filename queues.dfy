/** The three queue classes of `timedelta_queues`, with their state updated in place.
    Each method is proved against the value-level definitions of modules Window, Stats and
    Cascade, whose properties are proved there. */
module TimedeltaQueues {
  import opened Window
  import opened Stats
  import opened Cascade

  /** A statistic of an empty window is a division by a zero count. */
  datatype Result<T> = Ok(value: T) | ZeroDivision

  /** A queue that evicts items from the front once they are more than `delta` older than
      the most recently appended item. */
  class TimedeltaQueue {
    const delta: nat
    var q: seq<Item>

    /** The retained items are in date order and none is more than `delta` older than the
        newest. */
    ghost predicate Valid()
      reads this
    {
      Sorted(q) && Windowed(q, delta)
    }

    constructor (delta: nat)
      ensures Valid() && this.delta == delta && q == []
    {
      this.delta := delta;
      q := [];
    }

    /** Pushes `obj` at the back, then pops from the front while the front item is dated
        strictly before `obj.date - delta`; returns the popped items, oldest first. */
    method Append(obj: Item) returns (evicted: seq<Item>)
      requires Valid() && InOrder(q, obj)
      modifies this
      ensures Valid()
      ensures Step(q, evicted) == Admit(old(q), obj, delta)
    {
      ghost var w := q + [obj];
      q := q + [obj];
      var evictDate := obj.date - delta;
      evicted := [];
      while q[0].date < evictDate
        invariant q != [] && q[|q| - 1] == obj
        invariant evicted + q == w
        invariant AllBefore(evicted, evictDate)
        decreases |q|
      {
        evicted := evicted + [q[0]];
        q := q[1..];
      }
      AdmitUnique(old(q), obj, delta, evicted, q);
      AdmitWindow(old(q), obj, delta);
    }

    /** `len(queue)`: the number of retained items. */
    function Length(): (r: nat)
      reads this
      ensures r == |q|
    {
      |q|
    }
  }

  /** A `TimedeltaQueue` that also keeps the count, the sum and the sum of squares of the
      tracked attribute over the retained items, so that the mean and the standard deviation
      take constant time. The underlying queue plays the part of the superclass. */
  class FastWindowedStatsQueue {
    const base: TimedeltaQueue
    var n: int
    var sum: int
    var sumSquares: int

    /** The running totals agree with the retained items. */
    ghost predicate Valid()
      reads this, base
    {
      && base.Valid()
      && n == |base.q|
      && sum == Sum(Values(base.q))
      && sumSquares == SumSq(Values(base.q))
    }

    constructor (delta: nat)
      ensures Valid() && fresh(base) && base.delta == delta && base.q == []
    {
      base := new TimedeltaQueue(delta);
      n, sum, sumSquares := 0, 0, 0;
    }

    /** Counts the new item, appends it to the underlying queue, then adds its value and
        takes back the values of every evicted item. */
    method Append(obj: Item) returns (evicted: seq<Item>)
      requires Valid() && InOrder(base.q, obj)
      modifies this, base
      ensures Valid()
      ensures Step(base.q, evicted) == Admit(old(base.q), obj, base.delta)
    {
      n := n + 1;
      evicted := base.Append(obj);
      n := n - |evicted|;
      var value := obj.x;
      sum := sum + value;
      sumSquares := sumSquares + value * value;
      SumsAfterEviction(old(base.q), obj, evicted, base.q);
      ghost var kept, keptSq := Sum(Values(base.q)), SumSq(Values(base.q));
      assert evicted[..0] == [];
      for i := 0 to |evicted|
        modifies this
        invariant n == |base.q|
        invariant sum == kept + Sum(Values(evicted)) - Sum(Values(evicted[..i]))
        invariant sumSquares == keptSq + SumSq(Values(evicted)) - SumSq(Values(evicted[..i]))
      {
        var removed := evicted[i].x;
        sum := sum - removed;
        sumSquares := sumSquares - removed * removed;
        SumsPrefix(evicted, i);
      }
      assert evicted[..|evicted|] == evicted;
    }

    /** `mean`: the sum over the count, which divides by zero on an empty window. */
    function Mean(): (r: Result<Ratio>)
      reads this, base
      requires Valid()
      ensures r.ZeroDivision? <==> base.q == []
      ensures r.Ok? ==> IsMeanOf(Values(base.q), r.value)
    {
      if n == 0 then ZeroDivision
      else
        MeanCentres(Values(base.q));
        Ok(Ratio(sum, n))
    }

    /** The argument of the square root in `std`: `sum_squares / n - (sum / n)^2`, written as
        one fraction over `n^2`. It is the population variance of the window. */
    function Variance(): (r: Result<Ratio>)
      reads this, base
      requires Valid()
      ensures r.ZeroDivision? <==> base.q == []
      ensures r.Ok? ==> r.value.den > 0 && r.value.num >= 0
      ensures r.Ok? ==> SameValue(r.value, PopVariance(Values(base.q)))
    {
      if n == 0 then ZeroDivision
      else
        ShortcutVariance(Values(base.q));
        Ok(Ratio(n * sumSquares - sum * sum, n * n))
    }

    /** `len(queue)`: the running count, which is the number of retained items. */
    function Length(): (r: int)
      reads this, base
      requires Valid()
      ensures r == |base.q|
    {
      n
    }
  }

  /** A buffer window in front of a statistics window: an item reaches the statistics only
      once the buffer evicts it. */
  class TimedeltaBufferQueue {
    const bufferDelta: nat
    const queueDelta: nat
    const buffer: TimedeltaQueue
    const stats: FastWindowedStatsQueue

    ghost predicate Valid()
      reads this, buffer, stats, stats.base
    {
      && buffer != stats.base
      && buffer.Valid() && stats.Valid()
      && buffer.delta == bufferDelta && stats.base.delta == queueDelta
      && Invariant(buffer.q, stats.base.q, bufferDelta, queueDelta)
    }

    constructor (bufferDelta: nat, queueDelta: nat)
      ensures Valid() && this.bufferDelta == bufferDelta && this.queueDelta == queueDelta
      ensures fresh(buffer) && fresh(stats) && fresh(stats.base)
      ensures buffer.q == [] && stats.base.q == []
    {
      this.bufferDelta := bufferDelta;
      this.queueDelta := queueDelta;
      buffer := new TimedeltaQueue(bufferDelta);
      stats := new FastWindowedStatsQueue(queueDelta);
    }

    /** Appends `obj` to the buffer, then appends whatever the buffer evicted to the
        statistics window one at a time, oldest first; returns everything the statistics
        window evicted, in order. */
    method Append(obj: Item) returns (evicted: seq<Item>)
      requires Valid() && InOrder(buffer.q, obj)
      modifies buffer, stats, stats.base
      ensures Valid()
      ensures Stages(buffer.q, stats.base.q, evicted)
        == BufferAdmit(old(buffer.q), old(stats.base.q), obj, bufferDelta, queueDelta)
    {
      HistoryExtends(stats.base.q, buffer.q, obj);
      FedSorted(buffer.q, stats.base.q, obj, bufferDelta, queueDelta);
      var bufferEvicted := buffer.Append(obj);
      evicted := Replay(bufferEvicted);
      BufferAdmitInvariant(old(buffer.q), old(stats.base.q), obj, bufferDelta, queueDelta);
    }

    /** The loop of `append`: each item the buffer evicted is appended to the statistics
        window in turn, and the evictions it causes are collected in order. */
    method Replay(bufferEvicted: seq<Item>) returns (evicted: seq<Item>)
      requires stats.Valid() && Sorted(stats.base.q + bufferEvicted)
      modifies stats, stats.base
      ensures stats.Valid()
      ensures Step(stats.base.q, evicted) == AdmitAll(old(stats.base.q), bufferEvicted, stats.base.delta)
    {
      evicted := [];
      assert bufferEvicted[..0] == [] && bufferEvicted[0..] == bufferEvicted;
      for i := 0 to |bufferEvicted|
        invariant stats.Valid()
        invariant Step(stats.base.q, evicted) == AdmitAll(old(stats.base.q), bufferEvicted[..i], stats.base.delta)
        invariant Sorted(stats.base.q + bufferEvicted[i..])
      {
        FeedStep(old(stats.base.q), bufferEvicted, i, stats.base.q, evicted, stats.base.delta);
        var statsEvicted := stats.Append(bufferEvicted[i]);
        evicted := evicted + statsEvicted;
      }
      assert bufferEvicted[..|bufferEvicted|] == bufferEvicted;
    }

    /** `mean`: the mean of the statistics window. */
    function Mean(): (r: Result<Ratio>)
      reads this, buffer, stats, stats.base
      requires Valid()
      ensures r.ZeroDivision? <==> stats.base.q == []
      ensures r.Ok? ==> IsMeanOf(Values(stats.base.q), r.value)
    {
      stats.Mean()
    }

    /** The argument of the square root in `std`: the population variance of the
        statistics window. */
    function Variance(): (r: Result<Ratio>)
      reads this, buffer, stats, stats.base
      requires Valid()
      ensures r.ZeroDivision? <==> stats.base.q == []
      ensures r.Ok? ==> r.value.den > 0 && r.value.num >= 0
      ensures r.Ok? ==> SameValue(r.value, PopVariance(Values(stats.base.q)))
    {
      stats.Variance()
    }
  }
}
