/** The scenarios of the repository's tests, stated for every stream of one item per minute:
    item `k` is dated minute `k`. */
module Scenarios {
  import opened Window
  import opened Cascade

  predicate PerMinute(s: seq<Item>)
  {
    forall k :: 0 <= k < |s| ==> MinuteOf(s, k) == k
  }

  /** The date of item `k`. `PerMinute` is stated through it so that its quantifier is only
      instantiated where a proof asks for the date of a particular item. */
  function MinuteOf(s: seq<Item>, k: nat): int
    requires k < |s|
  {
    s[k].date
  }

  /** Index of the oldest item a queue with the given delta retains after the first `m`
      items of a per-minute stream: the newest is dated `m - 1`, so everything dated before
      `m - 1 - delta` has gone. */
  function WindowStart(m: nat, delta: nat): (r: nat)
    ensures r <= m
    ensures r == 0 || r == m - (delta + 1)
  {
    if m > delta + 1 then m - (delta + 1) else 0
  }

  lemma WindowStartMonotone(m: nat, j: nat, delta: nat)
    requires m <= j
    ensures WindowStart(m, delta) <= WindowStart(j, delta)
  {
  }

  /** On a per-minute stream, appending item `m` to items `a .. m`, where `a` is at most the
      start of the window of the first `j == m + 1` items, leaves exactly that window and
      evicts what lies before it. Both `m` and `j` are parameters so that each caller states
      the step in its own terms. */
  lemma AdmitRamp(s: seq<Item>, a: nat, m: nat, j: nat, delta: nat)
    requires PerMinute(s) && j == m + 1 && j <= |s| && a <= WindowStart(j, delta)
    ensures var b := WindowStart(j, delta);
      Admit(s[a..m], s[m], delta) == Step(s[b..j], s[a..b])
  {
    var b := WindowStart(j, delta);
    SliceJoin(s, a, b, j);
    SliceSnoc(s, a, m);
    SliceBefore(s, a, b);
    assert MinuteOf(s, m) == m && MinuteOf(s, b) == b && s[b..j][0] == s[b];
    AdmitUnique(s[a..m], s[m], delta, s[a..b], s[b..j]);
  }

  /** Feeding items `m .. j` of a per-minute stream one at a time moves the window from the
      first `m` items to the first `j`. */
  lemma AdmitAllRamp(s: seq<Item>, m: nat, j: nat, delta: nat)
    requires PerMinute(s) && m <= j <= |s|
    ensures var a, b := WindowStart(m, delta), WindowStart(j, delta);
      AdmitAll(s[a..m], s[m..j], delta) == Step(s[b..j], s[a..b])
  {
    if m == j {
      SliceEmpty(s, m);
    } else {
      WindowStartMonotone(m, j, delta);
      AdmitAllBetween(s, WindowStart(m, delta), m, j, delta);
    }
  }

  /** Feeding items `m .. j`, at least one, to items `a .. m`, where `a` is at most the start
      of the window of the first `j` items, leaves that window and evicts what lies before it. */
  lemma AdmitAllBetween(s: seq<Item>, a: nat, m: nat, j: nat, delta: nat)
    requires PerMinute(s) && a <= m < j <= |s| && a <= WindowStart(j, delta)
    ensures var b := WindowStart(j, delta);
      AdmitAll(s[a..m], s[m..j], delta) == Step(s[b..j], s[a..b])
  {
    AdmitAllSlices(s, a, m, j, delta);
    AdmitRamp(s, a, j - 1, j, delta);
  }

  /** `AdmitAllAtOnce` on slices of a per-minute stream. */
  lemma AdmitAllSlices(s: seq<Item>, a: nat, m: nat, j: nat, delta: nat)
    requires PerMinute(s) && a <= m < j <= |s|
    ensures AdmitAll(s[a..m], s[m..j], delta) == Admit(s[a..j - 1], s[j - 1], delta)
  {
    SliceSnoc(s, m, j - 1);
    SliceJoin(s, a, m, j - 1);
    SliceSnoc(s, a, j - 1);
    SliceSorted(s, a, j);
    AdmitAllAtOnceNamed(s[a..m], s[m..j - 1], s[j - 1], s[m..j], s[a..j - 1], s[a..j], delta);
  }

  /** `AdmitAllAtOnce` with the concatenations it mentions given names. */
  lemma AdmitAllAtOnceNamed(q: seq<Item>, items: seq<Item>, obj: Item, longer: seq<Item>,
                            front: seq<Item>, all: seq<Item>, delta: nat)
    requires items + [obj] == longer && q + items == front && front + [obj] == all && Sorted(all)
    ensures AdmitAll(q, longer, delta) == Admit(front, obj, delta)
  {
    AdmitAllAtOnce(q, items, obj, delta);
  }

  /** A fresh queue fed the first `m` items of a per-minute stream holds the items of the
      last `delta + 1` minutes. */
  lemma QueueRamp(s: seq<Item>, m: nat, delta: nat)
    requires PerMinute(s) && m <= |s|
    ensures AdmitAll([], s[..m], delta) == Step(s[WindowStart(m, delta)..m], s[..WindowStart(m, delta)])
  {
    AdmitAllRamp(s, 0, m, delta);
    SliceEmpty(s, 0);
  }

  /** `test_basic_behavior` with a 31-minute delta: the `i`-th append leaves `min(i + 1, 32)`
      items, the 32 most recent, and evicts one item once the queue is full. */
  lemma QueueScenario(s: seq<Item>, i: nat)
    requires PerMinute(s) && i < |s|
    ensures var r := Admit(AdmitAll([], s[..i], 31).kept, s[i], 31);
      && |r.kept| == (if i < 32 then i + 1 else 32)
      && |r.evicted| == (if i < 32 then 0 else 1)
      && r.kept == s[(if i < 32 then 0 else i - 31)..i + 1]
  {
    QueueRamp(s, i, 31);
    WindowStartMonotone(i, i + 1, 31);
    AdmitRamp(s, WindowStart(i, 31), i, i + 1, 31);
  }

  /** The clearing append of `test_basic_behavior`: an item dated 32 minutes after the last
      one evicts the whole full queue and is left alone in it. */
  lemma QueueClearing(s: seq<Item>, obj: Item)
    requires PerMinute(s) && |s| >= 32 && obj.date == |s| - 1 + 32
    ensures var full := AdmitAll([], s, 31).kept;
      var r := Admit(full, obj, 31);
      |full| == 32 && r.evicted == full && |r.evicted| == 32 && r.kept == [obj]
  {
    QueueRamp(s, |s|, 31);
    SliceAll(s);
    SliceBefore(s, |s| - 32, |s|);
    AdmitFlush(AdmitAll([], s, 31).kept, obj, 31);
  }

  /** On a per-minute stream, the buffer queue's append of item `m` moves both windows on by
      one minute, to those of the first `j == m + 1` items: the buffer passes on what leaves
      it, and the statistics window evicts what leaves its own window. */
  lemma BufferAdmitRamp(s: seq<Item>, m: nat, j: nat, bufferDelta: nat, queueDelta: nat)
    requires PerMinute(s) && j == m + 1 && j <= |s|
    ensures var a, b := WindowStart(m, bufferDelta), WindowStart(j, bufferDelta);
      BufferAdmit(s[a..m], s[WindowStart(a, queueDelta)..a], s[m], bufferDelta, queueDelta)
        == Stages(s[b..j], s[WindowStart(b, queueDelta)..b], s[WindowStart(a, queueDelta)..WindowStart(b, queueDelta)])
  {
    WindowStartMonotone(m, j, bufferDelta);
    AdmitRamp(s, WindowStart(m, bufferDelta), m, j, bufferDelta);
    AdmitAllRamp(s, WindowStart(m, bufferDelta), WindowStart(j, bufferDelta), queueDelta);
  }

  /** A fresh buffer queue fed the first `m` items of a per-minute stream: the buffer holds
      the last `bufferDelta + 1` minutes, the statistics window holds the last
      `queueDelta + 1` minutes of what has left the buffer, and the last append evicted
      what fell out of that window. */
  lemma {:induction false} BufferRunRamp(s: seq<Item>, m: nat, bufferDelta: nat, queueDelta: nat)
    requires PerMinute(s) && m <= |s|
    ensures var r, b := BufferRun(s[..m], bufferDelta, queueDelta), WindowStart(m, bufferDelta);
      && r.buffer == s[b..m]
      && r.stats == s[WindowStart(b, queueDelta)..b]
      && (m > 0 ==> r.evicted == s[WindowStart(WindowStart(m - 1, bufferDelta), queueDelta)..WindowStart(b, queueDelta)])
  {
    if m == 0 {
      SliceEmpty(s, 0);
    } else {
      SlicePrefix(s, m);
      BufferRunSnoc(s[..m], bufferDelta, queueDelta);
      BufferRunRamp(s, m - 1, bufferDelta, queueDelta);
      BufferAdmitRamp(s, m - 1, m, bufferDelta, queueDelta);
    }
  }

  /** `test_statistics_behavior` of the buffer queue, buffer delta 10 and queue delta 31:
      after the `i`-th append the buffer holds `min(i + 1, 11)` items, the statistics window
      holds nothing for the first 11 appends and `min(32, i - 10)` items after, namely the
      items `max(0, i - 42) .. i - 10`, and from index 43 on every append evicts one item. */
  lemma BufferScenario(s: seq<Item>, i: nat)
    requires PerMinute(s) && i < |s|
    ensures var r := BufferRun(s[..i + 1], 10, 31);
      && |r.buffer| == (if i < 11 then i + 1 else 11)
      && |r.stats| == (if i < 11 then 0 else if i - 10 < 32 then i - 10 else 32)
      && |r.evicted| == (if i > 42 then 1 else 0)
      && r.stats == s[(if i > 42 then i - 42 else 0)..(if i > 10 then i - 10 else 0)]
  {
    BufferRunRamp(s, i + 1, 10, 31);
  }
  // Facts about slices of a stream, kept apart from the queue reasoning.

  lemma SliceBefore(s: seq<Item>, a: nat, b: nat)
    requires PerMinute(s) && a <= b <= |s|
    ensures AllBefore(s[a..b], b)
  {
    forall k | 0 <= k < b - a
      ensures s[a..b][k].date < b
    {
      assert s[a..b][k] == s[a + k] && MinuteOf(s, a + k) == a + k;
    }
  }

  lemma {:induction false} SliceSorted(s: seq<Item>, a: nat, b: nat)
    requires PerMinute(s) && a <= b <= |s|
    ensures Sorted(s[a..b])
    decreases b - a
  {
    if b - a >= 2 {
      assert s[a..b][0] == s[a] && s[a..b][1] == s[a + 1];
      assert MinuteOf(s, a) == a && MinuteOf(s, a + 1) == a + 1;
      assert s[a..b][1..] == s[a + 1..b];
      SliceSorted(s, a + 1, b);
    }
  }

  lemma SliceEmpty(s: seq<Item>, m: nat)
    requires m <= |s|
    ensures s[m..m] == [] && s[..0] == [] && s[0..m] == s[..m]
  {
  }

  lemma SliceAll(s: seq<Item>)
    ensures s[..|s|] == s
  {
  }

  lemma SliceJoin(s: seq<Item>, a: nat, c: nat, b: nat)
    requires a <= c <= b <= |s|
    ensures s[a..c] + s[c..b] == s[a..b]
  {
  }

  lemma SliceSnoc(s: seq<Item>, a: nat, m: nat)
    requires a <= m < |s|
    ensures s[a..m] + [s[m]] == s[a..m + 1]
  {
  }

  lemma SlicePrefix(s: seq<Item>, m: nat)
    requires 0 < m <= |s|
    ensures s[..m] != [] && s[..m][..m - 1] == s[..m - 1] && s[..m][m - 1] == s[m - 1]
  {
  }
}
