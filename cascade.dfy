/** The two-stage buffer queue stated on values: a short buffer window whose evictions are
    replayed, one at a time and oldest first, into a statistics window. */
module Cascade {
  import opened Window

  /** The buffer and the statistics window after an append, and what that append evicted
      from the statistics window. */
  datatype Stages = Stages(buffer: seq<Item>, stats: seq<Item>, evicted: seq<Item>)

  /** One `append(obj)` of the buffer queue. */
  function BufferAdmit(buffer: seq<Item>, stats: seq<Item>, obj: Item, bufferDelta: nat, queueDelta: nat): (r: Stages)
    ensures r.evicted + r.stats + r.buffer == stats + buffer + [obj]
    ensures r.buffer != [] && r.buffer[|r.buffer| - 1] == obj
    ensures Admit(buffer, obj, bufferDelta).evicted == [] ==> r.evicted == [] && r.stats == stats
  {
    var b := Admit(buffer, obj, bufferDelta);
    var s := AdmitAll(stats, b.evicted, queueDelta);
    AppendAssoc(stats, b.evicted, b.kept);
    AppendAssoc(stats, buffer, [obj]);
    Stages(b.kept, s.kept, s.evicted)
  }

  /** What a fresh buffer queue holds after the given appends, and what the last one evicted. */
  function BufferRun(items: seq<Item>, bufferDelta: nat, queueDelta: nat): (r: Stages)
    ensures items != [] ==> r.buffer != [] && r.buffer[|r.buffer| - 1] == items[|items| - 1]
    ensures items == [] ==> r == Stages([], [], [])
  {
    if items == [] then Stages([], [], [])
    else
      var p := BufferRun(items[..|items| - 1], bufferDelta, queueDelta);
      BufferAdmit(p.buffer, p.stats, items[|items| - 1], bufferDelta, queueDelta)
  }

  /** `BufferRun` of a non-empty sequence of appends is one `BufferAdmit` after the rest. */
  lemma BufferRunSnoc(items: seq<Item>, bufferDelta: nat, queueDelta: nat)
    requires items != []
    ensures var p := BufferRun(items[..|items| - 1], bufferDelta, queueDelta);
      BufferRun(items, bufferDelta, queueDelta) == BufferAdmit(p.buffer, p.stats, items[|items| - 1], bufferDelta, queueDelta)
  {
  }

  /** What the two stages maintain between appends: everything is in date order with the
      statistics window holding the older items; each stage is windowed by its own delta; and
      every item in the statistics window is more than `bufferDelta` older than the newest
      item admitted, so that it has aged out of the buffer. */
  predicate Invariant(buffer: seq<Item>, stats: seq<Item>, bufferDelta: nat, queueDelta: nat)
  {
    && Sorted(stats + buffer)
    && (buffer == [] ==> stats == [])
    && Windowed(buffer, bufferDelta)
    && Windowed(stats, queueDelta)
    && (buffer != [] ==> AllBefore(stats, buffer[|buffer| - 1].date - bufferDelta))
  }

  /** Every append in date order preserves the invariant. */
  lemma BufferAdmitInvariant(buffer: seq<Item>, stats: seq<Item>, obj: Item, bufferDelta: nat, queueDelta: nat)
    requires Invariant(buffer, stats, bufferDelta, queueDelta) && InOrder(buffer, obj)
    ensures var r := BufferAdmit(buffer, stats, obj, bufferDelta, queueDelta);
      Invariant(r.buffer, r.stats, bufferDelta, queueDelta)
  {
    HistoryExtends(stats, buffer, obj);
    SortedParts(stats, buffer);
    KeptSorted(buffer, stats, obj, bufferDelta, queueDelta);
    FedSorted(buffer, stats, obj, bufferDelta, queueDelta);
    AdmitWindow(buffer, obj, bufferDelta);
    StatsWindowed(buffer, stats, obj, bufferDelta, queueDelta);
    DelayKept(buffer, stats, obj, bufferDelta, queueDelta);
  }

  /** Appending in date order extends the sorted history of both stages. */
  lemma HistoryExtends(stats: seq<Item>, buffer: seq<Item>, obj: Item)
    requires Sorted(stats + buffer) && (buffer == [] ==> stats == []) && InOrder(buffer, obj)
    ensures Sorted(stats + buffer + [obj])
  {
    assert InOrder(stats + buffer, obj) by {
      if buffer != [] {
        assert (stats + buffer)[|stats + buffer| - 1] == buffer[|buffer| - 1];
      }
    }
    SortedSnoc(stats + buffer, obj);
  }

  /** What the two stages hold after an append is a suffix of the sorted history. */
  lemma KeptSorted(buffer: seq<Item>, stats: seq<Item>, obj: Item, bufferDelta: nat, queueDelta: nat)
    requires Sorted(stats + buffer + [obj])
    ensures var r := BufferAdmit(buffer, stats, obj, bufferDelta, queueDelta);
      Sorted(r.stats + r.buffer)
  {
    var r := BufferAdmit(buffer, stats, obj, bufferDelta, queueDelta);
    AppendAssoc(r.evicted, r.stats, r.buffer);
    SortedParts(r.evicted, r.stats + r.buffer);
  }

  /** The statistics window followed by what the buffer evicts is a prefix of the sorted
      history. */
  lemma FedSorted(buffer: seq<Item>, stats: seq<Item>, obj: Item, bufferDelta: nat, queueDelta: nat)
    requires Sorted(stats + buffer + [obj])
    ensures Sorted(stats + Admit(buffer, obj, bufferDelta).evicted)
  {
    var b := Admit(buffer, obj, bufferDelta);
    assert (stats + b.evicted) + b.kept == stats + buffer + [obj];
    SortedParts(stats + b.evicted, b.kept);
  }

  /** The statistics window stays windowed: either nothing reached it, or it was fed in order. */
  lemma StatsWindowed(buffer: seq<Item>, stats: seq<Item>, obj: Item, bufferDelta: nat, queueDelta: nat)
    requires Windowed(stats, queueDelta)
    requires Sorted(stats + Admit(buffer, obj, bufferDelta).evicted)
    ensures Windowed(BufferAdmit(buffer, stats, obj, bufferDelta, queueDelta).stats, queueDelta)
  {
    AdmitAllWindowed(stats, Admit(buffer, obj, bufferDelta).evicted, queueDelta);
  }

  /** One step of replaying the buffer's evictions into the statistics window: the next item
      may be appended in date order, the rest stays sorted behind it, and the replay so far
      extends by that one append. */
  lemma FeedStep(stats0: seq<Item>, fed: seq<Item>, i: nat, stats: seq<Item>, evicted: seq<Item>, queueDelta: nat)
    requires i < |fed|
    requires Step(stats, evicted) == AdmitAll(stats0, fed[..i], queueDelta)
    requires Sorted(stats + fed[i..])
    ensures InOrder(stats, fed[i])
    ensures var a := Admit(stats, fed[i], queueDelta);
      && Sorted(a.kept + fed[i + 1..])
      && AdmitAll(stats0, fed[..i + 1], queueDelta) == Step(a.kept, evicted + a.evicted)
  {
    FeedOrder(stats, fed, i, queueDelta);
    FeedExtends(stats0, fed, i, queueDelta);
  }

  lemma FeedOrder(stats: seq<Item>, fed: seq<Item>, i: nat, queueDelta: nat)
    requires i < |fed| && Sorted(stats + fed[i..])
    ensures InOrder(stats, fed[i])
    ensures Sorted(Admit(stats, fed[i], queueDelta).kept + fed[i + 1..])
  {
    var rest := fed[i..];
    SortedFront(stats, rest);
    SuffixAfterAdmit(stats, rest, queueDelta);
    assert rest[1..] == fed[i + 1..];
  }

  lemma FeedExtends(stats0: seq<Item>, fed: seq<Item>, i: nat, queueDelta: nat)
    requires i < |fed|
    ensures var r := AdmitAll(stats0, fed[..i], queueDelta);
      var a := Admit(r.kept, fed[i], queueDelta);
      AdmitAll(stats0, fed[..i + 1], queueDelta) == Step(a.kept, r.evicted + a.evicted)
  {
    PrefixSnoc(fed, i);
    AdmitAllSnoc(stats0, fed[..i], fed[i], queueDelta);
  }

  /** Whatever the statistics window holds after an append is more than `bufferDelta` older
      than the appended item. */
  lemma DelayKept(buffer: seq<Item>, stats: seq<Item>, obj: Item, bufferDelta: nat, queueDelta: nat)
    requires buffer != [] ==> AllBefore(stats, buffer[|buffer| - 1].date - bufferDelta)
    requires buffer == [] ==> stats == []
    requires InOrder(buffer, obj)
    ensures var r := BufferAdmit(buffer, stats, obj, bufferDelta, queueDelta);
      AllBefore(r.stats, obj.date - bufferDelta)
  {
    var b := Admit(buffer, obj, bufferDelta);
    var s := AdmitAll(stats, b.evicted, queueDelta);
    var cutoff := obj.date - bufferDelta;
    assert AllBefore(stats + b.evicted, cutoff) by {
      forall i | 0 <= i < |stats + b.evicted|
        ensures (stats + b.evicted)[i].date < cutoff
      {
        if i < |stats| {
          assert (stats + b.evicted)[i] == stats[i];
        } else {
          assert (stats + b.evicted)[i] == b.evicted[i - |stats|];
        }
      }
    }
    AllBeforeSuffix(s.evicted, s.kept, cutoff);
  }

  lemma AllBeforeSuffix(a: seq<Item>, b: seq<Item>, cutoff: int)
    requires AllBefore(a + b, cutoff)
    ensures AllBefore(b, cutoff)
  {
    assert forall i :: 0 <= i < |b| ==> b[i] == (a + b)[|a| + i];
  }

  /** Any sequence of appends in date order, starting from a fresh queue, keeps the invariant. */
  lemma {:induction false} BufferRunInvariant(items: seq<Item>, bufferDelta: nat, queueDelta: nat)
    requires Sorted(items)
    ensures var r := BufferRun(items, bufferDelta, queueDelta);
      Invariant(r.buffer, r.stats, bufferDelta, queueDelta)
  {
    if items != [] {
      var prefix, last := items[..|items| - 1], items[|items| - 1];
      assert items == prefix + [last];
      SortedParts(prefix, [last]);
      SortedInOrder(prefix, last);
      BufferRunInvariant(prefix, bufferDelta, queueDelta);
      var p := BufferRun(prefix, bufferDelta, queueDelta);
      assert InOrder(p.buffer, last) by {
        if prefix != [] {
          assert p.buffer[|p.buffer| - 1] == prefix[|prefix| - 1];
        }
      }
      BufferAdmitInvariant(p.buffer, p.stats, last, bufferDelta, queueDelta);
    }
  }
}
