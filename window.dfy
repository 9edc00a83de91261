/** The eviction rule shared by every queue of the library, stated on values.

    A queue is a sequence of items, oldest at the front. Appending `obj` pushes it at
    the back and then pops from the front while the front item is dated strictly
    before `obj.date - delta`. Dates are integers and `delta` a `nat`.
 */
module Window {

  /** An item as the queues see it: its date and the numeric attribute whose statistics are kept. */
  datatype Item = Item(date: int, x: int)

  /** The outcome of admitting items: what the queue retains and what it popped, oldest first. */
  datatype Step = Step(kept: seq<Item>, evicted: seq<Item>)

  /** Items in non-decreasing date order, oldest first. */
  predicate Sorted(s: seq<Item>)
  {
    |s| < 2 || (s[0].date <= s[1].date && Sorted(s[1..]))
  }

  /** `obj` may be appended after `s`: it is no older than the newest item of `s`. */
  predicate InOrder(s: seq<Item>, obj: Item)
  {
    s == [] || s[|s| - 1].date <= obj.date
  }

  /** No item of `s` is dated before `cutoff`. */
  predicate NoneBefore(s: seq<Item>, cutoff: int)
  {
    forall i :: 0 <= i < |s| ==> s[i].date >= cutoff
  }

  /** Every item of `s` is dated before `cutoff`. */
  predicate AllBefore(s: seq<Item>, cutoff: int)
  {
    forall i :: 0 <= i < |s| ==> s[i].date < cutoff
  }

  /** The window invariant: nothing retained is more than `delta` older than the newest item. */
  predicate Windowed(s: seq<Item>, delta: nat)
  {
    s != [] ==> NoneBefore(s, s[|s| - 1].date - delta)
  }

  /** How many items the eviction loop pops from the front of `s` for the given cutoff:
      the length of the longest prefix dated strictly before `cutoff`. */
  function LeadingOlder(s: seq<Item>, cutoff: int): (k: nat)
    ensures k <= |s|
    ensures forall i :: 0 <= i < k ==> s[i].date < cutoff
    ensures k < |s| ==> s[k].date >= cutoff
  {
    if s == [] || s[0].date >= cutoff then 0 else 1 + LeadingOlder(s[1..], cutoff)
  }

  /** One `append(obj)` on a queue holding `q`. */
  function Admit(q: seq<Item>, obj: Item, delta: nat): (r: Step)
    ensures r.evicted + r.kept == q + [obj]
    ensures AllBefore(r.evicted, obj.date - delta)
    ensures r.kept != [] && r.kept[|r.kept| - 1] == obj
    ensures r.kept[0].date >= obj.date - delta
    ensures r.evicted == [] <==> q == [] || q[0].date >= obj.date - delta
  {
    var w := q + [obj];
    var k := LeadingOlder(w, obj.date - delta);
    assert w[|w| - 1] == obj;
    assert k < |w|;
    assert w[..k] + w[k..] == w;
    Step(w[k..], w[..k])
  }

  /** `LeadingOlder` is the only split point that leaves the older items in front and an item
      no older than `cutoff` next. */
  lemma {:induction false} LeadingOlderUnique(s: seq<Item>, cutoff: int, k: nat)
    requires k <= |s|
    requires forall i :: 0 <= i < k ==> s[i].date < cutoff
    requires k < |s| ==> s[k].date >= cutoff
    ensures LeadingOlder(s, cutoff) == k
  {
    if k > 0 {
      LeadingOlderUnique(s[1..], cutoff, k - 1);
    }
  }

  /** Admission is characterised by its promises: any split of `q + [obj]` into popped items
      dated before the cutoff and a non-empty rest whose front is not is the one `Admit` makes. */
  lemma AdmitUnique(q: seq<Item>, obj: Item, delta: nat, evicted: seq<Item>, kept: seq<Item>)
    requires evicted + kept == q + [obj]
    requires AllBefore(evicted, obj.date - delta)
    requires kept != [] && kept[0].date >= obj.date - delta
    ensures Admit(q, obj, delta) == Step(kept, evicted)
  {
    var w := q + [obj];
    assert forall i :: 0 <= i < |evicted| ==> w[i] == evicted[i];
    assert w[|evicted|] == kept[0];
    LeadingOlderUnique(w, obj.date - delta, |evicted|);
    assert w[..|evicted|] == evicted;
    assert w[|evicted|..] == kept;
  }

  /** Items fed to a queue one at a time, oldest first; each append uses its own date for the
      cutoff. The evictions of the individual appends are concatenated in order. */
  function AdmitAll(q: seq<Item>, items: seq<Item>, delta: nat): (r: Step)
    ensures r.evicted + r.kept == q + items
    ensures items != [] ==> r.kept != [] && r.kept[|r.kept| - 1] == items[|items| - 1]
    ensures items == [] ==> r == Step(q, [])
    decreases |items|
  {
    if items == [] then Step(q, [])
    else
      var init, last := items[..|items| - 1], items[|items| - 1];
      var rest := AdmitAll(q, init, delta);
      var a := Admit(rest.kept, last, delta);
      SplitLast(q, items);
      AppendAssoc(rest.evicted, a.evicted, a.kept);
      AppendAssoc(rest.evicted, rest.kept, [last]);
      Step(a.kept, rest.evicted + a.evicted)
  }

  lemma {:induction false} SortedParts(a: seq<Item>, b: seq<Item>)
    requires Sorted(a + b)
    ensures Sorted(a) && Sorted(b)
  {
    if a == [] {
      assert a + b == b;
    } else {
      assert (a + b)[1..] == a[1..] + b;
      SortedParts(a[1..], b);
      if |a| >= 2 {
        assert (a + b)[1] == a[1];
      }
    }
  }

  lemma {:induction false} SortedInOrder(s: seq<Item>, obj: Item)
    requires Sorted(s + [obj])
    ensures InOrder(s, obj)
  {
    if |s| >= 2 {
      assert (s + [obj])[1..] == s[1..] + [obj];
      SortedInOrder(s[1..], obj);
    } else if |s| == 1 {
      assert (s + [obj])[1] == obj;
    }
  }

  lemma {:induction false} SortedSnoc(s: seq<Item>, obj: Item)
    requires Sorted(s) && InOrder(s, obj)
    ensures Sorted(s + [obj])
  {
    if s != [] {
      assert (s + [obj])[1..] == s[1..] + [obj];
      SortedSnoc(s[1..], obj);
      assert (s + [obj])[0] == s[0];
      if |s| >= 2 {
        assert (s + [obj])[1] == s[1];
      } else {
        assert (s + [obj])[1] == obj;
      }
    }
  }

  /** In a sorted sequence the front is the oldest item. */
  lemma {:induction false} SortedFrontOldest(s: seq<Item>)
    requires Sorted(s) && s != []
    ensures NoneBefore(s, s[0].date)
  {
    if |s| >= 2 {
      SortedFrontOldest(s[1..]);
      forall i | 1 <= i < |s|
        ensures s[i].date >= s[0].date
      {
        assert s[i] == s[1..][i - 1];
      }
    }
  }

  /** After an append in date order, the queue is still sorted and holds exactly the items
      no more than `delta` older than `obj`; the popped items are all older than that. */
  lemma AdmitWindow(q: seq<Item>, obj: Item, delta: nat)
    requires Sorted(q) && InOrder(q, obj)
    ensures var r := Admit(q, obj, delta);
      Sorted(r.kept) && NoneBefore(r.kept, obj.date - delta) && Windowed(r.kept, delta)
  {
    var r := Admit(q, obj, delta);
    SortedSnoc(q, obj);
    SortedParts(r.evicted, r.kept);
    SortedFrontOldest(r.kept);
  }

  /** The boundary is inclusive: after an append in date order, an item of the old queue or the
      new item is retained exactly when it is dated no earlier than `obj.date - delta`, so an
      item exactly `delta` older than `obj` stays. */
  lemma AdmitKeepsExactly(q: seq<Item>, obj: Item, delta: nat)
    requires Sorted(q) && InOrder(q, obj)
    ensures var r, w := Admit(q, obj, delta), q + [obj];
      forall i :: 0 <= i < |w| ==> (i >= |r.evicted| <==> w[i].date >= obj.date - delta)
  {
    var r, w := Admit(q, obj, delta), q + [obj];
    AdmitWindow(q, obj, delta);
    forall i | 0 <= i < |w|
      ensures i >= |r.evicted| <==> w[i].date >= obj.date - delta
    {
      if i < |r.evicted| {
        assert w[i] == r.evicted[i];
      } else {
        assert w[i] == r.kept[i - |r.evicted|];
      }
    }
  }

  /** Appending an item that is more than `delta` past every retained item empties the
      queue except for the new item, and only then does it evict the whole queue. */
  lemma AdmitFlush(q: seq<Item>, obj: Item, delta: nat)
    ensures Admit(q, obj, delta).evicted == q <==> AllBefore(q, obj.date - delta)
    ensures AllBefore(q, obj.date - delta) ==> Admit(q, obj, delta).kept == [obj]
  {
    var r := Admit(q, obj, delta);
    var w := q + [obj];
    if AllBefore(q, obj.date - delta) {
      var k := LeadingOlder(w, obj.date - delta);
      assert r.evicted == w[..k] == q;
    }
  }

  /** Feeding one more item appends it to what the earlier items left, and its evictions
      follow theirs. */
  lemma AdmitAllSnoc(q: seq<Item>, items: seq<Item>, obj: Item, delta: nat)
    ensures var r := AdmitAll(q, items, delta);
      var a := Admit(r.kept, obj, delta);
      AdmitAll(q, items + [obj], delta) == Step(a.kept, r.evicted + a.evicted)
  {
    var longer := items + [obj];
    assert longer[..|longer| - 1] == items && longer[|longer| - 1] == obj;
  }

  /** Feeding sorted items one at a time keeps the queue sorted and windowed relative to the
      last item fed. */
  lemma AdmitAllWindow(q: seq<Item>, items: seq<Item>, delta: nat)
    requires Sorted(q + items)
    ensures var r := AdmitAll(q, items, delta);
      Sorted(r.kept) && (items != [] ==> NoneBefore(r.kept, items[|items| - 1].date - delta))
  {
    if items == [] {
      assert q + items == q;
    } else {
      var init, last := items[..|items| - 1], items[|items| - 1];
      SortedSplitLast(q, items);
      AdmitAllLast(q, items, delta);
      AdmitAllAtOnce(q, init, last, delta);
      AdmitWindow(q + init, last, delta);
    }
  }

  /** Feeding items one at a time in date order leaves the queue as a single append of the
      last item to everything before it would: the cutoffs only move forward, so nothing an
      earlier append pops would have stayed. */
  lemma {:induction false} AdmitAllAtOnce(q: seq<Item>, items: seq<Item>, obj: Item, delta: nat)
    requires Sorted(q + items + [obj])
    ensures AdmitAll(q, items + [obj], delta) == Admit(q + items, obj, delta)
    decreases |items|
  {
    AdmitAllSnoc(q, items, obj, delta);
    if items == [] {
      assert q + items == q;
    } else {
      var init, last := items[..|items| - 1], items[|items| - 1];
      SortedDropLast(q, items, obj);
      AdmitAllAtOnce(q, init, last, delta);
      AdmitAllLast(q, items, delta);
      var r := AdmitAll(q, items, delta);
      AdmitAfterEvicting(q + items, obj, delta, r.evicted, r.kept, last.date - delta);
    }
  }

  /** Popping items older than the cutoff before an append changes nothing: the append pops
      the rest, and together they are what it would have popped from the whole queue. */
  lemma AdmitAfterEvicting(q: seq<Item>, obj: Item, delta: nat, evicted: seq<Item>, kept: seq<Item>, early: int)
    requires evicted + kept == q && AllBefore(evicted, early) && early <= obj.date - delta
    ensures var a := Admit(kept, obj, delta);
      Admit(q, obj, delta) == Step(a.kept, evicted + a.evicted)
  {
    var a := Admit(kept, obj, delta);
    AllBeforeJoin(evicted, a.evicted, early, obj.date - delta);
    AppendAssoc(evicted, a.evicted, a.kept);
    AppendAssoc(evicted, kept, [obj]);
    AdmitUnique(q, obj, delta, evicted + a.evicted, a.kept);
  }

  /** Feeding items in date order to a windowed queue leaves it windowed. */
  lemma AdmitAllWindowed(q: seq<Item>, items: seq<Item>, delta: nat)
    requires Windowed(q, delta) && Sorted(q + items)
    ensures Windowed(AdmitAll(q, items, delta).kept, delta)
  {
    if items != [] {
      AdmitAllWindow(q, items, delta);
    }
  }

  lemma SortedFront(q: seq<Item>, items: seq<Item>)
    requires Sorted(q + items) && items != []
    ensures Sorted(q) && InOrder(q, items[0])
  {
    assert q + items == (q + [items[0]]) + items[1..];
    SortedParts(q + [items[0]], items[1..]);
    SortedParts(q, [items[0]]);
    SortedInOrder(q, items[0]);
  }

  lemma SuffixAfterAdmit(q: seq<Item>, items: seq<Item>, delta: nat)
    requires Sorted(q + items) && items != []
    ensures Sorted(Admit(q, items[0], delta).kept + items[1..])
  {
    var first := Admit(q, items[0], delta);
    Reassociate(first.evicted, first.kept, q, items);
    SortedParts(first.evicted, first.kept + items[1..]);
  }

  lemma SortedSplitLast(q: seq<Item>, items: seq<Item>)
    requires items != [] && Sorted(q + items)
    ensures Sorted(q + items[..|items| - 1] + [items[|items| - 1]])
    ensures Sorted(q + items[..|items| - 1]) && InOrder(q + items[..|items| - 1], items[|items| - 1])
  {
    SplitLast(q, items);
    SortedParts(q + items[..|items| - 1], [items[|items| - 1]]);
    SortedInOrder(q + items[..|items| - 1], items[|items| - 1]);
  }

  lemma SortedDropLast(q: seq<Item>, items: seq<Item>, obj: Item)
    requires items != [] && Sorted(q + items + [obj])
    ensures Sorted(q + items[..|items| - 1] + [items[|items| - 1]])
    ensures items[|items| - 1].date <= obj.date
  {
    SortedParts(q + items, [obj]);
    SortedInOrder(q + items, obj);
    assert (q + items)[|q + items| - 1] == items[|items| - 1];
    SortedSplitLast(q, items);
  }

  lemma AdmitAllLast(q: seq<Item>, items: seq<Item>, delta: nat)
    requires items != []
    ensures AdmitAll(q, items, delta) == AdmitAll(q, items[..|items| - 1] + [items[|items| - 1]], delta)
  {
    assert items == items[..|items| - 1] + [items[|items| - 1]];
  }

  lemma AllBeforeJoin(u: seq<Item>, v: seq<Item>, early: int, cutoff: int)
    requires AllBefore(u, early) && early <= cutoff && AllBefore(v, cutoff)
    ensures AllBefore(u + v, cutoff)
  {
    assert forall i :: 0 <= i < |u| ==> (u + v)[i] == u[i];
    assert forall i :: |u| <= i < |u + v| ==> (u + v)[i] == v[i - |u|];
  }

  lemma SplitLast(q: seq<Item>, items: seq<Item>)
    requires items != []
    ensures q + items == (q + items[..|items| - 1]) + [items[|items| - 1]]
  {
    assert items == items[..|items| - 1] + [items[|items| - 1]];
  }

  lemma PrefixSnoc(s: seq<Item>, i: nat)
    requires i < |s|
    ensures s[..i + 1] == s[..i] + [s[i]]
  {
  }

  lemma AppendAssoc(a: seq<Item>, b: seq<Item>, c: seq<Item>)
    ensures (a + b) + c == a + (b + c)
  {
  }

  lemma Reassociate(e: seq<Item>, k: seq<Item>, q: seq<Item>, items: seq<Item>)
    requires items != [] && e + k == q + [items[0]]
    ensures e + (k + items[1..]) == q + items
  {
    calc {
      e + (k + items[1..]);
      (e + k) + items[1..];
      (q + [items[0]]) + items[1..];
      q + ([items[0]] + items[1..]);
      { assert [items[0]] + items[1..] == items; }
      q + items;
    }
  }
}
