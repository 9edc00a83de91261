/** Reference definitions of the window statistics over the tracked attribute: count, sum and
    sum of squares, and the mean and population variance as exact fractions. */
module Stats {
  import opened Window

  /** An exact quotient `num / den`; the library computes it in floating point. */
  datatype Ratio = Ratio(num: int, den: int)

  /** Two fractions with positive denominators denote the same number. */
  predicate SameValue(a: Ratio, b: Ratio)
  {
    a.num * b.den == b.num * a.den
  }

  /** The tracked attribute of each item, in queue order. */
  function Values(s: seq<Item>): (v: seq<int>)
    ensures |v| == |s|
    ensures forall i :: 0 <= i < |s| ==> v[i] == s[i].x
  {
    seq(|s|, i requires 0 <= i < |s| => s[i].x)
  }

  function Sum(v: seq<int>): int
  {
    if v == [] then 0 else v[0] + Sum(v[1..])
  }

  function SumSq(v: seq<int>): int
  {
    if v == [] then 0 else v[0] * v[0] + SumSq(v[1..])
  }

  /** Sum of `a * x - b` over the values `x`: the deviations from `b / a`, scaled by `a`. */
  function ScaledDeviation(v: seq<int>, a: int, b: int): int
  {
    if v == [] then 0 else (a * v[0] - b) + ScaledDeviation(v[1..], a, b)
  }

  /** Sum of `(a * x - b)^2` over the values `x`: the squared deviations from `b / a`, scaled by `a^2`. */
  function ScaledSqDeviation(v: seq<int>, a: int, b: int): int
  {
    if v == [] then 0 else (a * v[0] - b) * (a * v[0] - b) + ScaledSqDeviation(v[1..], a, b)
  }

  /** `m` is the arithmetic mean of the non-empty window `v`: the deviations of the values
      from `m` cancel out. */
  predicate IsMeanOf(v: seq<int>, m: Ratio)
  {
    v != [] && m.den > 0 && ScaledDeviation(v, m.den, m.num) == 0
  }

  /** Population variance (divisor n) of a non-empty window: the mean of the squared
      deviations from the mean `S / n`, which is `sum (n x - S)^2 / n^3`. `numpy.std`
      returns its square root. */
  function PopVariance(v: seq<int>): Ratio
    requires v != []
  {
    Ratio(ScaledSqDeviation(v, |v|, Sum(v)), |v| * |v| * |v|)
  }

  /** Sums split over concatenation, which is what lets the queue add on admission and
      subtract on eviction instead of rescanning. */
  lemma {:induction false} SumsConcat(a: seq<int>, b: seq<int>)
    ensures Sum(a + b) == Sum(a) + Sum(b)
    ensures SumSq(a + b) == SumSq(a) + SumSq(b)
  {
    if a == [] {
      assert a + b == b;
    } else {
      assert (a + b)[1..] == a[1..] + b;
      SumsConcat(a[1..], b);
    }
  }

  lemma ValuesConcat(a: seq<Item>, b: seq<Item>)
    ensures Values(a + b) == Values(a) + Values(b)
  {
  }

  /** Adding one item to a window adds its value to the sum and its square to the sum of squares. */
  lemma SumsSnoc(s: seq<Item>, e: Item)
    ensures Sum(Values(s + [e])) == Sum(Values(s)) + e.x
    ensures SumSq(Values(s + [e])) == SumSq(Values(s)) + e.x * e.x
  {
    ValuesConcat(s, [e]);
    SumsConcat(Values(s), Values([e]));
  }

  /** Extending a prefix of `s` by one item adds that item's value and its square. */
  lemma SumsPrefix(s: seq<Item>, i: nat)
    requires i < |s|
    ensures Sum(Values(s[..i + 1])) == Sum(Values(s[..i])) + s[i].x
    ensures SumSq(Values(s[..i + 1])) == SumSq(Values(s[..i])) + s[i].x * s[i].x
  {
    assert s[..i + 1] == s[..i] + [s[i]];
    SumsSnoc(s[..i], s[i]);
  }

  /** When an append splits `q + [obj]` into evicted and kept items, the totals of the kept
      items are the old totals plus the new value minus the evicted values. */
  lemma SumsAfterEviction(q: seq<Item>, obj: Item, evicted: seq<Item>, kept: seq<Item>)
    requires evicted + kept == q + [obj]
    ensures Sum(Values(kept)) == Sum(Values(q)) + obj.x - Sum(Values(evicted))
    ensures SumSq(Values(kept)) == SumSq(Values(q)) + obj.x * obj.x - SumSq(Values(evicted))
  {
    SumsSnoc(q, obj);
    ValuesConcat(evicted, kept);
    SumsConcat(Values(evicted), Values(kept));
  }

  /** The scaled deviations add up to `a S - n b`. */
  lemma {:induction false} ScaledDeviationSum(v: seq<int>, a: int, b: int)
    ensures ScaledDeviation(v, a, b) == a * Sum(v) - |v| * b
  {
    if v != [] {
      ScaledDeviationSum(v[1..], a, b);
      Distribute(a, v[0], Sum(v[1..]));
      Distribute(b, 1, |v| - 1);
    }
  }

  /** `S / n` is the mean of every non-empty window. */
  lemma {:induction false} MeanCentres(v: seq<int>)
    requires v != []
    ensures IsMeanOf(v, Ratio(Sum(v), |v|))
  {
    ScaledDeviationSum(v, |v|, Sum(v));
    assert |v| * Sum(v) == Sum(v) * |v|;
  }

  /** The mean is unique: any two fractions that are means of the same window are equal
      as numbers. */
  lemma {:induction false} MeanUnique(v: seq<int>, m: Ratio, m': Ratio)
    requires IsMeanOf(v, m) && IsMeanOf(v, m')
    ensures SameValue(m, m')
  {
    ScaledDeviationSum(v, m.den, m.num);
    ScaledDeviationSum(v, m'.den, m'.num);
    CrossMultiply(m.den, m.num, m'.den, m'.num, Sum(v), |v|);
  }

  /** Expanding the square: `sum (a x - b)^2 == a^2 SS - 2 a b S + n b^2`. */
  lemma {:induction false} ScaledSqDeviationExpand(v: seq<int>, a: int, b: int)
    ensures ScaledSqDeviation(v, a, b) == a * a * SumSq(v) - 2 * a * b * Sum(v) + |v| * b * b
  {
    if v != [] {
      ScaledSqDeviationExpand(v[1..], a, b);
      SquareExpand(a, v[0], b);
      Distribute(a * a, v[0] * v[0], SumSq(v[1..]));
      Distribute(2 * a * b, v[0], Sum(v[1..]));
      Distribute(b * b, 1, |v| - 1);
      assert |v| * b * b == b * b * |v|;
      assert (|v| - 1) * b * b == b * b * (|v| - 1);
    }
  }

  /** A sum of squares is never negative. */
  lemma {:induction false} ScaledSqDeviationNonNegative(v: seq<int>, a: int, b: int)
    ensures ScaledSqDeviation(v, a, b) >= 0
  {
    if v != [] {
      ScaledSqDeviationNonNegative(v[1..], a, b);
      SquareNonNegative(a * v[0] - b);
    }
  }

  /** The one-pass formula `SS/n - (S/n)^2`, written over the common denominator `n^2`, is
      exactly the population variance, and so it is never negative in exact arithmetic. */
  lemma {:induction false} ShortcutVariance(v: seq<int>)
    requires v != []
    ensures var n, s := |v|, Sum(v);
      SameValue(Ratio(n * SumSq(v) - s * s, n * n), PopVariance(v))
    ensures |v| * SumSq(v) - Sum(v) * Sum(v) >= 0
  {
    var n, s, ss := |v|, Sum(v), SumSq(v);
    var sq := ScaledSqDeviation(v, n, s);
    ScaledSqDeviationExpand(v, n, s);
    ScaledSqDeviationNonNegative(v, n, s);
    ShortcutAlgebra(n, s, ss, sq);
  }

  // Arithmetic facts on plain integers, kept apart from the sequence reasoning.

  lemma Distribute(k: int, p: int, q: int)
    ensures k * (p + q) == k * p + k * q
  {
  }

  lemma SquareExpand(a: int, x: int, b: int)
    ensures (a * x - b) * (a * x - b) == a * a * (x * x) - 2 * a * b * x + b * b
  {
  }

  lemma SquareNonNegative(d: int)
    ensures d * d >= 0
  {
  }

  lemma CrossMultiply(d: int, u: int, d': int, u': int, s: int, n: int)
    requires n > 0 && d > 0 && d' > 0
    requires d * s - n * u == 0 && d' * s - n * u' == 0
    ensures u * d' == u' * d
  {
    assert n * u * d' == d * s * d';
    assert n * u' * d == d' * s * d;
    assert n * (u * d') == n * (u' * d);
  }

  lemma ShortcutAlgebra(n: int, s: int, ss: int, sq: int)
    requires n > 0 && sq >= 0
    requires sq == n * n * ss - 2 * n * s * s + n * s * s
    ensures (n * ss - s * s) * (n * n * n) == sq * (n * n)
    ensures n * ss - s * s >= 0
  {
    assert sq == n * (n * ss - s * s);
    assert (n * ss - s * s) * (n * n * n) == n * (n * ss - s * s) * (n * n);
  }
}
