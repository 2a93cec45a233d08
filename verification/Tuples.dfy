/**
 * Aggregated data points (src/rrdb/rrdb_metric_tuple.h, rrdb_metric_tuple.cpp).
 * Values are real numbers: floating-point rounding is not modelled.
 */
module Tuples {

  /** The aggregate part of t_rrdb_metric_tuple. */
  datatype Stats = Stats(count: real, sum: real, sumSqr: real, min: real, max: real)

  datatype Tuple = Tuple(ts: int, stats: Stats)

  const ZERO := Stats(0.0, 0.0, 0.0, 0.0, 0.0)

  /** What memset leaves in a slot of the ring. */
  const ZERO_TUPLE := Tuple(0, ZERO)

  /** rrdb_metric_tuple_update(tuple, value) */
  function AddValue(t: Stats, value: real): Stats {
    Stats(
      t.count + 1.0,
      t.sum + value,
      t.sumSqr + value * value,
      if t.min > value || t.count == 0.0 then value else t.min,
      if t.max < value || t.count == 0.0 then value else t.max)
  }

  /** rrdb_metric_tuple_update(tuple, other) */
  function Merge(t: Stats, other: Stats): Stats {
    Stats(
      t.count + other.count,
      t.sum + other.sum,
      t.sumSqr + other.sumSqr,
      if t.min > other.min || t.count == 0.0 then other.min else t.min,
      if t.max < other.max || t.count == 0.0 then other.max else t.max)
  }

  /** rrdb_metric_tuple_update(tuple, other, factor) */
  function MergeScaled(t: Stats, other: Stats, factor: real): Stats {
    Stats(
      t.count + factor * other.count,
      t.sum + factor * other.sum,
      t.sumSqr + factor * other.sumSqr,
      if t.min > other.min || t.count == 0.0 then other.min else t.min,
      if t.max < other.max || t.count == 0.0 then other.max else t.max)
  }

  /** The aggregate of one data point. */
  function Single(value: real): Stats {
    Stats(1.0, value, value * value, value, value)
  }

  // ---------- The exact summary of a list of values

  function Sum(values: seq<real>): real {
    if values == [] then 0.0 else Sum(values[..|values| - 1]) + values[|values| - 1]
  }

  function SumSqr(values: seq<real>): real {
    if values == [] then 0.0
    else SumSqr(values[..|values| - 1]) + values[|values| - 1] * values[|values| - 1]
  }

  ghost predicate IsMin(values: seq<real>, m: real) {
    m in values && forall v :: v in values ==> m <= v
  }

  ghost predicate IsMax(values: seq<real>, m: real) {
    m in values && forall v :: v in values ==> v <= m
  }

  /** The five fields are those of the values; an empty slot is all zeros. */
  ghost predicate Summarizes(t: Stats, values: seq<real>) {
    && t.count == |values| as real
    && t.sum == Sum(values)
    && t.sumSqr == SumSqr(values)
    && if values == [] then t.min == 0.0 && t.max == 0.0
       else IsMin(values, t.min) && IsMax(values, t.max)
  }

  lemma {:induction false} SumAppend(a: seq<real>, b: seq<real>)
    ensures Sum(a + b) == Sum(a) + Sum(b)
    ensures SumSqr(a + b) == SumSqr(a) + SumSqr(b)
  {
    if b == [] {
      assert a + b == a;
    } else {
      var c := b[..|b| - 1];
      SumAppend(a, c);
      assert (a + b)[..|a + b| - 1] == a + c;
    }
  }

  /** The first sighting of a value is the summary of that value. */
  lemma {:induction false} SingleSummarizes(value: real)
    ensures Summarizes(Single(value), [value])
    ensures forall t :: AddValue(t, value) == Merge(t, Single(value))
  {
    assert [value][..0] == [];
    assert Sum([value]) == Sum([]) + value;
    assert SumSqr([value]) == SumSqr([]) + value * value;
    assert value in [value];
  }

  /** Count, sum and sum of squares add up. */
  lemma {:induction false} MergeMoments(t: Stats, a: seq<real>, other: Stats, b: seq<real>)
    requires t.count == |a| as real && t.sum == Sum(a) && t.sumSqr == SumSqr(a)
    requires other.count == |b| as real && other.sum == Sum(b) && other.sumSqr == SumSqr(b)
    ensures Merge(t, other).count == |a + b| as real
    ensures Merge(t, other).sum == Sum(a + b) && Merge(t, other).sumSqr == SumSqr(a + b)
  {
    SumAppend(a, b);
  }

  /** Merging summaries is exact unless an empty summary is merged into a non-empty one. */
  lemma {:induction false} MergeSummarizes(t: Stats, a: seq<real>, other: Stats, b: seq<real>)
    requires Summarizes(t, a) && Summarizes(other, b)
    requires b != [] || a == []
    ensures Summarizes(Merge(t, other), a + b)
  {
    MergeMoments(t, a, other, b);
    if a == [] {
      assert a + b == b;
    } else {
      MergeExtremes(t, a, other, b);
    }
  }

  lemma {:induction false} MergeExtremes(t: Stats, a: seq<real>, other: Stats, b: seq<real>)
    requires a != [] && b != [] && t.count > 0.0
    requires IsMin(a, t.min) && IsMin(b, other.min) && IsMax(a, t.max) && IsMax(b, other.max)
    ensures IsMin(a + b, Merge(t, other).min) && IsMax(a + b, Merge(t, other).max)
  {
    assert forall v :: v in a + b <==> v in a || v in b;
  }

  /**
   * Merging an empty aggregate into a non-empty one keeps the exact minimum and maximum
   * if and only if zero already lies between them.
   */
  lemma {:induction false} MergeEmptyExact(t: Stats, a: seq<real>)
    requires Summarizes(t, a) && a != []
    ensures Summarizes(Merge(t, ZERO), a) <==> t.min <= 0.0 <= t.max
  {
    var m := Merge(t, ZERO);
    assert t.min in a && t.max in a;
    assert t.min > 0.0 ==> m.min == 0.0 && 0.0 !in a;
    assert t.max < 0.0 ==> m.max == 0.0 && 0.0 !in a;
  }

  // ---------- Variance

  /** The sum of the squared distances from x of the data points behind the aggregate. */
  function Spread(t: Stats, x: real): real {
    t.sumSqr - 2.0 * x * t.sum + t.count * x * x
  }

  /** The aggregate has the moments of some weighted data points. */
  ghost predicate Plausible(t: Stats) {
    && 0.0 <= t.count
    && (t.count == 0.0 ==> t.sum == 0.0 && t.sumSqr == 0.0)
    && (forall x :: 0.0 <= Spread(t, x))
    && t.count * t.min <= t.sum <= t.count * t.max
  }

  lemma {:induction false} ScaledSpread(t: Stats, other: Stats, f: real, x: real)
    ensures Spread(MergeScaled(t, other, f), x) == Spread(t, x) + f * Spread(other, x)
  {
    var m := MergeScaled(t, other, f);
    var c, s, q := other.count, other.sum, other.sumSqr;
    assert 2.0 * x * (f * s) == f * (2.0 * x * s);
    assert (f * c) * x * x == f * (c * x * x);
    assert f * (q - 2.0 * x * s + c * x * x) == f * q - f * (2.0 * x * s) + f * (c * x * x);
    assert 2.0 * x * (t.sum + f * s) == 2.0 * x * t.sum + 2.0 * x * (f * s);
    assert (t.count + f * c) * x * x == t.count * x * x + (f * c) * x * x;
  }

  /** If m is below the lower bounds of two groups, it is a lower bound of their union. */
  lemma {:induction false} WeightedBound(c1: real, s1: real, m1: real, c2: real, s2: real, m2: real, m: real)
    requires 0.0 <= c1 && 0.0 <= c2 && c1 * m1 <= s1 && c2 * m2 <= s2
    requires (c1 == 0.0 || m <= m1) && m <= m2
    ensures (c1 + c2) * m <= s1 + s2
  {
    assert c1 * m <= c1 * m1 by { if c1 > 0.0 { assert 0.0 <= c1 * (m1 - m); } }
    assert c2 * m <= c2 * m2 by { assert 0.0 <= c2 * (m2 - m); }
  }

  lemma {:induction false} ScaleBound(f: real, c: real, m: real, s: real)
    requires 0.0 <= f && c * m <= s && 0.0 <= c
    ensures (f * c) * m <= f * s && 0.0 <= f * c
  {
    assert f * (c * m) == (f * c) * m;
    assert 0.0 <= f * (s - c * m);
  }

  lemma {:induction false} ScaledLowerBound(t: Stats, other: Stats, f: real)
    requires 0.0 <= t.count && t.count * t.min <= t.sum
    requires 0.0 <= other.count && other.count * other.min <= other.sum && 0.0 <= f
    requires t.count == 0.0 ==> t.sum == 0.0
    ensures var m := MergeScaled(t, other, f); m.count * m.min <= m.sum
  {
    var m := MergeScaled(t, other, f);
    ScaleBound(f, other.count, other.min, other.sum);
    WeightedBound(t.count, t.sum, t.min, f * other.count, f * other.sum, other.min, m.min);
  }

  function Negated(t: Stats): Stats {
    Stats(t.count, -t.sum, t.sumSqr, -t.max, -t.min)
  }

  lemma {:induction false} ScaledUpperBound(t: Stats, other: Stats, f: real)
    requires 0.0 <= t.count && t.sum <= t.count * t.max
    requires 0.0 <= other.count && other.sum <= other.count * other.max && 0.0 <= f
    requires t.count == 0.0 ==> t.sum == 0.0
    ensures var m := MergeScaled(t, other, f); m.sum <= m.count * m.max
  {
    ScaledLowerBound(Negated(t), Negated(other), f);
    assert MergeScaled(Negated(t), Negated(other), f).sum == -MergeScaled(t, other, f).sum;
    assert MergeScaled(Negated(t), Negated(other), f).min == -MergeScaled(t, other, f).max;
  }

  /** Every merge the engine performs, whole or scaled, keeps the aggregate plausible. */
  lemma {:induction false} MergeScaledPlausible(t: Stats, other: Stats, f: real)
    requires Plausible(t) && Plausible(other) && 0.0 <= f
    ensures Plausible(MergeScaled(t, other, f))
  {
    var m := MergeScaled(t, other, f);
    ScaledLowerBound(t, other, f);
    ScaledUpperBound(t, other, f);
    forall x
      ensures 0.0 <= Spread(m, x)
    {
      ScaledSpread(t, other, f, x);
      assert 0.0 <= Spread(t, x) && 0.0 <= Spread(other, x);
      assert 0.0 <= f * Spread(other, x);
    }
    assert 0.0 <= f * other.count;
    if m.count == 0.0 && f > 0.0 {
      assert f * other.count == 0.0;
      assert other.count == 0.0;
    }
  }

  lemma {:induction false} MergeIsScaledByOne(t: Stats, other: Stats)
    ensures MergeScaled(t, other, 1.0) == Merge(t, other)
  {
  }

  lemma {:induction false} ZeroAndSinglePlausible(value: real)
    ensures Plausible(ZERO) && Plausible(Single(value))
  {
    forall x
      ensures 0.0 <= Spread(ZERO, x) && 0.0 <= Spread(Single(value), x)
    {
      assert Spread(Single(value), x) == (value - x) * (value - x);
    }
  }

  /** What the avg and stddev writers compute. */
  function Average(t: Stats): real {
    if t.count > 0.0 then t.sum / t.count else 0.0
  }

  /** The argument of sqrt in the stddev writers. */
  function Variance(t: Stats): real {
    if t.count > 0.0 then t.sumSqr / t.count - Average(t) * Average(t) else 0.0
  }

  /** The argument of sqrt is never negative, and the average lies between min and max. */
  lemma {:induction false} VarianceNonNegative(t: Stats)
    requires Plausible(t)
    ensures 0.0 <= Variance(t)
    ensures t.sum * t.sum <= t.count * t.sumSqr
    ensures t.count > 0.0 ==> t.min <= Average(t) <= t.max
  {
    if t.count > 0.0 {
      var a := Average(t);
      assert a * t.count == t.sum;
      assert 0.0 <= Spread(t, a);
      SpreadAtAverage(t, a);
      DivideBy(t.min, t.sum, t.count);
      DivideBy(-t.max, -t.sum, t.count);
    }
  }

  lemma {:induction false} SpreadAtAverage(t: Stats, a: real)
    requires t.count > 0.0 && a * t.count == t.sum
    ensures Spread(t, a) == t.count * (t.sumSqr / t.count - a * a)
    ensures t.count * Spread(t, a) == t.count * t.sumSqr - t.sum * t.sum
    ensures 0.0 <= Spread(t, a) ==> 0.0 <= t.sumSqr / t.count - a * a
    ensures 0.0 <= Spread(t, a) ==> t.sum * t.sum <= t.count * t.sumSqr
  {
    var c, s, q := t.count, t.sum, t.sumSqr;
    var v := q / c - a * a;
    assert a * s == c * a * a;
    assert 2.0 * a * s == 2.0 * (a * s);
    assert Spread(t, a) == q - c * a * a;
    assert c * (q / c) == q;
    assert c * v == c * (q / c) - c * (a * a);
    assert c * Spread(t, a) == c * q - c * (c * a * a);
    assert c * (c * a * a) == (a * c) * (a * c);
    if 0.0 <= Spread(t, a) {
      assert 0.0 <= c * v;
      assert 0.0 <= c * Spread(t, a);
    }
  }

  lemma {:induction false} DivideBy(m: real, s: real, c: real)
    requires 0.0 < c && c * m <= s
    ensures m <= s / c
  {
    var d := s / c;
    assert c * d == s;
    if d < m { assert c * d < c * m; }
  }

  // ---------- What the writers compute of exact aggregates

  /** The sum of the squared distances of the values from x. */
  function SquaredDistances(values: seq<real>, x: real): real {
    if values == [] then 0.0
    else SquaredDistances(values[..|values| - 1], x) + (values[|values| - 1] - x) * (values[|values| - 1] - x)
  }

  function StatsOf(values: seq<real>): Stats {
    Stats(|values| as real, Sum(values), SumSqr(values), 0.0, 0.0)
  }

  lemma {:induction false} OneMoreSpread(u: Stats, t: Stats, v: real, x: real)
    requires t.count == u.count + 1.0 && t.sum == u.sum + v && t.sumSqr == u.sumSqr + v * v
    ensures Spread(t, x) == Spread(u, x) + (v - x) * (v - x)
    ensures Spread(u, x) <= Spread(t, x)
  {
    var c, s, q, d := u.count, u.sum, u.sumSqr, v - x;
    assert (c + 1.0) * x * x == c * x * x + x * x;
    assert 2.0 * x * (s + v) == 2.0 * x * s + 2.0 * x * v;
    assert d * d == v * v - 2.0 * x * v + x * x;
    assert Spread(t, x) == (q + v * v) - 2.0 * x * (s + v) + (c + 1.0) * x * x;
    assert 0.0 <= d * d;
  }

  lemma {:induction false} DistancesAreSpread(values: seq<real>, x: real)
    ensures SquaredDistances(values, x) == Spread(StatsOf(values), x)
  {
    if values == [] {
      NoSpread(x);
    } else {
      DistancesAreSpread(values[..|values| - 1], x);
      DistanceNext(values, x);
    }
  }

  lemma {:induction false} DistanceNext(values: seq<real>, x: real)
    requires values != [] && SquaredDistances(values[..|values| - 1], x) == Spread(StatsOf(values[..|values| - 1]), x)
    ensures SquaredDistances(values, x) == Spread(StatsOf(values), x)
  {
    var rest, v := values[..|values| - 1], values[|values| - 1];
    var before := SquaredDistances(rest, x);
    LastDistance(values, x, before);
    SpreadNext(values, x, before);
  }

  lemma {:induction false} LastDistance(values: seq<real>, x: real, before: real)
    requires values != [] && SquaredDistances(values[..|values| - 1], x) == before
    ensures SquaredDistances(values, x) == before + (values[|values| - 1] - x) * (values[|values| - 1] - x)
  {
  }

  lemma {:induction false} SpreadNext(values: seq<real>, x: real, before: real)
    requires values != [] && Spread(StatsOf(values[..|values| - 1]), x) == before
    ensures Spread(StatsOf(values), x) == before + (values[|values| - 1] - x) * (values[|values| - 1] - x)
  {
    var u, t, v := StatsOf(values[..|values| - 1]), StatsOf(values), values[|values| - 1];
    SumsNext(values);
    AddedSpread(u, t, v, x, before);
  }

  lemma {:induction false} SumsNext(values: seq<real>)
    requires values != []
    ensures var u, t, v := StatsOf(values[..|values| - 1]), StatsOf(values), values[|values| - 1];
            t.count == u.count + 1.0 && t.sum == u.sum + v && t.sumSqr == u.sumSqr + v * v
  {
  }

  lemma {:induction false} AddedSpread(u: Stats, t: Stats, v: real, x: real, before: real)
    requires t.count == u.count + 1.0 && t.sum == u.sum + v && t.sumSqr == u.sumSqr + v * v && Spread(u, x) == before
    ensures Spread(t, x) == before + (v - x) * (v - x)
  {
    OneMoreSpread(u, t, v, x);
  }

  lemma {:induction false} NoSpread(x: real)
    ensures Spread(StatsOf([]), x) == 0.0
  {
  }

  lemma {:induction false} SameSpread(t: Stats, u: Stats, x: real)
    requires t.count == u.count && t.sum == u.sum && t.sumSqr == u.sumSqr
    ensures Spread(t, x) == Spread(u, x)
  {
  }

  lemma {:induction false} MeanOf(t: Stats)
    requires t.count > 0.0
    ensures t.count * Average(t) == t.sum && Spread(t, Average(t)) == t.count * Variance(t)
  {
    var a := Average(t);
    assert a * t.count == t.sum;
    SpreadAtAverage(t, a);
  }

  /**
   * Of an exact aggregate the average is the mean of the values, and the variance their mean squared distance
   * from it.
   */
  lemma {:induction false} AverageIsMean(t: Stats, values: seq<real>)
    requires Summarizes(t, values) && values != []
    ensures |values| as real * Average(t) == Sum(values)
    ensures |values| as real * Variance(t) == SquaredDistances(values, Average(t))
  {
    MeanOf(t);
    DistancesAreSpread(values, Average(t));
    SameSpread(t, StatsOf(values), Average(t));
  }
}
