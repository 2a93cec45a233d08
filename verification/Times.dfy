/** Timestamps and intervals (src/common/types.h). Timestamps are unbounded integers here. */
module Times {

  const INTERVAL_SEC := 1
  const INTERVAL_MIN := 60 * INTERVAL_SEC
  const INTERVAL_HOUR := 60 * INTERVAL_MIN
  const INTERVAL_DAY := 24 * INTERVAL_HOUR
  const INTERVAL_WEEK := 7 * INTERVAL_DAY
  const INTERVAL_MONTH := 30 * INTERVAL_DAY
  const INTERVAL_YEAR := 365 * INTERVAL_DAY

  function Min(x: int, y: int): int { if x < y then x else y }

  function Max(x: int, y: int): int { if x < y then y else x }

  /** -1 if [b1, e1) is earlier than [b2, e2), 1 if it is later, 0 if the two overlap. */
  function IntervalOverlap(b1: int, e1: int, b2: int, e2: int): int {
    if e1 <= b2 then -1 else if e2 <= b1 then 1 else 0
  }

  /** The C++ remainder: the quotient is rounded towards zero. */
  function TruncMod(x: int, y: int): int
    requires y > 0
  {
    if 0 <= x then x % y else -((-x) % y)
  }

  /** rrdb_metric_block::get_normalized_ts */
  function Normalized(ts: int, freq: int): int
    requires freq > 0
  {
    ts - TruncMod(ts, freq)
  }

  /** The quotient and the bracket around a number determine each other. */
  lemma {:induction false} QuotientUnique(x: int, y: int, q: int)
    requires y > 0 && q * y <= x < (q + 1) * y
    ensures x / y == q
  {
    var d := x / y;
    assert d * y <= x < d * y + y;
    assert q * y < (d + 1) * y && d * y < (q + 1) * y;
    LessByFactor(q, d + 1, y);
    LessByFactor(d, q + 1, y);
  }

  lemma {:induction false} LessByFactor(a: int, b: int, y: int)
    requires y > 0 && a * y < b * y
    ensures a < b
  {
    assert 0 < (b - a) * y;
  }

  lemma {:induction false} MulMonotone(a: int, b: int, y: int)
    requires a <= b && 0 <= y
    ensures a * y <= b * y
  {
    assert 0 <= (b - a) * y;
  }

  /** The quotient of a number of at least one whole period. */
  lemma {:induction false} QuotientBounds(x: int, y: int)
    requires 0 < y <= x
    ensures 1 <= x / y && (x / y) * y <= x < (x / y) * y + y
  {
    LessByFactor(1, x / y + 1, y);
  }

  lemma {:induction false} QuotientAtLeast(x: int, y: int, q: int)
    requires y > 0 && q * y <= x
    ensures q <= x / y
  {
    assert x < (x / y) * y + y == (x / y + 1) * y;
    LessByFactor(q, x / y + 1, y);
  }

  /** x is a multiple of y. */
  predicate Divides(y: int, x: int)
    requires y > 0
  {
    x % y == 0
  }

  lemma {:induction false} DividesSum(y: int, a: int, b: int)
    requires y > 0 && Divides(y, a) && Divides(y, b)
    ensures Divides(y, a + b) && Divides(y, a - b)
  {
    Factor(y, a);
    Factor(y, b);
    SumOfMultiples(y, a / y, b / y);
  }

  lemma {:induction false} Factor(y: int, a: int)
    requires y > 0 && Divides(y, a)
    ensures a == (a / y) * y
  {
  }

  lemma {:induction false} SumOfMultiples(y: int, p: int, q: int)
    requires y > 0
    ensures Divides(y, p * y + q * y) && Divides(y, p * y - q * y)
  {
    MultipleIsDivisible(y, p + q);
    MultipleIsDivisible(y, p - q);
    assert (p + q) * y == p * y + q * y;
    assert (p - q) * y == p * y - q * y;
  }

  lemma {:induction false} MultipleIsDivisible(y: int, q: int)
    requires y > 0
    ensures Divides(y, q * y)
  {
    QuotientUnique(q * y, y, q);
  }

  lemma {:induction false} DividesMultiple(y: int, a: int, k: int)
    requires y > 0 && Divides(y, a)
    ensures Divides(y, k * a)
  {
    var q := a / y;
    assert k * a == (k * q) * y;
    MultipleIsDivisible(y, k * q);
  }

  lemma {:induction false} DividesTransitive(x: int, y: int, z: int)
    requires x > 0 && y > 0 && Divides(x, y) && Divides(y, z)
    ensures Divides(x, z)
  {
    DividesMultiple(x, y, z / y);
  }

  /** Two distinct multiples are at least one period apart. */
  lemma {:induction false} MultiplesApart(y: int, a: int, b: int)
    requires y > 0 && Divides(y, a) && Divides(y, b) && a < b
    ensures a + y <= b
  {
    DividesSum(y, b, a);
  }

  /** A non-negative timestamp falls in the bucket that starts at its normalized value. */
  lemma {:induction false} NormalizedBrackets(ts: int, freq: int)
    requires freq > 0 && 0 <= ts
    ensures Divides(freq, Normalized(ts, freq))
    ensures Normalized(ts, freq) <= ts < Normalized(ts, freq) + freq
    ensures 0 <= Normalized(ts, freq)
  {
    MultipleIsDivisible(freq, ts / freq);
    assert ts - ts % freq == (ts / freq) * freq;
    assert 0 <= (ts / freq) * freq;
  }
}
