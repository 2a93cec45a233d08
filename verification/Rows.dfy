/** What the GROUP BY answer guarantees, for any sequence of appended tuples. */
module Rows {
  import opened Times
  import opened Tuples
  import opened Blocks
  import opened Walkers

  // ---------- No moment is counted twice

  /** The part of call i that is counted: from the second component's point of view, [from, to). */
  function Counted(q: Query, calls: seq<Call>, i: nat): (r: (int, int))
    requires q.Valid() && i < |calls|
  {
    var c := calls[i];
    (Max(c.tuple.ts, q.tsBegin), Min(c.tuple.ts + c.interval, Frontier(q, calls[..i])))
  }

  lemma {:induction false} FrontierFalls(q: Query, calls: seq<Call>, i: nat, j: nat)
    requires q.Valid() && i <= j <= |calls|
    ensures Frontier(q, calls[..j]) <= Frontier(q, calls[..i])
    ensures i < j ==> Frontier(q, calls[..j]) <= Max(calls[i].tuple.ts, q.tsBegin)
    decreases j
  {
    if i < j {
      FrontierFalls(q, calls, i, j - 1);
      assert calls[..j] == calls[..j - 1] + [calls[j - 1]];
      FrontierSnoc(q, calls[..j - 1], calls[j - 1]);
    }
  }

  /** The counted periods of the calls are disjoint and run from newest to oldest. */
  lemma {:induction false} CountedDisjoint(q: Query, calls: seq<Call>, i: nat, j: nat)
    requires q.Valid() && i < j < |calls|
    ensures Counted(q, calls, j).1 <= Counted(q, calls, i).0
  {
    FrontierFalls(q, calls, i, j);
  }

  // ---------- Conservation

  datatype Field = Count | TheSum | SquareSum

  function Get(s: Stats, f: Field): real {
    match f case Count => s.count case TheSum => s.sum case SquareSum => s.sumSqr
  }

  function TotalOfBuckets(q: Query, calls: seq<Call>, f: Field, n: nat): real
    requires q.Valid() && GoodCalls(q, calls)
    decreases n
  {
    if n == 0 then 0.0 else TotalOfBuckets(q, calls, f, n - 1) + Get(BucketStats(q, calls, n - 1), f)
  }

  /** What so many seconds are worth when each is worth rate. */
  function Worth(seconds: nat, rate: real): real {
    if seconds == 0 then 0.0 else Worth(seconds - 1, rate) + rate
  }

  /** The call's field, spread evenly over its period. */
  function Rate(c: Call, f: Field): real
    requires c.interval > 0
  {
    Get(c.tuple.stats, f) / c.interval as real
  }

  /** Each call's field for the seconds of its period that are below bucket n and not yet counted. */
  function TotalOfCalls(q: Query, calls: seq<Call>, f: Field, n: int): real
    requires q.Valid() && GoodCalls(q, calls)
  {
    if calls == [] then 0.0
    else
      var before, c := calls[..|calls| - 1], calls[|calls| - 1];
      TotalOfCalls(q, before, f, n) + Worth(Piece(c, Frontier(q, before), q.tsBegin, q.Lo(n)), Rate(c, f))
  }

  lemma {:induction false} WorthIsProduct(n: nat, rate: real)
    ensures Worth(n, rate) == n as real * rate
  {
    if n > 0 {
      WorthIsProduct(n - 1, rate);
      assert n as real == (n - 1) as real + 1.0;
      assert ((n - 1) as real + 1.0) * rate == (n - 1) as real * rate + rate;
    }
  }

  lemma {:induction false} WorthAdds(a: nat, b: nat, rate: real)
    ensures Worth(a + b, rate) == Worth(a, rate) + Worth(b, rate)
    decreases b
  {
    if b > 0 {
      WorthAdds(a, b - 1, rate);
    }
  }

  /** The scale factor of append amounts to that many seconds' worth of the field. */
  lemma {:induction false} ShareIsWorth(c: Call, piece: nat, f: Field)
    requires c.interval > 0
    ensures Share(c, piece) * Get(c.tuple.stats, f) == Worth(piece, Rate(c, f))
  {
    WorthIsProduct(piece, Rate(c, f));
    Reorder(piece as real, Get(c.tuple.stats, f), c.interval as real);
  }

  lemma {:induction false} Reorder(p: real, x: real, i: real)
    requires i > 0.0
    ensures (p / i) * x == p * (x / i)
  {
  }

  lemma {:induction false} FieldAdded(t: Stats, c: Call, piece: nat, f: Field)
    requires c.interval > 0
    ensures Get(if piece == 0 then t else MergeScaled(t, c.tuple.stats, Share(c, piece)), f)
         == Get(t, f) + Worth(piece, Rate(c, f))
  {
    ShareIsWorth(c, piece, f);
  }

  lemma {:induction false} GetSnoc(q: Query, calls: seq<Call>, c: Call, lo: int, hi: int, f: Field)
    requires q.Valid() && GoodCalls(q, calls) && GoodCall(q, c)
    ensures GoodCalls(q, calls + [c])
    ensures Get(RowStats(q, calls + [c], lo, hi), f)
         == Get(RowStats(q, calls, lo, hi), f) + Worth(Piece(c, Frontier(q, calls), lo, hi), Rate(c, f))
  {
    RowStatsSnoc(q, calls, c, lo, hi);
    FieldAdded(RowStats(q, calls, lo, hi), c, Piece(c, Frontier(q, calls), lo, hi), f);
  }

  /** Adjacent buckets split a piece without loss. */
  lemma {:induction false} PieceSplits(c: Call, frontier: int, lo: int, mid: int, hi: int)
    requires lo <= mid <= hi
    ensures Piece(c, frontier, lo, hi) == Piece(c, frontier, lo, mid) + Piece(c, frontier, mid, hi)
  {
  }

  lemma {:induction false} WorthSplits(q: Query, c: Call, front: int, n: nat, rate: real)
    requires q.Valid()
    ensures Worth(Piece(c, front, q.tsBegin, q.Lo(n + 1)), rate)
         == Worth(Piece(c, front, q.tsBegin, q.Lo(n)), rate) + Worth(Piece(c, front, q.Lo(n), q.Lo(n + 1)), rate)
  {
    LoNext(q, n);
    LoMonotone(q, 0, n);
    PieceSplits(c, front, q.tsBegin, q.Lo(n), q.Lo(n + 1));
    WorthAdds(Piece(c, front, q.tsBegin, q.Lo(n)), Piece(c, front, q.Lo(n), q.Lo(n + 1)), rate);
  }

  /** What a call adds to the buckets below n is its worth up to the start of bucket n. */
  lemma {:induction false} BucketsSnoc(q: Query, calls: seq<Call>, c: Call, f: Field, n: nat)
    requires q.Valid() && GoodCalls(q, calls) && GoodCall(q, c)
    ensures GoodCalls(q, calls + [c])
    ensures TotalOfBuckets(q, calls + [c], f, n)
         == TotalOfBuckets(q, calls, f, n) + Worth(Piece(c, Frontier(q, calls), q.tsBegin, q.Lo(n)), Rate(c, f))
    decreases n
  {
    if n == 0 {
      LoNext(q, 0);
      RowStatsSnoc(q, calls, c, 0, 0);
    } else {
      BucketsSnoc(q, calls, c, f, n - 1);
      GetSnoc(q, calls, c, q.Lo(n - 1), q.Lo(n), f);
      WorthSplits(q, c, Frontier(q, calls), n - 1, Rate(c, f));
    }
  }

  /**
   * GROUP BY conservation: for every sequence of calls, the counts (and sums, and sums of
   * squares) of all buckets add up to what the calls are worth in the query; nothing is counted
   * twice and nothing inside the query is dropped between buckets.
   */
  lemma {:induction false} BucketsConserve(q: Query, calls: seq<Call>, f: Field)
    requires q.Valid() && GoodCalls(q, calls)
    ensures TotalOfBuckets(q, calls, f, q.Buckets()) == TotalOfCalls(q, calls, f, q.Buckets())
  {
    TopIsLast(q);
    if calls == [] {
      NoCallsNoTotal(q, f, q.Buckets());
    } else {
      var before, c := calls[..|calls| - 1], calls[|calls| - 1];
      BucketsConserve(q, before, f);
      assert before + [c] == calls;
      BucketsSnoc(q, before, c, f, q.Buckets());
    }
  }

  lemma {:induction false} NoCallsNoTotal(q: Query, f: Field, n: nat)
    requires q.Valid()
    ensures TotalOfBuckets(q, [], f, n) == 0.0
    decreases n
  {
    if n > 0 {
      NoCallsNoTotal(q, f, n - 1);
    }
  }

  // ---------- The emitted rows

  ghost predicate PlausibleCalls(calls: seq<Call>) {
    forall i :: 0 <= i < |calls| ==> Plausible(calls[i].tuple.stats)
  }

  /** Rows built from plausible tuples are plausible, so their variance is never negative. */
  lemma {:induction false} RowsPlausible(q: Query, calls: seq<Call>, lo: int, hi: int)
    requires q.Valid() && GoodCalls(q, calls) && PlausibleCalls(calls)
    ensures Plausible(RowStats(q, calls, lo, hi))
    ensures 0.0 <= Variance(RowStats(q, calls, lo, hi))
  {
    if calls == [] {
      ZeroAndSinglePlausible(0.0);
    } else {
      var before, c := calls[..|calls| - 1], calls[|calls| - 1];
      RowsPlausible(q, before, lo, hi);
      var piece := Piece(c, Frontier(q, before), lo, hi);
      assert 0.0 <= Share(c, piece);
      MergeScaledPlausible(RowStats(q, before, lo, hi), c.tuple.stats, Share(c, piece));
    }
    VarianceNonNegative(RowStats(q, calls, lo, hi));
  }

  function TotalOfRows(rows: seq<Tuple>, f: Field): real {
    if rows == [] then 0.0 else TotalOfRows(rows[..|rows| - 1], f) + Get(rows[|rows| - 1].stats, f)
  }

  lemma {:induction false} RowsTotal(q: Query, calls: seq<Call>, f: Field, m: nat)
    requires q.Valid() && GoodCalls(q, calls) && PlausibleCalls(calls) && m <= q.Buckets()
    ensures TotalOfRows(RowsDownTo(q, calls, m), f)
         == TotalOfBuckets(q, calls, f, q.Buckets()) - TotalOfBuckets(q, calls, f, m)
    decreases q.Buckets() - m
  {
    if m < q.Buckets() {
      RowsTotal(q, calls, f, m + 1);
      RowsPlausible(q, calls, q.Lo(m), q.Lo(m + 1));
      var rows, row := RowsDownTo(q, calls, m + 1), RowOf(q, calls, m);
      assert TotalOfBuckets(q, calls, f, m + 1) == TotalOfBuckets(q, calls, f, m) + Get(BucketStats(q, calls, m), f);
      if row == [] {
        assert rows + row == rows;
        assert Get(BucketStats(q, calls, m), f) == 0.0;
      } else {
        assert (rows + row)[..|rows + row| - 1] == rows;
      }
    }
  }

  /** What the walker emits adds up to the proportional shares of what it was given. */
  lemma {:induction false} AnswerConserves(q: Query, calls: seq<Call>, f: Field)
    requires q.Valid() && GoodCalls(q, calls) && PlausibleCalls(calls)
    ensures TotalOfRows(Answer(q, calls), f) == TotalOfCalls(q, calls, f, q.Buckets())
  {
    TopIsLast(q);
    RowsTotal(q, calls, f, 0);
    BucketsConserve(q, calls, f);
  }

  /** A row of bucket m or newer: non-empty, and on the grid of the query. */
  ghost predicate GoodRow(q: Query, row: Tuple, m: int)
    requires q.Valid()
  {
    row.stats.count > 0.0 && q.Lo(m) <= row.ts < q.Top() && Divides(q.groupBy, row.ts - q.tsBegin)
  }

  ghost predicate GoodRows(q: Query, rows: seq<Tuple>, m: int)
    requires q.Valid()
  {
    && (forall i :: 0 <= i < |rows| ==> GoodRow(q, rows[i], m))
    && (forall i, j :: 0 <= i < j < |rows| ==> rows[j].ts < rows[i].ts)
  }

  lemma {:induction false} RowOnGrid(q: Query, calls: seq<Call>, m: nat)
    requires q.Valid() && GoodCalls(q, calls) && m < q.Buckets()
    ensures forall row :: row in RowOf(q, calls, m) ==> row.ts == q.Lo(m) && GoodRow(q, row, m)
    ensures q.Lo(m) < q.Lo(m + 1)
  {
    LoNext(q, m);
    LoMonotone(q, m + 1, q.Buckets());
    TopIsLast(q);
    MultipleIsDivisible(q.groupBy, m);
  }

  /** The rows are non-empty, on the grid of the query, and strictly decreasing in time. */
  lemma {:induction false} RowsOnGrid(q: Query, calls: seq<Call>, m: nat)
    requires q.Valid() && GoodCalls(q, calls) && m <= q.Buckets()
    ensures GoodRows(q, RowsDownTo(q, calls, m), m)
    decreases q.Buckets() - m
  {
    if m < q.Buckets() {
      RowsOnGrid(q, calls, m + 1);
      RowOnGrid(q, calls, m);
      var rows, row := RowsDownTo(q, calls, m + 1), RowOf(q, calls, m);
      assert forall i :: 0 <= i < |rows| ==> GoodRow(q, rows[i], m);
      assert row != [] ==> row[0] in row;
      assert RowsDownTo(q, calls, m) == rows + row;
    }
  }

  lemma {:induction false} RowInRows(q: Query, calls: seq<Call>, m: nat, row: Tuple)
    requires q.Valid() && GoodCalls(q, calls) && m <= q.Buckets()
    ensures row in RowsDownTo(q, calls, m) <==> exists n: nat :: m <= n < q.Buckets() && row in RowOf(q, calls, n)
    decreases q.Buckets() - m
  {
    if m < q.Buckets() {
      RowInRows(q, calls, m + 1, row);
    }
  }

  /** A row is in the answer if and only if it is the aggregate of a bucket that has data. */
  lemma {:induction false} RowInAnswer(q: Query, calls: seq<Call>, row: Tuple)
    requires q.Valid() && GoodCalls(q, calls)
    ensures row in Answer(q, calls) <==>
            exists n: nat ::
              n < q.Buckets() && BucketStats(q, calls, n).count > 0.0
              && row == Tuple(q.Lo(n), BucketStats(q, calls, n))
  {
    TopIsLast(q);
    RowInRows(q, calls, 0, row);
    if n: nat :|
      n < q.Buckets() && BucketStats(q, calls, n).count > 0.0 && row == Tuple(q.Lo(n), BucketStats(q, calls, n))
    {
      assert row in RowOf(q, calls, n);
    }
  }

  // ---------- Minimum and maximum

  /** The tuples a block can hand over: their fields are plausible and an empty one is all zeros. */
  ghost predicate CleanCalls(calls: seq<Call>) {
    forall i :: 0 <= i < |calls| ==>
      0.0 <= calls[i].tuple.stats.count && (calls[i].tuple.stats.count == 0.0 ==> calls[i].tuple.stats == ZERO)
  }

  /** What the row's minimum and maximum should be, and whether empty tuples were merged too late. */
  datatype Extremes = Nothing | Extremes(min: real, max: real, emptyAfter: bool)

  /** The exact extremes of the non-empty tuples that contribute to [lo, hi). */
  function ExactExtremes(q: Query, calls: seq<Call>, lo: int, hi: int): Extremes
    requires q.Valid() && GoodCalls(q, calls)
  {
    if calls == [] then Nothing
    else
      var before, c := calls[..|calls| - 1], calls[|calls| - 1];
      var e := ExactExtremes(q, before, lo, hi);
      if Piece(c, Frontier(q, before), lo, hi) == 0 then e else Extended(e, c.tuple.stats)
  }

  function Extended(e: Extremes, s: Stats): Extremes {
    if s.count == 0.0 then (if e.Nothing? then e else e.(emptyAfter := true))
    else if e.Nothing? then Extremes(s.min, s.max, false)
    else Extremes(if s.min < e.min then s.min else e.min, if e.max < s.max then s.max else e.max, e.emptyAfter)
  }

  /** The minimum and maximum of the row are the exact ones, pulled to 0 by empty tuples that came after data. */
  ghost predicate Pulled(r: Stats, e: Extremes) {
    match e
    case Nothing => r.count == 0.0 && r.min == 0.0 && r.max == 0.0
    case Extremes(min, max, emptyAfter) =>
      && r.count > 0.0
      && r.min == (if emptyAfter && 0.0 < min then 0.0 else min)
      && r.max == (if emptyAfter && max < 0.0 then 0.0 else max)
  }

  lemma {:induction false} PulledNext(r: Stats, e: Extremes, s: Stats, x: real)
    requires Pulled(r, e) && 0.0 < x && 0.0 <= s.count && (s.count == 0.0 ==> s == ZERO)
    ensures Pulled(MergeScaled(r, s, x), Extended(e, s))
  {
    if s.count > 0.0 {
      assert 0.0 < x * s.count;
    }
  }

  lemma {:induction false} RowExtremes(q: Query, calls: seq<Call>, lo: int, hi: int)
    requires q.Valid() && GoodCalls(q, calls) && CleanCalls(calls)
    ensures Pulled(RowStats(q, calls, lo, hi), ExactExtremes(q, calls, lo, hi))
  {
    if calls != [] {
      var before, c := calls[..|calls| - 1], calls[|calls| - 1];
      RowExtremes(q, before, lo, hi);
      var piece := Piece(c, Frontier(q, before), lo, hi);
      if piece > 0 {
        assert 0.0 < Share(c, piece);
        PulledNext(RowStats(q, before, lo, hi), ExactExtremes(q, before, lo, hi), c.tuple.stats, Share(c, piece));
      }
    }
  }

  /**
   * A row shows the exact minimum and maximum of the data in its bucket if and only if no empty
   * slot was merged after data, or 0 lies between them anyway.
   */
  lemma {:induction false} RowExtremesExact(q: Query, calls: seq<Call>, lo: int, hi: int)
    requires q.Valid() && GoodCalls(q, calls) && CleanCalls(calls)
    requires ExactExtremes(q, calls, lo, hi).Extremes?
    ensures var r, e := RowStats(q, calls, lo, hi), ExactExtremes(q, calls, lo, hi);
            (r.min == e.min && r.max == e.max) <==> (!e.emptyAfter || e.min <= 0.0 <= e.max)
  {
    RowExtremes(q, calls, lo, hi);
  }

  /** A gap of one slot before the data of a bucket makes the reported minimum 0. */
  lemma {:induction false} GapSlotSpoilsMinimum(q: Query, a: Call, b: Call, v: real)
    requires q == Query(0, 2, 2) && v > 0.0 && a == Call(Tuple(1, Single(v)), 1) && b == Call(Tuple(0, ZERO), 1)
    ensures q.Valid() && GoodCalls(q, [a, b]) && RowStats(q, [a, b], 0, 2) == Stats(1.0, v, v * v, 0.0, v)
  {
    GapFirst(q, a, v);
    assert [a] + [b] == [a, b];
    AddedPiece(q, [a], b, 0, 2, 1);
  }

  lemma {:induction false} GapFirst(q: Query, a: Call, v: real)
    requires q == Query(0, 2, 2) && a == Call(Tuple(1, Single(v)), 1)
    ensures q.Valid() && GoodCalls(q, [a]) && Frontier(q, [a]) == 1
    ensures RowStats(q, [a], 0, 2) == Merge(ZERO, Single(v))
  {
  }
}
