/**
 * The two walkers that turn the selected tuples into result rows (src/rrdb/rrdb.cpp:103-258).
 * A row is a tuple; how it is printed is not modelled.
 */
module Walkers {
  import opened Times
  import opened Tuples
  import opened Blocks

  // ---------- SELECT without GROUP BY

  /** Rows already written leave the walker at lastTs. */
  class PlainWalker {
    const tsBegin: int
    const tsEnd: int
    var lastTs: int
    var rows: seq<Tuple>

    ghost predicate Valid()
      reads this
    {
      && (forall i :: 0 <= i < |rows| ==>
          tsBegin <= rows[i].ts <= tsEnd && lastTs <= rows[i].ts && rows[i].stats.count > 0.0)
      && (forall i, j :: 0 <= i < j < |rows| ==> rows[j].ts < rows[i].ts)
      && lastTs == if rows == [] then tsEnd + 1 else rows[|rows| - 1].ts
    }

    constructor (tsBegin: int, tsEnd: int)
      ensures Valid() && rows == [] && this.tsBegin == tsBegin && this.tsEnd == tsEnd
    {
      this.tsBegin, this.tsEnd := tsBegin, tsEnd;
      lastTs, rows := tsEnd + 1, [];
    }

    /** Writes the tuple if and only if it is non-empty, inside the query and older than every row so far. */
    method Append(c: Call)
      requires Valid()
      modifies this`lastTs, this`rows
      ensures Valid()
      ensures rows == old(rows) +
                (if c.tuple.stats.count > 0.0 && tsBegin <= c.tuple.ts <= tsEnd
                    && forall i :: 0 <= i < |old(rows)| ==> c.tuple.ts < old(rows)[i].ts
                 then [c.tuple] else [])
    {
      if tsBegin <= c.tuple.ts && c.tuple.ts < lastTs && c.tuple.stats.count > 0.0 {
        rows := rows + [c.tuple];
        lastTs := c.tuple.ts;
      } else if rows != [] {
        assert lastTs == old(rows)[|rows| - 1].ts;
      }
    }
  }

  // ---------- SELECT with GROUP BY: what each row should hold

  datatype Query = Query(tsBegin: int, tsEnd: int, groupBy: int) {
    predicate Valid() { groupBy > 0 && tsBegin < tsEnd }

    /** The end of the newest bucket: the first grid point at or after tsEnd. */
    function Top(): int
      requires Valid()
    {
      var x := (tsEnd - tsBegin) % groupBy;
      if x > 0 then tsEnd + groupBy - x else tsEnd
    }

    function Buckets(): int
      requires Valid()
    {
      (Top() - tsBegin) / groupBy
    }

    /** The start of bucket n; bucket 0 is the oldest. */
    function Lo(n: int): int { tsBegin + n * groupBy }
  }

  lemma {:induction false} LoNext(q: Query, n: int)
    ensures q.Lo(n + 1) == q.Lo(n) + q.groupBy && q.Lo(0) == q.tsBegin
  {
  }

  lemma {:induction false} LoMonotone(q: Query, n: int, m: int)
    requires q.groupBy > 0 && n <= m
    ensures q.Lo(n) <= q.Lo(m)
    ensures n < m ==> q.Lo(n + 1) <= q.Lo(m)
  {
  }

  lemma {:induction false} TopIsLast(q: Query)
    requires q.Valid()
    ensures q.Lo(q.Buckets()) == q.Top() && q.Buckets() > 0
    ensures q.tsEnd <= q.Top() < q.tsEnd + q.groupBy
  {
    var d, g := q.tsEnd - q.tsBegin, q.groupBy;
    var n := if d % g > 0 then d / g + 1 else d / g;
    assert d == (d / g) * g + d % g;
    assert (d / g + 1) * g == (d / g) * g + g;
    assert q.Top() - q.tsBegin == n * g;
    QuotientUnique(n * g, g, n);
    LessByFactor(0, n, g);
  }

  predicate GoodCall(q: Query, c: Call) {
    c.interval > 0 && q.tsBegin < c.tuple.ts + c.interval
  }

  ghost predicate GoodCalls(q: Query, calls: seq<Call>) {
    forall i :: 0 <= i < |calls| ==> GoodCall(q, calls[i])
  }

  /** Everything at or after the frontier has been counted already. */
  function Frontier(q: Query, calls: seq<Call>): (f: int)
    requires q.Valid()
    ensures q.tsBegin <= f <= q.Top()
  {
    if calls == [] then TopIsLast(q); q.Top()
    else Min(Frontier(q, calls[..|calls| - 1]), Max(calls[|calls| - 1].tuple.ts, q.tsBegin))
  }

  /** How much of the call's period below the frontier lies in [lo, hi). */
  function Piece(c: Call, frontier: int, lo: int, hi: int): nat {
    Max(0, Min(Min(c.tuple.ts + c.interval, frontier), hi) - Max(c.tuple.ts, lo))
  }

  function Share(c: Call, piece: int): real
    requires c.interval > 0
  {
    piece as real / c.interval as real
  }

  /**
   * The reference: what the row of [lo, hi) should hold. Every call contributes in proportion to
   * the part of its period that lies in the bucket and was not covered by an earlier call.
   */
  function RowStats(q: Query, calls: seq<Call>, lo: int, hi: int): Stats
    requires q.Valid() && GoodCalls(q, calls)
  {
    if calls == [] then ZERO
    else
      var before, c := calls[..|calls| - 1], calls[|calls| - 1];
      var piece := Piece(c, Frontier(q, before), lo, hi);
      var r := RowStats(q, before, lo, hi);
      if piece == 0 then r else MergeScaled(r, c.tuple.stats, Share(c, piece))
  }

  function BucketStats(q: Query, calls: seq<Call>, n: int): Stats
    requires q.Valid() && GoodCalls(q, calls)
  {
    RowStats(q, calls, q.Lo(n), q.Lo(n + 1))
  }

  function RowOf(q: Query, calls: seq<Call>, n: int): seq<Tuple>
    requires q.Valid() && GoodCalls(q, calls)
  {
    var s := BucketStats(q, calls, n);
    if s.count > 0.0 then [Tuple(q.Lo(n), s)] else []
  }

  /** The rows of the buckets down to m, newest first. */
  function RowsDownTo(q: Query, calls: seq<Call>, m: int): seq<Tuple>
    requires q.Valid() && GoodCalls(q, calls)
    decreases q.Buckets() - m
  {
    if q.Buckets() <= m then [] else RowsDownTo(q, calls, m + 1) + RowOf(q, calls, m)
  }

  /** The whole answer: one row per bucket that has data, each computed on its own. */
  function Answer(q: Query, calls: seq<Call>): seq<Tuple>
    requires q.Valid() && GoodCalls(q, calls)
  {
    RowsDownTo(q, calls, 0)
  }

  // ---------- Facts about the reference

  lemma {:induction false} RowStatsSnoc(q: Query, calls: seq<Call>, c: Call, lo: int, hi: int)
    requires q.Valid() && GoodCalls(q, calls) && GoodCall(q, c)
    ensures GoodCalls(q, calls + [c])
    ensures var piece := Piece(c, Frontier(q, calls), lo, hi);
            RowStats(q, calls + [c], lo, hi) ==
              if piece == 0 then RowStats(q, calls, lo, hi)
              else MergeScaled(RowStats(q, calls, lo, hi), c.tuple.stats, Share(c, piece))
  {
  }

  lemma {:induction false} FrontierSnoc(q: Query, calls: seq<Call>, c: Call)
    requires q.Valid()
    ensures Frontier(q, calls + [c]) == Min(Frontier(q, calls), Max(c.tuple.ts, q.tsBegin))
  {
  }

  /** Nothing has been counted below the frontier. */
  lemma {:induction false} BelowFrontier(q: Query, calls: seq<Call>, lo: int, hi: int)
    requires q.Valid() && GoodCalls(q, calls) && q.tsBegin <= lo < hi <= Frontier(q, calls)
    ensures RowStats(q, calls, lo, hi) == ZERO
  {
    if calls != [] {
      BelowFrontier(q, calls[..|calls| - 1], lo, hi);
    }
  }

  lemma {:induction false} BucketBelowFrontier(q: Query, calls: seq<Call>, n: nat)
    requires q.Valid() && GoodCalls(q, calls) && q.Lo(n + 1) <= Frontier(q, calls)
    ensures BucketStats(q, calls, n) == ZERO
  {
    LoNext(q, n);
    LoMonotone(q, 0, n);
    BelowFrontier(q, calls, q.Lo(n), q.Lo(n + 1));
  }

  lemma {:induction false} BucketUntouched(q: Query, calls: seq<Call>, c: Call, n: int)
    requires q.Valid() && GoodCalls(q, calls) && GoodCall(q, c)
    requires Piece(c, Frontier(q, calls), q.Lo(n), q.Lo(n + 1)) == 0
    ensures GoodCalls(q, calls + [c])
    ensures BucketStats(q, calls + [c], n) == BucketStats(q, calls, n)
  {
  }

  /** A call that has nothing in the buckets from m up leaves their rows alone. */
  lemma {:induction false} RowsUnaffected(q: Query, calls: seq<Call>, c: Call, m: int)
    requires q.Valid() && GoodCalls(q, calls) && GoodCall(q, c)
    requires Min(c.tuple.ts + c.interval, Frontier(q, calls)) <= q.Lo(m)
    ensures GoodCalls(q, calls + [c])
    ensures RowsDownTo(q, calls + [c], m) == RowsDownTo(q, calls, m)
    decreases q.Buckets() - m
  {
    RowStatsSnoc(q, calls, c, q.Lo(m), q.Lo(m + 1));
    if m < q.Buckets() {
      LoNext(q, m);
      RowsUnaffected(q, calls, c, m + 1);
    }
  }

  /** Buckets that end at or below the frontier have no row. */
  lemma {:induction false} NoRowsBelow(q: Query, calls: seq<Call>, n: nat, m: nat)
    requires q.Valid() && GoodCalls(q, calls) && n <= m <= q.Buckets() && q.Lo(m) <= Frontier(q, calls)
    ensures RowsDownTo(q, calls, n) == RowsDownTo(q, calls, m)
    decreases m - n
  {
    if n < m {
      NoRowsBelow(q, calls, n + 1, m);
      LoMonotone(q, n, m);
      BucketBelowFrontier(q, calls, n);
    }
  }

  /** Before the frontier reaches the bucket's end, the overlap computed by append is the uncovered piece. */
  lemma {:induction false} OverlapIsPiece(c: Call, f: int, ts: int, lo: int, hi: int)
    requires ts <= f && (ts == f || c.tuple.ts + c.interval <= ts || ts == hi)
    requires lo < c.tuple.ts + c.interval && c.tuple.ts < ts && lo <= ts <= hi && c.interval > 0
    ensures Piece(c, f, lo, hi) == Min(c.tuple.ts + c.interval, ts) - Max(c.tuple.ts, lo)
    ensures Piece(c, f, lo, hi) <= c.interval && Piece(c, f, lo, hi) <= hi - lo
  {
  }

  lemma {:induction false} AddedPiece(q: Query, before: seq<Call>, c: Call, lo: int, hi: int, piece: int)
    requires q.Valid() && GoodCalls(q, before) && GoodCall(q, c)
    requires piece == Piece(c, Frontier(q, before), lo, hi) <= c.interval
    ensures GoodCalls(q, before + [c])
    ensures var r := RowStats(q, before, lo, hi);
            RowStats(q, before + [c], lo, hi) ==
              if piece == c.interval then Merge(r, c.tuple.stats)
              else if piece > 0 then MergeScaled(r, c.tuple.stats, piece as real / c.interval as real)
              else r
  {
    RowStatsSnoc(q, before, c, lo, hi);
    var r := RowStats(q, before, lo, hi);
    if piece == c.interval {
      WholeShare(c);
      MergeIsScaledByOne(r, c.tuple.stats);
    }
  }

  lemma {:induction false} WholeShare(c: Call)
    requires c.interval > 0
    ensures Share(c, c.interval) == 1.0
  {
  }

  // ---------- The walker

  class GroupByWalker {
    const q: Query
    var ts: int
    var tsBeg: int
    var tsEnd: int
    var curTs: int
    var cur: Stats
    var rows: seq<Tuple>
    ghost var calls: seq<Call>
    /** The current bucket is bucket m - 1; with m = 0 the walker has passed the oldest bucket. */
    ghost var m: nat

    ghost predicate OnGrid()
      reads this
    {
      && q.Valid() && m <= q.Buckets() && curTs == tsBeg
      && tsEnd == q.Lo(m) && tsBeg == q.Lo(if m > 0 then m - 1 else 0)
      && tsBeg <= ts <= tsEnd
    }

    /** The rows written and the row under way are those of the reference for the calls cs. */
    ghost predicate Shows(cs: seq<Call>)
      reads this
    {
      && OnGrid() && GoodCalls(q, cs)
      && rows == RowsDownTo(q, cs, m) && cur == Expected(cs)
    }

    ghost predicate Valid()
      reads this
    {
      Shows(calls) && ts == Frontier(q, calls)
    }

    constructor (q: Query)
      requires q.Valid()
      ensures Valid() && this.q == q && calls == []
    {
      TopIsLast(q);
      LoNext(q, q.Buckets() - 1);
      LoMonotone(q, 0, q.Buckets() - 1);
      this.q := q;
      ts, tsEnd := q.Top(), q.Top();
      tsBeg := Max(q.Top() - q.groupBy, q.tsBegin);
      curTs := Max(q.Top() - q.groupBy, q.tsBegin);
      cur, rows := ZERO, [];
      calls, m := [], q.Buckets();
    }

    method ResetCurTuple(newEnd: int)
      modifies this`ts, this`tsBeg, this`tsEnd, this`cur, this`curTs
      ensures ts == tsEnd == newEnd && tsBeg == curTs == Max(newEnd - q.groupBy, q.tsBegin) && cur == ZERO
    {
      ts, tsEnd := newEnd, newEnd;
      tsBeg := Max(newEnd - q.groupBy, q.tsBegin);
      cur, curTs := ZERO, tsBeg;
    }

    method WriteRow()
      modifies this`rows
      ensures rows == old(rows) + if cur.count > 0.0 then [Tuple(curTs, cur)] else []
    {
      if cur.count > 0.0 {
        rows := rows + [Tuple(curTs, cur)];
      }
    }

    /** flush and reset_cur_tuple: on to the next older bucket. */
    method NextBucket(ghost cs: seq<Call>)
      requires Shows(cs) && m > 0
      modifies this`ts, this`tsBeg, this`tsEnd, this`cur, this`curTs, this`rows, this`m
      ensures OnGrid() && m == old(m) - 1 && ts == tsEnd == old(tsBeg) && cur == ZERO
      ensures rows == RowsDownTo(q, cs, m)
    {
      LoNext(q, m - 1);
      if m > 1 {
        LoNext(q, m - 2);
        LoMonotone(q, 0, m - 2);
      }
      WriteRow();
      ResetCurTuple(tsBeg);
      m := m - 1;
    }

    /** data_walker_select::append. Every good call is taken in, and the loops terminate. */
    method Append(c: Call)
      requires Valid() && GoodCall(q, c)
      modifies this`ts, this`tsBeg, this`tsEnd, this`cur, this`curTs, this`rows, this`m, this`calls
      ensures Valid() && calls == old(calls) + [c]
    {
      var tupleEnd := c.tuple.ts + c.interval;
      while tupleEnd <= tsBeg
        invariant Shows(calls) && calls == old(calls) && ts <= Frontier(q, calls)
        invariant ts == Frontier(q, calls) || tupleEnd <= ts
        decreases m
      {
        LoNext(q, 0);
        NextBucket(calls);
        ShowNextEmpty(calls);
      }
      ghost var before := calls;
      RowsUnaffected(q, before, c, m);
      Split(c, before);
      calls := before + [c];
    }

    /** A bucket at or below the frontier starts out empty. */
    ghost method ShowNextEmpty(cs: seq<Call>)
      requires OnGrid() && GoodCalls(q, cs) && cur == ZERO && tsEnd <= Frontier(q, cs)
      requires rows == RowsDownTo(q, cs, m)
      ensures Shows(cs)
    {
      if m > 0 {
        BucketBelowFrontier(q, cs, m - 1);
      }
    }

    /** Adds what the tuple has in the current bucket. */
    method AddOverlap(c: Call, ghost before: seq<Call>)
      requires OnGrid() && m > 0 && GoodCalls(q, before) && GoodCall(q, c)
      requires cur == BucketStats(q, before, m - 1)
      requires Reaches(c, Frontier(q, before)) && c.tuple.ts < ts
      modifies this`cur
      ensures GoodCalls(q, before + [c]) && cur == BucketStats(q, before + [c], m - 1)
    {
      LoNext(q, m - 1);
      var tupleEnd := c.tuple.ts + c.interval;
      var lower := Max(c.tuple.ts, tsBeg);
      var upper := Min(tupleEnd, ts);
      var overlap := upper - lower;
      OverlapIsPiece(c, Frontier(q, before), ts, tsBeg, tsEnd);
      if q.groupBy < overlap {
        overlap := q.groupBy;
      }
      AddedPiece(q, before, c, tsBeg, tsEnd, overlap);
      if overlap >= c.interval {
        cur := Merge(cur, c.tuple.stats);
      } else if overlap > 0 {
        cur := MergeScaled(cur, c.tuple.stats, overlap as real / c.interval as real);
      }
    }

    /** The tuple extends past the start of the bucket, and ts bounds what of it is still uncounted. */
    ghost predicate Reaches(c: Call, f: int)
      reads this
    {
      && ts <= f && (ts == f || c.tuple.ts + c.interval <= ts || ts == tsEnd)
      && tsBeg < c.tuple.ts + c.interval
      && (ts == f || c.tuple.ts < ts)
    }

    /** The second loop of append: splits the tuple over the buckets it reaches. */
    method Split(c: Call, ghost before: seq<Call>)
      requires OnGrid() && GoodCalls(q, before) && GoodCall(q, c) && GoodCalls(q, before + [c])
      requires rows == RowsDownTo(q, before + [c], m)
      requires Reaches(c, Frontier(q, before)) && cur == Expected(before)
      modifies this`ts, this`tsBeg, this`tsEnd, this`cur, this`curTs, this`rows, this`m
      ensures Shows(before + [c]) && ts == Frontier(q, before + [c])
    {
      ghost var f, all := Frontier(q, before), before + [c];
      AboveBegin();
      while c.tuple.ts < ts && q.tsBegin < ts
        invariant OnGrid() && rows == RowsDownTo(q, all, m) && q.tsBegin <= tsBeg
        invariant cur == Expected(before)
        invariant Reaches(c, f)
        decreases m
      {
        var done := SplitOnce(c, before);
        if done {
          return;
        }
      }
      NothingLeft(c, before);
    }

    /** One turn of the second loop of append. */
    method SplitOnce(c: Call, ghost before: seq<Call>) returns (done: bool)
      requires OnGrid() && m > 0 && GoodCalls(q, before) && GoodCall(q, c) && GoodCalls(q, before + [c])
      requires rows == RowsDownTo(q, before + [c], m) && q.tsBegin <= tsBeg
      requires Reaches(c, Frontier(q, before)) && c.tuple.ts < ts && cur == Expected(before)
      modifies this`ts, this`tsBeg, this`tsEnd, this`cur, this`curTs, this`rows, this`m
      ensures done ==> Shows(before + [c]) && ts == Frontier(q, before + [c])
      ensures !done ==> OnGrid() && m == old(m) - 1 && rows == RowsDownTo(q, before + [c], m) && q.tsBegin <= tsBeg
      ensures !done ==> cur == Expected(before) && Reaches(c, Frontier(q, before))
    {
      AddOverlap(c, before);
      done := tsBeg <= c.tuple.ts;
      if done {
        FrontierSnoc(q, before, c);
        ts := c.tuple.ts;
      } else {
        MoveOn(c, before);
      }
    }

    /** The tuple starts before the current bucket, so the next bucket has a part of it too. */
    method MoveOn(c: Call, ghost before: seq<Call>)
      requires GoodCalls(q, before) && GoodCalls(q, before + [c]) && Shows(before + [c]) && m > 0
      requires Reaches(c, Frontier(q, before)) && c.tuple.ts < tsBeg
      modifies this`ts, this`tsBeg, this`tsEnd, this`cur, this`curTs, this`rows, this`m
      ensures OnGrid() && m == old(m) - 1 && rows == RowsDownTo(q, before + [c], m) && q.tsBegin <= tsBeg
      ensures cur == Expected(before) && Reaches(c, Frontier(q, before))
    {
      NextBucket(before + [c]);
      AboveBegin();
      FreshBucket(before);
    }

    /** What the current row should hold after the calls. */
    ghost function Expected(cs: seq<Call>): Stats
      requires OnGrid() && GoodCalls(q, cs)
      reads this
    {
      if m > 0 then BucketStats(q, cs, m - 1) else ZERO
    }

    lemma {:induction false} FreshBucket(cs: seq<Call>)
      requires OnGrid() && GoodCalls(q, cs) && tsEnd <= Frontier(q, cs)
      ensures Expected(cs) == ZERO
    {
      if m > 0 {
        BucketBelowFrontier(q, cs, m - 1);
      }
    }

    lemma {:induction false} AboveBegin()
      requires OnGrid()
      ensures q.tsBegin <= tsBeg
      ensures m == 0 ==> q.tsBegin == tsBeg == tsEnd
    {
    }

    /** When the second loop stops at its guard, the current bucket has nothing of the tuple. */
    lemma {:induction false} NothingLeft(c: Call, before: seq<Call>)
      requires OnGrid() && GoodCalls(q, before) && GoodCall(q, c) && GoodCalls(q, before + [c])
      requires Reaches(c, Frontier(q, before)) && (ts <= c.tuple.ts || ts <= q.tsBegin)
      ensures ts == Frontier(q, before + [c])
      ensures m > 0 ==> BucketStats(q, before + [c], m - 1) == BucketStats(q, before, m - 1)
    {
      AboveBegin();
      FrontierSnoc(q, before, c);
      if m > 0 {
        LoNext(q, m - 1);
        BucketUntouched(q, before, c, m - 1);
      }
    }

    /** data_walker_select::flush at the end of the query: the result is the reference answer. */
    method Flush()
      requires Valid()
      modifies this`rows
      ensures rows == Answer(q, calls)
    {
      WriteRow();
      if m > 0 {
        LoNext(q, m - 1);
        NoRowsBelow(q, calls, 0, m - 1);
      }
    }
  }
}
