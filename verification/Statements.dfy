/** The statements that use all of the engine: SELECT and SHOW POLICY (src/rrdb/rrdb.cpp:288-311). */
module Statements {
  import opened Options
  import opened Times
  import opened Tuples
  import opened Rollup
  import opened History
  import opened Summaries
  import opened Blocks
  import opened Policies
  import opened Metrics
  import opened Walkers
  import opened Queries
  import opened PolicyTexts

  // ---------- CREATE and UPDATE

  lemma {:induction false} CascadeKeepsPeriods(levels: seq<SLevel>, o: Option<SOffer>)
    requires AllWf(levels)
    ensures forall k :: 0 <= k < |levels| ==>
              Cascade(levels, o, STATS)[k].freq == levels[k].freq
                  && Cascade(levels, o, STATS)[k].count == levels[k].count
    decreases |levels|
  {
    if levels != [] && o != None {
      CascadeKeepsPeriods(levels[1..], Handed(levels[0], o.value));
    }
  }

  lemma {:induction false} RunKeepsPeriods(levels: seq<SLevel>, stream: seq<SOffer>)
    requires AllWf(levels)
    ensures forall k :: 0 <= k < |levels| ==>
              Run(levels, stream, STATS)[k].freq == levels[k].freq
                  && Run(levels, stream, STATS)[k].count == levels[k].count
    decreases |stream|
  {
    if stream != [] {
      var front := stream[..|stream| - 1];
      RunKeepsPeriods(levels, front);
      CascadeKeepsPeriods(Run(levels, front, STATS), Some(stream[|stream| - 1]));
    }
  }

  method Create(policy: Policy) returns (m: Metric)
    requires CreatablePolicy(policy)
    ensures fresh(m) && m.Valid() && fresh(m.blocks) && fresh(m.Arrays())
    ensures ValidPeriods(PeriodsOf(policy)) && m.Views() == Stored(PeriodsOf(policy), [])
  {
    PolicyGivesPeriods(policy);
    m := new Metric(policy);
  }

  /** The metric holds what the model stores for all samples so far and the new one. */
  method Update(m: Metric, s: Sample, ghost periods: seq<Period>, ghost samples: Samples)
    requires m.Valid() && ValidPeriods(periods) && m.Views() == Stored(periods, samples)
    modifies m`lastValue, m`lastTs, m.blocks, m.Arrays()
    ensures m.Valid() && m.blocks == old(m.blocks) && m.Views() == Stored(periods, samples + [s])
  {
    StoredSnoc(periods, samples, s);
    m.Update(s.ts, s.value);
  }

  lemma {:induction false} StoredSnoc(periods: seq<Period>, samples: Samples, s: Sample)
    requires ValidPeriods(periods)
    ensures AllWf(Stored(periods, samples)) && Stored(periods, samples)[0].freq == periods[0].freq
    ensures Stored(periods, samples + [s])
         == Cascade(Stored(periods, samples), Some(Offer(Normalized(s.ts, periods[0].freq), Single(s.value))), STATS)
  {
    var offers := ValueOffers(samples + [s], periods[0].freq);
    RunKeepsPeriods(NewLevels(periods, ZERO), ValueOffers(samples, periods[0].freq));
    assert offers[..|offers| - 1] == ValueOffers(samples, periods[0].freq);
  }

  // ---------- SELECT without GROUP BY

  predicate Qualifies(c: Call, tsBegin: int, tsEnd: int) {
    c.tuple.stats.count > 0.0 && tsBegin <= c.tuple.ts <= tsEnd
  }

  /** The call is a new low: it qualifies and is older than every earlier call that does. */
  predicate NewLow(calls: seq<Call>, i: nat, tsBegin: int, tsEnd: int)
    requires i < |calls|
  {
    && Qualifies(calls[i], tsBegin, tsEnd)
    && forall j :: 0 <= j < i && Qualifies(calls[j], tsBegin, tsEnd) ==> calls[i].tuple.ts < calls[j].tuple.ts
  }

  /** The reference answer: the new lows among the first n calls. */
  function PlainRows(calls: seq<Call>, n: nat, tsBegin: int, tsEnd: int): seq<Tuple>
    requires n <= |calls|
  {
    if n == 0 then []
    else
      PlainRows(calls, n - 1, tsBegin, tsEnd)
      + if NewLow(calls, n - 1, tsBegin, tsEnd) then [calls[n - 1].tuple] else []
  }

  lemma {:induction false} RowIsCall(calls: seq<Call>, n: nat, tsBegin: int, tsEnd: int, i: nat) returns (j: nat)
    requires n <= |calls| && i < |PlainRows(calls, n, tsBegin, tsEnd)|
    ensures j < n && Qualifies(calls[j], tsBegin, tsEnd) && PlainRows(calls, n, tsBegin, tsEnd)[i] == calls[j].tuple
  {
    if i < |PlainRows(calls, n - 1, tsBegin, tsEnd)| {
      j := RowIsCall(calls, n - 1, tsBegin, tsEnd, i);
    } else {
      j := n - 1;
    }
  }

  lemma {:induction false} RowAtOrBelow(calls: seq<Call>, n: nat, tsBegin: int, tsEnd: int, j: nat) returns (i: nat)
    requires j < n <= |calls| && Qualifies(calls[j], tsBegin, tsEnd)
    ensures i < |PlainRows(calls, n, tsBegin, tsEnd)| && PlainRows(calls, n, tsBegin, tsEnd)[i].ts <= calls[j].tuple.ts
    decreases n, j
  {
    if j < n - 1 {
      i := RowAtOrBelow(calls, n - 1, tsBegin, tsEnd, j);
    } else if NewLow(calls, j, tsBegin, tsEnd) {
      i := |PlainRows(calls, j, tsBegin, tsEnd)|;
    } else {
      var k: nat :| k < j && Qualifies(calls[k], tsBegin, tsEnd) && calls[k].tuple.ts <= calls[j].tuple.ts;
      i := RowAtOrBelow(calls, n - 1, tsBegin, tsEnd, k);
    }
  }

  /** A call is older than all rows if and only if it is older than all earlier calls that qualify. */
  lemma {:induction false} OlderThanRows(calls: seq<Call>, n: nat, tsBegin: int, tsEnd: int, ts: int)
    requires n <= |calls|
    ensures (forall i :: 0 <= i < |PlainRows(calls, n, tsBegin, tsEnd)| ==>
             ts < PlainRows(calls, n, tsBegin, tsEnd)[i].ts)
            <==> (forall j :: 0 <= j < n && Qualifies(calls[j], tsBegin, tsEnd) ==> ts < calls[j].tuple.ts)
  {
    var rows := PlainRows(calls, n, tsBegin, tsEnd);
    if i: nat :| i < |rows| && rows[i].ts <= ts {
      var j := RowIsCall(calls, n, tsBegin, tsEnd, i);
    } else {
      forall j: nat | j < n && Qualifies(calls[j], tsBegin, tsEnd)
        ensures ts < calls[j].tuple.ts
      {
        var i := RowAtOrBelow(calls, n, tsBegin, tsEnd, j);
      }
    }
  }

  lemma {:induction false} NextRow(calls: seq<Call>, n: nat, tsBegin: int, tsEnd: int)
    requires n < |calls|
    ensures PlainRows(calls, n + 1, tsBegin, tsEnd)
         == PlainRows(calls, n, tsBegin, tsEnd)
            + if Qualifies(calls[n], tsBegin, tsEnd)
                 && forall i :: 0 <= i < |PlainRows(calls, n, tsBegin, tsEnd)| ==>
                     calls[n].tuple.ts < PlainRows(calls, n, tsBegin, tsEnd)[i].ts
              then [calls[n].tuple] else []
  {
    OlderThanRows(calls, n, tsBegin, tsEnd, calls[n].tuple.ts);
  }

  function PlainAnswer(calls: seq<Call>, tsBegin: int, tsEnd: int): seq<Tuple> {
    PlainRows(calls, |calls|, tsBegin, tsEnd)
  }

  method RunPlain(calls: seq<Call>, tsBegin: int, tsEnd: int) returns (rows: seq<Tuple>)
    ensures rows == PlainAnswer(calls, tsBegin, tsEnd)
    ensures forall i :: 0 <= i < |rows| ==> tsBegin <= rows[i].ts <= tsEnd && rows[i].stats.count > 0.0
    ensures forall i, j :: 0 <= i < j < |rows| ==> rows[j].ts < rows[i].ts
  {
    var walker := new PlainWalker(tsBegin, tsEnd);
    for n := 0 to |calls|
      invariant walker.Valid() && walker.rows == PlainRows(calls, n, tsBegin, tsEnd)
    {
      NextRow(calls, n, tsBegin, tsEnd);
      walker.Append(calls[n]);
    }
    rows := walker.rows;
  }

  // ---------- SELECT with GROUP BY

  method RunGrouped(calls: seq<Call>, q: Query) returns (rows: seq<Tuple>)
    requires q.Valid() && GoodCalls(q, calls)
    ensures rows == Answer(q, calls)
  {
    var walker := new GroupByWalker(q);
    for n := 0 to |calls|
      invariant walker.Valid() && walker.q == q && walker.calls == calls[..n]
    {
      assert GoodCall(q, calls[n]);
      walker.Append(calls[n]);
      assert calls[..n + 1] == calls[..n] + [calls[n]];
    }
    assert calls[..|calls|] == calls;
    walker.Flush();
    rows := walker.rows;
  }

  /**
   * SELECT over a metric that was created and updated in any way; groupBy 0 is the same as none.
   * Every row of the ungrouped form lies in the query, has data and is older than the one before.
   * An aligned grouped query that starts in the live slots of the first block has exactly one row for
   * each bucket that contains samples, with their count, sum and sum of squares.
   */
  method Select(m: Metric, tsBegin: int, tsEnd: int, groupBy: Option<nat>, ghost periods: seq<Period>,
                ghost samples: Samples)
    returns (rows: seq<Tuple>)
    requires m.Valid() && ValidPeriods(periods) && NonNegative(samples) && m.Views() == Stored(periods, samples)
    ensures tsEnd <= tsBegin ==> rows == []
    ensures tsBegin < tsEnd && groupBy.Some? && groupBy.value > 0 ==>
              GoodCalls(Query(tsBegin, tsEnd, groupBy.value), SelectedFrom(Stored(periods, samples), tsBegin, tsEnd))
              && rows == Answer(Query(tsBegin, tsEnd, groupBy.value),
                                SelectedFrom(Stored(periods, samples), tsBegin, tsEnd))
    ensures tsBegin < tsEnd && groupBy.Some? && groupBy.value > 0
            && AlignedQuery(Query(tsBegin, tsEnd, groupBy.value), periods[0].freq)
            && LiveFrom(Stored(periods, samples)[0], tsBegin) ==>
              AllMoments(rows) == RawRows(Query(tsBegin, tsEnd, groupBy.value), samples, 0)
    ensures tsBegin < tsEnd && (groupBy == None || groupBy.value == 0) ==>
              && rows == PlainAnswer(SelectedFrom(Stored(periods, samples), tsBegin, tsEnd), tsBegin, tsEnd)
              && (forall i :: 0 <= i < |rows| ==> tsBegin <= rows[i].ts < tsEnd && rows[i].stats.count > 0.0)
              && (forall i, j :: 0 <= i < j < |rows| ==> rows[j].ts < rows[i].ts)
  {
    rows := [];
    if tsBegin < tsEnd {
      var calls := m.Select(tsBegin, tsEnd);
      assert calls == SelectedFrom(Stored(periods, samples), tsBegin, tsEnd);
      SelectionIsGood(periods, samples, tsBegin, tsEnd);
      if groupBy.Some? && groupBy.value > 0 {
        assert GoodCalls(Query(tsBegin, tsEnd, groupBy.value), calls);
        rows := RunGrouped(calls, Query(tsBegin, tsEnd, groupBy.value));
        SelectedRows(Query(tsBegin, tsEnd, groupBy.value), periods, samples);
      } else {
        rows := RunPlain(calls, tsBegin, tsEnd);
        RowsBeforeEnd(calls, |calls|, tsBegin, tsEnd);
      }
    }
  }

  lemma {:induction false} SelectedRows(q: Query, periods: seq<Period>, samples: Samples)
    requires ValidPeriods(periods) && NonNegative(samples) && q.Valid()
    requires GoodCalls(q, SelectedFrom(Stored(periods, samples), q.tsBegin, q.tsEnd))
    ensures AlignedQuery(q, periods[0].freq) && LiveFrom(Stored(periods, samples)[0], q.tsBegin) ==>
              AllMoments(Answer(q, SelectedFrom(Stored(periods, samples), q.tsBegin, q.tsEnd)))
                  == RawRows(q, samples, 0)
  {
    if AlignedQuery(q, periods[0].freq) && LiveFrom(Stored(periods, samples)[0], q.tsBegin) {
      AnswerIsRaw(periods, samples, q);
    }
  }

  lemma {:induction false} RowsBeforeEnd(calls: seq<Call>, n: nat, tsBegin: int, tsEnd: int)
    requires n <= |calls| && AllReported(calls, tsBegin, tsEnd)
    ensures forall i :: 0 <= i < |PlainRows(calls, n, tsBegin, tsEnd)| ==>
            PlainRows(calls, n, tsBegin, tsEnd)[i].ts < tsEnd
  {
    if n > 0 {
      RowsBeforeEnd(calls, n - 1, tsBegin, tsEnd);
      assert Reported(calls[n - 1], tsBegin, tsEnd);
    }
  }

  lemma {:induction false} RowsKept(calls: seq<Call>, k: nat, n: nat, tsBegin: int, tsEnd: int)
    requires k < n <= |calls| && NewLow(calls, k, tsBegin, tsEnd)
    ensures calls[k].tuple in PlainRows(calls, n, tsBegin, tsEnd)
    decreases n
  {
    if k < n - 1 {
      RowsKept(calls, k, n - 1, tsBegin, tsEnd);
    }
  }

  /**
   * Without GROUP BY, every slot of the first block that has data and starts in the query is a
   * row, whatever the other blocks hold.
   */
  lemma {:induction false} FirstBlockIsShown(levels: seq<SLevel>, i: nat, tsBegin: int, tsEnd: int)
    requires levels != [] && AllWf(levels) && i < |levels[0].recent|
    requires tsBegin <= levels[0].SlotTs(i) < tsEnd && levels[0].recent[i].count > 0.0
    ensures Slot(levels[0], i) in PlainAnswer(SelectedFrom(levels, tsBegin, tsEnd), tsBegin, tsEnd)
  {
    var l, calls := levels[0], SelectedFrom(levels, tsBegin, tsEnd);
    if IntervalOverlap(l.EarliestTs(), l.LatestTs(), tsBegin, tsEnd) != 0 {
      SkippedIsEmpty(l, tsBegin, tsEnd, |l.recent|);
    }
    SetOverlapsExact(l, tsBegin, tsEnd, |l.recent|);
    var found, c := SetOverlaps(l, tsBegin, tsEnd, |l.recent|), Call(Slot(l, i), l.freq);
    assert Overlaps(l, i, tsBegin, tsEnd);
    assert c in found;
    var k: nat :| k < |found| && found[k] == c;
    assert found <= calls;
    assert forall j :: 0 <= j <= k ==> calls[j] == found[j];
    RowsKept(calls, k, |calls|, tsBegin, tsEnd);
  }

  // ---------- SHOW POLICY

  /** SHOW POLICY after any updates: the text parses to the policy the metric was created with. */
  method ShowPolicy(m: Metric, ghost policy: Policy, ghost samples: Samples) returns (text: string)
    requires m.Valid() && CreatablePolicy(policy) && Representable(policy)
    requires ValidPeriods(PeriodsOf(policy)) && m.Views() == Stored(PeriodsOf(policy), samples)
    ensures text == PolicyText(policy) && PolicyParse(text) == Accepted(policy)
  {
    var p := m.GetPolicy();
    PolicyGivesPeriods(policy);
    RunKeepsPeriods(NewLevels(PeriodsOf(policy), ZERO), ValueOffers(samples, PeriodsOf(policy)[0].freq));
    assert p == policy;
    RoundTripIff(policy);
    text := PolicyWrite(p);
  }
}
