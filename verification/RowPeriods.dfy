/** What the rows of SELECT without GROUP BY stand for: slots of blocks, whose periods may overlap. */
module RowPeriods {
  import opened Sequences
  import opened Times
  import opened Tuples
  import opened Rollup
  import opened History
  import opened Summaries
  import opened Blocks
  import opened Metrics
  import opened Queries
  import opened Statements
  import opened Origins

  /** The calls behind the rows of PlainRows. */
  function PlainCalls(calls: seq<Call>, n: nat, tsBegin: int, tsEnd: int): seq<Call>
    requires n <= |calls|
  {
    if n == 0 then []
    else PlainCalls(calls, n - 1, tsBegin, tsEnd) + if NewLow(calls, n - 1, tsBegin, tsEnd) then [calls[n - 1]] else []
  }

  lemma {:induction false} CallsOfRows(calls: seq<Call>, n: nat, tsBegin: int, tsEnd: int)
    requires n <= |calls|
    ensures var rows, from := PlainRows(calls, n, tsBegin, tsEnd), PlainCalls(calls, n, tsBegin, tsEnd);
            |rows| == |from| && forall i :: 0 <= i < |rows| ==>
                rows[i] == from[i].tuple && from[i] in calls && rows[i].stats.count > 0.0
  {
    if n > 0 {
      CallsOfRows(calls, n - 1, tsBegin, tsEnd);
    }
  }

  lemma {:induction false} CallsDescend(calls: seq<Call>, n: nat, tsBegin: int, tsEnd: int)
    requires n <= |calls|
    ensures var from := PlainCalls(calls, n, tsBegin, tsEnd);
            forall i, j :: 0 <= i < j < |from| ==> from[j].tuple.ts < from[i].tuple.ts
  {
    if n > 0 {
      CallsDescend(calls, n - 1, tsBegin, tsEnd);
      CallsOfRows(calls, n - 1, tsBegin, tsEnd);
      NextRow(calls, n - 1, tsBegin, tsEnd);
      CallsOfRows(calls, n, tsBegin, tsEnd);
    }
  }

  // ---------- Where rows come from

  ghost predicate IsSlot(levels: seq<SLevel>, k: nat, i: nat, c: Call) {
    k < |levels| && i < |levels[k].recent| && c == Call(Slot(levels[k], i), levels[k].freq)
  }

  /** Every selected tuple with data is a slot of a block. */
  lemma {:induction false} SelectedIsSlot(levels: seq<SLevel>, ts1: int, ts2: int, c: Call) returns (k: nat, i: nat)
    requires AllWf(levels) && c in SelectedFrom(levels, ts1, ts2) && c.tuple.stats.count > 0.0
    ensures IsSlot(levels, k, i, c)
  {
    var l := levels[0];
    SetOverlapsExact(l, ts1, ts2, |l.recent|);
    if c in SetOverlaps(l, ts1, ts2, |l.recent|) {
      k := 0;
      i :| i < |l.recent| && Overlaps(l, i, ts1, ts2) && c == Call(Slot(l, i), l.freq);
    } else {
      k, i := SelectedIsSlot(levels[1..], ts1, ts2, c);
      k := k + 1;
    }
  }

  /** The slot holds the raw samples of its period, as far as the earlier results say. */
  ghost predicate SlotIsRaw(periods: seq<Period>, samples: Samples, k: nat, i: nat)
    requires ValidPeriods(periods) && k < |periods|
  {
    var l := Stored(periods, samples)[k];
    k == 0
    || (&& l.SlotTs(i) + l.freq <= Stored(periods, samples)[k - 1].posTs
        && !RolledAcross(periods, samples, k, l.SlotTs(i)) && !RolledAcross(periods, samples, k, l.SlotTs(i) + l.freq))
  }

  /**
   * Every row is a slot of some block with data. If it is one of the first block, or one that the block before
   * has left behind and that no slot was rolled up across, the row summarizes the raw samples of its period.
   */
  lemma {:induction false} PlainRowIsRaw(periods: seq<Period>, samples: Samples, tsBegin: int, tsEnd: int, row: Tuple)
    returns (k: nat, i: nat)
    requires ValidPeriods(periods) && NonNegative(samples)
    requires forall j :: 0 <= j < |periods| ==> Divides(periods[0].freq, periods[j].freq)
    requires AllWf(Stored(periods, samples))
    requires row in PlainAnswer(SelectedFrom(Stored(periods, samples), tsBegin, tsEnd), tsBegin, tsEnd)
    ensures k < |periods| && i < |Stored(periods, samples)[k].recent| && row == Slot(Stored(periods, samples)[k], i)
    ensures SlotIsRaw(periods, samples, k, i) ==>
              Summarizes(row.stats, Values(InPeriod(samples, row.ts, row.ts + periods[k].freq)))
  {
    var levels := Stored(periods, samples);
    var calls := SelectedFrom(levels, tsBegin, tsEnd);
    CallsOfRows(calls, |calls|, tsBegin, tsEnd);
    var n :| 0 <= n < |PlainAnswer(calls, tsBegin, tsEnd)| && PlainAnswer(calls, tsBegin, tsEnd)[n] == row;
    k, i := SelectedIsSlot(levels, tsBegin, tsEnd, PlainCalls(calls, |calls|, tsBegin, tsEnd)[n]);
    RawSlot(periods, samples, k, i);
  }

  lemma {:induction false} RawSlot(periods: seq<Period>, samples: Samples, k: nat, i: nat)
    requires ValidPeriods(periods) && NonNegative(samples) && k < |periods| && i < |Stored(periods, samples)[k].recent|
    requires forall j :: 0 <= j < |periods| ==> Divides(periods[0].freq, periods[j].freq)
    ensures Stored(periods, samples)[k].freq == periods[k].freq
    ensures var l := Stored(periods, samples)[k];
            SlotIsRaw(periods, samples, k, i) ==>
              Summarizes(l.recent[i], Values(InPeriod(samples, l.SlotTs(i), l.SlotTs(i) + l.freq)))
  {
    BlockAligned(periods, samples, k);
    if k == 0 {
      StoredIsFaithful(periods, samples);
      assert SlotFaithful(Stored(periods, samples)[0], samples, i);
    } else if SlotIsRaw(periods, samples, k, i) {
      CoarseSlotIsRaw(periods, samples, k, i);
    }
  }

  // ---------- What is shown of the coarser blocks

  /** The calls of the first k blocks, if none of them ends the loop. */
  function SelectedUpTo(levels: seq<SLevel>, k: nat, ts1: int, ts2: int): seq<Call>
    requires AllWf(levels) && k <= |levels|
  {
    if k == 0 then []
    else
      var l := levels[k - 1];
      SelectedUpTo(levels, k - 1, ts1, ts2)
      + if IntervalOverlap(l.EarliestTs(), l.LatestTs(), ts1, ts2) == 0 then Selected(l, ts1, ts2) else []
  }

  /** No block up to k ends at or before the start of the query. */
  ghost predicate ReachesBlock(levels: seq<SLevel>, k: nat, ts1: int) {
    forall j :: 0 <= j <= k < |levels| ==> ts1 < levels[j].posTs + levels[j].freq
  }

  lemma {:induction false} UpToNext(levels: seq<SLevel>, n: nat, ts1: int, ts2: int)
    requires AllWf(levels) && n < |levels| && ts1 < levels[n].posTs + levels[n].freq
    requires SelectedFrom(levels, ts1, ts2) == SelectedUpTo(levels, n, ts1, ts2) + SelectedFrom(levels[n..], ts1, ts2)
    ensures SelectedFrom(levels, ts1, ts2)
         == SelectedUpTo(levels, n + 1, ts1, ts2) + SelectedFrom(levels[n + 1..], ts1, ts2)
  {
    SelectedStep(levels, n, ts1, ts2);
  }

  lemma {:induction false} UpToThenFrom(levels: seq<SLevel>, n: nat, ts1: int, ts2: int)
    requires AllWf(levels) && n <= |levels| && forall j :: 0 <= j < n ==> ts1 < levels[j].posTs + levels[j].freq
    ensures SelectedFrom(levels, ts1, ts2) == SelectedUpTo(levels, n, ts1, ts2) + SelectedFrom(levels[n..], ts1, ts2)
  {
    if n == 0 {
      assert levels[0..] == levels;
    } else {
      UpToThenFrom(levels, n - 1, ts1, ts2);
      UpToNext(levels, n - 1, ts1, ts2);
    }
  }

  /** The first block that ends at or before the start of the query ends the loop, whatever the later ones hold. */
  lemma {:induction false} StopsAt(levels: seq<SLevel>, k: nat, ts1: int, ts2: int)
    requires AllWf(levels) && k < |levels| && levels[k].posTs + levels[k].freq <= ts1
    requires forall j :: 0 <= j < k ==> ts1 < levels[j].posTs + levels[j].freq
    ensures SelectedFrom(levels, ts1, ts2) == SelectedUpTo(levels, k, ts1, ts2)
  {
    UpToThenFrom(levels, k, ts1, ts2);
    NothingFrom(levels, k, ts1, ts2);
  }

  lemma {:induction false} NothingFrom(levels: seq<SLevel>, k: nat, ts1: int, ts2: int)
    requires AllWf(levels) && k < |levels| && levels[k].posTs + levels[k].freq <= ts1
    ensures SelectedFrom(levels[k..], ts1, ts2) == []
  {
    SelectedStep(levels, k, ts1, ts2);
  }

  /** Of such a block every set slot that overlaps the query is selected, after the calls of the finer blocks. */
  lemma {:induction false} CoarseSlotSelected(levels: seq<SLevel>, k: nat, i: nat, ts1: int, ts2: int, c: Call)
    returns (more: seq<Call>)
    requires AllWf(levels) && IsSlot(levels, k, i, c) && ReachesBlock(levels, k, ts1)
    requires c.tuple.ts < ts2 && ts1 < c.tuple.ts + c.interval
    ensures SelectedFrom(levels, ts1, ts2)
         == SelectedUpTo(levels, k, ts1, ts2) + SetOverlaps(levels[k], ts1, ts2, |levels[k].recent|) + more
    ensures c in SetOverlaps(levels[k], ts1, ts2, |levels[k].recent|) && c in SelectedFrom(levels, ts1, ts2)
  {
    var l := levels[k];
    var found := SetOverlaps(l, ts1, ts2, |l.recent|);
    UpToThenFrom(levels, k, ts1, ts2);
    SetOverlapsExact(l, ts1, ts2, |l.recent|);
    assert Overlaps(l, i, ts1, ts2);
    if IntervalOverlap(l.EarliestTs(), l.LatestTs(), ts1, ts2) != 0 {
      SkippedIsEmpty(l, ts1, ts2, |l.recent|);
    }
    SelectedStep(levels, k, ts1, ts2);
    more := Joined(SelectedUpTo(levels, k, ts1, ts2), found,
                   Filled(UnsetReported(l, ts1, ts2), Call(ZERO_TUPLE, l.freq)),
                   SelectedFrom(levels[k + 1..], ts1, ts2));
  }

  lemma {:induction false} Joined(front: seq<Call>, found: seq<Call>, zeros: seq<Call>, rest: seq<Call>)
      returns (more: seq<Call>)
    ensures front + ((found + zeros) + rest) == front + found + more
  {
    more := zeros + rest;
  }

  lemma {:induction false} RowsPrefix(calls: seq<Call>, m: nat, n: nat, tsBegin: int, tsEnd: int)
    requires m <= n <= |calls|
    ensures PlainRows(calls, m, tsBegin, tsEnd) <= PlainRows(calls, n, tsBegin, tsEnd)
    decreases n
  {
    if m < n {
      RowsPrefix(calls, m, n - 1, tsBegin, tsEnd);
    }
  }

  /** A slot found at index n is a row, or one of the calls before its block is a row that starts at or before it. */
  lemma {:induction false} ShownUnlessFiner(calls: seq<Call>, front: seq<Call>, found: seq<Call>, n: nat,
                                            tsBegin: int, tsEnd: int)
    requires front + found <= calls && n < |found| && Qualifies(found[n], tsBegin, tsEnd) && Newest(found)
    ensures found[n].tuple in PlainAnswer(calls, tsBegin, tsEnd)
            || exists f ::
                 f in front && f.tuple in PlainAnswer(calls, tsBegin, tsEnd) && f.tuple.ts <= found[n].tuple.ts
  {
    var at := |front| + n;
    assert forall j :: 0 <= j < |front| + |found| ==> calls[j] == (front + found)[j];
    if NewLow(calls, at, tsBegin, tsEnd) {
      RowsKept(calls, at, |calls|, tsBegin, tsEnd);
    } else {
      var j: nat :| j < at && Qualifies(calls[j], tsBegin, tsEnd) && calls[j].tuple.ts <= calls[at].tuple.ts;
      assert j < |front|;
      var i := RowAtOrBelow(calls, |front|, tsBegin, tsEnd, j);
      var m := RowIsCall(calls, |front|, tsBegin, tsEnd, i);
      RowsPrefix(calls, |front|, |calls|, tsBegin, tsEnd);
      assert calls[m] == front[m] && front[m].tuple == PlainAnswer(calls, tsBegin, tsEnd)[i];
    }
  }

  /**
   * Without GROUP BY a slot with data of any block that the loop reaches is a row if it starts in the query,
   * unless a row of a finer block starts at or before it.
   */
  lemma {:induction false} CoarseSlotShown(levels: seq<SLevel>, k: nat, i: nat, tsBegin: int, tsEnd: int, c: Call)
    requires AllWf(levels) && IsSlot(levels, k, i, c) && ReachesBlock(levels, k, tsBegin)
    requires tsBegin <= c.tuple.ts < tsEnd && c.tuple.stats.count > 0.0
    ensures var rows := PlainAnswer(SelectedFrom(levels, tsBegin, tsEnd), tsBegin, tsEnd);
            c.tuple in rows
            || exists f :: f in SelectedUpTo(levels, k, tsBegin, tsEnd) && f.tuple in rows && f.tuple.ts <= c.tuple.ts
  {
    var l := levels[k];
    var more := CoarseSlotSelected(levels, k, i, tsBegin, tsEnd, c);
    var front, found := SelectedUpTo(levels, k, tsBegin, tsEnd), SetOverlaps(l, tsBegin, tsEnd, |l.recent|);
    SetOverlapsExact(l, tsBegin, tsEnd, |l.recent|);
    var n: nat :| n < |found| && found[n] == c;
    ShownUnlessFiner(SelectedFrom(levels, tsBegin, tsEnd), front, found, n, tsBegin, tsEnd);
  }

  // ---------- When the periods of the rows are disjoint

  /** The older row ends before the newer one starts. */
  predicate Before(older: Call, newer: Call) { older.tuple.ts + older.interval <= newer.tuple.ts }

  ghost predicate OneBlock(levels: seq<SLevel>, a: Call, b: Call) {
    exists k: nat, i: nat, j: nat {:trigger IsSlot(levels, k, i, a), IsSlot(levels, k, j, b)} ::
        IsSlot(levels, k, i, a) && IsSlot(levels, k, j, b)
  }

  lemma {:induction false} SlotsApart(l: SLevel, i: nat, j: nat)
    requires l.Wf() && l.SlotTs(j) < l.SlotTs(i)
    ensures l.SlotTs(j) + l.freq <= l.SlotTs(i)
  {
    if i < j {
      SlotsDescend(l, i, j);
    } else if j < i {
      SlotsDescend(l, j, i);
    }
  }

  lemma {:induction false} OneBlockApart(levels: seq<SLevel>, a: Call, b: Call)
    requires AllWf(levels) && OneBlock(levels, a, b) && b.tuple.ts < a.tuple.ts
    ensures Before(b, a)
  {
    var k: nat, i: nat, j: nat :| IsSlot(levels, k, i, a) && IsSlot(levels, k, j, b);
    SlotsApart(levels[k], i, j);
  }

  /**
   * The periods of all rows are disjoint if and only if no row of another block starts before the row above
   * it and ends after that row's start.
   */
  lemma {:induction false} RowsDisjointIff(levels: seq<SLevel>, calls: seq<Call>, tsBegin: int, tsEnd: int)
    requires AllWf(levels) && forall c :: c in calls ==> c.interval > 0
    ensures var from := PlainCalls(calls, |calls|, tsBegin, tsEnd);
            (forall i, j :: 0 <= i < j < |from| ==> Before(from[j], from[i]))
            <==> (forall i :: 0 < i < |from| && !OneBlock(levels, from[i - 1], from[i]) ==>
                  Before(from[i], from[i - 1]))
  {
    var from := PlainCalls(calls, |calls|, tsBegin, tsEnd);
    CallsOfRows(calls, |calls|, tsBegin, tsEnd);
    CallsDescend(calls, |calls|, tsBegin, tsEnd);
    if forall i :: 0 < i < |from| && !OneBlock(levels, from[i - 1], from[i]) ==> Before(from[i], from[i - 1]) {
      forall i, j | 0 <= i < j < |from|
        ensures Before(from[j], from[i])
      {
        if OneBlock(levels, from[j - 1], from[j]) {
          OneBlockApart(levels, from[j - 1], from[j]);
        }
        assert Before(from[j], from[j - 1]);
      }
    }
  }
}
