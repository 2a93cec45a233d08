/** End to end: what a query returns after any run of updates, in terms of the samples recorded. */
module Queries {
  import opened Sequences
  import opened Times
  import opened Tuples
  import opened Rollup
  import opened History
  import opened Summaries
  import opened Blocks
  import opened Metrics
  import opened Walkers
  import opened Rows

  // ---------- Selection over a block and over a metric

  lemma {:induction false} SlotsDescend(l: SLevel, i: nat, j: nat)
    requires l.Wf() && i < j
    ensures l.SlotTs(j) + l.freq <= l.SlotTs(i)
  {
    MulMonotone(i + 1, j, l.freq);
    assert (i + 1) * l.freq == i * l.freq + l.freq;
  }

  ghost predicate Newest(calls: seq<Call>) {
    forall a, b :: 0 <= a < b < |calls| ==> calls[b].tuple.ts < calls[a].tuple.ts
  }

  /**
   * A block hands the walker exactly its set slots that overlap the query, each once, newest
   * first, although it stops at the first slot that is too old.
   */
  lemma {:induction false} SetOverlapsExact(l: SLevel, ts1: int, ts2: int, n: nat)
    requires l.Wf() && n <= |l.recent|
    ensures var calls := SetOverlaps(l, ts1, ts2, n);
            && Newest(calls)
            && (forall c :: c in calls <==> exists i: nat ::
                i < n && Overlaps(l, i, ts1, ts2) && c == Call(Slot(l, i), l.freq))
    ensures n > 0 ==> forall c :: c in SetOverlaps(l, ts1, ts2, n) ==> l.SlotTs(n - 1) <= c.tuple.ts
    decreases n
  {
    if n > 0 {
      SetOverlapsExact(l, ts1, ts2, n - 1);
      if n > 1 {
        SlotsDescend(l, n - 2, n - 1);
      }
      var before, calls := SetOverlaps(l, ts1, ts2, n - 1), SetOverlaps(l, ts1, ts2, n);
      forall c
        ensures c in calls <==> exists i: nat :: i < n && Overlaps(l, i, ts1, ts2) && c == Call(Slot(l, i), l.freq)
      {
        if c in before {
        } else if c in calls {
          assert Overlaps(l, n - 1, ts1, ts2);
        }
      }
      forall a, b | 0 <= a < b < |calls|
        ensures calls[b].tuple.ts < calls[a].tuple.ts
      {
        if b == |before| {
          assert calls[a] == before[a] && before[a] in before;
        }
      }
    }
  }

  /** Once the query starts late enough, never-set slots are not reported. */
  lemma {:induction false} SelectedExact(l: SLevel, ts1: int, ts2: int)
    requires l.Wf() && l.freq <= ts1
    ensures Selected(l, ts1, ts2) == SetOverlaps(l, ts1, ts2, |l.recent|)
  {
  }

  /** A block that select passes over has no set slot in the query. */
  lemma {:induction false} SkippedIsEmpty(l: SLevel, ts1: int, ts2: int, n: nat)
    requires l.Wf() && n <= |l.recent|
    requires IntervalOverlap(l.EarliestTs(), l.LatestTs(), ts1, ts2) != 0
    ensures SetOverlaps(l, ts1, ts2, n) == []
    decreases n
  {
    if n > 0 {
      SkippedIsEmpty(l, ts1, ts2, n - 1);
      MulMonotone(n - 1, l.count, l.freq);
      MulMonotone(0, n - 1, l.freq);
      assert l.freq * l.count == l.count * l.freq;
    }
  }

  /** When select stops at block k, nothing offered to a later block was as recent as the query. */
  lemma {:induction false} SelectStopsSafely(periods: seq<Period>, samples: Samples, k: nat, m: nat, ts1: int)
    requires ValidPeriods(periods) && NonNegative(samples) && k < m < |periods|
    requires Stored(periods, samples)[k].LatestTs() <= ts1
    ensures AllBefore(Reaching(periods, samples, m), ts1)
  {
    var nl, ns := NewLevels(periods, ZERO), ValueOffers(samples, periods[0].freq);
    LevelsOrdered(nl, ns, STATS, k, m);
    StreamsMatch(periods, samples, m);
    var n, h := StreamAt(nl, ns, STATS, m), Reaching(periods, samples, m);
    forall j | 0 <= j < |h|
      ensures h[j].ts < ts1
    {
      assert OfferMatches(n[j], h[j]);
    }
  }

  /** A reported tuple: it overlaps the query, and its aggregate is clean. */
  ghost predicate Reported(c: Call, ts1: int, ts2: int) {
    && c.interval > 0 && ts1 < c.tuple.ts + c.interval && c.tuple.ts < ts2
    && Plausible(c.tuple.stats) && (c.tuple.stats.count == 0.0 ==> c.tuple.stats == ZERO)
  }

  ghost predicate AllReported(calls: seq<Call>, ts1: int, ts2: int) {
    forall i :: 0 <= i < |calls| ==> Reported(calls[i], ts1, ts2)
  }

  ghost predicate CleanLevel(l: SLevel) {
    && l.Wf()
    && forall i :: 0 <= i < |l.recent| ==>
         Plausible(l.recent[i]) && (l.recent[i].count == 0.0 ==> l.recent[i] == ZERO)
  }

  lemma {:induction false} SetOverlapsReported(l: SLevel, ts1: int, ts2: int, n: nat)
    requires CleanLevel(l) && n <= |l.recent|
    ensures AllReported(SetOverlaps(l, ts1, ts2, n), ts1, ts2)
    decreases n
  {
    if n > 0 {
      SetOverlapsReported(l, ts1, ts2, n - 1);
    }
  }

  lemma {:induction false} SelectedFromReported(levels: seq<SLevel>, ts1: int, ts2: int)
    requires AllWf(levels) && forall k :: 0 <= k < |levels| ==> CleanLevel(levels[k])
    ensures AllReported(SelectedFrom(levels, ts1, ts2), ts1, ts2)
  {
    if levels != [] {
      SelectedFromReported(levels[1..], ts1, ts2);
      SetOverlapsReported(levels[0], ts1, ts2, |levels[0].recent|);
      ZeroAndSinglePlausible(0.0);
    }
  }

  lemma {:induction false} StoredIsClean(periods: seq<Period>, samples: Samples, k: nat)
    requires ValidPeriods(periods) && NonNegative(samples) && k < |periods|
    ensures CleanLevel(Stored(periods, samples)[k])
  {
    SlotsAreExact(periods, samples, k);
    var l, h := Stored(periods, samples)[k], Reaching(periods, samples, k);
    forall i: nat | i < |l.recent|
      ensures Plausible(l.recent[i]) && (l.recent[i].count == 0.0 ==> l.recent[i] == ZERO)
    {
      assert ExactSlot(l, h, i);
      var values := Values(Collected(h, l.SlotTs(i), l.SlotTs(i) + l.freq));
      SummaryPlausible(l.recent[i], values);
      if values == [] {
        assert Sum(values) == 0.0 && SumSqr(values) == 0.0;
      }
    }
  }

  /**
   * After any run of updates, whatever a query selects can be fed to either walker: the GROUP BY
   * loops terminate, its rows conserve and have a non-negative variance.
   */
  lemma {:induction false} SelectionIsGood(periods: seq<Period>, samples: Samples, ts1: int, ts2: int)
    requires ValidPeriods(periods) && NonNegative(samples)
    ensures var calls := SelectedFrom(Stored(periods, samples), ts1, ts2);
            && AllReported(calls, ts1, ts2) && PlausibleCalls(calls) && CleanCalls(calls)
            && forall g :: GoodCalls(Query(ts1, ts2, g), calls)
  {
    var levels := Stored(periods, samples);
    forall k | 0 <= k < |levels|
      ensures CleanLevel(levels[k])
    {
      StoredIsClean(periods, samples, k);
    }
    SelectedFromReported(levels, ts1, ts2);
    var calls := SelectedFrom(levels, ts1, ts2);
    forall i | 0 <= i < |calls|
      ensures Plausible(calls[i].tuple.stats) && 0.0 <= calls[i].tuple.stats.count
    {
      assert Reported(calls[i], ts1, ts2);
    }
  }

  // ---------- Raw samples

  function InPeriod(samples: Samples, lo: int, hi: int): Samples {
    if samples == [] then []
    else
      var s := samples[|samples| - 1];
      InPeriod(samples[..|samples| - 1], lo, hi) + if Within(s.ts, lo, hi) then [s] else []
  }

  /** The count, sum or sum of squares of samples. */
  function FieldOf(samples: Samples, f: Field): real {
    match f
    case Count => |samples| as real
    case TheSum => Sum(Values(samples))
    case SquareSum => SumSqr(Values(samples))
  }

  lemma {:induction false} FieldAppend(a: Samples, b: Samples, f: Field)
    ensures FieldOf(a + b, f) == FieldOf(a, f) + FieldOf(b, f)
  {
    ValuesAppend(a, b);
    SumAppend(Values(a), Values(b));
    assert |a + b| as real == |a| as real + |b| as real;
  }

  lemma {:induction false} PeriodSnoc(samples: Samples, lo: int, hi: int, f: Field)
    requires samples != []
    ensures FieldOf(InPeriod(samples, lo, hi), f)
         == FieldOf(InPeriod(samples[..|samples| - 1], lo, hi), f)
            + if Within(samples[|samples| - 1].ts, lo, hi) then FieldOf([samples[|samples| - 1]], f) else 0.0
  {
    var rest, s := samples[..|samples| - 1], samples[|samples| - 1];
    FieldAppend(InPeriod(rest, lo, hi), [s], f);
    assert InPeriod(rest, lo, hi) + [] == InPeriod(rest, lo, hi);
  }

  lemma {:induction false} PeriodSplits(samples: Samples, lo: int, mid: int, hi: int, f: Field)
    requires lo <= mid <= hi
    ensures FieldOf(InPeriod(samples, lo, hi), f) == FieldOf(InPeriod(samples, lo, mid), f)
            + FieldOf(InPeriod(samples, mid, hi), f)
  {
    if samples == [] {
      assert Values([]) == [];
    } else {
      PeriodSplits(samples[..|samples| - 1], lo, mid, hi, f);
      PeriodSnoc(samples, lo, hi, f);
      PeriodSnoc(samples, lo, mid, f);
      PeriodSnoc(samples, mid, hi, f);
    }
  }

  lemma {:induction false} EmptyPeriod(samples: Samples, lo: int, hi: int, f: Field)
    requires forall i :: 0 <= i < |samples| ==> !Within(samples[i].ts, lo, hi)
    ensures InPeriod(samples, lo, hi) == [] && FieldOf(InPeriod(samples, lo, hi), f) == 0.0
  {
    if samples != [] {
      EmptyPeriod(samples[..|samples| - 1], lo, hi, f);
    }
    assert Values([]) == [];
  }

  /** On period boundaries, alignment of the timestamps makes no difference. */
  lemma {:induction false} CollectedIsPeriod(samples: Samples, freq: int, lo: int, hi: int)
    requires freq > 0 && NonNegative(samples) && Divides(freq, lo) && Divides(freq, hi)
    ensures Collected(SampleOffers(samples, freq), lo, hi) == InPeriod(samples, lo, hi)
  {
    if samples != [] {
      var rest, s := samples[..|samples| - 1], samples[|samples| - 1];
      CollectedIsPeriod(rest, freq, lo, hi);
      assert SampleOffers(samples, freq)[..|samples| - 1] == SampleOffers(rest, freq);
      AlignedWithin(s.ts, freq, lo);
      AlignedWithin(s.ts, freq, hi);
    }
  }

  lemma {:induction false} AlignedWithin(ts: int, freq: int, edge: int)
    requires freq > 0 && 0 <= ts && Divides(freq, edge)
    ensures ts < edge <==> Normalized(ts, freq) < edge
  {
    NormalizedBrackets(ts, freq);
    if Normalized(ts, freq) < edge {
      MultiplesApart(freq, Normalized(ts, freq), edge);
    }
  }

  // ---------- Aligned queries over the live slots of the first block

  /** Every slot summarizes the raw samples recorded in its period, and none is newer than the window. */
  ghost predicate Faithful(l: SLevel, samples: Samples) {
    && l.Wf() && Divides(l.freq, l.posTs)
    && (forall i :: 0 <= i < |samples| ==> samples[i].ts < l.LatestTs())
    && (forall i: nat :: i < |l.recent| ==> SlotFaithful(l, samples, i))
  }

  ghost predicate SlotFaithful(l: SLevel, samples: Samples, i: nat)
    requires i < |l.recent|
  {
    Summarizes(l.recent[i], Values(InPeriod(samples, l.SlotTs(i), l.SlotTs(i) + l.freq)))
  }

  lemma {:induction false} SlotAligned(l: SLevel, i: int)
    requires l.freq > 0 && Divides(l.freq, l.posTs)
    ensures Divides(l.freq, l.SlotTs(i)) && Divides(l.freq, l.SlotTs(i) + l.freq)
  {
    MultipleIsDivisible(l.freq, i);
    MultipleIsDivisible(l.freq, 1);
    DividesSum(l.freq, l.posTs, i * l.freq);
    DividesSum(l.freq, l.SlotTs(i), l.freq);
  }

  lemma {:induction false} SummaryField(t: Stats, samples: Samples, f: Field)
    requires Summarizes(t, Values(samples))
    ensures Get(t, f) == FieldOf(samples, f)
  {
  }

  lemma {:induction false} NoneNewer(periods: seq<Period>, samples: Samples, i: nat)
    requires ValidPeriods(periods) && NonNegative(samples) && i < |samples|
    ensures samples[i].ts < Stored(periods, samples)[0].LatestTs()
  {
    var l, g := Stored(periods, samples)[0], periods[0].freq;
    var h := StoredTracks(periods, samples, 0);
    FirstBlockAligned(periods, samples);
    assert SampleOffers(samples, g)[i].ts < h.LatestTs();
    SlotAligned(l, 0);
    AlignedWithin(samples[i].ts, g, l.LatestTs());
  }

  lemma {:induction false} SlotIsFaithful(periods: seq<Period>, samples: Samples, i: nat)
    requires ValidPeriods(periods) && NonNegative(samples) && i < |Stored(periods, samples)[0].recent|
    ensures SlotFaithful(Stored(periods, samples)[0], samples, i)
  {
    var l, g := Stored(periods, samples)[0], periods[0].freq;
    SlotsAreExact(periods, samples, 0);
    FirstBlockAligned(periods, samples);
    assert Reaching(periods, samples, 0) == SampleOffers(samples, g);
    assert ExactSlot(l, Reaching(periods, samples, 0), i);
    SlotAligned(l, i);
    CollectedIsPeriod(samples, g, l.SlotTs(i), l.SlotTs(i) + g);
  }

  lemma {:induction false} StoredIsFaithful(periods: seq<Period>, samples: Samples)
    requires ValidPeriods(periods) && NonNegative(samples)
    ensures Faithful(Stored(periods, samples)[0], samples)
  {
    var l := Stored(periods, samples)[0];
    FirstBlockAligned(periods, samples);
    forall i | 0 <= i < |samples|
      ensures samples[i].ts < l.LatestTs()
    {
      NoneNewer(periods, samples, i);
    }
    forall i: nat | i < |l.recent|
      ensures SlotFaithful(l, samples, i)
    {
      SlotIsFaithful(periods, samples, i);
    }
  }

  /** The set slots of the block reach back to the timestamp. */
  ghost predicate LiveFrom(l: SLevel, ts: int)
    requires l.Wf()
  {
    l.SlotTs(|l.recent| - 1) <= ts
  }

  ghost predicate AlignedQuery(q: Query, freq: int)
    requires freq > 0
  {
    q.Valid() && Divides(freq, q.tsBegin) && Divides(freq, q.tsEnd) && Divides(freq, q.groupBy)
  }

  lemma {:induction false} LoAligned(q: Query, freq: int, n: int)
    requires freq > 0 && AlignedQuery(q, freq)
    ensures Divides(freq, q.Lo(n))
  {
    DividesMultiple(freq, q.groupBy, n);
    DividesSum(freq, q.tsBegin, n * q.groupBy);
  }

  lemma {:induction false} FrontierAtLeast(q: Query, calls: seq<Call>, x: int)
    requires q.Valid() && x <= q.Top() && forall c :: c in calls ==> x <= c.tuple.ts
    ensures x <= Frontier(q, calls)
  {
    if calls != [] {
      assert calls[|calls| - 1] in calls;
      FrontierAtLeast(q, calls[..|calls| - 1], x);
    }
  }

  lemma {:induction false} FrontierAtMost(q: Query, calls: seq<Call>, c: Call)
    requires q.Valid() && c in calls
    ensures Frontier(q, calls) <= Max(c.tuple.ts, q.tsBegin)
  {
    if c != calls[|calls| - 1] {
      FrontierAtMost(q, calls[..|calls| - 1], c);
    }
  }

  /** A slot on the grid of the query lies in the bucket as a whole or not at all. */
  lemma {:induction false} AlignedPiece(c: Call, front: int, lo: int, hi: int)
    requires c.interval > 0 && c.tuple.ts + c.interval <= front && lo <= hi
    requires Divides(c.interval, c.tuple.ts) && Divides(c.interval, lo) && Divides(c.interval, hi)
    ensures Piece(c, front, lo, hi) == if lo <= c.tuple.ts < hi then c.interval else 0
  {
    if c.tuple.ts < lo {
      MultiplesApart(c.interval, c.tuple.ts, lo);
    }
    if c.tuple.ts < hi {
      MultiplesApart(c.interval, c.tuple.ts, hi);
    }
  }

  /** The samples in [lo, hi) and in the query that are no older than the j newest slots. */
  function Seen(q: Query, l: SLevel, samples: Samples, lo: int, hi: int, j: nat): Samples {
    InPeriod(samples, Max(lo, l.SlotTs(j) + l.freq), Min(hi, q.tsEnd))
  }

  /** Going one slot further back adds the samples of that slot, if it is in the bucket and the query. */
  lemma {:induction false} SeenNext(q: Query, l: SLevel, samples: Samples, lo: int, hi: int, j: nat, f: Field)
    requires l.Wf() && AlignedQuery(q, l.freq) && Divides(l.freq, l.posTs)
    requires q.tsBegin <= lo && Divides(l.freq, lo) && Divides(l.freq, hi)
    ensures FieldOf(Seen(q, l, samples, lo, hi, j + 1), f)
         == FieldOf(Seen(q, l, samples, lo, hi, j), f)
            + if lo <= l.SlotTs(j) < hi && l.SlotTs(j) < q.tsEnd
              then FieldOf(InPeriod(samples, l.SlotTs(j), l.SlotTs(j) + l.freq), f) else 0.0
  {
    var a := l.SlotTs(j);
    SlotTsStep(l, j);
    SlotAligned(l, j);
    if a < lo {
      MultiplesApart(l.freq, a, lo);
    } else if hi <= a || q.tsEnd <= a {
      EmptyPeriod(samples, a, Min(hi, q.tsEnd), f);
      EmptyPeriod(samples, a + l.freq, Min(hi, q.tsEnd), f);
    } else {
      MultiplesApart(l.freq, a, hi);
      MultiplesApart(l.freq, a, q.tsEnd);
      PeriodSplits(samples, a, a + l.freq, Min(hi, q.tsEnd), f);
    }
  }

  /** The first j slots put into a row exactly the samples seen so far. */
  lemma {:induction false} SlotsAddUp(q: Query, l: SLevel, samples: Samples, lo: int, hi: int, j: nat, f: Field)
    requires Faithful(l, samples) && AlignedQuery(q, l.freq) && j <= |l.recent|
    requires q.tsBegin <= lo <= hi && Divides(l.freq, lo) && Divides(l.freq, hi)
    ensures GoodCalls(q, SetOverlaps(l, q.tsBegin, q.tsEnd, j))
    ensures Get(RowStats(q, SetOverlaps(l, q.tsBegin, q.tsEnd, j), lo, hi), f)
            == FieldOf(Seen(q, l, samples, lo, hi, j), f)
    decreases j
  {
    if j == 0 {
      NoSlotsYet(q, l, samples, lo, hi, f);
    } else {
      SlotsAddUp(q, l, samples, lo, hi, j - 1, f);
      OneMoreSlot(q, l, samples, lo, hi, j - 1, f, SetOverlaps(l, q.tsBegin, q.tsEnd, j - 1),
                  SetOverlaps(l, q.tsBegin, q.tsEnd, j));
    }
  }

  lemma {:induction false} NoSlotsYet(q: Query, l: SLevel, samples: Samples, lo: int, hi: int, f: Field)
    requires q.Valid() && forall i :: 0 <= i < |samples| ==> samples[i].ts < l.LatestTs()
    ensures Get(RowStats(q, [], lo, hi), f) == FieldOf(Seen(q, l, samples, lo, hi, 0), f)
  {
    assert l.SlotTs(0) == l.posTs;
    EmptyPeriod(samples, Max(lo, l.LatestTs()), Min(hi, q.tsEnd), f);
  }

  lemma {:induction false} SlotFields(l: SLevel, samples: Samples, j: nat, f: Field)
    requires Faithful(l, samples) && j < |l.recent|
    ensures Get(l.recent[j], f) == FieldOf(InPeriod(samples, l.SlotTs(j), l.SlotTs(j) + l.freq), f)
  {
    assert SlotFaithful(l, samples, j);
    SummaryField(l.recent[j], InPeriod(samples, l.SlotTs(j), l.SlotTs(j) + l.freq), f);
  }

  lemma {:induction false} OneMoreSlot(q: Query, l: SLevel, samples: Samples, lo: int, hi: int, j: nat, f: Field,
                                       before: seq<Call>, calls: seq<Call>)
    requires Faithful(l, samples) && AlignedQuery(q, l.freq) && j < |l.recent|
    requires q.tsBegin <= lo <= hi && Divides(l.freq, lo) && Divides(l.freq, hi)
    requires before == SetOverlaps(l, q.tsBegin, q.tsEnd, j) && calls == SetOverlaps(l, q.tsBegin, q.tsEnd, j + 1)
    requires GoodCalls(q, before) && Get(RowStats(q, before, lo, hi), f) == FieldOf(Seen(q, l, samples, lo, hi, j), f)
    ensures GoodCalls(q, calls) && Get(RowStats(q, calls, lo, hi), f) == FieldOf(Seen(q, l, samples, lo, hi, j + 1), f)
  {
    SeenNext(q, l, samples, lo, hi, j, f);
    var a := l.SlotTs(j);
    if Overlaps(l, j, q.tsBegin, q.tsEnd) {
      SlotAdds(q, l, lo, hi, j, f);
      SlotFields(l, samples, j, f);
      assert calls == before + [Call(Slot(l, j), l.freq)];
    } else {
      assert calls == before + [] == before;
    }
  }

  /** An overlapping slot adds its whole fields to the bucket it lies in. */
  lemma {:induction false} SlotAdds(q: Query, l: SLevel, lo: int, hi: int, j: nat, f: Field)
    requires l.Wf() && Divides(l.freq, l.posTs) && AlignedQuery(q, l.freq) && j < |l.recent|
    requires lo <= hi && Divides(l.freq, lo) && Divides(l.freq, hi)
    requires Overlaps(l, j, q.tsBegin, q.tsEnd) && GoodCalls(q, SetOverlaps(l, q.tsBegin, q.tsEnd, j))
    ensures var before, c := SetOverlaps(l, q.tsBegin, q.tsEnd, j), Call(Slot(l, j), l.freq);
            && GoodCalls(q, before + [c])
            && Get(RowStats(q, before + [c], lo, hi), f)
               == Get(RowStats(q, before, lo, hi), f) + if lo <= l.SlotTs(j) < hi then Get(l.recent[j], f) else 0.0
  {
    var before, c := SetOverlaps(l, q.tsBegin, q.tsEnd, j), Call(Slot(l, j), l.freq);
    SlotAligned(l, j);
    FrontierAboveSlot(q, l, j);
    AlignedPiece(c, Frontier(q, before), lo, hi);
    GetSnoc(q, before, c, lo, hi, f);
    WholeWorth(c, f);
  }

  lemma {:induction false} WholeWorth(c: Call, f: Field)
    requires c.interval > 0
    ensures Worth(c.interval, Rate(c, f)) == Get(c.tuple.stats, f)
  {
    WorthIsProduct(c.interval, Rate(c, f));
  }

  /** Newer slots leave the frontier at or above the end of the slot. */
  lemma {:induction false} FrontierAboveSlot(q: Query, l: SLevel, j: nat)
    requires l.Wf() && Divides(l.freq, l.posTs) && AlignedQuery(q, l.freq) && j < |l.recent|
    requires Overlaps(l, j, q.tsBegin, q.tsEnd)
    ensures l.SlotTs(j) + l.freq <= Frontier(q, SetOverlaps(l, q.tsBegin, q.tsEnd, j))
  {
    SlotAligned(l, j);
    SetOverlapsExact(l, q.tsBegin, q.tsEnd, j);
    TopIsLast(q);
    MultiplesApart(l.freq, l.SlotTs(j), q.tsEnd);
    if j > 0 {
      SlotTsStep(l, j - 1);
    }
    FrontierAtLeast(q, SetOverlaps(l, q.tsBegin, q.tsEnd, j), l.SlotTs(j) + l.freq);
  }

  /** Once the frontier is at the start of the query, further calls change nothing. */
  lemma {:induction false} NothingMore(q: Query, calls: seq<Call>, more: seq<Call>, lo: int, hi: int)
    requires q.Valid() && GoodCalls(q, calls) && GoodCalls(q, calls + more) && Frontier(q, calls) == q.tsBegin <= lo
    ensures RowStats(q, calls + more, lo, hi) == RowStats(q, calls, lo, hi) && Frontier(q, calls + more) == q.tsBegin
    decreases |more|
  {
    if more == [] {
      assert calls + more == calls;
    } else {
      var m, c := more[..|more| - 1], more[|more| - 1];
      assert calls + more == (calls + m) + [c];
      assert forall i :: 0 <= i < |calls + m| ==> (calls + m)[i] == (calls + more)[i];
      NothingMore(q, calls, m, lo, hi);
      assert (calls + more)[|calls + m|] == c;
      RowStatsSnoc(q, calls + m, c, lo, hi);
      FrontierSnoc(q, calls + m, c);
    }
  }

  /** The live slots reach down to the start of the query, and so does the frontier. */
  lemma {:induction false} FrontierReachesBegin(q: Query, l: SLevel)
    requires l.Wf() && Divides(l.freq, l.posTs) && AlignedQuery(q, l.freq)
    requires l.SlotTs(|l.recent| - 1) <= q.tsBegin < l.LatestTs()
    ensures Frontier(q, SetOverlaps(l, q.tsBegin, q.tsEnd, |l.recent|)) == q.tsBegin
  {
    var d := l.posTs - q.tsBegin;
    DividesSum(l.freq, l.posTs, q.tsBegin);
    if d < 0 {
      MultiplesApart(l.freq, l.posTs, q.tsBegin);
      assert false;
    }
    var j: nat := d / l.freq;
    assert d == j * l.freq && l.SlotTs(j) == q.tsBegin;
    if |l.recent| <= j {
      SlotsDescend(l, |l.recent| - 1, j);
      assert false;
    }
    assert Overlaps(l, j, q.tsBegin, q.tsEnd);
    var calls := SetOverlaps(l, q.tsBegin, q.tsEnd, |l.recent|);
    SetOverlapsExact(l, q.tsBegin, q.tsEnd, |l.recent|);
    assert Call(Slot(l, j), l.freq) in calls;
    FrontierAtMost(q, calls, Call(Slot(l, j), l.freq));
  }

  /** The calls of the first block come first; the others are behind it. */
  lemma {:induction false} FirstBlockFirst(levels: seq<SLevel>, q: Query) returns (more: seq<Call>)
    requires levels != [] && AllWf(levels) && q.Valid()
    requires var l := levels[0]; l.SlotTs(|l.recent| - 1) <= q.tsBegin < l.LatestTs()
    ensures SelectedFrom(levels, q.tsBegin, q.tsEnd)
         == SetOverlaps(levels[0], q.tsBegin, q.tsEnd, |levels[0].recent|) + more
  {
    var l := levels[0];
    MulMonotone(|l.recent| - 1, l.count, l.freq);
    assert l.count * l.freq == l.freq * l.count;
    var set' := SetOverlaps(l, q.tsBegin, q.tsEnd, |l.recent|);
    var zeros := Filled(UnsetReported(l, q.tsBegin, q.tsEnd), Call(ZERO_TUPLE, l.freq));
    var rest := SelectedFrom(levels[1..], q.tsBegin, q.tsEnd);
    more := zeros + rest;
    assert (set' + zeros) + rest == set' + more;
  }

  /** The heart of the end-to-end result, for any metric whose first block is faithful. */
  lemma {:induction false} AlignedSelectExact(levels: seq<SLevel>, samples: Samples, q: Query, n: nat, f: Field)
    requires levels != [] && AllWf(levels) && Faithful(levels[0], samples) && AlignedQuery(q, levels[0].freq)
    requires LiveFrom(levels[0], q.tsBegin) && q.tsBegin < levels[0].LatestTs()
    requires GoodCalls(q, SelectedFrom(levels, q.tsBegin, q.tsEnd))
    ensures Get(BucketStats(q, SelectedFrom(levels, q.tsBegin, q.tsEnd), n), f)
         == FieldOf(InPeriod(samples, q.Lo(n), Min(q.Lo(n + 1), q.tsEnd)), f)
  {
    var l, lo, hi := levels[0], q.Lo(n), q.Lo(n + 1);
    LoAligned(q, l.freq, n);
    LoAligned(q, l.freq, n + 1);
    LoNext(q, 0);
    LoMonotone(q, 0, n);
    LoMonotone(q, n, n + 1);
    var more := FirstBlockFirst(levels, q);
    FrontierReachesBegin(q, l);
    SlotsAddUp(q, l, samples, lo, hi, |l.recent|, f);
    NothingMore(q, SetOverlaps(l, q.tsBegin, q.tsEnd, |l.recent|), more, lo, hi);
    SlotTsStep(l, |l.recent| - 1);
  }

  /**
   * End to end: take any run of updates, in any order, and a GROUP BY query whose bounds and
   * bucket width are multiples of the first block's frequency and whose start the first block's
   * live slots reach. Then every bucket has exactly the count, sum and sum of squares of the raw
   * samples whose own timestamps lie in the bucket and in the query: coarser blocks add nothing.
   */
  lemma {:induction false} GroupedSelectExact(periods: seq<Period>, samples: Samples, q: Query, n: nat, f: Field)
    requires ValidPeriods(periods) && NonNegative(samples) && AlignedQuery(q, periods[0].freq)
    ensures GoodCalls(q, SelectedFrom(Stored(periods, samples), q.tsBegin, q.tsEnd))
    ensures LiveFrom(Stored(periods, samples)[0], q.tsBegin) ==>
              Get(BucketStats(q, SelectedFrom(Stored(periods, samples), q.tsBegin, q.tsEnd), n), f)
              == FieldOf(InPeriod(samples, q.Lo(n), Min(q.Lo(n + 1), q.tsEnd)), f)
  {
    var levels := Stored(periods, samples);
    SelectionIsGood(periods, samples, q.tsBegin, q.tsEnd);
    assert GoodCalls(Query(q.tsBegin, q.tsEnd, q.groupBy), SelectedFrom(levels, q.tsBegin, q.tsEnd));
    StoredIsFaithful(periods, samples);
    FirstBlockAligned(periods, samples);
    if levels[0].LatestTs() <= q.tsBegin {
      NothingRecorded(levels, samples, q, n, f);
    } else if LiveFrom(levels[0], q.tsBegin) {
      AlignedSelectExact(levels, samples, q, n, f);
    }
  }

  lemma {:induction false} NothingRecorded(levels: seq<SLevel>, samples: Samples, q: Query, n: nat, f: Field)
    requires levels != [] && AllWf(levels) && q.Valid()
    requires levels[0].LatestTs() <= q.tsBegin
    requires forall i :: 0 <= i < |samples| ==> samples[i].ts < levels[0].LatestTs()
    ensures GoodCalls(q, SelectedFrom(levels, q.tsBegin, q.tsEnd))
    ensures Get(BucketStats(q, SelectedFrom(levels, q.tsBegin, q.tsEnd), n), f)
         == FieldOf(InPeriod(samples, q.Lo(n), Min(q.Lo(n + 1), q.tsEnd)), f)
  {
    LoNext(q, 0);
    LoMonotone(q, 0, n);
    assert SelectedFrom(levels, q.tsBegin, q.tsEnd) == [];
    EmptyPeriod(samples, q.Lo(n), Min(q.Lo(n + 1), q.tsEnd), f);
  }

  // ---------- The rows of an aligned query

  /** The timestamp, count, sum and sum of squares of a row. */
  datatype Moments = Moments(ts: int, count: real, sum: real, sumSqr: real)

  function RowMoments(row: Tuple): Moments {
    Moments(row.ts, row.stats.count, row.stats.sum, row.stats.sumSqr)
  }

  function AllMoments(rows: seq<Tuple>): (m: seq<Moments>)
    ensures |m| == |rows| && forall i :: 0 <= i < |rows| ==> m[i] == RowMoments(rows[i])
  {
    seq(|rows|, i requires 0 <= i < |rows| => RowMoments(rows[i]))
  }

  /** The raw samples of bucket n. */
  function InBucket(q: Query, samples: Samples, n: int): Samples {
    InPeriod(samples, q.Lo(n), Min(q.Lo(n + 1), q.tsEnd))
  }

  /** The rows that the raw samples ask for: one for each bucket from m up that has samples, newest first. */
  function RawRows(q: Query, samples: Samples, m: int): seq<Moments>
    requires q.Valid()
    decreases q.Buckets() - m
  {
    if q.Buckets() <= m then []
    else
      var raw := InBucket(q, samples, m);
      RawRows(q, samples, m + 1) +
      if raw == [] then [] else [Moments(q.Lo(m), |raw| as real, Sum(Values(raw)), SumSqr(Values(raw)))]
  }

  lemma {:induction false} RowsAreRaw(periods: seq<Period>, samples: Samples, q: Query, m: nat)
    requires ValidPeriods(periods) && NonNegative(samples) && AlignedQuery(q, periods[0].freq)
    requires LiveFrom(Stored(periods, samples)[0], q.tsBegin) && m <= q.Buckets()
    ensures GoodCalls(q, SelectedFrom(Stored(periods, samples), q.tsBegin, q.tsEnd))
    ensures AllMoments(RowsDownTo(q, SelectedFrom(Stored(periods, samples), q.tsBegin, q.tsEnd), m))
            == RawRows(q, samples, m)
    decreases q.Buckets() - m
  {
    var calls, raw := SelectedFrom(Stored(periods, samples), q.tsBegin, q.tsEnd), InBucket(q, samples, m);
    GroupedSelectExact(periods, samples, q, m, Count);
    if m < q.Buckets() {
      RowsAreRaw(periods, samples, q, m + 1);
      GroupedSelectExact(periods, samples, q, m, TheSum);
      GroupedSelectExact(periods, samples, q, m, SquareSum);
      assert BucketStats(q, calls, m).count == |raw| as real;
    }
  }

  /**
   * The rows of such a query are those the raw samples ask for: exactly the buckets that contain
   * samples have a row, newest first, with the count, sum and sum of squares of those samples.
   */
  lemma {:induction false} AnswerIsRaw(periods: seq<Period>, samples: Samples, q: Query)
    requires ValidPeriods(periods) && NonNegative(samples) && AlignedQuery(q, periods[0].freq)
    requires LiveFrom(Stored(periods, samples)[0], q.tsBegin)
    ensures GoodCalls(q, SelectedFrom(Stored(periods, samples), q.tsBegin, q.tsEnd))
    ensures AllMoments(Answer(q, SelectedFrom(Stored(periods, samples), q.tsBegin, q.tsEnd))) == RawRows(q, samples, 0)
  {
    TopIsLast(q);
    RowsAreRaw(periods, samples, q, 0);
  }
}
