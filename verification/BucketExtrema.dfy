/** When the minimum and maximum of a GROUP BY row are those of the raw samples of its bucket. */
module BucketExtrema {
  import opened Times
  import opened Tuples
  import opened Rollup
  import opened History
  import opened Summaries
  import opened Blocks
  import opened Metrics
  import opened Walkers
  import opened Rows
  import opened Queries

  lemma {:induction false} PeriodMembers(samples: Samples, lo: int, hi: int)
    ensures forall s :: s in InPeriod(samples, lo, hi) <==> s in samples && Within(s.ts, lo, hi)
  {
    if samples != [] {
      PeriodMembers(samples[..|samples| - 1], lo, hi);
    }
  }

  lemma {:induction false} ValuesMembers(samples: Samples)
    ensures forall v :: v in Values(samples) <==> exists s :: s in samples && s.value == v
  {
    forall v
      ensures v in Values(samples) <==> exists s :: s in samples && s.value == v
    {
      if v in Values(samples) {
        var i :| 0 <= i < |samples| && Values(samples)[i] == v;
        assert samples[i] in samples;
      }
      if s :| s in samples && s.value == v {
        var i :| 0 <= i < |samples| && samples[i] == s;
        assert Values(samples)[i] == v;
      }
    }
  }

  /** The values recorded in [lo, hi). */
  ghost predicate Recorded(samples: Samples, lo: int, hi: int, v: real) {
    exists s :: s in samples && Within(s.ts, lo, hi) && s.value == v
  }

  lemma {:induction false} ValuesRecorded(samples: Samples, lo: int, hi: int)
    ensures forall v :: v in Values(InPeriod(samples, lo, hi)) <==> Recorded(samples, lo, hi, v)
    ensures InPeriod(samples, lo, hi) == [] <==> Values(InPeriod(samples, lo, hi)) == []
  {
    PeriodMembers(samples, lo, hi);
    ValuesMembers(InPeriod(samples, lo, hi));
  }

  lemma {:induction false} RecordedSplits(samples: Samples, lo: int, mid: int, hi: int, v: real)
    requires lo <= mid <= hi
    ensures Recorded(samples, lo, hi, v) <==> Recorded(samples, lo, mid, v) || Recorded(samples, mid, hi, v)
  {
    if s :| s in samples && Within(s.ts, lo, hi) && s.value == v {
      assert Within(s.ts, lo, mid) || Within(s.ts, mid, hi);
    }
  }

  // ---------- Slots of a bucket

  /** Slot i lies in the period. */
  predicate SlotIn(l: SLevel, lo: int, hi: int, i: nat) { lo <= l.SlotTs(i) < hi }

  /** One of the n newest slots in the period has data. */
  ghost predicate DataIn(l: SLevel, lo: int, hi: int, n: nat)
    requires n <= |l.recent|
  {
    exists a: nat :: a < n && SlotIn(l, lo, hi, a) && l.recent[a].count > 0.0
  }

  /** Among the n newest slots in the period one without data is older than one with data. */
  ghost predicate EmptyBelowData(l: SLevel, lo: int, hi: int, n: nat)
    requires n <= |l.recent|
  {
    exists b: nat :: b < n && SlotIn(l, lo, hi, b) && l.recent[b].count == 0.0 && DataIn(l, lo, hi, b)
  }

  lemma {:induction false} DataNext(l: SLevel, lo: int, hi: int, n: nat)
    requires n < |l.recent|
    ensures DataIn(l, lo, hi, n + 1) <==> DataIn(l, lo, hi, n) || (SlotIn(l, lo, hi, n) && l.recent[n].count > 0.0)
    ensures EmptyBelowData(l, lo, hi, n + 1) <==>
            EmptyBelowData(l, lo, hi, n) || (SlotIn(l, lo, hi, n) && l.recent[n].count == 0.0 && DataIn(l, lo, hi, n))
  {
  }

  lemma {:induction false} EmptyNeedsData(l: SLevel, lo: int, hi: int, n: nat)
    requires n <= |l.recent| && EmptyBelowData(l, lo, hi, n)
    ensures DataIn(l, lo, hi, n)
  {
  }

  /** Going one slot further back adds the values of that slot, if it is in the period. */
  lemma {:induction false} SeenValues(q: Query, l: SLevel, samples: Samples, lo: int, hi: int, j: nat, v: real)
    requires l.Wf() && AlignedQuery(q, l.freq) && Divides(l.freq, l.posTs)
    requires Divides(l.freq, lo) && Divides(l.freq, hi)
    ensures v in Values(Seen(q, l, samples, lo, hi, j + 1)) <==>
            v in Values(Seen(q, l, samples, lo, hi, j))
            || (SlotIn(l, lo, Min(hi, q.tsEnd), j) && v in Values(InPeriod(samples, l.SlotTs(j), l.SlotTs(j) + l.freq)))
  {
    var a, top := l.SlotTs(j), Min(hi, q.tsEnd);
    SlotTsStep(l, j);
    SlotAligned(l, j);
    ValuesRecorded(samples, Max(lo, a), top);
    ValuesRecorded(samples, Max(lo, a + l.freq), top);
    ValuesRecorded(samples, a, a + l.freq);
    if a < lo {
      MultiplesApart(l.freq, a, lo);
    } else if a < top {
      MultiplesApart(l.freq, a, top);
      RecordedSplits(samples, a, a + l.freq, top, v);
    }
  }

  lemma {:induction false} SeenInside(q: Query, l: SLevel, samples: Samples, lo: int, hi: int, j: nat)
    requires l.Wf() && AlignedQuery(q, l.freq) && Divides(l.freq, l.posTs)
    requires Divides(l.freq, lo) && Divides(l.freq, hi) && SlotIn(l, lo, Min(hi, q.tsEnd), j)
    ensures var slot := Values(InPeriod(samples, l.SlotTs(j), l.SlotTs(j) + l.freq));
            forall v :: v in Values(Seen(q, l, samples, lo, hi, j + 1)) <==>
                v in Values(Seen(q, l, samples, lo, hi, j)) || v in slot
  {
    var slot := Values(InPeriod(samples, l.SlotTs(j), l.SlotTs(j) + l.freq));
    forall v
      ensures v in Values(Seen(q, l, samples, lo, hi, j + 1)) <==>
              v in Values(Seen(q, l, samples, lo, hi, j)) || v in slot
    {
      SeenValues(q, l, samples, lo, hi, j, v);
    }
  }

  lemma {:induction false} SeenOutside(q: Query, l: SLevel, samples: Samples, lo: int, hi: int, j: nat)
    requires l.Wf() && AlignedQuery(q, l.freq) && Divides(l.freq, l.posTs)
    requires Divides(l.freq, lo) && Divides(l.freq, hi) && !SlotIn(l, lo, Min(hi, q.tsEnd), j)
    ensures forall v :: v in Values(Seen(q, l, samples, lo, hi, j + 1)) <==> v in Values(Seen(q, l, samples, lo, hi, j))
  {
    forall v
      ensures v in Values(Seen(q, l, samples, lo, hi, j + 1)) <==> v in Values(Seen(q, l, samples, lo, hi, j))
    {
      SeenValues(q, l, samples, lo, hi, j, v);
    }
  }

  // ---------- The extremes a walker sees

  lemma {:induction false} ExtremesSnoc(q: Query, calls: seq<Call>, c: Call, lo: int, hi: int)
    requires q.Valid() && GoodCalls(q, calls) && GoodCall(q, c)
    ensures GoodCalls(q, calls + [c])
    ensures var e := ExactExtremes(q, calls, lo, hi);
            ExactExtremes(q, calls + [c], lo, hi) == if Piece(c, Frontier(q, calls), lo, hi) == 0 then e
                else Extended(e, c.tuple.stats)
  {
  }

  /** e has the extremes of the values, and says whether an empty slot came after data. */
  ghost predicate Exactly(e: Extremes, values: seq<real>, data: bool, emptyBelow: bool) {
    && (e.Nothing? <==> values == []) && (e.Extremes? <==> data)
    && (e.Extremes? ==> IsMin(values, e.min) && IsMax(values, e.max) && (e.emptyAfter <==> emptyBelow))
  }

  /** What one more slot in the bucket does. */
  lemma {:induction false} ExactlyNext(e: Extremes, s: Stats, before: seq<real>, slot: seq<real>, after: seq<real>,
                                       data: bool, empty: bool)
    requires Exactly(e, before, data, empty) && Summarizes(s, slot) && (empty ==> data)
    requires forall v :: v in after <==> v in before || v in slot
    ensures Exactly(Extended(e, s), after, data || s.count > 0.0, empty || (s.count == 0.0 && data))
  {
    SameMembers(before + slot, after);
    assert slot == [] ==> before + slot == before;
  }

  ghost predicate Tracked(q: Query, l: SLevel, samples: Samples, lo: int, hi: int, j: nat)
    requires l.Wf() && q.Valid() && j <= |l.recent|
  {
    && GoodCalls(q, SetOverlaps(l, q.tsBegin, q.tsEnd, j))
    && Exactly(ExactExtremes(q, SetOverlaps(l, q.tsBegin, q.tsEnd, j), lo, hi), Values(Seen(q, l, samples, lo, hi, j)),
               DataIn(l, lo, Min(hi, q.tsEnd), j), EmptyBelowData(l, lo, Min(hi, q.tsEnd), j))
  }

  /** Is the slot handed over, and does it count for the bucket? */
  lemma {:induction false} SlotCounts(q: Query, l: SLevel, lo: int, hi: int, j: nat)
    requires l.Wf() && Divides(l.freq, l.posTs) && AlignedQuery(q, l.freq) && j < |l.recent|
    requires q.tsBegin <= lo <= hi && Divides(l.freq, lo) && Divides(l.freq, hi)
    ensures SlotIn(l, lo, Min(hi, q.tsEnd), j) ==> Overlaps(l, j, q.tsBegin, q.tsEnd)
    ensures Overlaps(l, j, q.tsBegin, q.tsEnd) ==>
              && GoodCall(q, Call(Slot(l, j), l.freq))
              && Piece(Call(Slot(l, j), l.freq), Frontier(q, SetOverlaps(l, q.tsBegin, q.tsEnd, j)), lo, hi)
                 == if SlotIn(l, lo, Min(hi, q.tsEnd), j) then l.freq else 0
  {
    SlotAligned(l, j);
    if Overlaps(l, j, q.tsBegin, q.tsEnd) {
      FrontierAboveSlot(q, l, j);
      AlignedPiece(Call(Slot(l, j), l.freq), Frontier(q, SetOverlaps(l, q.tsBegin, q.tsEnd, j)), lo, hi);
    }
  }

  /** What slot j does to the extremes that the walker sees. */
  lemma {:induction false} SlotExtends(q: Query, l: SLevel, lo: int, hi: int, j: nat)
    requires l.Wf() && Divides(l.freq, l.posTs) && AlignedQuery(q, l.freq) && j < |l.recent|
    requires q.tsBegin <= lo <= hi && Divides(l.freq, lo) && Divides(l.freq, hi)
    requires GoodCalls(q, SetOverlaps(l, q.tsBegin, q.tsEnd, j))
    ensures GoodCalls(q, SetOverlaps(l, q.tsBegin, q.tsEnd, j + 1))
    ensures var e := ExactExtremes(q, SetOverlaps(l, q.tsBegin, q.tsEnd, j), lo, hi);
            ExactExtremes(q, SetOverlaps(l, q.tsBegin, q.tsEnd, j + 1), lo, hi)
            == if SlotIn(l, lo, Min(hi, q.tsEnd), j) then Extended(e, l.recent[j]) else e
  {
    var before := SetOverlaps(l, q.tsBegin, q.tsEnd, j);
    SlotCounts(q, l, lo, hi, j);
    if Overlaps(l, j, q.tsBegin, q.tsEnd) {
      ExtremesSnoc(q, before, Call(Slot(l, j), l.freq), lo, hi);
    } else {
      assert before + [] == before;
    }
  }

  lemma {:induction false} TrackedInside(q: Query, l: SLevel, samples: Samples, lo: int, hi: int, j: nat)
    requires Faithful(l, samples) && AlignedQuery(q, l.freq) && j < |l.recent|
    requires q.tsBegin <= lo <= hi && Divides(l.freq, lo) && Divides(l.freq, hi)
    requires Tracked(q, l, samples, lo, hi, j) && SlotIn(l, lo, Min(hi, q.tsEnd), j)
    ensures Tracked(q, l, samples, lo, hi, j + 1)
  {
    var e, top := ExactExtremes(q, SetOverlaps(l, q.tsBegin, q.tsEnd, j), lo, hi), Min(hi, q.tsEnd);
    var data, empty := DataIn(l, lo, top, j), EmptyBelowData(l, lo, top, j);
    SlotExtends(q, l, lo, hi, j);
    DataNext(l, lo, top, j);
    if empty {
      EmptyNeedsData(l, lo, top, j);
    }
    ExactlyInside(q, l, samples, lo, hi, j, e, data, empty);
  }

  lemma {:induction false} ExactlyInside(q: Query, l: SLevel, samples: Samples, lo: int, hi: int, j: nat, e: Extremes,
                                         data: bool, empty: bool)
    requires Faithful(l, samples) && AlignedQuery(q, l.freq) && j < |l.recent|
    requires Divides(l.freq, lo) && Divides(l.freq, hi) && SlotIn(l, lo, Min(hi, q.tsEnd), j)
    requires Exactly(e, Values(Seen(q, l, samples, lo, hi, j)), data, empty) && (empty ==> data)
    ensures Exactly(Extended(e, l.recent[j]), Values(Seen(q, l, samples, lo, hi, j + 1)),
                    data || l.recent[j].count > 0.0, empty || (l.recent[j].count == 0.0 && data))
  {
    var slot := Values(InPeriod(samples, l.SlotTs(j), l.SlotTs(j) + l.freq));
    assert SlotFaithful(l, samples, j);
    assert Summarizes(l.recent[j], slot);
    SeenInside(q, l, samples, lo, hi, j);
    ExactlyNext(e, l.recent[j], Values(Seen(q, l, samples, lo, hi, j)), slot,
                Values(Seen(q, l, samples, lo, hi, j + 1)), data, empty);
  }

  lemma {:induction false} TrackedOutside(q: Query, l: SLevel, samples: Samples, lo: int, hi: int, j: nat)
    requires Faithful(l, samples) && AlignedQuery(q, l.freq) && j < |l.recent|
    requires q.tsBegin <= lo <= hi && Divides(l.freq, lo) && Divides(l.freq, hi)
    requires Tracked(q, l, samples, lo, hi, j) && !SlotIn(l, lo, Min(hi, q.tsEnd), j)
    ensures Tracked(q, l, samples, lo, hi, j + 1)
  {
    SlotExtends(q, l, lo, hi, j);
    DataNext(l, lo, Min(hi, q.tsEnd), j);
    SeenOutside(q, l, samples, lo, hi, j);
    SameMembers(Values(Seen(q, l, samples, lo, hi, j)), Values(Seen(q, l, samples, lo, hi, j + 1)));
  }

  lemma {:induction false} TrackedNext(q: Query, l: SLevel, samples: Samples, lo: int, hi: int, j: nat)
    requires Faithful(l, samples) && AlignedQuery(q, l.freq) && j < |l.recent|
    requires q.tsBegin <= lo <= hi && Divides(l.freq, lo) && Divides(l.freq, hi)
    requires Tracked(q, l, samples, lo, hi, j)
    ensures Tracked(q, l, samples, lo, hi, j + 1)
  {
    if SlotIn(l, lo, Min(hi, q.tsEnd), j) {
      TrackedInside(q, l, samples, lo, hi, j);
    } else {
      TrackedOutside(q, l, samples, lo, hi, j);
    }
  }

  lemma {:induction false} SameMembers(a: seq<real>, b: seq<real>)
    requires forall v :: v in a <==> v in b
    ensures a == [] <==> b == []
    ensures forall m :: (IsMin(a, m) <==> IsMin(b, m)) && (IsMax(a, m) <==> IsMax(b, m))
  {
    if |a| > 0 {
      var v := a[0];
      assert v in a;
    }
    if |b| > 0 {
      var v := b[0];
      assert v in b;
    }
  }

  lemma {:induction false} AllTracked(q: Query, l: SLevel, samples: Samples, lo: int, hi: int, j: nat)
    requires Faithful(l, samples) && AlignedQuery(q, l.freq) && j <= |l.recent|
    requires q.tsBegin <= lo <= hi && Divides(l.freq, lo) && Divides(l.freq, hi)
    ensures Tracked(q, l, samples, lo, hi, j)
  {
    if j == 0 {
      NoSlotsYet(q, l, samples, lo, hi, Count);
    } else {
      AllTracked(q, l, samples, lo, hi, j - 1);
      TrackedNext(q, l, samples, lo, hi, j - 1);
    }
  }

  /** Once the frontier is at the start of the query, further calls are not merged. */
  lemma {:induction false} NoneMerged(q: Query, calls: seq<Call>, more: seq<Call>, lo: int, hi: int)
    requires q.Valid() && GoodCalls(q, calls) && GoodCalls(q, calls + more) && Frontier(q, calls) == q.tsBegin <= lo
    ensures ExactExtremes(q, calls + more, lo, hi) == ExactExtremes(q, calls, lo, hi)
    decreases |more|
  {
    if more == [] {
      assert calls + more == calls;
    } else {
      var m, c := more[..|more| - 1], more[|more| - 1];
      assert calls + more == (calls + m) + [c];
      assert forall i :: 0 <= i < |calls + m| ==> (calls + m)[i] == (calls + more)[i];
      NoneMerged(q, calls, m, lo, hi);
      assert (calls + more)[|calls + m|] == c;
      NothingMore(q, calls, m, lo, hi);
      ExtremesSnoc(q, calls + m, c, lo, hi);
    }
  }

  /** The values lie on both sides of 0, or one of them is 0. */
  ghost predicate AroundZero(values: seq<real>) {
    exists u, v :: u in values && v in values && u <= 0.0 <= v
  }

  lemma {:induction false} BucketExtremes(levels: seq<SLevel>, samples: Samples, q: Query, n: nat)
    requires levels != [] && AllWf(levels) && Faithful(levels[0], samples) && AlignedQuery(q, levels[0].freq)
    requires LiveFrom(levels[0], q.tsBegin) && q.tsBegin < levels[0].LatestTs()
    requires GoodCalls(q, SelectedFrom(levels, q.tsBegin, q.tsEnd))
    ensures var l := levels[0];
            Exactly(ExactExtremes(q, SelectedFrom(levels, q.tsBegin, q.tsEnd), q.Lo(n), q.Lo(n + 1)),
                    Values(InBucket(q, samples, n)),
                    DataIn(l, q.Lo(n), Min(q.Lo(n + 1), q.tsEnd), |l.recent|),
                    EmptyBelowData(l, q.Lo(n), Min(q.Lo(n + 1), q.tsEnd), |l.recent|))
  {
    var l, lo, hi := levels[0], q.Lo(n), q.Lo(n + 1);
    LoAligned(q, l.freq, n);
    LoAligned(q, l.freq, n + 1);
    LoNext(q, 0);
    LoMonotone(q, 0, n);
    LoMonotone(q, n, n + 1);
    var more := FirstBlockFirst(levels, q);
    FrontierReachesBegin(q, l);
    AllTracked(q, l, samples, lo, hi, |l.recent|);
    NoneMerged(q, SetOverlaps(l, q.tsBegin, q.tsEnd, |l.recent|), more, lo, hi);
    SlotTsStep(l, |l.recent| - 1);
  }

  /**
   * End to end: after any run of updates, a row of an aligned GROUP BY query that starts in the live
   * slots of the first block shows the minimum and maximum of the raw samples of its bucket if and only
   * if no set slot of the bucket without data is older than one with data, or the samples' values are
   * not all on one side of 0.
   */
  lemma {:induction false} RowExtremesOfSamples(periods: seq<Period>, samples: Samples, q: Query, n: nat)
    requires ValidPeriods(periods) && NonNegative(samples) && AlignedQuery(q, periods[0].freq)
    requires LiveFrom(Stored(periods, samples)[0], q.tsBegin) && InBucket(q, samples, n) != []
    ensures GoodCalls(q, SelectedFrom(Stored(periods, samples), q.tsBegin, q.tsEnd))
    ensures var l, values := Stored(periods, samples)[0], Values(InBucket(q, samples, n));
            var row := BucketStats(q, SelectedFrom(Stored(periods, samples), q.tsBegin, q.tsEnd), n);
            IsMin(values, row.min) && IsMax(values, row.max)
            <==> !EmptyBelowData(l, q.Lo(n), Min(q.Lo(n + 1), q.tsEnd), |l.recent|) || AroundZero(values)
  {
    var levels := Stored(periods, samples);
    var values, calls := Values(InBucket(q, samples, n)), SelectedFrom(levels, q.tsBegin, q.tsEnd);
    SelectionIsGood(periods, samples, q.tsBegin, q.tsEnd);
    assert GoodCalls(Query(q.tsBegin, q.tsEnd, q.groupBy), calls);
    StoredIsFaithful(periods, samples);
    FirstBlockAligned(periods, samples);
    SamplesAreBefore(q, levels[0], samples, n);
    BucketExtremes(levels, samples, q, n);
    RowExtremesExact(q, calls, q.Lo(n), q.Lo(n + 1));
  }

  lemma {:induction false} SamplesAreBefore(q: Query, l: SLevel, samples: Samples, n: nat)
    requires q.Valid() && Faithful(l, samples) && InBucket(q, samples, n) != []
    ensures q.tsBegin < l.LatestTs()
  {
    LoNext(q, 0);
    LoMonotone(q, 0, n);
    var s := InBucket(q, samples, n)[0];
    PeriodMembers(samples, q.Lo(n), Min(q.Lo(n + 1), q.tsEnd));
    assert s in InBucket(q, samples, n);
  }
}
