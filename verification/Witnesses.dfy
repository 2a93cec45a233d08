/** Short runs from new metrics that reach the states in which the engine falls short of its promises. */
module Witnesses {
  import opened Options
  import opened Sequences
  import opened Tuples
  import opened Rollup
  import opened History
  import opened Summaries
  import opened Blocks
  import opened Metrics
  import opened Walkers
  import opened Rows
  import opened Files
  import opened Caching
  import opened CachedMetrics
  import opened ReadBacks
  import opened Queries
  import Disk
  import Statements

  /** A block that has not been flushed yet. */
  function Unsaved(l: SLevel, pos: nat, last: bool): Store
    requires l.Wf()
  {
    Store(l.posTs, pos, 0, last, [l], Some(0), None, Empty(l.freq, l.count, ZERO))
  }

  lemma {:induction false} UnsavedStep(l: SLevel, pos: nat, last: bool, c: Ctx, t: SLevel)
    requires l.Wf() && pos < l.count && !c.Stop? && t == Step(l, ToOffer(c), STATS)
    ensures Ready(Unsaved(l, pos, last))
    ensures Do(Unsaved(l, pos, last), Caching.Update(c))
            == (Unsaved(t, PosAfter(l, pos, c.Ts()), last), Told(OutCtx(l, c)))
  {
    assert [l][0 := t] == [t];
  }

  lemma {:induction false} FirstInSlot(value: real)
    ensures Merge(ZERO, Single(value)) == Single(value) && Merge(ZERO, ZERO) == ZERO
  {
  }

  // ---------- An eviction changes an answer

  const TWO_BLOCKS := [Period(1, 2), Period(2, 10)]

  const TAIL := [ZERO, ZERO, ZERO, ZERO, ZERO]

  function LateRun(u: real, v: real, w: real): seq<MetricAction> {
    [Record(Sample(10, u)), Record(Sample(12, v)), At(0, Flush), Record(Sample(10, w)), At(0, Evict)]
  }

  /** The first block at timestamp 12, before and after its older slot is stamped. */
  function Fine(v: real): SLevel { Level(1, 2, 12, [Single(v)]) }
  function Stamped(v: real): SLevel { Level(1, 2, 12, [Single(v), ZERO]) }

  /** The second block with the aggregate in its current slot. */
  function Coarse(s: Stats): SLevel { Level(2, 10, 10, [s] + TAIL) }
  function Both(u: real, w: real): Stats { Merge(Single(u), Single(w)) }

  /** The first block after the flush, after the last sample, and after the eviction. */
  function Saved(v: real): Store { Store(12, 0, 0, false, [Fine(v)], None, None, Fine(v)) }
  function Kept(v: real): Store { Store(12, 0, 0, false, [Fine(v), Stamped(v)], None, Some(1), Fine(v)) }
  function Evicted(v: real): Store { Store(12, 0, 0, false, [Fine(v), Stamped(v)], None, None, Fine(v)) }

  function NewOne(): Store { Unsaved(Empty(1, 2, ZERO), 0, false) }
  function NewTwo(): Store { Unsaved(Empty(2, 10, ZERO), 0, true) }
  function First(u: real): Store { Unsaved(Level(1, 2, 10, [Single(u)]), 0, false) }
  function Second(s: Stats): Store { Unsaved(Coarse(s), 5, true) }

  /** One sample goes to both blocks. */
  lemma {:induction false} RecordBoth(a: Store, b: Store, c: Ctx, a': Store, d: Ctx, b': Store, e: Ctx)
    requires Ready(a) && Ready(b) && !c.Stop? && !d.Stop?
    requires Do(a, Caching.Update(c)) == (a', Told(d)) && Do(b, Caching.Update(d)) == (b', Told(e))
    ensures UpdateStores([a, b], c) == [a', b']
  {
    assert [a, b][1..] == [b] && [b][1..] == [];
    assert UpdateStores([], e) == [];
    assert UpdateStores([b], d) == [b'] + UpdateStores([], e);
    assert UpdateStores([a, b], c) == [a'] + UpdateStores([b], d);
  }

  ghost predicate Goes(stores: seq<Store>, action: MetricAction, next: seq<Store>) {
    StoresStep(TWO_BLOCKS, stores, action) == next
  }

  lemma {:induction false} FirstGoes(u: real)
    ensures Goes([NewOne(), NewTwo()], Record(Sample(10, u)), [First(u), NewTwo()])
  {
    var c, d := Value(10, u), Rolled(Tuple(0, ZERO));
    FirstInSlot(u);
    UnsavedStep(Empty(1, 2, ZERO), 0, false, c, Level(1, 2, 10, [Single(u)]));
    UnsavedStep(Empty(2, 10, ZERO), 0, true, d, Empty(2, 10, ZERO));
    RecordBoth(NewOne(), NewTwo(), c, First(u), d, NewTwo(), Stop);
  }

  /** The first block shifts completely and hands the first sample on. */
  lemma {:induction false} SecondSteps(u: real, v: real)
    ensures Step(Level(1, 2, 10, [Single(u)]), ToOffer(Value(12, v)), STATS) == Fine(v)
    ensures OutCtx(Level(1, 2, 10, [Single(u)]), Value(12, v)) == Rolled(Tuple(10, Single(u)))
    ensures PosAfter(Level(1, 2, 10, [Single(u)]), 0, 12) == 0
    ensures Step(Empty(2, 10, ZERO), ToOffer(Rolled(Tuple(10, Single(u)))), STATS) == Coarse(Single(u))
    ensures OutCtx(Empty(2, 10, ZERO), Rolled(Tuple(10, Single(u)))) == Rolled(Tuple(0, ZERO))
    ensures PosAfter(Empty(2, 10, ZERO), 0, 10) == 5
  {
    FirstInSlot(u);
    FirstInSlot(v);
    var l := Empty(2, 10, ZERO);
    assert Locate(l, 10) == Forward(5);
    assert Take(Filled(5, ZERO) + [ZERO], 10) == [ZERO] + TAIL;
    assert ([ZERO] + TAIL)[0 := Single(u)] == [Single(u)] + TAIL;
  }

  lemma {:induction false} SecondGoes(u: real, v: real)
    ensures Goes([First(u), NewTwo()], Record(Sample(12, v)), [Unsaved(Fine(v), 0, false), Second(Single(u))])
  {
    var c, d := Value(12, v), Rolled(Tuple(10, Single(u)));
    SecondSteps(u, v);
    UnsavedStep(Level(1, 2, 10, [Single(u)]), 0, false, c, Fine(v));
    UnsavedStep(Empty(2, 10, ZERO), 0, true, d, Coarse(Single(u)));
    RecordBoth(First(u), NewTwo(), c, Unsaved(Fine(v), 0, false), d, Second(Single(u)), Rolled(Tuple(0, ZERO)));
  }

  lemma {:induction false} FlushGoes(v: real, b: Store)
    ensures Goes([Unsaved(Fine(v), 0, false), b], At(0, Flush), [Saved(v), b])
  {
  }

  /**
   * The last sample is too old for the first block, which stamps a slot, and lies in the current slot of the
   * second.
   */
  lemma {:induction false} LateSteps(u: real, v: real, w: real)
    ensures Step(Fine(v), ToOffer(Value(10, w)), STATS) == Stamped(v) && OutCtx(Fine(v), Value(10, w)) == Value(10, w)
    ensures Locate(Fine(v), 10) == Missed
    ensures Step(Coarse(Single(u)), ToOffer(Value(10, w)), STATS) == Coarse(Both(u, w))
    ensures OutCtx(Coarse(Single(u)), Value(10, w)) == Stop && PosAfter(Coarse(Single(u)), 5, 10) == 5
  {
    assert Pad([Single(v)], 2, ZERO) == [Single(v), ZERO];
    assert ([Single(u)] + TAIL)[0 := Both(u, w)] == [Both(u, w)] + TAIL;
  }

  lemma {:induction false} LateFine(v: real, w: real)
    ensures Ready(Saved(v)) && Do(Saved(v), Caching.Update(Value(10, w))) == (Kept(v), Told(Value(10, w)))
  {
    LateSteps(w, v, w);
    assert [Fine(v)] + [Fine(v)] == [Fine(v), Fine(v)];
    assert [Fine(v), Fine(v)][1 := Stamped(v)] == [Fine(v), Stamped(v)];
  }

  lemma {:induction false} LateGoes(u: real, v: real, w: real)
    ensures Goes([Saved(v), Second(Single(u))], Record(Sample(10, w)), [Kept(v), Second(Both(u, w))])
  {
    var c := Value(10, w);
    LateFine(v, w);
    LateSteps(u, v, w);
    UnsavedStep(Coarse(Single(u)), 5, true, c, Coarse(Both(u, w)));
    RecordBoth(Saved(v), Second(Single(u)), c, Kept(v), c, Second(Both(u, w)), Stop);
  }

  lemma {:induction false} EvictGoes(v: real, b: Store)
    ensures Goes([Kept(v), b], At(0, Evict), [Evicted(v), b])
  {
  }

  ghost predicate Reaches(run: seq<MetricAction>, n: nat, stores: seq<Store>)
    requires n <= |run|
  {
    StoresAfter(TWO_BLOCKS, run, n) == stores
  }

  lemma {:induction false} ReachesNext(run: seq<MetricAction>, n: nat, stores: seq<Store>, action: MetricAction,
                                       next: seq<Store>)
    requires n < |run| && run[n] == action && Reaches(run, n, stores) && Goes(stores, action, next)
    ensures Reaches(run, n + 1, next)
  {
  }

  lemma {:induction false} LateStart(u: real, v: real, w: real)
    ensures Reaches(LateRun(u, v, w), 0, [NewOne(), NewTwo()])
  {
  }

  lemma {:induction false} LateState1(u: real, v: real, w: real)
    ensures Reaches(LateRun(u, v, w), 1, [First(u), NewTwo()])
  {
    LateStart(u, v, w);
    FirstGoes(u);
    ReachesNext(LateRun(u, v, w), 0, [NewOne(), NewTwo()], Record(Sample(10, u)), [First(u), NewTwo()]);
  }

  lemma {:induction false} LateState2(u: real, v: real, w: real)
    ensures Reaches(LateRun(u, v, w), 2, [Unsaved(Fine(v), 0, false), Second(Single(u))])
  {
    LateState1(u, v, w);
    SecondGoes(u, v);
    ReachesNext(LateRun(u, v, w), 1, [First(u), NewTwo()], Record(Sample(12, v)),
                [Unsaved(Fine(v), 0, false), Second(Single(u))]);
  }

  lemma {:induction false} LateState3(u: real, v: real, w: real)
    ensures Reaches(LateRun(u, v, w), 3, [Saved(v), Second(Single(u))])
  {
    LateState2(u, v, w);
    FlushGoes(v, Second(Single(u)));
    ReachesNext(LateRun(u, v, w), 2, [Unsaved(Fine(v), 0, false), Second(Single(u))], At(0, Flush),
                [Saved(v), Second(Single(u))]);
  }

  lemma {:induction false} LateState4(u: real, v: real, w: real)
    ensures Reaches(LateRun(u, v, w), 4, [Kept(v), Second(Both(u, w))])
  {
    LateState3(u, v, w);
    LateGoes(u, v, w);
    ReachesNext(LateRun(u, v, w), 3, [Saved(v), Second(Single(u))], Record(Sample(10, w)),
                [Kept(v), Second(Both(u, w))]);
  }

  lemma {:induction false} LateState5(u: real, v: real, w: real)
    ensures Reaches(LateRun(u, v, w), 5, [Evicted(v), Second(Both(u, w))])
  {
    LateState4(u, v, w);
    EvictGoes(v, Second(Both(u, w)));
    ReachesNext(LateRun(u, v, w), 4, [Kept(v), Second(Both(u, w))], At(0, Evict), [Evicted(v), Second(Both(u, w))]);
  }

  lemma {:induction false} LateRunGood(u: real, v: real, w: real)
    ensures GoodRun(TWO_BLOCKS, LateRun(u, v, w))
  {
    LateState2(u, v, w);
  }

  lemma {:induction false} TwoParts(a: Store, b: Store, ts1: int, ts2: int)
    requires Ready(a) && Ready(b) && Part(Contents(a), ts1, ts2).1 && Part(Contents(b), ts1, ts2).1
    ensures AllReady([a, b])
    ensures SelectedFromStores([a, b], ts1, ts2) == Part(Contents(a), ts1, ts2).0 + Part(Contents(b), ts1, ts2).0
  {
    assert [a, b][1..] == [b] && [b][1..] == [];
    assert SelectedFromStores([], ts1, ts2) == [];
  }

  lemma {:induction false} StampedPart(l: SLevel, v: real, n: nat)
    requires l == Stamped(v) && n == |l.recent|
    ensures Part(l, 10, 14) == ([Call(Tuple(12, Single(v)), 1), Call(Tuple(11, ZERO), 1)], true)
  {
    assert l.SlotTs(0) == 12 && l.SlotTs(1) == 11;
    assert SetOverlaps(l, 10, 14, n - 1) == [Call(Slot(l, 0), 1)];
    assert Part(l, 10, 14).0 == SetOverlaps(l, 10, 14, n) == [Call(Tuple(12, Single(v)), 1), Call(Tuple(11, ZERO), 1)];
  }

  lemma {:induction false} FinePart(l: SLevel, v: real, n: nat)
    requires l == Fine(v) && n == |l.recent|
    ensures Part(l, 10, 14) == ([Call(Tuple(12, Single(v)), 1)], true)
  {
    assert l.SlotTs(0) == 12;
    assert SetOverlaps(l, 10, 14, n) == [Call(Slot(l, n - 1), 1)];
    SelectedExact(l, 10, 14);
  }

  lemma {:induction false} CoarsePart(l: SLevel, s: Stats, n: nat)
    requires l == Coarse(s) && n == |l.recent|
    ensures Part(l, 10, 14) == ([Call(Tuple(10, s), 2)], true)
  {
    NothingEarlier(l, 10, 14, 1, n);
    assert SetOverlaps(l, 10, 14, 1) == [Call(Tuple(10, s), 2)];
    SelectedExact(l, 10, 14);
  }

  lemma {:induction false} LateSelections(v: real, s: Stats)
    ensures var stores := [Kept(v), Second(s)];
            && AllReady(stores)
            && SelectedFromStores(stores, 10, 14) == [Call(Tuple(12, Single(v)), 1), Call(Tuple(11, ZERO), 1),
                                                      Call(Tuple(10, s), 2)]
    ensures var stores := [Evicted(v), Second(s)];
            AllReady(stores) && SelectedFromStores(stores, 10, 14)
                == [Call(Tuple(12, Single(v)), 1), Call(Tuple(10, s), 2)]
  {
    StampedPart(Stamped(v), v, 2);
    FinePart(Fine(v), v, 1);
    CoarsePart(Coarse(s), s, 6);
    TwoParts(Kept(v), Second(s), 10, 14);
    TwoParts(Evicted(v), Second(s), 10, 14);
  }

  lemma {:induction false} LateFirst(q: Query, v: real, a: Call)
    requires q == Walkers.Query.Query(10, 14, 2) && a == Call(Tuple(12, Single(v)), 1)
    ensures q.Valid() && GoodCalls(q, [a]) && RowStats(q, [a], 10, 12) == ZERO && Frontier(q, [a]) == 12
  {
    assert [] + [a] == [a];
    assert RowStats(q, [], 10, 12) == ZERO && Frontier(q, []) == 14;
    AddedPiece(q, [], a, 10, 12, 0);
    FrontierSnoc(q, [], a);
  }

  /** The empty slot hides the newer half of the coarse one. */
  lemma {:induction false} LateHidden(q: Query, v: real, s: Stats, a: Call, b: Call, c: Call)
    requires q == Walkers.Query.Query(10, 14, 2)
    requires a == Call(Tuple(12, Single(v)), 1) && b == Call(Tuple(11, ZERO), 1) && c == Call(Tuple(10, s), 2)
    ensures q.Valid() && GoodCalls(q, [a, b, c]) && RowStats(q, [a, b, c], 10, 12) == MergeScaled(ZERO, s, 0.5)
  {
    assert [a] + [b] == [a, b] && [a, b] + [c] == [a, b, c];
    LateFirst(q, v, a);
    AddedPiece(q, [a], b, 10, 12, 1);
    FrontierSnoc(q, [a], b);
    AddedPiece(q, [a, b], c, 10, 12, 1);
  }

  lemma {:induction false} LateWhole(q: Query, v: real, s: Stats, a: Call, c: Call)
    requires q == Walkers.Query.Query(10, 14, 2) && a == Call(Tuple(12, Single(v)), 1) && c == Call(Tuple(10, s), 2)
    ensures q.Valid() && GoodCalls(q, [a, c]) && RowStats(q, [a, c], 10, 12) == Merge(ZERO, s)
  {
    assert [a] + [c] == [a, c];
    LateFirst(q, v, a);
    AddedPiece(q, [a], c, 10, 12, 2);
  }

  lemma {:induction false} OldestBucket(q: Query, calls: seq<Call>)
    requires q.Valid() && GoodCalls(q, calls)
    ensures BucketStats(q, calls, 0) == RowStats(q, calls, q.tsBegin, q.tsBegin + q.groupBy) && q.Lo(0) == q.tsBegin
  {
  }

  /** What SELECT with GROUP BY has for the oldest bucket. */
  ghost predicate RowIs(stores: seq<Store>, q: Query, row: Stats) {
    && q.Valid() && AllReady(stores) && GoodCalls(q, SelectedFromStores(stores, q.tsBegin, q.tsEnd))
    && RowStats(q, SelectedFromStores(stores, q.tsBegin, q.tsEnd), q.tsBegin, q.tsBegin + q.groupBy) == row
  }

  lemma {:induction false} LateAnswers(q: Query, v: real, s: Stats)
    requires q == Walkers.Query.Query(10, 14, 2)
    ensures RowIs([Kept(v), Second(s)], q, MergeScaled(ZERO, s, 0.5))
            && RowIs([Evicted(v), Second(s)], q, Merge(ZERO, s))
  {
    LateSelections(v, s);
    LateHidden(q, v, s, Call(Tuple(12, Single(v)), 1), Call(Tuple(11, ZERO), 1), Call(Tuple(10, s), 2));
    LateWhole(q, v, s, Call(Tuple(12, Single(v)), 1), Call(Tuple(10, s), 2));
  }

  /** Action n of the run is an eviction, and the row of the oldest bucket is one before it and another after it. */
  ghost predicate EvictionChanges(periods: seq<Summaries.Period>, run: seq<MetricAction>, n: nat, q: Query,
                                  before: Stats, after: Stats)
    requires Summaries.ValidPeriods(periods) && n < |run|
  {
    && GoodRun(periods, run) && run[n].At? && run[n].a.Evict?
    && RowIs(StoresAfter(periods, run, n), q, before) && RowIs(StoresAfter(periods, run, n + 1), q, after)
  }

  /**
   * Two samples, a flush, and a third sample that stamps a slot of the clean first block: whatever the
   * values are, the eviction that follows doubles the count of a GROUP BY row, because the empty slot no
   * longer hides half of the coarser one.
   */
  lemma {:induction false} EvictionChangesAnswer(u: real, v: real, w: real, q: Query)
    requires q == Walkers.Query.Query(10, 14, 2)
    ensures EvictionChanges(TWO_BLOCKS, LateRun(u, v, w), 4, q, MergeScaled(ZERO, Both(u, w), 0.5),
                            Merge(ZERO, Both(u, w)))
    ensures MergeScaled(ZERO, Both(u, w), 0.5).count == 1.0 && Merge(ZERO, Both(u, w)).count == 2.0
  {
    LateRunGood(u, v, w);
    LateState4(u, v, w);
    LateState5(u, v, w);
    LateAnswers(q, v, Both(u, w));
  }

  // ---------- A gap slot spoils a minimum

  const ONE_BLOCK := [Summaries.Period(1, 2)]

  /** A new metric's first slot stays empty when the first sample is one period later. */
  lemma {:induction false} OneSample(v: real)
    ensures Summaries.Stored(ONE_BLOCK, [Sample(1, v)]) == [Level(1, 2, 1, [Single(v), ZERO])]
  {
    var l: SLevel := Empty(1, 2, ZERO);
    assert NewLevels(ONE_BLOCK, ZERO) == [l];
    Statements.StoredSnoc(ONE_BLOCK, [], Sample(1, v));
    assert [] + [Sample(1, v)] == [Sample(1, v)];
    assert Summaries.Stored(ONE_BLOCK, []) == [l];
    assert Locate(l, 1) == Forward(1) && Take(Filled(1, ZERO) + l.recent, 2) == [ZERO, ZERO];
    assert [ZERO, ZERO][0 := Single(v)] == [Single(v), ZERO];
    assert [l][1..] == [];
  }

  lemma {:induction false} OneSampleSelected(l: SLevel, v: real, n: nat)
    requires l == Level(1, 2, 1, [Single(v), ZERO]) && n == |l.recent|
    ensures SelectedFrom([l], 0, 2) == [Call(Tuple(1, Single(v)), 1), Call(Tuple(0, ZERO), 1)]
  {
    assert l.SlotTs(0) == 1 && l.SlotTs(1) == 0;
    assert SetOverlaps(l, 0, 2, n - 1) == [Call(Slot(l, 0), 1)];
    assert SetOverlaps(l, 0, 2, n) == [Call(Tuple(1, Single(v)), 1), Call(Tuple(0, ZERO), 1)];
    assert UnsetReported(l, 0, 2) == 0;
    assert [l][1..] == [] && SelectedFrom([], 0, 2) == [];
  }

  lemma {:induction false} FirstBucketShown(q: Query, calls: seq<Call>, row: Stats)
    requires q.Valid() && GoodCalls(q, calls) && RowStats(q, calls, q.tsBegin, q.tsBegin + q.groupBy) == row
             && row.count > 0.0
    ensures Tuple(q.tsBegin, row) in Answer(q, calls)
  {
    TopIsLast(q);
    OldestBucket(q, calls);
    RowInAnswer(q, calls, Tuple(q.tsBegin, row));
  }

  /** One positive sample on a new metric: the GROUP BY row that holds it shows 0 as its minimum. */
  lemma {:induction false} GapSpoilsMinimum(v: real, q: Query)
    requires v > 0.0 && q == Walkers.Query.Query(0, 2, 2)
    ensures AllWf(Summaries.Stored(ONE_BLOCK, [Sample(1, v)])) && q.Valid()
    ensures var calls := SelectedFrom(Summaries.Stored(ONE_BLOCK, [Sample(1, v)]), 0, 2);
            GoodCalls(q, calls) && Tuple(0, Stats(1.0, v, v * v, 0.0, v)) in Answer(q, calls)
  {
    var a, b := Call(Tuple(1, Single(v)), 1), Call(Tuple(0, ZERO), 1);
    OneSample(v);
    OneSampleSelected(Level(1, 2, 1, [Single(v), ZERO]), v, 2);
    GapSlotSpoilsMinimum(q, a, b, v);
    FirstBucketShown(q, [a, b], Stats(1.0, v, v * v, 0.0, v));
  }

  // ---------- The last block wraps between two flushes

  function WrapRun(u: real, v: real, w: real): seq<Caching.Action> {
    [Caching.Update(Value(1, u)), Caching.Update(Value(2, v)), Caching.Update(Value(3, w))]
  }

  function Full(u: real, v: real, w: real): SLevel { Level(1, 3, 3, [Single(w), Single(v), Single(u)]) }

  lemma {:induction false} WrapSteps(u: real, v: real, w: real)
    ensures Step(Empty(1, 3, ZERO), ToOffer(Value(1, u)), STATS) == Level(1, 3, 1, [Single(u), ZERO])
    ensures Step(Level(1, 3, 1, [Single(u), ZERO]), ToOffer(Value(2, v)), STATS)
            == Level(1, 3, 2, [Single(v), Single(u), ZERO])
    ensures Step(Level(1, 3, 2, [Single(v), Single(u), ZERO]), ToOffer(Value(3, w)), STATS) == Full(u, v, w)
  {
    FirstInSlot(u);
    FirstInSlot(v);
    FirstInSlot(w);
    var a, b, c := [ZERO], [Single(u), ZERO], [Single(v), Single(u), ZERO];
    assert Take(Filled(1, ZERO) + a, 3)[0 := Single(u)] == b;
    assert Take(Filled(1, ZERO) + b, 3)[0 := Single(v)] == c;
    assert Take(Filled(1, ZERO) + c, 3)[0 := Single(w)] == [Single(w), Single(v), Single(u)];
  }

  lemma {:induction false} UpdateNext(s: Store, run: seq<Caching.Action>, n: nat, l: SLevel, pos: nat, c: Ctx,
                                      t: SLevel)
    requires Known(s) && n < |run| && run[n] == Caching.Update(c) && !c.Stop?
    requires l.Wf() && pos < l.count && t == Step(l, ToOffer(c), STATS)
    requires After(s, run, n) == Unsaved(l, pos, true)
    ensures After(s, run, n + 1) == Unsaved(t, PosAfter(l, pos, c.Ts()), true)
  {
    UnsavedStep(l, pos, true, c, t);
  }

  lemma {:induction false} WrapStore(s: Store, u: real, v: real, w: real)
    requires s == NewStore(1, 3, true)
    ensures After(s, WrapRun(u, v, w), 3) == Unsaved(Full(u, v, w), 0, true)
  {
    var run := WrapRun(u, v, w);
    var a: SLevel, b: SLevel, c: SLevel := Empty(1, 3, ZERO), Level(1, 3, 1, [Single(u), ZERO]),
        Level(1, 3, 2, [Single(v), Single(u), ZERO]);
    WrapSteps(u, v, w);
    UpdateNext(s, run, 0, a, 0, Value(1, u), b);
    UpdateNext(s, run, 1, b, 1, Value(2, v), c);
    UpdateNext(s, run, 2, c, 2, Value(3, w), Full(u, v, w));
  }

  lemma {:induction false} FullLayout(u: real, v: real, w: real)
    ensures Layout(Full(u, v, w), 0) == [Tuple(3, Single(w)), Tuple(1, Single(u)), Tuple(2, Single(v))]
    ensures !ZeroAbove(Full(u, v, w), 0, 0)
  {
    var l := Full(u, v, w);
    assert Layout(l, 0)[1] == Slot(l, 2) && Layout(l, 0)[2] == Slot(l, 1);
    assert Layout(l, 0)[1] != ZERO_TUPLE;
  }

  lemma {:induction false} OnlyFirst(file: seq<Disk.Word>, b: Disk.BlockImage)
    requires Disk.Sound(b) && Holds(file, b.header.offset, Disk.WriteBlock(b))
    requires Disk.IsLast(b.header) && b.header.pos == b.header.maxPos == 0
    ensures Disk.ReadData(file, Disk.Raised(b.header)) == Disk.Ok([b.slots[0]] + Filled(|b.slots| - 1, ZERO_TUPLE))
  {
    Disk.BlockReadBack(file, b);
    assert b.slots[..1] == [b.slots[0]];
  }

  /** All slots are in memory, and only the newest is read back from any file the block was written to. */
  ghost predicate LosesOlder(s: Store, slots: seq<Tuple>, offset: nat, file: seq<Disk.Word>)
    requires slots != []
  {
    && Ready(s) && FlushCuts(s) && s.maxPos < Contents(s).count
    && var b := Image(s, offset);
      && b.slots == slots && Disk.Sound(b)
      && (Holds(file, b.header.offset, Disk.WriteBlock(b)) ==>
            Disk.ReadData(file, Disk.Raised(b.header)) == Disk.Ok([slots[0]] + Filled(|slots| - 1, ZERO_TUPLE)))
  }

  /** A last block that was never flushed and stands at position 0. */
  lemma {:induction false} AtZeroLoses(l: SLevel, offset: nat, file: seq<Disk.Word>)
    requires l.Wf() && !ZeroAbove(l, 0, 0)
    ensures LosesOlder(Unsaved(l, 0, true), Layout(l, 0), offset, file)
  {
    var s := Unsaved(l, 0, true);
    ImageIsSound(s, offset);
    var b := Image(s, offset);
    if Holds(file, b.header.offset, Disk.WriteBlock(b)) {
      OnlyFirst(file, b);
    }
  }

  /**
   * Three samples in order fill the three slots of a last block, and the position is back at 0 when the
   * first flush comes: max_pos is 0 too, so the two older samples are not written.
   */
  lemma {:induction false} WrapLosesData(s: Store, u: real, v: real, w: real, offset: nat, file: seq<Disk.Word>)
    requires s == NewStore(1, 3, true)
    ensures LosesOlder(After(s, WrapRun(u, v, w), 3), [Tuple(3, Single(w)), Tuple(1, Single(u)), Tuple(2, Single(v))],
                       offset, file)
  {
    WrapStore(s, u, v, w);
    FullLayout(u, v, w);
    AtZeroLoses(Full(u, v, w), offset, file);
  }

  // ---------- Data behind a zeroed slot

  function HiddenRun(u: real, v: real): seq<Caching.Action> {
    [Caching.Update(Value(1, u)), Flush, Caching.Update(Value(3, v)), Flush]
  }

  function Gapped(u: real, v: real): SLevel { Level(1, 3, 3, [Single(v), ZERO, Single(u)]) }

  /** After the first flush, with max_pos 1, and after the second update. */
  function Flushed1(u: real): Store {
    var l := Level(1, 3, 1, [Single(u), ZERO]);
    Store(1, 1, 1, true, [l], None, None, l)
  }

  function Ahead(u: real, v: real): Store {
    var l := Level(1, 3, 1, [Single(u), ZERO]);
    Store(3, 0, 1, true, [l, Gapped(u, v)], Some(1), Some(1), l)
  }

  lemma {:induction false} HiddenSteps(u: real, v: real)
    ensures Step(Empty(1, 3, ZERO), ToOffer(Value(1, u)), STATS) == Level(1, 3, 1, [Single(u), ZERO])
    ensures Step(Level(1, 3, 1, [Single(u), ZERO]), ToOffer(Value(3, v)), STATS) == Gapped(u, v)
    ensures PosAfter(Level(1, 3, 1, [Single(u), ZERO]), 1, 3) == 0
  {
    FirstInSlot(u);
    FirstInSlot(v);
    assert Take(Filled(1, ZERO) + [ZERO], 3)[0 := Single(u)] == [Single(u), ZERO];
    assert Take(Filled(2, ZERO) + [Single(u), ZERO], 3)[0 := Single(v)] == [Single(v), ZERO, Single(u)];
  }

  lemma {:induction false} HiddenFlush(u: real)
    ensures var s := Unsaved(Level(1, 3, 1, [Single(u), ZERO]), 1, true);
            Ready(s) && Savable(s) && Do(s, Flush).0 == Flushed1(u)
  {
    var l: SLevel := Level(1, 3, 1, [Single(u), ZERO]);
    assert ZeroAbove(l, 1, 1);
  }

  /** An update that stores its data in a block of which only the disk has the array. */
  lemma {:induction false} CleanStep(s: Store, l: SLevel, c: Ctx, m: SLevel)
    requires l.Wf() && s == Store(l.posTs, s.pos, s.maxPos, s.last, [l], None, None, l) && s.pos < l.count
    requires !c.Stop? && m == Step(l, ToOffer(c), STATS) && Target(Locate(l, c.Ts())).Some?
    ensures Ready(s)
    ensures Do(s, Caching.Update(c)).0 == Store(m.posTs, PosAfter(l, s.pos, c.Ts()), s.maxPos, s.last, [l, m],
                                                Some(1), Some(1), l)
  {
    assert [l] + [l] == [l, l] && [l, l][1 := m] == [l, m];
  }

  lemma {:induction false} HiddenAhead(u: real, v: real)
    ensures Ready(Flushed1(u)) && Do(Flushed1(u), Caching.Update(Value(3, v))).0 == Ahead(u, v)
  {
    HiddenSteps(u, v);
    CleanStep(Flushed1(u), Level(1, 3, 1, [Single(u), ZERO]), Value(3, v), Gapped(u, v));
  }

  lemma {:induction false} HiddenState1(s: Store, u: real, v: real)
    requires s == NewStore(1, 3, true)
    ensures After(s, HiddenRun(u, v), 1) == Unsaved(Level(1, 3, 1, [Single(u), ZERO]), 1, true)
  {
    HiddenStart(u, v);
    DoneNext(s, HiddenRun(u, v), 0, s, Caching.Update(Value(1, u)),
             Unsaved(Level(1, 3, 1, [Single(u), ZERO]), 1, true));
  }

  lemma {:induction false} HiddenStart(u: real, v: real)
    ensures var s, t := NewStore(1, 3, true), Unsaved(Level(1, 3, 1, [Single(u), ZERO]), 1, true);
            CanDo(s, Caching.Update(Value(1, u))) && Do(s, Caching.Update(Value(1, u))).0 == t
  {
    HiddenSteps(u, v);
    UnsavedStep(Empty(1, 3, ZERO), 0, true, Value(1, u), Level(1, 3, 1, [Single(u), ZERO]));
  }

  lemma {:induction false} HiddenState2(s: Store, u: real, v: real)
    requires s == NewStore(1, 3, true)
    ensures After(s, HiddenRun(u, v), 2) == Flushed1(u)
  {
    HiddenState1(s, u, v);
    HiddenFlush(u);
    DoneNext(s, HiddenRun(u, v), 1, Unsaved(Level(1, 3, 1, [Single(u), ZERO]), 1, true), Flush, Flushed1(u));
  }

  lemma {:induction false} HiddenState3(s: Store, u: real, v: real)
    requires s == NewStore(1, 3, true)
    ensures After(s, HiddenRun(u, v), 3) == Ahead(u, v)
  {
    HiddenState2(s, u, v);
    HiddenAhead(u, v);
    DoneNext(s, HiddenRun(u, v), 2, Flushed1(u), Caching.Update(Value(3, v)), Ahead(u, v));
  }

  lemma {:induction false} DoneNext(s: Store, run: seq<Caching.Action>, n: nat, t: Store, a: Caching.Action,
                                    next: Store)
    requires Known(s) && n < |run| && run[n] == a && After(s, run, n) == t && CanDo(t, a) && Do(t, a).0 == next
    ensures After(s, run, n + 1) == next
  {
  }

  lemma {:induction false} HiddenSlot(u: real, v: real)
    ensures var l := Gapped(u, v);
            Layout(l, 0) == [Tuple(3, Single(v)), Tuple(1, Single(u)), Tuple(2, ZERO)]
            && ReadBack(l, 0, 1) == [Tuple(3, Single(v)), Tuple(1, Single(u)), ZERO_TUPLE]
  {
    var l := Gapped(u, v);
    assert Layout(l, 0)[1] == Slot(l, 2) && Layout(l, 0)[2] == Slot(l, 1);
    assert Layout(l, 0)[..2] == [Tuple(3, Single(v)), Tuple(1, Single(u))];
  }

  /**
   * Two samples in order on a last block with three slots, at 1 and 3, with a flush in between: no slot above
   * max_pos and pos has data, and the second flush writes both samples. But the slot for 2 is zero when the
   * block is read back, and the walk of a query for the sample at 1 stops there.
   */
  lemma {:induction false} WrittenDataIsHidden(s: Store, u: real, v: real)
    requires s == NewStore(1, 3, true)
    ensures After(s, HiddenRun(u, v), 3) == Ahead(u, v) && Ready(Ahead(u, v)) && Contents(Ahead(u, v)) == Gapped(u, v)
    ensures ReadBack(Gapped(u, v), 0, 1) == [Tuple(3, Single(v)), Tuple(1, Single(u)), ZERO_TUPLE]
    ensures WithData(Selected(Gapped(u, v), 1, 2)) == [Call(Tuple(1, Single(u)), 1)]
    ensures WithData(Walk(ReadBack(Gapped(u, v), 0, 1), 0, 1, 1, 2, 0)) == []
  {
    HiddenState3(s, u, v);
    HiddenSlot(u, v);
    ShownBefore(u, v, Gapped(u, v), 3);
    HiddenAfter(ReadBack(Gapped(u, v), 0, 1), 0);
  }

  lemma {:induction false} ShownBefore(u: real, v: real, l: SLevel, n: nat)
    requires l == Gapped(u, v) && n == |l.recent|
    ensures WithData(Selected(l, 1, 2)) == [Call(Tuple(1, Single(u)), 1)]
  {
    var c := Call(Tuple(1, Single(u)), 1);
    SelectedExact(l, 1, 2);
    assert !Overlaps(l, 0, 1, 2) && !Overlaps(l, 1, 1, 2) && Overlaps(l, 2, 1, 2);
    assert SetOverlaps(l, 1, 2, n - 2) == [];
    assert SetOverlaps(l, 1, 2, n - 1) == [];
    assert SetOverlaps(l, 1, 2, n) == [c];
    WithDataSnoc([], c);
    assert [] + [c] == [c];
  }

  lemma {:induction false} HiddenAfter(b: seq<Tuple>, n: nat)
    requires |b| == 3 && b[0].ts == 3 && b[2].ts == 0 && n == 0
    ensures Walk(b, 0, 1, 1, 2, n) == []
  {
    assert Walk(b, 0, 1, 1, 2, n + 1) == [];
  }
}
