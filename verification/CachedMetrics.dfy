/**
 * A metric whose blocks are cached, evicted and flushed (src/rrdb/rrdb_metric.cpp:192-273,
 * src/rrdb/rrdb_metric_block.cpp:48-84): which answers can tell that from one that keeps all arrays.
 */
module CachedMetrics {
  import opened Options
  import opened Times
  import opened Tuples
  import opened Rollup
  import opened History
  import opened Summaries
  import opened Blocks
  import opened Metrics
  import opened Walkers
  import opened Queries
  import opened Statements
  import opened Caching

  /** Each store is related to its window. */
  ghost predicate All(rel: (Store, SLevel) -> bool, stores: seq<Store>, levels: seq<SLevel>) {
    |stores| == |levels| && forall k {:trigger rel(stores[k], levels[k])} :: 0 <= k < |stores| ==>
        rel(stores[k], levels[k])
  }

  lemma {:induction false} AllHead(rel: (Store, SLevel) -> bool, stores: seq<Store>, levels: seq<SLevel>)
    requires All(rel, stores, levels) && stores != []
    ensures rel(stores[0], levels[0]) && All(rel, stores[1..], levels[1..])
  {
    forall k | 0 <= k < |stores| - 1
      ensures rel(stores[1..][k], levels[1..][k])
    {
      assert rel(stores[k + 1], levels[k + 1]);
    }
  }

  lemma {:induction false} AllCons(rel: (Store, SLevel) -> bool, s: Store, l: SLevel, stores: seq<Store>,
                                   levels: seq<SLevel>)
    requires rel(s, l) && All(rel, stores, levels)
    ensures All(rel, [s] + stores, [l] + levels)
  {
    forall k | 0 <= k < |stores| + 1
      ensures rel(([s] + stores)[k], ([l] + levels)[k])
    {
      assert k > 0 ==> rel(stores[k - 1], levels[k - 1]);
    }
  }

  ghost predicate AllAgree(stores: seq<Store>, levels: seq<SLevel>) { All(Agrees, stores, levels) }

  ghost predicate AllExact(stores: seq<Store>, levels: seq<SLevel>) { All(Exact, stores, levels) }

  ghost predicate AllReady(stores: seq<Store>) {
    forall k {:trigger Ready(stores[k])} :: 0 <= k < |stores| ==> Ready(stores[k])
  }

  lemma {:induction false} AgreeReady(stores: seq<Store>, levels: seq<SLevel>)
    requires AllAgree(stores, levels)
    ensures AllReady(stores) && AllWf(levels)
  {
    forall k | 0 <= k < |stores|
      ensures Ready(stores[k]) && levels[k].Wf()
    {
      assert Agrees(stores[k], levels[k]);
    }
  }

  lemma {:induction false} ExactAgree(stores: seq<Store>, levels: seq<SLevel>)
    requires AllExact(stores, levels)
    ensures AllAgree(stores, levels)
  {
    forall k | 0 <= k < |stores|
      ensures Agrees(stores[k], levels[k])
    {
      assert Exact(stores[k], levels[k]);
    }
  }

  // ---------- Updates

  /** The loop of rrdb_metric::update; a check that fires ends it. */
  ghost function UpdateStores(stores: seq<Store>, c: Ctx): seq<Store>
    decreases |stores|
  {
    if stores == [] || c.Stop? || !Ready(stores[0]) then stores
    else
      var (t, seen) := Do(stores[0], Caching.Update(c));
      [t] + if seen.Told? then UpdateStores(stores[1..], seen.out) else stores[1..]
  }

  lemma {:induction false} UpdateStoresAgree(stores: seq<Store>, levels: seq<SLevel>, c: Ctx)
    requires AllAgree(stores, levels)
    ensures AllWf(levels) && AllAgree(UpdateStores(stores, c), Cascade(levels, ToOption(c), STATS))
    decreases |stores|
  {
    AgreeReady(stores, levels);
    if stores != [] && !c.Stop? {
      AllHead(Agrees, stores, levels);
      assert Ready(stores[0]);
      UpdateAgrees(stores[0], levels[0], c);
      UpdateStoresAgree(stores[1..], levels[1..], OutCtx(levels[0], c));
      CascadeHead(levels, c);
      AllCons(Agrees, Do(stores[0], Caching.Update(c)).0, Step(levels[0], ToOffer(c), STATS),
                UpdateStores(stores[1..], OutCtx(levels[0], c)),
                    Cascade(levels[1..], ToOption(OutCtx(levels[0], c)), STATS));
    }
  }

  /** The context that reaches block k. */
  function CtxAt(levels: seq<SLevel>, c: Ctx, k: nat): Ctx
    requires AllWf(levels) && k <= |levels|
  {
    if k == 0 || c.Stop? then c else CtxAt(levels[1..], OutCtx(levels[0], c), k - 1)
  }

  /** Store and window after what reached the block. */
  ghost predicate Updated(s: Store, l: SLevel, x: Ctx, t: Store, next: SLevel)
    requires Ready(s) && l.Wf()
  {
    if x.Stop? then t == s && next == l
    else t == Do(s, Caching.Update(x)).0 && next == Permanent(l, Caching.Update(x)).0
  }

  /** Block k is updated with the context that reaches it, in the stores and in the cascade. */
  lemma {:induction false} UpdatedAt(stores: seq<Store>, levels: seq<SLevel>, c: Ctx, k: nat)
    requires AllAgree(stores, levels) && k < |levels|
    ensures AllWf(levels) && |UpdateStores(stores, c)| == |levels| && Ready(stores[k])
    ensures Updated(stores[k], levels[k], CtxAt(levels, c, k), UpdateStores(stores, c)[k],
                    Cascade(levels, ToOption(c), STATS)[k])
    decreases k, 1
  {
    if c.Stop? {
      AgreeReady(stores, levels);
      assert Ready(stores[k]);
    } else if k == 0 {
      HeadUpdated(stores, levels, c);
    } else {
      UpdatedInTail(stores, levels, c, k);
    }
  }

  lemma {:induction false} UpdatedInTail(stores: seq<Store>, levels: seq<SLevel>, c: Ctx, k: nat)
    requires AllAgree(stores, levels) && 0 < k < |levels| && !c.Stop?
    ensures AllWf(levels) && |UpdateStores(stores, c)| == |levels| && Ready(stores[k])
    ensures Updated(stores[k], levels[k], CtxAt(levels, c, k), UpdateStores(stores, c)[k],
                    Cascade(levels, ToOption(c), STATS)[k])
    decreases k, 0
  {
    TailUpdated(stores, levels, c, k);
    AllHead(Agrees, stores, levels);
    UpdatedAt(stores[1..], levels[1..], OutCtx(levels[0], c), k - 1);
    assert stores[1..][k - 1] == stores[k] && levels[1..][k - 1] == levels[k];
  }

  lemma {:induction false} HeadUpdated(stores: seq<Store>, levels: seq<SLevel>, c: Ctx)
    requires AllAgree(stores, levels) && stores != [] && !c.Stop?
    ensures AllWf(levels) && |UpdateStores(stores, c)| == |levels| && Ready(stores[0])
    ensures Updated(stores[0], levels[0], CtxAt(levels, c, 0), UpdateStores(stores, c)[0],
                    Cascade(levels, ToOption(c), STATS)[0])
  {
    AgreeReady(stores, levels);
    UpdateStoresAgree(stores, levels, c);
    CascadeHead(levels, c);
    assert Ready(stores[0]);
  }

  lemma {:induction false} TailUpdated(stores: seq<Store>, levels: seq<SLevel>, c: Ctx, k: nat)
    requires AllAgree(stores, levels) && 0 < k < |stores| && !c.Stop?
    ensures AllWf(levels) && |UpdateStores(stores, c)| == |stores|
    ensures |UpdateStores(stores[1..], OutCtx(levels[0], c))| == |stores| - 1
    ensures UpdateStores(stores, c)[k] == UpdateStores(stores[1..], OutCtx(levels[0], c))[k - 1]
    ensures Cascade(levels, ToOption(c), STATS)[k] == Cascade(levels[1..], ToOption(OutCtx(levels[0], c)), STATS)[k - 1]
  {
    AgreeReady(stores, levels);
    UpdateStoresAgree(stores, levels, c);
    AllHead(Agrees, stores, levels);
    assert Ready(stores[0]);
    UpdateAgrees(stores[0], levels[0], c);
    UpdateStoresAgree(stores[1..], levels[1..], OutCtx(levels[0], c));
    CascadeHead(levels, c);
  }

  // ---------- Queries

  /** rrdb_metric::select: the headers decide which blocks are asked. */
  function SelectedFromStores(stores: seq<Store>, ts1: int, ts2: int): seq<Call>
    requires AllReady(stores)
  {
    if stores == [] then []
    else
      assert Ready(stores[0]);
      assert forall k :: 0 <= k < |stores| - 1 ==> stores[1..][k] == stores[k + 1];
      var l := Contents(stores[0]);
      var header := l.(posTs := stores[0].posTs);
      var res := IntervalOverlap(header.EarliestTs(), header.LatestTs(), ts1, ts2);
      if res < 0 then []
      else (if res == 0 then Selected(l, ts1, ts2) else []) + SelectedFromStores(stores[1..], ts1, ts2)
  }

  /** If no stamps were lost, every answer is the permanent one, with and without GROUP BY. */
  lemma {:induction false} ExactAnswers(stores: seq<Store>, levels: seq<SLevel>, ts1: int, ts2: int)
    requires AllExact(stores, levels)
    ensures AllReady(stores) && AllWf(levels)
    ensures SelectedFromStores(stores, ts1, ts2) == SelectedFrom(levels, ts1, ts2)
    decreases |stores|
  {
    ExactAgree(stores, levels);
    AgreeReady(stores, levels);
    if stores != [] {
      AllHead(Exact, stores, levels);
      ExactAnswers(stores[1..], levels[1..], ts1, ts2);
    }
  }

  lemma {:induction false} WithDataAppend(a: seq<Call>, b: seq<Call>)
    ensures WithData(a + b) == WithData(a) + WithData(b)
  {
    if b == [] {
      assert a + b == a;
    } else {
      var front := b[..|b| - 1];
      assert a + b == (a + front) + [b[|b| - 1]];
      WithDataAppend(a, front);
      WithDataSnoc(a + front, b[|b| - 1]);
    }
  }

  /** What a block adds to a query, and whether the loop goes on. */
  function Part(l: SLevel, ts1: int, ts2: int): (seq<Call>, bool)
    requires l.Wf()
  {
    var res := IntervalOverlap(l.EarliestTs(), l.LatestTs(), ts1, ts2);
    (if res == 0 then Selected(l, ts1, ts2) else [], res >= 0)
  }

  lemma {:induction false} SamePart(s: Store, l: SLevel, ts1: int, ts2: int)
    requires Agrees(s, l)
    ensures Contents(s).(posTs := s.posTs) == Contents(s) && Part(Contents(s), ts1, ts2).1 == Part(l, ts1, ts2).1
    ensures WithData(Part(Contents(s), ts1, ts2).0) == WithData(Part(l, ts1, ts2).0)
  {
    SelectedWithData(Contents(s), ts1, ts2);
    SelectedWithData(l, ts1, ts2);
    SameOverlaps(Contents(s), l, ts1, ts2, l.count);
  }

  /** In any case the tuples with data are the same. */
  lemma {:induction false} SameDataSelected(stores: seq<Store>, levels: seq<SLevel>, ts1: int, ts2: int)
    requires AllAgree(stores, levels)
    ensures AllReady(stores) && AllWf(levels)
    ensures WithData(SelectedFromStores(stores, ts1, ts2)) == WithData(SelectedFrom(levels, ts1, ts2))
    decreases |stores|
  {
    AgreeReady(stores, levels);
    if stores != [] {
      AllHead(Agrees, stores, levels);
      SamePart(stores[0], levels[0], ts1, ts2);
      if Part(levels[0], ts1, ts2).1 {
        SameDataSelected(stores[1..], levels[1..], ts1, ts2);
        WithDataAppend(Part(Contents(stores[0]), ts1, ts2).0, SelectedFromStores(stores[1..], ts1, ts2));
        WithDataAppend(Part(levels[0], ts1, ts2).0, SelectedFrom(levels[1..], ts1, ts2));
      }
    }
  }

  lemma {:induction false} PlainPrefix(calls: seq<Call>, c: Call, n: nat, tsBegin: int, tsEnd: int)
    requires n <= |calls|
    ensures PlainRows(calls + [c], n, tsBegin, tsEnd) == PlainRows(calls, n, tsBegin, tsEnd)
  {
    if n > 0 {
      PlainPrefix(calls, c, n - 1, tsBegin, tsEnd);
      assert forall j :: 0 <= j < n ==> (calls + [c])[j] == calls[j];
      assert NewLow(calls + [c], n - 1, tsBegin, tsEnd) <==> NewLow(calls, n - 1, tsBegin, tsEnd);
    }
  }

  /** A tuple without data is never a row, and does not keep another one from being one. */
  lemma {:induction false} PlainNeedsData(calls: seq<Call>, tsBegin: int, tsEnd: int)
    ensures PlainAnswer(WithData(calls), tsBegin, tsEnd) == PlainAnswer(calls, tsBegin, tsEnd)
  {
    if calls != [] {
      var front, c := calls[..|calls| - 1], calls[|calls| - 1];
      var kept := WithData(front);
      assert calls == front + [c];
      PlainNeedsData(front, tsBegin, tsEnd);
      PlainPrefix(front, c, |front|, tsBegin, tsEnd);
      NextRow(calls, |front|, tsBegin, tsEnd);
      if c.tuple.stats == ZERO {
        assert WithData(calls) == kept;
      } else {
        assert WithData(calls) == kept + [c];
        PlainPrefix(kept, c, |kept|, tsBegin, tsEnd);
        NextRow(kept + [c], |kept|, tsBegin, tsEnd);
      }
    }
  }

  /** Without GROUP BY no eviction and no flush that keeps the array can be noticed, whatever stamps were lost. */
  lemma {:induction false} PlainAnswerUnchanged(stores: seq<Store>, levels: seq<SLevel>, tsBegin: int, tsEnd: int)
    requires AllAgree(stores, levels)
    ensures AllReady(stores) && AllWf(levels)
    ensures PlainAnswer(SelectedFromStores(stores, tsBegin, tsEnd), tsBegin, tsEnd)
         == PlainAnswer(SelectedFrom(levels, tsBegin, tsEnd), tsBegin, tsEnd)
  {
    SameDataSelected(stores, levels, tsBegin, tsEnd);
    PlainNeedsData(SelectedFromStores(stores, tsBegin, tsEnd), tsBegin, tsEnd);
    PlainNeedsData(SelectedFrom(levels, tsBegin, tsEnd), tsBegin, tsEnd);
  }

  // ---------- Runs

  /** A sample is recorded, or one block is queried, evicted or flushed. */
  datatype MetricAction = Record(s: Sample) | At(k: nat, a: Action)

  function NewStores(periods: seq<Period>): (stores: seq<Store>)
    requires ValidPeriods(periods)
    ensures |stores| == |periods|
  {
    seq(|periods|, k requires 0 <= k < |periods| => NewStore(periods[k].freq, periods[k].count, k == |periods| - 1))
  }

  /** One action on the blocks; a check that fires ends it. */
  ghost function StoresStep(periods: seq<Period>, stores: seq<Store>, action: MetricAction): seq<Store>
    requires ValidPeriods(periods)
  {
    match action
    case Record(s) => UpdateStores(stores, Value(Normalized(s.ts, periods[0].freq), s.value))
    case At(k, a) => if k < |stores| && CanDo(stores[k], a) then stores[k := Do(stores[k], a).0] else stores
  }

  ghost function StoresAfter(periods: seq<Period>, actions: seq<MetricAction>, n: nat): (stores: seq<Store>)
    requires ValidPeriods(periods) && n <= |actions|
  {
    if n == 0 then NewStores(periods)
    else StoresStep(periods, StoresAfter(periods, actions, n - 1), actions[n - 1])
  }

  function Recorded(actions: seq<MetricAction>, n: nat): Samples
    requires n <= |actions|
  {
    if n == 0 then []
    else Recorded(actions, n - 1) + if actions[n - 1].Record? then [actions[n - 1].s] else []
  }

  /** Action n is not a flush, or one that keeps all of the array. */
  ghost predicate KeepsArray(periods: seq<Period>, actions: seq<MetricAction>, n: nat)
    requires ValidPeriods(periods) && n < |actions|
  {
    var stores := StoresAfter(periods, actions, n);
    match actions[n]
    case At(k, Flush) => k < |stores| ==> Known(stores[k]) && Savable(stores[k])
    case _ => true
  }

  /** Updates come only through the metric, and every flush keeps all of the array. */
  ghost predicate GoodRun(periods: seq<Period>, actions: seq<MetricAction>)
    requires ValidPeriods(periods)
  {
    && (forall i :: 0 <= i < |actions| ==> actions[i].At? ==> actions[i].k < |periods| && !actions[i].a.Update?)
    && (forall i: nat :: i < |actions| ==> KeepsArray(periods, actions, i))
  }

  lemma {:induction false} RecordAgrees(periods: seq<Period>, stores: seq<Store>, samples: Samples, s: Sample)
    requires ValidPeriods(periods) && AllAgree(stores, Stored(periods, samples))
    ensures AllAgree(UpdateStores(stores, Value(Normalized(s.ts, periods[0].freq), s.value)),
                     Stored(periods, samples + [s]))
  {
    UpdateStoresAgree(stores, Stored(periods, samples), Value(Normalized(s.ts, periods[0].freq), s.value));
    StoredSnoc(periods, samples, s);
  }

  /** An action on one block is none on the data of any. */
  lemma {:induction false} AtAgrees(stores: seq<Store>, levels: seq<SLevel>, k: nat, a: Action)
    requires AllAgree(stores, levels) && !a.Update?
    ensures AllAgree(if k < |stores| && CanDo(stores[k], a) then stores[k := Do(stores[k], a).0] else stores, levels)
  {
    if k < |stores| && CanDo(stores[k], a) {
      assert Agrees(stores[k], levels[k]);
      ActionAgrees(stores[k], levels[k], a);
    }
  }

  lemma {:induction false} MetricAgrees(periods: seq<Period>, actions: seq<MetricAction>, n: nat)
    requires ValidPeriods(periods) && GoodRun(periods, actions) && n <= |actions|
    ensures AllAgree(StoresAfter(periods, actions, n), Stored(periods, Recorded(actions, n)))
  {
    if n == 0 {
      forall k | 0 <= k < |periods|
        ensures Agrees(NewStores(periods)[k], NewLevels(periods, ZERO)[k])
      {
        NewStoreExact(periods[k].freq, periods[k].count, k == |periods| - 1);
      }
    } else {
      MetricAgrees(periods, actions, n - 1);
      var stores, samples := StoresAfter(periods, actions, n - 1), Recorded(actions, n - 1);
      match actions[n - 1] {
        case Record(s) => RecordAgrees(periods, stores, samples, s);
        case At(k, a) =>
          assert samples + [] == samples;
          assert KeepsArray(periods, actions, n - 1);
          AtAgrees(stores, Stored(periods, samples), k, a);
      }
    }
  }

  /**
   * After any run of updates, queries, evictions and flushes, SELECT without GROUP BY gives what a
   * metric gives that stores all samples and keeps all of its arrays.
   */
  lemma {:induction false} CachedPlainAnswer(periods: seq<Period>, actions: seq<MetricAction>, n: nat, tsBegin: int,
                                             tsEnd: int)
    requires ValidPeriods(periods) && GoodRun(periods, actions) && n <= |actions|
    ensures AllReady(StoresAfter(periods, actions, n))
    ensures PlainAnswer(SelectedFromStores(StoresAfter(periods, actions, n), tsBegin, tsEnd), tsBegin, tsEnd)
         == PlainAnswer(SelectedFrom(Stored(periods, Recorded(actions, n)), tsBegin, tsEnd), tsBegin, tsEnd)
  {
    MetricAgrees(periods, actions, n);
    PlainAnswerUnchanged(StoresAfter(periods, actions, n), Stored(periods, Recorded(actions, n)), tsBegin, tsEnd);
  }

  // ---------- Stamps

  /** What action n is for block k. */
  ghost function ActionOn(periods: seq<Period>, actions: seq<MetricAction>, n: nat, k: nat): Option<Action>
    requires ValidPeriods(periods) && n < |actions| && k < |periods|
  {
    match actions[n]
    case At(j, a) => if j == k then Some(a) else None
    case Record(s) =>
      var levels := Stored(periods, Recorded(actions, n));
      var c := CtxAt(levels, Value(Normalized(s.ts, periods[0].freq), s.value), k);
      if c.Stop? then None else Some(Caching.Update(c))
  }

  /** Store and window of block k before action n. */
  ghost predicate InState(periods: seq<Period>, actions: seq<MetricAction>, n: nat, k: nat, s: Store, l: SLevel)
    requires ValidPeriods(periods) && n <= |actions| && k < |periods|
  {
    var stores := StoresAfter(periods, actions, n);
    k < |stores| && s == stores[k] && l == Stored(periods, Recorded(actions, n))[k]
  }

  /** One action on block k takes it to its next state. */
  lemma {:induction false} StateNext(periods: seq<Period>, actions: seq<MetricAction>, n: nat, k: nat, s: Store,
                                     l: SLevel)
    requires ValidPeriods(periods) && GoodRun(periods, actions) && n < |actions| && k < |periods|
    requires InState(periods, actions, n, k, s, l)
    ensures Agrees(s, l)
    ensures match ActionOn(periods, actions, n, k)
            case None => InState(periods, actions, n + 1, k, s, l)
            case Some(a) => CanDo(s, a) && InState(periods, actions, n + 1, k, Do(s, a).0, Permanent(l, a).0)
  {
    MetricAgrees(periods, actions, n);
    var stores, samples := StoresAfter(periods, actions, n), Recorded(actions, n);
    assert Agrees(stores[k], Stored(periods, samples)[k]);
    match actions[n] {
      case Record(x) =>
        UpdatedAt(stores, Stored(periods, samples), Value(Normalized(x.ts, periods[0].freq), x.value), k);
        StoredSnoc(periods, samples, x);
      case At(j, a) =>
        assert samples + [] == samples;
        assert KeepsArray(periods, actions, n);
    }
  }

  /** What the first n actions are for block k. */
  ghost function BlockActions(periods: seq<Period>, actions: seq<MetricAction>, n: nat, k: nat): seq<Action>
    requires ValidPeriods(periods) && n <= |actions| && k < |periods|
  {
    if n == 0 then [] else BlockActions(periods, actions, n - 1, k) + ToSeq(ActionOn(periods, actions, n - 1, k))
  }

  lemma {:induction false} AfterPrefix(s: Store, front: seq<Action>, more: seq<Action>, i: nat)
    requires Known(s) && i <= |front|
    ensures After(s, front + more, i) == After(s, front, i)
  {
    if i > 0 {
      AfterPrefix(s, front, more, i - 1);
      assert (front + more)[i - 1] == front[i - 1];
    }
  }

  lemma {:induction false} PermanentPrefix(l: SLevel, front: seq<Action>, more: seq<Action>, i: nat)
    requires l.Wf() && i <= |front| && ValidActions(front) && ValidActions(front + more)
    ensures PermanentAfter(l, front + more, i) == PermanentAfter(l, front, i)
  {
    if i > 0 {
      PermanentPrefix(l, front, more, i - 1);
      assert (front + more)[i - 1] == front[i - 1];
    }
  }

  lemma {:induction false} ValidSnoc(front: seq<Action>, a: Action)
    requires ValidActions(front) && ValidAction(a)
    ensures ValidActions(front + [a])
  {
  }

  lemma {:induction false} FlushesSnoc(s: Store, front: seq<Action>, a: Action)
    requires Known(s) && FlushesSave(s, front) && CanDo(After(s, front, |front|), a)
    ensures FlushesSave(s, front + [a])
  {
    var all := front + [a];
    forall i: nat | i < |all| && all[i].Flush?
      ensures Savable(After(s, all, i))
    {
      AfterPrefix(s, front, [a], i);
      assert i < |front| ==> front[i].Flush?;
    }
  }

  lemma {:induction false} AfterSnoc(s: Store, front: seq<Action>, a: Action)
    requires Known(s) && CanDo(After(s, front, |front|), a)
    ensures After(s, front + [a], |front| + 1) == Do(After(s, front, |front|), a).0
  {
    AfterPrefix(s, front, [a], |front|);
    assert (front + [a])[|front|] == a;
  }

  lemma {:induction false} PermanentSnoc(l: SLevel, front: seq<Action>, a: Action)
    requires l.Wf() && ValidActions(front) && ValidActions(front + [a]) && ValidAction(a)
    ensures PermanentAfter(l, front + [a], |front| + 1) == Permanent(PermanentAfter(l, front, |front|), a).0
  {
    PermanentPrefix(l, front, [a], |front|);
    assert (front + [a])[|front|] == a;
  }

  /** Block k is where a block on its own is after those actions. */
  ghost predicate Projected(periods: seq<Period>, actions: seq<MetricAction>, n: nat, k: nat)
    requires ValidPeriods(periods) && n <= |actions| && k < |periods|
  {
    var b, s, l := BlockActions(periods, actions, n, k), NewStores(periods)[k], NewLevels(periods, ZERO)[k];
    && ValidActions(b) && Known(s) && FlushesSave(s, b)
    && InState(periods, actions, n, k, After(s, b, |b|), PermanentAfter(l, b, |b|))
  }

  /** One more action, or none. */
  lemma {:induction false} OneMoreAction(s: Store, l: SLevel, b: seq<Action>, x: Option<Action>, next: seq<Action>)
    requires Known(s) && l.Wf() && ValidActions(b) && FlushesSave(s, b) && next == b + ToSeq(x)
    requires x.Some? ==> CanDo(After(s, b, |b|), x.value)
    ensures ValidActions(next) && FlushesSave(s, next)
    ensures After(s, next, |next|) == if x.Some? then Do(After(s, b, |b|), x.value).0 else After(s, b, |b|)
    ensures PermanentAfter(l, next, |next|) == if x.Some? then Permanent(PermanentAfter(l, b, |b|), x.value).0
            else PermanentAfter(l, b, |b|)
  {
    match x {
      case None => assert b + [] == b;
      case Some(a) =>
        ValidSnoc(b, a);
        FlushesSnoc(s, b, a);
        AfterSnoc(s, b, a);
        PermanentSnoc(l, b, a);
    }
  }

  lemma {:induction false} ProjectsNext(periods: seq<Period>, actions: seq<MetricAction>, n: nat, k: nat)
    requires ValidPeriods(periods) && GoodRun(periods, actions) && n < |actions| && k < |periods|
    requires Projected(periods, actions, n, k)
    ensures Projected(periods, actions, n + 1, k)
  {
    var b, s, l := BlockActions(periods, actions, n, k), NewStores(periods)[k], NewLevels(periods, ZERO)[k];
    StateNext(periods, actions, n, k, After(s, b, |b|), PermanentAfter(l, b, |b|));
    OneMoreAction(s, l, b, ActionOn(periods, actions, n, k), BlockActions(periods, actions, n + 1, k));
  }

  lemma {:induction false} Induction(p: nat -> bool, n: nat)
    requires p(0) && forall i: nat :: i < n && p(i) ==> p(i + 1)
    ensures p(n)
  {
    if n > 0 {
      Induction(p, n - 1);
      assert p(n - 1 + 1);
    }
  }

  lemma {:induction false} Projects(periods: seq<Period>, actions: seq<MetricAction>, n: nat, k: nat)
    requires ValidPeriods(periods) && GoodRun(periods, actions) && n <= |actions| && k < |periods|
    ensures Projected(periods, actions, n, k)
  {
    ProjectsNone(periods, actions, k);
    forall i: nat | i < n && Projected(periods, actions, i, k)
      ensures Projected(periods, actions, i + 1, k)
    {
      ProjectsNext(periods, actions, i, k);
    }
    Induction((i: nat) => i <= |actions| && Projected(periods, actions, i, k), n);
  }

  lemma {:induction false} ProjectsNone(periods: seq<Period>, actions: seq<MetricAction>, k: nat)
    requires ValidPeriods(periods) && k < |periods|
    ensures Projected(periods, actions, 0, k)
  {
  }

  /** In the first n actions block k loses stamps, as Caching.LosesStamps says. */
  ghost predicate BlockLosesStamps(periods: seq<Period>, actions: seq<MetricAction>, n: nat, k: nat)
    requires ValidPeriods(periods) && n <= |actions| && k < |periods|
  {
    var b := BlockActions(periods, actions, n, k);
    ValidActions(b) && exists j: nat :: j < |b| && LosesStamps(NewStores(periods)[k], NewLevels(periods, ZERO)[k], b, j)
  }

  ghost predicate KeepsStamps(periods: seq<Period>, actions: seq<MetricAction>, n: nat)
    requires ValidPeriods(periods) && n <= |actions|
  {
    forall k: nat :: k < |periods| ==> !BlockLosesStamps(periods, actions, n, k)
  }

  lemma {:induction false} BlockExact(periods: seq<Period>, actions: seq<MetricAction>, n: nat, k: nat)
    requires ValidPeriods(periods) && GoodRun(periods, actions) && n <= |actions| && k < |periods|
    requires !BlockLosesStamps(periods, actions, n, k)
    ensures k < |StoresAfter(periods, actions, n)|
    ensures Exact(StoresAfter(periods, actions, n)[k], Stored(periods, Recorded(actions, n))[k])
  {
    var b, s, l := BlockActions(periods, actions, n, k), NewStores(periods)[k], NewLevels(periods, ZERO)[k];
    Projects(periods, actions, n, k);
    NewStoreExact(periods[k].freq, periods[k].count, k == |periods| - 1);
    ExactUpTo(s, l, b, |b|);
    ExactTracked(s, l, b, |b|);
  }

  lemma {:induction false} MetricExact(periods: seq<Period>, actions: seq<MetricAction>, n: nat)
    requires ValidPeriods(periods) && GoodRun(periods, actions) && n <= |actions| && KeepsStamps(periods, actions, n)
    ensures AllExact(StoresAfter(periods, actions, n), Stored(periods, Recorded(actions, n)))
  {
    MetricAgrees(periods, actions, n);
    forall k: nat | k < |periods|
      ensures Exact(StoresAfter(periods, actions, n)[k], Stored(periods, Recorded(actions, n))[k])
    {
      BlockExact(periods, actions, n, k);
    }
  }

  /**
   * If no block has lost stamps, every query, with or without GROUP BY, is given exactly the tuples it would
   * get from a metric that keeps all of its arrays.
   */
  lemma {:induction false} CachedSelection(periods: seq<Period>, actions: seq<MetricAction>, n: nat, ts1: int, ts2: int)
    requires ValidPeriods(periods) && GoodRun(periods, actions) && n <= |actions|
    requires KeepsStamps(periods, actions, n)
    ensures AllReady(StoresAfter(periods, actions, n))
    ensures SelectedFromStores(StoresAfter(periods, actions, n), ts1, ts2)
         == SelectedFrom(Stored(periods, Recorded(actions, n)), ts1, ts2)
  {
    MetricExact(periods, actions, n);
    ExactAnswers(StoresAfter(periods, actions, n), Stored(periods, Recorded(actions, n)), ts1, ts2);
  }

  /**
   * So the rows of a GROUP BY query are those of that metric, and if the query is aligned and starts in
   * the live slots of the first block, they are the rows that the raw samples ask for.
   */
  lemma {:induction false} CachedGroupedAnswer(periods: seq<Period>, actions: seq<MetricAction>, n: nat,
                                               q: Walkers.Query)
    requires ValidPeriods(periods) && GoodRun(periods, actions) && n <= |actions| && NonNegative(Recorded(actions, n))
             && q.Valid()
    requires KeepsStamps(periods, actions, n)
    ensures AllReady(StoresAfter(periods, actions, n))
    ensures var levels, calls := Stored(periods, Recorded(actions, n)),
            SelectedFromStores(StoresAfter(periods, actions, n), q.tsBegin, q.tsEnd);
            && GoodCalls(q, calls) && calls == SelectedFrom(levels, q.tsBegin, q.tsEnd)
            && Answer(q, calls) == Answer(q, SelectedFrom(levels, q.tsBegin, q.tsEnd))
            && (AlignedQuery(q, periods[0].freq) && LiveFrom(levels[0], q.tsBegin) ==>
                  AllMoments(Answer(q, calls)) == RawRows(q, Recorded(actions, n), 0))
  {
    CachedSelection(periods, actions, n, q.tsBegin, q.tsEnd);
    SelectionIsGood(periods, Recorded(actions, n), q.tsBegin, q.tsEnd);
    assert GoodCalls(Walkers.Query.Query(q.tsBegin, q.tsEnd, q.groupBy),
                     SelectedFrom(Stored(periods, Recorded(actions, n)), q.tsBegin, q.tsEnd));
    if AlignedQuery(q, periods[0].freq) && LiveFrom(Stored(periods, Recorded(actions, n))[0], q.tsBegin) {
      AnswerIsRaw(periods, Recorded(actions, n), q);
    }
  }

  // ---------- The condition is exact

  lemma {:induction false} ActionsGrow(periods: seq<Period>, actions: seq<MetricAction>, m: nat, n: nat, k: nat)
      returns (more: seq<Action>)
    requires ValidPeriods(periods) && m <= n <= |actions| && k < |periods|
    ensures BlockActions(periods, actions, n, k) == BlockActions(periods, actions, m, k) + more
    decreases n
  {
    if m == n {
      more := [];
    } else {
      more := ActionsGrow(periods, actions, m, n - 1, k);
      var last := ToSeq(ActionOn(periods, actions, n - 1, k));
      assert BlockActions(periods, actions, m, k) + (more + last) == (BlockActions(periods, actions, m, k) + more)
          + last;
      more := more + last;
    }
  }

  /** The point of the run at which block k has had i actions. */
  lemma {:induction false} PointOf(periods: seq<Period>, actions: seq<MetricAction>, n: nat, k: nat, i: nat)
      returns (m: nat)
    requires ValidPeriods(periods) && n <= |actions| && k < |periods| && i <= |BlockActions(periods, actions, n, k)|
    ensures m <= n && |BlockActions(periods, actions, m, k)| == i
  {
    if |BlockActions(periods, actions, n, k)| == i {
      m := n;
    } else {
      m := PointOf(periods, actions, n - 1, k, i);
    }
  }

  /** Block k has the permanent array before action n. */
  ghost predicate SameArray(periods: seq<Period>, actions: seq<MetricAction>, n: nat, k: nat)
    requires ValidPeriods(periods) && n <= |actions| && k < |periods|
  {
    var stores := StoresAfter(periods, actions, n);
    k < |stores| && Known(stores[k]) && Contents(stores[k]) == Stored(periods, Recorded(actions, n))[k]
  }

  lemma {:induction false} SameArrayAt(periods: seq<Period>, actions: seq<MetricAction>, m: nat, n: nat, k: nat)
    requires ValidPeriods(periods) && GoodRun(periods, actions) && m <= n <= |actions| && k < |periods|
    ensures var b, s, l := BlockActions(periods, actions, n, k), NewStores(periods)[k], NewLevels(periods, ZERO)[k];
            && ValidActions(b) && |BlockActions(periods, actions, m, k)| <= |b|
            && (SameArray(periods, actions, m, k) <==> ExactAt(s, l, b, |BlockActions(periods, actions, m, k)|))
  {
    var b, s, l := BlockActions(periods, actions, m, k), NewStores(periods)[k], NewLevels(periods, ZERO)[k];
    Projects(periods, actions, m, k);
    Projects(periods, actions, n, k);
    var more := ActionsGrow(periods, actions, m, n, k);
    AfterPrefix(s, b, more, |b|);
    PermanentPrefix(l, b, more, |b|);
  }

  /** All blocks have the permanent arrays all along if and only if none of them loses stamps. */
  lemma {:induction false} ArraysSameIff(periods: seq<Period>, actions: seq<MetricAction>, n: nat)
    requires ValidPeriods(periods) && GoodRun(periods, actions) && n <= |actions|
    ensures KeepsStamps(periods, actions, n) <==>
            forall m: nat, k: nat :: m <= n && k < |periods| ==> SameArray(periods, actions, m, k)
  {
    if KeepsStamps(periods, actions, n) {
      forall m: nat, k: nat | m <= n && k < |periods|
        ensures SameArray(periods, actions, m, k)
      {
        ArraySameIff(periods, actions, n, k);
      }
    } else {
      var k: nat :| k < |periods| && BlockLosesStamps(periods, actions, n, k);
      ArraySameIff(periods, actions, n, k);
    }
  }

  lemma {:induction false} ArraySameIff(periods: seq<Period>, actions: seq<MetricAction>, n: nat, k: nat)
    requires ValidPeriods(periods) && GoodRun(periods, actions) && n <= |actions| && k < |periods|
    ensures !BlockLosesStamps(periods, actions, n, k) <==> forall m: nat :: m <= n ==> SameArray(periods, actions, m, k)
  {
    var b, s, l := BlockActions(periods, actions, n, k), NewStores(periods)[k], NewLevels(periods, ZERO)[k];
    Projects(periods, actions, n, k);
    NewStoreExact(periods[k].freq, periods[k].count, k == |periods| - 1);
    StampsLostIff(s, l, b);
    if forall i: nat :: i <= |b| ==> ExactAt(s, l, b, i) {
      forall m: nat | m <= n
        ensures SameArray(periods, actions, m, k)
      {
        SameArrayAt(periods, actions, m, n, k);
      }
    } else {
      var i: nat :| i <= |b| && !ExactAt(s, l, b, i);
      var m := PointOf(periods, actions, n, k, i);
      SameArrayAt(periods, actions, m, n, k);
    }
  }
}
