/**
 * The history model: the cascade run on lists of samples instead of aggregates. It tells, for
 * every slot of every block after any run of updates, exactly which samples the slot stands for.
 */
module History {
  import opened Options
  import opened Times
  import opened Rollup

  datatype Sample = Sample(ts: int, value: real)

  type Samples = seq<Sample>

  const HISTORY: Ops<Samples> := Ops([], (a: Samples, b: Samples) => a + b)

  type HOffer = Offer<Samples>
  type HLevel = Level<Samples>

  function SlotData(l: HLevel, i: nat): Samples {
    if i < |l.recent| then l.recent[i] else []
  }

  predicate Within(ts: int, lo: int, hi: int) { lo <= ts < hi }

  /** All samples offered for [lo, hi), in the order they were offered. */
  function Collected(stream: seq<HOffer>, lo: int, hi: int): Samples {
    if stream == [] then []
    else
      var o := stream[|stream| - 1];
      Collected(stream[..|stream| - 1], lo, hi) + if Within(o.ts, lo, hi) then o.data else []
  }

  function Flatten(stream: seq<HOffer>): Samples {
    if stream == [] then []
    else Flatten(stream[..|stream| - 1]) + stream[|stream| - 1].data
  }

  lemma {:induction false} CollectedSnoc(stream: seq<HOffer>, o: HOffer, lo: int, hi: int)
    ensures Collected(stream + [o], lo, hi)
         == Collected(stream, lo, hi) + if Within(o.ts, lo, hi) then o.data else []
  {
  }

  lemma {:induction false} CollectedNone(stream: seq<HOffer>, lo: int, hi: int)
    requires forall j :: 0 <= j < |stream| ==> stream[j].ts < lo
    ensures Collected(stream, lo, hi) == []
  {
    if stream != [] {
      CollectedNone(stream[..|stream| - 1], lo, hi);
    }
  }

  // ---------- Every slot holds exactly what was offered for its period

  /** The block is an exact window on the stream it was fed. */
  ghost predicate Tracks(l: HLevel, stream: seq<HOffer>) {
    && l.Wf()
    && (forall j :: 0 <= j < |stream| ==> stream[j].ts < l.LatestTs())
    && (forall i: nat :: i < l.count ==>
          SlotData(l, i) == Collected(stream, l.SlotTs(i), l.SlotTs(i) + l.freq))
  }

  lemma {:induction false} SlotsDisjoint(l: HLevel, ts: int, i: nat, j: nat)
    requires l.Wf() && Within(ts, l.SlotTs(i), l.SlotTs(i) + l.freq)
    requires Within(ts, l.SlotTs(j), l.SlotTs(j) + l.freq)
    ensures i == j
  {
    assert i * l.freq < (j + 1) * l.freq && j * l.freq < (i + 1) * l.freq;
    LessByFactor(i, j + 1, l.freq);
    LessByFactor(j, i + 1, l.freq);
  }

  /** A slot that is new to the window is newer than everything offered so far. */
  lemma {:induction false} NewSlotIsNewer(l: HLevel, ts: int, i: nat)
    requires l.Wf() && i < l.count && match Locate(l, ts) case Complete => true case Forward(n) => i < n case _ => false
    ensures l.LatestTs() <= Moved(l, ts, []).SlotTs(i)
  {
    LocateBounds(l, ts);
    match Locate(l, ts)
    case Complete => PeriodsApart(i, l.count, l.freq);
    case Forward(n) => PeriodsApart(i, n, l.freq);
  }

  lemma {:induction false} PeriodsApart(a: int, b: int, freq: int)
    requires a < b && freq > 0
    ensures a * freq + freq <= b * freq
  {
    MulMonotone(a + 1, b, freq);
    assert (a + 1) * freq == a * freq + freq;
  }

  /** Every slot of the moved window is an old one, or it is new and empty. */
  lemma {:induction false} MovedSlot(l: HLevel, ts: int, i: nat) returns (from: Option<nat>)
    requires l.Wf() && i < l.count
    ensures var m := Moved(l, ts, []);
            match from
            case None => SlotData(m, i) == [] && l.LatestTs() <= m.SlotTs(i)
            case Some(j) => j < l.count && SlotData(m, i) == SlotData(l, j) && m.SlotTs(i) == l.SlotTs(j)
  {
    match Locate(l, ts)
    case Complete =>
      NewSlotIsNewer(l, ts, i);
      from := None;
    case Forward(n) =>
      if i < n {
        NewSlotIsNewer(l, ts, i);
        from := None;
      } else {
        assert n * l.freq - i * l.freq == -((i - n) * l.freq);
        from := Some(i - n);
      }
    case _ =>
      from := Some(i);
  }

  lemma {:induction false} SlotStaysExact(l: HLevel, stream: seq<HOffer>, lo: int, data: Samples, from: Option<nat>)
    requires Tracks(l, stream)
    requires match from
             case None => data == [] && l.LatestTs() <= lo
             case Some(j) => j < l.count && data == SlotData(l, j) && lo == l.SlotTs(j)
    ensures data == Collected(stream, lo, lo + l.freq)
  {
    if from == None {
      CollectedNone(stream, lo, lo + l.freq);
    }
  }

  /** Before the data is merged, the moved window is already exact. */
  lemma {:induction false} MovedTracks(l: HLevel, ts: int, stream: seq<HOffer>, i: nat)
    requires Tracks(l, stream) && i < l.count
    ensures var m := Moved(l, ts, []);
            SlotData(m, i) == Collected(stream, m.SlotTs(i), m.SlotTs(i) + l.freq)
  {
    var from := MovedSlot(l, ts, i);
    SlotStaysExact(l, stream, Moved(l, ts, []).SlotTs(i), SlotData(Moved(l, ts, []), i), from);
  }

  /** The timestamp lies in the slot that is merged into, and in no other one. */
  lemma {:induction false} TargetIsTheSlot(l: HLevel, ts: int, i: nat)
    requires l.Wf() && i < l.count
    ensures var m := Moved(l, ts, []);
            Within(ts, m.SlotTs(i), m.SlotTs(i) + l.freq) <==> Target(Locate(l, ts)) == Some(i)
  {
    LocateBounds(l, ts);
    var m := Moved(l, ts, []);
    assert m.freq == l.freq && m.Wf();
    match Target(Locate(l, ts))
    case Some(j) =>
      assert j == 0 ==> m.SlotTs(j) == m.posTs;
      assert Within(ts, m.SlotTs(j), m.SlotTs(j) + l.freq);
      if Within(ts, m.SlotTs(i), m.SlotTs(i) + l.freq) {
        SlotsDisjoint(m, ts, i, j);
      }
    case None =>
      MulMonotone(i, l.count - 1, l.freq);
  }

  /** The step merges the data into the target slot of the moved window and touches no other slot. */
  lemma {:induction false} StepData(l: HLevel, o: HOffer, i: nat)
    requires l.Wf()
    ensures var m, r := Moved(l, o.ts, []), Step(l, o, HISTORY);
            && r.SlotTs(i) == m.SlotTs(i) && r.freq == l.freq
            && SlotData(r, i) == SlotData(m, i) + if Target(Locate(l, o.ts)) == Some(i) then o.data else []
  {
  }

  lemma {:induction false} StepTracksSlot(l: HLevel, o: HOffer, stream: seq<HOffer>, i: nat)
    requires Tracks(l, stream) && i < l.count
    ensures var r := Step(l, o, HISTORY);
            SlotData(r, i) == Collected(stream + [o], r.SlotTs(i), r.SlotTs(i) + r.freq)
  {
    MovedTracks(l, o.ts, stream, i);
    MergedSlot(l, o, stream, i);
  }

  lemma {:induction false} MergedSlot(l: HLevel, o: HOffer, stream: seq<HOffer>, i: nat)
    requires l.Wf() && i < l.count
    requires var m := Moved(l, o.ts, []); SlotData(m, i) == Collected(stream, m.SlotTs(i), m.SlotTs(i) + l.freq)
    ensures var r := Step(l, o, HISTORY);
            SlotData(r, i) == Collected(stream + [o], r.SlotTs(i), r.SlotTs(i) + r.freq)
  {
    var m, r := Moved(l, o.ts, []), Step(l, o, HISTORY);
    var lo := m.SlotTs(i);
    StepData(l, o, i);
    TargetIsTheSlot(l, o.ts, i);
    CollectedNext(stream, o, lo, l.freq, SlotData(m, i), SlotData(r, i));
  }

  lemma {:induction false} CollectedNext(stream: seq<HOffer>, o: HOffer, lo: int, freq: int, before: Samples,
                                         now: Samples)
    requires before == Collected(stream, lo, lo + freq)
    requires now == before + if Within(o.ts, lo, lo + freq) then o.data else []
    ensures now == Collected(stream + [o], lo, lo + freq)
  {
    CollectedSnoc(stream, o, lo, lo + freq);
  }

  lemma {:induction false} StepCoversAll(l: HLevel, o: HOffer)
    requires l.Wf()
    ensures var r := Step(l, o, HISTORY); l.posTs <= r.posTs && o.ts < r.LatestTs()
  {
  }

  lemma {:induction false} StepTracks(l: HLevel, o: HOffer, stream: seq<HOffer>)
    requires Tracks(l, stream)
    ensures Tracks(Step(l, o, HISTORY), stream + [o])
  {
    var r := Step(l, o, HISTORY);
    StepCoversAll(l, o);
    forall i: nat | i < r.count
      ensures SlotData(r, i) == Collected(stream + [o], r.SlotTs(i), r.SlotTs(i) + r.freq)
    {
      StepTracksSlot(l, o, stream, i);
    }
  }

  /**
   * After any stream of offers, in any order, each slot of the ring holds exactly the samples
   * offered for its period since the block was created: nothing in the window was lost, doubled
   * or put in a wrong slot.
   */
  lemma {:induction false} FeedTracks(freq: int, count: int, stream: seq<HOffer>)
    requires freq > 0 && count > 0
    ensures Tracks(Feed(Empty(freq, count, []), stream, HISTORY), stream)
  {
    var l := Empty(freq, count, []);
    if stream == [] {
      forall i: nat | i < count
        ensures SlotData(l, i) == []
      {
      }
    } else {
      var before, o := stream[..|stream| - 1], stream[|stream| - 1];
      FeedTracks(freq, count, before);
      StepTracks(Feed(l, before, HISTORY), o, before);
      assert before + [o] == stream;
    }
  }

  // ---------- Conservation

  /** One update neither loses nor doubles a sample between the current slot and the next block. */
  lemma {:induction false} StepConserves(l: HLevel, o: HOffer)
    requires l.Wf()
    ensures multiset(Step(l, o, HISTORY).recent[0]) + multiset(Flatten(ToSeq(Handed(l, o))))
         == multiset(l.recent[0]) + multiset(o.data)
  {
    LocateBounds(l, o.ts);
    var r := Step(l, o, HISTORY);
    match Handed(l, o)
    case None =>
    case Some(x) =>
      assert [x][..0] == [] && Flatten([x]) == [] + x.data == x.data;
      if Locate(l, o.ts).Complete? || Locate(l, o.ts).Forward? {
        assert r.recent[0] == [] + o.data == o.data;
      }
  }

  lemma {:induction false} FlattenAppend(a: seq<HOffer>, b: seq<HOffer>)
    ensures Flatten(a + b) == Flatten(a) + Flatten(b)
  {
    if b == [] {
      assert a + b == a;
    } else {
      FlattenAppend(a, b[..|b| - 1]);
      assert (a + b)[..|a + b| - 1] == a + b[..|b| - 1];
    }
  }

  lemma {:induction false} Regroup<T>(current: multiset<T>, passed: multiset<T>, start: multiset<T>,
                                      offered: multiset<T>,
                   next: multiset<T>, handed: multiset<T>, data: multiset<T>)
    requires current + passed == start + offered
    requires next + handed == current + data
    ensures next + (passed + handed) == start + (offered + data)
  {
    assert next + (passed + handed) == (next + handed) + passed;
    assert (current + data) + passed == (current + passed) + data;
  }

  /** What was offered to a block is its current slot plus what it passed on. */
  lemma {:induction false} FeedConserves(l: HLevel, stream: seq<HOffer>)
    requires l.Wf()
    ensures multiset(Feed(l, stream, HISTORY).recent[0]) + multiset(Flatten(Passed(l, stream, HISTORY)))
         == multiset(l.recent[0]) + multiset(Flatten(stream))
  {
    if stream != [] {
      var before, o := stream[..|stream| - 1], stream[|stream| - 1];
      FeedConserves(l, before);
      var fed, out := Feed(l, before, HISTORY), Passed(l, before, HISTORY);
      var handed := ToSeq(Handed(fed, o));
      StepConserves(fed, o);
      FlattenAppend(out, handed);
      Regroup(multiset(fed.recent[0]), multiset(Flatten(out)), multiset(l.recent[0]), multiset(Flatten(before)),
              multiset(Step(fed, o, HISTORY).recent[0]), multiset(Flatten(handed)), multiset(o.data));
    }
  }

  ghost predicate Fresh(levels: seq<HLevel>) {
    && AllWf(levels)
    && forall k :: 0 <= k < |levels| ==> levels[k] == Empty(levels[k].freq, levels[k].count, [])
  }

  /** The samples in the current slot of block k after the stream of updates, and all that was offered to it. */
  function InCurrent(levels: seq<HLevel>, stream: seq<HOffer>, k: nat): multiset<Sample>
    requires AllWf(levels)
  {
    if k < |levels| then multiset(BlockAfter(levels, stream, HISTORY, k).recent[0]) else multiset{}
  }

  function Offered(levels: seq<HLevel>, stream: seq<HOffer>, k: nat): multiset<Sample>
    requires AllWf(levels)
  {
    if k <= |levels| then multiset(Flatten(StreamAt(levels, stream, HISTORY, k))) else multiset{}
  }

  function SumTo<T>(part: nat -> multiset<T>, k: nat): multiset<T> {
    if k == 0 then multiset{} else SumTo(part, k - 1) + part(k - 1)
  }

  /** The samples in the current slots of the first k blocks. */
  function CurrentSamples(levels: seq<HLevel>, stream: seq<HOffer>, k: nat): multiset<Sample>
    requires AllWf(levels)
  {
    SumTo(j => InCurrent(levels, stream, j), k)
  }

  lemma {:induction false} Telescopes<T>(kept: nat -> multiset<T>, offered: nat -> multiset<T>, k: nat)
    requires forall j: nat :: j < k ==> kept(j) + offered(j + 1) == offered(j)
    ensures SumTo(kept, k) + offered(k) == offered(0)
  {
    if k > 0 {
      Telescopes(kept, offered, k - 1);
      assert kept(k - 1) + offered(k - 1 + 1) == offered(k - 1);
    }
  }

  /** A block that starts empty splits what it is offered into its current slot and what it passes on. */
  lemma {:induction false} ConserveOne(l: HLevel, stream: seq<HOffer>)
    requires l.Wf() && l.recent[0] == []
    ensures multiset(Feed(l, stream, HISTORY).recent[0]) + multiset(Flatten(Passed(l, stream, HISTORY)))
         == multiset(Flatten(stream))
  {
    FeedConserves(l, stream);
    assert multiset(l.recent[0]) == multiset{};
  }

  /**
   * Rollup conservation: over every run of updates, in any order, the current slots of the first
   * k blocks together with everything offered to block k are exactly the samples recorded.
   */
  lemma {:induction false} RunConserves(levels: seq<HLevel>, stream: seq<HOffer>, k: nat)
    requires Fresh(levels) && k <= |levels|
    ensures CurrentSamples(levels, stream, k) + multiset(Flatten(StreamAt(levels, stream, HISTORY, k)))
         == multiset(Flatten(stream))
  {
    forall j: nat | j < k
      ensures InCurrent(levels, stream, j) + Offered(levels, stream, j + 1) == Offered(levels, stream, j)
    {
      BlockConserves(levels, stream, j);
    }
    Telescopes(j => InCurrent(levels, stream, j), j => Offered(levels, stream, j), k);
  }

  lemma {:induction false} BlockConserves(levels: seq<HLevel>, stream: seq<HOffer>, k: nat)
    requires Fresh(levels) && k < |levels|
    ensures InCurrent(levels, stream, k) + Offered(levels, stream, k + 1) == Offered(levels, stream, k)
  {
    assert levels[k] == Empty(levels[k].freq, levels[k].count, []);
    ConserveOne(levels[k], StreamAt(levels, stream, HISTORY, k));
  }

  /** Every slot of every block holds exactly the samples offered to that block for its period. */
  lemma {:induction false} RunTracks(levels: seq<HLevel>, stream: seq<HOffer>, k: nat)
    requires Fresh(levels) && k < |levels|
    ensures Tracks(Run(levels, stream, HISTORY)[k], StreamAt(levels, stream, HISTORY, k))
  {
    RunAt(levels, stream, HISTORY);
    FeedTracks(levels[k].freq, levels[k].count, StreamAt(levels, stream, HISTORY, k));
  }

  // ---------- Levels are ordered in time

  /** Time only moves forward in a block, and what it passes on is strictly older than its current slot. */
  lemma {:induction false} StepOrdered<D>(l: Level<D>, o: Offer<D>, ops: Ops<D>)
    requires l.Wf()
    ensures l.posTs <= Step(l, o, ops).posTs
    ensures Step(l, o, ops).posTs <= Max(l.posTs, o.ts)
    ensures Handed(l, o).Some? ==> Handed(l, o).value.ts < Step(l, o, ops).posTs
  {
  }

  lemma {:induction false} FeedBounded<D>(l: Level<D>, stream: seq<Offer<D>>, ops: Ops<D>, bound: int)
    requires l.Wf() && l.posTs <= bound
    requires forall j :: 0 <= j < |stream| ==> stream[j].ts <= bound
    ensures l.posTs <= Feed(l, stream, ops).posTs <= bound
  {
    if stream != [] {
      FeedBounded(l, stream[..|stream| - 1], ops, bound);
      StepOrdered(Feed(l, stream[..|stream| - 1], ops), stream[|stream| - 1], ops);
    }
  }

  ghost predicate AllBefore<D>(stream: seq<Offer<D>>, ts: int) {
    forall j :: 0 <= j < |stream| ==> stream[j].ts < ts
  }

  lemma {:induction false} PassedOlder<D>(l: Level<D>, stream: seq<Offer<D>>, ops: Ops<D>)
    requires l.Wf()
    ensures l.posTs <= Feed(l, stream, ops).posTs
    ensures AllBefore(Passed(l, stream, ops), Feed(l, stream, ops).posTs)
  {
    if stream != [] {
      var before, o := stream[..|stream| - 1], stream[|stream| - 1];
      PassedOlder(l, before, ops);
      StepOrdered(Feed(l, before, ops), o, ops);
    }
  }

  lemma {:induction false} StaysBefore<D>(l: Level<D>, stream: seq<Offer<D>>, ops: Ops<D>, p: int)
    requires l.Wf() && l.posTs == 0 <= p && AllBefore(stream, p)
    ensures AllBefore(Passed(l, stream, ops), p)
  {
    PassedOlder(l, stream, ops);
    FeedBounded(l, stream, ops, Max(0, p - 1));
  }

  lemma {:induction false} OffersOrdered<D>(levels: seq<Level<D>>, stream: seq<Offer<D>>, ops: Ops<D>, k: nat, m: nat)
    requires AllWf(levels) && k < m <= |levels|
    requires forall i :: 0 <= i < |levels| ==> levels[i].posTs == 0
    ensures AllBefore(StreamAt(levels, stream, ops, m), BlockAfter(levels, stream, ops, k).posTs)
    ensures 0 <= BlockAfter(levels, stream, ops, k).posTs
    decreases m
  {
    var prev := StreamAt(levels, stream, ops, m - 1);
    if k < m - 1 {
      OffersOrdered(levels, stream, ops, k, m - 1);
      StaysBefore(levels[m - 1], prev, ops, BlockAfter(levels, stream, ops, k).posTs);
    } else {
      PassedOlder(levels[m - 1], prev, ops);
    }
  }

  /**
   * Everything ever offered to block m is older than the current slot of every earlier block k,
   * and block m is strictly behind block k, unless both are still at 0.
   */
  lemma {:induction false} LevelsOrdered<D>(levels: seq<Level<D>>, stream: seq<Offer<D>>, ops: Ops<D>, k: nat, m: nat)
    requires AllWf(levels) && k < m < |levels|
    requires forall i :: 0 <= i < |levels| ==> levels[i].posTs == 0
    ensures AllBefore(StreamAt(levels, stream, ops, m), Run(levels, stream, ops)[k].posTs)
    ensures var r := Run(levels, stream, ops);
            r[m].posTs < r[k].posTs || r[m].posTs == r[k].posTs == 0
  {
    OffersOrdered(levels, stream, ops, k, m);
    RunAt(levels, stream, ops);
    var s, p := StreamAt(levels, stream, ops, m), BlockAfter(levels, stream, ops, k).posTs;
    FeedBounded(levels[m], s, ops, Max(0, p - 1));
  }
}
