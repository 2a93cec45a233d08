/**
 * The aggregates the engine stores are exact summaries of the samples of the history model, and
 * every slot of every block starts at a multiple of the first block's frequency.
 */
module Summaries {
  import opened Times
  import opened Tuples
  import opened Rollup
  import opened History

  const STATS: Ops<Stats> := Ops(ZERO, (a: Stats, b: Stats) => Merge(a, b))

  type SOffer = Offer<Stats>
  type SLevel = Level<Stats>

  function Values(s: Samples): (v: seq<real>)
    ensures |v| == |s|
  {
    seq(|s|, i requires 0 <= i < |s| => s[i].value)
  }

  lemma {:induction false} ValuesAppend(a: Samples, b: Samples)
    ensures Values(a + b) == Values(a) + Values(b)
  {
  }

  ghost predicate OfferMatches(n: SOffer, h: HOffer) {
    n.ts == h.ts && Summarizes(n.data, Values(h.data))
  }

  ghost predicate StreamMatches(n: seq<SOffer>, h: seq<HOffer>) {
    |n| == |h| && forall j :: 0 <= j < |h| ==> OfferMatches(n[j], h[j])
  }

  ghost predicate LevelMatches(n: SLevel, h: HLevel) {
    && n.Wf() && h.Wf()
    && n.freq == h.freq && n.count == h.count && n.posTs == h.posTs && |n.recent| == |h.recent|
    && forall i :: 0 <= i < |h.recent| ==> Summarizes(n.recent[i], Values(h.recent[i]))
  }

  /** Only the first offer may be empty, and then it is the untouched slot of a new block. */
  ghost predicate Tidy(stream: seq<HOffer>) {
    forall j :: 0 <= j < |stream| ==>
      0 <= stream[j].ts && (stream[j].data == [] ==> j == 0 && stream[j].ts == 0)
  }

  lemma {:induction false} EmptySummarizes()
    ensures Summarizes(ZERO, Values([]))
  {
  }

  /** Moving the window keeps the two models in step. */
  lemma {:induction false} MovedMatches(n: SLevel, h: HLevel, ts: int)
    requires LevelMatches(n, h)
    ensures LevelMatches(Moved(n, ts, ZERO), Moved(h, ts, []))
  {
    LocateBounds(n, ts);
    LocateBounds(h, ts);
    assert Locate(n, ts) == Locate(h, ts);
    EmptySummarizes();
  }

  lemma {:induction false} StepMatches(n: SLevel, h: HLevel, no: SOffer, ho: HOffer)
    requires LevelMatches(n, h) && OfferMatches(no, ho)
    requires ho.data != [] || (Locate(h, ho.ts).Current? && h.recent[0] == [])
    ensures LevelMatches(Step(n, no, STATS), Step(h, ho, HISTORY))
  {
    MovedMatches(n, h, ho.ts);
    LocateBounds(n, ho.ts);
    LocateBounds(h, ho.ts);
    assert Locate(n, no.ts) == Locate(h, ho.ts);
    var mn, mh := Moved(n, no.ts, ZERO), Moved(h, ho.ts, []);
    match Target(Locate(h, ho.ts))
    case Some(i) =>
      ValuesAppend(mh.recent[i], ho.data);
      assert ho.data != [] ==> Values(ho.data) != [];
      MergeSummarizes(mn.recent[i], Values(mh.recent[i]), no.data, Values(ho.data));
    case None =>
  }

  lemma {:induction false} HandedMatches(n: SLevel, h: HLevel, no: SOffer, ho: HOffer)
    requires LevelMatches(n, h) && OfferMatches(no, ho)
    ensures StreamMatches(ToSeq(Handed(n, no)), ToSeq(Handed(h, ho)))
  {
  }

  /** A block that has an empty current slot has passed nothing on; and it never passes on an empty tuple twice. */
  lemma {:induction false} FeedTidy(freq: int, count: int, stream: seq<HOffer>)
    requires freq > 0 && count > 0 && Tidy(stream)
    ensures var l := Feed(Empty(freq, count, []), stream, HISTORY);
            0 <= l.posTs && (l.recent[0] == [] ==>
                                l.posTs == 0 && Passed(Empty(freq, count, []), stream, HISTORY) == [])
    ensures Tidy(Passed(Empty(freq, count, []), stream, HISTORY))
  {
    var l0 := Empty(freq, count, []);
    if stream != [] {
      var before, o := stream[..|stream| - 1], stream[|stream| - 1];
      FeedTidy(freq, count, before);
      var fed := Feed(l0, before, HISTORY);
      LocateBounds(fed, o.ts);
      StepOrdered(fed, o, HISTORY);
      if o.data == [] {
        assert before == [] && fed == l0;
        assert Locate(fed, o.ts).Current?;
      }
    }
  }

  lemma {:induction false} FeedMatches(freq: int, count: int, n: seq<SOffer>, h: seq<HOffer>)
    requires freq > 0 && count > 0 && Tidy(h) && StreamMatches(n, h)
    ensures LevelMatches(Feed(Empty(freq, count, ZERO), n, STATS), Feed(Empty(freq, count, []), h, HISTORY))
    ensures StreamMatches(Passed(Empty(freq, count, ZERO), n, STATS), Passed(Empty(freq, count, []), h, HISTORY))
  {
    EmptySummarizes();
    if h != [] {
      var nb, hb, no, ho := n[..|n| - 1], h[..|h| - 1], n[|n| - 1], h[|h| - 1];
      FeedMatches(freq, count, nb, hb);
      var fn, fh := Feed(Empty(freq, count, ZERO), nb, STATS), Feed(Empty(freq, count, []), hb, HISTORY);
      FeedTidy(freq, count, hb);
      assert OfferMatches(no, ho);
      if ho.data == [] {
        assert hb == [] && fh == Empty(freq, count, []);
      }
      StepMatches(fn, fh, no, ho);
      HandedMatches(fn, fh, no, ho);
    }
  }

  // ---------- A run of updates on a new metric

  datatype Period = Period(freq: int, count: int)

  ghost predicate ValidPeriods(periods: seq<Period>) {
    periods != [] && forall k :: 0 <= k < |periods| ==> periods[k].freq > 0 && periods[k].count > 0
  }

  function NewLevels<D>(periods: seq<Period>, blank: D): (levels: seq<Level<D>>)
    requires ValidPeriods(periods)
    ensures |levels| == |periods| && AllWf(levels)
    ensures forall k :: 0 <= k < |periods| ==> levels[k] == Empty(periods[k].freq, periods[k].count, blank)
  {
    seq(|periods|, k requires 0 <= k < |periods| => Empty(periods[k].freq, periods[k].count, blank))
  }

  /** The samples as offered to the first block: timestamps are aligned to its frequency. */
  function SampleOffers(samples: Samples, freq: int): (s: seq<HOffer>)
    requires freq > 0
    ensures |s| == |samples|
  {
    seq(|samples|, i requires 0 <= i < |samples| => Offer(Normalized(samples[i].ts, freq), [samples[i]]))
  }

  function ValueOffers(samples: Samples, freq: int): (s: seq<SOffer>)
    requires freq > 0
    ensures |s| == |samples|
  {
    seq(|samples|, i requires 0 <= i < |samples| => Offer(Normalized(samples[i].ts, freq), Single(samples[i].value)))
  }

  /** The metric after the updates, as stored. */
  function Stored(periods: seq<Period>, samples: Samples): seq<SLevel>
    requires ValidPeriods(periods)
  {
    Run(NewLevels(periods, ZERO), ValueOffers(samples, periods[0].freq), STATS)
  }

  /** The stream of samples that reaches block k. */
  function Reaching(periods: seq<Period>, samples: Samples, k: nat): seq<HOffer>
    requires ValidPeriods(periods) && k <= |periods|
  {
    StreamAt(NewLevels(periods, []), SampleOffers(samples, periods[0].freq), HISTORY, k)
  }

  ghost predicate NonNegative(samples: Samples) {
    forall i :: 0 <= i < |samples| ==> 0 <= samples[i].ts
  }

  lemma {:induction false} OffersMatch(samples: Samples, freq: int)
    requires freq > 0 && NonNegative(samples)
    ensures StreamMatches(ValueOffers(samples, freq), SampleOffers(samples, freq))
    ensures Tidy(SampleOffers(samples, freq))
  {
    forall i | 0 <= i < |samples|
      ensures OfferMatches(ValueOffers(samples, freq)[i], SampleOffers(samples, freq)[i])
      ensures 0 <= Normalized(samples[i].ts, freq)
    {
      SingleSummarizes(samples[i].value);
      assert Values([samples[i]]) == [samples[i].value];
      NormalizedBrackets(samples[i].ts, freq);
    }
  }

  lemma {:induction false} StreamsMatch(periods: seq<Period>, samples: Samples, k: nat)
    requires ValidPeriods(periods) && NonNegative(samples) && k <= |periods|
    ensures StreamMatches(StreamAt(NewLevels(periods, ZERO), ValueOffers(samples, periods[0].freq), STATS, k),
                          Reaching(periods, samples, k))
    ensures Tidy(Reaching(periods, samples, k))
  {
    if k == 0 {
      OffersMatch(samples, periods[0].freq);
    } else {
      StreamsMatch(periods, samples, k - 1);
      var p := periods[k - 1];
      var n := StreamAt(NewLevels(periods, ZERO), ValueOffers(samples, periods[0].freq), STATS, k - 1);
      FeedMatches(p.freq, p.count, n, Reaching(periods, samples, k - 1));
      FeedTidy(p.freq, p.count, Reaching(periods, samples, k - 1));
    }
  }

  /** The stored block is in step with a block of the history model that tracks its stream exactly. */
  lemma {:induction false} StoredTracks(periods: seq<Period>, samples: Samples, k: nat) returns (h: HLevel)
    requires ValidPeriods(periods) && NonNegative(samples) && k < |periods|
    ensures LevelMatches(Stored(periods, samples)[k], h) && Tracks(h, Reaching(periods, samples, k))
  {
    var nl, ns := NewLevels(periods, ZERO), ValueOffers(samples, periods[0].freq);
    RunAt(nl, ns, STATS);
    StreamsMatch(periods, samples, k);
    var p, s := periods[k], StreamAt(nl, ns, STATS, k);
    assert Stored(periods, samples)[k] == Feed(Empty(p.freq, p.count, ZERO), s, STATS);
    h := Feed(Empty(p.freq, p.count, []), Reaching(periods, samples, k), HISTORY);
    FeedMatches(p.freq, p.count, s, Reaching(periods, samples, k));
    FeedTracks(p.freq, p.count, Reaching(periods, samples, k));
  }

  /** Slot i is the exact count, sum, sum of squares, minimum and maximum of what was offered for its period. */
  ghost predicate ExactSlot(l: SLevel, stream: seq<HOffer>, i: nat)
    requires i < |l.recent|
  {
    Summarizes(l.recent[i], Values(Collected(stream, l.SlotTs(i), l.SlotTs(i) + l.freq)))
  }

  /**
   * Exact summaries: after any run of updates, every slot of every block is the exact summary of
   * all samples offered to that block for the slot's period.
   */
  lemma {:induction false} SlotsAreExact(periods: seq<Period>, samples: Samples, k: nat)
    requires ValidPeriods(periods) && NonNegative(samples) && k < |periods|
    ensures var l := Stored(periods, samples)[k];
            forall i: nat :: i < |l.recent| ==> ExactSlot(l, Reaching(periods, samples, k), i)
  {
    var l := Stored(periods, samples)[k];
    var h := StoredTracks(periods, samples, k);
    forall i: nat | i < |l.recent|
      ensures ExactSlot(l, Reaching(periods, samples, k), i)
    {
      assert SlotData(h, i) == h.recent[i];
      assert l.SlotTs(i) == h.SlotTs(i);
    }
  }

  // ---------- Variance

  lemma {:induction false} SummaryPlausible(t: Stats, values: seq<real>)
    requires Summarizes(t, values)
    ensures Plausible(t)
  {
    forall x
      ensures 0.0 <= Spread(t, x)
    {
      SpreadOfValues(t, values, x);
    }
    if values != [] {
      BoundedSum(values, t.min, t.max);
    } else {
      assert Sum(values) == 0.0 && SumSqr(values) == 0.0;
    }
  }

  lemma {:induction false} SpreadOfValues(t: Stats, values: seq<real>, x: real)
    requires t.count == |values| as real && t.sum == Sum(values) && t.sumSqr == SumSqr(values)
    ensures 0.0 <= Spread(t, x)
    decreases |values|
  {
    if values != [] {
      var rest, v := values[..|values| - 1], values[|values| - 1];
      var u := t.(count := |rest| as real, sum := Sum(rest), sumSqr := SumSqr(rest));
      SpreadOfValues(u, rest, x);
      OneMoreSpread(u, t, v, x);
    }
  }

  lemma {:induction false} BoundedSum(values: seq<real>, lo: real, hi: real)
    requires forall v :: v in values ==> lo <= v <= hi
    ensures |values| as real * lo <= Sum(values) <= |values| as real * hi
  {
    if values != [] {
      var rest, v := values[..|values| - 1], values[|values| - 1];
      assert forall u :: u in rest ==> u in values;
      BoundedSum(rest, lo, hi);
      assert v in values;
      assert |values| as real == |rest| as real + 1.0;
      assert (|rest| as real + 1.0) * lo == |rest| as real * lo + lo;
      assert (|rest| as real + 1.0) * hi == |rest| as real * hi + hi;
    }
  }

  /** No slot of any block ever has a negative variance, and its average is between min and max. */
  lemma {:induction false} StoredVariance(periods: seq<Period>, samples: Samples, k: nat, i: nat)
    requires ValidPeriods(periods) && NonNegative(samples) && k < |periods|
    requires i < |Stored(periods, samples)[k].recent|
    ensures var t := Stored(periods, samples)[k].recent[i];
            0.0 <= Variance(t) && (t.count > 0.0 ==> t.min <= Average(t) <= t.max)
  {
    SlotsAreExact(periods, samples, k);
    var l := Stored(periods, samples)[k];
    assert ExactSlot(l, Reaching(periods, samples, k), i);
    SummaryPlausible(l.recent[i], Values(Collected(Reaching(periods, samples, k), l.SlotTs(i), l.SlotTs(i) + l.freq)));
    VarianceNonNegative(l.recent[i]);
  }

  // ---------- Alignment

  ghost predicate AlignedStream<D>(stream: seq<Offer<D>>, g: int)
    requires g > 0
  {
    forall j :: 0 <= j < |stream| ==> Divides(g, stream[j].ts)
  }

  ghost predicate AlignedLevel<D>(l: Level<D>, g: int)
    requires g > 0
  {
    l.Wf() && Divides(g, l.freq) && Divides(g, l.posTs)
  }

  lemma {:induction false} StepAligned<D>(l: Level<D>, o: Offer<D>, ops: Ops<D>, g: int)
    requires g > 0 && AlignedLevel(l, g) && Divides(g, o.ts)
    ensures AlignedLevel(Step(l, o, ops), g)
    ensures Handed(l, o).Some? ==> Divides(g, Handed(l, o).value.ts)
  {
    LocateBounds(l, o.ts);
    match Locate(l, o.ts)
    case Forward(n) =>
      DividesMultiple(g, l.freq, n);
      DividesSum(g, l.posTs, n * l.freq);
    case _ =>
  }

  lemma {:induction false} FeedAligned<D>(l: Level<D>, stream: seq<Offer<D>>, ops: Ops<D>, g: int)
    requires g > 0 && AlignedLevel(l, g) && AlignedStream(stream, g)
    ensures AlignedLevel(Feed(l, stream, ops), g) && AlignedStream(Passed(l, stream, ops), g)
  {
    if stream != [] {
      FeedAligned(l, stream[..|stream| - 1], ops, g);
      StepAligned(Feed(l, stream[..|stream| - 1], ops), stream[|stream| - 1], ops, g);
    }
  }

  lemma {:induction false} StreamAligned<D>(levels: seq<Level<D>>, stream: seq<Offer<D>>, ops: Ops<D>, k: nat, g: int)
    requires AllWf(levels) && k <= |levels| && g > 0 && AlignedStream(stream, g)
    requires forall i :: 0 <= i < k ==> AlignedLevel(levels[i], g)
    ensures AlignedStream(StreamAt(levels, stream, ops, k), g)
    decreases k
  {
    if k > 0 {
      StreamAligned(levels, stream, ops, k - 1, g);
      FeedAligned(levels[k - 1], StreamAt(levels, stream, ops, k - 1), ops, g);
    }
  }

  lemma {:induction false} BlockAligned(periods: seq<Period>, samples: Samples, k: nat)
    requires ValidPeriods(periods) && NonNegative(samples) && k < |periods|
    requires forall j :: 0 <= j <= k ==> Divides(periods[0].freq, periods[j].freq)
    ensures AlignedLevel(Stored(periods, samples)[k], periods[0].freq)
    ensures Stored(periods, samples)[k].freq == periods[k].freq
  {
    var g := periods[0].freq;
    var all, stream := NewLevels(periods, ZERO), ValueOffers(samples, g);
    forall j | 0 <= j < |stream|
      ensures Divides(g, stream[j].ts)
    {
      NormalizedBrackets(samples[j].ts, g);
    }
    MultipleIsDivisible(g, 0);
    StreamAligned(all, stream, STATS, k, g);
    FeedAligned(all[k], StreamAt(all, stream, STATS, k), STATS, g);
    RunAt(all, stream, STATS);
    assert Stored(periods, samples)[k] == BlockAfter(all, stream, STATS, k);
  }

  lemma {:induction false} FirstBlockAligned(periods: seq<Period>, samples: Samples)
    requires ValidPeriods(periods) && NonNegative(samples)
    ensures AlignedLevel(Stored(periods, samples)[0], periods[0].freq)
    ensures Stored(periods, samples)[0].freq == periods[0].freq
  {
    MultipleIsDivisible(periods[0].freq, 1);
    BlockAligned(periods, samples, 0);
  }

  /**
   * In every reachable state each slot of each block starts and ends at a multiple of the first
   * block's frequency, so a bucket of the first block lies in one slot or outside it.
   */
  lemma {:induction false} BucketsNeverStraddle(periods: seq<Period>, samples: Samples, k: nat, i: nat, bucket: int)
    requires ValidPeriods(periods) && NonNegative(samples) && k < |periods|
    requires forall j :: 0 <= j < |periods| ==> Divides(periods[0].freq, periods[j].freq)
    requires Divides(periods[0].freq, bucket)
    ensures var l := Stored(periods, samples)[k]; var g := periods[0].freq;
            && Divides(g, l.SlotTs(i)) && Divides(g, l.SlotTs(i) + l.freq)
            && (bucket + g <= l.SlotTs(i) || l.SlotTs(i) + l.freq <= bucket
                || (l.SlotTs(i) <= bucket && bucket + g <= l.SlotTs(i) + l.freq))
  {
    var g, l := periods[0].freq, Stored(periods, samples)[k];
    BlockAligned(periods, samples, k);
    DividesMultiple(g, l.freq, i);
    DividesSum(g, l.posTs, i * l.freq);
    DividesSum(g, l.SlotTs(i), l.freq);
    if bucket < l.SlotTs(i) {
      MultiplesApart(g, bucket, l.SlotTs(i));
    } else if bucket < l.SlotTs(i) + l.freq {
      MultiplesApart(g, bucket, l.SlotTs(i) + l.freq);
    }
  }
}
