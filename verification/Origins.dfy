/**
 * What the coarser blocks hold of the raw samples. A slot that is rolled up is offered to the next block
 * at the slot's own timestamp, so on its way a sample may move to an earlier time, and never to a later one.
 */
module Origins {
  import opened Times
  import opened Tuples
  import opened Rollup
  import opened History
  import opened Summaries
  import opened Queries

  /** No sample of the offer is older than the offer. */
  ghost predicate InTime(o: HOffer) { 0 <= o.ts && forall s :: s in o.data ==> o.ts <= s.ts }

  ghost predicate Early(stream: seq<HOffer>) { forall o :: o in stream ==> InTime(o) }

  /** A sample from e or later is offered below e. */
  ghost predicate Strays(o: HOffer, e: int) { o.ts < e && exists s :: s in o.data && e <= s.ts }

  ghost predicate HasStray(stream: seq<HOffer>, e: int) { exists o :: o in stream && Strays(o, e) }

  // ---------- Counting samples

  lemma {:induction false} PeriodCount(samples: Samples, lo: int, hi: int, s: Sample)
    ensures multiset(InPeriod(samples, lo, hi))[s] == if Within(s.ts, lo, hi) then multiset(samples)[s] else 0
  {
    if samples != [] {
      PeriodCount(samples[..|samples| - 1], lo, hi, s);
      assert samples == samples[..|samples| - 1] + [samples[|samples| - 1]];
    }
  }

  lemma {:induction false} CollectedMember(stream: seq<HOffer>, lo: int, hi: int, s: Sample)
    ensures s in Collected(stream, lo, hi) <==> exists o :: o in stream && s in o.data && Within(o.ts, lo, hi)
  {
    if stream != [] {
      var before, o := stream[..|stream| - 1], stream[|stream| - 1];
      CollectedMember(before, lo, hi, s);
      assert forall x :: x in stream <==> x in before || x == o;
    }
  }

  /** All samples below the edge are offered below it. */
  lemma {:induction false} BelowIsOffered(stream: seq<HOffer>, e: int, s: Sample)
    requires Early(stream) && s.ts < e
    ensures multiset(Collected(stream, 0, e))[s] == multiset(Flatten(stream))[s]
  {
    if stream != [] {
      var before, o := stream[..|stream| - 1], stream[|stream| - 1];
      assert forall x :: x in before ==> x in stream;
      BelowIsOffered(before, e, s);
      assert InTime(o);
      if !Within(o.ts, 0, e) {
        assert s !in o.data;
      }
    }
  }

  /** Offers of adjacent periods. */
  lemma {:induction false} CollectedSplits(stream: seq<HOffer>, lo: int, hi: int)
    requires Tidy(stream) && lo <= hi
    ensures multiset(Collected(stream, 0, hi)) == multiset(Collected(stream, 0, lo))
            + multiset(Collected(stream, lo, hi))
  {
    if stream != [] {
      CollectedSplits(stream[..|stream| - 1], lo, hi);
      assert 0 <= stream[|stream| - 1].ts;
    }
  }

  // ---------- One block

  ghost predicate RollsUp(p: Placement) { p.Complete? || p.Forward? }

  /**
   * The offer at index i makes the block roll up a slot that e lies strictly inside of, and that holds a
   * sample from e or later.
   */
  ghost predicate RollsAcross(l: HLevel, stream: seq<HOffer>, i: nat, e: int)
    requires l.Wf() && i < |stream|
  {
    var b := Feed(l, stream[..i], HISTORY);
    RollsUp(Locate(b, stream[i].ts)) && e < b.posTs + b.freq && Strays(Offer(b.posTs, b.recent[0]), e)
  }

  lemma {:induction false} CurrentIsOffered(freq: int, count: int, stream: seq<HOffer>, s: Sample) returns (o: HOffer)
    requires freq > 0 && count > 0 && s in Feed(Empty(freq, count, []), stream, HISTORY).recent[0]
    ensures var b := Feed(Empty(freq, count, []), stream, HISTORY);
            o in stream && s in o.data && b.posTs <= o.ts < b.posTs + freq
  {
    var b := Feed(Empty(freq, count, []), stream, HISTORY);
    FeedTracks(freq, count, stream);
    assert SlotData(b, 0) == b.recent[0] && b.SlotTs(0) == b.posTs;
    CollectedMember(stream, b.posTs, b.posTs + freq, s);
    o :| o in stream && s in o.data && Within(o.ts, b.posTs, b.posTs + freq);
  }

  /** The samples in the current slot are not older than the slot. */
  lemma {:induction false} CurrentInTime(freq: int, count: int, stream: seq<HOffer>)
    requires freq > 0 && count > 0 && Early(stream)
    ensures var b := Feed(Empty(freq, count, []), stream, HISTORY); InTime(Offer(b.posTs, b.recent[0]))
  {
    var b := Feed(Empty(freq, count, []), stream, HISTORY);
    PassedOlder(Empty(freq, count, []), stream, HISTORY);
    forall s | s in b.recent[0]
      ensures b.posTs <= s.ts
    {
      var o := CurrentIsOffered(freq, count, stream, s);
      assert InTime(o);
    }
  }

  lemma {:induction false} PassedEarly(freq: int, count: int, stream: seq<HOffer>)
    requires freq > 0 && count > 0 && Early(stream)
    ensures Early(Passed(Empty(freq, count, []), stream, HISTORY))
  {
    if stream != [] {
      var before, o := stream[..|stream| - 1], stream[|stream| - 1];
      assert forall x :: x in before ==> x in stream;
      PassedEarly(freq, count, before);
      CurrentInTime(freq, count, before);
      assert InTime(o);
    }
  }

  lemma {:induction false} PassedSnoc(l: HLevel, before: seq<HOffer>, o: HOffer)
    requires l.Wf()
    ensures Feed(l, before + [o], HISTORY) == Step(Feed(l, before, HISTORY), o, HISTORY)
    ensures Passed(l, before + [o], HISTORY) == Passed(l, before, HISTORY) + ToSeq(Handed(Feed(l, before, HISTORY), o))
  {
  }

  // ---------- Where strays come from

  /** A stray that is passed on was a stray before, or comes from a slot rolled up across the edge. */
  lemma {:induction false} PassedStray(freq: int, count: int, stream: seq<HOffer>, e: int)
    requires freq > 0 && count > 0 && HasStray(Passed(Empty(freq, count, []), stream, HISTORY), e)
    ensures HasStray(stream, e) || exists i: nat :: i < |stream| && RollsAcross(Empty(freq, count, []), stream, i, e)
  {
    var l := Empty(freq, count, []);
    var before, o := stream[..|stream| - 1], stream[|stream| - 1];
    var b := Feed(l, before, HISTORY);
    if HasStray(Passed(l, before, HISTORY), e) {
      PassedStray(freq, count, before, e);
      if i: nat :| i < |before| && RollsAcross(l, before, i, e) {
        assert before[..i] == stream[..i];
        assert RollsAcross(l, stream, i, e);
      }
    } else if RollsUp(Locate(b, o.ts)) {
      RolledStray(freq, count, before, e);
      assert stream[..|before|] == before;
      assert HasStray(before, e) || RollsAcross(l, stream, |before|, e);
    }
  }

  lemma {:induction false} RolledStray(freq: int, count: int, stream: seq<HOffer>, e: int)
    requires freq > 0 && count > 0
    requires var b := Feed(Empty(freq, count, []), stream, HISTORY); Strays(Offer(b.posTs, b.recent[0]), e)
    ensures e < Feed(Empty(freq, count, []), stream, HISTORY).posTs + freq || HasStray(stream, e)
  {
    var b := Feed(Empty(freq, count, []), stream, HISTORY);
    var s :| s in b.recent[0] && e <= s.ts;
    var o := CurrentIsOffered(freq, count, stream, s);
    assert o.ts < e ==> Strays(o, e);
  }

  /** The block has passed a stray on, or still has one in its current slot. */
  ghost predicate KeepsStray(l: HLevel, stream: seq<HOffer>, e: int)
    requires l.Wf()
  {
    var b := Feed(l, stream, HISTORY);
    HasStray(Passed(l, stream, HISTORY), e) || Strays(Offer(b.posTs, b.recent[0]), e)
  }

  lemma {:induction false} StrayStep(b: HLevel, o: HOffer, e: int)
    requires b.Wf() && (Strays(o, e) || Strays(Offer(b.posTs, b.recent[0]), e))
    ensures var r := Step(b, o, HISTORY);
            HasStray(ToSeq(Handed(b, o)), e) || Strays(Offer(r.posTs, r.recent[0]), e)
  {
    LocateBounds(b, o.ts);
    var r := Step(b, o, HISTORY);
    match Handed(b, o)
    case None =>
      assert r.recent[0] == b.recent[0] + o.data;
    case Some(x) =>
      assert x in ToSeq(Handed(b, o));
      if RollsUp(Locate(b, o.ts)) {
        assert r.recent[0] == [] + o.data;
      }
  }

  lemma {:induction false} StrayStays(l: HLevel, before: seq<HOffer>, o: HOffer, e: int)
    requires l.Wf() && (KeepsStray(l, before, e) || Strays(o, e))
    ensures KeepsStray(l, before + [o], e)
  {
    PassedSnoc(l, before, o);
    var passed, handed := Passed(l, before, HISTORY), ToSeq(Handed(Feed(l, before, HISTORY), o));
    if HasStray(passed, e) {
      var x :| x in passed && Strays(x, e);
      assert x in passed + handed;
    } else {
      StrayStep(Feed(l, before, HISTORY), o, e);
      if HasStray(handed, e) {
        var x :| x in handed && Strays(x, e);
        assert x in passed + handed;
      }
    }
  }

  /** No stray gets lost. */
  lemma {:induction false} StrayIsKept(l: HLevel, stream: seq<HOffer>, e: int)
    requires l.Wf() && HasStray(stream, e)
    ensures KeepsStray(l, stream, e)
  {
    var before, o := stream[..|stream| - 1], stream[|stream| - 1];
    assert before + [o] == stream;
    if HasStray(before, e) {
      StrayIsKept(l, before, e);
    }
    StrayStays(l, before, o, e);
  }

  /** A slot rolled up across the edge makes a stray. */
  lemma {:induction false} RolledIsStray(l: HLevel, stream: seq<HOffer>, i: nat, e: int)
    requires l.Wf() && i < |stream| && RollsAcross(l, stream, i, e)
    ensures KeepsStray(l, stream, e)
    decreases |stream|
  {
    var before, o := stream[..|stream| - 1], stream[|stream| - 1];
    assert before + [o] == stream;
    if i < |before| {
      assert before[..i] == stream[..i];
      RolledIsStray(l, before, i, e);
    } else {
      assert stream[..i] == before;
    }
    StrayStays(l, before, o, e);
  }

  /**
   * One block: what it has passed on strays if and only if what it was offered does, or it rolled a slot up
   * across the edge.
   */
  lemma {:induction false} StraysIff(freq: int, count: int, stream: seq<HOffer>, e: int)
    requires freq > 0 && count > 0 && e <= Feed(Empty(freq, count, []), stream, HISTORY).posTs
    ensures HasStray(Passed(Empty(freq, count, []), stream, HISTORY), e) <==>
            HasStray(stream, e) || exists i: nat :: i < |stream| && RollsAcross(Empty(freq, count, []), stream, i, e)
  {
    var l := Empty(freq, count, []);
    if HasStray(Passed(l, stream, HISTORY), e) {
      PassedStray(freq, count, stream, e);
    }
    if HasStray(stream, e) {
      StrayIsKept(l, stream, e);
    }
    if i: nat :| i < |stream| && RollsAcross(l, stream, i, e) {
      RolledIsStray(l, stream, i, e);
    }
  }

  // ---------- All blocks

  /** Block j rolls up a slot across the edge in some update. */
  ghost predicate BlockRollsAcross(periods: seq<Period>, samples: Samples, j: nat, e: int)
    requires ValidPeriods(periods) && j < |periods|
  {
    var stream := Reaching(periods, samples, j);
    exists i: nat :: i < |stream| && RollsAcross(Empty(periods[j].freq, periods[j].count, []), stream, i, e)
  }

  lemma {:induction false} StoredPos(periods: seq<Period>, samples: Samples, j: nat)
    requires ValidPeriods(periods) && NonNegative(samples) && j < |periods|
    ensures Stored(periods, samples)[j].posTs == Feed(Empty(periods[j].freq, periods[j].count, []),
                                                      Reaching(periods, samples, j), HISTORY).posTs
  {
    var nl, ns := NewLevels(periods, ZERO), ValueOffers(samples, periods[0].freq);
    RunAt(nl, ns, STATS);
    StreamsMatch(periods, samples, j);
    FeedMatches(periods[j].freq, periods[j].count, StreamAt(nl, ns, STATS, j), Reaching(periods, samples, j));
  }

  lemma {:induction false} PosDescends(periods: seq<Period>, samples: Samples, k: nat, m: nat)
    requires ValidPeriods(periods) && k <= m < |periods|
    ensures Stored(periods, samples)[m].posTs <= Stored(periods, samples)[k].posTs
  {
    if k < m {
      LevelsOrdered(NewLevels(periods, ZERO), ValueOffers(samples, periods[0].freq), STATS, k, m);
    }
  }

  lemma {:induction false} ReachingEarly(periods: seq<Period>, samples: Samples, k: nat)
    requires ValidPeriods(periods) && NonNegative(samples) && k <= |periods|
    ensures Early(Reaching(periods, samples, k))
  {
    if k == 0 {
      var stream := Reaching(periods, samples, 0);
      forall o | o in stream
        ensures InTime(o)
      {
        var i :| 0 <= i < |stream| && stream[i] == o;
        NormalizedBrackets(samples[i].ts, periods[0].freq);
      }
    } else {
      ReachingEarly(periods, samples, k - 1);
      PassedEarly(periods[k - 1].freq, periods[k - 1].count, Reaching(periods, samples, k - 1));
    }
  }

  lemma {:induction false} SamplesDoNotStray(periods: seq<Period>, samples: Samples, e: int)
    requires ValidPeriods(periods) && NonNegative(samples) && Divides(periods[0].freq, e)
    ensures !HasStray(Reaching(periods, samples, 0), e)
  {
    var stream := Reaching(periods, samples, 0);
    forall o | o in stream
      ensures !Strays(o, e)
    {
      var i :| 0 <= i < |stream| && stream[i] == o;
      AlignedWithin(samples[i].ts, periods[0].freq, e);
    }
  }

  lemma {:induction false} FirstBlockDoesNotCross(periods: seq<Period>, samples: Samples, e: int)
    requires ValidPeriods(periods) && NonNegative(samples) && Divides(periods[0].freq, e)
    ensures !BlockRollsAcross(periods, samples, 0, e)
  {
    var g, c, stream := periods[0].freq, periods[0].count, Reaching(periods, samples, 0);
    forall i: nat | i < |stream|
      ensures !RollsAcross(Empty(g, c, []), stream, i, e)
    {
      assert forall j :: 0 <= j < i ==> stream[..i][j] == stream[j];
      forall j | 0 <= j < i
        ensures Divides(g, stream[..i][j].ts)
      {
        NormalizedBrackets(samples[j].ts, g);
      }
      MultipleIsDivisible(g, 0);
      MultipleIsDivisible(g, 1);
      FeedAligned(Empty(g, c, []), stream[..i], HISTORY, g);
      var p := Feed(Empty(g, c, []), stream[..i], HISTORY).posTs;
      if p < e {
        MultiplesApart(g, p, e);
      }
    }
  }

  lemma {:induction false} ReachingStraysNext(periods: seq<Period>, samples: Samples, k: nat, e: int)
    requires ValidPeriods(periods) && NonNegative(samples) && k < |periods| && e <= Stored(periods, samples)[k].posTs
    ensures HasStray(Reaching(periods, samples, k + 1), e) <==>
            HasStray(Reaching(periods, samples, k), e) || BlockRollsAcross(periods, samples, k, e)
  {
    StoredPos(periods, samples, k);
    StraysIff(periods[k].freq, periods[k].count, Reaching(periods, samples, k), e);
  }

  /** A block between the first one and block k rolls up a slot across the edge in some update. */
  ghost predicate RolledAcross(periods: seq<Period>, samples: Samples, k: nat, e: int)
    requires ValidPeriods(periods) && k <= |periods|
  {
    exists j: nat :: 1 <= j < k && BlockRollsAcross(periods, samples, j, e)
  }

  lemma {:induction false} RolledAcrossNext(periods: seq<Period>, samples: Samples, k: nat, e: int)
    requires ValidPeriods(periods) && 1 <= k < |periods|
    ensures RolledAcross(periods, samples, k + 1, e) <==>
            RolledAcross(periods, samples, k, e) || BlockRollsAcross(periods, samples, k, e)
  {
  }

  lemma {:induction false} ReachingStraysIff(periods: seq<Period>, samples: Samples, k: nat, e: int)
    requires ValidPeriods(periods) && NonNegative(samples) && 1 <= k <= |periods| && Divides(periods[0].freq, e)
    requires e <= Stored(periods, samples)[k - 1].posTs
    ensures HasStray(Reaching(periods, samples, k), e) <==> RolledAcross(periods, samples, k, e)
  {
    if k == 1 {
      SecondDoesNotStray(periods, samples, e);
    } else {
      ReachingStraysNext(periods, samples, k - 1, e);
      PosDescends(periods, samples, k - 2, k - 1);
      ReachingStraysIff(periods, samples, k - 1, e);
      RolledAcrossNext(periods, samples, k - 1, e);
    }
  }

  lemma {:induction false} SecondDoesNotStray(periods: seq<Period>, samples: Samples, e: int)
    requires ValidPeriods(periods) && NonNegative(samples) && Divides(periods[0].freq, e)
             && e <= Stored(periods, samples)[0].posTs
    ensures !HasStray(Reaching(periods, samples, 1), e)
  {
    ReachingStraysNext(periods, samples, 0, e);
    SamplesDoNotStray(periods, samples, e);
    FirstBlockDoesNotCross(periods, samples, e);
  }

  // ---------- Raw samples

  lemma {:induction false} PassedCount(freq: int, count: int, stream: seq<HOffer>, s: Sample)
    requires freq > 0 && count > 0 && Early(stream) && s.ts < Feed(Empty(freq, count, []), stream, HISTORY).posTs
    ensures multiset(Flatten(Passed(Empty(freq, count, []), stream, HISTORY)))[s] == multiset(Flatten(stream))[s]
  {
    var l := Empty(freq, count, []);
    ConserveOne(l, stream);
    CurrentInTime(freq, count, stream);
    assert s !in Feed(l, stream, HISTORY).recent[0];
  }

  lemma {:induction false} FlattenSamples(samples: Samples, freq: int)
    requires freq > 0
    ensures Flatten(SampleOffers(samples, freq)) == samples
  {
    if samples != [] {
      var offers := SampleOffers(samples, freq);
      FlattenSamples(samples[..|samples| - 1], freq);
      assert offers[..|offers| - 1] == SampleOffers(samples[..|samples| - 1], freq);
    }
  }

  /** Samples older than the current slot of the block before have all reached block k. */
  lemma {:induction false} ReachingCount(periods: seq<Period>, samples: Samples, k: nat, s: Sample)
    requires ValidPeriods(periods) && NonNegative(samples) && k <= |periods|
    requires k > 0 ==> s.ts < Stored(periods, samples)[k - 1].posTs
    ensures multiset(Flatten(Reaching(periods, samples, k)))[s] == multiset(samples)[s]
  {
    if k == 0 {
      FlattenSamples(samples, periods[0].freq);
    } else {
      if k > 1 {
        PosDescends(periods, samples, k - 2, k - 1);
      }
      ReachingCount(periods, samples, k - 1, s);
      ReachingEarly(periods, samples, k - 1);
      StoredPos(periods, samples, k - 1);
      PassedCount(periods[k - 1].freq, periods[k - 1].count, Reaching(periods, samples, k - 1), s);
    }
  }

  /** Below the edge, block k was offered at least the raw samples; what is more are strays. */
  lemma {:induction false} OfferedBelow(periods: seq<Period>, samples: Samples, k: nat, e: int, s: Sample)
    requires ValidPeriods(periods) && NonNegative(samples) && 1 <= k <= |periods|
             && e <= Stored(periods, samples)[k - 1].posTs
    ensures var offered := multiset(Collected(Reaching(periods, samples, k), 0, e));
            && (s.ts < e ==> offered[s] == multiset(InPeriod(samples, 0, e))[s])
            && (e <= s.ts ==> multiset(InPeriod(samples, 0, e))[s] == 0)
  {
    ReachingEarly(periods, samples, k);
    PeriodCount(samples, 0, e, s);
    if s.ts < e {
      BelowIsOffered(Reaching(periods, samples, k), e, s);
      ReachingCount(periods, samples, k, s);
      assert s in samples ==> 0 <= s.ts;
    }
  }

  lemma {:induction false} StrayIsCollected(stream: seq<HOffer>, e: int)
    requires Early(stream)
    ensures HasStray(stream, e) <==> exists s :: s in Collected(stream, 0, e) && e <= s.ts
  {
    if HasStray(stream, e) {
      var o :| o in stream && Strays(o, e);
      var s :| s in o.data && e <= s.ts;
      assert InTime(o);
      CollectedMember(stream, 0, e, s);
    }
    if s :| s in Collected(stream, 0, e) && e <= s.ts {
      CollectedMember(stream, 0, e, s);
      var o :| o in stream && s in o.data && Within(o.ts, 0, e);
      assert Strays(o, e);
    }
  }

  lemma {:induction false} SameBelow(offered: Samples, raw: Samples, e: int)
    requires forall s: Sample ::
               (s.ts < e ==> multiset(offered)[s] == multiset(raw)[s]) && (e <= s.ts ==> multiset(raw)[s] == 0)
    ensures multiset(raw) <= multiset(offered)
    ensures multiset(offered) == multiset(raw) <==> !exists s :: s in offered && e <= s.ts
  {
    if s :| s in offered && e <= s.ts {
      assert multiset(offered)[s] > 0;
    } else {
      forall s: Sample
        ensures multiset(offered)[s] == multiset(raw)[s]
      {
        assert multiset(offered)[s] > 0 ==> s in offered;
      }
    }
  }

  /**
   * What block k was offered below an edge that the block before has left behind contains the raw samples
   * below the edge. It is exactly those if and only if no block between the first one and block k ever rolled
   * up a slot that the edge lies strictly inside of and that held a sample from the edge or later.
   */
  lemma {:induction false} OfferedIsRawIff(periods: seq<Period>, samples: Samples, k: nat, e: int)
    requires ValidPeriods(periods) && NonNegative(samples) && 1 <= k <= |periods|
    requires Divides(periods[0].freq, e) && e <= Stored(periods, samples)[k - 1].posTs
    ensures multiset(InPeriod(samples, 0, e)) <= multiset(Collected(Reaching(periods, samples, k), 0, e))
    ensures multiset(Collected(Reaching(periods, samples, k), 0, e)) == multiset(InPeriod(samples, 0, e)) <==>
            !RolledAcross(periods, samples, k, e)
  {
    var offered, raw := Collected(Reaching(periods, samples, k), 0, e), InPeriod(samples, 0, e);
    ReachingStraysIff(periods, samples, k, e);
    ReachingEarly(periods, samples, k);
    StrayIsCollected(Reaching(periods, samples, k), e);
    forall s: Sample
      ensures (s.ts < e ==> multiset(offered)[s] == multiset(raw)[s]) && (e <= s.ts ==> multiset(raw)[s] == 0)
    {
      OfferedBelow(periods, samples, k, e, s);
    }
    SameBelow(offered, raw, e);
  }

  // ---------- Slots

  lemma {:induction false} PeriodSplitsCount(samples: Samples, lo: int, hi: int)
    requires NonNegative(samples) && lo <= hi
    ensures multiset(InPeriod(samples, 0, hi)) == multiset(InPeriod(samples, 0, lo))
            + multiset(InPeriod(samples, lo, hi))
  {
    forall s: Sample
      ensures multiset(InPeriod(samples, 0, hi))[s]
           == multiset(InPeriod(samples, 0, lo))[s] + multiset(InPeriod(samples, lo, hi))[s]
    {
      PeriodCount(samples, 0, hi, s);
      PeriodCount(samples, 0, lo, s);
      PeriodCount(samples, lo, hi, s);
      assert s in samples ==> 0 <= s.ts;
    }
  }

  lemma {:induction false} Cancel<T>(a: multiset<T>, b: multiset<T>, c: multiset<T>)
    requires a + b == a + c
    ensures b == c
  {
    assert b == (a + b) - a;
    assert c == (a + c) - a;
  }

  /** Between two such edges that no slot was rolled up across, block k was offered exactly the raw samples. */
  lemma {:induction false} OfferedBetween(periods: seq<Period>, samples: Samples, k: nat, lo: int, hi: int)
    requires ValidPeriods(periods) && NonNegative(samples) && 1 <= k <= |periods| && lo <= hi
    requires Divides(periods[0].freq, lo) && Divides(periods[0].freq, hi) && hi <= Stored(periods, samples)[k - 1].posTs
    requires !RolledAcross(periods, samples, k, lo) && !RolledAcross(periods, samples, k, hi)
    ensures multiset(Collected(Reaching(periods, samples, k), lo, hi)) == multiset(InPeriod(samples, lo, hi))
  {
    var stream := Reaching(periods, samples, k);
    OfferedIsRawIff(periods, samples, k, lo);
    OfferedIsRawIff(periods, samples, k, hi);
    StreamsMatch(periods, samples, k);
    CollectedSplits(stream, lo, hi);
    PeriodSplitsCount(samples, lo, hi);
    Cancel(multiset(Collected(stream, 0, lo)), multiset(Collected(stream, lo, hi)),
           multiset(InPeriod(samples, lo, hi)));
  }

  lemma {:induction false} ValueIn(samples: Samples, v: real)
    ensures v in Values(samples) <==> exists s :: s in samples && s.value == v
  {
    if v in Values(samples) {
      var i :| 0 <= i < |samples| && Values(samples)[i] == v;
      assert samples[i] in samples;
    }
    if s :| s in samples && s.value == v {
      var i :| 0 <= i < |samples| && samples[i] == s;
      assert Values(samples)[i] == v;
    }
  }

  /** b without its element i. */
  function Without(b: Samples, i: nat): Samples
    requires i < |b|
  {
    b[..i] + b[i + 1..]
  }

  lemma {:induction false} WithoutSame(rest: Samples, s: Sample, b: Samples, i: nat)
    requires i < |b| && b[i] == s && multiset(rest + [s]) == multiset(b)
    ensures multiset(rest) == multiset(Without(b, i))
  {
    assert b == b[..i] + [s] + b[i + 1..];
    assert multiset(Without(b, i)) + multiset{s} == multiset(b);
    assert multiset(rest) + multiset{s} == multiset(rest + [s]);
    assert multiset(rest) == (multiset(rest) + multiset{s}) - multiset{s};
    assert multiset(Without(b, i)) == (multiset(Without(b, i)) + multiset{s}) - multiset{s};
  }

  lemma {:induction false} WithoutSums(b: Samples, i: nat)
    requires i < |b|
    ensures Sum(Values(b)) == Sum(Values(Without(b, i))) + b[i].value
    ensures SumSqr(Values(b)) == SumSqr(Values(Without(b, i))) + b[i].value * b[i].value
  {
    var s := [b[i]];
    SingleSummarizes(b[i].value);
    assert Values(s) == [b[i].value];
    assert b == b[..i] + s + b[i + 1..];
    assert b[..i] + [] + b[i + 1..] == Without(b, i);
    assert Values([]) == [];
    SumsOf(b[..i], s, b[i + 1..]);
    SumsOf(b[..i], [], b[i + 1..]);
  }

  lemma {:induction false} OneLess(a: Samples, b: Samples) returns (i: nat)
    requires multiset(a) == multiset(b) && a != []
    ensures i < |b| && b[i] == a[|a| - 1] && multiset(Without(a, |a| - 1)) == multiset(Without(b, i))
  {
    var rest, s := a[..|a| - 1], a[|a| - 1];
    assert a == rest + [s] && Without(a, |a| - 1) == rest;
    assert s in multiset(b);
    i :| i < |b| && b[i] == s;
    WithoutSame(rest, s, b, i);
  }

  /** The order in which the samples came does not matter to the sums. */
  lemma {:induction false} SameSums(a: Samples, b: Samples)
    requires multiset(a) == multiset(b)
    ensures Sum(Values(a)) == Sum(Values(b)) && SumSqr(Values(a)) == SumSqr(Values(b))
  {
    SameSize(a, b);
    if a != [] {
      var i := OneLess(a, b);
      SameSums(Without(a, |a| - 1), Without(b, i));
      WithoutSums(a, |a| - 1);
      WithoutSums(b, i);
    }
  }

  lemma {:induction false} SameSize<T>(a: seq<T>, b: seq<T>)
    requires multiset(a) == multiset(b)
    ensures |a| == |b|
  {
    assert |multiset(a)| == |a| && |multiset(b)| == |b|;
  }

  lemma {:induction false} SumsOf(a: Samples, b: Samples, c: Samples)
    ensures Sum(Values(a + b + c)) == Sum(Values(a)) + Sum(Values(b)) + Sum(Values(c))
    ensures SumSqr(Values(a + b + c)) == SumSqr(Values(a)) + SumSqr(Values(b)) + SumSqr(Values(c))
  {
    ValuesAppend(a, b);
    ValuesAppend(a + b, c);
    SumAppend(Values(a), Values(b));
    SumAppend(Values(a + b), Values(c));
  }

  lemma {:induction false} SameSummary(t: Stats, a: Samples, b: Samples)
    requires Summarizes(t, Values(a)) && multiset(a) == multiset(b)
    ensures Summarizes(t, Values(b))
  {
    SameSums(a, b);
    SameSize(a, b);
    forall v
      ensures v in Values(a) <==> v in Values(b)
    {
      ValueIn(a, v);
      ValueIn(b, v);
      assert forall s :: s in a <==> s in multiset(a);
      assert forall s :: s in b <==> s in multiset(b);
    }
  }

  lemma {:induction false} EdgesAligned(periods: seq<Period>, samples: Samples, k: nat, i: nat)
    requires ValidPeriods(periods) && NonNegative(samples) && k < |periods|
    requires forall j :: 0 <= j <= k ==> Divides(periods[0].freq, periods[j].freq)
    ensures var l := Stored(periods, samples)[k];
            Divides(periods[0].freq, l.SlotTs(i)) && Divides(periods[0].freq, l.SlotTs(i) + l.freq)
  {
    var l, g := Stored(periods, samples)[k], periods[0].freq;
    BlockAligned(periods, samples, k);
    DividesMultiple(g, l.freq, i);
    DividesSum(g, l.posTs, i * l.freq);
    DividesSum(g, l.SlotTs(i), l.freq);
  }

  /**
   * Every slot of a coarser block that the block before has left behind is the exact summary of the raw
   * samples recorded in its period, if no slot was rolled up across one of its edges.
   */
  lemma {:induction false} CoarseSlotIsRaw(periods: seq<Period>, samples: Samples, k: nat, i: nat)
    requires ValidPeriods(periods) && NonNegative(samples) && 1 <= k < |periods|
             && i < |Stored(periods, samples)[k].recent|
    requires forall j :: 0 <= j <= k ==> Divides(periods[0].freq, periods[j].freq)
    requires var l := Stored(periods, samples)[k];
             && l.SlotTs(i) + l.freq <= Stored(periods, samples)[k - 1].posTs
             && !RolledAcross(periods, samples, k, l.SlotTs(i))
                 && !RolledAcross(periods, samples, k, l.SlotTs(i) + l.freq)
    ensures var l := Stored(periods, samples)[k];
            Summarizes(l.recent[i], Values(InPeriod(samples, l.SlotTs(i), l.SlotTs(i) + l.freq)))
  {
    var l := Stored(periods, samples)[k];
    EdgesAligned(periods, samples, k, i);
    SlotsAreExact(periods, samples, k);
    assert ExactSlot(l, Reaching(periods, samples, k), i);
    OfferedBetween(periods, samples, k, l.SlotTs(i), l.SlotTs(i) + l.freq);
    SameSummary(l.recent[i], Collected(Reaching(periods, samples, k), l.SlotTs(i), l.SlotTs(i) + l.freq),
                InPeriod(samples, l.SlotTs(i), l.SlotTs(i) + l.freq));
  }

  /** For the second block that is all of its slots that the first block has left behind. */
  lemma {:induction false} SecondBlockIsRaw(periods: seq<Period>, samples: Samples, i: nat)
    requires ValidPeriods(periods) && NonNegative(samples) && 1 < |periods| && i < |Stored(periods, samples)[1].recent|
    requires Divides(periods[0].freq, periods[1].freq)
    requires var l := Stored(periods, samples)[1]; l.SlotTs(i) + l.freq <= Stored(periods, samples)[0].posTs
    ensures var l := Stored(periods, samples)[1];
            Summarizes(l.recent[i], Values(InPeriod(samples, l.SlotTs(i), l.SlotTs(i) + l.freq)))
  {
    MultipleIsDivisible(periods[0].freq, 1);
    CoarseSlotIsRaw(periods, samples, 1, i);
  }
}
