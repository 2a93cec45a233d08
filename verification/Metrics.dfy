/**
 * A metric: its blocks from finest to coarsest (src/rrdb/rrdb_metric.cpp). The metric's name,
 * file name and lock are not part of this module.
 */
module Metrics {
  import opened Options
  import opened Times
  import opened Tuples
  import opened Rollup
  import opened Summaries
  import opened Blocks
  import opened Policies

  /** rrdb_metric::select over the blocks, with its early exit. */
  function SelectedFrom(levels: seq<SLevel>, ts1: int, ts2: int): seq<Call>
    requires AllWf(levels)
  {
    if levels == [] then []
    else
      var res := IntervalOverlap(levels[0].EarliestTs(), levels[0].LatestTs(), ts1, ts2);
      if res < 0 then []
      else (if res == 0 then Selected(levels[0], ts1, ts2) else []) + SelectedFrom(levels[1..], ts1, ts2)
  }

  lemma {:induction false} SelectedStep(levels: seq<SLevel>, k: nat, ts1: int, ts2: int)
    requires k < |levels| && AllWf(levels)
    ensures var l := levels[k];
            var res := IntervalOverlap(l.EarliestTs(), l.LatestTs(), ts1, ts2);
            (SelectedFrom(levels[k..], ts1, ts2)
             == if res < 0 then []
                else (if res == 0 then Selected(l, ts1, ts2) else []) + SelectedFrom(levels[k + 1..], ts1, ts2))
  {
  }

  lemma {:induction false} SelectedSoFar(levels: seq<SLevel>, k: nat, ts1: int, ts2: int, calls: seq<Call>,
                                         found: seq<Call>)
    requires k < |levels| && AllWf(levels)
    requires SelectedFrom(levels, ts1, ts2) == calls + SelectedFrom(levels[k..], ts1, ts2)
    requires var l := levels[k];
             found == if IntervalOverlap(l.EarliestTs(), l.LatestTs(), ts1, ts2) == 0 then Selected(l, ts1, ts2) else []
    ensures var res := IntervalOverlap(levels[k].EarliestTs(), levels[k].LatestTs(), ts1, ts2);
            && (res < 0 ==> SelectedFrom(levels, ts1, ts2) == calls)
            && (res >= 0 ==>
                  SelectedFrom(levels, ts1, ts2) == (calls + found) + SelectedFrom(levels[k + 1..], ts1, ts2))
  {
    SelectedStep(levels, k, ts1, ts2);
  }

  ghost predicate CreatablePolicy(p: Policy) {
    p != [] && ValidPolicy(p) && PositiveDurations(p)
  }

  function PeriodsOf(p: Policy): (r: seq<Period>)
    requires PositiveFreqs(p)
    ensures |r| == |p|
  {
    seq(|p|, i requires 0 <= i < |p| => Period(p[i].freq, p[i].duration / p[i].freq))
  }

  /** A valid policy gives every block a positive frequency and count, and no duration is cut. */
  lemma {:induction false} PolicyGivesPeriods(p: Policy)
    requires CreatablePolicy(p)
    ensures ValidPeriods(PeriodsOf(p))
    ensures forall i :: 0 <= i < |p| ==> PeriodsOf(p)[i].freq * PeriodsOf(p)[i].count == p[i].duration
    ensures forall i :: 0 <= i < |p| ==> Divides(PeriodsOf(p)[0].freq, PeriodsOf(p)[i].freq)
  {
    forall i | 0 <= i < |p|
      ensures p[i].duration / p[i].freq > 0 && p[i].freq * (p[i].duration / p[i].freq) == p[i].duration
      ensures Divides(p[0].freq, p[i].freq)
    {
      assert Consistent(p, i);
      FrequencyChain(p, 0, i);
      var f, c := p[i].freq, p[i].duration / p[i].freq;
      assert c * f == p[i].duration && f * c == c * f;
      LessByFactor(0, c, f);
    }
  }

  /** A valid policy gives every block slots if and only if no duration is 0. */
  lemma {:induction false} BlocksHaveSlotsIff(p: Policy)
    requires ValidPolicy(p)
    ensures (forall i :: 0 <= i < |p| ==> PeriodsOf(p)[i].count > 0) <==> PositiveDurations(p)
  {
    if PositiveDurations(p) && p != [] {
      PolicyGivesPeriods(p);
    } else if i :| 0 <= i < |p| && p[i].duration == 0 {
      assert PeriodsOf(p)[i].count == 0;
    }
  }

  ghost function ViewsOf(blocks: seq<MetricBlock>): (v: seq<SLevel>)
    reads blocks
    ensures |v| == |blocks| && forall k :: 0 <= k < |blocks| ==> v[k] == blocks[k].View()
  {
    seq(|blocks|, k requires 0 <= k < |blocks| reads blocks => blocks[k].View())
  }

  class Metric {
    var blocks: seq<MetricBlock>
    var lastValue: real
    var lastTs: int

    ghost function Arrays(): set<array<Tuple>>
      reads this`blocks
    {
      set b | b in blocks :: b.tuples
    }

    ghost predicate Valid()
      reads this`blocks, blocks, Arrays()
    {
      && blocks != []
      && (forall k :: 0 <= k < |blocks| ==> blocks[k].Valid())
      && (forall j, k :: 0 <= j < k < |blocks| ==> blocks[j] != blocks[k] && blocks[j].tuples != blocks[k].tuples)
    }

    ghost function Views(): (v: seq<SLevel>)
      reads this`blocks, blocks
      ensures |v| == |blocks|
    {
      ViewsOf(blocks)
    }

    /** rrdb_metric::create */
    constructor (policy: Policy)
      requires policy != [] && PositiveFreqs(policy)
      ensures |blocks| == |policy| && fresh(blocks) && fresh(Arrays())
      ensures forall k :: 0 <= k < |blocks| ==>
                blocks[k].freq == PeriodsOf(policy)[k].freq
                    && blocks[k].count == blocks[k].tuples.Length == PeriodsOf(policy)[k].count
      ensures ValidPeriods(PeriodsOf(policy)) ==> Valid() && Views() == NewLevels(PeriodsOf(policy), ZERO)
      ensures lastValue == 0.0 && lastTs == 0
    {
      var periods := PeriodsOf(policy);
      var made: seq<MetricBlock> := [];
      for i := 0 to |policy|
        invariant |made| == i
        invariant forall k :: 0 <= k < i ==> fresh(made[k]) && fresh(made[k].tuples)
        invariant forall k :: 0 <= k < i ==>
                    made[k].freq == periods[k].freq && made[k].count == made[k].tuples.Length == periods[k].count
        invariant ValidPeriods(periods) ==> forall k :: 0 <= k < i ==> made[k].Valid()
        invariant ValidPeriods(periods) ==>
                    forall k :: 0 <= k < i ==> made[k].View() == Empty(periods[k].freq, periods[k].count, ZERO)
        invariant forall j, k :: 0 <= j < k < i ==> made[j] != made[k] && made[j].tuples != made[k].tuples
      {
        var block := new MetricBlock(policy[i].freq, policy[i].duration / policy[i].freq);
        made := made + [block];
      }
      blocks, lastValue, lastTs := made, 0.0, 0;
    }

    /** rrdb_metric::get_policy */
    method GetPolicy() returns (policy: Policy)
      requires Valid()
      ensures |policy| == |blocks|
      ensures forall k :: 0 <= k < |blocks| ==>
                policy[k] == Elem(Views()[k].freq, Views()[k].freq * Views()[k].count)
    {
      policy := [];
      for k := 0 to |blocks|
        invariant |policy| == k
        invariant forall i :: 0 <= i < k ==> policy[i] == Elem(Views()[i].freq, Views()[i].freq * Views()[i].count)
      {
        policy := policy + [Elem(blocks[k].freq, blocks[k].freq * blocks[k].count)];
      }
    }

    /** rrdb_metric::update */
    method Update(ts: int, value: real)
      requires Valid()
      modifies this`lastValue, this`lastTs, blocks, Arrays()
      ensures Valid() && blocks == old(blocks) && AllWf(old(Views())) && old(Views()) != []
      ensures Views() == Cascade(old(Views()), Some(Offer(Normalized(ts, old(Views())[0].freq), Single(value))), STATS)
      ensures lastTs == Max(old(lastTs), ts) && lastValue == if old(lastTs) <= ts then value else old(lastValue)
    {
      ghost var views := Views();
      if lastTs <= ts {
        lastTs, lastValue := ts, value;
      }
      assert Valid() && Views() == views && views[0].freq == blocks[0].freq;
      var start := Normalized(ts, blocks[0].freq);
      UpdateBlocks(start, value);
      assert Views() == Cascade(views, Some(Offer(start, Single(value))), STATS);
    }

    /** The loop of rrdb_metric::update: the contexts one and two change roles from block to block. */
    method UpdateBlocks(ts: int, value: real)
      requires Valid()
      modifies blocks, Arrays()
      ensures Valid() && AllWf(old(Views()))
      ensures Views() == Cascade(old(Views()), Some(Offer(ts, Single(value))), STATS)
    {
      ghost var before, first := Views(), Offer(ts, Single(value));
      var one, two := Value(ts, value), Stop;
      var useOne := true;
      ghost var c := one;
      var k := 0;
      CascadeStart(before, first, one);
      while k < |blocks|
        invariant 0 <= k <= |blocks| == |before| && Valid() && AllWf(before)
        invariant c == (if useOne then one else two) && !c.Stop?
        invariant Reached(before, first, Views(), k, c)
      {
        if useOne {
          two := UpdateBlock(k, one, before, first);
        } else {
          one := UpdateBlock(k, two, before, first);
        }
        useOne := !useOne;
        k := k + 1;
        c := if useOne then one else two;
        if (if useOne then one else two).Stop? {
          return;
        }
      }
      CascadeDone(before, first, Views(), c);
    }

    /** One turn of the loop of rrdb_metric::update. */
    method UpdateBlock(k: nat, in': Ctx, ghost before: seq<SLevel>, ghost first: SOffer) returns (out: Ctx)
      requires Valid() && k < |blocks| && !in'.Stop? && |before| == |blocks|
      requires AllWf(before) && Reached(before, first, Views(), k, in')
      modifies blocks, Arrays()
      ensures Valid() && blocks == old(blocks) && AllWf(Views()) && Reached(before, first, Views(), k + 1, out)
      ensures out.Stop? ==> Views() == Cascade(before, Some(first), STATS)
    {
      ghost var now := Views();
      out := StepBlock(k, in');
      CascadeStep(before, first, now, k, in');
    }

    /** Updating one block leaves all others alone. */
    method StepBlock(k: nat, in': Ctx) returns (out: Ctx)
      requires Valid() && k < |blocks| && !in'.Stop?
      modifies blocks, Arrays()
      ensures Valid() && blocks == old(blocks) && AllWf(old(Views())) && AllWf(Views())
      ensures Views() == old(Views())[k := Step(old(Views())[k], ToOffer(in'), STATS)]
      ensures out == OutCtx(old(Views())[k], in')
    {
      out := blocks[k].Update(in');
      assert forall j :: 0 <= j < |blocks| && j != k ==> blocks[j].Valid() && blocks[j].View() == old(blocks[j].View());
    }

    /** How the period a block covers lies to the query; the calls of block::select if they overlap. */
    method SelectBlock(k: nat, ts1: int, ts2: int) returns (res: int, found: seq<Call>)
      requires Valid() && k < |blocks|
      ensures AllWf(Views())
      ensures res == IntervalOverlap(Views()[k].EarliestTs(), Views()[k].LatestTs(), ts1, ts2)
      ensures found == if res == 0 then Selected(Views()[k], ts1, ts2) else []
    {
      found := [];
      var earliest := blocks[k].posTs - blocks[k].freq * blocks[k].count - blocks[k].freq;
      res := IntervalOverlap(earliest, blocks[k].posTs + blocks[k].freq, ts1, ts2);
      if res == 0 {
        found := blocks[k].Select(ts1, ts2);
      }
    }

    /** rrdb_metric::select; the result lists the calls of the walker's append. */
    method Select(ts1: int, ts2: int) returns (calls: seq<Call>)
      requires Valid()
      ensures AllWf(Views()) && calls == SelectedFrom(Views(), ts1, ts2)
    {
      calls := [];
      ghost var views := Views();
      var k := 0;
      while k < |blocks|
        invariant 0 <= k <= |blocks| == |views| && views == Views() && AllWf(views)
        invariant SelectedFrom(views, ts1, ts2) == calls + SelectedFrom(views[k..], ts1, ts2)
      {
        var res, found := SelectBlock(k, ts1, ts2);
        SelectedSoFar(views, k, ts1, ts2, calls, found);
        if res < 0 {
          return;
        }
        calls := calls + found;
        k := k + 1;
      }
    }
  }

  function ToOption(c: Ctx): Option<SOffer> {
    if c.Stop? then None else Some(ToOffer(c))
  }

  /** After k blocks: the rest of the cascade, started from the context at hand, gives the result. */
  ghost predicate Reached(before: seq<SLevel>, first: SOffer, now: seq<SLevel>, k: nat, c: Ctx)
    requires k <= |now| == |before| && AllWf(before)
  {
    && now[k..] == before[k..]
    && Cascade(before, Some(first), STATS)
       == now[..k] + Cascade(before[k..], ToOption(c), STATS)
  }

  lemma {:induction false} CascadeStart(before: seq<SLevel>, first: SOffer, c: Ctx)
    requires AllWf(before) && !c.Stop? && ToOffer(c) == first
    ensures Reached(before, first, before, 0, c)
  {
  }

  lemma {:induction false} CascadeDone(before: seq<SLevel>, first: SOffer, now: seq<SLevel>, c: Ctx)
    requires |now| == |before| && AllWf(before) && Reached(before, first, now, |now|, c)
    ensures now == Cascade(before, Some(first), STATS)
  {
  }

  lemma {:induction false} CascadeStep(before: seq<SLevel>, first: SOffer, now: seq<SLevel>, k: nat, c: Ctx)
    requires k < |now| == |before| && AllWf(before) && AllWf(now) && !c.Stop?
    requires Reached(before, first, now, k, c)
    ensures var next := now[k := Step(now[k], ToOffer(c), STATS)];
            Reached(before, first, next, k + 1, OutCtx(now[k], c))
    ensures OutCtx(now[k], c).Stop? ==>
              Cascade(before, Some(first), STATS) == now[k := Step(now[k], ToOffer(c), STATS)]
  {
    var rest, s := before[k..], Step(now[k], ToOffer(c), STATS);
    assert rest[0] == now[k..][0] == now[k];
    assert rest[1..] == before[k + 1..];
    var tail := Cascade(rest[1..], ToOption(OutCtx(now[k], c)), STATS);
    CascadeHead(rest, c);
    PrefixGrows(before, now, k, s, tail);
    if OutCtx(now[k], c).Stop? {
      assert tail == rest[1..];
    }
  }

  lemma {:induction false} CascadeHead(levels: seq<SLevel>, c: Ctx)
    requires levels != [] && AllWf(levels) && !c.Stop?
    ensures Cascade(levels, Some(ToOffer(c)), STATS)
         == [Step(levels[0], ToOffer(c), STATS)] + Cascade(levels[1..], ToOption(OutCtx(levels[0], c)), STATS)
  {
  }

  lemma {:induction false} PrefixGrows<T>(before: seq<T>, now: seq<T>, k: nat, s: T, tail: seq<T>)
    requires k < |now| == |before| && now[k..] == before[k..]
    ensures now[..k] + ([s] + tail) == now[k := s][..k + 1] + tail
    ensures now[k := s][k + 1..] == before[k + 1..]
    ensures tail == before[k + 1..] ==> now[..k] + ([s] + tail) == now[k := s]
  {
  }
}
