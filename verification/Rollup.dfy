/**
 * What one block of a metric, and the whole cascade of blocks, do to the data offered to them
 * (src/rrdb/rrdb_metric_block.cpp:86-220, src/rrdb/rrdb_metric.cpp:192-227), on values instead
 * of on a ring in memory. The payload D of a slot is a parameter: the engine keeps Stats,
 * the history model keeps the list of samples.
 */
module Rollup {
  import opened Options
  import opened Sequences
  import opened Times

  /** Data for one moment: a fresh data point or a tuple rolled up by the previous block. */
  datatype Offer<+D> = Offer(ts: int, data: D)

  /** How payloads start and how they are combined. */
  datatype Ops<!D> = Ops(blank: D, add: (D, D) -> D)

  /**
   * A block: recent[0] is the current slot, which covers [posTs, posTs + freq), and recent[i]
   * is the slot i steps earlier. Slots that were never set are not part of recent.
   */
  datatype Level<+D> = Level(freq: int, count: int, posTs: int, recent: seq<D>) {
    predicate Wf() {
      freq > 0 && count > 0 && 1 <= |recent| <= count
    }

    function SlotTs(i: int): int { posTs - i * freq }

    /** rrdb_metric_block::get_earliest_ts; lower than the oldest slot of the ring. */
    function EarliestTs(): int { posTs - freq * count - freq }

    function LatestTs(): int { posTs + freq }

    function LatestPossibleTs(): int { posTs + freq * count }
  }

  /** The four regimes of find_tuple, with the number of slots moved; Missed is the walk that finds nothing. */
  datatype Placement =
    | Complete
    | Current
    | Forward(steps: nat)
    | Back(steps: nat)
    | Missed
    | TooOld

  function Locate<D>(l: Level<D>, ts: int): Placement
    requires l.Wf()
  {
    if l.LatestPossibleTs() <= ts then Complete
    else if l.posTs <= ts then
      if ts < l.posTs + l.freq then Current else Forward((ts - l.posTs) / l.freq)
    else if l.EarliestTs() <= ts then
      var steps := (l.posTs - ts + l.freq - 1) / l.freq;
      if steps < l.count then Back(steps) else Missed
    else TooOld
  }

  function Take<D>(s: seq<D>, n: nat): seq<D> {
    if |s| <= n then s else s[..n]
  }

  /** Extends the set slots to n. */
  function Pad<D>(s: seq<D>, n: nat, blank: D): (r: seq<D>)
    ensures |r| == if |s| < n then n else |s|
  {
    if |s| < n then s + Filled(n - |s|, blank) else s
  }

  /** The window after the block has moved to where ts can be stored. */
  function Moved<D>(l: Level<D>, ts: int, blank: D): Level<D>
    requires l.Wf()
  {
    match Locate(l, ts)
    case Complete => l.(posTs := ts, recent := [blank])
    case Current => l
    case Forward(n) => l.(posTs := l.posTs + n * l.freq, recent := Take(Filled(n, blank) + l.recent, l.count))
    case Back(n) => l.(recent := Pad(l.recent, n + 1, blank))
    case Missed => l.(recent := Pad(l.recent, l.count, blank))
    case TooOld => l
  }

  /** The slot that receives the data, if any. */
  function Target(p: Placement): Option<nat> {
    match p
    case Complete => Some(0)
    case Current => Some(0)
    case Forward(_) => Some(0)
    case Back(n) => Some(n)
    case Missed => None
    case TooOld => None
  }

  /** What the block hands to the next one: its finished current slot, the data itself, or nothing. */
  function Handed<D>(l: Level<D>, o: Offer<D>): Option<Offer<D>>
    requires l.Wf()
  {
    match Locate(l, o.ts)
    case Complete => Some(Offer(l.posTs, l.recent[0]))
    case Forward(_) => Some(Offer(l.posTs, l.recent[0]))
    case Current => None
    case _ => Some(o)
  }

  /** rrdb_metric_block::update */
  function Step<D>(l: Level<D>, o: Offer<D>, ops: Ops<D>): (r: Level<D>)
    requires l.Wf()
    ensures r.Wf() && r.freq == l.freq && r.count == l.count
  {
    LocateBounds(l, o.ts);
    var m := Moved(l, o.ts, ops.blank);
    match Target(Locate(l, o.ts))
    case Some(i) => m.(recent := m.recent[i := ops.add(m.recent[i], o.data)])
    case None => m
  }

  /** The slot found by find_tuple contains the timestamp, and the shift is shorter than the ring. */
  lemma {:induction false} LocateBounds<D>(l: Level<D>, ts: int)
    requires l.Wf()
    ensures match Locate(l, ts)
            case Complete => l.posTs + l.count * l.freq <= ts
            case Current => l.posTs <= ts < l.posTs + l.freq
            case Forward(n) => 1 <= n < l.count && l.posTs + n * l.freq <= ts < l.posTs + n * l.freq + l.freq
            case Back(n) => 1 <= n < l.count && l.SlotTs(n) <= ts < l.SlotTs(n) + l.freq
            case Missed => ts < l.SlotTs(l.count - 1)
            case TooOld => ts < l.SlotTs(l.count - 1)
  {
    var f, c, p := l.freq, l.count, l.posTs;
    assert f * c == c * f;
    match Locate(l, ts)
    case Forward(n) =>
      QuotientBounds(ts - p, f);
      LessByFactor(n, c, f);
    case Back(n) =>
      QuotientBounds(p - ts + f - 1, f);
    case Missed =>
      QuotientBounds(p - ts + f - 1, f);
      MissedBound(p, ts, f, c, (p - ts + f - 1) / f);
    case TooOld =>
      MissedBound(p, ts, f, c, c);
    case _ =>
  }

  /**
   * The regimes in terms of timestamps alone: they follow one another without gap or overlap, and the walk that
   * finds nothing covers the two periods before the oldest slot of the ring.
   */
  lemma {:induction false} LocateIff<D>(l: Level<D>, ts: int)
    requires l.Wf()
    ensures Locate(l, ts) == Complete <==> l.posTs + l.count * l.freq <= ts
    ensures Locate(l, ts) == Current <==> l.posTs <= ts < l.posTs + l.freq
    ensures forall n: nat :: Locate(l, ts) == Forward(n) <==>
              1 <= n < l.count && l.posTs + n * l.freq <= ts < l.posTs + n * l.freq + l.freq
    ensures forall n: nat :: Locate(l, ts) == Back(n) <==>
              1 <= n < l.count && l.posTs - n * l.freq <= ts < l.posTs - n * l.freq + l.freq
    ensures Locate(l, ts) == Missed <==> l.posTs - (l.count + 1) * l.freq <= ts < l.posTs - (l.count - 1) * l.freq
    ensures Locate(l, ts) == TooOld <==> ts < l.posTs - (l.count + 1) * l.freq
  {
    OuterRegimes(l, ts);
    forall n: nat
      ensures Locate(l, ts) == Forward(n) <==>
                1 <= n < l.count && l.posTs + n * l.freq <= ts < l.posTs + n * l.freq + l.freq
      ensures Locate(l, ts) == Back(n) <==>
                1 <= n < l.count && l.posTs - n * l.freq <= ts < l.posTs - n * l.freq + l.freq
    {
      OneRegime(l, ts, n);
    }
  }

  lemma {:induction false} OuterRegimes<D>(l: Level<D>, ts: int)
    requires l.Wf()
    ensures Locate(l, ts) == Complete <==> l.posTs + l.count * l.freq <= ts
    ensures Locate(l, ts) == Current <==> l.posTs <= ts < l.posTs + l.freq
    ensures Locate(l, ts) == Missed <==> l.posTs - (l.count + 1) * l.freq <= ts < l.posTs - (l.count - 1) * l.freq
    ensures Locate(l, ts) == TooOld <==> ts < l.posTs - (l.count + 1) * l.freq
  {
    LocateBounds(l, ts);
    Products(l.count, l.freq);
    match Locate(l, ts)
    case Back(n) => MulMonotone(n, l.count - 1, l.freq);
    case Forward(n) => MulMonotone(n + 1, l.count, l.freq); Products(n, l.freq);
    case _ => MulMonotone(1, l.count, l.freq);
  }

  lemma {:induction false} Products(c: int, f: int)
    ensures (c + 1) * f == f * c + f && (c - 1) * f == f * c - f && c * f == f * c
  {
  }

  lemma {:induction false} OneRegime<D>(l: Level<D>, ts: int, n: nat)
    requires l.Wf()
    ensures Locate(l, ts) == Forward(n) <==>
              1 <= n < l.count && l.posTs + n * l.freq <= ts < l.posTs + n * l.freq + l.freq
    ensures Locate(l, ts) == Back(n) <==>
              1 <= n < l.count && l.posTs - n * l.freq <= ts < l.posTs - n * l.freq + l.freq
  {
    LocateBounds(l, ts);
    Products(l.count, l.freq);
    Products(n, l.freq);
    if 1 <= n < l.count {
      MulMonotone(1, n, l.freq);
      MulMonotone(n + 1, l.count, l.freq);
      MulMonotone(n, l.count - 1, l.freq);
      if l.posTs + n * l.freq <= ts < l.posTs + n * l.freq + l.freq {
        QuotientUnique(ts - l.posTs, l.freq, n);
      }
      if l.posTs - n * l.freq <= ts < l.posTs - n * l.freq + l.freq {
        QuotientUnique(l.posTs - ts + l.freq - 1, l.freq, n);
      }
    }
  }

  /** Data that is too old for every slot is not stored; within two periods it makes all slots set. */
  lemma {:induction false} TooOldStep<D>(l: Level<D>, o: Offer<D>, ops: Ops<D>)
    requires l.Wf() && o.ts < l.posTs - (l.count - 1) * l.freq
    ensures Step(l, o, ops)
         == l.(recent := if l.posTs - (l.count + 1) * l.freq <= o.ts then Pad(l.recent, l.count, ops.blank)
               else l.recent)
    ensures Handed(l, o) == Some(o)
  {
    LocateIff(l, o.ts);
  }

  lemma {:induction false} MissedBound(p: int, ts: int, f: int, c: int, n: int)
    requires f > 0 && c <= n && n * f <= p - ts + f - 1
    ensures ts < p - (c - 1) * f
  {
  }

  /** A new block. */
  function Empty<D>(freq: int, count: int, blank: D): (l: Level<D>)
    requires freq > 0 && count > 0
    ensures l.Wf()
  {
    Level(freq, count, 0, [blank])
  }

  // ---------- One block over a stream of offers

  function Feed<D>(l: Level<D>, stream: seq<Offer<D>>, ops: Ops<D>): (r: Level<D>)
    requires l.Wf()
    ensures r.Wf() && r.freq == l.freq && r.count == l.count
  {
    if stream == [] then l
    else Step(Feed(l, stream[..|stream| - 1], ops), stream[|stream| - 1], ops)
  }

  /** Everything the block hands on while it is fed the stream. */
  function Passed<D>(l: Level<D>, stream: seq<Offer<D>>, ops: Ops<D>): seq<Offer<D>>
    requires l.Wf()
  {
    if stream == [] then []
    else
      var before := stream[..|stream| - 1];
      Passed(l, before, ops) + ToSeq(Handed(Feed(l, before, ops), stream[|stream| - 1]))
  }

  function ToSeq<T>(o: Option<T>): seq<T> {
    match o case None => [] case Some(x) => [x]
  }

  // ---------- The cascade

  predicate AllWf<D>(levels: seq<Level<D>>) {
    forall k :: 0 <= k < |levels| ==> levels[k].Wf()
  }

  /** rrdb_metric::update, from the first block that still has to be told. */
  function Cascade<D>(levels: seq<Level<D>>, o: Option<Offer<D>>, ops: Ops<D>): (r: seq<Level<D>>)
    requires AllWf(levels)
    ensures AllWf(r) && |r| == |levels|
  {
    if levels == [] || o == None then levels
    else [Step(levels[0], o.value, ops)] + Cascade(levels[1..], Handed(levels[0], o.value), ops)
  }

  /** A run of updates. */
  function Run<D>(levels: seq<Level<D>>, stream: seq<Offer<D>>, ops: Ops<D>): (r: seq<Level<D>>)
    requires AllWf(levels)
    ensures AllWf(r) && |r| == |levels|
  {
    if stream == [] then levels
    else Cascade(Run(levels, stream[..|stream| - 1], ops), Some(stream[|stream| - 1]), ops)
  }

  /** The stream that reaches block k. */
  function StreamAt<D>(levels: seq<Level<D>>, stream: seq<Offer<D>>, ops: Ops<D>, k: nat): seq<Offer<D>>
    requires AllWf(levels) && k <= |levels|
  {
    if k == 0 then stream
    else Passed(levels[k - 1], StreamAt(levels, stream, ops, k - 1), ops)
  }

  /** The block-by-block form: every block is fed the whole stream the previous one passes on. */
  function Pipeline<D>(levels: seq<Level<D>>, stream: seq<Offer<D>>, ops: Ops<D>): (r: seq<Level<D>>)
    requires AllWf(levels)
    ensures AllWf(r) && |r| == |levels|
  {
    if levels == [] then []
    else [Feed(levels[0], stream, ops)] + Pipeline(levels[1..], Passed(levels[0], stream, ops), ops)
  }

  lemma {:induction false} PipelineEmpty<D>(levels: seq<Level<D>>, ops: Ops<D>)
    requires AllWf(levels)
    ensures Pipeline(levels, [], ops) == levels
  {
    if levels != [] {
      PipelineEmpty(levels[1..], ops);
      assert levels == [levels[0]] + levels[1..];
    }
  }

  /** One more sample through the pipeline is one more cascade over its result. */
  lemma {:induction false} PipelineSnoc<D>(levels: seq<Level<D>>, stream: seq<Offer<D>>, o: Option<Offer<D>>,
                                           ops: Ops<D>)
    requires AllWf(levels)
    ensures Pipeline(levels, stream + ToSeq(o), ops) == Cascade(Pipeline(levels, stream, ops), o, ops)
  {
    var before := Pipeline(levels, stream, ops);
    if o == None {
      assert stream + ToSeq(o) == stream;
    } else if levels != [] {
      var longer := stream + ToSeq(o);
      assert longer[..|longer| - 1] == stream;
      var fed := Feed(levels[0], stream, ops);
      var rest := Passed(levels[0], stream, ops);
      assert before[0] == fed && before[1..] == Pipeline(levels[1..], rest, ops);
      PipelineSnoc(levels[1..], rest, Handed(fed, o.value), ops);
    }
  }

  /** Updating sample by sample, down the blocks, gives the same state as feeding block by block. */
  lemma {:induction false} RunIsPipeline<D>(levels: seq<Level<D>>, stream: seq<Offer<D>>, ops: Ops<D>)
    requires AllWf(levels)
    ensures Run(levels, stream, ops) == Pipeline(levels, stream, ops)
  {
    if stream == [] {
      PipelineEmpty(levels, ops);
    } else {
      var before, o := stream[..|stream| - 1], stream[|stream| - 1];
      RunIsPipeline(levels, before, ops);
      PipelineSnoc(levels, before, Some(o), ops);
      assert before + ToSeq(Some(o)) == stream;
    }
  }

  /** The state of block k after the run, seen from the stream that reaches it. */
  function BlockAfter<D>(levels: seq<Level<D>>, stream: seq<Offer<D>>, ops: Ops<D>, k: nat): (l: Level<D>)
    requires AllWf(levels) && k < |levels|
    ensures l.Wf() && l.freq == levels[k].freq && l.count == levels[k].count
  {
    Feed(levels[k], StreamAt(levels, stream, ops, k), ops)
  }

  lemma {:induction false} PipelineAt<D>(levels: seq<Level<D>>, stream: seq<Offer<D>>, ops: Ops<D>, k: nat)
    requires AllWf(levels) && k < |levels|
    ensures Pipeline(levels, stream, ops)[k] == BlockAfter(levels, stream, ops, k)
  {
    if k > 0 {
      var rest := Passed(levels[0], stream, ops);
      PipelineAt(levels[1..], rest, ops, k - 1);
      StreamAtTail(levels, stream, ops, k);
    }
  }

  lemma {:induction false} StreamAtTail<D>(levels: seq<Level<D>>, stream: seq<Offer<D>>, ops: Ops<D>, k: nat)
    requires AllWf(levels) && 1 <= k <= |levels|
    ensures StreamAt(levels, stream, ops, k) == StreamAt(levels[1..], Passed(levels[0], stream, ops), ops, k - 1)
  {
    if k > 1 {
      StreamAtTail(levels, stream, ops, k - 1);
    }
  }

  /** In a run of updates, block k sees exactly what block k - 1 passes on. */
  lemma {:induction false} RunAt<D>(levels: seq<Level<D>>, stream: seq<Offer<D>>, ops: Ops<D>)
    requires AllWf(levels)
    ensures forall k :: 0 <= k < |levels| ==> Run(levels, stream, ops)[k] == BlockAfter(levels, stream, ops, k)
  {
    RunIsPipeline(levels, stream, ops);
    forall k | 0 <= k < |levels|
      ensures Pipeline(levels, stream, ops)[k] == BlockAfter(levels, stream, ops, k)
    {
      PipelineAt(levels, stream, ops, k);
    }
  }
}
