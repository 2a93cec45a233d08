/**
 * The ring buffer of one retention policy element (src/rrdb/rrdb_metric_block.h,
 * src/rrdb/rrdb_metric_block.cpp), proved against the window model of module Rollup.
 * Each CHECK_AND_THROW of the original is an assert here: none of them can fire.
 */
module Blocks {
  import opened Options
  import opened Sequences
  import opened Times
  import opened Tuples
  import opened Rollup
  import opened Summaries

  /** t_update_ctx */
  datatype Ctx = Stop | Value(ts: int, value: real) | Rolled(tuple: Tuple) {
    function Ts(): int
      requires !Stop?
    {
      match this case Value(ts, _) => ts case Rolled(t) => t.ts
    }
  }

  function ToOffer(c: Ctx): SOffer
    requires !c.Stop?
  {
    match c
    case Value(ts, v) => Offer(ts, Single(v))
    case Rolled(t) => Offer(t.ts, t.stats)
  }

  /** What update leaves in the context for the next block. */
  function OutCtx(l: SLevel, c: Ctx): Ctx
    requires l.Wf() && !c.Stop?
  {
    match Locate(l, c.Ts())
    case Complete => Rolled(Tuple(l.posTs, l.recent[0]))
    case Forward(_) => Rolled(Tuple(l.posTs, l.recent[0]))
    case Current => Stop
    case _ => c
  }

  lemma {:induction false} OutCtxIsHanded(l: SLevel, c: Ctx)
    requires l.Wf() && !c.Stop?
    ensures OutCtx(l, c).Stop? <==> Handed(l, ToOffer(c)) == None
    ensures !OutCtx(l, c).Stop? ==> Handed(l, ToOffer(c)) == Some(ToOffer(OutCtx(l, c)))
  {
  }

  // ---------- Where the slots are in the ring

  function NextPos(pos: nat, count: nat): nat { if pos + 1 < count then pos + 1 else 0 }

  function PrevPos(pos: nat, count: nat): nat
    requires count > 0
  {
    if pos > 0 then pos - 1 else count - 1
  }

  /** The index i steps back from pos. */
  function Index(pos: nat, count: nat, i: nat): nat
    requires pos < count && i <= count
  {
    if i <= pos then pos - i else pos + count - i
  }

  /** How many steps back from pos the index j is. */
  function Steps(pos: nat, count: nat, j: nat): nat
    requires pos < count && j < count
  {
    if j <= pos then pos - j else pos + count - j
  }

  function Slot(l: SLevel, i: nat): Tuple {
    if i < |l.recent| then Tuple(l.SlotTs(i), l.recent[i]) else ZERO_TUPLE
  }

  /** The array that holds the window when the current slot is at pos. */
  function Layout(l: SLevel, pos: nat): (s: seq<Tuple>)
    requires l.Wf() && pos < l.count
    ensures |s| == l.count
  {
    seq(l.count, j requires 0 <= j < l.count => Slot(l, Steps(pos, l.count, j)))
  }

  /** Where the current slot is after data for ts was taken in. */
  function PosAfter(l: SLevel, pos: nat, ts: int): nat
    requires l.Wf() && pos < l.count
  {
    match Locate(l, ts)
    case Complete => 0
    case Forward(n) => (pos + n) % l.count
    case _ => pos
  }

  /** The window after n steps of the forward loop. */
  function Shifted(l: SLevel, n: nat): SLevel
    requires l.Wf()
  {
    l.(posTs := l.posTs + n * l.freq, recent := Take(Filled(n, ZERO) + l.recent, l.count))
  }

  lemma {:induction false} ShiftedNext(l: SLevel, n: nat)
    requires l.Wf()
    ensures var m := Shifted(l, n);
            Shifted(l, n + 1) == m.(posTs := m.posTs + l.freq, recent := Take([ZERO] + m.recent, l.count))
    ensures n == 0 ==> Shifted(l, n) == l
    ensures (n + 1) * l.freq == n * l.freq + l.freq
  {
  }

  /** The forward loop takes fewer steps than the ring has slots. */
  lemma {:induction false} ShiftInRange(l: SLevel, ts: int, n: nat)
    requires l.Wf() && ts < l.LatestPossibleTs() && l.posTs + n * l.freq <= ts
    ensures n < l.count
  {
  }

  lemma {:induction false} ShiftDone(l: SLevel, ts: int, n: nat, pos: nat)
    requires l.Wf() && 1 <= n < l.count && pos < l.count && Locate(l, ts).Forward?
    requires l.posTs + n * l.freq <= ts < l.posTs + n * l.freq + l.freq
    ensures Shifted(l, n) == Moved(l, ts, ZERO) && Around(pos + n, l.count) == PosAfter(l, pos, ts)
  {
    QuotientUnique(ts - l.posTs, l.freq, n);
    ModOnce(pos + n, l.count);
  }

  function Around(x: nat, count: nat): nat
    requires count > 0
  {
    if x < count then x else x - count
  }

  // ---------- What a query sees

  /** One call of data_walker::append */
  datatype Call = Call(tuple: Tuple, interval: int)

  predicate Overlaps(l: SLevel, i: nat, ts1: int, ts2: int) {
    IntervalOverlap(l.SlotTs(i), l.SlotTs(i) + l.freq, ts1, ts2) == 0
  }

  /** The set slots among the n most recent that overlap [ts1, ts2), newest first. */
  function SetOverlaps(l: SLevel, ts1: int, ts2: int, n: nat): seq<Call>
    requires n <= |l.recent|
  {
    if n == 0 then []
    else SetOverlaps(l, ts1, ts2, n - 1) +
         if Overlaps(l, n - 1, ts1, ts2) then [Call(Slot(l, n - 1), l.freq)] else []
  }

  /** How many never-set slots are reported; they carry timestamp 0 and no data. */
  function UnsetReported(l: SLevel, ts1: int, ts2: int): int
    requires l.Wf()
  {
    if ts1 < l.SlotTs(|l.recent| - 1) + l.freq && ts1 < l.freq && 0 < ts2 then l.count - |l.recent| else 0
  }

  /** rrdb_metric_block::select */
  function Selected(l: SLevel, ts1: int, ts2: int): seq<Call>
    requires l.Wf()
  {
    SetOverlaps(l, ts1, ts2, |l.recent|) + Filled(UnsetReported(l, ts1, ts2), Call(ZERO_TUPLE, l.freq))
  }

  /** Slots before ts1 contribute nothing, nor do the ones behind them. */
  lemma {:induction false} NothingEarlier(l: SLevel, ts1: int, ts2: int, i: nat, n: nat)
    requires l.Wf() && i <= n <= |l.recent|
    requires i < n ==> l.SlotTs(i) + l.freq <= ts1
    ensures SetOverlaps(l, ts1, ts2, n) == SetOverlaps(l, ts1, ts2, i)
    ensures i < n ==> l.SlotTs(n - 1) + l.freq <= ts1
    decreases n
  {
    if i < n {
      NothingEarlier(l, ts1, ts2, i, n - 1);
      MulMonotone(i, n - 1, l.freq);
    }
  }

  class MetricBlock {
    const freq: int
    const count: nat
    const tuples: array<Tuple>
    var pos: nat
    var posTs: int
    /** The set slots, newest first; the ring holds them and zeros. */
    ghost var recent: seq<Stats>

    ghost function View(): SLevel
      reads this
    {
      Level(freq, count, posTs, recent)
    }

    ghost predicate Valid()
      reads this, tuples
    {
      && View().Wf() && pos < count && tuples.Length == count
      && tuples[..] == Layout(View(), pos)
    }

    /** A block with a frequency and slots is ready; without, it stays without an array. */
    constructor (freq: nat, count: nat)
      ensures fresh(tuples) && pos == 0 && this.freq == freq && this.count == tuples.Length == count
      ensures freq > 0 && count > 0 ==> Valid() && View() == Empty(freq, count, ZERO)
    {
      this.freq, this.count := freq, count;
      tuples := new Tuple[count](_ => ZERO_TUPLE);
      pos, posTs := 0, 0;
      recent := [ZERO];
    }

    /** Moves the current slot one step forward, to ts. */
    method Advance(ts: int)
      requires Valid() && ts == posTs + freq
      modifies this`pos, this`posTs, this`recent, tuples
      ensures Valid() && pos == NextPos(old(pos), count)
      ensures View() == old(View()).(posTs := ts, recent := Take([ZERO] + old(recent), count))
    {
      pos := NextPos(pos, count);
      tuples[pos] := Tuple(ts, ZERO);
      posTs := ts;
      recent := Take([ZERO] + recent, count);
      forall j | 0 <= j < count
        ensures tuples[j] == Slot(View(), Steps(pos, count, j))
      {
        if j != pos {
          assert Steps(pos, count, j) == Steps(old(pos), count, j) + 1;
          assert tuples[j] == old(tuples[..])[j];
          SlotTsStep(View(), Steps(old(pos), count, j));
        }
      }
      assert tuples[..] == Layout(View(), pos);
    }

    /** Overwrites the timestamp of the slot i steps back. */
    method Stamp(ghost i: nat, p: nat, ts: int)
      requires Valid() && 1 <= i < count && i <= |recent|
      requires p == Index(pos, count, i) && ts == View().SlotTs(i)
      modifies this`recent, tuples
      ensures Valid() && tuples[p].ts == ts
      ensures View() == old(View()).(recent := Pad(old(recent), i + 1, ZERO))
    {
      assert tuples[p] == tuples[..][p] == Slot(View(), i);
      tuples[p] := Tuple(ts, tuples[p].stats);
      recent := Pad(recent, i + 1, ZERO);
      forall j | 0 <= j < count
        ensures tuples[j] == Slot(View(), Steps(pos, count, j))
      {
        assert old(tuples[..])[j] == Slot(old(View()), Steps(pos, count, j));
      }
      assert tuples[..] == Layout(View(), pos);
    }

    /** The backward walk of find_tuple; it stamps every slot it passes. */
    method WalkBack(ts: int) returns (found: Option<nat>)
      requires Valid() && View().EarliestTs() <= ts < posTs
      modifies this`recent, tuples
      ensures Valid() && View() == Moved(old(View()), ts, ZERO)
      ensures match Locate(old(View()), ts)
              case Back(n) => n < count && found == Some(Index(pos, count, n))
              case _ => found == None
    {
      ghost var l := View();
      var tupleTs := posTs;
      var p := PrevPos(pos, count);
      ghost var i: nat := 1;
      while p != pos
        invariant 1 <= i <= count && p == Index(pos, count, i)
        invariant tupleTs == l.SlotTs(i - 1) && ts < tupleTs
        invariant Valid() && View() == l.(recent := Pad(l.recent, i, ZERO))
        decreases count - i
      {
        SlotTsStep(l, i - 1);
        tupleTs := tupleTs - freq;
        Stamp(i, p, tupleTs);
        if tupleTs <= ts {
          assert ts < tupleTs + freq;
          BackSteps(l, ts, i);
          return Some(p);
        }
        p := PrevPos(p, count);
        i := i + 1;
      }
      WalkMissed(l, ts);
      return None;
    }

    /** rrdb_metric_block::find_tuple */
    method FindTuple(in': Ctx) returns (out: Ctx, found: Option<nat>)
      requires Valid() && !in'.Stop?
      modifies this`pos, this`posTs, this`recent, tuples
      ensures Valid() && View() == Moved(old(View()), in'.Ts(), ZERO)
      ensures out == OutCtx(old(View()), in') && pos == PosAfter(old(View()), old(pos), in'.Ts())
      ensures match Target(Locate(old(View()), in'.Ts()))
              case Some(i) => i < count && found == Some(Index(pos, count, i))
              case None => found == None
    {
      var ts := in'.Ts();
      LocateBounds(View(), ts);
      assert tuples[pos] == tuples[..][pos] == Slot(View(), 0);
      if posTs + freq * count <= ts {
        out := Rolled(tuples[pos]);
        forall j | 0 <= j < tuples.Length {
          tuples[j] := ZERO_TUPLE;
        }
        tuples[0] := Tuple(ts, ZERO);
        pos, posTs := 0, ts;
        recent := [ZERO];
        assert tuples[..] == Layout(View(), pos);
        found := Some(0);
      } else if posTs <= ts {
        var nextTs := tuples[pos].ts + freq;
        if ts < nextTs {
          return Stop, Some(pos);
        }
        out := Rolled(tuples[pos]);
        ShiftTo(ts, nextTs);
        found := Some(pos);
      } else if posTs - freq * count - freq <= ts {
        out := in';
        found := WalkBack(ts);
      } else {
        out := in';
        found := None;
        assert ts < posTs - freq * count - freq;
      }
    }

    /** The forward loop of find_tuple. */
    method ShiftTo(ts: int, firstTs: int)
      requires Valid() && firstTs == posTs + freq <= ts && Locate(View(), ts).Forward?
      modifies this`pos, this`posTs, this`recent, tuples
      ensures Valid() && View() == Moved(old(View()), ts, ZERO)
      ensures pos == PosAfter(old(View()), old(pos), ts)
    {
      ghost var l := View();
      ShiftedNext(l, 0);
      ghost var n := 1;
      ShiftInRange(l, ts, 1);
      var nextTs := firstTs;
      Advance(nextTs);
      nextTs := nextTs + freq;
      while nextTs <= ts
        invariant 1 <= n < count && nextTs == posTs + freq && posTs <= ts
        invariant pos == Around(old(pos) + n, count)
        invariant Valid() && View() == Shifted(l, n)
        decreases ts - nextTs
      {
        ShiftedNext(l, n);
        ShiftInRange(l, ts, n + 1);
        Advance(nextTs);
        nextTs := nextTs + freq;
        n := n + 1;
      }
      ShiftDone(l, ts, n, old(pos));
    }

    /** rrdb_metric_block::update */
    method Update(in': Ctx) returns (out: Ctx)
      requires Valid() && !in'.Stop?
      modifies this`pos, this`posTs, this`recent, tuples
      ensures Valid() && View() == Step(old(View()), ToOffer(in'), STATS)
      ensures out == OutCtx(old(View()), in') && pos == PosAfter(old(View()), old(pos), in'.Ts())
      ensures in'.Ts() < old(posTs) - (count - 1) * freq ==>
                && out == in' && pos == old(pos) && posTs == old(posTs)
                && tuples[..] == if old(posTs) - (count + 1) * freq <= in'.Ts()
                                 then AllStamped(old(tuples[..]), pos, posTs, freq) else old(tuples[..])
    {
      StampedLayout(View(), ToOffer(in'), pos);
      out := TakeIn(in');
    }

    /** find_tuple, and the data goes into the tuple if there is one. */
    method TakeIn(in': Ctx) returns (out: Ctx)
      requires Valid() && !in'.Stop?
      modifies this`pos, this`posTs, this`recent, tuples
      ensures Valid() && View() == Step(old(View()), ToOffer(in'), STATS)
      ensures out == OutCtx(old(View()), in') && pos == PosAfter(old(View()), old(pos), in'.Ts())
    {
      ghost var l := View();
      assert tuples[pos] == tuples[..][pos];
      assert posTs == tuples[pos].ts;
      var found;
      out, found := FindTuple(in');
      if found == None {
        return;
      }
      LocateBounds(l, in'.Ts());
      ghost var i := Target(Locate(l, in'.Ts())).value;
      var p := found.value;
      assert tuples[p] == tuples[..][p] == Slot(View(), i);
      assert tuples[p].ts <= in'.Ts() < tuples[p].ts + freq;
      MergeInto(i, p, in');
    }

    /** rrdb_metric_tuple_update on the slot i steps back. */
    method MergeInto(ghost i: nat, p: nat, in': Ctx)
      requires Valid() && !in'.Stop? && i < |recent| && p == Index(pos, count, i)
      modifies this`recent, tuples
      ensures Valid()
      ensures View() == old(View()).(recent := old(recent)[i := Merge(old(recent)[i], ToOffer(in').data)])
    {
      assert tuples[p] == tuples[..][p] == Slot(View(), i);
      match in' {
        case Value(_, v) =>
          SingleSummarizes(v);
          tuples[p] := tuples[p].(stats := AddValue(tuples[p].stats, v));
        case Rolled(t) =>
          tuples[p] := tuples[p].(stats := Merge(tuples[p].stats, t.stats));
      }
      recent := recent[i := Merge(recent[i], ToOffer(in').data)];
      OnlySlotChanged(old(View()), i, Merge(old(recent)[i], ToOffer(in').data), pos);
      assert tuples[..] == Layout(View(), pos);
    }

    /** rrdb_metric_block::select; the result lists the calls of the walker's append. */
    method Select(ts1: int, ts2: int) returns (calls: seq<Call>)
      requires Valid()
      ensures calls == Selected(View(), ts1, ts2)
    {
      ghost var l := View();
      ghost var n := |recent|;
      ghost var i: nat := 0;
      var p := pos;
      calls := [];
      var more := true;
      while more
        invariant Valid() && View() == l && n == |l.recent|
        invariant 0 <= i <= count && (more <==> i < count)
        invariant p == Index(pos, count, i)
        invariant i <= n ==> calls == SetOverlaps(l, ts1, ts2, i)
        invariant 0 < i <= n ==> ts1 < l.SlotTs(i - 1) + freq
        invariant n < i ==> ts1 < l.SlotTs(n - 1) + freq && ts1 < freq
        invariant n < i ==> calls == SetOverlaps(l, ts1, ts2, n) + Filled(if 0 < ts2 then i - n else 0,
                                                                          Call(ZERO_TUPLE, freq))
        decreases count - i
      {
        assert tuples[p] == tuples[..][p] == Slot(l, i);
        var res := IntervalOverlap(tuples[p].ts, tuples[p].ts + freq, ts1, ts2);
        if res < 0 {
          if i < n {
            NothingEarlier(l, ts1, ts2, i, n);
          }
          return;
        }
        if res == 0 {
          calls := calls + [Call(tuples[p], freq)];
        }
        p := PrevPos(p, count);
        i := i + 1;
        more := p != pos;
      }
    }
  }

  /** The array with the timestamp of every slot set: i steps back from pos it is i periods before posTs. */
  function AllStamped(a: seq<Tuple>, pos: nat, posTs: int, freq: int): (r: seq<Tuple>)
    requires pos < |a|
    ensures |r| == |a|
  {
    seq(|a|, j requires 0 <= j < |a| => Tuple(posTs - Steps(pos, |a|, j) * freq, a[j].stats))
  }

  /** What data that is older than all slots does to the array. */
  lemma {:induction false} StampedLayout(l: SLevel, o: SOffer, pos: nat)
    requires l.Wf() && pos < l.count
    ensures o.ts < l.posTs - (l.count - 1) * l.freq ==>
              && Handed(l, o) == Some(o) && PosAfter(l, pos, o.ts) == pos && Step(l, o, STATS).posTs == l.posTs
              && Layout(Step(l, o, STATS), pos)
                 == if l.posTs - (l.count + 1) * l.freq <= o.ts
                    then AllStamped(Layout(l, pos), pos, l.posTs, l.freq) else Layout(l, pos)
  {
    if o.ts < l.posTs - (l.count - 1) * l.freq {
      TooOldStep(l, o, STATS);
      LocateIff(l, o.ts);
    }
  }

  lemma {:induction false} SlotTsStep(l: SLevel, i: nat)
    ensures l.SlotTs(i + 1) == l.SlotTs(i) - l.freq
  {
  }

  lemma {:induction false} ModOnce(x: nat, count: nat)
    requires 0 < count && x < 2 * count
    ensures x % count == Around(x, count)
  {
  }

  /** The slot where the backward walk stops is the one Locate names. */
  lemma {:induction false} BackSteps(l: SLevel, ts: int, i: nat)
    requires l.Wf() && 1 <= i < l.count && l.EarliestTs() <= ts < l.posTs
    requires l.SlotTs(i) <= ts < l.SlotTs(i - 1)
    ensures Locate(l, ts) == Back(i)
  {
    assert (i - 1) * l.freq == i * l.freq - l.freq;
    assert l.freq * l.count >= 0;
    QuotientUnique(l.posTs - ts + l.freq - 1, l.freq, i);
  }

  lemma {:induction false} WalkMissed(l: SLevel, ts: int)
    requires l.Wf() && l.EarliestTs() <= ts < l.posTs && ts < l.SlotTs(l.count - 1)
    ensures Locate(l, ts) == Missed
  {
    assert (l.count - 1) * l.freq == l.count * l.freq - l.freq;
    assert 0 <= l.freq * l.count;
    QuotientAtLeast(l.posTs - ts + l.freq - 1, l.freq, l.count);
  }

  lemma {:induction false} OnlySlotChanged(l: SLevel, i: nat, stats: Stats, pos: nat)
    requires l.Wf() && pos < l.count && i < |l.recent|
    ensures Layout(l.(recent := l.recent[i := stats]), pos)
            == Layout(l, pos)[Index(pos, l.count, i) := Tuple(l.SlotTs(i), stats)]
  {
  }
}
