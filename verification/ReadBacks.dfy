/**
 * What a query sees of the last block after it was read back (src/rrdb/rrdb_metric_block.cpp:222-290): the slots
 * above max_pos and pos are zero then, and the walk over the slots stops at a zero one if the query starts late
 * enough, although there may be older data behind it.
 */
module ReadBacks {
  import opened Sequences
  import opened Times
  import opened Tuples
  import opened Summaries
  import opened Blocks
  import opened Caching
  import opened CachedMetrics

  /** The loop of select from the slot i steps back, on any array. */
  function Walk(a: seq<Tuple>, pos: nat, freq: int, ts1: int, ts2: int, i: nat): seq<Call>
    requires pos < |a| && i <= |a|
    decreases |a| - i
  {
    if i == |a| then []
    else
      var t := a[Index(pos, |a|, i)];
      var res := IntervalOverlap(t.ts, t.ts + freq, ts1, ts2);
      if res < 0 then []
      else (if res == 0 then [Call(t, freq)] else []) + Walk(a, pos, freq, ts1, ts2, i + 1)
  }

  /** The slot i steps back as it is in the array. */
  lemma {:induction false} AtIndex(l: SLevel, pos: nat, i: nat)
    requires l.Wf() && pos < l.count && i < l.count
    ensures Index(pos, l.count, i) < l.count && Layout(l, pos)[Index(pos, l.count, i)] == Slot(l, i)
  {
  }

  /** On the array of a window the walk is Selected, as MetricBlock.Select gives it. */
  lemma {:induction false} WalkIsSelected(l: SLevel, pos: nat, ts1: int, ts2: int)
    requires l.Wf() && pos < l.count
    ensures Walk(Layout(l, pos), pos, l.freq, ts1, ts2, 0) == Selected(l, ts1, ts2)
  {
    WalkFrom(l, pos, ts1, ts2, 0);
    assert SetOverlaps(l, ts1, ts2, 0) == [];
  }

  /** Nothing before slot i was earlier than the query: the set slots from there on, then the never-set ones. */
  lemma {:induction false} WalkFrom(l: SLevel, pos: nat, ts1: int, ts2: int, i: nat)
    requires l.Wf() && pos < l.count && i <= |l.recent|
    requires i > 0 ==> ts1 < l.SlotTs(i - 1) + l.freq
    ensures SetOverlaps(l, ts1, ts2, i) + Walk(Layout(l, pos), pos, l.freq, ts1, ts2, i) == Selected(l, ts1, ts2)
    decreases |l.recent| - i
  {
    if i == |l.recent| {
      WalkUnset(l, pos, ts1, ts2, i);
    } else {
      AtIndex(l, pos, i);
      if IntervalOverlap(l.SlotTs(i), l.SlotTs(i) + l.freq, ts1, ts2) < 0 {
        NothingEarlier(l, ts1, ts2, i, |l.recent|);
      } else {
        WalkFrom(l, pos, ts1, ts2, i + 1);
      }
    }
  }

  lemma {:induction false} WalkUnset(l: SLevel, pos: nat, ts1: int, ts2: int, i: nat)
    requires l.Wf() && pos < l.count && |l.recent| <= i <= l.count && ts1 < l.SlotTs(|l.recent| - 1) + l.freq
    ensures Walk(Layout(l, pos), pos, l.freq, ts1, ts2, i)
         == Filled(if ts1 < l.freq && 0 < ts2 then l.count - i else 0, Call(ZERO_TUPLE, l.freq))
    decreases l.count - i
  {
    if i < l.count {
      AtIndex(l, pos, i);
      WalkUnset(l, pos, ts1, ts2, i + 1);
    }
  }

  // ---------- The array that is read back

  /** The slots up to top as they were, and zeros. */
  function ReadBack(l: SLevel, pos: nat, top: nat): (a: seq<Tuple>)
    requires l.Wf() && pos <= top < l.count
    ensures |a| == l.count
  {
    Layout(l, pos)[..top + 1] + Filled(l.count - (top + 1), ZERO_TUPLE)
  }

  function SlotBack(l: SLevel, pos: nat, top: nat, i: nat): Tuple
    requires l.Wf() && pos <= top < l.count && i < l.count
  {
    if Index(pos, l.count, i) <= top then Slot(l, i) else ZERO_TUPLE
  }

  lemma {:induction false} ReadBackAt(l: SLevel, pos: nat, top: nat, i: nat)
    requires l.Wf() && pos <= top < l.count && i < l.count
    ensures Index(pos, l.count, i) < l.count && ReadBack(l, pos, top)[Index(pos, l.count, i)]
            == SlotBack(l, pos, top, i)
  {
    AtIndex(l, pos, i);
  }

  lemma {:induction false} WithDataMember(calls: seq<Call>, c: Call)
    ensures c in WithData(calls) <==> c in calls && c.tuple.stats != ZERO
  {
    if calls != [] {
      WithDataMember(calls[..|calls| - 1], c);
      assert calls == calls[..|calls| - 1] + [calls[|calls| - 1]];
    }
  }

  lemma {:induction false} WithDataCons(c: Call, rest: seq<Call>)
    ensures WithData([c] + rest) == (if c.tuple.stats == ZERO then [] else [c]) + WithData(rest)
  {
    WithDataAppend([c], rest);
    WithDataSnoc([], c);
    assert [] + [c] == [c];
  }

  /** Every call comes from a slot before the point where the walk has ended. */
  lemma {:induction false} WalkMember(a: seq<Tuple>, pos: nat, freq: int, ts1: int, ts2: int, i: nat, m: nat, c: Call)
    requires pos < |a| && i <= m <= |a| && Walk(a, pos, freq, ts1, ts2, m) == [] && c in Walk(a, pos, freq, ts1, ts2, i)
    ensures exists j: nat :: i <= j < m && c == Call(a[Index(pos, |a|, j)], freq)
    decreases |a| - i
  {
    if i < m && c in Walk(a, pos, freq, ts1, ts2, i + 1) {
      WalkMember(a, pos, freq, ts1, ts2, i + 1, m, c);
    }
  }

  /** From slot i on no slot with data overlaps the query. */
  lemma {:induction false} NoDataFrom(a: seq<Tuple>, pos: nat, freq: int, ts1: int, ts2: int, i: nat)
    requires pos < |a| && i <= |a|
    requires forall j: nat :: i <= j < |a| && a[Index(pos, |a|, j)].stats != ZERO ==>
               IntervalOverlap(a[Index(pos, |a|, j)].ts, a[Index(pos, |a|, j)].ts + freq, ts1, ts2) != 0
    ensures WithData(Walk(a, pos, freq, ts1, ts2, i)) == []
    decreases |a| - i
  {
    if i < |a| {
      NoDataFrom(a, pos, freq, ts1, ts2, i + 1);
      WithDataCons(Call(a[Index(pos, |a|, i)], freq), Walk(a, pos, freq, ts1, ts2, i + 1));
      assert [] + Walk(a, pos, freq, ts1, ts2, i + 1) == Walk(a, pos, freq, ts1, ts2, i + 1);
    }
  }

  /** Behind the start of the ring there is data only at timestamps up to 0, and only at indexes up to top. */
  ghost predicate ShowsBehind(l: SLevel, pos: nat, top: nat)
    requires l.Wf() && pos <= top < l.count
  {
    top == l.count - 1
    || forall i: nat :: pos < i < |l.recent| && l.recent[i] != ZERO ==>
        Index(pos, l.count, i) <= top && l.SlotTs(i) <= 0
  }

  ghost predicate SameWalk(l: SLevel, pos: nat, top: nat, ts1: int, ts2: int, i: nat)
    requires l.Wf() && pos <= top < l.count && i <= l.count
  {
    WithData(Walk(ReadBack(l, pos, top), pos, l.freq, ts1, ts2, i))
        == WithData(Walk(Layout(l, pos), pos, l.freq, ts1, ts2, i))
  }

  lemma {:induction false} SameSlotSame(l: SLevel, pos: nat, top: nat, ts1: int, ts2: int, i: nat)
    requires l.Wf() && pos <= top < l.count && i < l.count && SlotBack(l, pos, top, i) == Slot(l, i)
    requires SameWalk(l, pos, top, ts1, ts2, i + 1)
    ensures SameWalk(l, pos, top, ts1, ts2, i)
  {
    var a, b := Layout(l, pos), ReadBack(l, pos, top);
    AtIndex(l, pos, i);
    ReadBackAt(l, pos, top, i);
    WithDataCons(Call(Slot(l, i), l.freq), Walk(a, pos, l.freq, ts1, ts2, i + 1));
    WithDataCons(Call(Slot(l, i), l.freq), Walk(b, pos, l.freq, ts1, ts2, i + 1));
    assert [] + Walk(a, pos, l.freq, ts1, ts2, i + 1) == Walk(a, pos, l.freq, ts1, ts2, i + 1);
    assert [] + Walk(b, pos, l.freq, ts1, ts2, i + 1) == Walk(b, pos, l.freq, ts1, ts2, i + 1);
  }

  /** If a slot is too early for the query, so is all data behind it. */
  lemma {:induction false} NoDataBehind(l: SLevel, pos: nat, top: nat, ts1: int, ts2: int, i: nat)
    requires l.Wf() && pos <= top < l.count && i < |l.recent| && l.SlotTs(i) + l.freq <= ts1
    ensures WithData(Walk(ReadBack(l, pos, top), pos, l.freq, ts1, ts2, i + 1)) == []
  {
    var b := ReadBack(l, pos, top);
    forall j: nat | i + 1 <= j < |b| && b[Index(pos, |b|, j)].stats != ZERO
      ensures IntervalOverlap(b[Index(pos, |b|, j)].ts, b[Index(pos, |b|, j)].ts + l.freq, ts1, ts2) != 0
    {
      ReadBackAt(l, pos, top, j);
      MulMonotone(i, j, l.freq);
    }
    NoDataFrom(b, pos, l.freq, ts1, ts2, i + 1);
  }

  /** A zeroed slot without data makes no difference to a query that starts early. */
  lemma {:induction false} ZeroedSlotSame(l: SLevel, pos: nat, top: nat, ts1: int, ts2: int, i: nat)
    requires l.Wf() && pos <= top < l.count && i < |l.recent| && l.recent[i] == ZERO
             && SlotBack(l, pos, top, i) == ZERO_TUPLE
    requires ts1 < l.freq && SameWalk(l, pos, top, ts1, ts2, i + 1)
    ensures SameWalk(l, pos, top, ts1, ts2, i)
  {
    var a, b := Layout(l, pos), ReadBack(l, pos, top);
    AtIndex(l, pos, i);
    ReadBackAt(l, pos, top, i);
    WithDataCons(Call(Slot(l, i), l.freq), Walk(a, pos, l.freq, ts1, ts2, i + 1));
    WithDataCons(Call(ZERO_TUPLE, l.freq), Walk(b, pos, l.freq, ts1, ts2, i + 1));
    assert [] + Walk(a, pos, l.freq, ts1, ts2, i + 1) == Walk(a, pos, l.freq, ts1, ts2, i + 1);
    assert [] + Walk(b, pos, l.freq, ts1, ts2, i + 1) == Walk(b, pos, l.freq, ts1, ts2, i + 1);
    if l.SlotTs(i) + l.freq <= ts1 {
      NoDataBehind(l, pos, top, ts1, ts2, i);
    }
  }

  lemma {:induction false} BehindSame(l: SLevel, pos: nat, top: nat, ts1: int, ts2: int, i: nat)
    requires l.Wf() && pos <= top < l.count - 1 && ShowsBehind(l, pos, top) && pos < i <= l.count && ts1 < l.freq
    ensures SameWalk(l, pos, top, ts1, ts2, i)
    decreases l.count - i
  {
    if i < l.count {
      BehindSame(l, pos, top, ts1, ts2, i + 1);
      if SlotBack(l, pos, top, i) == Slot(l, i) {
        SameSlotSame(l, pos, top, ts1, ts2, i);
      } else {
        ZeroedSlotSame(l, pos, top, ts1, ts2, i);
      }
    }
  }

  /** For a later query neither array has anything behind the start of the ring. */
  lemma {:induction false} BehindIsNothing(l: SLevel, pos: nat, top: nat, ts1: int, ts2: int)
    requires l.Wf() && pos <= top < l.count - 1 && ShowsBehind(l, pos, top) && l.freq <= ts1
    ensures SameWalk(l, pos, top, ts1, ts2, pos + 1)
  {
    var a := Layout(l, pos);
    forall j: nat | pos + 1 <= j < |a| && a[Index(pos, |a|, j)].stats != ZERO
      ensures IntervalOverlap(a[Index(pos, |a|, j)].ts, a[Index(pos, |a|, j)].ts + l.freq, ts1, ts2) != 0
    {
      AtIndex(l, pos, j);
    }
    NoDataFrom(a, pos, l.freq, ts1, ts2, pos + 1);
    ReadBackAt(l, pos, top, pos + 1);
  }

  lemma {:induction false} FrontSame(l: SLevel, pos: nat, top: nat, ts1: int, ts2: int, i: nat)
    requires l.Wf() && pos <= top < l.count && i <= pos + 1 && SameWalk(l, pos, top, ts1, ts2, pos + 1)
    ensures SameWalk(l, pos, top, ts1, ts2, i)
    decreases pos + 1 - i
  {
    if i <= pos {
      FrontSame(l, pos, top, ts1, ts2, i + 1);
      SameSlotSame(l, pos, top, ts1, ts2, i);
    }
  }

  lemma {:induction false} ShowsAll(l: SLevel, pos: nat, top: nat, ts1: int, ts2: int)
    requires l.Wf() && pos <= top < l.count && ShowsBehind(l, pos, top)
    ensures SameWalk(l, pos, top, ts1, ts2, 0)
  {
    if top == l.count - 1 {
      assert ReadBack(l, pos, top) == Layout(l, pos);
    } else {
      if ts1 < l.freq {
        BehindSame(l, pos, top, ts1, ts2, pos + 1);
      } else {
        BehindIsNothing(l, pos, top, ts1, ts2);
      }
      FrontSame(l, pos, top, ts1, ts2, 0);
    }
  }

  /** The window hands over slot i to a query for its last second. */
  lemma {:induction false} LastSecond(l: SLevel, pos: nat, i: nat, c: Call)
    requires l.Wf() && pos < l.count && i < |l.recent| && l.recent[i] != ZERO && c == Call(Slot(l, i), l.freq)
    ensures var ts := l.SlotTs(i) + l.freq - 1; c in WithData(Walk(Layout(l, pos), pos, l.freq, ts, ts + 1, 0))
  {
    var ts := l.SlotTs(i) + l.freq - 1;
    WalkIsSelected(l, pos, ts, ts + 1);
    SetOverlapsIn(l, ts, ts + 1, i, |l.recent|);
    WithDataMember(Selected(l, ts, ts + 1), c);
  }

  lemma {:induction false} SetOverlapsIn(l: SLevel, ts1: int, ts2: int, i: nat, n: nat)
    requires i < n <= |l.recent| && Overlaps(l, i, ts1, ts2)
    ensures Call(Slot(l, i), l.freq) in SetOverlaps(l, ts1, ts2, n)
    decreases n
  {
    if i < n - 1 {
      SetOverlapsIn(l, ts1, ts2, i, n - 1);
    }
  }

  /** That query does not get the slot from the array read back, if the slot was zeroed or lies behind a zeroed one. */
  lemma {:induction false} NotShown(l: SLevel, pos: nat, top: nat, i: nat, c: Call)
    requires l.Wf() && pos <= top < l.count - 1 && pos < i < |l.recent| && l.recent[i] != ZERO
             && c == Call(Slot(l, i), l.freq)
    requires top < Index(pos, l.count, i) || 0 < l.SlotTs(i)
    ensures var ts := l.SlotTs(i) + l.freq - 1; c !in Walk(ReadBack(l, pos, top), pos, l.freq, ts, ts + 1, 0)
  {
    var ts, b := l.SlotTs(i) + l.freq - 1, ReadBack(l, pos, top);
    if c in Walk(b, pos, l.freq, ts, ts + 1, 0) {
      var m := if top < Index(pos, l.count, i) then l.count else pos + 1;
      ReadBackAt(l, pos, top, pos + 1);
      WalkMember(b, pos, l.freq, ts, ts + 1, 0, m, c);
      var j: nat :| j < m && c == Call(b[Index(pos, |b|, j)], l.freq);
      ReadBackAt(l, pos, top, j);
      SameSlot(l, i, j);
    }
  }

  lemma {:induction false} SameSlot(l: SLevel, i: nat, j: nat)
    requires l.Wf() && l.SlotTs(i) == l.SlotTs(j)
    ensures i == j
  {
    if i < j {
      MulMonotone(i + 1, j, l.freq);
    } else if j < i {
      MulMonotone(j + 1, i, l.freq);
    }
  }

  /**
   * Every query gets the same tuples with data from the array that is read back, if and only if the whole
   * array was written, or what has data behind the start of the ring was written and is not after timestamp
   * 0. Data that was written is hidden by the zeroed slots before it.
   */
  lemma {:induction false} ShowsAllIff(l: SLevel, pos: nat, top: nat)
    requires l.Wf() && pos <= top < l.count
    ensures (forall ts1, ts2 :: SameWalk(l, pos, top, ts1, ts2, 0)) <==> ShowsBehind(l, pos, top)
  {
    if ShowsBehind(l, pos, top) {
      forall ts1, ts2
        ensures SameWalk(l, pos, top, ts1, ts2, 0)
      {
        ShowsAll(l, pos, top, ts1, ts2);
      }
    } else {
      var i: nat :| pos < i < |l.recent| && l.recent[i] != ZERO && !(Index(pos, l.count, i) <= top && l.SlotTs(i) <= 0);
      Hidden(l, pos, top, i);
      assert !SameWalk(l, pos, top, l.SlotTs(i) + l.freq - 1, l.SlotTs(i) + l.freq, 0);
    }
  }

  /** The slot's last second is a query that shows the difference. */
  lemma {:induction false} Hidden(l: SLevel, pos: nat, top: nat, i: nat)
    requires l.Wf() && pos <= top < l.count - 1 && pos < i < |l.recent| && l.recent[i] != ZERO
    requires top < Index(pos, l.count, i) || 0 < l.SlotTs(i)
    ensures !SameWalk(l, pos, top, l.SlotTs(i) + l.freq - 1, l.SlotTs(i) + l.freq, 0)
  {
    var c := Call(Slot(l, i), l.freq);
    LastSecond(l, pos, i, c);
    NoDataShown(l, pos, top, i, c);
  }

  lemma {:induction false} NoDataShown(l: SLevel, pos: nat, top: nat, i: nat, c: Call)
    requires l.Wf() && pos <= top < l.count - 1 && pos < i < |l.recent| && l.recent[i] != ZERO
             && c == Call(Slot(l, i), l.freq)
    requires top < Index(pos, l.count, i) || 0 < l.SlotTs(i)
    ensures var ts := l.SlotTs(i) + l.freq - 1; c !in WithData(Walk(ReadBack(l, pos, top), pos, l.freq, ts, ts + 1, 0))
  {
    var ts := l.SlotTs(i) + l.freq - 1;
    NotShown(l, pos, top, i, c);
    WithDataMember(Walk(ReadBack(l, pos, top), pos, l.freq, ts, ts + 1, 0), c);
  }
}
