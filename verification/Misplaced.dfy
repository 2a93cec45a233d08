/** Short runs in order on new metrics after which a sample is counted in a period that is not its own. */
module Misplaced {
  import opened Options
  import opened Sequences
  import opened Tuples
  import opened Rollup
  import opened History
  import opened Summaries
  import opened Blocks
  import opened Policies
  import opened Metrics
  import opened Walkers
  import opened Queries
  import opened Statements

  function Both(u: real, v: real): Stats { Merge(Single(u), Single(v)) }

  lemma {:induction false} FirstInSlot(value: real)
    ensures Merge(ZERO, Single(value)) == Single(value) && Merge(ZERO, ZERO) == ZERO
  {
  }

  // ---------- Several blocks and no cache

  /** One update of the first block of several. */
  lemma {:induction false} CascadeOnce(l: SLevel, rest: seq<SLevel>, o: SOffer, t: SLevel, handed: Option<SOffer>,
                                       next: seq<SLevel>)
    requires l.Wf() && AllWf(rest) && t == Step(l, o, STATS) && handed == Handed(l, o)
             && next == Cascade(rest, handed, STATS)
    ensures AllWf([l] + rest) && Cascade([l] + rest, Some(o), STATS) == [t] + next
  {
    assert ([l] + rest)[1..] == rest;
  }

  /** An update that stops at the first block. */
  lemma {:induction false} CascadeStops(l: SLevel, rest: seq<SLevel>, o: SOffer, t: SLevel)
    requires l.Wf() && AllWf(rest) && t == Step(l, o, STATS) && Handed(l, o) == None
    ensures AllWf([l] + rest) && Cascade([l] + rest, Some(o), STATS) == [t] + rest
  {
    CascadeOnce(l, rest, o, t, None, rest);
  }

  /** One more sample, when the first block's frequency is 1. */
  lemma {:induction false} StoredNext(periods: seq<Period>, before: Samples, ts: nat, v: real, levels: seq<SLevel>,
                                      next: seq<SLevel>)
    requires ValidPeriods(periods) && periods[0].freq == 1 && Stored(periods, before) == levels
    requires AllWf(levels) && next == Cascade(levels, Some(Offer(ts, Single(v))), STATS)
    ensures Stored(periods, before + [Sample(ts, v)]) == next
  {
    StoredSnoc(periods, before, Sample(ts, v));
  }

  // ---------- A sample in the wrong slot

  const THREE_BLOCKS := [Period(1, 2), Period(2, 2), Period(4, 10)]

  function Moving(u: real, v: real, w: real, x: real): Samples {
    [Sample(11, u), Sample(12, v), Sample(20, w), Sample(30, x)]
  }

  function A(ts: int, recent: seq<Stats>): SLevel { Level(1, 2, ts, recent) }
  function B(ts: int, recent: seq<Stats>): SLevel { Level(2, 2, ts, recent) }
  function C(ts: int, recent: seq<Stats>): SLevel { Level(4, 10, ts, recent) }

  /** The steps of the first block. */
  lemma {:induction false} MovingFine(u: real, v: real, w: real, x: real)
    ensures Step(A(0, [ZERO]), Offer(11, Single(u)), STATS) == A(11, [Single(u)])
    ensures Handed(A(0, [ZERO]), Offer(11, Single(u))) == Some(Offer(0, ZERO))
    ensures Step(A(11, [Single(u)]), Offer(12, Single(v)), STATS) == A(12, [Single(v), Single(u)])
    ensures Handed(A(11, [Single(u)]), Offer(12, Single(v))) == Some(Offer(11, Single(u)))
    ensures Step(A(12, [Single(v), Single(u)]), Offer(20, Single(w)), STATS) == A(20, [Single(w)])
    ensures Handed(A(12, [Single(v), Single(u)]), Offer(20, Single(w))) == Some(Offer(12, Single(v)))
    ensures Step(A(20, [Single(w)]), Offer(30, Single(x)), STATS) == A(30, [Single(x)])
    ensures Handed(A(20, [Single(w)]), Offer(30, Single(x))) == Some(Offer(20, Single(w)))
  {
    FirstInSlot(u);
    FirstInSlot(v);
    FirstInSlot(w);
    FirstInSlot(x);
    assert Take(Filled(1, ZERO) + [Single(u)], 2)[0 := Single(v)] == [Single(v), Single(u)];
  }

  /**
   * The steps of the second one: it moves to timestamp 11, which is not a multiple of 4, and its slot [11, 13)
   * gets two samples.
   */
  lemma {:induction false} MovingMiddle(u: real, v: real, w: real)
    ensures Step(B(0, [ZERO]), Offer(0, ZERO), STATS) == B(0, [ZERO]) && Handed(B(0, [ZERO]), Offer(0, ZERO)) == None
    ensures Step(B(0, [ZERO]), Offer(11, Single(u)), STATS) == B(11, [Single(u)])
    ensures Handed(B(0, [ZERO]), Offer(11, Single(u))) == Some(Offer(0, ZERO))
    ensures Step(B(11, [Single(u)]), Offer(12, Single(v)), STATS) == B(11, [Both(u, v)])
            && Handed(B(11, [Single(u)]), Offer(12, Single(v))) == None
    ensures Step(B(11, [Both(u, v)]), Offer(20, Single(w)), STATS) == B(20, [Single(w)])
    ensures Handed(B(11, [Both(u, v)]), Offer(20, Single(w))) == Some(Offer(11, Both(u, v)))
  {
    FirstInSlot(u);
    FirstInSlot(w);
  }

  /** The steps of the third one: both samples end in its slot [8, 12). */
  lemma {:induction false} MovingCoarse(u: real, v: real)
    ensures Step(C(0, [ZERO]), Offer(0, ZERO), STATS) == C(0, [ZERO]) && Handed(C(0, [ZERO]), Offer(0, ZERO)) == None
    ensures Step(C(0, [ZERO]), Offer(11, Both(u, v)), STATS) == C(8, [Both(u, v), ZERO, ZERO])
  {
    assert Locate(C(0, [ZERO]), 11) == Forward(2);
    assert Take(Filled(2, ZERO) + [ZERO], 10) == [ZERO, ZERO, ZERO];
    assert [ZERO, ZERO, ZERO][0 := Both(u, v)] == [Both(u, v), ZERO, ZERO];
  }

  lemma {:induction false} Moving0()
    ensures Stored(THREE_BLOCKS, []) == [A(0, [ZERO]), B(0, [ZERO]), C(0, [ZERO])]
  {
  }

  lemma {:induction false} Moving1(u: real, v: real, w: real, x: real)
    ensures Stored(THREE_BLOCKS, [Sample(11, u)]) == [A(11, [Single(u)]), B(0, [ZERO]), C(0, [ZERO])]
  {
    var a, b, c := A(0, [ZERO]), B(0, [ZERO]), C(0, [ZERO]);
    Moving0();
    MovingFine(u, v, w, x);
    MovingMiddle(u, v, w);
    CascadeStops(b, [c], Offer(0, ZERO), b);
    CascadeOnce(a, [b, c], Offer(11, Single(u)), A(11, [Single(u)]), Some(Offer(0, ZERO)), [b, c]);
    StoredNext(THREE_BLOCKS, [], 11, u, [a, b, c], [A(11, [Single(u)]), b, c]);
    assert [] + [Sample(11, u)] == [Sample(11, u)];
  }

  lemma {:induction false} Moving2(u: real, v: real, w: real, x: real)
    ensures Stored(THREE_BLOCKS, [Sample(11, u), Sample(12, v)])
            == [A(12, [Single(v), Single(u)]), B(11, [Single(u)]), C(0, [ZERO])]
  {
    var a, b, c := A(11, [Single(u)]), B(0, [ZERO]), C(0, [ZERO]);
    var a', b' := A(12, [Single(v), Single(u)]), B(11, [Single(u)]);
    Moving1(u, v, w, x);
    MovingFine(u, v, w, x);
    MovingMiddle(u, v, w);
    MovingCoarse(u, v);
    CascadeStops(c, [], Offer(0, ZERO), c);
    CascadeOnce(b, [c], Offer(11, Single(u)), b', Some(Offer(0, ZERO)), [c]);
    CascadeOnce(a, [b, c], Offer(12, Single(v)), a', Some(Offer(11, Single(u))), [b', c]);
    StoredNext(THREE_BLOCKS, [Sample(11, u)], 12, v, [a, b, c], [a', b', c]);
    assert [Sample(11, u)] + [Sample(12, v)] == [Sample(11, u), Sample(12, v)];
  }

  lemma {:induction false} Moving3(u: real, v: real, w: real, x: real)
    ensures Stored(THREE_BLOCKS, [Sample(11, u), Sample(12, v), Sample(20, w)])
            == [A(20, [Single(w)]), B(11, [Both(u, v)]), C(0, [ZERO])]
  {
    var a, b, c := A(12, [Single(v), Single(u)]), B(11, [Single(u)]), C(0, [ZERO]);
    var a', b' := A(20, [Single(w)]), B(11, [Both(u, v)]);
    Moving2(u, v, w, x);
    MovingFine(u, v, w, x);
    MovingMiddle(u, v, w);
    CascadeStops(b, [c], Offer(12, Single(v)), b');
    CascadeOnce(a, [b, c], Offer(20, Single(w)), a', Some(Offer(12, Single(v))), [b', c]);
    StoredNext(THREE_BLOCKS, [Sample(11, u), Sample(12, v)], 20, w, [a, b, c], [a', b', c]);
    assert [Sample(11, u), Sample(12, v)] + [Sample(20, w)] == [Sample(11, u), Sample(12, v), Sample(20, w)];
  }

  /** The second block rolls its slot up into the third one. */
  lemma {:induction false} MovingLast(u: real, v: real, w: real)
    ensures Cascade([B(11, [Both(u, v)]), C(0, [ZERO])], Some(Offer(20, Single(w))), STATS)
            == [B(20, [Single(w)]), C(8, [Both(u, v), ZERO, ZERO])]
  {
    var b, c, b', c' := B(11, [Both(u, v)]), C(0, [ZERO]), B(20, [Single(w)]), C(8, [Both(u, v), ZERO, ZERO]);
    MovingMiddle(u, v, w);
    MovingCoarse(u, v);
    CascadeOnce(c, [], Offer(11, Both(u, v)), c', Handed(c, Offer(11, Both(u, v))), []);
    CascadeOnce(b, [c], Offer(20, Single(w)), b', Some(Offer(11, Both(u, v))), [c']);
    assert [b] + [c] == [b, c];
  }

  lemma {:induction false} Moving4(u: real, v: real, w: real, x: real)
    ensures Stored(THREE_BLOCKS, Moving(u, v, w, x)) == [A(30, [Single(x)]), B(20, [Single(w)]),
                                                         C(8, [Both(u, v), ZERO, ZERO])]
  {
    var a, b, c := A(20, [Single(w)]), B(11, [Both(u, v)]), C(0, [ZERO]);
    var a', b', c' := A(30, [Single(x)]), B(20, [Single(w)]), C(8, [Both(u, v), ZERO, ZERO]);
    Moving3(u, v, w, x);
    MovingFine(u, v, w, x);
    MovingLast(u, v, w);
    CascadeOnce(a, [b, c], Offer(30, Single(x)), a', Some(Offer(20, Single(w))), [b', c']);
    StoredNext(THREE_BLOCKS, [Sample(11, u), Sample(12, v), Sample(20, w)], 30, x, [a, b, c], [a', b', c']);
    assert [Sample(11, u), Sample(12, v), Sample(20, w)] + [Sample(30, x)] == Moving(u, v, w, x);
  }

  /** Only the third block has something to say about [8, 16). */
  lemma {:induction false} MovingSelected(w: real, x: real, s: Stats)
    ensures SelectedFrom([A(30, [Single(x)]), B(20, [Single(w)]), C(8, [s, ZERO, ZERO])], 8, 16)
            == [Call(Tuple(8, s), 4)]
  {
    var a, b, c := A(30, [Single(x)]), B(20, [Single(w)]), C(8, [s, ZERO, ZERO]);
    assert [a, b, c][1..] == [b, c] && [b, c][1..] == [c] && [c][1..] == [];
    SelectedExact(b, 8, 16);
    NothingEarlier(c, 8, 16, 1, |c.recent|);
    SelectedExact(c, 8, 16);
    assert SetOverlaps(c, 8, 16, 1) == [Call(Tuple(8, s), 4)];
    assert SetOverlaps(b, 8, 16, 1) == [];
    assert SelectedFrom([], 8, 16) == [];
    assert SelectedFrom([c], 8, 16) == [Call(Tuple(8, s), 4)];
    assert SelectedFrom([b, c], 8, 16) == SelectedFrom([c], 8, 16);
  }

  lemma {:induction false} MovingRows(q: Query, c: Call, s: Stats)
    requires q == Query(8, 16, 4) && c == Call(Tuple(8, s), 4)
    ensures q.Valid() && GoodCalls(q, [c]) && RowStats(q, [c], 8, 12) == Merge(ZERO, s)
            && RowStats(q, [c], 12, 16) == ZERO
  {
    assert [] + [c] == [c];
    assert RowStats(q, [], 8, 12) == ZERO && RowStats(q, [], 12, 16) == ZERO && Frontier(q, []) == 16;
    AddedPiece(q, [], c, 8, 12, 4);
    AddedPiece(q, [], c, 12, 16, 0);
  }

  lemma {:induction false} MovingBuckets(u: real, v: real, w: real, x: real)
    ensures InPeriod(Moving(u, v, w, x), 8, 12) == [Sample(11, u)]
            && InPeriod(Moving(u, v, w, x), 12, 16) == [Sample(12, v)]
  {
    var s1, s2, s3, s4 := [Sample(11, u)], [Sample(11, u), Sample(12, v)],
        [Sample(11, u), Sample(12, v), Sample(20, w)], Moving(u, v, w, x);
    assert s1[..0] == [] && s2[..1] == s1 && s3[..2] == s2 && s4[..3] == s3;
    assert InPeriod(s1, 8, 12) == [Sample(11, u)] && InPeriod(s1, 12, 16) == [];
    assert InPeriod(s2, 8, 12) == [Sample(11, u)] && InPeriod(s2, 12, 16) == [Sample(12, v)];
    assert InPeriod(s3, 8, 12) == [Sample(11, u)] && InPeriod(s3, 12, 16) == [Sample(12, v)];
  }

  /**
   * Four samples in order, one of them in [8, 12) and one in [12, 16). SELECT over [8, 16) GROUP BY 4 counts
   * two samples in the first bucket and none in the second: the second block moved to timestamp 11, and its
   * slot [11, 13) was rolled up into [8, 12) as a whole.
   */
  lemma {:induction false} SampleMoves(u: real, v: real, w: real, x: real, q: Query)
    requires q == Query(8, 16, 4)
    ensures ValidPolicy([Elem(1, 2), Elem(2, 4), Elem(4, 40)])
            && PeriodsOf([Elem(1, 2), Elem(2, 4), Elem(4, 40)]) == THREE_BLOCKS
    ensures |InPeriod(Moving(u, v, w, x), 8, 12)| == 1 && |InPeriod(Moving(u, v, w, x), 12, 16)| == 1
    ensures AllWf(Stored(THREE_BLOCKS, Moving(u, v, w, x)))
    ensures var calls := SelectedFrom(Stored(THREE_BLOCKS, Moving(u, v, w, x)), 8, 16);
            && q.Valid() && GoodCalls(q, calls)
            && RowStats(q, calls, 8, 12).count == 2.0 && RowStats(q, calls, 12, 16).count == 0.0
  {
    MovingPolicy();
    MovingBuckets(u, v, w, x);
    Moving4(u, v, w, x);
    MovingSelected(w, x, Both(u, v));
    MovingRows(q, Call(Tuple(8, Both(u, v)), 4), Both(u, v));
  }

  lemma {:induction false} MovingPolicy()
    ensures ValidPolicy([Elem(1, 2), Elem(2, 4), Elem(4, 40)])
            && PeriodsOf([Elem(1, 2), Elem(2, 4), Elem(4, 40)]) == THREE_BLOCKS
  {
  }

  // ---------- One sample in two rows

  const TWO_BLOCKS := [Period(1, 2), Period(2, 2)]

  lemma {:induction false} DoubledFine(u: real, v: real, w: real)
    ensures Step(A(0, [ZERO]), Offer(10, Single(u)), STATS) == A(10, [Single(u)])
    ensures Handed(A(0, [ZERO]), Offer(10, Single(u))) == Some(Offer(0, ZERO))
    ensures Step(A(10, [Single(u)]), Offer(11, Single(v)), STATS) == A(11, [Single(v), Single(u)])
    ensures Handed(A(10, [Single(u)]), Offer(11, Single(v))) == Some(Offer(10, Single(u)))
    ensures Step(A(11, [Single(v), Single(u)]), Offer(12, Single(w)), STATS) == A(12, [Single(w), Single(v)])
    ensures Handed(A(11, [Single(v), Single(u)]), Offer(12, Single(w))) == Some(Offer(11, Single(v)))
  {
    FirstInSlot(u);
    FirstInSlot(v);
    FirstInSlot(w);
    assert Take(Filled(1, ZERO) + [Single(u)], 2)[0 := Single(v)] == [Single(v), Single(u)];
    assert Take(Filled(1, ZERO) + [Single(v), Single(u)], 2)[0 := Single(w)] == [Single(w), Single(v)];
  }

  lemma {:induction false} DoubledCoarse(u: real, v: real)
    ensures Step(B(0, [ZERO]), Offer(0, ZERO), STATS) == B(0, [ZERO]) && Handed(B(0, [ZERO]), Offer(0, ZERO)) == None
    ensures Step(B(0, [ZERO]), Offer(10, Single(u)), STATS) == B(10, [Single(u)])
    ensures Step(B(10, [Single(u)]), Offer(11, Single(v)), STATS) == B(10, [Both(u, v)])
            && Handed(B(10, [Single(u)]), Offer(11, Single(v))) == None
  {
    FirstInSlot(u);
  }

  lemma {:induction false} Doubled1(u: real, v: real, w: real)
    ensures Stored(TWO_BLOCKS, [Sample(10, u)]) == [A(10, [Single(u)]), B(0, [ZERO])]
  {
    var a, b := A(0, [ZERO]), B(0, [ZERO]);
    assert Stored(TWO_BLOCKS, []) == [a, b];
    DoubledFine(u, v, w);
    DoubledCoarse(u, v);
    CascadeStops(b, [], Offer(0, ZERO), b);
    CascadeOnce(a, [b], Offer(10, Single(u)), A(10, [Single(u)]), Some(Offer(0, ZERO)), [b]);
    StoredNext(TWO_BLOCKS, [], 10, u, [a, b], [A(10, [Single(u)]), b]);
    assert [] + [Sample(10, u)] == [Sample(10, u)];
  }

  lemma {:induction false} Doubled2(u: real, v: real, w: real)
    ensures Stored(TWO_BLOCKS, [Sample(10, u), Sample(11, v)]) == [A(11, [Single(v), Single(u)]), B(10, [Single(u)])]
  {
    var a, b, a', b' := A(10, [Single(u)]), B(0, [ZERO]), A(11, [Single(v), Single(u)]), B(10, [Single(u)]);
    Doubled1(u, v, w);
    DoubledFine(u, v, w);
    DoubledCoarse(u, v);
    CascadeOnce(b, [], Offer(10, Single(u)), b', Handed(b, Offer(10, Single(u))), []);
    CascadeOnce(a, [b], Offer(11, Single(v)), a', Some(Offer(10, Single(u))), [b']);
    StoredNext(TWO_BLOCKS, [Sample(10, u)], 11, v, [a, b], [a', b']);
    assert [Sample(10, u)] + [Sample(11, v)] == [Sample(10, u), Sample(11, v)];
  }

  lemma {:induction false} Doubled3(u: real, v: real, w: real)
    ensures Stored(TWO_BLOCKS, [Sample(10, u), Sample(11, v), Sample(12, w)])
            == [A(12, [Single(w), Single(v)]), B(10, [Both(u, v)])]
  {
    var a, b, a', b' := A(11, [Single(v), Single(u)]), B(10, [Single(u)]), A(12, [Single(w), Single(v)]),
        B(10, [Both(u, v)]);
    Doubled2(u, v, w);
    DoubledFine(u, v, w);
    DoubledCoarse(u, v);
    CascadeStops(b, [], Offer(11, Single(v)), b');
    CascadeOnce(a, [b], Offer(12, Single(w)), a', Some(Offer(11, Single(v))), [b']);
    StoredNext(TWO_BLOCKS, [Sample(10, u), Sample(11, v)], 12, w, [a, b], [a', b']);
    assert [Sample(10, u), Sample(11, v)] + [Sample(12, w)] == [Sample(10, u), Sample(11, v), Sample(12, w)];
  }

  lemma {:induction false} DoubledFirst(l: SLevel, v: real, w: real, n: nat)
    requires l == A(12, [Single(w), Single(v)]) && n == 2
    ensures Selected(l, 10, 13) == [Call(Tuple(12, Single(w)), 1), Call(Tuple(11, Single(v)), 1)]
  {
    assert l.SlotTs(0) == 12 && l.SlotTs(1) == 11;
    SelectedExact(l, 10, 13);
    assert SetOverlaps(l, 10, 13, n - 1) == [Call(Slot(l, 0), 1)];
  }

  lemma {:induction false} DoubledSecond(m: SLevel, s: Stats)
    requires m == B(10, [s])
    ensures Selected(m, 10, 13) == [Call(Tuple(10, s), 2)]
  {
    SelectedExact(m, 10, 13);
    assert SetOverlaps(m, 10, 13, 1) == [Call(Tuple(10, s), 2)];
  }

  lemma {:induction false} DoubledSelected(l: SLevel, m: SLevel, v: real, w: real, s: Stats)
    requires l == A(12, [Single(w), Single(v)]) && m == B(10, [s])
    ensures SelectedFrom([l, m], 10, 13) == [Call(Tuple(12, Single(w)), 1), Call(Tuple(11, Single(v)), 1),
                                             Call(Tuple(10, s), 2)]
  {
    assert [l, m][1..] == [m] && [m][1..] == [];
    DoubledFirst(l, v, w, 2);
    DoubledSecond(m, s);
    assert SelectedFrom([], 10, 13) == [];
    assert SelectedFrom([m], 10, 13) == Selected(m, 10, 13) + SelectedFrom([], 10, 13);
    assert SelectedFrom([l, m], 10, 13) == Selected(l, 10, 13) + SelectedFrom([m], 10, 13);
  }

  lemma {:induction false} DoubledPolicy()
    ensures ValidPolicy([Elem(1, 2), Elem(2, 4)]) && PeriodsOf([Elem(1, 2), Elem(2, 4)]) == TWO_BLOCKS
  {
  }

  lemma {:induction false} DoubledRows(a: Call, b: Call, c: Call)
    requires a.tuple.ts == 12 && b.tuple.ts == 11 && c.tuple.ts == 10
    requires a.tuple.stats.count > 0.0 && b.tuple.stats.count > 0.0 && c.tuple.stats.count > 0.0
    ensures PlainAnswer([a, b, c], 10, 13) == [a.tuple, b.tuple, c.tuple]
  {
    var n := |[a, b, c]|;
    assert PlainRows([a, b, c], n - 3, 10, 13) == [];
    assert PlainRows([a, b, c], n - 2, 10, 13) == [a.tuple];
    assert PlainRows([a, b, c], n - 1, 10, 13) == [a.tuple, b.tuple];
  }

  /**
   * Three samples in order, at 10, 11 and 12. SELECT over [10, 13) shows them in three rows with counts 1, 1
   * and 2: the sample at 11 is in the row of the first block and in that of the second, which covers [10, 12).
   */
  lemma {:induction false} SampleTwice(u: real, v: real, w: real)
    ensures ValidPolicy([Elem(1, 2), Elem(2, 4)]) && PeriodsOf([Elem(1, 2), Elem(2, 4)]) == TWO_BLOCKS
    ensures var levels := Stored(TWO_BLOCKS, [Sample(10, u), Sample(11, v), Sample(12, w)]);
            && AllWf(levels)
            && PlainAnswer(SelectedFrom(levels, 10, 13), 10, 13)
                == [Tuple(12, Single(w)), Tuple(11, Single(v)), Tuple(10, Both(u, v))]
  {
    DoubledPolicy();
    Doubled3(u, v, w);
    DoubledSelected(A(12, [Single(w), Single(v)]), B(10, [Both(u, v)]), v, w, Both(u, v));
    DoubledRows(Call(Tuple(12, Single(w)), 1), Call(Tuple(11, Single(v)), 1), Call(Tuple(10, Both(u, v)), 2));
  }
}
