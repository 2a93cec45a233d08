/**
 * Where the array of a block lives: the modified array of the block, the tuples cache, or the
 * disk (src/rrdb/rrdb_metric_block.cpp:48-84, 178-220, 261-290). The modified array and the cached one may
 * be the same object, so arrays have identities here. The array of an object is the Layout of
 * its window at the block's position.
 */
module Caching {
  import opened Options
  import opened Sequences
  import opened Times
  import opened Tuples
  import opened Rollup
  import opened Summaries
  import opened Blocks
  import Caches
  import Disk

  datatype Store = Store(
    posTs: int, pos: nat, maxPos: nat, last: bool,
    arrays: seq<SLevel>, modified: Option<nat>, cached: Option<nat>, disk: SLevel)

  datatype Action =
    | Update(c: Ctx)
    | Query(ts1: int, ts2: int)
    | Evict   // some other block needed the room
    | Flush   // a whole flush, when the block is dirty

  datatype Seen = Told(out: Ctx) | Calls(calls: seq<Call>) | Nothing

  ghost predicate ValidAction(a: Action) { a.Update? ==> !a.c.Stop? }

  /** The constructor: a zero array that only the block knows. */
  function NewStore(freq: int, count: nat, last: bool): Store
    requires freq > 0 && count > 0
  {
    var l := Empty(freq, count, ZERO);
    Store(0, 0, 0, last, [l], Some(0), None, l)
  }

  ghost predicate Known(s: Store) {
    && (s.modified.Some? ==> s.modified.value < |s.arrays|)
    && (s.cached.Some? ==> s.cached.value < |s.arrays|)
  }

  /** get_tuples */
  function GetTuples(s: Store): (r: (Store, nat))
    requires Known(s)
    ensures Known(r.0) && r.1 < |r.0.arrays|
  {
    if s.modified.Some? then (s, s.modified.value)
    else if s.cached.Some? then (s, s.cached.value)
    else
      (s.(arrays := s.arrays + [s.disk], cached := Some(|s.arrays|)), |s.arrays|)
  }

  /** What get_tuples returns. */
  function Contents(s: Store): SLevel
    requires Known(s)
  {
    var (t, id) := GetTuples(s);
    t.arrays[id]
  }

  /** The runtime checks of update, select, write_block and read_block_data hold. */
  ghost predicate Ready(s: Store) {
    Known(s) && Contents(s).Wf() && s.pos < Contents(s).count && s.posTs == Contents(s).posTs
  }

  ghost predicate ZeroAbove(l: SLevel, pos: nat, top: int)
    requires l.Wf() && pos < l.count
  {
    forall i: nat :: top < i < l.count ==> Layout(l, pos)[i] == ZERO_TUPLE
  }

  /** The window without the slots behind the start of the ring; they are at the indexes above pos. */
  function Cut(l: SLevel, pos: nat): SLevel
    requires l.Wf()
  {
    l.(recent := Take(l.recent, pos + 1))
  }

  /** No slot behind the start of the ring has data, and none of them is set at the indexes up to top. */
  ghost predicate OnlyStampsBehind(l: SLevel, pos: nat, top: int)
    requires l.Wf() && pos < l.count
  {
    |l.recent| <= pos + l.count - top && forall i :: pos < i < |l.recent| ==> l.recent[i] == ZERO
  }

  /**
   * A flush would keep less than all of the array: it is the last block's, and above max_pos and pos some slot
   * is set.
   */
  ghost predicate FlushCuts(s: Store)
    requires Known(s)
  {
    s.last && s.modified.Some? &&
    var l := s.arrays[s.modified.value];
    l.Wf() && s.pos < l.count && !ZeroAbove(l, s.pos, Max(s.maxPos, s.pos))
  }

  /** A flush keeps all data: it keeps all of the array, or all but stamps of slots without data. */
  ghost predicate Savable(s: Store)
    requires Known(s)
  {
    s.last && s.modified.Some? ==>
      var l := s.arrays[s.modified.value];
      && l.Wf() && s.pos < l.count
      && (FlushCuts(s) ==> OnlyStampsBehind(l, s.pos, Max(s.maxPos, s.pos)))
  }

  /** What is read back after a flush; see FlushReadsBack. */
  ghost function Flushed(s: Store): SLevel
    requires Known(s) && Savable(s) && s.modified.Some?
  {
    if FlushCuts(s) then Cut(s.arrays[s.modified.value], s.pos) else s.arrays[s.modified.value]
  }

  /** One action; for a flush that would lose data see Disk.BlockRoundTrip and ReadBacks.ShowsAllIff. */
  ghost function Do(s: Store, a: Action): (r: (Store, Seen))
    requires Ready(s) && ValidAction(a)
    requires a.Flush? ==> Savable(s)
    ensures Known(r.0)
  {
    match a
    case Update(c) =>
      var (t, id) := GetTuples(s);
      var l := t.arrays[id];
      var moved := Step(l, ToOffer(c), STATS);
      var dirty := if Target(Locate(l, c.Ts())) == None then t.modified else Some(id);
      (t.(arrays := t.arrays[id := moved], posTs := moved.posTs, pos := PosAfter(l, s.pos, c.Ts()), modified := dirty),
       Told(OutCtx(l, c)))
    case Query(ts1, ts2) =>
      var (t, id) := GetTuples(s);
      (t, Calls(Selected(t.arrays[id], ts1, ts2)))
    case Evict => (s.(cached := None), Nothing)
    case Flush =>
      (if s.modified.None? then s
       else s.(maxPos := Max(s.maxPos, s.pos), disk := Flushed(s), modified := None),
       Nothing)
  }

  // ---------- What is the same

  /** The data of slot i; a slot that was never set has none. */
  function DataAt(l: SLevel, i: nat): Stats { if i < |l.recent| then l.recent[i] else ZERO }

  /** The same data in every slot; only timestamps of slots without data may differ. */
  ghost predicate SameData(a: SLevel, b: SLevel) {
    && a.Wf() && b.Wf() && a.freq == b.freq && a.count == b.count && a.posTs == b.posTs
    && forall i: nat :: DataAt(a, i) == DataAt(b, i)
  }

  lemma {:induction false} MovedData(l: SLevel, ts: int, i: nat)
    requires l.Wf()
    ensures DataAt(Moved(l, ts, ZERO), i) ==
            match Locate(l, ts)
            case Complete => ZERO
            case Forward(n) => if i < n || l.count <= i then ZERO else DataAt(l, i - n)
            case _ => DataAt(l, i)
  {
  }

  /** Blocks with the same data take in an update the same way and tell the next block the same. */
  lemma {:induction false} SameStep(a: SLevel, b: SLevel, c: Ctx)
    requires SameData(a, b) && !c.Stop?
    ensures SameData(Step(a, ToOffer(c), STATS), Step(b, ToOffer(c), STATS))
    ensures OutCtx(a, c) == OutCtx(b, c) && Locate(a, c.Ts()) == Locate(b, c.Ts())
  {
    LocateBounds(a, c.Ts());
    LocateBounds(b, c.Ts());
    assert DataAt(a, 0) == DataAt(b, 0);
    var ma, mb := Moved(a, c.Ts(), ZERO), Moved(b, c.Ts(), ZERO);
    forall i: nat
      ensures DataAt(ma, i) == DataAt(mb, i)
    {
      MovedData(a, c.Ts(), i);
      MovedData(b, c.Ts(), i);
    }
    match Target(Locate(a, c.Ts())) {
      case Some(k) => SameMerge(ma, mb, k, ToOffer(c).data);
      case None =>
    }
  }

  lemma {:induction false} SameMerge(a: SLevel, b: SLevel, k: nat, d: Stats)
    requires SameData(a, b) && k < |a.recent| && k < |b.recent|
    ensures SameData(a.(recent := a.recent[k := Merge(a.recent[k], d)]),
                     b.(recent := b.recent[k := Merge(b.recent[k], d)]))
  {
    assert DataAt(a, k) == DataAt(b, k);
    var x := a.(recent := a.recent[k := Merge(a.recent[k], d)]);
    var y := b.(recent := b.recent[k := Merge(b.recent[k], d)]);
    forall i: nat
      ensures DataAt(x, i) == DataAt(y, i)
    {
      assert DataAt(a, i) == DataAt(b, i);
    }
  }

  /** The calls that carry data. */
  function WithData(calls: seq<Call>): seq<Call> {
    if calls == [] then []
    else WithData(calls[..|calls| - 1]) + if calls[|calls| - 1].tuple.stats == ZERO then [] else [calls[|calls| - 1]]
  }

  lemma {:induction false} WithDataSnoc(calls: seq<Call>, c: Call)
    ensures WithData(calls + [c]) == WithData(calls) + if c.tuple.stats == ZERO then [] else [c]
  {
  }

  lemma {:induction false} WithDataBlanks(calls: seq<Call>, n: nat, c: Call)
    requires c.tuple.stats == ZERO
    ensures WithData(calls + Filled(n, c)) == WithData(calls)
  {
    if n == 0 {
      assert calls + Filled(n, c) == calls;
    } else {
      WithDataBlanks(calls, n - 1, c);
      assert calls + Filled(n, c) == calls + Filled(n - 1, c) + [c];
      WithDataSnoc(calls + Filled(n - 1, c), c);
    }
  }

  /** The slots among the n most recent that have data and overlap [ts1, ts2). */
  function DataOverlaps(l: SLevel, ts1: int, ts2: int, n: nat): seq<Call> {
    if n == 0 then []
    else DataOverlaps(l, ts1, ts2, n - 1) +
         if Overlaps(l, n - 1, ts1, ts2) && DataAt(l, n - 1) != ZERO
         then [Call(Tuple(l.SlotTs(n - 1), DataAt(l, n - 1)), l.freq)] else []
  }

  lemma {:induction false} SetOverlapsWithData(l: SLevel, ts1: int, ts2: int, n: nat)
    requires n <= |l.recent|
    ensures WithData(SetOverlaps(l, ts1, ts2, n)) == DataOverlaps(l, ts1, ts2, n)
  {
    if n > 0 {
      SetOverlapsWithData(l, ts1, ts2, n - 1);
      var before := SetOverlaps(l, ts1, ts2, n - 1);
      WithDataSnoc(before, Call(Slot(l, n - 1), l.freq));
      assert before + [] == before;
    }
  }

  lemma {:induction false} NoDataBeyond(l: SLevel, ts1: int, ts2: int, n: nat)
    requires |l.recent| <= n
    ensures DataOverlaps(l, ts1, ts2, n) == DataOverlaps(l, ts1, ts2, |l.recent|)
    decreases n
  {
    if |l.recent| < n {
      NoDataBeyond(l, ts1, ts2, n - 1);
    }
  }

  lemma {:induction false} SelectedWithData(l: SLevel, ts1: int, ts2: int)
    requires l.Wf()
    ensures WithData(Selected(l, ts1, ts2)) == DataOverlaps(l, ts1, ts2, l.count)
  {
    SetOverlapsWithData(l, ts1, ts2, |l.recent|);
    NoDataBeyond(l, ts1, ts2, l.count);
    var n: nat := if UnsetReported(l, ts1, ts2) < 0 then 0 else UnsetReported(l, ts1, ts2);
    WithDataBlanks(SetOverlaps(l, ts1, ts2, |l.recent|), n, Call(ZERO_TUPLE, l.freq));
  }

  lemma {:induction false} SameOverlaps(a: SLevel, b: SLevel, ts1: int, ts2: int, n: nat)
    requires SameData(a, b)
    ensures DataOverlaps(a, ts1, ts2, n) == DataOverlaps(b, ts1, ts2, n)
  {
    if n > 0 {
      SameOverlaps(a, b, ts1, ts2, n - 1);
      assert DataAt(a, n - 1) == DataAt(b, n - 1);
    }
  }

  // ---------- Transparency

  /** Reading what write_block wrote gives the array back exactly when nothing above max_pos was set. */
  lemma {:induction false} ReadsBack(l: SLevel, pos: nat, top: nat)
    requires l.Wf() && pos < l.count && top < l.count
    ensures Layout(l, pos)[..top + 1] + Filled(l.count - (top + 1), ZERO_TUPLE) == Layout(l, pos) <==>
            ZeroAbove(l, pos, top)
  {
  }

  /** A flush that cuts off only stamps is read back as the window without the slots behind the start of the ring. */
  lemma {:induction false} CutReadsBack(l: SLevel, pos: nat, top: nat)
    requires l.Wf() && pos <= top < l.count && OnlyStampsBehind(l, pos, top) && !ZeroAbove(l, pos, top)
    ensures Layout(l, pos)[..top + 1] + Filled(l.count - (top + 1), ZERO_TUPLE) == Layout(Cut(l, pos), pos)
    ensures pos + 1 < |l.recent| && SameData(Cut(l, pos), l)
  {
    SetBehind(l, pos, top);
  }

  lemma {:induction false} SetBehind(l: SLevel, pos: nat, top: nat)
    requires l.Wf() && pos <= top < l.count && !ZeroAbove(l, pos, top)
    ensures pos + 1 < |l.recent|
  {
    var i: nat :| top < i < l.count && Layout(l, pos)[i] != ZERO_TUPLE;
    assert Steps(pos, l.count, i) < |l.recent|;
  }

  /** What read_block_data makes of the block that a flush has written is Flushed. */
  lemma {:induction false} FlushReadsBack(s: Store)
    requires Ready(s) && Savable(s) && s.modified.Some? && s.maxPos < Contents(s).count
    ensures var l, n := Contents(s), if s.last then Max(s.maxPos, s.pos) + 1 else Contents(s).count;
            && Flushed(s).Wf() && Flushed(s).count == l.count
            && Layout(l, s.pos)[..n] + Filled(l.count - n, ZERO_TUPLE) == Layout(Flushed(s), s.pos)
            && SameData(Flushed(s), l)
  {
    var l := Contents(s);
    if FlushCuts(s) {
      CutReadsBack(l, s.pos, Max(s.maxPos, s.pos));
    } else if s.last {
      ReadsBack(l, s.pos, Max(s.maxPos, s.pos));
    }
  }

  /** The block as write_block sees it. */
  function Image(s: Store, offset: nat): Disk.BlockImage
    requires Ready(s) && s.maxPos < Contents(s).count
  {
    var l := Contents(s);
    Disk.BlockImage(
      Disk.Header(if s.last then Disk.LAST_BLOCK else 0, offset, l.count * (8 * Disk.TUPLE_WORDS), l.freq,
                  Disk.Repeated(l.freq, l.count), l.count, s.pos, s.posTs, s.maxPos),
      Layout(l, s.pos))
  }

  /**
   * A block whose checks hold is one that Disk.IncrementalSaveSound is about, and its condition there is the one
   * here.
   */
  lemma {:induction false} ImageIsSound(s: Store, offset: nat)
    requires Ready(s) && s.maxPos < Contents(s).count
    ensures Disk.Sound(Image(s, offset))
    ensures Disk.ZeroTail(Image(s, offset)) <==> ZeroAbove(Contents(s), s.pos, Max(s.maxPos, s.pos))
    ensures s.modified.Some? ==>
            (FlushCuts(s) <==> Disk.IsLast(Image(s, offset).header) && !Disk.ZeroTail(Image(s, offset)))
  {
  }

  /** s behaves like a block that keeps the window l in one permanent array. */
  ghost predicate Agrees(s: Store, l: SLevel) {
    && Known(s) && SameData(Contents(s), l) && s.posTs == l.posTs && s.pos < l.count && s.maxPos < l.count
    && (s.modified.Some? && s.cached.Some? ==> s.modified == s.cached)
    && (s.modified.None? ==> SameData(s.disk, l))
  }

  /** The permanent block. */
  function Permanent(l: SLevel, a: Action): (r: (SLevel, Seen))
    requires l.Wf() && ValidAction(a)
    ensures r.0.Wf()
  {
    match a
    case Update(c) => (Step(l, ToOffer(c), STATS), Told(OutCtx(l, c)))
    case Query(ts1, ts2) => (l, Calls(Selected(l, ts1, ts2)))
    case _ => (l, Nothing)
  }

  ghost predicate SameSeen(x: Seen, y: Seen) {
    match x
    case Calls(c) => y.Calls? && WithData(c) == WithData(y.calls)
    case _ => x == y
  }

  lemma {:induction false} Unchanged(l: SLevel, o: SOffer)
    requires l.Wf() && Target(Locate(l, o.ts)) == None
    ensures SameData(Step(l, o, STATS), l)
  {
  }

  lemma {:induction false} PosAfterInRange(l: SLevel, pos: nat, ts: int)
    requires l.Wf() && pos < l.count
    ensures PosAfter(l, pos, ts) < l.count
  {
  }

  lemma {:induction false} UpdateAgrees(s: Store, l: SLevel, c: Ctx)
    requires Agrees(s, l) && !c.Stop?
    ensures Agrees(Do(s, Update(c)).0, Step(l, ToOffer(c), STATS))
    ensures Do(s, Update(c)).1 == Told(OutCtx(l, c))
  {
    var (t, id) := GetTuples(s);
    var before := t.arrays[id];
    SameStep(before, l, c);
    PosAfterInRange(before, s.pos, c.Ts());
    if Target(Locate(before, c.Ts())) == None {
      Unchanged(before, ToOffer(c));
      Unchanged(l, ToOffer(c));
    }
  }

  lemma {:induction false} FlushAgrees(s: Store, l: SLevel)
    requires Agrees(s, l) && Savable(s)
    ensures Agrees(Do(s, Flush).0, l)
  {
    if s.modified.Some? && FlushCuts(s) {
      CutIsShorter(s, l);
    }
  }

  /** One action on a store that agrees with the permanent block is seen the same, and they agree again. */
  lemma {:induction false} ActionAgrees(s: Store, l: SLevel, a: Action)
    requires Agrees(s, l) && ValidAction(a) && (a.Flush? ==> Savable(s))
    ensures Agrees(Do(s, a).0, Permanent(l, a).0)
    ensures SameSeen(Do(s, a).1, Permanent(l, a).1)
  {
    match a {
      case Update(c) => UpdateAgrees(s, l, c);
      case Query(ts1, ts2) =>
        SelectedWithData(Contents(s), ts1, ts2);
        SelectedWithData(l, ts1, ts2);
        SameOverlaps(Contents(s), l, ts1, ts2, l.count);
      case Evict =>
      case Flush => FlushAgrees(s, l);
    }
  }

  ghost predicate CanDo(s: Store, a: Action) { Ready(s) && ValidAction(a) && (a.Flush? ==> Savable(s)) }

  ghost predicate ValidActions(actions: seq<Action>) { forall i :: 0 <= i < |actions| ==> ValidAction(actions[i]) }

  /** The store after the first n actions; a check that fires ends the run. */
  ghost function After(s: Store, actions: seq<Action>, n: nat): (t: Store)
    requires Known(s) && n <= |actions|
    ensures Known(t)
  {
    if n == 0 then s
    else
      var t := After(s, actions, n - 1);
      if CanDo(t, actions[n - 1]) then Do(t, actions[n - 1]).0 else t
  }

  ghost function PermanentAfter(l: SLevel, actions: seq<Action>, n: nat): (r: SLevel)
    requires l.Wf() && n <= |actions| && ValidActions(actions)
    ensures r.Wf()
  {
    if n == 0 then l else Permanent(PermanentAfter(l, actions, n - 1), actions[n - 1]).0
  }

  /** Every flush of the run keeps all of the array. */
  ghost predicate FlushesSave(s: Store, actions: seq<Action>)
    requires Known(s)
  {
    forall i {:trigger Savable(After(s, actions, i))} :: 0 <= i < |actions| && actions[i].Flush? ==>
        Savable(After(s, actions, i))
  }

  lemma {:induction false} RunAgrees(s: Store, l: SLevel, actions: seq<Action>, n: nat)
    requires Agrees(s, l) && ValidActions(actions) && FlushesSave(s, actions) && n <= |actions|
    ensures Agrees(After(s, actions, n), PermanentAfter(l, actions, n))
  {
    if n > 0 {
      RunAgrees(s, l, actions, n - 1);
      assert actions[n - 1].Flush? ==> Savable(After(s, actions, n - 1));
      ActionAgrees(After(s, actions, n - 1), PermanentAfter(l, actions, n - 1), actions[n - 1]);
    }
  }

  /**
   * Under any interleaving of updates, queries, evictions and whole flushes no check fires, every
   * update hands on the same, and every query gets the same tuples with data as from one permanent
   * array. It need not get the same empty tuples; see StampsLostIff.
   */
  lemma {:induction false} CacheKeepsData(s: Store, l: SLevel, actions: seq<Action>, i: nat)
    requires Agrees(s, l) && ValidActions(actions) && FlushesSave(s, actions) && i < |actions|
    ensures CanDo(After(s, actions, i), actions[i])
    ensures SameSeen(Do(After(s, actions, i), actions[i]).1, Permanent(PermanentAfter(l, actions, i), actions[i]).1)
  {
    RunAgrees(s, l, actions, i);
    assert actions[i].Flush? ==> Savable(After(s, actions, i));
    ActionAgrees(After(s, actions, i), PermanentAfter(l, actions, i), actions[i]);
  }

  // ---------- Timestamps of slots without data

  /**
   * The array is the permanent one, timestamps of slots without data included. What is on disk may
   * lack stamps.
   */
  ghost predicate Exact(s: Store, l: SLevel) {
    && Agrees(s, l) && Contents(s) == l
    && (s.modified.None? ==> s.disk == l || |s.disk.recent| < |l.recent|)
  }

  /** Only the cache has the stamps. */
  ghost predicate OnlyCached(s: Store, l: SLevel) { s.modified.None? && s.disk != l }

  /** The update stores its data in the block, which is dirty from then on. */
  ghost predicate Dirties(l: SLevel, a: Action)
    requires l.Wf() && ValidAction(a)
  {
    a.Update? && Target(Locate(l, a.c.Ts())).Some?
  }

  /** The backward walk stamps slots, finds none, and the block is clean. */
  ghost predicate StampsUnsaved(s: Store, l: SLevel, a: Action)
    requires l.Wf() && ValidAction(a)
  {
    a.Update? && Locate(l, a.c.Ts()) == Missed && s.modified.None? && |l.recent| < l.count
  }

  /** A flush that keeps the stamps only in the cache, if the block is cached. */
  ghost predicate CutsStamps(s: Store, a: Action)
    requires Known(s)
  {
    a.Flush? && FlushCuts(s)
  }

  /**
   * An action keeps the array exact unless it evicts stamps that only the cache has, or cuts them while not even
   * the cache has them.
   */
  lemma {:induction false} ExactStep(s: Store, l: SLevel, a: Action)
    requires Exact(s, l) && CanDo(s, a)
    ensures Contents(Do(s, a).0) == Permanent(l, a).0 <==>
            !(a.Evict? && OnlyCached(s, l)) && !(CutsStamps(s, a) && s.cached.None?)
    ensures Contents(Do(s, a).0) == Permanent(l, a).0 ==>
              && Exact(Do(s, a).0, Permanent(l, a).0)
              && (OnlyCached(Do(s, a).0, Permanent(l, a).0) <==>
                  StampsUnsaved(s, l, a) || CutsStamps(s, a) || (OnlyCached(s, l) && !Dirties(l, a)))
  {
    ActionAgrees(s, l, a);
    if a.Update? {
      ExactUpdate(s, l, a.c);
    } else if CutsStamps(s, a) {
      CutIsShorter(s, l);
    }
  }

  lemma {:induction false} CutIsShorter(s: Store, l: SLevel)
    requires Agrees(s, l) && FlushCuts(s) && Savable(s)
    ensures |Flushed(s).recent| < |Contents(s).recent| && SameData(Flushed(s), Contents(s))
  {
    CutReadsBack(Contents(s), s.pos, Max(s.maxPos, s.pos));
  }

  lemma {:induction false} ExactUpdate(s: Store, l: SLevel, c: Ctx)
    requires Exact(s, l) && Ready(s) && !c.Stop?
    ensures Agrees(Do(s, Update(c)).0, Step(l, ToOffer(c), STATS))
    ensures var t, m := Do(s, Update(c)).0, Step(l, ToOffer(c), STATS);
            && Exact(t, m)
            && (OnlyCached(t, m) <==> StampsUnsaved(s, l, Update(c)) || (OnlyCached(s, l) && !Dirties(l, Update(c))))
  {
    UpdateAgrees(s, l, c);
  }

  /**
   * Before action n some update stamped slots of the clean block, or a flush cut stamps off that the cache
   * still has, and nothing has dirtied the block since.
   */
  ghost predicate Pending(s: Store, l: SLevel, actions: seq<Action>, n: nat)
    requires Known(s) && l.Wf() && ValidActions(actions) && n <= |actions|
  {
    n > 0
    && (StampsUnsaved(After(s, actions, n - 1), PermanentAfter(l, actions, n - 1), actions[n - 1])
        || CutsStamps(After(s, actions, n - 1), actions[n - 1])
        || (Pending(s, l, actions, n - 1) && !Dirties(PermanentAfter(l, actions, n - 1), actions[n - 1])))
  }

  /**
   * Action n evicts the block while such stamps are pending, or is a flush that cuts stamps off an array that is
   * not cached.
   */
  ghost predicate LosesStamps(s: Store, l: SLevel, actions: seq<Action>, n: nat)
    requires Known(s) && l.Wf() && ValidActions(actions) && n < |actions|
  {
    || (actions[n].Evict? && Pending(s, l, actions, n))
    || (CutsStamps(After(s, actions, n), actions[n]) && After(s, actions, n).cached.None?)
  }

  ghost predicate ExactAt(s: Store, l: SLevel, actions: seq<Action>, n: nat)
    requires Known(s) && l.Wf() && ValidActions(actions) && n <= |actions|
  {
    Contents(After(s, actions, n)) == PermanentAfter(l, actions, n)
  }

  lemma {:induction false} ExactTracked(s: Store, l: SLevel, actions: seq<Action>, n: nat)
    requires Exact(s, l) && !OnlyCached(s, l) && ValidActions(actions) && FlushesSave(s, actions) && n <= |actions|
    requires forall k: nat :: k <= n ==> ExactAt(s, l, actions, k)
    ensures Exact(After(s, actions, n), PermanentAfter(l, actions, n))
    ensures OnlyCached(After(s, actions, n), PermanentAfter(l, actions, n)) <==> Pending(s, l, actions, n)
  {
    if n > 0 {
      ExactTracked(s, l, actions, n - 1);
      ExactAction(s, l, actions, n - 1);
    }
  }

  lemma {:induction false} ExactAction(s: Store, l: SLevel, actions: seq<Action>, n: nat)
    requires Known(s) && l.Wf() && ValidActions(actions) && FlushesSave(s, actions) && n < |actions|
    requires Exact(After(s, actions, n), PermanentAfter(l, actions, n)) && ExactAt(s, l, actions, n + 1)
    ensures Exact(After(s, actions, n + 1), PermanentAfter(l, actions, n + 1))
    ensures OnlyCached(After(s, actions, n + 1), PermanentAfter(l, actions, n + 1)) <==>
            StampsUnsaved(After(s, actions, n), PermanentAfter(l, actions, n), actions[n])
            || CutsStamps(After(s, actions, n), actions[n])
            || (OnlyCached(After(s, actions, n), PermanentAfter(l, actions, n))
                && !Dirties(PermanentAfter(l, actions, n), actions[n]))
  {
    var t, p := After(s, actions, n), PermanentAfter(l, actions, n);
    assert actions[n].Flush? ==> Savable(t);
    ExactStep(t, p, actions[n]);
  }

  lemma {:induction false} ExactNext(s: Store, l: SLevel, actions: seq<Action>, n: nat)
    requires Exact(s, l) && !OnlyCached(s, l) && ValidActions(actions) && FlushesSave(s, actions) && n < |actions|
    requires forall k: nat :: k <= n ==> ExactAt(s, l, actions, k)
    ensures ExactAt(s, l, actions, n + 1) <==> !LosesStamps(s, l, actions, n)
  {
    ExactTracked(s, l, actions, n);
    assert actions[n].Flush? ==> Savable(After(s, actions, n));
    ExactStep(After(s, actions, n), PermanentAfter(l, actions, n), actions[n]);
  }

  lemma {:induction false} ExactUpTo(s: Store, l: SLevel, actions: seq<Action>, n: nat)
    requires Exact(s, l) && !OnlyCached(s, l) && ValidActions(actions) && FlushesSave(s, actions) && n <= |actions|
    requires forall j: nat :: j < n ==> !LosesStamps(s, l, actions, j)
    ensures forall k: nat :: k <= n ==> ExactAt(s, l, actions, k)
  {
    if n > 0 {
      ExactUpTo(s, l, actions, n - 1);
      ExactNext(s, l, actions, n - 1);
    }
  }

  /**
   * Over a whole run the array is the permanent one after every action, if and only if the block is never
   * evicted between an action that leaves stamps in the cache only and the next update that stores something,
   * and no flush cuts stamps off an array that is not cached.
   */
  lemma {:induction false} StampsLostIff(s: Store, l: SLevel, actions: seq<Action>)
    requires Exact(s, l) && !OnlyCached(s, l) && ValidActions(actions) && FlushesSave(s, actions)
    ensures (forall n: nat :: n <= |actions| ==> ExactAt(s, l, actions, n))
            <==> (forall n: nat :: n < |actions| ==> !LosesStamps(s, l, actions, n))
  {
    if forall n: nat :: n < |actions| ==> !LosesStamps(s, l, actions, n) {
      ExactUpTo(s, l, actions, |actions|);
    } else {
      var n: nat :| n < |actions| && LosesStamps(s, l, actions, n);
      if forall k: nat :: k <= n ==> ExactAt(s, l, actions, k) {
        ExactNext(s, l, actions, n);
      }
    }
  }

  /** Then everything is seen the same, empty tuples included. */
  lemma {:induction false} CacheIsTransparent(s: Store, l: SLevel, actions: seq<Action>, i: nat)
    requires Exact(s, l) && !OnlyCached(s, l) && ValidActions(actions) && FlushesSave(s, actions) && i < |actions|
    requires forall n: nat :: n < |actions| ==> !LosesStamps(s, l, actions, n)
    ensures CanDo(After(s, actions, i), actions[i])
    ensures Do(After(s, actions, i), actions[i]).1 == Permanent(PermanentAfter(l, actions, i), actions[i]).1
  {
    CacheKeepsData(s, l, actions, i);
    ExactUpTo(s, l, actions, i);
    assert ExactAt(s, l, actions, i);
  }

  lemma {:induction false} NewStoreExact(freq: int, count: nat, last: bool)
    requires freq > 0 && count > 0
    ensures Exact(NewStore(freq, count, last), Empty(freq, count, ZERO))
    ensures !OnlyCached(NewStore(freq, count, last), Empty(freq, count, ZERO))
  {
  }

  /** The caches account for a tuple with the size it has on disk. */
  lemma {:induction false} MemoryIsDiskSize(t: Tuple)
    ensures Caches.TUPLE_SIZE == 8 * |Disk.TupleWords(t)|
  {
  }
}
