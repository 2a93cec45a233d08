/**
 * Flushing through the journal, with crashes (src/rrdb/rrdb.cpp:371-390, 483-517): a step machine
 * over the metric files, the journal file and the journal's buffer in memory. Saving the journal
 * file is one step; every single block written to a metric file is a step of its own.
 */
module Recovery {
  import opened Options
  import opened Files

  /** The journal of one metric: its file and the blocks to write. */
  datatype Entry<+T> = Entry(name: string, writes: seq<Write<T>>)

  /** What the server is doing; queue names the dirty metrics still to be flushed, done counts written blocks. */
  datatype Phase =
    | Idle
    | Flushing(queue: seq<string>)
    | Applying(done: nat, queue: seq<string>)
    | Down
    | Recovering(done: nat)

  datatype State<T> = State(
    files: map<string, seq<T>>,
    journal: Option<Entry<T>>,
    /** _cur_filename, _cur_data and _cur_data_blocks, when they are not clear. */
    buffer: Option<Entry<T>>,
    phase: Phase)

  ghost predicate AllKnown<T>(s: State<T>, names: seq<string>) {
    forall i :: 0 <= i < |names| ==> names[i] in s.files
  }

  function Image<T>(file: seq<T>, e: Entry<T>, fill: T): seq<T> { ApplyAll(file, e.writes, fill) }

  /** What the metric files are worth: their contents once the journal, if there is one, is applied. */
  ghost function Logical<T>(s: State<T>, fill: T): map<string, seq<T>> {
    match s.journal
    case None => s.files
    case Some(e) =>
      if e.name in s.files then s.files[e.name := Image(s.files[e.name], e, fill)] else s.files
  }

  datatype Step<T> =
    | BeginFlush(dirty: seq<string>)
    | SkipBusy
    | SaveJournal(writes: seq<Write<T>>)
    | ApplyBlock
    | NextMetric
    | DeleteJournal
    | Crash
    | TornCrash(cut: nat)
    | StartRecovery
    | RecoverBlock
    | FinishRecovery

  ghost predicate Enabled<T>(s: State<T>, step: Step<T>) {
    match step
    case BeginFlush(dirty) => s.phase.Idle? && AllKnown(s, dirty)
    case SkipBusy => s.phase.Flushing? && s.phase.queue != [] && s.buffer.Some?
    case SaveJournal(_) => s.phase.Flushing? && s.phase.queue != [] && s.buffer.None?
    case ApplyBlock => s.phase.Applying? && s.buffer.Some? && s.phase.done < |s.buffer.value.writes|
    case NextMetric => s.phase.Applying? && s.buffer.Some? && s.phase.done == |s.buffer.value.writes|
    case DeleteJournal => s.phase.Flushing? && s.phase.queue == []
    case Crash => !s.phase.Down?
    case TornCrash(cut) =>
      && (s.phase.Applying? || s.phase.Recovering?) && s.buffer.Some?
      && s.phase.done < |s.buffer.value.writes| && cut <= |s.buffer.value.writes[s.phase.done].data|
    case StartRecovery => s.phase.Down?
    case RecoverBlock => s.phase.Recovering? && s.buffer.Some? && s.phase.done < |s.buffer.value.writes|
    case FinishRecovery => s.phase.Recovering? && (s.buffer.Some? ==> s.phase.done == |s.buffer.value.writes|)
  }

  /** The first cells of one block reach the file; after a crash maybe not all of them. */
  function WriteBlock<T>(files: map<string, seq<T>>, e: Entry<T>, done: nat, cut: nat, fill: T): map<string, seq<T>>
    requires done < |e.writes| && cut <= |e.writes[done].data|
  {
    var w := Write(e.writes[done].offset, e.writes[done].data[..cut]);
    if e.name in files then files[e.name := WriteAt(files[e.name], w, fill)] else files
  }

  function WriteWhole<T>(s: State<T>, fill: T): map<string, seq<T>>
    requires (s.phase.Applying? || s.phase.Recovering?) && s.buffer.Some? && s.phase.done < |s.buffer.value.writes|
  {
    WriteBlock(s.files, s.buffer.value, s.phase.done, |s.buffer.value.writes[s.phase.done].data|, fill)
  }

  lemma {:induction false} WholeBlock<T>(s: State<T>, fill: T)
    requires (s.phase.Applying? || s.phase.Recovering?) && s.buffer.Some? && s.phase.done < |s.buffer.value.writes|
    requires s.buffer.value.name in s.files
    ensures var e := s.buffer.value;
            WriteWhole(s, fill) == s.files[e.name := WriteAt(s.files[e.name], e.writes[s.phase.done], fill)]
  {
    var w := s.buffer.value.writes[s.phase.done];
    assert w.data[..|w.data|] == w.data;
  }

  ghost function Next<T>(s: State<T>, step: Step<T>, fill: T): State<T>
    requires Enabled(s, step)
  {
    match step
    case BeginFlush(dirty) => s.(phase := Flushing(dirty))
    // begin_file throws, the metric stays dirty, and the buffer is cleared
    case SkipBusy => s.(phase := Flushing(s.phase.queue[1..]), buffer := None)
    case SaveJournal(writes) =>
      var e := Entry(s.phase.queue[0], writes);
      s.(journal := Some(e), buffer := Some(e), phase := Applying(0, s.phase.queue[1..]))
    case ApplyBlock => s.(files := WriteWhole(s, fill), phase := s.phase.(done := s.phase.done + 1))
    case NextMetric => s.(phase := Flushing(s.phase.queue), buffer := None)
    case DeleteJournal => s.(journal := None, phase := Idle)
    case Crash => s.(phase := Down, buffer := None)
    case TornCrash(cut) =>
      s.(files := WriteBlock(s.files, s.buffer.value, s.phase.done, cut, fill), phase := Down, buffer := None)
    // load_journal_file, if the journal file is there
    case StartRecovery => s.(phase := Recovering(0), buffer := s.journal)
    case RecoverBlock => s.(files := WriteWhole(s, fill), phase := Recovering(s.phase.done + 1))
    // the journal file stays on disk, and nothing clears the buffer
    case FinishRecovery => s.(phase := Idle)
  }

  /** Applying the blocks that are still to do brings the file to its logical image. */
  ghost predicate OnTrack<T>(s: State<T>, done: nat, fill: T) {
    s.journal.Some? &&
    var e := s.journal.value;
    && done <= |e.writes|
    && e.name in s.files
    && ApplyAll(s.files[e.name], e.writes[done..], fill) == Image(s.files[e.name], e, fill)
  }

  ghost predicate Inv<T>(s: State<T>, fill: T) {
    && (s.journal.Some? ==> s.journal.value.name in s.files)
    && match s.phase
       case Idle => s.journal.Some? ==> OnTrack(s, |s.journal.value.writes|, fill)
       case Flushing(queue) =>
         && AllKnown(s, queue)
         && (s.journal.Some? ==> OnTrack(s, |s.journal.value.writes|, fill))
       case Applying(done, queue) =>
         && AllKnown(s, queue)
         && s.buffer == s.journal && OnTrack(s, done, fill)
       case Down => s.buffer == None
       case Recovering(done) => s.buffer == s.journal && (s.journal.Some? ==> OnTrack(s, done, fill))
  }

  ghost predicate Start<T>(s: State<T>) {
    s.journal == None && s.phase == Idle && s.buffer == None
  }

  /** Writing the next block keeps the file on track and leaves its logical image alone. */
  lemma {:induction false} WriteBlockOnTrack<T>(s: State<T>, t: State<T>, fill: T)
    requires (s.phase.Applying? || s.phase.Recovering?) && s.buffer == s.journal && OnTrack(s, s.phase.done, fill)
    requires s.phase.done < |s.buffer.value.writes| && t.journal == s.journal && t.files == WriteWhole(s, fill)
    ensures OnTrack(t, s.phase.done + 1, fill) && Logical(t, fill) == Logical(s, fill) && t.files.Keys == s.files.Keys
  {
    var e, done := s.journal.value, s.phase.done;
    WholeBlock(s, fill);
    WriteAbsorbed(s.files[e.name], e.writes, done, fill);
    assert e.writes[done..][0] == e.writes[done] && e.writes[done..][1..] == e.writes[done + 1..];
  }

  /** A torn block does not show in the logical image. */
  lemma {:induction false} TornIsInvisible<T>(s: State<T>, t: State<T>, done: nat, cut: nat, fill: T)
    requires s.journal.Some? && s.journal.value.name in s.files && t.journal == s.journal
    requires done < |s.journal.value.writes| && cut <= |s.journal.value.writes[done].data|
    requires t.files == WriteBlock(s.files, s.journal.value, done, cut, fill)
    ensures Logical(t, fill) == Logical(s, fill) && t.files.Keys == s.files.Keys
  {
    PartAbsorbed(s.files[s.journal.value.name], s.journal.value.writes, done, cut, fill);
  }

  /** When no block is left, the file is its own logical image. */
  lemma {:induction false} FullyApplied<T>(s: State<T>, fill: T)
    requires s.journal.Some? && OnTrack(s, |s.journal.value.writes|, fill)
    ensures Logical(s, fill) == s.files
  {
    var e := s.journal.value;
    assert e.writes[|e.writes|..] == [];
  }

  /** What one step does to the logical contents: only saving a journal changes them, and only for its file. */
  ghost function LogicalAfter<T>(s: State<T>, step: Step<T>, fill: T): map<string, seq<T>>
    requires Enabled(s, step) && Inv(s, fill)
  {
    if step.SaveJournal? then
      var name := s.phase.queue[0];
      s.files[name := ApplyAll(s.files[name], step.writes, fill)]
    else Logical(s, fill)
  }

  /**
   * Every step, crash and recovery included, keeps the invariant. All of them leave the logical
   * contents of every metric file alone, except for the step that saves a journal: it replaces
   * the contents of one file by that file's image after the flush, at once.
   */
  lemma {:induction false} StepIsAtomic<T>(s: State<T>, step: Step<T>, fill: T)
    requires Inv(s, fill) && Enabled(s, step)
    ensures Inv(Next(s, step, fill), fill)
    ensures Logical(Next(s, step, fill), fill) == LogicalAfter(s, step, fill)
  {
    match step
    case SaveJournal(writes) =>
      assert writes[0..] == writes;
    case ApplyBlock =>
      WriteBlockOnTrack(s, Next(s, step, fill), fill);
    case RecoverBlock =>
      WriteBlockOnTrack(s, Next(s, step, fill), fill);
    case TornCrash(cut) =>
      TornIsInvisible(s, Next(s, step, fill), s.phase.done, cut, fill);
    case _ =>
      QuietStep(s, step, fill);
  }

  /** Steps that touch neither the files nor what the journal says about them. */
  lemma {:induction false} QuietStep<T>(s: State<T>, step: Step<T>, fill: T)
    requires Inv(s, fill) && Enabled(s, step)
    requires !step.SaveJournal? && !step.ApplyBlock? && !step.RecoverBlock? && !step.TornCrash?
    ensures Inv(Next(s, step, fill), fill)
    ensures Logical(Next(s, step, fill), fill) == Logical(s, fill)
  {
    if s.journal.Some? {
      assert s.journal.value.writes[0..] == s.journal.value.writes;
      if step.DeleteJournal? {
        FullyApplied(s, fill);
      }
    }
  }

  /** A save starts from files that no longer need the previous journal. */
  lemma {:induction false} SavePoint<T>(s: State<T>, fill: T)
    requires Inv(s, fill) && s.phase.Flushing?
    ensures Logical(s, fill) == s.files
  {
    if s.journal.Some? {
      FullyApplied(s, fill);
    }
  }

  ghost predicate Run<T>(states: seq<State<T>>, steps: seq<Step<T>>, fill: T) {
    && |states| == |steps| + 1 && Start(states[0])
    && forall i :: 0 <= i < |steps| ==> Enabled(states[i], steps[i]) && states[i + 1] == Next(states[i], steps[i], fill)
  }

  lemma {:induction false} RunKeepsInv<T>(states: seq<State<T>>, steps: seq<Step<T>>, fill: T, i: nat)
    requires Run(states, steps, fill) && i < |states|
    ensures Inv(states[i], fill)
    decreases i
  {
    if i > 0 {
      RunKeepsInv(states, steps, fill, i - 1);
      StepIsAtomic(states[i - 1], steps[i - 1], fill);
      assert states[i - 1 + 1] == states[i];
    }
  }

  /**
   * Crash safety over whole runs, with any number of crashes, also during recovery: in every
   * reachable state recovery would give each metric file its image from before or after the step
   * that saves its journal; no mixture of the two can ever be seen.
   */
  lemma {:induction false} RecoveredIsBeforeOrAfter<T>(states: seq<State<T>>, steps: seq<Step<T>>, fill: T, i: nat,
                                                       name: string)
    requires Run(states, steps, fill) && i < |steps| && name in Logical(states[i], fill)
    ensures Inv(states[i], fill) && Inv(states[i + 1], fill)
    ensures name in Logical(states[i + 1], fill)
    ensures Logical(states[i + 1], fill)[name] == Logical(states[i], fill)[name]
            || (&& steps[i].SaveJournal? && states[i].phase.queue[0] == name
                && Logical(states[i + 1], fill)[name] == ApplyAll(Logical(states[i], fill)[name], steps[i].writes,
                                                                  fill))
  {
    RunKeepsInv(states, steps, fill, i);
    RunKeepsInv(states, steps, fill, i + 1);
    StepIsAtomic(states[i], steps[i], fill);
    if steps[i].SaveJournal? {
      SavePoint(states[i], fill);
    }
  }

  /** When the server is up and not applying a journal, the files themselves are the logical contents. */
  lemma {:induction false} SettledFilesAreLogical<T>(states: seq<State<T>>, steps: seq<Step<T>>, fill: T, i: nat)
    requires Run(states, steps, fill) && i < |states| && (states[i].phase.Idle? || states[i].phase.Flushing?)
    ensures states[i].files == Logical(states[i], fill)
  {
    RunKeepsInv(states, steps, fill, i);
    if states[i].journal.Some? {
      FullyApplied(states[i], fill);
    }
  }

  // ---------- When the buffer is filled between flushes

  /** A flush without dirty metrics. */
  predicate Idling<T>(step: Step<T>) { step.DeleteJournal? || (step.BeginFlush? && step.dirty == []) }

  /** Before step i, the server last recovered with a journal, and since then has flushed nothing. */
  ghost predicate LeftByRecovery<T>(states: seq<State<T>>, steps: seq<Step<T>>, i: nat)
    requires i <= |steps| < |states|
  {
    exists r: nat :: r < i && steps[r].FinishRecovery? && states[r].journal.Some? && forall j :: r < j < i ==>
        Idling(steps[j])
  }

  lemma {:induction false} LeftByRecoveryNext<T>(states: seq<State<T>>, steps: seq<Step<T>>, i: nat)
    requires i < |steps| < |states|
    ensures LeftByRecovery(states, steps, i + 1) <==>
            (steps[i].FinishRecovery? && states[i].journal.Some?)
                || (Idling(steps[i]) && LeftByRecovery(states, steps, i))
  {
    if Idling(steps[i]) && LeftByRecovery(states, steps, i) {
      var r: nat :| r < i && steps[r].FinishRecovery? && states[r].journal.Some? && forall j :: r < j < i ==>
          Idling(steps[j]);
      assert forall j :: r < j < i + 1 ==> Idling(steps[j]);
    }
  }

  /** The buffer of an idle server, and of one that has just begun a flush after the recovery. */
  ghost predicate BufferIs<T>(s: State<T>, left: bool, begun: bool) {
    && (s.phase.Idle? ==> (s.buffer.Some? <==> left))
    && (s.phase.Flushing? ==> (s.buffer.Some? <==> begun) && (left <==> begun && s.phase.queue == []))
  }

  lemma {:induction false} BufferStep<T>(s: State<T>, step: Step<T>, left: bool, begun: bool, fill: T)
    requires Enabled(s, step) && BufferIs(s, left, begun) && (s.phase.Recovering? ==> s.buffer == s.journal)
    ensures BufferIs(Next(s, step, fill), (step.FinishRecovery? && s.journal.Some?) || (Idling(step) && left),
                     step.BeginFlush? && left)
  {
  }

  lemma {:induction false} BufferTracked<T>(states: seq<State<T>>, steps: seq<Step<T>>, fill: T, i: nat)
    requires Run(states, steps, fill) && i < |states|
    ensures BufferIs(states[i], LeftByRecovery(states, steps, i),
                     i > 0 && steps[i - 1].BeginFlush? && LeftByRecovery(states, steps, i - 1))
    decreases i
  {
    if i > 0 {
      BufferTracked(states, steps, fill, i - 1);
      RunKeepsInv(states, steps, fill, i - 1);
      LeftByRecoveryNext(states, steps, i - 1);
      assert Enabled(states[i - 1], steps[i - 1]) && states[i - 1 + 1] == Next(states[i - 1], steps[i - 1], fill);
      BufferStep(states[i - 1], steps[i - 1], LeftByRecovery(states, steps, i - 1),
                 i > 1 && steps[i - 2].BeginFlush? && LeftByRecovery(states, steps, i - 2), fill);
    }
  }

  /**
   * Between flushes the journal's buffer holds a file if and only if the server came up through a
   * recovery with a journal and has not flushed a metric since.
   */
  lemma {:induction false} BufferFilledIff<T>(states: seq<State<T>>, steps: seq<Step<T>>, fill: T, i: nat)
    requires Run(states, steps, fill) && i < |states| && states[i].phase.Idle?
    ensures states[i].buffer.Some? <==> LeftByRecovery(states, steps, i)
  {
    BufferTracked(states, steps, fill, i);
  }

  // ---------- Which metrics a flush saves

  function SavedBy<T>(s: State<T>, step: Step<T>): seq<string> {
    if step.SaveJournal? && s.phase.Flushing? && s.phase.queue != [] then [s.phase.queue[0]] else []
  }

  /** The metrics whose journal is saved in steps a to b. */
  function SavedNames<T>(states: seq<State<T>>, steps: seq<Step<T>>, a: nat, b: nat): seq<string>
    requires a <= b <= |steps| < |states|
  {
    if a == b then []
    else SavedNames(states, steps, a, b - 1) + SavedBy(states[b - 1], steps[b - 1])
  }

  /** Steps a to b are one flush, not interrupted by a crash. */
  ghost predicate WholeFlush<T>(steps: seq<Step<T>>, a: nat, b: nat) {
    && a < b < |steps| && steps[a].BeginFlush? && steps[b].DeleteJournal?
    && forall j :: a < j < b ==> !steps[j].DeleteJournal? && !steps[j].Crash? && !steps[j].TornCrash?
  }

  function Rest(dirty: seq<string>, busy: bool): seq<string> { if busy && dirty != [] then dirty[1..] else dirty }

  /** What is saved and what is queued make up the metrics to save, unless the first one is about to be skipped. */
  ghost predicate Progress<T>(s: State<T>, saved: seq<string>, dirty: seq<string>, busy: bool) {
    && (s.phase.Flushing? || s.phase.Applying?)
    && if s.phase.Flushing? && s.buffer.Some? then busy && saved == [] && s.phase.queue == dirty
       else (busy ==> dirty != []) && saved + s.phase.queue == Rest(dirty, busy)
  }

  lemma {:induction false} ProgressStep<T>(s: State<T>, step: Step<T>, saved: seq<string>, dirty: seq<string>,
                                           busy: bool, fill: T)
    requires Progress(s, saved, dirty, busy) && Enabled(s, step)
    requires !step.DeleteJournal? && !step.Crash? && !step.TornCrash?
    ensures Progress(Next(s, step, fill), saved + SavedBy(s, step), dirty, busy)
  {
    if step.SaveJournal? {
      var queue := s.phase.queue;
      assert saved + queue == (saved + [queue[0]]) + queue[1..];
    } else {
      assert saved + [] == saved;
    }
  }

  lemma {:induction false} FlushProgress<T>(states: seq<State<T>>, steps: seq<Step<T>>, fill: T, a: nat, b: nat, j: nat)
    requires Run(states, steps, fill) && WholeFlush(steps, a, b) && a < j <= b
    ensures Progress(states[j], SavedNames(states, steps, a, j), steps[a].dirty, states[a].buffer.Some?)
    decreases j
  {
    assert Enabled(states[j - 1], steps[j - 1]) && states[j - 1 + 1] == Next(states[j - 1], steps[j - 1], fill);
    if a + 1 < j {
      FlushProgress(states, steps, fill, a, b, j - 1);
      ProgressStep(states[j - 1], steps[j - 1], SavedNames(states, steps, a, j - 1), steps[a].dirty,
                   states[a].buffer.Some?, fill);
    } else {
      assert SavedNames(states, steps, a, a) == [];
    }
  }

  /** A flush saves the journals of all dirty metrics, in order, but skips the first one if the buffer was filled. */
  lemma {:induction false} FlushSaves<T>(states: seq<State<T>>, steps: seq<Step<T>>, fill: T, a: nat, b: nat)
    requires Run(states, steps, fill) && WholeFlush(steps, a, b)
    ensures SavedNames(states, steps, a, b) == Rest(steps[a].dirty, states[a].buffer.Some?)
  {
    FlushProgress(states, steps, fill, a, b, b);
    assert Enabled(states[b], steps[b]);
  }

  /**
   * A flush saves every dirty metric if and only if nothing is dirty or it is not the first flush
   * with something to do after a recovery with a journal.
   */
  lemma {:induction false} FlushSavesAllIff<T>(states: seq<State<T>>, steps: seq<Step<T>>, fill: T, a: nat, b: nat)
    requires Run(states, steps, fill) && WholeFlush(steps, a, b)
    ensures SavedNames(states, steps, a, b) == steps[a].dirty <==>
            (steps[a].dirty == [] || !LeftByRecovery(states, steps, a))
  {
    FlushSaves(states, steps, fill, a, b);
    assert Enabled(states[a], steps[a]);
    BufferFilledIff(states, steps, fill, a);
  }

  // ---------- When there is a journal file

  /** Before step i the server last recovered with a journal, and since then no flush has ended. */
  ghost predicate JournalLeft<T>(states: seq<State<T>>, steps: seq<Step<T>>, i: nat)
    requires i <= |steps| < |states|
  {
    exists r: nat :: r < i && steps[r].FinishRecovery? && states[r].journal.Some? && forall j :: r < j < i ==>
        !steps[j].DeleteJournal?
  }

  lemma {:induction false} JournalLeftNext<T>(states: seq<State<T>>, steps: seq<Step<T>>, i: nat)
    requires i < |steps| < |states|
    ensures JournalLeft(states, steps, i + 1) <==>
            (steps[i].FinishRecovery? && states[i].journal.Some?)
                || (!steps[i].DeleteJournal? && JournalLeft(states, steps, i))
  {
    if !steps[i].DeleteJournal? && JournalLeft(states, steps, i) {
      var r: nat :| r < i && steps[r].FinishRecovery? && states[r].journal.Some? && forall j :: r < j < i ==>
          !steps[j].DeleteJournal?;
      assert forall j :: r < j < i + 1 ==> !steps[j].DeleteJournal?;
    }
  }

  /** What is known of the journal file in a state. */
  ghost predicate JournalIs<T>(s: State<T>, left: bool) {
    && (s.phase.Idle? ==> (s.journal.Some? <==> left))
    && (left ==> s.journal.Some?)
  }

  lemma {:induction false} JournalTracked<T>(states: seq<State<T>>, steps: seq<Step<T>>, fill: T, i: nat)
    requires Run(states, steps, fill) && i < |states|
    ensures JournalIs(states[i], JournalLeft(states, steps, i))
    decreases i
  {
    if i > 0 {
      JournalTracked(states, steps, fill, i - 1);
      JournalLeftNext(states, steps, i - 1);
      assert Enabled(states[i - 1], steps[i - 1]) && states[i - 1 + 1] == Next(states[i - 1], steps[i - 1], fill);
    }
  }

  /**
   * While the server is idle there is a journal file if and only if it came up through a recovery with one and
   * no flush has ended since: every flush that ends removes it.
   */
  lemma {:induction false} JournalFileIff<T>(states: seq<State<T>>, steps: seq<Step<T>>, fill: T, i: nat)
    requires Run(states, steps, fill) && i < |states| && states[i].phase.Idle?
    ensures states[i].journal.Some? <==> JournalLeft(states, steps, i)
  {
    JournalTracked(states, steps, fill, i);
  }
}
