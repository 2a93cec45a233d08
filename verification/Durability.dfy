/**
 * Recovery and the layout of a metric's file together: whatever happens, each metric file recovers to one
 * that loads, with the headers and slots of the image that was saved last.
 */
module Durability {
  import opened Files
  import Recovery
  import opened Disk

  /** The file has the header and all blocks of the image. */
  ghost predicate OnDisk(file: seq<Word>, m: MetricImage) {
    && LaidOut(m) && AllSound(m) && Holds(file, 0, FileHeader(m))
    && forall k {:trigger BlockOnDisk(file, m.blocks[k])} :: 0 <= k < |m.blocks| ==> BlockOnDisk(file, m.blocks[k])
  }

  /** load_file and read_block_data give the headers and the slots back, the last block's under its exact condition. */
  ghost predicate Loads(file: seq<Word>, m: MetricImage)
    requires LaidOut(m)
  {
    && FileLoads(file, m)
    && forall k :: 0 <= k < |m.blocks| ==>
         (ReadData(file, Raised(m.blocks[k].header)) == Ok(m.blocks[k].slots) <==>
          k < |m.blocks| - 1 || ZeroTail(m.blocks[k]))
  }

  lemma {:induction false} OnDiskLoads(file: seq<Word>, m: MetricImage)
    requires OnDisk(file, m)
    ensures Loads(file, m)
  {
    AllHeadersLoad(file, m);
    forall k | 0 <= k < |m.blocks|
      ensures ReadData(file, Raised(m.blocks[k].header)) == Ok(m.blocks[k].slots) <==>
              k < |m.blocks| - 1 || ZeroTail(m.blocks[k])
    {
      assert BlockOnDisk(file, m.blocks[k]) && Sound(m.blocks[k]);
      BlockRoundTrip(file, m.blocks[k]);
    }
  }

  /**
   * The metric in memory, whose clean blocks are still what was saved last. They need only be written in the
   * same way: a block that was loaded from the disk may have lost its tail.
   */
  ghost predicate Follows(m: MetricImage, saved: MetricImage) {
    && LaidOut(m) && AllSound(m) && LaidOut(saved) && |m.blocks| == |saved.blocks|
    && forall k :: 0 <= k < |m.blocks| && !m.dirty[k] ==>
         m.blocks[k].header.offset == saved.blocks[k].header.offset
             && WriteBlock(m.blocks[k]) == WriteBlock(saved.blocks[k])
  }

  /** What save_dirty_blocks puts into the journal. */
  function MetricWrites(m: MetricImage): seq<Write<Word>>
    requires LaidOut(m)
  {
    DirtyWrites(Write(0, FileHeader(m)), Regions(m), |m.blocks|)
  }

  lemma {:induction false} SavedSound(m: MetricImage)
    requires LaidOut(m) && AllSound(m)
    ensures AllSound(Saved(m))
  {
    forall k | 0 <= k < |m.blocks|
      ensures Sound(Saved(m).blocks[k])
    {
      assert Sound(m.blocks[k]);
    }
  }

  lemma {:induction false} FollowerIsClean(file: seq<Word>, m: MetricImage, saved: MetricImage)
    requires OnDisk(file, saved) && Follows(m, saved)
    ensures CleanOnDisk(file, m)
  {
    forall k | 0 <= k < |m.blocks| && !m.dirty[k]
      ensures BlockOnDisk(file, m.blocks[k])
    {
      assert BlockOnDisk(file, saved.blocks[k]);
    }
  }

  lemma {:induction false} SaveMakesOnDisk(file: seq<Word>, m: MetricImage, saved: MetricImage)
    requires OnDisk(file, saved) && Follows(m, saved)
    ensures OnDisk(ApplyAll(file, MetricWrites(m), HOLE), Saved(m))
  {
    FollowerIsClean(file, m, saved);
    SavedIsOnDisk(file, m, ApplyAll(file, MetricWrites(m), HOLE));
  }

  lemma {:induction false} SavedIsOnDisk(file: seq<Word>, m: MetricImage, after: seq<Word>)
    requires LaidOut(m) && AllSound(m) && CleanOnDisk(file, m) && after == ApplyAll(file, MetricWrites(m), HOLE)
    ensures OnDisk(after, Saved(m))
  {
    SaveReachesDisk(file, m, 0);
    SaveKeepsClean(file, m, after);
    SavedSound(m);
    assert FileHeader(Saved(m)) == FileHeader(m);
    forall k | 0 <= k < |m.blocks|
      ensures BlockOnDisk(after, Saved(m).blocks[k])
    {
      assert !Saved(m).dirty[k];
    }
  }

  /** The saved images before and after a step; m is the metric in memory that the step saves, if it saves one. */
  ghost predicate Keeps(s: Recovery.State<Word>, step: Recovery.Step<Word>, m: MetricImage,
                        before: map<string, MetricImage>, after: map<string, MetricImage>)
  {
    if step.SaveJournal? then
      && s.phase.Flushing? && s.phase.queue != [] && s.phase.queue[0] in before
      && Follows(m, before[s.phase.queue[0]]) && step.writes == MetricWrites(m)
      && after == before[s.phase.queue[0] := Saved(m)]
    else after == before
  }

  /**
   * A run of the server in which every journal is made by save_dirty_blocks; images[i] are the saved images in
   * state i.
   */
  ghost predicate DiskRun(states: seq<Recovery.State<Word>>, steps: seq<Recovery.Step<Word>>, memory: seq<MetricImage>,
                          images: seq<map<string, MetricImage>>)
  {
    && Recovery.Run(states, steps, HOLE) && |memory| == |steps| && |images| == |states|
    && (forall name :: name in images[0] ==> name in states[0].files && OnDisk(states[0].files[name], images[0][name]))
    && (forall i :: 0 <= i < |steps| ==> Keeps(states[i], steps[i], memory[i], images[i], images[i + 1]))
  }

  ghost predicate AllOnDisk(files: map<string, seq<Word>>, images: map<string, MetricImage>) {
    forall name :: name in images ==> name in files && OnDisk(files[name], images[name])
  }

  lemma {:induction false} StepOnDisk(s: Recovery.State<Word>, step: Recovery.Step<Word>, m: MetricImage,
                                      before: map<string, MetricImage>, after: map<string, MetricImage>)
    requires Recovery.Inv(s, HOLE) && Recovery.Enabled(s, step) && Keeps(s, step, m, before, after)
    requires AllOnDisk(Recovery.Logical(s, HOLE), before)
    ensures AllOnDisk(Recovery.Logical(Recovery.Next(s, step, HOLE), HOLE), after)
  {
    Recovery.StepIsAtomic(s, step, HOLE);
    if step.SaveJournal? {
      var name := s.phase.queue[0];
      Recovery.SavePoint(s, HOLE);
      SaveMakesOnDisk(s.files[name], m, before[name]);
    }
  }

  /**
   * In every state of every run, with any number of crashes, each metric file recovers to one that has the
   * image saved last and loads with its headers and slots; the image changes only when a journal is saved.
   */
  lemma {:induction false} RecoversToSaved(states: seq<Recovery.State<Word>>, steps: seq<Recovery.Step<Word>>,
                                           memory: seq<MetricImage>,
                                           images: seq<map<string, MetricImage>>, i: nat)
    requires DiskRun(states, steps, memory, images) && i < |states|
    ensures AllOnDisk(Recovery.Logical(states[i], HOLE), images[i])
    ensures forall name :: name in images[i] ==> Loads(Recovery.Logical(states[i], HOLE)[name], images[i][name])
    decreases i
  {
    if i > 0 {
      RecoversToSaved(states, steps, memory, images, i - 1);
      Recovery.RunKeepsInv(states, steps, HOLE, i - 1);
      assert states[i - 1 + 1] == Recovery.Next(states[i - 1], steps[i - 1], HOLE);
      assert Keeps(states[i - 1], steps[i - 1], memory[i - 1], images[i - 1], images[i - 1 + 1]);
      StepOnDisk(states[i - 1], steps[i - 1], memory[i - 1], images[i - 1], images[i]);
    }
    forall name | name in images[i]
      ensures Loads(Recovery.Logical(states[i], HOLE)[name], images[i][name])
    {
      OnDiskLoads(Recovery.Logical(states[i], HOLE)[name], images[i][name]);
    }
  }

  /** When the server is idle or between metrics, the files themselves load like that. */
  lemma {:induction false} SettledFilesLoad(states: seq<Recovery.State<Word>>, steps: seq<Recovery.Step<Word>>,
                                            memory: seq<MetricImage>,
                                            images: seq<map<string, MetricImage>>, i: nat, name: string)
    requires DiskRun(states, steps, memory, images) && i < |states| && name in images[i]
    requires states[i].phase.Idle? || states[i].phase.Flushing?
    ensures name in states[i].files && OnDisk(states[i].files[name], images[i][name])
    ensures Loads(states[i].files[name], images[i][name])
  {
    RecoversToSaved(states, steps, memory, images, i);
    Recovery.SettledFilesAreLogical(states, steps, HOLE, i);
  }
}
