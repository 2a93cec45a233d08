/** A file as a sequence of cells, overwritten in place and extended, never truncated. */
module Files {
  import opened Sequences
  import opened Times

  datatype Write<+T> = Write(offset: nat, data: seq<T>)

  /** seek and write; a hole left by seeking beyond the end reads as fill. */
  function WriteAt<T>(file: seq<T>, w: Write<T>, fill: T): (r: seq<T>)
    ensures w.data != [] ==> |r| == Max(|file|, w.offset + |w.data|)
  {
    if w.data == [] then file
    else
      var base := if |file| < w.offset then file + Filled(w.offset - |file|, fill) else file;
      if w.offset + |w.data| <= |base| then base[..w.offset] + w.data + base[w.offset + |w.data|..]
      else base[..w.offset] + w.data
  }

  /** The loop of apply_journal. */
  function ApplyAll<T>(file: seq<T>, writes: seq<Write<T>>, fill: T): seq<T>
    decreases |writes|
  {
    if writes == [] then file else ApplyAll(WriteAt(file, writes[0], fill), writes[1..], fill)
  }

  function CellAt<T>(file: seq<T>, o: nat, fill: T): T { if o < |file| then file[o] else fill }

  predicate InWrite<T>(w: Write<T>, o: nat) { w.offset <= o < w.offset + |w.data| }

  ghost predicate Covered<T>(writes: seq<Write<T>>, o: nat) {
    exists i :: 0 <= i < |writes| && InWrite(writes[i], o)
  }

  function Extent<T>(writes: seq<Write<T>>): nat {
    if writes == [] then 0
    else Max(if writes[0].data == [] then 0 else writes[0].offset + |writes[0].data|, Extent(writes[1..]))
  }

  lemma {:induction false} WriteCell<T>(file: seq<T>, w: Write<T>, o: nat, fill: T)
    ensures CellAt(WriteAt(file, w, fill), o, fill) == if InWrite(w, o) then w.data[o - w.offset]
            else CellAt(file, o, fill)
  {
  }

  lemma {:induction false} ApplyLength<T>(file: seq<T>, writes: seq<Write<T>>, fill: T)
    ensures |ApplyAll(file, writes, fill)| == Max(|file|, Extent(writes))
    decreases |writes|
  {
    if writes != [] {
      ApplyLength(WriteAt(file, writes[0], fill), writes[1..], fill);
    }
  }

  /** A cell that is the same before, or is overwritten, is the same afterwards. */
  lemma {:induction false} ApplyAgrees<T>(f: seq<T>, g: seq<T>, writes: seq<Write<T>>, o: nat, fill: T)
    requires CellAt(f, o, fill) == CellAt(g, o, fill) || Covered(writes, o)
    ensures CellAt(ApplyAll(f, writes, fill), o, fill) == CellAt(ApplyAll(g, writes, fill), o, fill)
    decreases |writes|
  {
    if writes != [] {
      var w := writes[0];
      WriteCell(f, w, o, fill);
      WriteCell(g, w, o, fill);
      if !InWrite(w, o) && Covered(writes, o) {
        var i :| 0 <= i < |writes| && InWrite(writes[i], o);
        assert InWrite(writes[1..][i - 1], o);
      }
      ApplyAgrees(WriteAt(f, w, fill), WriteAt(g, w, fill), writes[1..], o, fill);
    }
  }

  /** A cell that no write covers keeps its value. */
  lemma {:induction false} ApplyKeeps<T>(f: seq<T>, writes: seq<Write<T>>, o: nat, fill: T)
    requires !Covered(writes, o)
    ensures CellAt(ApplyAll(f, writes, fill), o, fill) == CellAt(f, o, fill)
    decreases |writes|
  {
    if writes != [] {
      WriteCell(f, writes[0], o, fill);
      assert InWrite(writes[0], o) ==> Covered(writes, o);
      forall i | 0 <= i < |writes| - 1
        ensures !InWrite(writes[1..][i], o)
      {
        assert InWrite(writes[i + 1], o) ==> Covered(writes, o);
      }
      ApplyKeeps(WriteAt(f, writes[0], fill), writes[1..], o, fill);
    }
  }

  lemma {:induction false} SameCells<T>(f: seq<T>, g: seq<T>, fill: T)
    requires |f| == |g| && forall o: nat :: CellAt(f, o, fill) == CellAt(g, o, fill)
    ensures f == g
  {
    forall o: nat | o < |f|
      ensures f[o] == g[o]
    {
      assert CellAt(f, o, fill) == CellAt(g, o, fill);
    }
  }

  /** g is f after some, maybe torn, part of the writes reached it. */
  ghost predicate TornFrom<T>(f: seq<T>, g: seq<T>, writes: seq<Write<T>>, fill: T) {
    && |f| <= |g| <= Max(|f|, Extent(writes))
    && forall o: nat :: !Covered(writes, o) ==> CellAt(f, o, fill) == CellAt(g, o, fill)
  }

  /** Whatever part of the writes reached the file before a crash, applying all of them again repairs it. */
  lemma {:induction false} ReapplyRepairs<T>(f: seq<T>, g: seq<T>, writes: seq<Write<T>>, fill: T)
    requires TornFrom(f, g, writes, fill)
    ensures ApplyAll(g, writes, fill) == ApplyAll(f, writes, fill)
  {
    ApplyLength(f, writes, fill);
    ApplyLength(g, writes, fill);
    forall o: nat
      ensures CellAt(ApplyAll(g, writes, fill), o, fill) == CellAt(ApplyAll(f, writes, fill), o, fill)
    {
      ApplyAgrees(g, f, writes, o, fill);
    }
    SameCells(ApplyAll(g, writes, fill), ApplyAll(f, writes, fill), fill);
  }

  lemma {:induction false} ExtentBounds<T>(writes: seq<Write<T>>, i: nat)
    requires i < |writes| && writes[i].data != []
    ensures writes[i].offset + |writes[i].data| <= Extent(writes)
  {
    if i > 0 {
      ExtentBounds(writes[1..], i - 1);
    }
  }

  /** Any first part of one write of the list, done before the whole list, makes no difference. */
  lemma {:induction false} PartAbsorbed<T>(f: seq<T>, writes: seq<Write<T>>, i: nat, cut: nat, fill: T)
    requires i < |writes| && cut <= |writes[i].data|
    ensures ApplyAll(WriteAt(f, Write(writes[i].offset, writes[i].data[..cut]), fill), writes, fill)
            == ApplyAll(f, writes, fill)
  {
    var w := Write(writes[i].offset, writes[i].data[..cut]);
    var g := WriteAt(f, w, fill);
    if cut > 0 {
      ExtentBounds(writes, i);
    }
    forall o: nat | !Covered(writes, o)
      ensures CellAt(f, o, fill) == CellAt(g, o, fill)
    {
      WriteCell(f, w, o, fill);
      assert InWrite(writes[i], o) ==> Covered(writes, o);
    }
    ReapplyRepairs(f, g, writes, fill);
  }

  lemma {:induction false} WriteAbsorbed<T>(f: seq<T>, writes: seq<Write<T>>, i: nat, fill: T)
    requires i < |writes|
    ensures ApplyAll(WriteAt(f, writes[i], fill), writes, fill) == ApplyAll(f, writes, fill)
  {
    PartAbsorbed(f, writes, i, |writes[i].data|, fill);
    assert writes[i].data[..|writes[i].data|] == writes[i].data;
  }

  lemma {:induction false} ApplyAppend<T>(f: seq<T>, a: seq<Write<T>>, b: seq<Write<T>>, fill: T)
    ensures ApplyAll(f, a + b, fill) == ApplyAll(ApplyAll(f, a, fill), b, fill)
    decreases |a|
  {
    if a == [] {
      assert a + b == b;
    } else {
      assert (a + b)[1..] == a[1..] + b;
      ApplyAppend(WriteAt(f, a[0], fill), a[1..], b, fill);
    }
  }

  // ---------- Regions

  /** file has s at position at. */
  ghost predicate Holds<T>(file: seq<T>, at: nat, s: seq<T>) {
    at + |s| <= |file| && file[at..at + |s|] == s
  }

  lemma {:induction false} HoldsParts<T>(file: seq<T>, at: nat, a: seq<T>, b: seq<T>)
    requires Holds(file, at, a + b)
    ensures Holds(file, at, a) && Holds(file, at + |a|, b)
  {
    var s := file[at..at + |a + b|];
    assert s[..|a|] == a && s[|a|..] == b;
    assert file[at..at + |a|] == s[..|a|];
    assert file[at + |a|..at + |a| + |b|] == s[|a|..];
  }

  lemma {:induction false} HoldsByCells<T>(file: seq<T>, at: nat, s: seq<T>, fill: T)
    requires at + |s| <= |file|
    requires forall o: nat :: at <= o < at + |s| ==> CellAt(file, o, fill) == s[o - at]
    ensures Holds(file, at, s)
  {
    forall i | 0 <= i < |s|
      ensures file[at..at + |s|][i] == s[i]
    {
      assert CellAt(file, at + i, fill) == s[i];
    }
  }

  predicate Apart<T>(w: Write<T>, at: nat, n: nat) {
    w.offset + |w.data| <= at || at + n <= w.offset
  }

  /** Writes elsewhere leave a region alone. */
  lemma {:induction false} UntouchedHolds<T>(file: seq<T>, writes: seq<Write<T>>, at: nat, s: seq<T>, fill: T)
    requires Holds(file, at, s) && forall i :: 0 <= i < |writes| ==> Apart(writes[i], at, |s|)
    ensures Holds(ApplyAll(file, writes, fill), at, s)
  {
    ApplyLength(file, writes, fill);
    forall o: nat | at <= o < at + |s|
      ensures CellAt(ApplyAll(file, writes, fill), o, fill) == s[o - at]
    {
      ApplyKeeps(file, writes, o, fill);
      assert file[o] == file[at..at + |s|][o - at];
    }
    HoldsByCells(ApplyAll(file, writes, fill), at, s, fill);
  }

  /** A write that no later write overlaps is found in the file. */
  lemma {:induction false} WriteHolds<T>(file: seq<T>, writes: seq<Write<T>>, i: nat, fill: T)
    requires i < |writes| && writes[i].data != []
    requires forall j :: i < j < |writes| ==> Apart(writes[j], writes[i].offset, |writes[i].data|)
    ensures Holds(ApplyAll(file, writes, fill), writes[i].offset, writes[i].data)
  {
    var w, before, after := writes[i], writes[..i], writes[i + 1..];
    var mid := ApplyAll(file, before, fill);
    assert writes == before + ([w] + after);
    ApplyAppend(file, before, [w] + after, fill);
    assert ([w] + after)[1..] == after;
    JustWritten(mid, w, fill);
    assert forall j :: 0 <= j < |after| ==> after[j] == writes[i + 1 + j];
    UntouchedHolds(WriteAt(mid, w, fill), after, w.offset, w.data, fill);
  }

  lemma {:induction false} JustWritten<T>(file: seq<T>, w: Write<T>, fill: T)
    requires w.data != []
    ensures Holds(WriteAt(file, w, fill), w.offset, w.data)
  {
  }

  // ---------- Incremental saves

  /** A region of a file, and whether its data has changed since the file was written. */
  datatype Region<+T> = Region(write: Write<T>, dirty: bool)

  /** What is written: the head always, a region only when it is dirty. */
  function DirtyWrites<T>(head: Write<T>, regions: seq<Region<T>>, n: nat): (writes: seq<Write<T>>)
    requires n <= |regions|
    ensures |writes| > 0 && writes[0] == head
  {
    if n == 0 then [head]
    else DirtyWrites(head, regions, n - 1) + if regions[n - 1].dirty then [regions[n - 1].write] else []
  }

  /** The regions follow the head and one another. */
  ghost predicate InOrder<T>(head: Write<T>, regions: seq<Region<T>>) {
    && head.offset == 0 && head.data != []
    && (forall k :: 0 <= k < |regions| ==> regions[k].write.data != [] && |head.data| <= regions[k].write.offset)
    && (forall i, j :: 0 <= i < j < |regions| ==>
          regions[i].write.offset + |regions[i].write.data| <= regions[j].write.offset)
  }

  lemma {:induction false} WritesApart<T>(head: Write<T>, regions: seq<Region<T>>, n: nat, k: nat)
    requires InOrder(head, regions) && n <= |regions| && k < |regions| && (regions[k].dirty ==> n <= k)
    ensures forall j :: 0 <= j < |DirtyWrites(head, regions, n)| ==>
              Apart(DirtyWrites(head, regions, n)[j], regions[k].write.offset, |regions[k].write.data|)
    decreases n
  {
    if n > 0 {
      WritesApart(head, regions, n - 1, k);
    }
  }

  lemma {:induction false} HeadApart<T>(head: Write<T>, regions: seq<Region<T>>, n: nat)
    requires InOrder(head, regions) && n <= |regions|
    ensures forall j :: 0 < j < |DirtyWrites(head, regions, n)| ==>
            Apart(DirtyWrites(head, regions, n)[j], 0, |head.data|)
    decreases n
  {
    if n > 0 {
      HeadApart(head, regions, n - 1);
    }
  }

  lemma {:induction false} DirtyWriteOf<T>(head: Write<T>, regions: seq<Region<T>>, n: nat, k: nat) returns (i: nat)
    requires InOrder(head, regions) && k < n <= |regions| && regions[k].dirty
    ensures i < |DirtyWrites(head, regions, n)| && DirtyWrites(head, regions, n)[i] == regions[k].write
    ensures forall j :: i < j < |DirtyWrites(head, regions, n)| ==>
              Apart(DirtyWrites(head, regions, n)[j], regions[k].write.offset, |regions[k].write.data|)
    decreases n
  {
    if k == n - 1 {
      i := |DirtyWrites(head, regions, n - 1)|;
    } else {
      i := DirtyWriteOf(head, regions, n - 1, k);
    }
  }

  /**
   * Writing the head and the dirty regions onto a file that has the clean ones gives a file that
   * has the head and every region.
   */
  lemma {:induction false} DirtyWritesSuffice<T>(file: seq<T>, head: Write<T>, regions: seq<Region<T>>, k: nat, fill: T)
    requires InOrder(head, regions) && k < |regions|
    requires !regions[k].dirty ==> Holds(file, regions[k].write.offset, regions[k].write.data)
    ensures Holds(ApplyAll(file, DirtyWrites(head, regions, |regions|), fill), 0, head.data)
    ensures Holds(ApplyAll(file, DirtyWrites(head, regions, |regions|), fill), regions[k].write.offset,
                  regions[k].write.data)
  {
    var writes := DirtyWrites(head, regions, |regions|);
    HeadApart(head, regions, |regions|);
    WriteHolds(file, writes, 0, fill);
    if regions[k].dirty {
      var i := DirtyWriteOf(head, regions, |regions|, k);
      WriteHolds(file, writes, i, fill);
    } else {
      WritesApart(head, regions, |regions|, k);
      UntouchedHolds(file, writes, regions[k].write.offset, regions[k].write.data, fill);
    }
  }
}
