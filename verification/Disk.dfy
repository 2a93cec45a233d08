/**
 * The file of a metric (src/rrdb/rrdb_metric.cpp:142-153, 281-336, 459-574,
 * src/rrdb/rrdb_metric_block.cpp:261-367). Everything in it is a multiple of 8 bytes, so the file
 * is a sequence of 8-byte words; offsets and sizes stored in it are in bytes.
 */
module Disk {
  import opened Sequences
  import opened Times
  import opened Tuples
  import opened Files

  /** What 8 bytes hold: four 16-bit fields, two 32-bit fields, an integer, a value, or text. */
  datatype Word =
    | Shorts(a: nat, b: nat, c: nat, d: nat)
    | Ints(lo: nat, hi: nat)
    | Long(n: int)
    | Double(v: real)
    | Text(chars: string)

  const HOLE := Long(0)

  const METRIC_MAGIC := 0xDB99
  const METRIC_VERSION := 1
  const BLOCK_MAGIC := 0xBB99
  const LAST_BLOCK := 1

  /** sizeof(t_rrdb_metric_block_header) and sizeof(t_rrdb_metric_tuple), in words. */
  const HEADER_WORDS := 7
  const TUPLE_WORDS := 6

  // ---------- Blocks

  /** t_rrdb_metric_block_header without the magic; offset is in words. */
  datatype Header = Header(
    status: nat, offset: nat, dataSize: int, freq: nat, duration: nat,
    count: nat, pos: nat, posTs: int, maxPos: nat)

  datatype BlockImage = BlockImage(header: Header, slots: seq<Tuple>)

  predicate IsLast(h: Header) { h.status == LAST_BLOCK }

  /** get_disk_data_size, in tuples. */
  function DiskCount(h: Header): nat {
    if IsLast(h) then h.maxPos + 1 else h.count
  }

  /** freq * count, as a sum. */
  function Repeated(freq: nat, count: nat): nat {
    if count == 0 then 0 else freq + Repeated(freq, count - 1)
  }

  lemma {:induction false} RepeatedIsProduct(freq: nat, count: nat)
    ensures Repeated(freq, count) == freq * count
  {
    if count > 0 {
      RepeatedIsProduct(freq, count - 1);
    }
  }

  /** What write_block checks of the block in memory. */
  predicate Writable(b: BlockImage) {
    b.header.pos < b.header.count == |b.slots| && b.header.maxPos < b.header.count
  }

  /** What rrdb_metric_block's constructor and update keep. */
  predicate Sound(b: BlockImage) {
    var h := b.header;
    && Writable(b)
    && h.freq > 0 && h.duration == Repeated(h.freq, h.count) && h.dataSize == h.count * (8 * TUPLE_WORDS)
    && b.slots[h.pos].ts == h.posTs
  }

  function HeaderWords(h: Header): (s: seq<Word>)
    ensures |s| == HEADER_WORDS
  {
    [Shorts(BLOCK_MAGIC, h.status, 0, 0), Long(8 * h.offset), Long(h.dataSize), Ints(h.freq, h.duration),
     Ints(h.count, h.pos), Long(h.posTs), Ints(h.maxPos, 0)]
  }

  function TupleWords(t: Tuple): (s: seq<Word>)
    ensures |s| == TUPLE_WORDS
  {
    [Long(t.ts), Double(t.stats.count), Double(t.stats.sum), Double(t.stats.sumSqr), Double(t.stats.min),
     Double(t.stats.max)]
  }

  function SlotWords(slots: seq<Tuple>): (s: seq<Word>)
    ensures |s| == TUPLE_WORDS * |slots|
  {
    if slots == [] then [] else TupleWords(slots[0]) + SlotWords(slots[1..])
  }

  /** write_block first raises max_pos to pos. */
  function Raised(h: Header): Header { h.(maxPos := Max(h.maxPos, h.pos)) }

  function WriteBlock(b: BlockImage): seq<Word>
    requires Writable(b)
  {
    HeaderWords(Raised(b.header)) + SlotWords(b.slots[..DiskCount(Raised(b.header))])
  }

  datatype ReadError =
    | EndOfFile | BadMagic | BadVersion | BadName | BadFreq | BadCount | BadDuration | BadPos | BadMaxPos
    | PosAboveMaxPos | BadOffset | BadDataSize | BadPosTs

  datatype Read<+T> = Ok(value: T) | Err(error: ReadError)

  /** read_block at word at, with its checks in order. */
  function ReadHeader(file: seq<Word>, at: nat): Read<Header> {
    if |file| < at + HEADER_WORDS then Err(EndOfFile)
    else
      var w := file[at..at + HEADER_WORDS];
      if !w[0].Shorts? || w[0].a != BLOCK_MAGIC then Err(BadMagic)
      else if !w[1].Long? || !w[2].Long? || !w[3].Ints? || !w[4].Ints? || !w[5].Long? || !w[6].Ints? then Err(BadMagic)
      else if w[3].lo == 0 then Err(BadFreq)
      else if w[4].lo == 0 then Err(BadCount)
      else if w[3].hi != Repeated(w[3].lo, w[4].lo) then Err(BadDuration)
      else if w[4].hi >= w[4].lo then Err(BadPos)
      else if w[6].lo >= w[4].lo then Err(BadMaxPos)
      else if w[6].lo > 0 && w[4].hi > w[6].lo then Err(PosAboveMaxPos)
      else if w[1].n != 8 * at then Err(BadOffset)
      else if w[2].n != w[4].lo * (8 * TUPLE_WORDS) then Err(BadDataSize)
      else Ok(Header(w[0].b, at, w[2].n, w[3].lo, w[3].hi, w[4].lo, w[4].hi, w[5].n, w[6].lo))
  }

  function TupleAt(w: seq<Word>): Read<Tuple>
    requires |w| == TUPLE_WORDS
  {
    if w[0].Long? && w[1].Double? && w[2].Double? && w[3].Double? && w[4].Double? && w[5].Double?
    then Ok(Tuple(w[0].n, Stats(w[1].v, w[2].v, w[3].v, w[4].v, w[5].v))) else Err(BadMagic)
  }

  function ReadSlots(file: seq<Word>, at: nat, n: nat): Read<seq<Tuple>>
    decreases n
  {
    if n == 0 then Ok([])
    else if |file| < at + TUPLE_WORDS then Err(EndOfFile)
    else
      match TupleAt(file[at..at + TUPLE_WORDS])
      case Err(e) => Err(e)
      case Ok(t) =>
        match ReadSlots(file, at + TUPLE_WORDS, n - 1)
        case Err(e) => Err(e)
        case Ok(rest) => Ok([t] + rest)
  }

  /** read_block_data: the slots the file does not have are zero. */
  function ReadData(file: seq<Word>, h: Header): Read<seq<Tuple>>
    requires h.pos < h.count && h.maxPos < h.count
  {
    match ReadSlots(file, h.offset + HEADER_WORDS, DiskCount(h))
    case Err(e) => Err(e)
    case Ok(read) =>
      var slots := read + Filled(h.count - DiskCount(h), ZERO_TUPLE);
      if h.pos < |slots| && slots[h.pos].ts == h.posTs then Ok(slots) else Err(BadPosTs)
  }

  /** Data is accepted only if the current slot has the timestamp of the header. */
  lemma {:induction false} DataAccepted(file: seq<Word>, h: Header)
    requires h.pos < h.count && h.maxPos < h.count && ReadData(file, h).Ok?
    ensures |ReadData(file, h).value| >= h.count && ReadData(file, h).value[h.pos].ts == h.posTs
  {
    ReadCount(file, h.offset + HEADER_WORDS, DiskCount(h));
  }

  lemma {:induction false} ReadCount(file: seq<Word>, at: nat, n: nat)
    ensures ReadSlots(file, at, n).Ok? ==> |ReadSlots(file, at, n).value| == n
    decreases n
  {
    if n > 0 && |file| >= at + TUPLE_WORDS {
      ReadCount(file, at + TUPLE_WORDS, n - 1);
    }
  }

  lemma {:induction false} TupleRoundTrip(t: Tuple)
    ensures TupleAt(TupleWords(t)) == Ok(t)
  {
  }

  lemma {:induction false} SlotsRoundTrip(file: seq<Word>, at: nat, slots: seq<Tuple>)
    requires Holds(file, at, SlotWords(slots))
    ensures ReadSlots(file, at, |slots|) == Ok(slots)
    decreases |slots|
  {
    if slots != [] {
      HoldsParts(file, at, TupleWords(slots[0]), SlotWords(slots[1..]));
      TupleRoundTrip(slots[0]);
      assert file[at..at + TUPLE_WORDS] == TupleWords(slots[0]);
      SlotsRoundTrip(file, at + TUPLE_WORDS, slots[1..]);
      assert [slots[0]] + slots[1..] == slots;
    }
  }

  lemma {:induction false} HeaderRoundTrip(file: seq<Word>, b: BlockImage)
    requires Sound(b) && Holds(file, b.header.offset, HeaderWords(Raised(b.header)))
    ensures ReadHeader(file, b.header.offset) == Ok(Raised(b.header))
  {
  }

  /** read_block accepts a header exactly when it is consistent and lies where it says. */
  lemma {:induction false} HeaderAcceptedIff(file: seq<Word>, at: nat, h: Header)
    requires Holds(file, at, HeaderWords(h))
    ensures ReadHeader(file, at).Ok? <==>
            && h.freq > 0 && h.count > 0 && h.duration == h.freq * h.count
            && h.pos < h.count && h.maxPos < h.count && (h.maxPos == 0 || h.pos <= h.maxPos)
            && h.offset == at && h.dataSize == 48 * h.count
    ensures ReadHeader(file, at).Ok? ==> ReadHeader(file, at).value == h
  {
    RepeatedIsProduct(h.freq, h.count);
    assert file[at..at + HEADER_WORDS] == HeaderWords(h);
  }

  /** One block header in the format of t_rrdb_metric_block_header: the last block of a metric, in the ninth word. */
  lemma {:induction false} HeaderExample()
    ensures HeaderWords(Header(1, 8, 480, 60, 600, 10, 7, 420, 9))
         == [Shorts(0xBB99, 1, 0, 0), Long(64), Long(480), Ints(60, 600), Ints(10, 7), Long(420), Ints(9, 0)]
    ensures TupleWords(Tuple(420, Stats(2.0, 3.0, 5.0, 1.0, 2.0)))
         == [Long(420), Double(2.0), Double(3.0), Double(5.0), Double(1.0), Double(2.0)]
    ensures IsLast(Header(1, 8, 480, 60, 600, 10, 7, 420, 9))
  {
  }
  /** A block without slots, as a duration of 0 gives, can neither be written nor loaded. */
  lemma {:induction false} NoSlotsRejected(file: seq<Word>, at: nat, b: BlockImage)
    requires b.header.count == 0 && b.header.freq > 0 && Holds(file, at, HeaderWords(b.header))
    ensures !Writable(b) && ReadHeader(file, at) == Err(BadCount)
  {
    assert file[at..at + HEADER_WORDS] == HeaderWords(b.header);
  }

  /** All slots above both max_pos and pos are zero. */
  ghost predicate ZeroTail(b: BlockImage) {
    forall i: nat :: Max(b.header.maxPos, b.header.pos) < i < |b.slots| ==> b.slots[i] == ZERO_TUPLE
  }

  lemma {:induction false} PaddedIsWhole(slots: seq<Tuple>, n: nat)
    requires n <= |slots|
    ensures (slots[..n] + Filled(|slots| - n, ZERO_TUPLE) == slots)
            <==> (forall i: nat :: n <= i < |slots| ==> slots[i] == ZERO_TUPLE)
  {
  }

  /** What is read back: the slots up to max_pos or pos, and zeros for the rest. */
  lemma {:induction false} BlockReadBack(file: seq<Word>, b: BlockImage)
    requires Sound(b) && Holds(file, b.header.offset, WriteBlock(b))
    ensures ReadHeader(file, b.header.offset) == Ok(Raised(b.header))
    ensures var n := if IsLast(b.header) then Max(b.header.maxPos, b.header.pos) + 1 else b.header.count;
            ReadData(file, Raised(b.header)) == Ok(b.slots[..n] + Filled(b.header.count - n, ZERO_TUPLE))
  {
    var h := Raised(b.header);
    var n := DiskCount(h);
    HoldsParts(file, h.offset, HeaderWords(h), SlotWords(b.slots[..n]));
    HeaderRoundTrip(file, b);
    SlotsRoundTrip(file, h.offset + HEADER_WORDS, b.slots[..n]);
  }

  /**
   * A written block passes every check when it is read back, and its slots come back unchanged,
   * if and only if it is not the last block or has no data above max_pos and pos: that part of
   * the last block is not written.
   */
  lemma {:induction false} BlockRoundTrip(file: seq<Word>, b: BlockImage)
    requires Sound(b) && Holds(file, b.header.offset, WriteBlock(b))
    ensures ReadHeader(file, b.header.offset) == Ok(Raised(b.header))
    ensures ReadData(file, Raised(b.header)).Ok?
    ensures ReadData(file, Raised(b.header)) == Ok(b.slots) <==> (!IsLast(b.header) || ZeroTail(b))
  {
    BlockReadBack(file, b);
    PaddedIsWhole(b.slots, DiskCount(Raised(b.header)));
  }

  /**
   * Data in the slot before position 0 of the last block, late or from before a wrap, is lost in a reload while
   * max_pos is 0.
   */
  lemma {:induction false} WrappedSlotIsLost(file: seq<Word>, b: BlockImage)
    requires Sound(b) && IsLast(b.header) && b.header.pos == b.header.maxPos == 0 && b.header.count > 1
    requires b.slots[b.header.count - 1].stats.count > 0.0 && Holds(file, b.header.offset, WriteBlock(b))
    ensures ReadData(file, Raised(b.header)) != Ok(b.slots)
  {
  }

  // ---------- Metrics

  /** A padded_string: size characters, padded to whole words. */
  datatype Name = Name(size: nat, text: seq<Word>)

  /** The metric in memory. */
  datatype MetricImage = MetricImage(
    status: nat, lastValue: real, lastTs: int, name: Name,
    blocks: seq<BlockImage>, dirty: seq<bool>)

  /** The status without Status_Dirty, its lowest bit; save_dirty_blocks clears it before it writes the header. */
  function Cleared(status: nat): nat { status - status % 2 }

  /** write_header, after that. */
  function FileHeader(m: MetricImage): seq<Word> {
    [Shorts(METRIC_MAGIC, METRIC_VERSION, Cleared(m.status), |m.blocks|), Double(m.lastValue), Long(m.lastTs)]
    + [Shorts(m.name.size, 8 * |m.name.text|, 0, 0)] + m.name.text
  }

  /** t_rrdb_metric_header without the magic and the version, and the name. */
  datatype Head = Head(status: nat, blocksSize: nat, lastValue: real, lastTs: int, name: Name)

  /** read_header, with its checks in order. */
  function ReadFileHeader(file: seq<Word>): Read<Head> {
    if |file| < 3 then Err(EndOfFile)
    else if !file[0].Shorts? || file[0].a != METRIC_MAGIC then Err(BadMagic)
    else if file[0].b != METRIC_VERSION then Err(BadVersion)
    else if !file[1].Double? || !file[2].Long? then Err(BadMagic)
    else
      match ReadName(file, 3)
      case Err(e) => Err(e)
      case Ok(name) => Ok(Head(file[0].c, file[0].d, file[1].v, file[2].n, name))
  }

  /** padded_string::read; the padded size is in whole words. */
  function ReadName(file: seq<Word>, at: nat): Read<Name> {
    if |file| <= at then Err(EndOfFile)
    else if !file[at].Shorts? || file[at].a >= file[at].b || file[at].b % 8 != 0 then Err(BadName)
    else
      var n := file[at].b / 8;
      if |file| < at + 1 + n then Err(EndOfFile) else Ok(Name(file[at].a, file[at + 1..at + 1 + n]))
  }

  /** load_file: the header says how many blocks there are. */
  function LoadFile(file: seq<Word>): Read<(Head, seq<Header>)> {
    match ReadFileHeader(file)
    case Err(e) => Err(e)
    case Ok(head) =>
      match LoadHeaders(file, 4 + |head.name.text|, head.blocksSize)
      case Err(e) => Err(e)
      case Ok(headers) => Ok((head, headers))
  }

  lemma {:induction false} HeadRoundTrip(file: seq<Word>, m: MetricImage)
    requires m.name.size < 8 * |m.name.text| && Holds(file, 0, FileHeader(m))
    ensures ReadFileHeader(file) == Ok(Head(m.status - m.status % 2, |m.blocks|, m.lastValue, m.lastTs, m.name))
    ensures |FileHeader(m)| == 4 + |m.name.text|
  {
    var h := FileHeader(m);
    assert forall i :: 0 <= i < |h| ==> file[i] == file[0..0 + |h|][i];
    assert file[4..4 + |m.name.text|] == m.name.text;
  }

  /** Nothing but the magic number and the version is accepted. */
  lemma {:induction false} HeadNeedsMagic(file: seq<Word>)
    ensures LoadFile(file).Ok? ==> |file| > 3 && file[0].Shorts? && file[0].a == 0xDB99 && file[0].b == 1
  {
  }

  function BlockWords(h: Header): nat { HEADER_WORDS + TUPLE_WORDS * h.count }

  /** The offset rrdb_metric::create gives to block k: each block starts where the region of the one before ends. */
  function Offset(m: MetricImage, k: nat): nat
    requires k <= |m.blocks|
  {
    if k == 0 then |FileHeader(m)| else Offset(m, k - 1) + BlockWords(m.blocks[k - 1].header)
  }

  ghost predicate Placed(m: MetricImage, n: nat)
    requires n <= |m.blocks|
  {
    n == 0 || (Placed(m, n - 1) && m.blocks[n - 1].header.offset == Offset(m, n - 1))
  }

  lemma {:induction false} PlacedAt(m: MetricImage, n: nat, k: nat)
    requires k < n <= |m.blocks| && Placed(m, n)
    ensures m.blocks[k].header.offset == Offset(m, k)
  {
    if k < n - 1 {
      PlacedAt(m, n - 1, k);
    }
  }

  ghost predicate LaidOut(m: MetricImage) {
    && m.blocks != [] && |m.dirty| == |m.blocks| && m.name.size < 8 * |m.name.text|
    && (forall k :: 0 <= k < |m.blocks| ==> Writable(m.blocks[k]))
    && (forall k :: 0 <= k < |m.blocks| ==> (IsLast(m.blocks[k].header) <==> k == |m.blocks| - 1))
    && Placed(m, |m.blocks|)
  }

  /** The regions follow one another after the header, so they are disjoint. */
  lemma {:induction false} RegionsDisjoint(m: MetricImage, i: nat, j: nat)
    requires i < j <= |m.blocks|
    ensures |FileHeader(m)| <= Offset(m, i) && Offset(m, i) + BlockWords(m.blocks[i].header) <= Offset(m, j)
    decreases j
  {
    if i + 1 < j {
      RegionsDisjoint(m, i, j - 1);
    } else if i > 0 {
      RegionsDisjoint(m, i - 1, i);
    }
  }

  ghost predicate AllSound(m: MetricImage) {
    forall i {:trigger Sound(m.blocks[i])} :: 0 <= i < |m.blocks| ==> Sound(m.blocks[i])
  }

  /** What a block writes stays in its region. */
  lemma {:induction false} WritesInRegion(b: BlockImage)
    requires Writable(b)
    ensures HEADER_WORDS < |WriteBlock(b)| <= BlockWords(b.header)
  {
  }

  function Regions(m: MetricImage): (r: seq<Region<Word>>)
    requires |m.dirty| == |m.blocks| && forall k :: 0 <= k < |m.blocks| ==> Writable(m.blocks[k])
    ensures |r| == |m.blocks|
  {
    seq(|m.blocks|, k requires 0 <= k < |m.blocks| =>
      Region(Write(m.blocks[k].header.offset, WriteBlock(m.blocks[k])), m.dirty[k]))
  }

  /** Every block is written inside its own region. */
  lemma {:induction false} RegionsInOrder(m: MetricImage)
    requires LaidOut(m)
    ensures InOrder(Write(0, FileHeader(m)), Regions(m))
  {
    forall k | 0 <= k < |m.blocks|
      ensures Regions(m)[k].write.data != [] && |FileHeader(m)| <= Regions(m)[k].write.offset
    {
      PlacedAt(m, |m.blocks|, k);
      RegionsDisjoint(m, k, k + 1);
      WritesInRegion(m.blocks[k]);
    }
    forall i, j | 0 <= i < j < |m.blocks|
      ensures Regions(m)[i].write.offset + |Regions(m)[i].write.data| <= Regions(m)[j].write.offset
    {
      PlacedAt(m, |m.blocks|, i);
      PlacedAt(m, |m.blocks|, j);
      RegionsDisjoint(m, i, j);
      WritesInRegion(m.blocks[i]);
    }
  }

  function AfterSave(b: BlockImage, dirty: bool): BlockImage {
    if dirty then b.(header := Raised(b.header)) else b
  }

  function Saved(m: MetricImage): MetricImage
    requires |m.dirty| == |m.blocks|
  {
    m.(status := Cleared(m.status),
       blocks := seq(|m.blocks|, k requires 0 <= k < |m.blocks| => AfterSave(m.blocks[k], m.dirty[k])),
       dirty := seq(|m.dirty|, _ => false))
  }

  /** rrdb_metric_block::write_block */
  method WriteDirtyBlock(b: BlockImage) returns (words: seq<Word>, after: BlockImage)
    requires Writable(b)
    ensures words == WriteBlock(b) && after == AfterSave(b, true)
  {
    var h := b.header;
    if h.maxPos < h.pos {
      h := h.(maxPos := h.pos);
    }
    words := HeaderWords(h) + SlotWords(b.slots[..DiskCount(h)]);
    after := b.(header := h);
  }

  /** rrdb_metric::save_dirty_blocks */
  method SaveDirtyBlocks(m: MetricImage) returns (writes: seq<Write<Word>>, saved: MetricImage)
    requires LaidOut(m)
    ensures writes == DirtyWrites(Write(0, FileHeader(m)), Regions(m), |m.blocks|)
    ensures saved == Saved(m)
  {
    var head := Write(0, FileHeader(m));
    writes := [head];
    var blocks: seq<BlockImage>, dirty: seq<bool> := [], [];
    for k := 0 to |m.blocks|
      invariant writes == DirtyWrites(head, Regions(m), k)
      invariant |blocks| == k && blocks == Saved(m).blocks[..k]
      invariant |dirty| == k && forall i :: 0 <= i < k ==> !dirty[i]
    {
      if m.dirty[k] {
        var words, after := WriteDirtyBlock(m.blocks[k]);
        writes := writes + [Write(m.blocks[k].header.offset, words)];
        blocks := blocks + [after];
      } else {
        blocks := blocks + [m.blocks[k]];
      }
      dirty := dirty + [false];
    }
    saved := m.(status := Cleared(m.status), blocks := blocks, dirty := dirty);
    assert dirty == Saved(m).dirty;
  }

  /** The file has the block as it was last written. */
  ghost predicate BlockOnDisk(file: seq<Word>, b: BlockImage)
    requires Writable(b)
  {
    Holds(file, b.header.offset, WriteBlock(b))
  }

  /** The file is up to date for every block that is not dirty. */
  ghost predicate CleanOnDisk(file: seq<Word>, m: MetricImage)
    requires LaidOut(m)
  {
    forall k {:trigger BlockOnDisk(file, m.blocks[k])} :: 0 <= k < |m.blocks| && !m.dirty[k] ==>
        BlockOnDisk(file, m.blocks[k])
  }

  /** After the dirty blocks are applied, every block and the header are on disk. */
  lemma {:induction false} SaveReachesDisk(file: seq<Word>, m: MetricImage, k: nat)
    requires LaidOut(m) && CleanOnDisk(file, m) && k < |m.blocks|
    ensures Holds(ApplyAll(file, DirtyWrites(Write(0, FileHeader(m)), Regions(m), |m.blocks|), HOLE), 0, FileHeader(m))
    ensures BlockOnDisk(ApplyAll(file, DirtyWrites(Write(0, FileHeader(m)), Regions(m), |m.blocks|), HOLE), m.blocks[k])
  {
    RegionsInOrder(m);
    assert !m.dirty[k] ==> BlockOnDisk(file, m.blocks[k]);
    DirtyWritesSuffice(file, Write(0, FileHeader(m)), Regions(m), k, HOLE);
  }

  /** The loop of load_file: headers one after the other, skipping the data. */
  function LoadHeaders(file: seq<Word>, at: nat, n: nat): Read<seq<Header>>
    decreases n
  {
    if n == 0 then Ok([])
    else
      match ReadHeader(file, at)
      case Err(e) => Err(e)
      case Ok(h) =>
        match LoadHeaders(file, at + HEADER_WORDS + TUPLE_WORDS * DiskCount(h), n - 1)
        case Err(e) => Err(e)
        case Ok(rest) => Ok([h] + rest)
  }

  function RaisedFrom(m: MetricImage, k: nat): seq<Header>
    requires k <= |m.blocks|
    decreases |m.blocks| - k
  {
    if k == |m.blocks| then [] else [Raised(m.blocks[k].header)] + RaisedFrom(m, k + 1)
  }

  lemma {:induction false} LoadStep(file: seq<Word>, at: nat, n: nat, h: Header, next: nat, rest: seq<Header>)
    requires ReadHeader(file, at) == Ok(h) && next == at + HEADER_WORDS + TUPLE_WORDS * DiskCount(h)
    requires LoadHeaders(file, next, n) == Ok(rest)
    ensures LoadHeaders(file, at, n + 1) == Ok([h] + rest)
  {
  }

  /**
   * Only the last block may be shorter on disk than its region, so each header is found where the next block
   * starts.
   */
  lemma {:induction false} NextHeader(m: MetricImage, k: nat)
    requires LaidOut(m) && k + 1 < |m.blocks|
    ensures Offset(m, k + 1) == Offset(m, k) + HEADER_WORDS + TUPLE_WORDS * DiskCount(Raised(m.blocks[k].header))
  {
  }

  /** read_block accepts the headers of the n blocks from the k-th on. */
  ghost predicate HeadersOnDisk(file: seq<Word>, m: MetricImage, k: nat, n: nat)
    requires k + n <= |m.blocks|
    decreases n
  {
    n == 0 || (ReadHeader(file, Offset(m, k)) == Ok(Raised(m.blocks[k].header)) && HeadersOnDisk(file, m, k + 1, n - 1))
  }

  lemma {:induction false} HeaderAt(file: seq<Word>, b: BlockImage)
    requires Sound(b) && BlockOnDisk(file, b)
    ensures ReadHeader(file, b.header.offset) == Ok(Raised(b.header))
  {
    BlockRoundTrip(file, b);
  }

  /** Every block and its header can be found. */
  ghost predicate AllFound(file: seq<Word>, m: MetricImage) {
    forall k {:trigger Offset(m, k)} :: 0 <= k < |m.blocks| ==>
        ReadHeader(file, Offset(m, k)) == Ok(Raised(m.blocks[k].header))
  }

  lemma {:induction false} WrittenHeadersOnDisk(file: seq<Word>, m: MetricImage)
    requires LaidOut(m)
    requires AllSound(m)
    requires forall i {:trigger BlockOnDisk(file, m.blocks[i])} :: 0 <= i < |m.blocks| ==>
               BlockOnDisk(file, m.blocks[i])
    ensures AllFound(file, m)
  {
    forall k | 0 <= k < |m.blocks|
      ensures ReadHeader(file, Offset(m, k)) == Ok(Raised(m.blocks[k].header))
    {
      assert Sound(m.blocks[k]) && BlockOnDisk(file, m.blocks[k]);
      HeaderOnDisk(file, m, k);
    }
  }

  lemma {:induction false} HeadersFrom(file: seq<Word>, m: MetricImage, k: nat, n: nat)
    requires k + n == |m.blocks| && AllFound(file, m)
    ensures HeadersOnDisk(file, m, k, n)
    decreases n
  {
    if n > 0 {
      HeadersFrom(file, m, k + 1, n - 1);
      assert ReadHeader(file, Offset(m, k)) == Ok(Raised(m.blocks[k].header));
    }
  }

  lemma {:induction false} HeaderOnDisk(file: seq<Word>, m: MetricImage, k: nat)
    requires LaidOut(m) && k < |m.blocks| && Sound(m.blocks[k]) && BlockOnDisk(file, m.blocks[k])
    ensures ReadHeader(file, Offset(m, k)) == Ok(Raised(m.blocks[k].header))
  {
    PlacedAt(m, |m.blocks|, k);
    HeaderAt(file, m.blocks[k]);
  }

  lemma {:induction false} HeadersLoad(file: seq<Word>, m: MetricImage, k: nat, n: nat)
    requires LaidOut(m) && k + n + 1 == |m.blocks| && HeadersOnDisk(file, m, k, n + 1)
    ensures LoadHeaders(file, Offset(m, k), n + 1) == Ok(RaisedFrom(m, k))
    decreases n
  {
    var h := Raised(m.blocks[k].header);
    if n == 0 {
      LoadStep(file, Offset(m, k), n, h, Offset(m, k) + HEADER_WORDS + TUPLE_WORDS * DiskCount(h), []);
      assert RaisedFrom(m, k + 1) == [];
    } else {
      HeadersLoad(file, m, k + 1, n - 1);
      NextHeader(m, k);
      LoadStep(file, Offset(m, k), n, h, Offset(m, k + 1), RaisedFrom(m, k + 1));
    }
  }

  lemma {:induction false} RaisedAt(m: MetricImage, k: nat)
    requires k <= |m.blocks|
    ensures |RaisedFrom(m, k)| == |m.blocks| - k
    ensures forall i :: 0 <= i < |m.blocks| - k ==> RaisedFrom(m, k)[i] == Raised(m.blocks[k + i].header)
    decreases |m.blocks| - k
  {
    if k < |m.blocks| {
      RaisedAt(m, k + 1);
    }
  }

  /**
   * load_file gives back the fields of the metric's header, with Status_Dirty cleared, and the headers of all
   * blocks as they are in memory, with max_pos raised to pos.
   */
  ghost predicate FileLoads(file: seq<Word>, m: MetricImage) {
    && LoadFile(file).Ok?
    && var (head, headers) := LoadFile(file).value;
      && head == Head(m.status - m.status % 2, |m.blocks|, m.lastValue, m.lastTs, m.name)
      && |headers| == |m.blocks|
      && forall k :: 0 <= k < |m.blocks| ==>
           headers[k] == m.blocks[k].header.(maxPos := Max(m.blocks[k].header.maxPos, m.blocks[k].header.pos))
  }

  lemma {:induction false} AllHeadersLoad(file: seq<Word>, m: MetricImage)
    requires LaidOut(m)
    requires AllSound(m) && Holds(file, 0, FileHeader(m))
    requires forall i {:trigger BlockOnDisk(file, m.blocks[i])} :: 0 <= i < |m.blocks| ==>
               BlockOnDisk(file, m.blocks[i])
    ensures FileLoads(file, m)
  {
    WrittenHeadersOnDisk(file, m);
    HeadersFrom(file, m, 0, |m.blocks|);
    HeadersLoad(file, m, 0, |m.blocks| - 1);
    HeadRoundTrip(file, m);
    HeadThenHeaders(file, m);
  }

  lemma {:induction false} HeadThenHeaders(file: seq<Word>, m: MetricImage)
    requires ReadFileHeader(file) == Ok(Head(m.status - m.status % 2, |m.blocks|, m.lastValue, m.lastTs, m.name))
    requires LoadHeaders(file, 4 + |m.name.text|, |m.blocks|) == Ok(RaisedFrom(m, 0))
    ensures FileLoads(file, m)
  {
    RaisedAt(m, 0);
  }

  /**
   * Incremental save: writing the header and the dirty blocks through the journal onto a file
   * that is up to date for the clean blocks gives a file from which the metric loads: all header
   * checks pass, the headers are the ones in memory, and every block's slots come back unchanged,
   * except for the last block if and only if it has data above max_pos and pos.
   */
  lemma {:induction false} IncrementalSaveSound(file: seq<Word>, m: MetricImage, k: nat, after: seq<Word>)
    requires LaidOut(m) && CleanOnDisk(file, m) && k < |m.blocks|
    requires AllSound(m)
    requires after == ApplyAll(file, DirtyWrites(Write(0, FileHeader(m)), Regions(m), |m.blocks|), HOLE)
    ensures Holds(after, 0, FileHeader(m))
    ensures FileLoads(after, m)
    ensures ReadData(after, Raised(m.blocks[k].header)).Ok?
    ensures ReadData(after, Raised(m.blocks[k].header)) == Ok(m.blocks[k].slots)
            <==> (k < |m.blocks| - 1 || ZeroTail(m.blocks[k]))
  {
    AllReachDisk(file, m, after);
    AllHeadersLoad(after, m);
    assert Sound(m.blocks[k]) && BlockOnDisk(after, m.blocks[k]);
    DataLoads(after, m, k);
  }

  lemma {:induction false} DataLoads(file: seq<Word>, m: MetricImage, k: nat)
    requires LaidOut(m) && k < |m.blocks| && Sound(m.blocks[k]) && BlockOnDisk(file, m.blocks[k])
    ensures ReadData(file, Raised(m.blocks[k].header)).Ok?
    ensures ReadData(file, Raised(m.blocks[k].header)) == Ok(m.blocks[k].slots)
            <==> (k < |m.blocks| - 1 || ZeroTail(m.blocks[k]))
  {
    BlockRoundTrip(file, m.blocks[k]);
  }

  lemma {:induction false} AllReachDisk(file: seq<Word>, m: MetricImage, after: seq<Word>)
    requires LaidOut(m) && CleanOnDisk(file, m)
    requires after == ApplyAll(file, DirtyWrites(Write(0, FileHeader(m)), Regions(m), |m.blocks|), HOLE)
    ensures Holds(after, 0, FileHeader(m))
    ensures forall i {:trigger BlockOnDisk(after, m.blocks[i])} :: 0 <= i < |m.blocks| ==>
              BlockOnDisk(after, m.blocks[i])
  {
    SaveReachesDisk(file, m, 0);
    forall i | 0 <= i < |m.blocks|
      ensures BlockOnDisk(after, m.blocks[i])
    {
      SaveReachesDisk(file, m, i);
    }
  }

  /**
   * After a save the metric is laid out as before and the file is up to date for all of its blocks: the next
   * save can rely on it.
   */
  lemma {:induction false} SaveKeepsClean(file: seq<Word>, m: MetricImage, after: seq<Word>)
    requires LaidOut(m) && CleanOnDisk(file, m)
    requires after == ApplyAll(file, DirtyWrites(Write(0, FileHeader(m)), Regions(m), |m.blocks|), HOLE)
    ensures LaidOut(Saved(m)) && CleanOnDisk(after, Saved(m))
  {
    SavedLaidOut(m);
    forall k | 0 <= k < |m.blocks|
      ensures BlockOnDisk(after, Saved(m).blocks[k])
    {
      SaveReachesDisk(file, m, k);
      SavedWritesTheSame(m.blocks[k], m.dirty[k]);
    }
  }

  lemma {:induction false} SavedWritesTheSame(b: BlockImage, dirty: bool)
    requires Writable(b)
    ensures Writable(AfterSave(b, dirty)) && WriteBlock(AfterSave(b, dirty)) == WriteBlock(b)
    ensures AfterSave(b, dirty).header.offset == b.header.offset
  {
  }

  lemma {:induction false} SavedLaidOut(m: MetricImage)
    requires LaidOut(m)
    ensures LaidOut(Saved(m))
  {
    SavedPlaced(m, |m.blocks|);
  }

  lemma {:induction false} SavedPlaced(m: MetricImage, n: nat)
    requires |m.dirty| == |m.blocks| && n <= |m.blocks| && Placed(m, n)
    ensures Placed(Saved(m), n) && Offset(Saved(m), n) == Offset(m, n)
  {
    if n > 0 {
      SavedPlaced(m, n - 1);
    }
  }
}
