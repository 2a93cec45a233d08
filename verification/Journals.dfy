/**
 * The journal of one metric file: its buffer in memory and its byte format on disk
 * (src/rrdb/rrdb_journal_file.cpp, src/common/utils.cpp:24-75). Integers are little-endian; the
 * bytes the source leaves uninitialised in a block header are written as 0.
 */
module Journals {
  import opened Options
  import opened Sequences
  import opened Files

  type Byte = b: int | 0 <= b < 256

  const FILE_MAGIC := 0xDA99
  const BLOCK_MAGIC := 0xDA66
  const VERSION := 1
  const PAD_BYTES := 8

  // ---------- Integers

  function Pow256(k: nat): nat { if k == 0 then 1 else 256 * Pow256(k - 1) }

  /** The k low bytes of n; higher bytes are cut off. */
  function ToBytes(n: nat, k: nat): (s: seq<Byte>)
    ensures |s| == k
  {
    if k == 0 then [] else [n % 256] + ToBytes(n / 256, k - 1)
  }

  function FromBytes(s: seq<Byte>): (n: nat)
    ensures n < Pow256(|s|)
  {
    if s == [] then 0 else s[0] + 256 * FromBytes(s[1..])
  }

  lemma {:induction false} BytesRoundTrip(n: nat, k: nat)
    requires n < Pow256(k)
    ensures FromBytes(ToBytes(n, k)) == n
  {
    if k > 0 {
      BytesRoundTrip(n / 256, k - 1);
      assert ToBytes(n, k)[1..] == ToBytes(n / 256, k - 1);
    }
  }

  const MAX16 := 0x1_0000
  const MAX64 := 0x1_0000_0000_0000_0000

  lemma {:induction false} Widths()
    ensures Pow256(2) == MAX16 && Pow256(8) == MAX64
  {
  }

  // ---------- The journal in memory

  /** padded_string: size characters, then zeros up to a multiple of 8 and at least one of them. */
  datatype PaddedString = PaddedString(buf: seq<Byte>, size: nat)

  function PaddedSize(size: nat): nat { size + (PAD_BYTES - size % PAD_BYTES) }

  /** padded_string::reset */
  function Padded(text: seq<Byte>): PaddedString {
    PaddedString(text + Filled(PaddedSize(|text|) - |text|, 0), |text|)
  }

  const NO_NAME := PaddedString([], 0)

  datatype BlockHeader = BlockHeader(realOffset: nat, journalOffset: nat, size: nat)

  datatype Journal = Journal(name: PaddedString, data: seq<Byte>, blocks: seq<BlockHeader>)

  const EMPTY := Journal(NO_NAME, [], [])

  /** The blocks cover [from, to) of the data, one after the other. */
  ghost predicate Contiguous(blocks: seq<BlockHeader>, from: nat, to: nat) {
    if blocks == [] then from == to
    else
      && blocks[0].journalOffset == from && 0 < blocks[0].size && blocks[0].realOffset < MAX64
      && from + blocks[0].size <= to
      && Contiguous(blocks[1..], from + blocks[0].size, to)
  }

  /** What a sequence of begin_file, write, add_block and end_file calls with matching sizes leaves. */
  ghost predicate WellFormed(j: Journal) {
    && (exists text :: text != [] && j.name == Padded(text))
    && j.blocks != [] && |j.data| < MAX64 && Contiguous(j.blocks, 0, |j.data|)
  }

  function BlockData(data: seq<Byte>, b: BlockHeader): seq<Byte>
    requires b.journalOffset + b.size <= |data|
  {
    data[b.journalOffset..b.journalOffset + b.size]
  }

  ghost predicate InData(j: Journal) {
    forall i :: 0 <= i < |j.blocks| ==> j.blocks[i].journalOffset + j.blocks[i].size <= |j.data|
  }

  /** The writes apply_journal performs. */
  function Writes(j: Journal): seq<Write<Byte>>
    requires InData(j)
  {
    seq(|j.blocks|, i requires 0 <= i < |j.blocks| => Write(j.blocks[i].realOffset, BlockData(j.data, j.blocks[i])))
  }

  // ---------- The journal on disk

  function EncodeHeader(n: nat): (s: seq<Byte>)
    ensures |s| == 8
  {
    ToBytes(FILE_MAGIC, 2) + ToBytes(VERSION, 2) + ToBytes(0, 2) + ToBytes(n, 2)
  }

  /** padded_string::write */
  function EncodeName(name: PaddedString): (s: seq<Byte>)
    ensures |s| == 8 + |name.buf|
  {
    ToBytes(name.size, 2) + ToBytes(|name.buf|, 2) + ToBytes(0, 4) + name.buf
  }

  function EncodeBlockHeader(b: BlockHeader): (s: seq<Byte>)
    ensures |s| == 32
  {
    ToBytes(BLOCK_MAGIC, 2) + ToBytes(0, 6) + ToBytes(b.realOffset, 8) + ToBytes(b.journalOffset, 8)
        + ToBytes(b.size, 8)
  }

  function EncodeBlocks(data: seq<Byte>, blocks: seq<BlockHeader>): seq<Byte>
    requires forall i :: 0 <= i < |blocks| ==> blocks[i].journalOffset + blocks[i].size <= |data|
  {
    if blocks == [] then []
    else EncodeBlockHeader(blocks[0]) + BlockData(data, blocks[0]) + EncodeBlocks(data, blocks[1..])
  }

  /** What save_journal_file writes. */
  function Encode(j: Journal): seq<Byte>
    requires InData(j)
  {
    EncodeHeader(|j.blocks|) + EncodeName(j.name) + EncodeBlocks(j.data, j.blocks)
  }

  function Field(file: seq<Byte>, at: nat, k: nat): nat
    requires at + k <= |file|
  {
    FromBytes(file[at..at + k])
  }

  /** padded_string::read; None stands for a failed check or a read past the end. */
  function DecodeName(file: seq<Byte>, at: nat): Option<PaddedString> {
    if |file| < at + 8 then None
    else
      var size, padded := Field(file, at, 2), Field(file, at + 2, 2);
      if size >= padded || |file| < at + 8 + padded then None
      else Some(PaddedString(file[at + 8..at + 8 + padded], size))
  }

  /** The loop of load_journal_file for the n blocks at position at, with what was read before. */
  function DecodeBlocks(file: seq<Byte>, at: nat, n: nat, data: seq<Byte>,
                        blocks: seq<BlockHeader>): Option<(seq<Byte>, seq<BlockHeader>)>
    decreases n
  {
    if n == 0 then Some((data, blocks))
    else if |file| < at + 32 then None
    else if Field(file, at, 2) != BLOCK_MAGIC || Field(file, at + 16, 8) != |data| then None
    else
      var b := BlockHeader(Field(file, at + 8, 8), Field(file, at + 16, 8), Field(file, at + 24, 8));
      if |file| < at + 32 + b.size then None
      else DecodeBlocks(file, at + 32 + b.size, n - 1, data + file[at + 32..at + 32 + b.size], blocks + [b])
  }

  /** What load_journal_file reads. */
  function Decode(file: seq<Byte>): Option<Journal> {
    if |file| < 8 then None
    else if Field(file, 0, 2) != FILE_MAGIC || Field(file, 2, 2) != VERSION || Field(file, 4, 2) != 0
        || Field(file, 6, 2) == 0
    then None
    else
      match DecodeName(file, 8)
      case None => None
      case Some(name) =>
        match DecodeBlocks(file, 16 + |name.buf|, Field(file, 6, 2), [], [])
        case None => None
        case Some((data, blocks)) => Some(Journal(name, data, blocks))
  }

  // ---------- Round trip

  lemma {:induction false} FieldIs(file: seq<Byte>, at: nat, n: nat, k: nat)
    requires at + k <= |file| && file[at..at + k] == ToBytes(n, k)
    ensures n < Pow256(k) ==> Field(file, at, k) == n
    ensures Field(file, at, k) < Pow256(k)
  {
    if n < Pow256(k) {
      BytesRoundTrip(n, k);
    }
  }

  lemma {:induction false} BlockHeaderFields(file: seq<Byte>, at: nat, b: BlockHeader)
    requires Holds(file, at, EncodeBlockHeader(b))
    requires b.realOffset < MAX64 && b.journalOffset < MAX64 && b.size < MAX64
    ensures Field(file, at, 2) == BLOCK_MAGIC
    ensures Field(file, at + 8, 8) == b.realOffset && Field(file, at + 16, 8) == b.journalOffset
    ensures Field(file, at + 24, 8) == b.size
  {
    Widths();
    var m, z, r, j, s := ToBytes(BLOCK_MAGIC, 2), ToBytes(0, 6), ToBytes(b.realOffset, 8),
        ToBytes(b.journalOffset, 8), ToBytes(b.size, 8);
    HoldsParts(file, at, m + z + r + j, s);
    HoldsParts(file, at, m + z + r, j);
    HoldsParts(file, at, m + z, r);
    HoldsParts(file, at, m, z);
    FieldIs(file, at, BLOCK_MAGIC, 2);
    FieldIs(file, at + 8, b.realOffset, 8);
    FieldIs(file, at + 16, b.journalOffset, 8);
    FieldIs(file, at + 24, b.size, 8);
  }

  lemma {:induction false} ContiguousInData(blocks: seq<BlockHeader>, from: nat, to: nat)
    requires Contiguous(blocks, from, to)
    ensures from <= to
    ensures forall i :: 0 <= i < |blocks| ==> blocks[i].journalOffset + blocks[i].size <= to
    decreases |blocks|
  {
    if blocks != [] {
      ContiguousInData(blocks[1..], from + blocks[0].size, to);
      forall i | 0 <= i < |blocks|
        ensures blocks[i].journalOffset + blocks[i].size <= to
      {
        if i > 0 {
          assert blocks[i] == blocks[1..][i - 1];
        }
      }
    }
  }

  /** The file has block b, with its data, at position at. */
  ghost predicate BlockAt(file: seq<Byte>, at: nat, data: seq<Byte>, b: BlockHeader) {
    && b.journalOffset + b.size <= |data| && at + 32 + b.size <= |file|
    && Field(file, at, 2) == BLOCK_MAGIC && Field(file, at + 8, 8) == b.realOffset
    && Field(file, at + 16, 8) == b.journalOffset && Field(file, at + 24, 8) == b.size
    && file[at + 32..at + 32 + b.size] == BlockData(data, b)
  }

  /** The file has the blocks, which continue the data from the given point, one after the other. */
  ghost predicate BlocksAt(file: seq<Byte>, at: nat, data: seq<Byte>, blocks: seq<BlockHeader>, from: nat)
    decreases |blocks|
  {
    if blocks == [] then from == |data|
    else
      && blocks[0].journalOffset == from && BlockAt(file, at, data, blocks[0])
      && BlocksAt(file, at + 32 + blocks[0].size, data, blocks[1..], from + blocks[0].size)
  }

  lemma {:induction false} FirstEncodedBlock(file: seq<Byte>, at: nat, data: seq<Byte>, blocks: seq<BlockHeader>)
    requires blocks != [] && |data| < MAX64 && blocks[0].realOffset < MAX64
    requires forall i :: 0 <= i < |blocks| ==> blocks[i].journalOffset + blocks[i].size <= |data|
    requires Holds(file, at, EncodeBlocks(data, blocks))
    ensures BlockAt(file, at, data, blocks[0])
    ensures Holds(file, at + 32 + blocks[0].size, EncodeBlocks(data, blocks[1..]))
  {
    var b := blocks[0];
    HoldsParts(file, at, EncodeBlockHeader(b) + BlockData(data, b), EncodeBlocks(data, blocks[1..]));
    HoldsParts(file, at, EncodeBlockHeader(b), BlockData(data, b));
    BlockHeaderFields(file, at, b);
  }

  lemma {:induction false} EncodedBlocksAt(file: seq<Byte>, at: nat, data: seq<Byte>, blocks: seq<BlockHeader>,
                                           from: nat)
    requires |data| < MAX64 && Contiguous(blocks, from, |data|)
    requires forall i :: 0 <= i < |blocks| ==> blocks[i].journalOffset + blocks[i].size <= |data|
    requires Holds(file, at, EncodeBlocks(data, blocks))
    ensures BlocksAt(file, at, data, blocks, from)
    decreases |blocks|
  {
    if blocks != [] {
      var b, rest := blocks[0], blocks[1..];
      FirstEncodedBlock(file, at, data, blocks);
      assert forall i :: 0 <= i < |rest| ==> rest[i] == blocks[i + 1];
      EncodedBlocksAt(file, at + 32 + b.size, data, rest, from + b.size);
    }
  }

  lemma {:induction false} DecodeBlocksAt(file: seq<Byte>, at: nat, data: seq<Byte>, blocks: seq<BlockHeader>,
                                          got: seq<Byte>, before: seq<BlockHeader>)
    requires got <= data && BlocksAt(file, at, data, blocks, |got|)
    ensures DecodeBlocks(file, at, |blocks|, got, before) == Some((data, before + blocks))
    decreases |blocks|
  {
    if blocks == [] {
      assert got == data && before + blocks == before;
    } else {
      var b := blocks[0];
      assert got + BlockData(data, b) <= data;
      DecodeBlocksAt(file, at + 32 + b.size, data, blocks[1..], got + BlockData(data, b), before + [b]);
      assert (before + [b]) + blocks[1..] == before + blocks;
    }
  }

  lemma {:induction false} NameRoundTrip(file: seq<Byte>, at: nat, name: PaddedString)
    requires Holds(file, at, EncodeName(name)) && name.size < |name.buf| < MAX16
    ensures DecodeName(file, at) == Some(name)
  {
    NameFields(file, at, name.size, |name.buf|, name.buf);
  }

  lemma {:induction false} NameFields(file: seq<Byte>, at: nat, size: nat, padded: nat, buf: seq<Byte>)
    requires Holds(file, at, ToBytes(size, 2) + ToBytes(padded, 2) + ToBytes(0, 4) + buf) && size < MAX16
             && padded < MAX16
    ensures at + 8 + |buf| <= |file| && Field(file, at, 2) == size && Field(file, at + 2, 2) == padded
    ensures file[at + 8..at + 8 + |buf|] == buf
  {
    Widths();
    var a, b, z := ToBytes(size, 2), ToBytes(padded, 2), ToBytes(0, 4);
    HoldsParts(file, at, a + b + z, buf);
    HoldsParts(file, at, a + b, z);
    HoldsParts(file, at, a, b);
    FieldIs(file, at, size, 2);
    FieldIs(file, at + 2, padded, 2);
  }

  lemma {:induction false} HeaderFields(file: seq<Byte>, n: nat)
    requires Holds(file, 0, EncodeHeader(n))
    ensures Field(file, 0, 2) == FILE_MAGIC && Field(file, 2, 2) == VERSION && Field(file, 4, 2) == 0
    ensures n < MAX16 ==> Field(file, 6, 2) == n
    ensures Field(file, 6, 2) < MAX16
  {
    Widths();
    var m, v, s, c := ToBytes(FILE_MAGIC, 2), ToBytes(VERSION, 2), ToBytes(0, 2), ToBytes(n, 2);
    HoldsParts(file, 0, m + v + s, c);
    HoldsParts(file, 0, m + v, s);
    HoldsParts(file, 0, m, v);
    FieldIs(file, 0, FILE_MAGIC, 2);
    FieldIs(file, 2, VERSION, 2);
    FieldIs(file, 4, 0, 2);
    FieldIs(file, 6, n, 2);
  }

  ghost predicate Fits(j: Journal) {
    |j.blocks| < MAX16 && |j.name.buf| < MAX16
  }

  lemma {:induction false} WellFormedFacts(j: Journal)
    requires WellFormed(j)
    ensures InData(j) && j.name.size < |j.name.buf| && j.name.size > 0
    ensures |j.name.buf| < MAX16 <==> j.name.size < MAX16 - PAD_BYTES
  {
    ContiguousInData(j.blocks, 0, |j.data|);
  }

  /** What is loaded always fits the 16-bit counters of the format. */
  lemma {:induction false} DecodedFits(file: seq<Byte>)
    ensures Decode(file).Some? ==> Fits(Decode(file).value)
  {
    Widths();
    if Decode(file).Some? {
      var name := DecodeName(file, 8).value;
      DecodedCount(file, 16 + |name.buf|, Field(file, 6, 2), [], []);
    }
  }

  lemma {:induction false} DecodedCount(file: seq<Byte>, at: nat, n: nat, data: seq<Byte>, blocks: seq<BlockHeader>)
    ensures var r := DecodeBlocks(file, at, n, data, blocks); r.Some? ==> |r.value.1| == |blocks| + n
    decreases n
  {
    if n > 0 && |file| >= at + 32 {
      var b := BlockHeader(Field(file, at + 8, 8), Field(file, at + 16, 8), Field(file, at + 24, 8));
      if |file| >= at + 32 + b.size {
        DecodedCount(file, at + 32 + b.size, n - 1, data + file[at + 32..at + 32 + b.size], blocks + [b]);
      }
    }
  }

  /** Overwriting from the start leaves the new bytes followed by what the old file had beyond them. */
  lemma {:induction false} OverwriteHolds(stale: seq<Byte>, s: seq<Byte>)
    requires s != []
    ensures Holds(WriteAt(stale, Write(0, s), 0), 0, s)
  {
  }

  /**
   * Journal round trip: saving over any older journal, longer or shorter, and loading gives the
   * same file name, blocks and data if and only if the number of blocks is below 65536 and the
   * name is shorter than 65528 bytes; beyond that the 16-bit counters of the format wrap around.
   */
  lemma {:induction false} JournalRoundTrip(stale: seq<Byte>, j: Journal)
    requires WellFormed(j)
    ensures InData(j)
    ensures Decode(WriteAt(stale, Write(0, Encode(j)), 0)) == Some(j)
            <==> (|j.blocks| < MAX16 && j.name.size < MAX16 - PAD_BYTES)
  {
    WellFormedFacts(j);
    var file := WriteAt(stale, Write(0, Encode(j)), 0);
    OverwriteHolds(stale, Encode(j));
    if Fits(j) {
      EncodedJournalAt(file, j);
      JournalAtLoads(file, j);
    } else {
      DecodedFits(file);
    }
  }

  /** The file has the journal, as the loader looks for it. */
  ghost predicate JournalAt(file: seq<Byte>, j: Journal) {
    && |file| >= 8
    && Field(file, 0, 2) == FILE_MAGIC && Field(file, 2, 2) == VERSION && Field(file, 4, 2) == 0
    && Field(file, 6, 2) == |j.blocks| && DecodeName(file, 8) == Some(j.name)
    && BlocksAt(file, 16 + |j.name.buf|, j.data, j.blocks, 0)
  }

  lemma {:induction false} EncodedJournalAt(file: seq<Byte>, j: Journal)
    requires WellFormed(j) && Fits(j) && InData(j) && Holds(file, 0, Encode(j))
    ensures JournalAt(file, j)
  {
    HeaderSection(file, j);
    NameSection(file, j);
    BlocksSection(file, j);
  }

  lemma {:induction false} HeaderSection(file: seq<Byte>, j: Journal)
    requires InData(j) && Fits(j) && Holds(file, 0, Encode(j))
    ensures |file| >= 8
    ensures Field(file, 0, 2) == FILE_MAGIC && Field(file, 2, 2) == VERSION && Field(file, 4, 2) == 0
    ensures Field(file, 6, 2) == |j.blocks|
  {
    Sections(file, j);
    HeaderFields(file, |j.blocks|);
  }

  lemma {:induction false} NameSection(file: seq<Byte>, j: Journal)
    requires WellFormed(j) && Fits(j) && InData(j) && Holds(file, 0, Encode(j))
    ensures DecodeName(file, 8) == Some(j.name)
  {
    Sections(file, j);
    WellFormedFacts(j);
    NameRoundTrip(file, 8, j.name);
  }

  lemma {:induction false} BlocksSection(file: seq<Byte>, j: Journal)
    requires |j.data| < MAX64 && Contiguous(j.blocks, 0, |j.data|) && InData(j) && Holds(file, 0, Encode(j))
    ensures BlocksAt(file, 16 + |j.name.buf|, j.data, j.blocks, 0)
  {
    Sections(file, j);
    EncodedBlocksAt(file, 16 + |j.name.buf|, j.data, j.blocks, 0);
  }

  lemma {:induction false} Sections(file: seq<Byte>, j: Journal)
    requires InData(j) && Holds(file, 0, Encode(j))
    ensures Holds(file, 0, EncodeHeader(|j.blocks|)) && Holds(file, 8, EncodeName(j.name))
    ensures Holds(file, 16 + |j.name.buf|, EncodeBlocks(j.data, j.blocks))
  {
    ThreeParts(file, EncodeHeader(|j.blocks|), EncodeName(j.name), EncodeBlocks(j.data, j.blocks));
  }

  lemma {:induction false} ThreeParts(file: seq<Byte>, a: seq<Byte>, b: seq<Byte>, c: seq<Byte>)
    requires Holds(file, 0, a + b + c)
    ensures Holds(file, 0, a) && Holds(file, |a|, b) && Holds(file, |a| + |b|, c)
  {
  }

  lemma {:induction false} JournalAtLoads(file: seq<Byte>, j: Journal)
    requires JournalAt(file, j) && j.blocks != []
    ensures Decode(file) == Some(j)
  {
    DecodeBlocksAt(file, 16 + |j.name.buf|, j.data, j.blocks, [], []);
    assert [] + j.blocks == j.blocks;
  }

  /** What was read after got and before are more blocks, which lie one after the other from position at. */
  ghost predicate Found(file: seq<Byte>, at: nat, got: seq<Byte>, before: seq<BlockHeader>,
                        read: (seq<Byte>, seq<BlockHeader>), more: seq<BlockHeader>)
  {
    got <= read.0 && read.1 == before + more && BlocksAt(file, at, read.0, more, |got|)
  }

  /** Whatever blocks are read lie one after the other, each with its magic number and at the offset it names. */
  lemma {:induction false} BlocksFound(file: seq<Byte>, at: nat, n: nat, got: seq<Byte>, before: seq<BlockHeader>)
    returns (more: seq<BlockHeader>)
    requires DecodeBlocks(file, at, n, got, before).Some?
    ensures |more| == n && Found(file, at, got, before, DecodeBlocks(file, at, n, got, before).value, more)
    decreases n
  {
    if n == 0 {
      more := [];
    } else {
      var b := DecodeStep(file, at, n, got, before);
      var chunk := file[at + 32..at + 32 + b.size];
      var rest := BlocksFound(file, at + 32 + b.size, n - 1, got + chunk, before + [b]);
      more := FoundNext(file, at, got, before, b, DecodeBlocks(file, at, n, got, before).value, rest);
    }
  }

  lemma {:induction false} FoundNext(file: seq<Byte>, at: nat, got: seq<Byte>, before: seq<BlockHeader>, b: BlockHeader,
                                     read: (seq<Byte>, seq<BlockHeader>), rest: seq<BlockHeader>)
    returns (more: seq<BlockHeader>)
    requires at + 32 + b.size <= |file| && HeaderAt(file, at, b) && b.journalOffset == |got|
    requires Found(file, at + 32 + b.size, got + file[at + 32..at + 32 + b.size], before + [b], read, rest)
    ensures |more| == |rest| + 1 && Found(file, at, got, before, read, more)
  {
    more := Attached(before, b, rest);
    ChunkThere(file, at, got, b, read.0);
  }

  lemma {:induction false} Attached(before: seq<BlockHeader>, b: BlockHeader, rest: seq<BlockHeader>)
      returns (more: seq<BlockHeader>)
    ensures |more| == |rest| + 1 && more[0] == b && more[1..] == rest && before + more == (before + [b]) + rest
  {
    more := [b] + rest;
  }

  /** One turn of the loop that does not fail. */
  lemma {:induction false} DecodeStep(file: seq<Byte>, at: nat, n: nat, got: seq<Byte>, before: seq<BlockHeader>)
    returns (b: BlockHeader)
    requires n > 0 && DecodeBlocks(file, at, n, got, before).Some?
    ensures at + 32 + b.size <= |file| && HeaderAt(file, at, b) && b.journalOffset == |got|
    ensures DecodeBlocks(file, at, n, got, before)
         == DecodeBlocks(file, at + 32 + b.size, n - 1, got + file[at + 32..at + 32 + b.size], before + [b])
  {
    b := BlockHeader(Field(file, at + 8, 8), Field(file, at + 16, 8), Field(file, at + 24, 8));
  }

  ghost predicate HeaderAt(file: seq<Byte>, at: nat, b: BlockHeader) {
    && at + 32 <= |file| && Field(file, at, 2) == BLOCK_MAGIC && Field(file, at + 8, 8) == b.realOffset
    && Field(file, at + 16, 8) == b.journalOffset && Field(file, at + 24, 8) == b.size
  }

  lemma {:induction false} ChunkThere(file: seq<Byte>, at: nat, got: seq<Byte>, b: BlockHeader, data: seq<Byte>)
    requires at + 32 + b.size <= |file| && HeaderAt(file, at, b) && b.journalOffset == |got|
    requires got + file[at + 32..at + 32 + b.size] <= data
    ensures got <= data && BlockAt(file, at, data, b)
  {
    var chunk := file[at + 32..at + 32 + b.size];
    assert data[|got|..|got| + |chunk|] == (got + chunk)[|got|..] == chunk;
  }

  /**
   * load_journal_file succeeds exactly on files that have a journal, with all magic numbers, counts and offsets
   * in place.
   */
  lemma {:induction false} LoadsIff(file: seq<Byte>, j: Journal)
    ensures Decode(file) == Some(j) <==> JournalAt(file, j) && j.blocks != []
  {
    if Decode(file) == Some(j) {
      var more := BlocksFound(file, 16 + |j.name.buf|, Field(file, 6, 2), [], []);
      assert [] + more == more;
    } else if JournalAt(file, j) && j.blocks != [] {
      JournalAtLoads(file, j);
    }
  }

  // ---------- The operations

  class JournalFile {
    var name: PaddedString
    var data: seq<Byte>
    var blocks: seq<BlockHeader>

    function Value(): Journal
      reads this
    {
      Journal(name, data, blocks)
    }

    constructor ()
      ensures Value() == EMPTY
    {
      name, data, blocks := NO_NAME, [], [];
    }

    /** clear */
    method Clear()
      modifies this
      ensures Value() == EMPTY
    {
      name, data, blocks := NO_NAME, [], [];
    }

    /** begin_file: fails unless the buffer is clear, and then changes nothing. */
    method BeginFile(text: seq<Byte>) returns (ok: bool)
      modifies this
      ensures ok <==> text != [] && old(name.size == 0 && data == [] && blocks == [])
      ensures Value() == if ok then Journal(Padded(text), [], []) else old(Value())
    {
      if text == [] || name.size != 0 || data != [] || blocks != [] {
        return false;
      }
      name := Padded(text);
      return true;
    }

    /** Writing to the stream that begin_file returns. */
    method Put(bytes: seq<Byte>)
      modifies this`data
      ensures data == old(data) + bytes
    {
      data := data + bytes;
    }

    /** add_block: the new block starts where the last one ends. */
    method AddBlock(offset: nat, size: nat) returns (ok: bool)
      modifies this`blocks
      ensures ok <==> name.size != 0 && size > 0
      ensures blocks == if ok then old(blocks) + [BlockHeader(offset, EndOf(old(blocks)), size)] else old(blocks)
    {
      if name.size == 0 || size == 0 {
        return false;
      }
      var journalOffset := 0;
      if blocks != [] {
        journalOffset := blocks[|blocks| - 1].journalOffset + blocks[|blocks| - 1].size;
      }
      blocks := blocks + [BlockHeader(offset, journalOffset, size)];
      return true;
    }

    /** apply_journal */
    method Apply(file: seq<Byte>) returns (r: seq<Byte>)
      requires InData(Value())
      ensures r == ApplyAll(file, Writes(Value()), 0)
    {
      r := file;
      ghost var writes := Writes(Value());
      for i := 0 to |blocks|
        invariant ApplyAll(r, writes[i..], 0) == ApplyAll(file, writes, 0)
      {
        var b := blocks[i];
        assert writes[i..][0] == Write(b.realOffset, BlockData(data, b)) && writes[i..][1..] == writes[i + 1..];
        r := WriteAt(r, Write(b.realOffset, data[b.journalOffset..b.journalOffset + b.size]), 0);
      }
    }

    /** save_journal_file over the current contents of the journal file. */
    method Save(file: seq<Byte>) returns (ok: bool, r: seq<Byte>)
      requires InData(Value())
      ensures ok <==> name.size != 0 && blocks != [] && name.size < |name.buf|
      ensures r == if ok then WriteAt(file, Write(0, Encode(Value())), 0) else file
    {
      if name.size == 0 || blocks == [] || name.size >= |name.buf| {
        return false, file;
      }
      var header, text := EncodeHeader(|blocks|), EncodeName(name);
      r := WriteAt(file, Write(0, header), 0);
      WriteOn(file, header, text);
      r := WriteAt(r, Write(|header|, text), 0);
      r := SaveBlocks(file, header + text, r);
      ok := true;
    }

    /** The loop of save_journal_file, after the bytes done. */
    method SaveBlocks(ghost file: seq<Byte>, start: seq<Byte>, r0: seq<Byte>) returns (r: seq<Byte>)
      requires InData(Value()) && start != [] && r0 == WriteAt(file, Write(0, start), 0)
      ensures r == WriteAt(file, Write(0, start + EncodeBlocks(data, blocks)), 0)
    {
      r := r0;
      var at := |start|;
      ghost var done := start;
      assert blocks[0..] == blocks;
      for i := 0 to |blocks|
        invariant done != [] && |done| == at && r == WriteAt(file, Write(0, done), 0)
        invariant start + EncodeBlocks(data, blocks) == done + EncodeBlocks(data, blocks[i..])
      {
        r, done, at := SaveBlock(i, file, done, at, r);
      }
      assert done + [] == done;
    }

    static method PutChunk(ghost file: seq<Byte>, ghost done: seq<Byte>, at: nat, r0: seq<Byte>, chunk: seq<Byte>)
      returns (r: seq<Byte>, ghost now: seq<Byte>, end: nat)
      requires done != [] && |done| == at && r0 == WriteAt(file, Write(0, done), 0)
      ensures now == done + chunk && |now| == end && r == WriteAt(file, Write(0, now), 0)
    {
      WriteOn(file, done, chunk);
      r := WriteAt(r0, Write(at, chunk), 0);
      now, end := done + chunk, at + |chunk|;
    }

    method SaveBlock(i: nat, ghost file: seq<Byte>, ghost done: seq<Byte>, at: nat, r0: seq<Byte>)
      returns (r: seq<Byte>, ghost now: seq<Byte>, end: nat)
      requires InData(Value()) && i < |blocks| && done != [] && |done| == at && r0 == WriteAt(file, Write(0, done), 0)
      ensures now != [] && |now| == end && r == WriteAt(file, Write(0, now), 0)
      ensures done + EncodeBlocks(data, blocks[i..]) == now + EncodeBlocks(data, blocks[i + 1..])
    {
      var b := blocks[i];
      var chunk := EncodeBlockHeader(b) + data[b.journalOffset..b.journalOffset + b.size];
      EncodeNext(data, blocks, i, done, chunk);
      r, now, end := PutChunk(file, done, at, r0, chunk);
    }

    /** load_journal_file */
    method Load(file: seq<Byte>) returns (ok: bool)
      modifies this
      ensures ok <==> old(name.size == 0 && blocks == [] && data == []) && Decode(file).Some?
      ensures ok ==> Value() == Decode(file).value
    {
      if name.size != 0 || blocks != [] || |file| < 8 {
        return false;
      }
      if Field(file, 0, 2) != FILE_MAGIC || Field(file, 2, 2) != VERSION || Field(file, 4, 2) != 0
          || Field(file, 6, 2) == 0 {
        return false;
      }
      var read := DecodeName(file, 8);
      if read == None {
        return false;
      }
      name := read.value;
      // the first turn of the loop fails if there is data left over
      if data != [] {
        return false;
      }
      ok := LoadBlocks(file, 16 + |name.buf|, Field(file, 6, 2));
    }

    /** The loop of load_journal_file. */
    method LoadBlocks(file: seq<Byte>, start: nat, n: nat) returns (ok: bool)
      requires data == [] && blocks == []
      modifies this`data, this`blocks
      ensures ok <==> DecodeBlocks(file, start, n, [], []).Some?
      ensures ok ==> (data, blocks) == DecodeBlocks(file, start, n, [], []).value
    {
      var at: nat, offset := start, 0;
      for i := 0 to n
        invariant offset == |data|
        invariant DecodeBlocks(file, start, n, [], []) == DecodeBlocks(file, at, n - i, data, blocks)
      {
        if |file| < at + 32 {
          return false;
        }
        var b := BlockHeader(Field(file, at + 8, 8), Field(file, at + 16, 8), Field(file, at + 24, 8));
        if Field(file, at, 2) != BLOCK_MAGIC || b.journalOffset != offset {
          return false;
        }
        if |file| < at + 32 + b.size {
          return false;
        }
        data := data + file[at + 32..at + 32 + b.size];
        blocks := blocks + [b];
        offset := offset + b.size;
        at := at + 32 + b.size;
      }
      return true;
    }
  }

  /** The blocks that are read lie inside the data that is read. */
  lemma {:induction false} DecodedInData(file: seq<Byte>, at: nat, n: nat, data: seq<Byte>, blocks: seq<BlockHeader>)
    requires forall i :: 0 <= i < |blocks| ==> blocks[i].journalOffset + blocks[i].size <= |data|
    ensures var r := DecodeBlocks(file, at, n, data, blocks);
            r.Some? ==> forall i :: 0 <= i < |r.value.1| ==>
                r.value.1[i].journalOffset + r.value.1[i].size <= |r.value.0|
    decreases n
  {
    if n > 0 && |file| >= at + 32 {
      var b := BlockHeader(Field(file, at + 8, 8), Field(file, at + 16, 8), Field(file, at + 24, 8));
      if |file| >= at + 32 + b.size && b.journalOffset == |data| {
        DecodedInData(file, at + 32 + b.size, n - 1, data + file[at + 32..at + 32 + b.size], blocks + [b]);
      }
    }
  }

  /** begin_file accepts nothing while the buffer holds a file. */
  predicate Busy(j: Journal) { j.name.size != 0 || j.data != [] || j.blocks != [] }

  lemma {:induction false} LoadedIsBusy(file: seq<Byte>)
    requires Decode(file).Some?
    ensures Decode(file).value.blocks != [] && Busy(Decode(file).value) && InData(Decode(file).value)
  {
    var name := DecodeName(file, 8).value;
    DecodedInData(file, 16 + |name.buf|, Field(file, 6, 2), [], []);
    DecodedCount(file, 16 + |name.buf|, Field(file, 6, 2), [], []);
  }

  /**
   * Recovery loads and applies the journal file (rrdb::start) and clears nothing, so the next begin_file
   * fails and leaves the loaded journal where it is; after clear it succeeds.
   */
  method BeginAfterRecovery(j: JournalFile, journal: seq<Byte>, metric: seq<Byte>, text: seq<Byte>)
    returns (recovered: seq<Byte>, first: bool, second: bool)
    requires j.Value() == EMPTY && Decode(journal).Some?
    modifies j
    ensures InData(Decode(journal).value) && recovered == ApplyAll(metric, Writes(Decode(journal).value), 0)
    ensures !first && (second <==> text != [])
    ensures second ==> j.Value() == Journal(Padded(text), [], [])
  {
    LoadedIsBusy(journal);
    var loaded := j.Load(journal);
    recovered := j.Apply(metric);
    first := j.BeginFile(text);
    j.Clear();
    second := j.BeginFile(text);
  }

  lemma {:induction false} EncodeNext(data: seq<Byte>, blocks: seq<BlockHeader>, i: nat, done: seq<Byte>,
                                      chunk: seq<Byte>)
    requires i < |blocks| && forall k :: 0 <= k < |blocks| ==> blocks[k].journalOffset + blocks[k].size <= |data|
    requires chunk == EncodeBlockHeader(blocks[i]) + BlockData(data, blocks[i])
    ensures done + EncodeBlocks(data, blocks[i..]) == (done + chunk) + EncodeBlocks(data, blocks[i + 1..])
  {
  }

  function EndOf(blocks: seq<BlockHeader>): nat {
    if blocks == [] then 0 else blocks[|blocks| - 1].journalOffset + blocks[|blocks| - 1].size
  }

  lemma {:induction false} WriteOn(file: seq<Byte>, a: seq<Byte>, b: seq<Byte>)
    requires a != []
    ensures WriteAt(WriteAt(file, Write(0, a), 0), Write(|a|, b), 0) == WriteAt(file, Write(0, a + b), 0)
  {
    if b == [] {
      assert a + b == a;
    } else {
      var r, s := WriteAt(WriteAt(file, Write(0, a), 0), Write(|a|, b), 0), WriteAt(file, Write(0, a + b), 0);
      forall o: nat
        ensures CellAt(r, o, 0) == CellAt(s, o, 0)
      {
        WriteCell(file, Write(0, a), o, 0);
        WriteCell(WriteAt(file, Write(0, a), 0), Write(|a|, b), o, 0);
        WriteCell(file, Write(0, a + b), o, 0);
      }
      SameCells(r, s, 0);
    }
  }

  lemma {:induction false} ContiguousSnoc(blocks: seq<BlockHeader>, from: nat, to: nat, b: BlockHeader)
    requires Contiguous(blocks, from, to) && b.journalOffset == to && 0 < b.size && b.realOffset < MAX64
    ensures Contiguous(blocks + [b], from, to + b.size)
    ensures blocks != [] ==> EndOf(blocks) == to
    decreases |blocks|
  {
    if blocks != [] {
      assert (blocks + [b])[1..] == blocks[1..] + [b];
      ContiguousWider(blocks, from, to);
      ContiguousSnoc(blocks[1..], from + blocks[0].size, to, b);
    } else {
      assert (blocks + [b])[1..] == [];
    }
  }

  lemma {:induction false} ContiguousWider(blocks: seq<BlockHeader>, from: nat, to: nat)
    requires Contiguous(blocks, from, to)
    ensures from <= to
  {
  }

  /** Writing some bytes and then declaring a block of just that size keeps the journal well formed. */
  lemma {:induction false} PutAndAddWellFormed(j: Journal, bytes: seq<Byte>, offset: nat)
    requires (WellFormed(j) || (j.data == [] && j.blocks == [] && exists text :: text != [] && j.name == Padded(text)))
    requires bytes != [] && |j.data| + |bytes| < MAX64 && offset < MAX64
    ensures WellFormed(Journal(j.name, j.data + bytes, j.blocks + [BlockHeader(offset, EndOf(j.blocks), |bytes|)]))
  {
    var b := BlockHeader(offset, |j.data|, |bytes|);
    ContiguousSnoc(j.blocks, 0, |j.data|, b);
  }

  // ---------- From writes to the file they are made to

  /** A write to the stream and the block declared for it. */
  function Appended(j: Journal, w: Write<Byte>): Journal {
    j.(data := j.data + w.data, blocks := j.blocks + [BlockHeader(w.offset, EndOf(j.blocks), |w.data|)])
  }

  /** The buffer holds exactly these writes, in order. */
  ghost predicate Stands(j: Journal, writes: seq<Write<Byte>>) {
    InData(j) && EndOf(j.blocks) == |j.data| && Writes(j) == writes
  }

  lemma {:induction false} AppendedWrites(j: Journal, w: Write<Byte>, writes: seq<Write<Byte>>)
    requires Stands(j, writes)
    ensures Stands(Appended(j, w), writes + [w])
  {
    var n := Appended(j, w);
    forall i | 0 <= i < |j.blocks|
      ensures BlockData(n.data, n.blocks[i]) == BlockData(j.data, j.blocks[i])
    {
    }
    assert BlockData(n.data, n.blocks[|j.blocks|]) == w.data;
  }

  function SizeOf(writes: seq<Write<Byte>>): nat {
    if writes == [] then 0 else SizeOf(writes[..|writes| - 1]) + |writes[|writes| - 1].data|
  }

  lemma {:induction false} SizeGrows(writes: seq<Write<Byte>>, n: nat)
    requires n <= |writes|
    ensures SizeOf(writes[..n]) <= SizeOf(writes)
    decreases |writes|
  {
    if n < |writes| {
      SizeGrows(writes[..|writes| - 1], n);
      assert writes[..|writes| - 1][..n] == writes[..n];
    } else {
      assert writes[..n] == writes;
    }
  }

  ghost predicate Recordable(writes: seq<Write<Byte>>) {
    SizeOf(writes) < MAX64 && forall i :: 0 <= i < |writes| ==> writes[i].data != [] && writes[i].offset < MAX64
  }

  /** begin_file and, for every write, the stream output and add_block with its offset and size. */
  method RecordAll(j: JournalFile, text: seq<Byte>, writes: seq<Write<Byte>>)
    requires j.Value() == EMPTY && text != [] && writes != [] && Recordable(writes)
    modifies j
    ensures WellFormed(j.Value()) && j.name == Padded(text) && Stands(j.Value(), writes)
  {
    var begun := j.BeginFile(text);
    assert writes[..0] == [];
    for i := 0 to |writes|
      invariant j.name == Padded(text) && Stands(j.Value(), writes[..i]) && |j.data| == SizeOf(writes[..i])
      invariant Begun(j.Value(), text) || (i > 0 && WellFormed(j.Value()))
      invariant i > 0 ==> WellFormed(j.Value())
    {
      assert writes[..i + 1] == writes[..i] + [writes[i]] && writes[..i + 1][..i] == writes[..i];
      SizeGrows(writes, i + 1);
      RecordOne(j, text, writes[i], writes[..i]);
    }
    assert writes[..|writes|] == writes;
  }

  ghost predicate Begun(j: Journal, text: seq<Byte>) { text != [] && j == Journal(Padded(text), [], []) }

  method RecordOne(j: JournalFile, ghost text: seq<Byte>, w: Write<Byte>, ghost before: seq<Write<Byte>>)
    requires text != [] && j.name == Padded(text) && Stands(j.Value(), before)
    requires Begun(j.Value(), text) || WellFormed(j.Value())
    requires w.data != [] && w.offset < MAX64 && |j.data| + |w.data| < MAX64
    modifies j
    ensures j.name == old(j.name) && WellFormed(j.Value()) && Stands(j.Value(), before + [w])
    ensures |j.data| == old(|j.data|) + |w.data|
  {
    AppendedWrites(j.Value(), w, before);
    PutAndAddWellFormed(j.Value(), w.data, w.offset);
    j.Put(w.data);
    var added := j.AddBlock(w.offset, |w.data|);
  }

  /**
   * Whatever writes are recorded, after the journal was saved over any older one, cleared and loaded again,
   * applying it makes those writes, at their own offsets and in their order.
   */
  method SaveAndRecover(j: JournalFile, text: seq<Byte>, writes: seq<Write<Byte>>, stale: seq<Byte>, file: seq<Byte>)
    returns (ok: bool, recovered: seq<Byte>)
    requires j.Value() == EMPTY && text != [] && writes != [] && Recordable(writes)
    requires |writes| < MAX16 && |text| < MAX16 - PAD_BYTES
    modifies j
    ensures ok && recovered == ApplyAll(file, writes, 0) && j.name == Padded(text)
  {
    RecordAll(j, text, writes);
    ghost var saved := j.Value();
    WellFormedFacts(saved);
    var done, journal := j.Save(stale);
    j.Clear();
    JournalRoundTrip(stale, saved);
    ok := j.Load(journal);
    recovered := j.Apply(file);
  }

  // ---------- The bytes of the format

  /** Little-endian magic numbers, the version and the number of blocks. */
  lemma {:induction false} HeaderBytes(n: nat)
    requires n < 256
    ensures EncodeHeader(n) == [0x99, 0xDA, 1, 0, 0, 0, n, 0]
  {
    LowByte(n);
  }

  lemma {:induction false} LowByte(n: nat)
    requires n < 256
    ensures ToBytes(n, 2) == [n, 0] && ToBytes(n, 8) == [n, 0, 0, 0, 0, 0, 0, 0]
  {
    assert n % 256 == n && n / 256 == 0;
    assert ToBytes(0, 7) == [0, 0, 0, 0, 0, 0, 0];
    assert ToBytes(0, 1) == [0];
  }

  /** A block header says where the block goes, where it is in the journal, and how long it is, in that order. */
  lemma {:induction false} BlockHeaderBytes(real': nat, journal: nat, size: nat)
    requires real' < 256 && journal < 256 && size < 256
    ensures EncodeBlockHeader(BlockHeader(real', journal, size))
         == [0x66, 0xDA, 0, 0, 0, 0, 0, 0] + [real', 0, 0, 0, 0, 0, 0, 0] + [journal, 0, 0, 0, 0, 0, 0, 0]
            + [size, 0, 0, 0, 0, 0, 0, 0]
  {
    LowByte(real');
    LowByte(journal);
    LowByte(size);
  }

  lemma {:induction false} PaddedThree(text: seq<Byte>)
    requires |text| == 3
    ensures Padded(text).size == 3 && Padded(text).buf == text + [0, 0, 0, 0, 0] && |Padded(text).buf| == 8
  {
  }

  /** A name of fewer than 8 bytes is padded with zeros to 8. */
  lemma {:induction false} NameBytes(text: seq<Byte>)
    requires |text| == 3
    ensures EncodeName(Padded(text)) == [3, 0, 8, 0, 0, 0, 0, 0] + text + [0, 0, 0, 0, 0]
  {
    NameHead();
    PaddedThree(text);
  }

  lemma {:induction false} NameHead()
    ensures ToBytes(3, 2) + ToBytes(8, 2) + ToBytes(0, 4) == [3, 0, 8, 0, 0, 0, 0, 0]
  {
    LowByte(3);
    LowByte(8);
    assert ToBytes(0, 4) == [0, 0, 0, 0];
  }
}
