/** BZ2_bzDecompress: whole streams, with output space given in pieces of any size. */
module StreamDecoder {
  import opened Bytes
  import opened BitStrings
  import opened BitIo
  import opened BitWords
  import opened BlockCrc
  import opened BlockFormat
  import opened RunLength
  import opened BlockDecoder
  import FastOutput
  import InverseBwt

  /** The blocks from i on, and the trailer. */
  ghost function StreamFrom(table: seq<bv32>, blocks: seq<Block>, level: int, i: nat): seq<bit>
    requires |table| == 256 && ValidBlocks(blocks, level) && i <= |blocks|
    decreases |blocks| - i
  {
    if i == |blocks| then TrailerBits(table, blocks, level)
    else BlockBits(table, blocks[i], level) + StreamFrom(table, blocks, level, i + 1)
  }

  ghost function PlainFrom(blocks: seq<Block>, level: int, i: nat): seq<byte>
    requires ValidBlocks(blocks, level) && i <= |blocks|
    decreases |blocks| - i
  {
    if i == |blocks| then [] else ExpandRuns(blocks[i].runs) + PlainFrom(blocks, level, i + 1)
  }

  lemma {:induction false} StreamSplit(table: seq<bv32>, blocks: seq<Block>, level: int, i: nat)
    requires |table| == 256 && ValidBlocks(blocks, level) && i <= |blocks|
    ensures BlocksBits(table, blocks[..i], level) + StreamFrom(table, blocks, level, i)
         == BlocksBits(table, blocks, level) + TrailerBits(table, blocks, level)
    ensures Plain(blocks[..i], level) + PlainFrom(blocks, level, i) == Plain(blocks, level)
    decreases |blocks| - i
  {
    hide BlockBits, TrailerBits, ValidBlock, ExpandRuns, RunsOk;
    if i == |blocks| {
      assert blocks[..i] == blocks && Plain(blocks, level) + [] == Plain(blocks, level);
    } else {
      StreamSplit(table, blocks, level, i + 1);
      assert blocks[..i + 1][..i] == blocks[..i];
      Associative(BlocksBits(table, blocks[..i], level), BlockBits(table, blocks[i], level),
                  StreamFrom(table, blocks, level, i + 1));
      RunsAreOk(blocks, level, i);
      Associative(Plain(blocks[..i], level), ExpandRuns(blocks[i].runs), PlainFrom(blocks, level, i + 1));
    }
  }

  lemma RunsAreOk(blocks: seq<Block>, level: int, i: int)
    requires ValidBlocks(blocks, level) && 0 <= i < |blocks|
    ensures RunsOk(blocks[i].runs)
  {
    assert ValidBlock(blocks[i], level);
  }

  /** A stream is its header, its blocks and its trailer. */
  lemma StreamFromStart(table: seq<bv32>, blocks: seq<Block>, level: int)
    requires |table| == 256 && ValidBlocks(blocks, level) && 1 <= level <= 9
    ensures StreamBits(table, blocks, level) == BitsOf(HeaderBytes(level)) + StreamFrom(table, blocks, level, 0)
    ensures PlainFrom(blocks, level, 0) == Plain(blocks, level)
  {
    hide BlockBits, TrailerBits, ValidBlock, BitsOf, StreamFrom, PlainFrom;
    StreamSplit(table, blocks, level, 0);
    assert blocks[..0] == [];
    var from := StreamFrom(table, blocks, level, 0);
    assert [] + from == from && [] + PlainFrom(blocks, level, 0) == PlainFrom(blocks, level, 0);
    Associative(BitsOf(HeaderBytes(level)), BlocksBits(table, blocks, level), TrailerBits(table, blocks, level));
  }

  /** BZ_X_MAGIC_1, BZ_X_BLKHDR_1, BZ_X_OUTPUT and BZ_X_IDLE. */
  datatype Phase = Magic | Blkhdr | Output | Idle

  /** BZ_OK for more output space, BZ_STREAM_END, and everything else: an input that is wrong or
      ends too early, or a call after the end. */
  datatype Ret = Ok_ | StreamEnd | Failed

  /** What matters of the decoder's state when it has to do with an encoder's stream: the input not
      yet used, and, while a block is being written, what has been written of it and what is owed. */
  datatype Snapshot = Snapshot(phase: Phase, level: int, at: nat, combined: bv32, remaining: seq<bit>,
                               stored: uint32, calculated: bv32, written: seq<byte>, owed: Expansion)

  /** Part of block k has been written, the rest is owed. */
  ghost predicate InBlock(table: seq<bv32>, s: Snapshot, k: Block) {
    && |table| == 256 && RunsOk(k.runs) && s.stored == BlockCrcOf(table, k.runs) as int
    && s.calculated == CrcOf(table, 0xffff_ffff, s.written)
    && Then(s.written, s.owed) == Expansion(ExpandRuns(k.runs), false)
  }

  /** The CRCs of the blocks in front of number s.at have been combined. */
  ghost predicate AtBlock(table: seq<bv32>, s: Snapshot, blocks: seq<Block>, lv: int) {
    && |table| == 256 && ValidBlocks(blocks, lv) && s.level == lv && s.at <= |blocks|
    && s.combined == CombinedCrc(table, blocks[..s.at], lv)
  }

  /** The input is a stream of these blocks, and rest; what has been read of it is consistent with
      that. */
  ghost predicate Follows(table: seq<bv32>, s: Snapshot, blocks: seq<Block>, lv: int, rest: seq<bit>) {
    && |table| == 256 && ValidBlocks(blocks, lv) && 1 <= lv <= 9
    && match s.phase
       case Magic => s.combined == 0 && s.remaining == StreamBits(table, blocks, lv) + rest
       case Blkhdr => AtBlock(table, s, blocks, lv) && s.remaining == StreamFrom(table, blocks, lv, s.at) + rest
       case Output =>
         && AtBlock(table, s, blocks, lv) && s.at < |blocks|
         && s.remaining == StreamFrom(table, blocks, lv, s.at + 1) + rest
         && InBlock(table, s, blocks[s.at])
       case Idle => s.remaining == rest
  }

  /** What is still to be written for such an input. */
  ghost function ToCome(s: Snapshot, blocks: seq<Block>, lv: int): seq<byte>
    requires ValidBlocks(blocks, lv)
  {
    match s.phase
    case Magic => PlainFrom(blocks, lv, 0)
    case Blkhdr => if s.at <= |blocks| then PlainFrom(blocks, lv, s.at) else []
    case Output => s.owed.bytes + (if s.at < |blocks| then PlainFrom(blocks, lv, s.at + 1) else [])
    case Idle => []
  }

  lemma HeaderFollows(table: seq<bv32>, s: Snapshot, s': Snapshot, blocks: seq<Block>, lv: int, rest: seq<bit>)
    requires |table| == 256 && ValidBlocks(blocks, lv) && 1 <= lv <= 9 && s.phase.Magic?
    ensures Follows(table, s, blocks, lv, rest)
            ==> s.remaining ==
                BitsOf([0x42, 0x5a, 0x68]) + (Bits(0x30 + lv, 8) + (StreamFrom(table, blocks, lv, 0) + rest))
    ensures Follows(table, s, blocks, lv, rest) && s'.phase.Blkhdr? && s'.level == lv && s'.at == 0
            && s'.combined == s.combined
            && s'.remaining == StreamFrom(table, blocks, lv, 0) + rest
            ==> Follows(table, s', blocks, lv, rest) && ToCome(s', blocks, lv) == ToCome(s, blocks, lv)
  {
    hide StreamBits, StreamFrom, Bits, BitsOf, ValidBlock, CombinedCrc, PlainFrom;
    StreamFromStart(table, blocks, lv);
    HeaderSplit(lv, StreamFrom(table, blocks, lv, 0), rest);
    NoBlocks(table, lv);
    assert blocks[..0] == [];
  }

  /** The next block has been started. */
  lemma BlockFollows(table: seq<bv32>, s: Snapshot, s': Snapshot, blocks: seq<Block>, lv: int, rest: seq<bit>)
    requires Follows(table, s, blocks, lv, rest) && s.phase.Blkhdr? && s.at < |blocks|
    requires s'.phase.Output? && s'.level == s.level && s'.at == s.at && s'.combined == s.combined
    requires s'.remaining == StreamFrom(table, blocks, lv, s.at + 1) + rest
    requires RunsOk(blocks[s.at].runs) && s'.stored == BlockCrcOf(table, blocks[s.at].runs) as int
    requires s'.calculated == 0xffff_ffff && s'.written == []
    requires s'.owed == Expansion(ExpandRuns(blocks[s.at].runs), false)
    ensures Follows(table, s', blocks, lv, rest) && ToCome(s', blocks, lv) == ToCome(s, blocks, lv)
  {
    hide StreamFrom, ValidBlock, CombinedCrc, BlockCrcOf, ExpandRuns, RunsOk;
    assert [] + s'.owed.bytes == s'.owed.bytes;
  }

  /** Some bytes of the block have been written. */
  lemma PieceFollows(table: seq<bv32>, s: Snapshot, s': Snapshot, blocks: seq<Block>, lv: int, rest: seq<bit>,
        piece: seq<byte>)
    requires Follows(table, s, blocks, lv, rest) && s.phase.Output?
    requires s.owed == Then(piece, s'.owed)
    requires s' == s.(calculated := CrcOf(table, s.calculated, piece), written := s.written + piece, owed := s'.owed)
    ensures Follows(table, s', blocks, lv, rest) && ToCome(s, blocks, lv) == piece + ToCome(s', blocks, lv)
  {
    hide StreamFrom, ValidBlock, CombinedCrc, BlockCrcOf, ExpandRuns, RunsOk, PlainFrom, CrcOf;
    CrcOfConcat(table, 0xffff_ffff, s.written, piece);
    Associative(s.written, piece, s'.owed.bytes);
    Associative(piece, s'.owed.bytes, PlainFrom(blocks, lv, s.at + 1));
  }

  /** The block has been written completely: its CRC is the stored one. */
  lemma EndOfBlockFollows(table: seq<bv32>, s: Snapshot, s': Snapshot, blocks: seq<Block>, lv: int, rest: seq<bit>)
    requires Follows(table, s, blocks, lv, rest) && s.phase.Output? && s.owed == Expansion([], false)
    ensures FinaliseCrc(s.calculated) as int == s.stored
    ensures s'.phase.Blkhdr? && s'.level == s.level && s'.at == s.at + 1
            && s'.combined == Combine(s.combined, FinaliseCrc(s.calculated))
            && s'.remaining == s.remaining
            ==> Follows(table, s', blocks, lv, rest) && ToCome(s', blocks, lv) == ToCome(s, blocks, lv)
  {
    hide StreamFrom, ValidBlock, CombinedCrc, ExpandRuns, RunsOk, PlainFrom, CrcOf;
    NextCrc(table, blocks, lv, s.at);
    assert s.written + [] == s.written;
    assert [] + PlainFrom(blocks, lv, s.at + 1) == PlainFrom(blocks, lv, s.at + 1);
  }

  /** The four bytes that a stream starts with. */
  method ReadLevel(r: BitReader, ghost lv: int, ghost more: seq<bit>) returns (ok: bool, level: int)
    requires r.Valid() && 1 <= lv <= 9
    modifies r
    ensures r.Valid() && r.Onward() && (ok ==> 1 <= level <= 9)
    ensures ok ==> old(r.Remaining()) == BitsOf([0x42, 0x5a, 0x68]) + (Bits(0x30 + level, 8) + r.Remaining())
    ensures old(r.Remaining()) == BitsOf([0x42, 0x5a, 0x68]) + (Bits(0x30 + lv, 8) + more) ==>
          ok && level == lv && r.Remaining() == more
  {
    hide BitReader.Valid, BitReader.Remaining, BitReader.Delivered, Bits, BitsOf;
    Pow2Values();
    level := 0;
    ok := ExpectBytes(r, [0x42, 0x5a, 0x68], Bits(0x30 + lv, 8) + more);
    if !ok { return; }
    var b;
    ok, b := NextBits(r, 8, 0x30 + lv, more);
    if !ok { return; }
    if b < 0x30 + 1 || b > 0x30 + 9 { return false, level; }
    level := b - 0x30;
  }

  class Decompressor {
    const r: BitReader
    const crcTable: seq<bv32>
    var phase: Phase
    var level: int
    var d: FastOutput.DState?
    var storedBlockCRC: uint32
    var calculatedCombinedCRC: bv32
    ghost var col: seq<byte>
    ghost var chars: seq<byte>
    ghost var at: nat
    ghost var written: seq<byte>

    ghost function Repr(): set<object>
      reads this
    {
      {this, r} + (if d == null then {} else {d, d.tt})
    }

    ghost predicate Valid()
      reads this, Repr()
    {
      && r.Valid() && |crcTable| == 256
      && (phase.Blkhdr? || phase.Output? ==>
            d != null && 1 <= level <= 9 && d.blockSize100k == level && d.tt.Length == 100000 * level &&
              d.crcTable == crcTable)
      && (phase.Output? ==> Writing(d, col, chars))
    }

    ghost function Now(): Snapshot
      requires Valid()
      reads this, Repr()
    {
      if phase.Output? then
        WritingOwes(d, col, chars);
        Snapshot(phase, level, at, calculatedCombinedCRC, r.Remaining(), storedBlockCRC, d.calculatedBlockCRC, written,
                 d.Owed(chars))
      else
        Snapshot(phase, level, at, calculatedCombinedCRC, r.Remaining(), storedBlockCRC, 0, [], Expansion([], false))
    }

    constructor (calls: seq<Supply>, crcTable: seq<bv32>)
      requires |crcTable| == 256 && |calls| > 0
      ensures Valid() && phase.Magic? && calculatedCombinedCRC == 0 && this.crcTable == crcTable
      ensures r.all == calls && r.Remaining() == BitsOf(InputFrom(calls, 0)) && r.Delivered() == [] && fresh(Repr())
    {
      r := new BitReader(calls);
      this.crcTable := crcTable;
      phase, level, d, storedBlockCRC, calculatedCombinedCRC, at := Magic, 0, null, 0, 0, 0;
    }

    /** BZ_X_MAGIC_1 to _4: the header, and the memory for the blocks. */
    method ReadHeader(ghost blocks: seq<Block>, ghost lv: int, ghost rest: seq<bit>) returns (ok: bool)
      requires Valid() && phase.Magic? && ValidBlocks(blocks, lv) && 1 <= lv <= 9
      modifies this, r
      ensures ok ==> Valid() && phase.Blkhdr? && fresh(d) && fresh(d.tt) && r.Onward()
      ensures old(Follows(crcTable, Now(), blocks, lv, rest))
              ==> ok && Follows(crcTable, Now(), blocks, lv, rest)
                  && ToCome(Now(), blocks, lv) == old(ToCome(Now(), blocks, lv))
    {
      hide StreamFrom, BitReader.Valid, BitReader.Remaining, BitReader.Delivered, Bits, BitsOf, Follows, ToCome;
      hide Writing, ValidBlocks;
      ghost var s, from := Now(), StreamFrom(crcTable, blocks, lv, 0);
      HeaderFollows(crcTable, s, s, blocks, lv, rest);
      var lv';
      ok, lv' := ReadLevel(r, lv, from + rest);
      if !ok { return; }
      Allocate(lv');
      HeaderFollows(crcTable, s, Now(), blocks, lv, rest);
    }

    method Allocate(blockSize100k: int)
      requires r.Valid() && |crcTable| == 256 && 1 <= blockSize100k <= 9
      modifies this
      ensures Valid() && phase.Blkhdr? && level == blockSize100k && at == 0
      ensures calculatedCombinedCRC == old(calculatedCombinedCRC)
      ensures fresh(d) && fresh(d.tt)
    {
      level := blockSize100k;
      var tt := new uint32[100000 * level];
      d := new FastOutput.DState(crcTable, level, tt);
      phase, at := Blkhdr, 0;
    }

    /** BZ_X_ENDHDR_6 and on: the combined CRC. */
    method ReadEnd(ghost combined: bv32, ghost rest: seq<bit>) returns (ret: Ret)
      requires Valid() && phase.Blkhdr?
      modifies this, r
      ensures d == old(d) && at == old(at) && !ret.Ok_? && r.Valid() && r.Onward()
      ensures ret.StreamEnd? ==> old(r.Remaining()) == Bits(old(calculatedCombinedCRC) as int, 32) + r.Remaining()
      ensures old(calculatedCombinedCRC) == combined && old(r.Remaining()) == Bits(combined as int, 32) + rest
              ==> ret.StreamEnd? && Valid() && phase.Idle? && r.Remaining() == rest
    {
      hide BitReader.Valid, BitReader.Remaining, BitReader.Delivered, Bits;
      var ok, storedCombinedCRC := GetUInt32(r, combined as int, rest);
      if !ok { return Failed; }
      phase := Idle;
      if calculatedCombinedCRC as int != storedCombinedCRC { return Failed; }
      ret := StreamEnd;
    }

    /** The next block is read and its output started. */
    method StartBlock(ghost k: Block, ghost rest: seq<bit>) returns (ret: Ret)
      requires Valid() && phase.Blkhdr? && ValidBlock(k, level)
      modifies Repr()
      ensures d == old(d) && at == old(at) && level == old(level) && calculatedCombinedCRC == old(calculatedCombinedCRC)
      ensures !ret.StreamEnd? && (ret.Ok_? ==> Valid() && phase.Output? && r.Onward())
      ensures old(r.Remaining()) == BodyBits(crcTable, k, level) + rest
              ==> ret.Ok_? && r.Remaining() == rest && storedBlockCRC == BlockCrcOf(crcTable, k.runs) as int
                  && Now().calculated == 0xffff_ffff && Now().written == [] &&
                     Now().owed == Expansion(ExpandRuns(k.runs), false)
    {
      hide BitReader.Valid, BitReader.Remaining, BitReader.Delivered, Bits, BodyBits, FastOutput.DState.Valid;
      hide FastOutput.DState.Owed;
      hide InverseBwt.NextRow, InverseBwt.RowMap, BlockCrcOf, RunsOk, ExpandRuns, ValidBlock, Writing;
      var ok, stored; ghost var col', chars';
      ok, stored, col', chars' := DecodeBlock(r, d, level, k, rest);
      if !ok { return Failed; }
      storedBlockCRC, col, chars, written := stored, col', chars', [];
      phase := Output;
      NowWriting(d, col, chars);
      ret := Ok_;
    }

    /** The end of a stream, s being the state before its magic number. */
    method EndFollowing(ghost s: Snapshot, ghost good: bool, ghost blocks: seq<Block>, ghost lv: int,
          ghost rest: seq<bit>)
      returns (ret: Ret)
      requires Valid() && phase.Blkhdr?
      requires good ==> Follows(crcTable, s, blocks, lv, rest) && s.phase.Blkhdr? && s.at == |blocks|
                        && Now() == s.(remaining := Bits(s.combined as int, 32) + rest)
      modifies this, r
      ensures d == old(d) && !ret.Ok_? && r.Valid() && r.Onward()
      ensures ret.StreamEnd? ==> old(r.Remaining()) == Bits(old(calculatedCombinedCRC) as int, 32) + r.Remaining()
      ensures good ==> ret.StreamEnd? && Valid() && phase.Idle? && Follows(crcTable, Now(), blocks, lv, rest)
                       && ToCome(Now(), blocks, lv) == ToCome(s, blocks, lv)
    {
      hide BitReader.Valid, BitReader.Remaining, BitReader.Delivered, Bits, Follows, ToCome, ValidBlocks;
      ret := ReadEnd(s.combined, rest);
      if good { IdleFollows(crcTable, s, Now(), blocks, lv, rest); }
    }

    /** A block of a stream, s being the state before its magic number. */
    method StartFollowing(ghost s: Snapshot, ghost good: bool, ghost blocks: seq<Block>, ghost lv: int,
          ghost rest: seq<bit>)
      returns (ret: Ret)
      requires Valid() && phase.Blkhdr? && ValidBlocks(blocks, lv)
      requires good ==>
            Follows(crcTable, s, blocks, lv, rest) && s.phase.Blkhdr? && s.at < |blocks| &&
              ValidBlock(blocks[s.at], s.level)
                        && Now() == s.(remaining := BodyBits(crcTable, blocks[s.at], s.level) +
                                       (StreamFrom(crcTable, blocks, lv, s.at + 1) + rest))
      modifies Repr()
      ensures d == old(d) && !ret.StreamEnd?
      ensures ret.Ok_? ==> Valid() && phase.Output? && r.Onward()
      ensures good ==>
            ret.Ok_? && Follows(crcTable, Now(), blocks, lv, rest) && ToCome(Now(), blocks, lv) == ToCome(s, blocks, lv)
    {
      hide BitReader.Valid, BitReader.Remaining, BitReader.Delivered, Bits, BodyBits, StreamFrom, Follows, ToCome;
      hide ValidBlocks, Writing, ExpandRuns, BlockCrcOf;
      ghost var k, after := Sample(), [];
      SampleIsValid(level);
      if good {
        k, after := blocks[s.at], StreamFrom(crcTable, blocks, lv, s.at + 1) + rest;
      }
      assert ValidBlock(k, level);
      hide ValidBlock, RunsOk;
      ret := StartBlock(k, after);
      if good { BlockFollows(crcTable, s, Now(), blocks, lv, rest); }
    }

    /** The rest of BZ2_decompress: the next block is started, or the end of the stream is checked. */
    method ReadBlock(ghost blocks: seq<Block>, ghost lv: int, ghost rest: seq<bit>) returns (ret: Ret)
      requires Valid() && phase.Blkhdr? && ValidBlocks(blocks, lv) && 1 <= lv <= 9
      modifies Repr()
      ensures d == old(d)
      ensures ret.StreamEnd? ==> r.Valid()
      ensures ret.StreamEnd? ==>
            old(r.Remaining()) == BitsOf(END_MAGIC) + (Bits(old(calculatedCombinedCRC) as int, 32) + r.Remaining())
      ensures ret.Ok_? ==>
            Valid() && phase.Output? && |r.Remaining()| < |old(r.Remaining())| && r.at >= old(r.at) &&
              r.Delivered() == old(r.Delivered())
      ensures old(Follows(crcTable, Now(), blocks, lv, rest))
              ==> !ret.Failed? && Valid() && Follows(crcTable, Now(), blocks, lv, rest)
                  && r.Delivered() == old(r.Delivered())
                  && ToCome(Now(), blocks, lv) == old(ToCome(Now(), blocks, lv)) && (ret.StreamEnd? ==> phase.Idle?)
    {
      hide StreamFrom, BitReader.Valid, BitReader.Remaining, BitReader.Delivered, Bits, BitsOf, CombinedCrc, BodyBits;
      hide Writing, ValidBlock, ValidBlocks;
      hide Follows, ToCome, RunsOk;
      ghost var s := Now();
      ghost var good := Follows(crcTable, s, blocks, lv, rest);
      ghost var more := [];
      if good {
        ComesNext(crcTable, s, blocks, lv, rest);
        more := AfterMagic(crcTable, blocks, lv, at, rest);
        if at < |blocks| {
          assert r.Remaining() == BitsOf(BLOCK_MAGIC) + more;
        } else {
          assert r.Remaining() == BitsOf(END_MAGIC) + more;
        }
      }
      var announced := ReadMagic(r, more);
      if announced.Neither? { return Failed; }
      if announced.End? {
        ret := EndFollowing(s, good, blocks, lv, rest);
        return;
      }
      ret := StartFollowing(s, good, blocks, lv, rest);
    }

    /** unRLE_obuf_to_output_FAST on the current block. */
    method WriteSome() returns (ok: bool, ghost piece: seq<byte>)
      requires Valid() && phase.Output?
      modifies this, d, r
      ensures d == old(d) && phase.Output? && r.Valid() && r.at == old(r.at)
      ensures r.Delivered() == old(r.Delivered()) + piece
      ensures !ok ==> old(Now()).owed.corrupt
      ensures ok ==>
            Valid() && (!d.Finished() ==> r.availOut == 0) && (d.Finished() <==> Now().owed == Expansion([], false))
      ensures ok ==> old(Now()).owed == Then(piece, Now().owed)
      ensures ok ==> Now() == old(Now()).(calculated := CrcOf(crcTable, old(Now()).calculated, piece),
                                          written := old(Now()).written + piece, owed := Now().owed)
    {
      hide BitReader.Valid, BitReader.Remaining, BitReader.Delivered, CrcOf, FastOutput.DState.Finished;
      hide FastOutput.DState.Owed;
      hide InverseBwt.NextRow, InverseBwt.RowMap, FastOutput.DState.Valid;
      ghost var t := InverseBwt.NextRow(col);
      var corrupt, bytes := d.UnRleToOutputFast(r.availOut, col, t, chars);
      piece := bytes;
      r.Deliver(bytes);
      if corrupt { return false, piece; }
      d.FinishedIffNothingOwed(col, t, chars);
      written := written + bytes;
      ok := true;
    }

    /** BZ_FINALISE_CRC and the checks at the end of a block. */
    method FinishBlock() returns (ok: bool)
      requires Valid() && phase.Output?
      modifies this, d
      ensures d == old(d)
      ensures ok <==> !old(d.calculatedBlockCRC) as int == old(storedBlockCRC)
      ensures ok ==>
            Valid() && phase.Blkhdr? && level == old(level) && at == old(at) + 1 && r.Remaining() == old(r.Remaining())
      ensures ok ==> calculatedCombinedCRC == Combine(old(calculatedCombinedCRC), !old(d.calculatedBlockCRC))
    {
      hide BitReader.Valid, BitReader.Remaining, BitReader.Delivered, Combine, Writing;
      d.calculatedBlockCRC := FinaliseCrc(d.calculatedBlockCRC);
      if d.calculatedBlockCRC as int != storedBlockCRC { return false; }
      calculatedCombinedCRC := Combine(calculatedCombinedCRC, d.calculatedBlockCRC);
      phase, at := Blkhdr, at + 1;
      ok := true;
    }

    /** The output of the current block goes on. */
    method WritePiece(ghost blocks: seq<Block>, ghost lv: int, ghost rest: seq<bit>) returns (ok: bool)
      requires Valid() && phase.Output? && ValidBlocks(blocks, lv) && 1 <= lv <= 9
      modifies this, d, r
      ensures d == old(d) && r.Valid() && r.at == old(r.at)
      ensures ok ==>
            Valid() && phase.Output? && r.Remaining() == old(r.Remaining()) && (!d.Finished() ==> r.availOut == 0)
      ensures ok ==> (d.Finished() <==> Now().owed == Expansion([], false))
      ensures old(Follows(crcTable, Now(), blocks, lv, rest))
              ==> ok && Follows(crcTable, Now(), blocks, lv, rest)
                  && r.Delivered() + ToCome(Now(), blocks, lv) == old(r.Delivered() + ToCome(Now(), blocks, lv))
    {
      hide BitReader.Valid, BitReader.Remaining, BitReader.Delivered, FastOutput.DState.Finished, Follows, ToCome;
      hide CrcOf, FastOutput.DState.Owed;
      hide ValidBlocks, Writing;
      ghost var s, good, before := Now(), Follows(crcTable, Now(), blocks, lv, rest), r.Delivered();
      if good { NotCorrupt(crcTable, s, blocks, lv, rest); }
      ghost var piece;
      ok, piece := WriteSome();
      if !ok { return; }
      ghost var s' := Now();
      if good {
        PieceFollows(crcTable, s, s', blocks, lv, rest, piece);
        Associative(before, piece, ToCome(s', blocks, lv));
      }
    }

    /** Write what fits of the current block; when it is finished, check its CRC and go on to the
        next one. */
    method WriteBlock(ghost blocks: seq<Block>, ghost lv: int, ghost rest: seq<bit>) returns (ok: bool)
      requires Valid() && phase.Output? && ValidBlocks(blocks, lv) && 1 <= lv <= 9
      modifies this, d, r
      ensures d == old(d) && r.Valid() && r.at == old(r.at)
      ensures ok ==> Valid() && (phase.Output? || phase.Blkhdr?) && (phase.Output? ==> r.availOut == 0)
      ensures ok ==> r.Remaining() == old(r.Remaining())
      ensures old(Follows(crcTable, Now(), blocks, lv, rest))
              ==> ok && Follows(crcTable, Now(), blocks, lv, rest)
                  && r.Delivered() + ToCome(Now(), blocks, lv) == old(r.Delivered() + ToCome(Now(), blocks, lv))
                  && (phase.Output? ==> ToCome(Now(), blocks, lv) != [])
    {
      hide BitReader.Valid, BitReader.Remaining, BitReader.Delivered, FastOutput.DState.Finished, Follows, ToCome;
      hide CrcOf, FastOutput.DState.Owed;
      hide ValidBlocks, Writing;
      ghost var good := Follows(crcTable, Now(), blocks, lv, rest);
      ok := WritePiece(blocks, lv, rest);
      if !ok { return; }
      ghost var s' := Now();
      if !d.Finished() {
        if good { SomethingOwed(crcTable, s', blocks, lv, rest); }
        return;
      }
      if good { EndOfBlockFollows(crcTable, s', s', blocks, lv, rest); }
      ok := FinishBlock();
      if good { EndOfBlockFollows(crcTable, s', Now(), blocks, lv, rest); }
    }

    /** BZ2_bzDecompress. On an encoder's stream it writes the next bytes of the original, as many
        as fit, and reports the end of the stream exactly when everything has been written and
        checked. It may take the input of later calls to get that far. */
    method BzDecompress(ghost blocks: seq<Block>, ghost lv: int, ghost rest: seq<bit>)
      returns (ret: Ret)
      requires Valid() && ValidBlocks(blocks, lv) && 1 <= lv <= 9
      modifies Repr()
      ensures ret.Ok_? ==> Valid() && r.at >= old(r.at) && r.availOut == 0 && fresh(Repr() - old(Repr()))
      ensures old(phase) != Idle && old(Follows(crcTable, Now(), blocks, lv, rest))
              ==> !ret.Failed? && Valid() && Follows(crcTable, Now(), blocks, lv, rest)
                  && r.Delivered() + ToCome(Now(), blocks, lv) == old(r.Delivered() + ToCome(Now(), blocks, lv))
                  && (ret.StreamEnd? ==> phase.Idle?) && (ret.Ok_? ==> phase.Output? && ToCome(Now(), blocks, lv) != [])
    {
      hide BitReader.Valid, BitReader.Remaining, BitReader.Delivered, Follows, Writing, ValidBlocks, ToCome;
      ghost var good, all := old(phase) != Idle &&
        Follows(crcTable, Now(), blocks, lv, rest), r.Delivered() + ToCome(Now(), blocks, lv);
      while true
        invariant Valid() && r.at >= old(r.at) && fresh(Repr() - old(Repr()))
        invariant good ==>
              phase != Idle && Follows(crcTable, Now(), blocks, lv, rest) &&
                all == r.Delivered() + ToCome(Now(), blocks, lv)
        decreases |r.Remaining()|, if phase.Magic? then 2 else if phase.Output? then 1 else 0
      {
        if phase == Idle { return Failed; }
        if phase == Output {
          var ok := WriteBlock(blocks, lv, rest);
          if !ok { return Failed; }
          if phase == Output { return Ok_; }
        }
        if phase == Magic {
          var ok := ReadHeader(blocks, lv, rest);
          if !ok { return Failed; }
        }
        ret := ReadBlock(blocks, lv, rest);
        if ret != Ok_ { return; }
      }
    }
  }

  /** The output stage stands in a block with this last column. */
  ghost predicate Writing(d: FastOutput.DState, col: seq<byte>, chars: seq<byte>)
    reads d, d.tt
  {
    InverseBwt.RowMap(col, InverseBwt.NextRow(col)) && d.Valid(col, InverseBwt.NextRow(col), chars)
  }

  lemma WritingOwes(d: FastOutput.DState, col: seq<byte>, chars: seq<byte>)
    requires Writing(d, col, chars)
    ensures 1 <= d.nblockUsed <= d.saveNblock + 2 == |chars|
  {
  }

  lemma NowWriting(d: FastOutput.DState, col: seq<byte>, chars: seq<byte>)
    requires InverseBwt.RowMap(col, InverseBwt.NextRow(col)) && d.Valid(col, InverseBwt.NextRow(col), chars)
    ensures Writing(d, col, chars) && 1 <= d.nblockUsed <= d.saveNblock + 2 == |chars|
  {
  }

  /** An encoder's block never ends in the middle of a run. */
  lemma NotCorrupt(table: seq<bv32>, s: Snapshot, blocks: seq<Block>, lv: int, rest: seq<bit>)
    requires Follows(table, s, blocks, lv, rest) && s.phase.Output?
    ensures !s.owed.corrupt
  {
  }

  /** While a block is not finished, something is still to come. */
  lemma SomethingOwed(table: seq<bv32>, s: Snapshot, blocks: seq<Block>, lv: int, rest: seq<bit>)
    requires Follows(table, s, blocks, lv, rest) && s.phase.Output? && s.owed != Expansion([], false)
    ensures ToCome(s, blocks, lv) != []
  {
    NotCorrupt(table, s, blocks, lv, rest);
  }

  lemma ComesNext(table: seq<bv32>, s: Snapshot, blocks: seq<Block>, lv: int, rest: seq<bit>)
    requires Follows(table, s, blocks, lv, rest) && s.phase.Blkhdr?
    ensures s.at <= |blocks| && ValidBlocks(blocks, lv) && s.level == lv
    ensures s.remaining == BitsOf(if s.at < |blocks| then BLOCK_MAGIC else END_MAGIC) +
      AfterMagic(table, blocks, lv, s.at, rest)
    ensures s.at < |blocks| ==> ValidBlock(blocks[s.at], s.level) && RunsOk(blocks[s.at].runs)
    ensures s.at == |blocks| ==> s.combined == CombinedCrc(table, blocks, lv)
  {
    StartsWithMagic(table, blocks, lv, s.at, rest);
    assert s.at < |blocks| ==> ValidBlock(blocks[s.at], lv);
    if s.at == |blocks| { assert blocks[..s.at] == blocks; }
  }

  lemma IdleFollows(table: seq<bv32>, s: Snapshot, s': Snapshot, blocks: seq<Block>, lv: int, rest: seq<bit>)
    requires Follows(table, s, blocks, lv, rest) && s.phase.Blkhdr? && s.at == |blocks|
    requires s'.phase.Idle? && s'.remaining == rest
    ensures Follows(table, s', blocks, lv, rest) && ToCome(s', blocks, lv) == ToCome(s, blocks, lv)
  {
  }

  lemma NextCrc(table: seq<bv32>, blocks: seq<Block>, lv: int, i: nat)
    requires |table| == 256 && ValidBlocks(blocks, lv) && i < |blocks|
    ensures RunsOk(blocks[i].runs)
    ensures CombinedCrc(table, blocks[..i + 1], lv) ==
      Combine(CombinedCrc(table, blocks[..i], lv), BlockCrcOf(table, blocks[i].runs))
  {
    RunsAreOk(blocks, lv, i);
    assert blocks[..i + 1][..i] == blocks[..i];
  }

  /** What follows the next magic number. */
  ghost function AfterMagic(table: seq<bv32>, blocks: seq<Block>, lv: int, i: nat, rest: seq<bit>): seq<bit>
    requires |table| == 256 && ValidBlocks(blocks, lv) && i <= |blocks|
  {
    if i < |blocks| then BodyBits(table, blocks[i], lv) + (StreamFrom(table, blocks, lv, i + 1) + rest)
    else Bits(CombinedCrc(table, blocks, lv) as int, 32) + rest
  }

  lemma StartsWithMagic(table: seq<bv32>, blocks: seq<Block>, lv: int, i: nat, rest: seq<bit>)
    requires |table| == 256 && ValidBlocks(blocks, lv) && i <= |blocks|
    ensures StreamFrom(table, blocks, lv, i) + rest
         == BitsOf(if i < |blocks| then BLOCK_MAGIC else END_MAGIC) + AfterMagic(table, blocks, lv, i, rest)
    ensures i < |blocks| ==> RunsOk(blocks[i].runs)
                             && PlainFrom(blocks, lv, i) == ExpandRuns(blocks[i].runs) + PlainFrom(blocks, lv, i + 1)
    ensures i == |blocks| ==> PlainFrom(blocks, lv, i) == []
  {
    hide BitsOf, Bits, ValidBlock, CombinedCrc, MtfBitsOf, BlockCrcOf, RunsOk, ExpandRuns;
    if i < |blocks| {
      RunsAreOk(blocks, lv, i);
      assert ValidBlock(blocks[i], lv);
      Associative(BitsOf(BLOCK_MAGIC), BodyBits(table, blocks[i], lv), StreamFrom(table, blocks, lv, i + 1));
      Associative(BitsOf(BLOCK_MAGIC), BodyBits(table, blocks[i], lv), StreamFrom(table, blocks, lv, i + 1) + rest);
      Associative(BitsOf(BLOCK_MAGIC) + BodyBits(table, blocks[i], lv), StreamFrom(table, blocks, lv, i + 1), rest);
    } else {
      Associative(BitsOf(END_MAGIC), Bits(CombinedCrc(table, blocks, lv) as int, 32), rest);
    }
  }

  lemma HeaderSplit(lv: int, from: seq<bit>, rest: seq<bit>)
    requires 1 <= lv <= 9
    ensures BitsOf(HeaderBytes(lv)) + from + rest == BitsOf([0x42, 0x5a, 0x68]) + (Bits(0x30 + lv, 8) + (from + rest))
  {
    hide Bits;
    assert HeaderBytes(lv)[..3] == [0x42, 0x5a, 0x68];
    Associative(BitsOf([0x42, 0x5a, 0x68]), Bits(0x30 + lv, 8), from + rest);
    Associative(BitsOf([0x42, 0x5a, 0x68]) + Bits(0x30 + lv, 8), from, rest);
  }

  lemma NoBlocks(table: seq<bv32>, lv: int)
    requires |table| == 256
    ensures ValidBlocks([], lv) && CombinedCrc(table, [], lv) == 0
  {
  }
}
