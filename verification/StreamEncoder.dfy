/** BZ2_bzCompress: a stream is compressed over any number of calls, with input and output space
    divided in any way. */
module StreamEncoder {
  import opened Bytes
  import opened BitStrings
  import opened BitIo
  import opened BitWords
  import opened BlockCrc
  import opened BlockFormat
  import opened BlockEncoder
  import opened RunLength
  import BlockSize
  import RB = RunBuffer
  import ByteMaps
  import ByteView

  datatype Mode = Idle | Running | Flushing | Finishing
  datatype State = Input | Output
  datatype Action = Run | Flush | Finish
  datatype Ret = RunOk | FlushOk | FinishOk | StreamEnd | ParamError | SequenceError

  /** What has been written for the blocks so far: nothing until the header has been written, and
      the whole stream, filled up to a byte, once it has ended. */
  ghost predicate Wrote(table: seq<bv32>, level: int, started: bool, ended: bool, blocks: seq<Block>, combined: bv32,
        written: seq<bit>) {
    && |table| == 256 && 1 <= level <= 9 && ValidBlocks(blocks, level) && combined == CombinedCrc(table, blocks, level)
    && (!started ==> !ended && blocks == [] && written == [])
    && (started && !ended ==> written == BitsOf(HeaderBytes(level)) + BlocksBits(table, blocks, level))
    && (ended ==> exists n :: 0 <= n < 8 && written == StreamBits(table, blocks, level) + Zeros(n))
  }

  lemma NothingWrote(table: seq<bv32>, level: int)
    requires |table| == 256 && 1 <= level <= 9
    ensures Wrote(table, level, false, false, [], 0, [])
  {
  }

  lemma WroteBlocks(table: seq<bv32>, level: int, started: bool, ended: bool, blocks: seq<Block>, combined: bv32,
        written: seq<bit>)
    requires Wrote(table, level, started, ended, blocks, combined, written)
    ensures ValidBlocks(blocks, level) && |table| == 256
  {
  }

  lemma HeaderWrote(table: seq<bv32>, level: int, blocks: seq<Block>, combined: bv32, written: seq<bit>)
    requires Wrote(table, level, false, false, blocks, combined, written)
    ensures Wrote(table, level, true, false, blocks, combined, written + BitsOf(HeaderBytes(level)))
  {
    assert [] + BitsOf(HeaderBytes(level)) == BitsOf(HeaderBytes(level)) + [];
  }

  lemma BlockWrote(table: seq<bv32>, level: int, blocks: seq<Block>, combined: bv32, written: seq<bit>, k: Block)
    requires Wrote(table, level, true, false, blocks, combined, written) && ValidBlock(k, level)
    ensures RunsOk(k.runs)
    ensures Wrote(table, level, true, false, blocks + [k], Combine(combined, BlockCrcOf(table, k.runs)), written +
                  BlockBits(table, k, level))
    ensures ValidBlocks(blocks + [k], level) && Plain(blocks + [k], level) == Plain(blocks, level) + ExpandRuns(k.runs)
  {
    hide ValidBlock, BlockBits, BitsOf, Combine;
    ValidHasRuns(k, level);
    var more := blocks + [k];
    assert more[..|blocks|] == blocks;
    forall i | 0 <= i < |more|
      ensures ValidBlock(more[i], level) { if i < |blocks| { assert ValidBlock(blocks[i], level); } }
    Associative(BitsOf(HeaderBytes(level)), BlocksBits(table, blocks, level), BlockBits(table, k, level));
  }

  lemma ValidHasRuns(k: Block, level: int)
    requires ValidBlock(k, level)
    ensures RunsOk(k.runs)
  {
  }

  lemma TrailerWrote(table: seq<bv32>, level: int, blocks: seq<Block>, combined: bv32, written: seq<bit>, n: nat)
    requires Wrote(table, level, true, false, blocks, combined, written) && n < 8
    ensures Wrote(table, level, true, true, blocks, combined, written + BitsOf(END_MAGIC) + Bits(combined as int, 32) +
                  Zeros(n))
  {
    hide BitsOf, Bits, ValidBlock;
    Associative(written, BitsOf(END_MAGIC), Bits(combined as int, 32));
  }

  /** These bytes are the whole stream of the blocks that stand for the input, filled up to a byte. */
  ghost predicate CompleteStream(table: seq<bv32>, level: int, blocks: seq<Block>, taken: seq<byte>,
        emitted: seq<byte>) {
    && |table| == 256 && 1 <= level <= 9 && ValidBlocks(blocks, level) && taken == Plain(blocks, level)
    && exists n :: 0 <= n < 8 && BitsOf(emitted) == StreamBits(table, blocks, level) + Zeros(n)
  }

  lemma DataSize(k: Block, level: int)
    requires ValidBlock(k, level)
    ensures RunsOk(k.runs) && Data(k) == EncodeRuns(k.runs)
  {
  }

  /** The block is coded, in work arrays of its size. */
  method CodeBlock(w: BitWriter, buf: RB.RunBuffer, level: int, workFactor: int, choice: seq<int>,
        ghost table: seq<bv32>)
    returns (ghost k: Block)
    requires |table| == 256 && 1 <= level <= 9 && buf.crcTable == table && buf.arr2.Length == 100000 * level + 34
    requires w.Valid() && buf.Sealed() && 0 < buf.nblock <= 100000 * level - 10
    modifies w, buf.arr2
    ensures w.Valid() && w.sent == old(w.sent) && ValidBlock(k, level) && k.runs == buf.runs
    ensures w.Written() == old(w.Written()) + BlockBits(table, k, level)
    ensures |BlockBits(table, k, level)| <= 18 * buf.nblock + 52000
  {
    hide BitWriter.Valid, BitWriter.Written, BlockBits, ValidBlock, EncodeRuns, RunsOk;
    hide BlockIn, ByteMaps.Covers, BlockCrcOf, RB.RunBuffer.Sealed, FinaliseCrc;
    SealedBlock(buf);
    var arr1, ftab := new int[buf.nblock], new uint32[65537];
    k := CompressBlock(w, arr1, buf.arr2, ftab, buf.inUse, buf.nblock, workFactor, FinaliseCrc(buf.blockCRC), level,
                       choice, buf.runs, table);
    DataSize(k, level);
    BlockSize.BlockBitsSize(table, k, level);
  }

  /** These bytes are the header and the blocks that stand for the input, but for the last bits; or
      nothing has been written yet. */
  ghost predicate FlushedStream(table: seq<bv32>, level: int, blocks: seq<Block>, taken: seq<byte>,
        emitted: seq<byte>) {
    && |table| == 256 && 1 <= level <= 9 && ValidBlocks(blocks, level) && taken == Plain(blocks, level)
    && exists held: seq<bit> :: |held| <= 32
         && BitsOf(emitted) + held == if blocks == [] && emitted == [] && held == [] then []
                                      else BitsOf(HeaderBytes(level)) + BlocksBits(table, blocks, level)
  }

  /** EState. The ghost fields are the blocks written, whether the trailer has been, all input
      taken and all output delivered. */
  class Compressor {
    const crcTable: seq<bv32>
    const level: int
    const w: BitWriter
    const pick: seq<seq<int>>
    const workFactor: int
    var buf: RB.RunBuffer
    var mode: Mode
    var state: State
    var availInExpect: nat
    var combinedCRC: bv32
    var blockNo: int
    var stateOutPos: nat
    ghost var blocks: seq<Block>
    ghost var ended: bool
    ghost var taken: seq<byte>
    ghost var emitted: seq<byte>

    function NblockMax(): int {
      100000 * level - 19
    }

    ghost function Repr(): set<object>
      reads this
    {
      {this, w, buf, buf.inUse, buf.arr2}
    }

    /** The parts that do not depend on what the blocks mean. */
    ghost predicate Shape()
      reads Repr()
    {
      && |crcTable| == 256 && 1 <= level <= 9 && buf.crcTable == crcTable && blockNo >= 1
      && buf.arr2.Length == 100000 * level + 34 && stateOutPos <= |w.zbits|
      && emitted == w.sent + w.zbits[..stateOutPos]
      && (ended ==> state == Output) && (!ended ==> w.Valid())
    }

    /** A block is being filled. */
    ghost predicate Filling()
      reads Repr()
    {
      && Shape() && !ended && state == Input && w.zbits == [] && buf.Valid() && RunsOk(buf.runs)
      && buf.nblock < NblockMax() + 5
      && Wrote(crcTable, level, blockNo > 1, false, blocks, combinedCRC, w.Written())
      && taken == Plain(blocks, level) + buf.Held()
    }

    /** A block is being delivered; only what is pending has not been coded. */
    ghost predicate Delivering()
      reads Repr()
    {
      && Shape() && state == Output
      && Wrote(crcTable, level, true, ended, blocks, combinedCRC, w.Written())
      && (ended ==> w.Written() == BitsOf(w.sent + w.zbits) && buf.stateInCh == 256)
      && RB.PendingOk([], buf.stateInCh, buf.stateInLen)
      && taken == Plain(blocks, level) + RB.Pending(buf.stateInCh, buf.stateInLen)
    }

    ghost predicate Valid()
      reads Repr()
    {
      && (if state == Input then Filling() && buf.nblock < NblockMax() else Delivering())
      && (ended ==> (mode == Finishing || mode == Idle) && availInExpect == 0)
      && (state == Output && buf.stateInCh == 256 && !ended ==> mode == Flushing)
      && (mode == Idle ==> ended && stateOutPos == |w.zbits|)
    }

    /** BZ2_bzCompressInit */
    constructor (crcTable: seq<bv32>, blockSize100k: int, workFactor: int, pick: seq<seq<int>>)
      requires |crcTable| == 256 && 1 <= blockSize100k <= 9 && 0 <= workFactor <= 250
      ensures Valid() && mode == Running && state == Input && blocks == [] && taken == [] && emitted == []
      ensures this.crcTable == crcTable && level == blockSize100k && fresh(Repr())
    {
      hide Wrote, ValidBlocks, Plain, BitWriter.Valid, BitWriter.Written, RB.RunBuffer.Sealed, RB.PendingOk;
      this.crcTable, level, this.pick := crcTable, blockSize100k, pick;
      this.workFactor := if workFactor == 0 then 30 else workFactor;
      w := new BitWriter();
      buf := new RB.RunBuffer(crcTable, 100000 * blockSize100k + 34, 256, 0);
      mode, state, availInExpect, combinedCRC, blockNo, stateOutPos := Running, Input, 0, 0, 1, 0;
      blocks, ended, taken, emitted := [], false, [], [];
      new;
      NothingWrote(crcTable, level);
      WroteBlocks(crcTable, level, false, false, [], 0, []);
      NoRuns(buf.runs);
      NothingPlain(level);
    }

    /** isempty_RL */
    predicate IsEmptyRl()
      reads this, buf
    {
      !(buf.stateInCh < 256 && buf.stateInLen > 0)
    }

    /** The part of BZ2_compressBlock for a block with something in it, after the header. */
    method WriteBlock()
      requires |crcTable| == 256 && 1 <= level <= 9 && buf.crcTable == crcTable
      requires buf.arr2.Length == 100000 * level + 34
      requires w.Valid() && buf.Sealed() && RunsOk(buf.runs) && 0 < buf.nblock <= 100000 * level - 10
      requires Wrote(crcTable, level, true, false, blocks, combinedCRC, w.Written())
      modifies w, buf.arr2, this`combinedCRC, this`blocks
      ensures w.Valid() && w.sent == old(w.sent)
      ensures Wrote(crcTable, level, true, false, blocks, combinedCRC, w.Written())
      ensures ValidBlocks(blocks, level) && Plain(blocks, level) == old(Plain(blocks, level)) + ExpandRuns(buf.runs)
      ensures |w.Written()| <= |old(w.Written())| + 18 * buf.nblock + 52000
    {
      hide BitWriter.Valid, BitWriter.Written, Wrote, Plain, BlockBits, ExpandRuns, ValidBlock, Combine, RunsOk;
      hide BlockCrcOf, RB.RunBuffer.Sealed, ValidBlocks, EncodeRuns, BlockIn, ByteMaps.Covers, FinaliseCrc;
      SealedBlock(buf);
      WroteBlocks(crcTable, level, true, false, blocks, combinedCRC, w.Written());
      var crc := FinaliseCrc(buf.blockCRC);
      ghost var written := w.Written();
      var choice := if 0 <= blockNo < |pick| then pick[blockNo] else [];
      ghost var k := CodeBlock(w, buf, level, workFactor, choice, crcTable);
      BlockWrote(crcTable, level, blocks, combinedCRC, written, k);
      combinedCRC := Combine(combinedCRC, crc);
      blocks := blocks + [k];
    }

    /** The stream trailer. */
    method WriteTrailer()
      requires Shape() && !ended && Wrote(crcTable, level, true, false, blocks, combinedCRC, w.Written())
      modifies w, this`ended
      ensures ended && w.sent == old(w.sent) && Wrote(crcTable, level, true, true, blocks, combinedCRC, w.Written())
      ensures w.Written() == BitsOf(w.sent + w.zbits) && |w.Written()| <= |old(w.Written())| + 87
    {
      hide BitWriter.Valid, BitWriter.Written, Wrote, BitsOf, Bits;
      ghost var written := w.Written();
      PutBytes(w, END_MAGIC);
      PutUInt32(w, combinedCRC as int);
      w.FinishWrite();
      ghost var n :| 0 <= n < 8 && w.Written() == written + BitsOf(END_MAGIC) + Bits(combinedCRC as int, 32) + Zeros(n);
      TrailerWrote(crcTable, level, blocks, combinedCRC, written, n);
      ended := true;
    }

    /** BZ2_compressBlock; its bytes are then waiting to be delivered. */
    method CompressTop(isLastBlock: bool)
      requires Shape() && !ended && state == Input && w.zbits == [] && buf.Sealed() && RunsOk(buf.runs)
      requires buf.nblock <= 100000 * level - 10 && RB.PendingOk([], buf.stateInCh, buf.stateInLen)
      requires isLastBlock ==> buf.stateInCh == 256
      requires Wrote(crcTable, level, blockNo > 1, false, blocks, combinedCRC, w.Written())
      requires taken == Plain(blocks, level) + buf.Held()
      modifies w, buf.arr2, this`combinedCRC, this`blocks, this`ended, this`state
      ensures Delivering() && ended == isLastBlock && w.sent == old(w.sent)
      ensures buf.nblock + |w.zbits| <= 4 * buf.arr2.Length
    {
      hide BitWriter.Valid, BitWriter.Written, Wrote, Plain, ExpandRuns, RB.RunBuffer.Sealed, BitsOf, ValidBlocks;
      hide RunsOk;
      HeldNothing(buf);
      AllSent(w);
      WroteBlocks(crcTable, level, blockNo > 1, false, blocks, combinedCRC, w.Written());
      if blockNo == 1 {
        HeaderWrote(crcTable, level, blocks, combinedCRC, w.Written());
        PutBytes(w, HeaderBytesOf(level));
      }
      ghost var plain := Plain(blocks, level);
      Associative(plain, ExpandRuns(buf.runs), RB.Pending(buf.stateInCh, buf.stateInLen));
      if buf.nblock > 0 {
        WriteBlock();
      } else {
        assert plain + [] == plain;
      }
      WroteBlocks(crcTable, level, true, false, blocks, combinedCRC, w.Written());
      if isLastBlock { WriteTrailer(); }
      CodedSize(w, 8 * |w.sent| + 32 + 32 + 18 * buf.nblock + 52000 + 87);
      BlockSize.RoomBehindBlock(buf.nblock, level, |w.zbits|);
      state := Output;
      assert w.zbits[..0] == [];
    }

    function HeaderBytesOf(lv: int): (r: seq<byte>)
      requires 1 <= lv <= 9
      ensures r == HeaderBytes(lv)
    {
      [0x42, 0x5a, 0x68, 0x30 + lv]
    }

    /** prepare_new_block */
    method PrepareNewBlock()
      requires Delivering() && !ended && stateOutPos == |w.zbits|
      modifies this, w
      ensures Filling() && stateOutPos == 0 && fresh(buf) && fresh(buf.inUse) && fresh(buf.arr2)
      ensures buf.stateInCh == old(buf.stateInCh) && buf.stateInLen == old(buf.stateInLen) && buf.nblock == 0
      ensures taken == old(taken) && emitted == old(emitted) && mode == old(mode) && availInExpect == old(availInExpect)
    {
      hide Wrote, BitsOf, Plain, BitWriter.Valid, BitWriter.Written, RB.RunBuffer.Sealed, ValidBlocks, RB.PendingOk;
      hide RB.Pending, RunsOk;
      WroteBlocks(crcTable, level, true, false, blocks, combinedCRC, w.Written());
      w.ResetZ();
      assert w.sent + [] == w.sent;
      buf := new RB.RunBuffer(crcTable, 100000 * level + 34, buf.stateInCh, buf.stateInLen);
      NoRuns(buf.runs);
      stateOutPos, state, blockNo := 0, Input, blockNo + 1;
    }

    /** copy_output_until_stop */
    method CopyOutputUntilStop(room: nat) returns (out: seq<byte>)
      requires Delivering()
      modifies this`stateOutPos, this`emitted
      ensures Delivering() && |out| <= room && emitted == old(emitted) + out
      ensures (stateOutPos < |w.zbits| ==> |out| == room)
    {
      hide Wrote, BitsOf, Plain, BitWriter.Valid, BitWriter.Written, ValidBlocks, RB.PendingOk;
      out := [];
      while true
        invariant Delivering() && |out| <= room && emitted == old(emitted) + out
        decreases |w.zbits| - stateOutPos
      {
        if |out| == room { break; }
        if stateOutPos >= |w.zbits| { break; }
        out := out + [w.zbits[stateOutPos]];
        emitted := emitted + [w.zbits[stateOutPos]];
        stateOutPos := stateOutPos + 1;
      }
    }

    /** One byte of input. */
    method TakeByte(c: byte)
      requires Filling() && buf.nblock < NblockMax()
      modifies buf, buf.arr2, buf.inUse, this`taken
      ensures Filling() && buf.stateInCh < 256 && taken == old(taken) + [c]
    {
      hide Wrote, Plain, BitWriter.Valid, BitWriter.Written, ValidBlocks, RB.PendingOk, ExpandRuns, RB.RunBuffer.Sealed;
      WroteBlocks(crcTable, level, blockNo > 1, false, blocks, combinedCRC, w.Written());
      ghost var held := buf.Held();
      buf.AddCharToBlock(c);
      BufferRunsOk(buf);
      Associative(Plain(blocks, level), held, [c]);
      taken := taken + [c];
    }

    method ExpectLess()
      requires Filling() && availInExpect > 0
      modifies this`availInExpect
      ensures Filling() && availInExpect == old(availInExpect) - 1
    {
      availInExpect := availInExpect - 1;
    }

    /** copy_input_until_stop, from position used0 of the input. */
    method CopyInputUntilStop(input: seq<byte>, used0: nat) returns (used: nat)
      requires Filling() && buf.nblock < NblockMax() && used0 <= |input|
      requires mode != Running ==> availInExpect == |input| - used0
      modifies buf, buf.arr2, buf.inUse, this`taken, this`availInExpect
      ensures Filling() && used0 <= used <= |input| && taken == old(taken) + input[used0..used]
      ensures mode != Running ==> availInExpect == |input| - used
      ensures buf.nblock < NblockMax() ==> used == |input|
      ensures used > used0 ==> buf.stateInCh < 256
      ensures used == used0 ==> used == |input| && buf.stateInCh == old(buf.stateInCh) && buf.nblock == old(buf.nblock)
    {
      hide Filling;
      used := used0;
      ghost var before := taken;
      assert before + [] == before;
      FillingShape(this);
      if mode == Running {
        while true
          invariant Filling() && used0 <= used <= |input| && taken == before + input[used0..used]
          invariant used > used0 ==> buf.stateInCh < 256
          invariant used == used0 ==> buf.stateInCh == old(buf.stateInCh) && buf.nblock == old(buf.nblock)
          decreases |input| - used
        {
          if buf.nblock >= NblockMax() { break; }
          if used == |input| { break; }
          NextTaken(before, input, used0, used);
          TakeByte(input[used]);
          used := used + 1;
        }
      } else {
        while true
          invariant Filling() && used0 <= used <= |input| && taken == before + input[used0..used]
          invariant used > used0 ==> buf.stateInCh < 256
          invariant used == used0 ==> buf.stateInCh == old(buf.stateInCh) && buf.nblock == old(buf.nblock)
          invariant availInExpect == |input| - used
          decreases |input| - used
        {
          if buf.nblock >= NblockMax() { break; }
          if used == |input| { break; }
          if availInExpect == 0 { break; }
          NextTaken(before, input, used0, used);
          TakeByte(input[used]);
          used := used + 1;
          ExpectLess();
        }
      }
    }

    /** The first half of a turn of handle_compress: deliver what is waiting, and make ready for
        the next block. */
    method OutputTurn(room: nat) returns (stop: bool, out: seq<byte>)
      requires Valid() && state == Output && mode != Idle
      modifies this, w
      ensures mode == old(mode) && availInExpect == old(availInExpect) && taken == old(taken)
      ensures |out| <= room && emitted == old(emitted) + out
      ensures (state == Output && stateOutPos < |w.zbits| ==> |out| == room)
      ensures Valid() && (buf == old(buf) || (fresh(buf) && fresh(buf.inUse) && fresh(buf.arr2)))
      ensures buf.stateInCh == old(buf.stateInCh)
      ensures !stop ==> state == Input && !(mode != Running && availInExpect == 0 && buf.stateInCh == 256)
      ensures stop && stateOutPos == |w.zbits| ==> mode != Running && availInExpect == 0 && buf.stateInCh == 256
      ensures stop ==> (state == Input <==> mode == Flushing && stateOutPos == |w.zbits|)
    {
      hide Filling, Delivering;
      out := CopyOutputUntilStop(room);
      if stateOutPos < |w.zbits| { DeliveringShape(this); return true, out; }
      if mode == Finishing && availInExpect == 0 && IsEmptyRl() { DeliveringShape(this); return true, out; }
      DeliveringShape(this);
      PrepareNewBlock();
      FillingEmpty(this);
      stop := mode == Flushing && availInExpect == 0 && IsEmptyRl();
    }

    /** The second half: fill the block, and compress it when it is full or everything expected has
        come. */
    method InputTurn(input: seq<byte>, used0: nat) returns (stop: bool, used: nat)
      requires Valid() && state == Input && mode != Idle && used0 <= |input|
      requires mode != Running ==> availInExpect == |input| - used0
      modifies this, w, buf, buf.arr2, buf.inUse
      ensures Valid() && mode == old(mode) && buf == old(buf) && emitted == old(emitted)
      ensures used0 <= used <= |input| && taken == old(taken) + input[used0..used]
      ensures mode != Running ==> availInExpect == |input| - used
      ensures stop ==> mode == Running && state == Input && used == |input|
      ensures !stop ==> state == Output
      ensures !stop && used == used0 ==> mode != Running && availInExpect == 0 && buf.stateInCh == 256
    {
      hide Filling, Delivering;
      used := CopyInputUntilStop(input, used0);
      if mode != Running && availInExpect == 0 {
        FlushAndCompress();
        return false, used;
      }
      if buf.nblock >= NblockMax() {
        CompressFull();
        return false, used;
      }
      FillingEmpty(this);
      stop := true;
    }

    /** flush_RL, and the block is compressed: the last one if the stream is to be finished. */
    method FlushAndCompress()
      requires Filling() && mode != Idle && mode != Running && availInExpect == 0
      modifies this, w, buf, buf.arr2, buf.inUse
      ensures Valid() && state == Output && mode == old(mode) && buf == old(buf) && buf.stateInCh == 256
      ensures emitted == old(emitted) && taken == old(taken) && availInExpect == old(availInExpect)
    {
      hide Wrote, Plain, BitWriter.Valid, BitWriter.Written, ValidBlocks, ExpandRuns, BitsOf, Delivering;
      buf.FlushRl();
      NothingPending();
      CompressTop(mode == Finishing);
      DeliveringShape(this);
    }

    /** A full block is compressed; the pending run waits for the next one. */
    method CompressFull()
      requires Filling() && mode != Idle && buf.stateInCh < 256
      modifies this, w, buf.arr2
      ensures Valid() && state == Output && mode == old(mode) && buf == old(buf) && buf.stateInCh == old(buf.stateInCh)
      ensures emitted == old(emitted) && taken == old(taken) && availInExpect == old(availInExpect)
    {
      hide Wrote, Plain, BitWriter.Valid, BitWriter.Written, ValidBlocks, ExpandRuns, BitsOf, Delivering;
      CompressTop(false);
      DeliveringShape(this);
    }

    /** handle_compress: go on until there is neither input to take nor room for output. */
    method HandleCompress(input: seq<byte>, room: nat) returns (progress: bool, used: nat, out: seq<byte>)
      requires Valid() && mode != Idle && (mode != Running ==> availInExpect == |input|)
      modifies Repr()
      ensures Valid() && mode == old(mode) && fresh(Repr() - old(Repr()))
      ensures used <= |input| && taken == old(taken) + input[..used]
      ensures (mode != Running ==> availInExpect == |input| - used)
      ensures |out| <= room && emitted == old(emitted) + out && (stateOutPos < |w.zbits| ==> |out| == room)
      ensures progress <==> used > 0 || |out| > 0
      ensures mode == Running && stateOutPos == |w.zbits| ==> used == |input|
      ensures mode != Running && stateOutPos == |w.zbits| ==> availInExpect == 0 && buf.stateInCh == 256
      ensures mode == Finishing ==> state == Output
      ensures mode == Flushing && stateOutPos == |w.zbits| ==> state == Input
    {
      hide Filling, Delivering;
      used, out := 0, [];
      ghost var taken0, emitted0 := taken, emitted;
      assert taken0 + [] == taken0 && emitted0 + [] == emitted0;
      while true
        invariant Valid() && mode == old(mode) && fresh(Repr() - old(Repr()))
        invariant used <= |input| && taken == taken0 + input[..used]
        invariant (mode != Running ==> availInExpect == |input| - used)
        invariant |out| <= room && emitted == emitted0 + out
        decreases |input| - used, if mode != Running && availInExpect == 0 && buf.stateInCh == 256 &&
          state == Output then 0 else 1
      {
        var stop;
        if state == Output {
          var piece;
          stop, piece := OutputTurn(room - |out|);
          Associative(emitted0, out, piece);
          out := out + piece;
          if stop { StoppedShape(this); break; }
        }
        ghost var used0 := used;
        stop, used := InputTurn(input, used);
        TakenMore(taken0, input, used0, used);
        if stop { StoppedShape(this); break; }
      }
      progress := used > 0 || |out| > 0;
    }

    /** All of the stream has been delivered. */
    ghost predicate Complete()
      reads this
    {
      CompleteStream(crcTable, level, blocks, taken, emitted)
    }

    /** A flush is over: the blocks so far stand for all the input, no byte of it is held back, and
        all that has been written has been delivered but for the bits in the bit buffer. */
    ghost predicate Flushed()
      reads Repr()
    {
      && state == Input && buf.stateInCh == 256 && buf.runs == []
      && FlushedStream(crcTable, level, blocks, taken, emitted)
    }

    lemma FlushedNow()
      requires Valid() && state == Input && buf.stateInCh == 256
      ensures Flushed()
    {
      hide BitsOf, BlocksBits, Plain, ValidBlock;
      assert w.sent + w.zbits[..stateOutPos] == w.sent && w.sent + w.zbits == w.sent;
      assert Plain(blocks, level) + [] == Plain(blocks, level);
      assert BitsOf(emitted) + w.pending == w.Written();
    }

    lemma EndedIsComplete()
      requires Delivering() && ended && stateOutPos == |w.zbits|
      ensures Complete()
    {
      hide BitsOf, StreamBits, Plain, ValidBlock;
      assert w.zbits[..|w.zbits|] == w.zbits;
      assert Plain(blocks, level) + [] == Plain(blocks, level);
    }

    /** BZ2_bzCompress. It takes the first used bytes of the input and delivers out; whatever the
        calls, once it says that the stream has ended, the output is complete. */
    method BzCompress(action: Action, input: seq<byte>, room: nat) returns (ret: Ret, used: nat, out: seq<byte>)
      requires Valid()
      modifies Repr()
      ensures Valid() && fresh(Repr() - old(Repr())) && used <= |input| && |out| <= room
      ensures taken == old(taken) + input[..used] && emitted == old(emitted) + out
      ensures ret == StreamEnd <==> old(mode) != Idle && mode == Idle
      ensures ret == StreamEnd ==> used == |input| && Complete()
      ensures ret == FinishOk || ret == FlushOk ==> |out| == room
      ensures ret == RunOk && (|out| < room || action == Flush) ==> used == |input|
      ensures ret == RunOk && action == Flush ==> Flushed()
    {
      hide Filling, Delivering, Complete, Flushed;
      used, out := 0, [];
      assert taken + input[..0] == taken && emitted + [] == emitted;
      if mode == Idle { return SequenceError, used, out; }
      if mode == Running {
        if action == Action.Run {
          var progress;
          progress, used, out := HandleCompress(input, room);
          StoppedShape(this);
          ret := if progress then RunOk else ParamError;
          return;
        }
        Expect(|input|, if action == Flush then Flushing else Finishing);
      }
      if mode == Flushing {
        if action != Flush { return SequenceError, used, out; }
        if availInExpect != |input| { return SequenceError, used, out; }
        ret, used, out := FlushMore(input, room);
        return;
      }
      if action != Finish { return SequenceError, used, out; }
      if availInExpect != |input| { return SequenceError, used, out; }
      ret, used, out := FinishMore(input, room);
    }

    /** The case of BZ_M_FLUSHING. */
    method FlushMore(input: seq<byte>, room: nat) returns (ret: Ret, used: nat, out: seq<byte>)
      requires Valid() && mode == Flushing && availInExpect == |input|
      modifies Repr()
      ensures Valid() && fresh(Repr() - old(Repr())) && used <= |input| && |out| <= room && mode != Idle
      ensures taken == old(taken) + input[..used] && emitted == old(emitted) + out
      ensures ret == FlushOk || ret == RunOk
      ensures ret == FlushOk ==> |out| == room
      ensures ret == RunOk ==> used == |input| && Flushed()
    {
      hide Filling, Delivering, Flushed;
      var progress;
      progress, used, out := HandleCompress(input, room);
      StoppedShape(this);
      if availInExpect > 0 || !IsEmptyRl() || stateOutPos < |w.zbits| { return FlushOk, used, out; }
      EndFlush();
      FlushedNow();
      ret := RunOk;
    }

    /** The case of BZ_M_FINISHING. */
    method FinishMore(input: seq<byte>, room: nat) returns (ret: Ret, used: nat, out: seq<byte>)
      requires Valid() && mode == Finishing && availInExpect == |input|
      modifies Repr()
      ensures Valid() && fresh(Repr() - old(Repr())) && used <= |input| && |out| <= room
      ensures taken == old(taken) + input[..used] && emitted == old(emitted) + out
      ensures ret == StreamEnd || ret == FinishOk || ret == SequenceError
      ensures ret == StreamEnd <==> mode == Idle
      ensures ret == StreamEnd ==> used == |input| && Complete()
      ensures ret == FinishOk ==> |out| == room
    {
      hide Filling, Delivering, Complete;
      var progress;
      progress, used, out := HandleCompress(input, room);
      StoppedShape(this);
      if !progress { return SequenceError, used, out; }
      if availInExpect > 0 || !IsEmptyRl() || stateOutPos < |w.zbits| { return FinishOk, used, out; }
      EndStream();
      ret := StreamEnd;
    }

    method Expect(n: nat, m: Mode)
      requires Valid() && mode == Running && (m == Flushing || m == Finishing)
      modifies this`availInExpect, this`mode
      ensures Valid() && mode == m && availInExpect == n
    {
      hide Wrote, Plain, BitWriter.Valid, BitWriter.Written, ValidBlocks, RB.PendingOk, RB.RunBuffer.Sealed;
      hide RB.RunBuffer.Held, BitsOf, RunsOk;
      availInExpect, mode := n, m;
    }

    /** The end of a flush. */
    method EndFlush()
      requires Valid() && state == Input
      modifies this`mode
      ensures Valid() && mode == Running
    {
      hide Wrote, Plain, BitWriter.Valid, BitWriter.Written, ValidBlocks, RB.PendingOk, RB.RunBuffer.Sealed;
      hide RB.RunBuffer.Held, BitsOf, RunsOk;
      mode := Running;
    }

    /** The end of the stream. */
    method EndStream()
      requires Valid() && stateOutPos == |w.zbits|
      requires state == Output && mode == Finishing && buf.stateInCh == 256 && availInExpect == 0
      modifies this`mode
      ensures Valid() && mode == Idle && Complete()
    {
      hide Delivering, Filling, Shape, CompleteStream;
      StoppedEnd();
      EndedIsComplete();
      SetIdle();
    }

    lemma StoppedEnd()
      requires Valid() && state == Output && mode == Finishing && buf.stateInCh == 256
      ensures Delivering() && ended
    {
    }

    method SetIdle()
      requires Valid() && stateOutPos == |w.zbits| && state == Output && ended
      modifies this`mode
      ensures Valid() && mode == Idle
    {
      hide Wrote, Plain, BitWriter.Valid, BitWriter.Written, ValidBlocks, RB.PendingOk, RB.RunBuffer.Sealed;
      hide RB.RunBuffer.Held, BitsOf, RunsOk;
      mode := Idle;
    }
  }

  lemma StoppedShape(c: Compressor)
    requires c.Valid()
    ensures c.Shape() && (c.state == Input ==> c.w.zbits == [] && c.stateOutPos == 0)
  {
  }

  lemma TakenMore(taken: seq<byte>, input: seq<byte>, from: nat, used: nat)
    requires from <= used <= |input|
    ensures taken + input[..from] + input[from..used] == taken + input[..used]
  {
  }

  lemma AllSent(w: BitWriter)
    requires w.Valid() && w.zbits == []
    ensures |w.Written()| <= 8 * |w.sent| + 32
  {
    assert w.sent + w.zbits == w.sent;
  }

  lemma CodedSize(w: BitWriter, n: int)
    requires |w.Written()| <= n
    ensures 8 * |w.zbits| <= n - 8 * |w.sent|
  {
  }

  lemma NothingPending()
    ensures RB.PendingOk([], 256, 0)
  {
  }

  lemma DeliveringShape(c: Compressor)
    requires c.Delivering()
    ensures c.Shape() && c.state == Output && (c.ended ==> c.buf.stateInCh == 256)
    ensures (c.IsEmptyRl() <==> c.buf.stateInCh == 256)
  {
  }

  lemma FillingEmpty(c: Compressor)
    requires c.Filling()
    ensures c.Shape() && c.state == Input && !c.ended && c.w.zbits == [] && (c.IsEmptyRl() <==> c.buf.stateInCh == 256)
  {
  }

  lemma FillingShape(c: Compressor)
    requires c.Filling()
    ensures c.Shape()
  {
  }

  lemma NextTaken(before: seq<byte>, input: seq<byte>, from: nat, used: nat)
    requires from <= used < |input|
    ensures before + input[from..used] + [input[used]] == before + input[from..used + 1]
  {
  }

  lemma BufferRunsOk(buf: RB.RunBuffer)
    requires buf.Sealed()
    ensures RunsOk(buf.runs)
  {
  }

  lemma NoRuns(runs: seq<Run>)
    requires runs == []
    ensures RunsOk(runs)
  {
  }

  lemma NothingPlain(level: int)
    ensures ValidBlocks([], level) && Plain([], level) + RB.Pending(256, 0) == []
    ensures RB.PendingOk([], 256, 0)
  {
  }

  /** A sealed buffer meets the needs of CompressBlock. */
  lemma SealedBlock(buf: RB.RunBuffer)
    requires buf.Sealed()
    ensures |buf.crcTable| == 256 && buf.inUse.Length == 256 && RunsOk(buf.runs) && buf.nblock == |EncodeRuns(buf.runs)|
    ensures buf.nblock + 34 <= buf.arr2.Length ==> BlockIn(buf.arr2[..], EncodeRuns(buf.runs))
    ensures ByteMaps.Covers(buf.inUse[..], EncodeRuns(buf.runs))
    ensures FinaliseCrc(buf.blockCRC) == BlockCrcOf(buf.crcTable, buf.runs)
  {
    assert ByteView.BytesOf(buf.arr2[..], buf.nblock) == buf.Block();
  }

  /** A buffer without bytes holds only what is pending. */
  lemma HeldNothing(buf: RB.RunBuffer)
    requires buf.Sealed()
    ensures buf.nblock >= 0 && RunsOk(buf.runs) && (buf.nblock == 0 ==> ExpandRuns(buf.runs) == [])
  {
    RB.NothingHeld(buf.crcTable, buf.Block(), buf.inUse[..], buf.blockCRC, buf.runs);
  }
}
