/** The initial run-length coding of the encoder: ADD_CHAR_TO_BLOCK, add_pair_to_block and flush_RL,
    with the block they fill. */
module RunBuffer {
  import opened Bytes
  import opened RunLength
  import opened BlockCrc
  import opened ByteMaps
  import opened ByteView

  /** What is pending may follow the runs of the block: 256 stands for nothing. */
  ghost predicate PendingOk(runs: seq<Run>, ch: int, len: int) {
    && 0 <= ch <= 256 && (ch == 256 ==> len == 0) && (ch < 256 ==> 1 <= len <= 255)
    && (|runs| > 0 ==> ch < 256 && (runs[|runs| - 1].ch != ch || runs[|runs| - 1].len == 255))
  }

  /** The block and its CRC are those of the runs, and all its bytes are marked. */
  ghost predicate Coded(table: seq<bv32>, b: seq<byte>, inUse: seq<bool>, crc: bv32, runs: seq<Run>) {
    && |table| == 256 && RunsOk(runs) && b == EncodeRuns(runs) && Covers(inUse, b)
    && crc == CrcOf(table, 0xffff_ffff, ExpandRuns(runs))
  }

  /** What stands for the bytes that are not in the block yet. */
  ghost function Pending(ch: int, len: int): seq<byte> {
    if 0 <= ch < 256 && len >= 0 then Rep(ch, len) else []
  }

  lemma OneMoreRun(runs: seq<Run>, r: Run)
    requires RunsOk(runs) && RunsOk(runs + [r]) && 1 <= r.len <= 255
    ensures EncodeRuns(runs + [r]) == EncodeRuns(runs) + EncodeRun(r)
    ensures ExpandRuns(runs + [r]) == ExpandRuns(runs) + Rep(r.ch, r.len)
  {
    assert (runs + [r])[..|runs|] == runs;
  }

  lemma PendingRun(runs: seq<Run>, ch: byte, len: int)
    requires RunsOk(runs) && PendingOk(runs, ch, len)
    ensures RunsOk(runs + [Run(ch, len)])
  {
  }

  lemma CodedCovers(inUse: seq<bool>, b: seq<byte>, inUse': seq<bool>, ch: byte, len: int)
    requires 1 <= len <= 255 && Covers(inUse, b) && |inUse'| == 256 && inUse'[ch] && (len >= 4 ==> inUse'[len - 4])
    requires forall c :: 0 <= c < 256 && inUse[c] ==> inUse'[c]
    ensures Covers(inUse', b + EncodeRun(Run(ch, len)))
  {
  }

  /** One more run. */
  lemma RunAdded(table: seq<bv32>, b: seq<byte>, inUse: seq<bool>, crc: bv32, runs: seq<Run>, ch: byte, len: int,
                 b': seq<byte>, inUse': seq<bool>, crc': bv32)
    requires Coded(table, b, inUse, crc, runs) && PendingOk(runs, ch, len)
    requires b' == b + EncodeRun(Run(ch, len)) && crc' == CrcOf(table, crc, Rep(ch, len))
    requires |inUse'| == 256 && inUse'[ch] && (len >= 4 ==> inUse'[len - 4])
    requires forall c :: 0 <= c < 256 && inUse[c] ==> inUse'[c]
    ensures Coded(table, b', inUse', crc', runs + [Run(ch, len)])
    ensures ExpandRuns(runs + [Run(ch, len)]) == ExpandRuns(runs) + Rep(ch, len)
  {
    var runs' := runs + [Run(ch, len)];
    assert runs'[..|runs|] == runs;
    PendingRun(runs, ch, len);
    OneMoreRun(runs, Run(ch, len));
    CodedCovers(inUse, b, inUse', ch, len);
    hide CrcOf, EncodeRun, EncodeRuns, ExpandRuns, RunsOk, Covers;
    CrcOfConcat(table, 0xffff_ffff, ExpandRuns(runs), Rep(ch, len));
  }

  /** Part of EState. */
  class RunBuffer {
    const crcTable: seq<bv32>
    const inUse: array<bool>
    const arr2: array<int>
    var nblock: int
    var stateInCh: int
    var stateInLen: int
    var blockCRC: bv32
    ghost var runs: seq<Run>

    /** The block is in order and can be compressed. */
    ghost predicate Sealed()
      reads this, inUse, arr2
    {
      && inUse.Length == 256 && HoldsBytes(arr2[..], 4 * arr2.Length) && 0 <= nblock <= 4 * arr2.Length
      && Coded(crcTable, Block(), inUse[..], blockCRC, runs)
    }

    /** More bytes may be added. */
    ghost predicate Valid()
      reads this, inUse, arr2
    {
      Sealed() && PendingOk(runs, stateInCh, stateInLen)
    }

    /** The bytes of the block. */
    ghost function Block(): (b: seq<byte>)
      requires HoldsBytes(arr2[..], 4 * arr2.Length) && 0 <= nblock <= 4 * arr2.Length
      ensures |b| == nblock
      reads this, arr2
    {
      BytesOf(arr2[..], 4 * arr2.Length)[..nblock]
    }

    /** The input that the block and the pending run stand for. */
    ghost function Held(): seq<byte>
      requires RunsOk(runs)
      reads this
    {
      ExpandRuns(runs) + Pending(stateInCh, stateInLen)
    }

    /** prepare_new_block, with what is pending from the last one; at first that is nothing. */
    constructor (crcTable: seq<bv32>, words: nat, ch: int, len: int)
      requires |crcTable| == 256 && PendingOk([], ch, len)
      ensures Valid() && this.crcTable == crcTable && nblock == 0 && stateInCh == ch && stateInLen == len
      ensures runs == [] && Held() == Pending(ch, len)
      ensures fresh(inUse) && fresh(arr2) && arr2.Length == words
    {
      this.crcTable := crcTable;
      inUse := new bool[256](_ => false);
      arr2 := new int[words](_ => 0);
      nblock, stateInCh, stateInLen, blockCRC, runs := 0, ch, len, 0xffff_ffff, [];
      new;
      assert [] + Pending(ch, len) == Pending(ch, len);
    }

    /** block[nblock] = c; nblock++ */
    method PutChar(c: byte)
      requires HoldsBytes(arr2[..], 4 * arr2.Length) && 0 <= nblock < 4 * arr2.Length
      modifies this`nblock, arr2
      ensures HoldsBytes(arr2[..], 4 * arr2.Length) && nblock == old(nblock) + 1 && Block() == old(Block()) + [c]
    {
      PutByte(arr2, nblock, c, 4 * arr2.Length);
      nblock := nblock + 1;
    }

    /** BZ_UPDATE_CRC for every byte of the run. */
    method UpdateCrcBy(ch: byte, len: nat)
      requires |crcTable| == 256
      modifies this`blockCRC
      ensures blockCRC == CrcOf(crcTable, old(blockCRC), Rep(ch, len))
    {
      hide UpdateCrc;
      for i := 0 to len
        invariant blockCRC == CrcOf(crcTable, old(blockCRC), Rep(ch, i))
      {
        assert Rep(ch, i + 1)[..i] == Rep(ch, i);
        blockCRC := UpdateCrc(crcTable, blockCRC, ch);
      }
    }

    /** The bytes of the pending run. */
    method PutRun()
      requires HoldsBytes(arr2[..], 4 * arr2.Length) && 0 <= nblock && nblock + 5 <= 4 * arr2.Length
      requires 0 <= stateInCh < 256 && 1 <= stateInLen <= 255 && inUse.Length == 256
      modifies this`nblock, arr2, inUse
      ensures HoldsBytes(arr2[..], 4 * arr2.Length)
      ensures old(nblock) < nblock == old(nblock) + |EncodeRun(Run(stateInCh, stateInLen))| <= old(nblock) + 5
      ensures Block() == old(Block()) + EncodeRun(Run(stateInCh, stateInLen))
      ensures inUse[stateInCh] && (stateInLen >= 4 ==> inUse[stateInLen - 4])
      ensures forall c :: 0 <= c < 256 && old(inUse[c]) ==> inUse[c]
    {
      hide HoldsBytes, BytesOf, EncodeRun;
      var ch: byte := stateInCh;
      inUse[ch] := true;
      ghost var b := Block();
      RunBytes(b, ch, stateInLen);
      if stateInLen == 1 {
        PutChar(ch);
      } else if stateInLen == 2 {
        PutChar(ch);
        PutChar(ch);
      } else if stateInLen == 3 {
        PutChar(ch);
        PutChar(ch);
        PutChar(ch);
      } else {
        inUse[stateInLen - 4] := true;
        PutChar(ch);
        PutChar(ch);
        PutChar(ch);
        PutChar(ch);
        PutChar(stateInLen - 4);
      }
    }

    /** add_pair_to_block */
    method AddPairToBlock()
      requires Valid() && stateInCh < 256 && nblock + 5 <= 4 * arr2.Length
      modifies this`nblock, this`blockCRC, this`runs, arr2, inUse
      ensures HoldsBytes(arr2[..], 4 * arr2.Length) && inUse.Length == 256
      ensures old(nblock) < nblock <= old(nblock) + 5 <= 4 * arr2.Length
      ensures Coded(crcTable, Block(), inUse[..], blockCRC, runs) && runs == old(runs) + [Run(stateInCh, stateInLen)]
      ensures ExpandRuns(runs) == old(Held())
    {
      hide Coded, HoldsBytes, BytesOf, EncodeRun, ExpandRuns, RunsOk, CrcOf;
      ghost var b, u, crc := Block(), inUse[..], blockCRC;
      TableOk(crcTable, b, u, crc, runs);
      RunsOkOf(crcTable, b, u, crc, runs);
      UpdateCrcBy(stateInCh, stateInLen);
      PutRun();
      RunAdded(crcTable, b, u, crc, runs, stateInCh, stateInLen, Block(), inUse[..], blockCRC);
      runs := runs + [Run(stateInCh, stateInLen)];
    }

    /** flush_RL */
    method FlushRl()
      requires Valid() && nblock + 5 <= 4 * arr2.Length
      modifies this, arr2, inUse
      ensures Sealed() && RunsOk(runs) && stateInCh == 256 && stateInLen == 0
      ensures old(nblock) <= nblock <= old(nblock) + 5
      ensures Held() == old(Held()) && Held() == ExpandRuns(runs)
      ensures nblock == 0 <==> Held() == []
    {
      hide Coded, HoldsBytes, BytesOf, ExpandRuns, RunsOk;
      RunsOkOf(crcTable, Block(), inUse[..], blockCRC, runs);
      assert ExpandRuns(runs) + [] == ExpandRuns(runs);
      if stateInCh < 256 {
        AddPairToBlock();
        RunsOkOf(crcTable, Block(), inUse[..], blockCRC, runs);
        assert ExpandRuns(runs) + [] == ExpandRuns(runs);
      }
      NothingHeld(crcTable, Block(), inUse[..], blockCRC, runs);
      stateInCh, stateInLen := 256, 0;
    }

    /** ADD_CHAR_TO_BLOCK, with its fast path for a single byte. */
    method AddCharToBlock(zchh: byte)
      requires Valid() && nblock + 5 <= 4 * arr2.Length
      modifies this, arr2, inUse
      ensures Valid() && stateInCh < 256 && old(nblock) <= nblock <= old(nblock) + 5
      ensures Held() == old(Held()) + [zchh]
    {
      hide Coded, HoldsBytes, ExpandRuns;
      RunsOkOf(crcTable, Block(), inUse[..], blockCRC, runs);
      if zchh != stateInCh && stateInLen == 1 {
        AddSingle(zchh);
      } else if zchh != stateInCh || stateInLen == 255 {
        StartRun(zchh);
      } else {
        RepGrows(ExpandRuns(runs), zchh, stateInLen);
        stateInLen := stateInLen + 1;
      }
    }

    /** The pending run, if there is one, goes to the block, and another one begins. */
    method StartRun(zchh: byte)
      requires Valid() && nblock + 5 <= 4 * arr2.Length && RunsOk(runs) && (zchh != stateInCh || stateInLen == 255)
      modifies this, arr2, inUse
      ensures Valid() && stateInCh < 256 && old(nblock) <= nblock <= old(nblock) + 5
      ensures Held() == old(Held()) + [zchh]
    {
      hide Coded, HoldsBytes, ExpandRuns;
      assert ExpandRuns(runs) + [] == ExpandRuns(runs);
      if stateInCh < 256 { AddPairToBlock(); }
      RunsOkOf(crcTable, Block(), inUse[..], blockCRC, runs);
      stateInCh, stateInLen := zchh, 1;
      assert Pending(zchh, 1) == [zchh];
    }

    /** The fast path: the pending byte stands alone. */
    method AddSingle(zchh: byte)
      requires Valid() && nblock + 5 <= 4 * arr2.Length && RunsOk(runs)
      requires zchh != stateInCh && stateInLen == 1
      modifies this, arr2, inUse
      ensures Valid() && stateInCh < 256 && nblock == old(nblock) + 1 && Held() == old(Held()) + [zchh]
    {
      hide Coded, HoldsBytes, UpdateCrc, ExpandRuns, EncodeRun;
      ghost var b, u, crc, held := Block(), inUse[..], blockCRC, Held();
      TableOk(crcTable, b, u, crc, runs);
      var ch: byte := stateInCh;
      OneCrc(crcTable, blockCRC, ch);
      blockCRC := UpdateCrc(crcTable, blockCRC, ch);
      inUse[ch] := true;
      PutChar(ch);
      RunBytes(b, ch, 1);
      RunAdded(crcTable, b, u, crc, runs, ch, 1, Block(), inUse[..], blockCRC);
      runs := runs + [Run(ch, 1)];
      stateInCh := zchh;
      RunsOkOf(crcTable, Block(), inUse[..], blockCRC, runs);
      assert Pending(zchh, 1) == [zchh];
    }
  }

  lemma RepGrows(a: seq<byte>, ch: byte, n: nat)
    ensures a + Rep(ch, n + 1) == a + Rep(ch, n) + [ch]
  {
  }

  lemma TableOk(table: seq<bv32>, b: seq<byte>, inUse: seq<bool>, crc: bv32, runs: seq<Run>)
    requires Coded(table, b, inUse, crc, runs)
    ensures |table| == 256
  {
  }

  /** A block without bytes stands for nothing. */
  lemma NothingHeld(table: seq<bv32>, b: seq<byte>, inUse: seq<bool>, crc: bv32, runs: seq<Run>)
    requires Coded(table, b, inUse, crc, runs)
    ensures RunsOk(runs) && (|b| == 0 <==> ExpandRuns(runs) == [])
  {
    if |runs| > 0 {
      var r := runs[|runs| - 1];
      assert |EncodeRun(r)| > 0 && |Rep(r.ch, r.len)| > 0;
    }
  }

  lemma RunsOkOf(table: seq<bv32>, b: seq<byte>, inUse: seq<bool>, crc: bv32, runs: seq<Run>)
    requires Coded(table, b, inUse, crc, runs)
    ensures RunsOk(runs)
  {
  }

  lemma OneCrc(table: seq<bv32>, crc: bv32, ch: byte)
    requires |table| == 256
    ensures UpdateCrc(table, crc, ch) == CrcOf(table, crc, Rep(ch, 1))
  {
    hide UpdateCrc;
    assert Rep(ch, 1)[..0] == [];
  }

  /** The bytes of a coded run, one by one. */
  lemma RunBytes(b: seq<byte>, ch: byte, len: int)
    requires 1 <= len <= 255
    ensures len == 1 ==> b + EncodeRun(Run(ch, len)) == b + [ch]
    ensures len == 2 ==> b + EncodeRun(Run(ch, len)) == b + [ch] + [ch]
    ensures len == 3 ==> b + EncodeRun(Run(ch, len)) == b + [ch] + [ch] + [ch]
    ensures len >= 4 ==> b + EncodeRun(Run(ch, len)) == b + [ch] + [ch] + [ch] + [ch] + [len - 4]
    ensures |EncodeRun(Run(ch, len))| == if len < 4 then len else 5
  {
  }
}
