/** The SMALL output stage: unRLE_obuf_to_output_SMALL over the reversed cells. It owes, and puts
    out, exactly what the FAST output stage does. */
module SmallOutput {
  import opened Bytes
  import opened Counting
  import opened InverseBwt
  import opened RunLength
  import opened BlockCrc
  import opened FastOutput
  import opened SmallDecode

  /** The part of DState that the output stage works on. */
  class SmallState {
    const crcTable: seq<bv32>
    const blockSize100k: int
    const cells: SmallCells
    const cftab: array<int>
    var saveNblock: int
    var tPos: int
    var k0: byte
    var nblockUsed: int
    var stateOutCh: byte
    var stateOutLen: nat
    var calculatedBlockCRC: bv32
    ghost var cycle: set<int>

    constructor (crcTable: seq<bv32>, blockSize100k: int, cells: SmallCells)
      requires |crcTable| == 256
      ensures this.crcTable == crcTable && this.blockSize100k == blockSize100k && this.cells == cells && fresh(cftab)
      ensures cftab.Length == 257
    {
      this.crcTable, this.blockSize100k, this.cells := crcTable, blockSize100k, cells;
      cftab := new int[257];
      saveNblock, tPos, k0, nblockUsed, stateOutCh, stateOutLen, calculatedBlockCRC, cycle := 0, 0, 0, 0, 0, 0, 0, {};
    }

    /** What reading the cells needs. */
    ghost predicate Readable(col: seq<byte>, t: seq<int>)
      reads this, cells.ll16, cells.ll4, cftab
    {
      && 0 < |col| == saveNblock <= 100000 * blockSize100k && RowMap(col, t)
      && cells.Valid(|col|) && ReadyToRead(cells.Cells(|col|), col, t, cycle)
      && cftab.Length == 257 && forall k :: 0 <= k <= 256 ==> cftab[k] == Below(col, k)
    }

    /** chars is what the walk yields from the start of the block; the first nblockUsed of them have
        been fetched. tPos is one row behind where the FAST walk stands. */
    ghost predicate Standing(col: seq<byte>, t: seq<int>, chars: seq<byte>)
      reads this, cells.ll16, cells.ll4, cftab
    {
      && Readable(col, t) && |chars| == |col| + 2 && tPos in cycle && 0 <= tPos < |col| &&
         StandsAt(col, t, t[tPos], chars, nblockUsed)
    }

    /** A block with last column col and row map t is being written. */
    ghost predicate Valid(col: seq<byte>, t: seq<int>, chars: seq<byte>)
      reads this, cells.ll16, cells.ll4, cftab
    {
      |crcTable| == 256 && Standing(col, t, chars) && 1 <= nblockUsed <= |col| + 2
    }

    ghost function Owed(chars: seq<byte>): Expansion
      requires 1 <= nblockUsed <= saveNblock + 2 == |chars|
      reads this
    {
      Then(Rep(stateOutCh, stateOutLen), Unread(chars, saveNblock, k0, nblockUsed))
    }

    predicate Finished()
      reads this
    {
      nblockUsed == saveNblock + 1 && stateOutLen == 0
    }

    /** BZ_GET_SMALL, and nblock_used++. The position always stays within the block. */
    method Get(ghost col: seq<byte>, ghost t: seq<int>, ghost chars: seq<byte>) returns (bad: bool, c: byte)
      requires Standing(col, t, chars) && nblockUsed < |chars|
      modifies this`tPos, this`nblockUsed
      ensures !bad && Standing(col, t, chars) && c == chars[old(nblockUsed)] && nblockUsed == old(nblockUsed) + 1
    {
      hide Below, StandsAt, ReadyToRead, RowMap, SmallCells.Cells;
      ReadyAt(cells.Cells(|col|), col, t, cycle, tPos);
      ReadNext(col, t, t[tPos], chars, nblockUsed);
      var next;
      bad, c, next := GetSmall(cells, tPos, cftab, blockSize100k, col, t, cycle);
      tPos, nblockUsed := next, nblockUsed + 1;
    }

    /** The end of a run of four or more: fetch its count, then the byte after it. */
    method FetchCount(ghost col: seq<byte>, ghost t: seq<int>, ghost chars: seq<byte>, ghost start: int)
        returns (bad: bool)
      requires Standing(col, t, chars) && 1 <= start && start + 3 == nblockUsed <= |col|
      requires forall i :: start <= i < nblockUsed ==> chars[i] == k0
      modifies this`tPos, this`nblockUsed, this`k0, this`stateOutLen
      ensures !bad && Standing(col, t, chars) && nblockUsed == start + 5 && stateOutLen > 0
      ensures Unread(chars, |col|, old(k0), start) ==
        Then(Rep(old(k0), stateOutLen), Unread(chars, |col|, k0, nblockUsed))
    {
      hide Standing, Unread, Rep;
      ReadableSize(col, t, chars);
      ghost var k := k0;
      var k1: byte;
      bad, k1 := Get(col, t, chars);
      SetLength(k1 as int + 4, col, t, chars);
      var x: byte;
      bad, x := Get(col, t, chars);
      SetK0(x, col, t, chars);
      LongRun(chars, |col|, k, start, x);
    }

    lemma ReadableSize(col: seq<byte>, t: seq<int>, chars: seq<byte>)
      requires Standing(col, t, chars)
      ensures |chars| == |col| + 2 && saveNblock == |col|
    {
    }

    method SetLength(n: nat, ghost col: seq<byte>, ghost t: seq<int>, ghost chars: seq<byte>)
      requires Standing(col, t, chars)
      modifies this`stateOutLen
      ensures Standing(col, t, chars) && stateOutLen == n
    {
      stateOutLen := n;
    }

    method SetK0(c: byte, ghost col: seq<byte>, ghost t: seq<int>, ghost chars: seq<byte>)
      requires Standing(col, t, chars)
      modifies this`k0
      ensures Standing(col, t, chars) && k0 == c
    {
      k0 := c;
    }

    method SetRun(ghost col: seq<byte>, ghost t: seq<int>, ghost chars: seq<byte>)
      requires Standing(col, t, chars)
      modifies this`stateOutLen, this`stateOutCh
      ensures Standing(col, t, chars) && stateOutLen == 1 && stateOutCh == k0
    {
      stateOutLen, stateOutCh := 1, k0;
    }

    /** The repeats of a run whose first two bytes agree. */
    method FetchRepeats(ghost col: seq<byte>, ghost t: seq<int>, ghost chars: seq<byte>, ghost start: int)
        returns (bad: bool)
      requires Standing(col, t, chars) && 1 <= start && start + 1 == nblockUsed <= saveNblock && chars[start] == k0
      modifies this`tPos, this`nblockUsed, this`k0, this`stateOutLen
      ensures !bad && Standing(col, t, chars) && start < nblockUsed <= |col| + 2 && stateOutLen > 0
      ensures Unread(chars, |col|, old(k0), start) ==
        Then(Rep(old(k0), stateOutLen), Unread(chars, |col|, k0, nblockUsed))
    {
      hide Standing, Unread, Rep;
      ReadableSize(col, t, chars);
      ghost var k := k0;
      var k1: byte;
      SetLength(2, col, t, chars);
      bad, k1 := Get(col, t, chars);
      if nblockUsed == saveNblock + 1 { ShortRun(chars, |col|, k, start, 2, k); return; }
      if k1 != k0 { SetK0(k1, col, t, chars); ShortRun(chars, |col|, k, start, 2, k1); return; }

      SetLength(3, col, t, chars);
      bad, k1 := Get(col, t, chars);
      if nblockUsed == saveNblock + 1 { ShortRun(chars, |col|, k, start, 3, k); return; }
      if k1 != k0 { SetK0(k1, col, t, chars); ShortRun(chars, |col|, k, start, 3, k1); return; }

      bad := FetchCount(col, t, chars, start);
    }

    /** A new run: its byte, its repeats and its count move from what is still coded to what is
        pending as a run. */
    method StartRun(ghost col: seq<byte>, ghost t: seq<int>, ghost chars: seq<byte>) returns (bad: bool)
      requires Standing(col, t, chars) && 1 <= nblockUsed <= saveNblock
      modifies this`tPos, this`nblockUsed, this`k0, this`stateOutLen, this`stateOutCh
      ensures !bad && Standing(col, t, chars) && old(nblockUsed) < nblockUsed <= |col| + 2 && stateOutLen > 0
      ensures Unread(chars, |col|, old(k0), old(nblockUsed)) ==
        Then(Rep(stateOutCh, stateOutLen), Unread(chars, |col|, k0, nblockUsed))
    {
      hide Standing, Unread, Rep;
      ReadableSize(col, t, chars);
      ghost var start, k := nblockUsed, k0;
      var k1: byte;
      SetRun(col, t, chars);
      bad, k1 := Get(col, t, chars);
      if nblockUsed == saveNblock + 1 { ShortRun(chars, |col|, k, start, 1, k); return; }
      if k1 != k0 { SetK0(k1, col, t, chars); ShortRun(chars, |col|, k, start, 1, k1); return; }

      bad := FetchRepeats(col, t, chars, start);
    }

    /** Writes as much of the current run as fits, and stops in front of a new run only if there is
        room for it. */
    method FinishRun(room: nat, ghost col: seq<byte>, ghost t: seq<int>, ghost chars: seq<byte>)
        returns (piece: seq<byte>)
      requires |crcTable| == 256 && Standing(col, t, chars)
      modifies this`stateOutLen, this`calculatedBlockCRC
      ensures Standing(col, t, chars) && |piece| <= room && stateOutLen == old(stateOutLen) - |piece|
      ensures piece == Rep(stateOutCh, |piece|)
      ensures stateOutLen > 0 ==> |piece| == room
      ensures calculatedBlockCRC == CrcOf(crcTable, old(calculatedBlockCRC), piece)
    {
      piece := [];
      while true
        invariant Standing(col, t, chars) && |piece| <= room && stateOutLen == old(stateOutLen) - |piece|
        invariant piece == Rep(stateOutCh, |piece|)
        invariant calculatedBlockCRC == CrcOf(crcTable, old(calculatedBlockCRC), piece)
        decreases stateOutLen
      {
        if |piece| == room { return; }
        if stateOutLen == 0 { break; }
        assert (piece + [stateOutCh])[..|piece|] == piece;
        piece := piece + [stateOutCh];
        calculatedBlockCRC := UpdateCrc(crcTable, calculatedBlockCRC, stateOutCh);
        stateOutLen := stateOutLen - 1;
      }
    }

    /** unRLE_obuf_to_output_SMALL with room for availOut bytes (blocks that are not randomised).
        Either it writes the next bytes owed, as many as fit, and remembers the rest; or it
        reports corruption, which happens only for a block whose last run is cut short. */
    method UnRleToOutputSmall(availOut: nat, ghost col: seq<byte>, ghost t: seq<int>, ghost chars: seq<byte>)
      returns (corrupt: bool, out: seq<byte>)
      requires Valid(col, t, chars)
      modifies this`tPos, this`nblockUsed, this`k0, this`stateOutLen, this`stateOutCh, this`calculatedBlockCRC
      ensures |out| <= availOut
      ensures corrupt ==> old(Owed(chars)) == Expansion(out, true)
      ensures !corrupt ==> Valid(col, t, chars) && old(Owed(chars)) == Then(out, Owed(chars))
      ensures !corrupt && |out| < availOut ==> Finished()
      ensures !corrupt ==> calculatedBlockCRC == CrcOf(crcTable, old(calculatedBlockCRC), out)
    {
      hide Standing, Readable, Unread, Rep, CrcOf;
      ValidStanding(col, t, chars);
      ReadableSize(col, t, chars);
      ghost var owed, crc0 := Owed(chars), calculatedBlockCRC;
      out, corrupt := [], false;
      NothingYet(owed, crcTable, crc0);
      while true
        invariant Standing(col, t, chars) && 1 <= nblockUsed <= |col| + 2 && |out| <= availOut
        invariant owed == Then(out, Owed(chars)) && calculatedBlockCRC == CrcOf(crcTable, crc0, out)
        decreases |col| + 2 - nblockUsed
      {
        ghost var rest := Unread(chars, saveNblock, k0, nblockUsed);
        var piece := FinishRun(availOut - |out|, col, t, chars);
        PieceWritten(owed, out, piece, stateOutCh, stateOutLen, rest);
        CrcOfConcat(crcTable, crc0, out, piece);
        out := out + piece;
        if |out| == availOut { return; }
        // can a new run be started?
        if nblockUsed == saveNblock + 1 { return; }
        // only caused by corrupt data stream?
        if nblockUsed > saveNblock + 1 {
          NothingUnread(chars, saveNblock, k0, nblockUsed);
          CutShort(owed, out, stateOutCh, rest);
          return true, out;
        }
        NothingPending(owed, out, stateOutCh, rest);
        var bad := StartRun(col, t, chars);
        if bad { return true, out; }
      }
    }

    /** A stopped decoder has finished its block exactly when nothing is owed any more. */
    lemma FinishedIffNothingOwed(col: seq<byte>, t: seq<int>, chars: seq<byte>)
      requires Valid(col, t, chars)
      ensures Finished() <==> Owed(chars) == Expansion([], false)
    {
      if nblockUsed <= saveNblock + 1 {
        var s := [k0] + chars[nblockUsed..saveNblock + 1];
        if nblockUsed == saveNblock + 1 { assert s == [k0]; }
      }
    }

    /** The end of BZ2_decompress for a block of nblock bytes, whose last column is in ll16: T, its
        inverse on the cycle of origPtr, and the first byte. From then on exactly as much is owed as
        by the FAST decoder. */
    method StartBlock(nblock: int, origPtr: int, cftabCopy: array<int>, ghost col: seq<byte>)
        returns (ghost chars: seq<byte>)
      requires |crcTable| == 256 && 0 <= origPtr < nblock == |col| <= 100000 * blockSize100k <= 900000
      requires cells.Valid(nblock)
      requires cftab.Length == cftabCopy.Length == 257 && cftab != cftabCopy
      requires forall i :: 0 <= i < nblock ==> cells.ll16[i] == col[i]
      requires forall c :: 0 <= c <= 256 ==> cftab[c] == Below(col, c)
      modifies this, cells.ll16, cells.ll4, cftabCopy
      ensures RowMap(col, NextRow(col)) && chars == Walk(col, NextRow(col), NextRow(col)[origPtr], nblock + 2)
      ensures Valid(col, NextRow(col), chars) && Owed(chars) == Expand(chars[..nblock + 1])
      ensures calculatedBlockCRC == 0xffff_ffff
    {
      hide NextRow, Walk, RowMap, Expand, Standing, Below;
      stateOutLen, stateOutCh := 0, 0;
      calculatedBlockCRC := 0xffff_ffff;
      ghost var t := NextRow(col);
      chars := MakeReadable(nblock, origPtr, cftabCopy, col);
      var bad, c;
      bad, c := Get(col, t, chars);
      SetK0(c, col, t, chars);
      ReadableSize(col, t, chars);
      NothingButFirst(chars, nblock, k0);
    }

    /** T, and its inverse on the cycle of origPtr: the walk can begin. */
    method MakeReadable(nblock: int, origPtr: int, cftabCopy: array<int>, ghost col: seq<byte>)
        returns (ghost chars: seq<byte>)
      requires 0 <= origPtr < nblock == |col| <= 100000 * blockSize100k <= 900000 && cells.Valid(nblock)
      requires cftab.Length == cftabCopy.Length == 257 && cftab != cftabCopy
      requires forall i :: 0 <= i < nblock ==> cells.ll16[i] == col[i]
      requires forall c :: 0 <= c <= 256 ==> cftab[c] == Below(col, c)
      modifies this`saveNblock, this`cycle, this`tPos, this`nblockUsed, cells.ll16, cells.ll4, cftabCopy
      ensures RowMap(col, NextRow(col)) && chars == Walk(col, NextRow(col), NextRow(col)[origPtr], nblock + 2)
      ensures Standing(col, NextRow(col), chars) && nblockUsed == 0
    {
      hide NextRow, Walk, Below, RowMap, ReadyToRead, SmallCells.Cells, StandsAt;
      saveNblock := nblock;
      ghost var t := NextRow(col);
      cycle := Prepare(cells, nblock, origPtr, cftab, cftabCopy, col);
      tPos, nblockUsed := origPtr, 0;
      ReadyAt(cells.Cells(nblock), col, t, cycle, origPtr);
      chars := Walk(col, t, t[origPtr], nblock + 2);
      WalkStands(col, t, t[origPtr], nblock + 2);
    }

    /** A block written in any number of calls with any amounts of room: the pieces are, in
        order, the expansion of the block cut to the total room, and the decoder is finished
        exactly when that was enough. */
    method WriteAcrossCalls(rooms: seq<nat>, ghost col: seq<byte>, ghost t: seq<int>, ghost chars: seq<byte>)
      returns (out: seq<byte>)
      requires Valid(col, t, chars) && !Owed(chars).corrupt
      modifies this
      ensures Valid(col, t, chars) && old(Owed(chars)) == Then(out, Owed(chars)) && |out| <= Total(rooms)
      ensures Finished() <==> |old(Owed(chars)).bytes| == |out|
      ensures !Finished() ==> |out| == Total(rooms)
      ensures calculatedBlockCRC == CrcOf(crcTable, old(calculatedBlockCRC), out)
    {
      hide Unread, Rep, StandsAt, CrcOf, ReadyToRead, SmallCells.Cells, RowMap, Below;
      out := [];
      ghost var owed, crc := Owed(chars), calculatedBlockCRC;
      NothingYet(owed, crcTable, crc);
      FinishedIffNothingOwed(col, t, chars);
      assert rooms[..0] == [];
      for i := 0 to |rooms|
        invariant Valid(col, t, chars) && owed == Then(out, Owed(chars)) && |out| <= Total(rooms[..i])
        invariant Finished() || |out| == Total(rooms[..i])
        invariant (Finished() <==> Owed(chars) == Expansion([], false))
        invariant calculatedBlockCRC == CrcOf(crcTable, crc, out)
      {
        assert rooms[..i + 1][..i] == rooms[..i];
        var corrupt, piece := UnRleToOutputSmall(rooms[i], col, t, chars);
        ThenThen(out, piece, Owed(chars));
        CrcOfConcat(crcTable, crc, out, piece);
        out := out + piece;
        FinishedIffNothingOwed(col, t, chars);
      }
      assert rooms[..|rooms|] == rooms;
    }

    lemma ValidStanding(col: seq<byte>, t: seq<int>, chars: seq<byte>)
      requires Valid(col, t, chars)
      ensures Standing(col, t, chars) && |crcTable| == 256 && 1 <= nblockUsed <= |col| + 2 == |chars|
      ensures saveNblock == |col|
    {
    }
  }

  lemma NothingYet(owed: Expansion, table: seq<bv32>, crc: bv32)
    requires |table| == 256
    ensures owed == Then([], owed) && CrcOf(table, crc, []) == crc
  {
    assert [] + owed.bytes == owed.bytes;
  }

  lemma NothingUnread(chars: seq<byte>, n: int, k0: byte, used: int)
    requires used == n + 2 == |chars| && n >= 0
    ensures Unread(chars, n, k0, used) == Expansion([], true)
  {
  }

  lemma ReadyAt(cells: seq<int>, col: seq<byte>, t: seq<int>, cycle: set<int>, p: int)
    requires ReadyToRead(cells, col, t, cycle) && p in cycle && 0 <= p < |col|
    ensures |t| == |col| && 0 <= t[p] < |col| && t[p] in cycle
  {
  }

  lemma WalkStands(col: seq<byte>, t: seq<int>, q: int, n: nat)
    requires RowMap(col, t) && 0 <= q < |col|
    ensures StandsAt(col, t, q, Walk(col, t, q, n), 0)
  {
    assert Walk(col, t, q, n)[0..] == Walk(col, t, q, n);
  }

  lemma NothingButFirst(chars: seq<byte>, n: int, k0: byte)
    requires n >= 1 && |chars| == n + 2 && k0 == chars[0]
    ensures Then(Rep(0, 0), Unread(chars, n, k0, 1)) == Expand(chars[..n + 1])
  {
    assert chars[..n + 1] == [k0] + chars[1..n + 1];
    assert Rep(0, 0) + Expand(chars[..n + 1]).bytes == Expand(chars[..n + 1]).bytes;
  }
}
