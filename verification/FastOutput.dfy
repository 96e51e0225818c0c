/** The FAST output stage: the walk over tt feeds the run-length decoder, which can stop and
    resume wherever the caller's output space ends. */
module FastOutput {
  import opened Bytes
  import opened Counting
  import opened InverseBwt
  import opened RunLength
  import opened BlockCrc

  /** What is still to be expanded when k0 is the last of the `used` bytes fetched. A block of n
      bytes is followed by one byte of read-ahead; a second one is fetched only when a run was
      cut short. */
  ghost function Unread(chars: seq<byte>, n: int, k0: byte, used: int): Expansion
    requires 1 <= used <= n + 2 == |chars|
  {
    if used == n + 2 then Expansion([], true) else Expand([k0] + chars[used..n + 1])
  }

  /** BZ_GET_FAST_C: follow one cell of tt. */
  method GetFast(tt: array<uint32>, tPos: int, blockSize100k: int,
                 ghost col: seq<byte>, ghost t: seq<int>, ghost chars: seq<byte>, ghost used: int)
    returns (bad: bool, c: byte, tPos': int)
    requires StandsAt(col, t, tPos, chars, used) && used < |chars|
    requires |col| <= tt.Length && Threaded(tt[..], t, col, |col|)
    ensures bad ==> |col| > 100000 * blockSize100k
    ensures !bad ==> c == chars[used] && StandsAt(col, t, tPos', chars, used + 1)
  {
    if tPos >= 100000 * blockSize100k { return true, 0, tPos; }
    var cell := tt[tPos];
    CellParts(t[tPos], col[tPos], |col|);
    c, tPos' := cell % 256, cell / 256;
    bad := false;
    ReadNext(col, t, tPos, chars, used);
  }

  /** A run of one to three bytes ends at the read-ahead or at a different byte, which is the new
      k0 (x when there is none: it is not looked at again). */
  lemma ShortRun(chars: seq<byte>, n: int, k0: byte, used: int, len: int, x: byte)
    requires 1 <= len <= 3 && 1 <= used && used + len <= n + 1 && n + 2 == |chars|
    requires forall i :: used <= i < used + len - 1 ==> chars[i] == k0
    requires used + len == n + 1 || (chars[used + len - 1] != k0 && x == chars[used + len - 1])
    ensures Unread(chars, n, k0, used) == Then(Rep(k0, len), Unread(chars, n, x, used + len))
  {
    var s := [k0] + chars[used..n + 1];
    assert forall i :: 0 < i < |s| ==> s[i] == chars[used + i - 1];
    assert Expand([x]) == Expansion([], false);
    if used + len == n + 1 {
      assert Expand(s[len..]) == Expansion([], false);
      assert [x] + chars[used + len..n + 1] == [x];
    } else {
      assert s[len..] == [x] + chars[used + len..n + 1];
    }
  }

  /** Four equal bytes take the next one as a count; k0 is the one after that. */
  lemma LongRun(chars: seq<byte>, n: int, k0: byte, used: int, x: byte)
    requires 1 <= used && used + 5 <= n + 2 == |chars|
    requires forall i :: used <= i < used + 3 ==> chars[i] == k0
    requires x == chars[used + 4]
    ensures var len: int := chars[used + 3];
      Unread(chars, n, k0, used) == Then(Rep(k0, len + 4), Unread(chars, n, x, used + 5))
  {
    var s := [k0] + chars[used..n + 1];
    assert s[1] == s[2] == s[3] == k0;
    var len: int := chars[used + 3];
    if used + 5 == n + 2 {
      assert Rep(k0, len + 4) + [] == Rep(k0, len + 4);
    } else {
      assert s[5..] == [x] + chars[used + 5..n + 1];
    }
  }

  /** The end of a run of four or more: fetch its count, then the byte after it. */
  method FetchCount(tt: array<uint32>, tPos: int, k0: byte, used: int, blockSize100k: int,
                    ghost col: seq<byte>, ghost t: seq<int>, ghost chars: seq<byte>, ghost start: int)
    returns (bad: bool, tPos': int, k0': byte, len: nat)
    requires StandsAt(col, t, tPos, chars, used)
    requires |col| <= tt.Length && Threaded(tt[..], t, col, |col|)
    requires 1 <= start && start + 3 == used <= |col| && |col| + 2 == |chars|
    requires forall i :: start <= i < used ==> chars[i] == k0
    ensures bad ==> |col| > 100000 * blockSize100k
    ensures !bad ==> StandsAt(col, t, tPos', chars, used + 2) && len > 0
    ensures !bad ==> Unread(chars, |col|, k0, start) == Then(Rep(k0, len), Unread(chars, |col|, k0', used + 2))
  {
    k0', len := k0, 0;
    var k1: byte;
    bad, k1, tPos' := GetFast(tt, tPos, blockSize100k, col, t, chars, used);
    if bad { return; }
    len := k1 as int + 4;
    bad, k0', tPos' := GetFast(tt, tPos', blockSize100k, col, t, chars, used + 1);
    if bad { return; }
    LongRun(chars, |col|, k0, start, k0');
  }

  /** The repeats of a run whose first two bytes agree; one byte past the first is fetched. */
  method FetchRepeats(tt: array<uint32>, tPos: int, k0: byte, used: int, saveNblockPP: int, blockSize100k: int,
                      ghost col: seq<byte>, ghost t: seq<int>, ghost chars: seq<byte>, ghost start: int)
    returns (bad: bool, tPos': int, k0': byte, used': int, len: nat)
    requires StandsAt(col, t, tPos, chars, used)
    requires |col| <= tt.Length && Threaded(tt[..], t, col, |col|)
    requires 1 <= start && start + 1 == used <= |col| && saveNblockPP == |col| + 1 == |chars| - 1
    requires chars[start] == k0
    ensures bad ==> |col| > 100000 * blockSize100k
    ensures !bad ==> StandsAt(col, t, tPos', chars, used') && used < used' <= |col| + 2 && len > 0
    ensures !bad ==> Unread(chars, |col|, k0, start) == Then(Rep(k0, len), Unread(chars, |col|, k0', used'))
  {
    hide Unread, Rep, Threaded, StandsAt;
    var k1: byte;
    k0', used', len := k0, used + 1, 2;
    bad, k1, tPos' := GetFast(tt, tPos, blockSize100k, col, t, chars, used);
    if bad { return; }
    if used' == saveNblockPP { ShortRun(chars, |col|, k0, start, 2, k0'); return; }
    if k1 != k0 { k0' := k1; ShortRun(chars, |col|, k0, start, 2, k0'); return; }

    len := 3;
    bad, k1, tPos' := GetFast(tt, tPos', blockSize100k, col, t, chars, used');
    if bad { return; }
    used' := used' + 1;
    if used' == saveNblockPP { ShortRun(chars, |col|, k0, start, 3, k0'); return; }
    if k1 != k0 { k0' := k1; ShortRun(chars, |col|, k0, start, 3, k0'); return; }

    bad, tPos', k0', len := FetchCount(tt, tPos', k0, used', blockSize100k, col, t, chars, start);
    used' := used' + 2;
  }

  /** Starting a run fetches its byte, its repeats and its count, and moves them from what is
      still coded to what is pending as a run. */
  method StartRun(tt: array<uint32>, tPos: int, k0: byte, used: int, saveNblockPP: int, blockSize100k: int,
                  ghost col: seq<byte>, ghost t: seq<int>, ghost chars: seq<byte>)
    returns (bad: bool, tPos': int, k0': byte, used': int, ch: byte, len: nat)
    requires StandsAt(col, t, tPos, chars, used)
    requires |col| <= tt.Length && Threaded(tt[..], t, col, |col|)
    requires 1 <= used <= |col| && saveNblockPP == |col| + 1 == |chars| - 1
    ensures bad ==> |col| > 100000 * blockSize100k
    ensures !bad ==> StandsAt(col, t, tPos', chars, used') && used < used' <= |col| + 2 && len > 0
    ensures !bad ==> Unread(chars, |col|, k0, used) == Then(Rep(ch, len), Unread(chars, |col|, k0', used'))
  {
    var k1: byte;
    ch, k0', len, used' := k0, k0, 1, used + 1;
    bad, k1, tPos' := GetFast(tt, tPos, blockSize100k, col, t, chars, used);
    if bad { return; }
    if k1 != k0 {
      // goes on at s_state_out_len_eq_one
      k0' := k1;
      ShortRun(chars, |col|, k0, used, 1, k0');
      return;
    }
    if used' == saveNblockPP { ShortRun(chars, |col|, k0, used, 1, k0'); return; }
    bad, tPos', k0', used', len :=
      FetchRepeats(tt, tPos', k0, used', saveNblockPP, blockSize100k, col, t, chars, used);
  }

  lemma ThenThen(a: seq<byte>, b: seq<byte>, e: Expansion)
    ensures Then(a, Then(b, e)) == Then(a + b, e)
  {
    assert a + (b + e.bytes) == (a + b) + e.bytes;
  }

  lemma RepSplit(ch: byte, m: nat, n: nat)
    ensures Rep(ch, m + n) == Rep(ch, m) + Rep(ch, n)
  {
  }

  lemma PieceWritten(owed: Expansion, out: seq<byte>, piece: seq<byte>, ch: byte, len: nat, rest: Expansion)
    requires owed == Then(out, Then(Rep(ch, |piece| + len), rest)) && piece == Rep(ch, |piece|)
    ensures owed == Then(out + piece, Then(Rep(ch, len), rest))
  {
    RepSplit(ch, |piece|, len);
    ThenThen(piece, Rep(ch, len), rest);
    ThenThen(out, piece, Then(Rep(ch, len), rest));
  }

  lemma NothingPending(owed: Expansion, out: seq<byte>, ch: byte, rest: Expansion)
    requires owed == Then(out, Then(Rep(ch, 0), rest))
    ensures owed == Then(out, rest)
  {
    assert Rep(ch, 0) + rest.bytes == rest.bytes;
  }

  lemma CutShort(owed: Expansion, out: seq<byte>, ch: byte, rest: Expansion)
    requires owed == Then(out, Then(Rep(ch, 0), rest)) && rest == Expansion([], true)
    ensures owed == Expansion(out, true)
  {
    assert out + (Rep(ch, 0) + []) == out;
  }

  /** Writes as much of the current run as fits. */
  method FinishRun(crcTable: seq<bv32>, ch: byte, len: nat, availOut: nat, crc: bv32)
    returns (out: seq<byte>, len': nat, crc': bv32)
    requires |crcTable| == 256
    ensures |out| <= availOut && len' == len - |out| && out == Rep(ch, |out|)
    ensures len' > 0 ==> |out| == availOut
    ensures crc' == CrcOf(crcTable, crc, out)
  {
    out, len', crc' := [], len, crc;
    while len' > 0 && |out| < availOut
      invariant |out| <= availOut && len' == len - |out| && out == Rep(ch, |out|)
      invariant crc' == CrcOf(crcTable, crc, out)
    {
      ghost var before := out;
      out := out + [ch];
      assert out[..|out| - 1] == before;
      crc' := UpdateCrc(crcTable, crc', ch);
      len' := len' - 1;
    }
  }

  /** The loop of unRLE_obuf_to_output_FAST on its local copies of the state. */
  method WriteRuns(crcTable: seq<bv32>, tt: array<uint32>, blockSize100k: int, saveNblock: int, availOut: nat,
                   crc0: bv32, ch0: byte, len0: nat, used0: int, k00: byte, tPos0: int,
                   ghost col: seq<byte>, ghost t: seq<int>, ghost chars: seq<byte>)
    returns (corrupt: bool, out: seq<byte>, crc: bv32, ch: byte, len: nat, used: int, k: byte, pos: int)
    requires |crcTable| == 256
    requires |col| == saveNblock <= 100000 * blockSize100k && saveNblock <= tt.Length && |chars| == saveNblock + 2
    requires Threaded(tt[..], t, col, |col|)
    requires StandsAt(col, t, tPos0, chars, used0) && 1 <= used0 <= saveNblock + 2
    requires used0 == saveNblock + 2 ==> len0 > 0
    ensures |out| <= availOut
    ensures StandsAt(col, t, pos, chars, used) && 1 <= used <= saveNblock + 2
    ensures var owed := Then(Rep(ch0, len0), Unread(chars, saveNblock, k00, used0));
      owed == if corrupt then Expansion(out, true)
              else Then(out, Then(Rep(ch, len), Unread(chars, saveNblock, k, used)))
    ensures !corrupt ==> if len > 0 then |out| == availOut else used == saveNblock + 1
    ensures crc == CrcOf(crcTable, crc0, out)
  {
    crc, ch, len, used, k, pos := crc0, ch0, len0, used0, k00, tPos0;
    out, corrupt := [], false;
    ghost var rest := Unread(chars, saveNblock, k, used);
    ghost var owed := Then(Rep(ch, len), rest);
    assert [] + owed.bytes == owed.bytes;
    while true
      invariant |out| <= availOut && !corrupt
      invariant StandsAt(col, t, pos, chars, used) && 1 <= used <= saveNblock + 2
      invariant used == saveNblock + 2 ==> len > 0
      invariant rest == Unread(chars, saveNblock, k, used)
      invariant owed == Then(out, Then(Rep(ch, len), rest))
      invariant crc == CrcOf(crcTable, crc0, out)
      decreases saveNblock + 2 - used
    {
      // try to finish the existing run
      var piece, len', crc' := FinishRun(crcTable, ch, len, availOut - |out|, crc);
      PieceWritten(owed, out, piece, ch, len', rest);
      CrcOfConcat(crcTable, crc0, out, piece);
      out, len, crc := out + piece, len', crc';
      if len > 0 { return; }
      // only caused by a corrupt data stream
      if used > saveNblock + 1 {
        CutShort(owed, out, ch, rest);
        corrupt := true;
        return;
      }
      // can a new run be started?
      if used == saveNblock + 1 { return; }
      NothingPending(owed, out, ch, rest);
      var bad;
      bad, pos, k, used, ch, len := StartRun(tt, pos, k, used, saveNblock + 1, blockSize100k, col, t, chars);
      rest := Unread(chars, saveNblock, k, used);
    }
  }

  /** The part of DState that the output stage works on. */
  class DState {
    const crcTable: seq<bv32>
    const blockSize100k: int
    const tt: array<uint32>
    var saveNblock: int
    var tPos: int
    var k0: byte
    var nblockUsed: int
    var stateOutCh: byte
    var stateOutLen: nat
    var calculatedBlockCRC: bv32

    constructor (crcTable: seq<bv32>, blockSize100k: int, tt: array<uint32>)
      requires |crcTable| == 256
      ensures this.crcTable == crcTable && this.blockSize100k == blockSize100k && this.tt == tt
    {
      this.crcTable, this.blockSize100k, this.tt := crcTable, blockSize100k, tt;
      saveNblock, tPos, k0, nblockUsed, stateOutCh, stateOutLen, calculatedBlockCRC := 0, 0, 0, 0, 0, 0, 0;
    }

    /** A block with last column col and row map t is being written; chars is what the walk
        yields from its start. */
    ghost predicate Valid(col: seq<byte>, t: seq<int>, chars: seq<byte>)
      reads this, tt
    {
      && |crcTable| == 256
      && 0 < |col| == saveNblock <= 100000 * blockSize100k <= tt.Length
      && |chars| == |col| + 2
      && StandsAt(col, t, tPos, chars, nblockUsed) && 1 <= nblockUsed <= |col| + 2
      && (nblockUsed == |col| + 2 ==> stateOutLen > 0)
      && Threaded(tt[..], t, col, |col|)
    }

    ghost function Owed(chars: seq<byte>): Expansion
      requires 1 <= nblockUsed <= saveNblock + 2 == |chars|
      reads this
    {
      Then(Rep(stateOutCh, stateOutLen), Unread(chars, saveNblock, k0, nblockUsed))
    }

    predicate Finished()
      reads this
    {
      nblockUsed == saveNblock + 1 && stateOutLen == 0
    }

    /** The end of BZ2_decompress for a block of nblock bytes: thread tt, go to the row of
        origPtr and fetch k0. */
    method StartBlock(nblock: int, origPtr: int, cftab: array<int>, ghost col: seq<byte>, ghost t: seq<int>)
      requires |crcTable| == 256
      requires 0 < |col| == nblock <= 100000 * blockSize100k <= tt.Length && |col| <= 0x100_0000
      requires 0 <= origPtr < nblock && cftab.Length == 257
      requires forall i :: 0 <= i < nblock ==> tt[i] == col[i]
      requires forall c :: 0 <= c < 256 ==> cftab[c] == Below(col, c)
      requires UndoesRows(t, col)
      modifies this, tt, cftab
      ensures RowMap(col, t)
      ensures var chars := Walk(col, t, t[origPtr], nblock + 2);
        Valid(col, t, chars) && Owed(chars) == Expand(chars[..nblock + 1])
      ensures calculatedBlockCRC == 0xffff_ffff
    {
      stateOutLen, stateOutCh := 0, 0;
      calculatedBlockCRC := 0xffff_ffff;
      saveNblock := nblock;
      BuildNextRow(tt, nblock, cftab, col, t);
      CellParts(t[origPtr], col[origPtr], nblock);
      tPos := tt[origPtr] / 256;
      nblockUsed := 0;
      ghost var chars := Walk(col, t, tPos, nblock + 2);
      var bad;
      bad, k0, tPos := GetFast(tt, tPos, blockSize100k, col, t, chars, 0);
      nblockUsed := nblockUsed + 1;
      hide Expand;
      assert chars[..nblock + 1] == [k0] + chars[1..nblock + 1];
      assert Rep(stateOutCh, 0) + Expand(chars[..nblock + 1]).bytes == Expand(chars[..nblock + 1]).bytes;
    }

    /** unRLE_obuf_to_output_FAST with room for availOut bytes (blocks that are not randomised).
        Either it writes the next bytes owed, as many as fit, and remembers the rest; or it
        reports corruption, which happens only for a block whose last run is cut short. */
    method UnRleToOutputFast(availOut: nat, ghost col: seq<byte>, ghost t: seq<int>, ghost chars: seq<byte>)
      returns (corrupt: bool, out: seq<byte>)
      requires Valid(col, t, chars)
      modifies this
      ensures |out| <= availOut
      ensures corrupt ==> old(Owed(chars)) == Expansion(out, true)
      ensures !corrupt ==> Valid(col, t, chars) && old(Owed(chars)) == Then(out, Owed(chars))
      ensures !corrupt && |out| < availOut ==> Finished()
      ensures !corrupt ==> calculatedBlockCRC == CrcOf(crcTable, old(calculatedBlockCRC), out)
    {
      var bad, bytes, crc, ch, len, used, k, pos :=
        WriteRuns(crcTable, tt, blockSize100k, saveNblock, availOut,
                  calculatedBlockCRC, stateOutCh, stateOutLen, nblockUsed, k0, tPos, col, t, chars);
      corrupt, out := bad, bytes;
      if corrupt { return; }
      calculatedBlockCRC, stateOutCh, stateOutLen, nblockUsed, k0, tPos := crc, ch, len, used, k, pos;
    }

    /** A stopped decoder has finished its block exactly when nothing is owed any more. */
    lemma FinishedIffNothingOwed(col: seq<byte>, t: seq<int>, chars: seq<byte>)
      requires Valid(col, t, chars)
      ensures Finished() <==> Owed(chars) == Expansion([], false)
    {
      if nblockUsed <= saveNblock + 1 {
        var s := [k0] + chars[nblockUsed..saveNblock + 1];
        if nblockUsed == saveNblock + 1 { assert s == [k0]; }
      }
    }

    /** What WriteAcrossCalls keeps: soFar is what has been written of owed in a total room. */
    ghost predicate Written(chars: seq<byte>, owed: Expansion, soFar: seq<byte>, room: nat)
      requires 1 <= nblockUsed <= saveNblock + 2 == |chars|
      reads this
    {
      && owed == Then(soFar, Owed(chars)) && |soFar| <= room
      && (Finished() || |soFar| == room)
    }

    method WriteMore(room: nat, soFar: seq<byte>, ghost col: seq<byte>, ghost t: seq<int>, ghost chars: seq<byte>,
                     ghost owed: Expansion, ghost roomSoFar: nat)
      returns (out: seq<byte>)
      requires Valid(col, t, chars) && !owed.corrupt && Written(chars, owed, soFar, roomSoFar)
      modifies this
      ensures Valid(col, t, chars) && Written(chars, owed, out, roomSoFar + room)
      ensures soFar <= out && calculatedBlockCRC == CrcOf(crcTable, old(calculatedBlockCRC), out[|soFar|..])
    {
      FinishedIffNothingOwed(col, t, chars);
      var corrupt, piece := UnRleToOutputFast(room, col, t, chars);
      ThenThen(soFar, piece, Owed(chars));
      out := soFar + piece;
      assert out[|soFar|..] == piece;
    }

    /** A block written in any number of calls with any amounts of room: the pieces are, in
        order, the expansion of the block cut to the total room, and the decoder is finished
        exactly when that was enough. */
    method WriteAcrossCalls(rooms: seq<nat>, ghost col: seq<byte>, ghost t: seq<int>, ghost chars: seq<byte>)
      returns (out: seq<byte>)
      requires Valid(col, t, chars) && !Owed(chars).corrupt
      modifies this
      ensures Valid(col, t, chars) && old(Owed(chars)) == Then(out, Owed(chars))
      ensures |out| <= Total(rooms)
      ensures Finished() <==> |old(Owed(chars)).bytes| == |out|
      ensures !Finished() ==> |out| == Total(rooms)
      ensures calculatedBlockCRC == CrcOf(crcTable, old(calculatedBlockCRC), out)
    {
      hide Unread, Rep;
      out := [];
      ghost var owed := Owed(chars);
      ghost var crc := calculatedBlockCRC;
      assert [] + owed.bytes == owed.bytes;
      assert rooms[..0] == [];
      for i := 0 to |rooms|
        invariant Valid(col, t, chars) && Written(chars, owed, out, Total(rooms[..i]))
        invariant calculatedBlockCRC == CrcOf(crcTable, crc, out)
      {
        assert rooms[..i + 1][..i] == rooms[..i];
        var more := WriteMore(rooms[i], out, col, t, chars, owed, Total(rooms[..i]));
        CrcOfConcat(crcTable, crc, out, more[|out|..]);
        assert more == out + more[|out|..];
        out := more;
      }
      assert rooms[..|rooms|] == rooms;
      FinishedIffNothingOwed(col, t, chars);
    }
  }

  ghost function Total(rooms: seq<nat>): nat {
    if |rooms| == 0 then 0 else Total(rooms[..|rooms| - 1]) + rooms[|rooms| - 1]
  }
}
