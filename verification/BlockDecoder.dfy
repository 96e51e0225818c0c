/** The decoding of one block by BZ2_decompress: header, symbols, and the start of the output. */
module BlockDecoder {
  import opened Bytes
  import opened Permutations
  import opened Rotations
  import opened Counting
  import opened InverseBwt
  import opened RunLength
  import opened BitStrings
  import opened BitIo
  import opened BitWords
  import opened ByteMaps
  import opened MtfCoding
  import opened CodedSymbols
  import opened BlockFormat
  import opened SendMtf
  import opened ReceiveMtf
  import opened FastOutput
  import MtfDecoder
  import HuffmanCodes

  /** What the first six bytes after a block announce. */
  datatype Announced = Block_ | End | Neither

  /** BZ_X_BLKHDR_1 to _6 and BZ_X_ENDHDR_2 to _6. */
  method ReadMagic(r: BitReader, ghost more: seq<bit>) returns (a: Announced)
    requires r.Valid()
    modifies r
    ensures r.Valid()
    ensures r.at >= old(r.at) && r.Delivered() == old(r.Delivered())
    ensures a.Block_? ==> old(r.Remaining()) == BitsOf(BLOCK_MAGIC) + r.Remaining()
    ensures a.End? ==> old(r.Remaining()) == BitsOf(END_MAGIC) + r.Remaining()
    ensures old(r.Remaining()) == BitsOf(BLOCK_MAGIC) + more ==> a == Block_ && r.Remaining() == more
    ensures old(r.Remaining()) == BitsOf(END_MAGIC) + more ==> a == End && r.Remaining() == more
  {
    hide BitReader.Valid, BitReader.Remaining, BitReader.Delivered, Bits, BitsOf;
    ghost var all := r.Remaining();
    FirstByteOf(BLOCK_MAGIC, more);
    FirstByteOf(END_MAGIC, more);
    Pow2Values();
    ghost var isEnd := all == BitsOf(END_MAGIC) + more;
    if isEnd && all == BitsOf(BLOCK_MAGIC) + more {
      SameStart(0x17, 0x31, 8, BitsOf(END_MAGIC[1..]) + more, BitsOf(BLOCK_MAGIC[1..]) + more);
    }
    ghost var c, tail := if isEnd then 0x17 else 0x31, BitsOf(if isEnd then END_MAGIC[1..] else BLOCK_MAGIC[1..]) +
      more;
    var ok, uc := NextBits(r, 8, c, tail);
    if !ok { return Neither; }
    if uc == 0x17 {
      ok := ExpectBytes(r, [0x72, 0x45, 0x38, 0x50, 0x90], more);
      FirstByteOf(END_MAGIC, r.Remaining());
      return if ok then End else Neither;
    }
    if uc != 0x31 { return Neither; }
    ok := ExpectBytes(r, [0x41, 0x59, 0x26, 0x53, 0x59], more);
    FirstByteOf(BLOCK_MAGIC, r.Remaining());
    return if ok then Block_ else Neither;
  }

  lemma FirstByteOf(s: seq<byte>, more: seq<bit>)
    requires |s| > 0
    ensures BitsOf(s) + more == Bits(s[0], 8) + (BitsOf(s[1..]) + more)
  {
    FirstByte(s);
    Associative(Bits(s[0], 8), BitsOf(s[1..]), more);
  }

  /** The block's CRC, the randomised bit and origPtr. */
  method ReadFields(r: BitReader, level: int, ghost crc: uint32, ghost p: nat, ghost more: seq<bit>)
    returns (ok: bool, storedBlockCRC: uint32, randomised: bool, origPtr: int)
    requires r.Valid() && 1 <= level <= 9
    modifies r
    ensures r.Valid() && (ok ==> 0 <= origPtr <= 10 + 100000 * level)
    ensures r.Onward()
    ensures ok ==> old(r.Remaining()) == Bits(storedBlockCRC, 32) +
                     ([if randomised then 1 else 0] + (Bits(origPtr, 24) + r.Remaining()))
    ensures p <= 10 + 100000 * level && old(r.Remaining()) == Bits(crc, 32) + ([0] + (Bits(p, 24) + more))
            ==> ok && storedBlockCRC == crc && !randomised && origPtr == p && r.Remaining() == more
  {
    hide BitReader.Valid, BitReader.Remaining, BitReader.Delivered, Bits, Pow2;
    Pow2Values();
    storedBlockCRC, randomised, origPtr := 0, false, 0;
    var uc;
    ok, storedBlockCRC := GetUInt32(r, crc, [0] + (Bits(p, 24) + more));
    if !ok { return; }
    ok, uc := NextBit(r, 0, Bits(p, 24) + more);
    if !ok { return; }
    randomised := uc == 1;
    ok, origPtr := GetOrigPtr(r, p, more);
    if !ok { return; }
    ok := origPtr <= 10 + 100000 * level;
  }

  /** Three GET_UCHARs put together. */
  method GetOrigPtr(r: BitReader, ghost p: nat, ghost more: seq<bit>) returns (ok: bool, origPtr: int)
    requires r.Valid()
    modifies r
    ensures r.Valid() && (ok ==> 0 <= origPtr < 0x100_0000)
    ensures r.Onward()
    ensures ok ==> old(r.Remaining()) == Bits(origPtr, 24) + r.Remaining()
    ensures p < 0x100_0000 && old(r.Remaining()) == Bits(p, 24) + more ==> ok && origPtr == p && r.Remaining() == more
  {
    hide BitReader.Valid, BitReader.Remaining, BitReader.Delivered, Bits, Pow2;
    Pow2Values();
    origPtr := 0;
    var a, b, c;
    ok, a := r.GetBits(8);
    if !ok { return; }
    origPtr := origPtr * 0x100 + a;
    ok, b := r.GetBits(8);
    if !ok { return; }
    origPtr := origPtr * 0x100 + b;
    ok, c := r.GetBits(8);
    if !ok { return; }
    origPtr := origPtr * 0x100 + c;
    PutTogether(a, b, c, r.Remaining());
    if p < 0x100_0000 && old(r.Remaining()) == Bits(p, 24) + more { SameStart(origPtr, p, 24, r.Remaining(), more); }
  }

  lemma PutTogether(a: byte, b: byte, c: byte, more: seq<bit>)
    ensures Bits(a, 8) + (Bits(b, 8) + (Bits(c, 8) + more)) == Bits((a * 0x100 + b) * 0x100 + c, 24) + more
  {
    hide Bits;
    LastByte(a, b, 8);
    LastByte(a * 0x100 + b, c, 16);
    Associative(Bits(a, 8), Bits(b, 8), Bits(c, 8) + more);
    Associative(Bits(a, 8) + Bits(b, 8), Bits(c, 8), more);
  }

  /** All symbols of the block can be decoded, and what follows EOB is left alone. */
  lemma BlockSymbols(k: Block, level: int, rest: seq<bit>, all: seq<int>)
    requires ValidBlock(k, level) && 1 <= level <= 9
    requires Codable(k.lens, k.selector, NInUse(k) + 2, Syms(k))
    requires all == SymbolsIn(SymbolBits(k.lens, k.selector, NInUse(k) + 2, Syms(k), |Syms(k)|) +
                              rest, k.lens, k.selector, 0)
    requires Known(all, Identity(256), NInUse(k) + 1)
    ensures Syms(k) <= all && UpToEob(Syms(k), NInUse(k) + 1)
    ensures Decode(all, Identity(256), 0, 0, 100000 * level, NInUse(k) + 1) == Some(Column(k))
  {
    hide Decode, Encode, ShortCode, HuffmanCodes.HasCode, SymbolsIn, SymbolBits, IndexIn;
    var n, syms := NInUse(k), Syms(k);
    forall i | 0 <= i < |syms| ensures HuffmanCodes.HasCode(LenFor(k.lens, k.selector, i), syms[i]) {
      ShortCodeHasCodes(LenFor(k.lens, k.selector, i), syms[i]);
    }
    SymbolsRoundTrip(k.lens, k.selector, n + 2, syms, rest);
    var rest256 := seq(256 - n, i requires 0 <= i < 256 - n => n + i);
    assert Identity(256) == Identity(n) + rest256;
    MtfRoundTrip(Column(k), 0, Identity(n), rest256, 0, 100000 * level);
    assert Repeat(0, 0) + Column(k)[0..] == Column(k);
    EncodeEndsWithEob(Column(k), 0, Identity(n), 0);
    var more := SymbolsIn(rest, k.lens, k.selector, |syms|);
    DecodeStops(syms, more, Identity(256), 0, 0, 100000 * level, n + 1);
  }

  /** The bytes that the decoded indices stand for are the last column. */
  lemma ColumnMapped(k: Block, seqToUnseq: seq<byte>)
    requires Sorted(k) && |seqToUnseq| == 256 && MapsBack(k.inUse, seqToUnseq)
    requires forall i :: 0 <= i < |Column(k)| ==> 0 <= Column(k)[i] < 256
    ensures Permutation(k.order) && |k.order| == |Data(k)|
    ensures MtfDecoder.Mapped(seqToUnseq, Column(k)) == LastColumn(Data(k), k.order)
  {
    var b := Data(k);
    assert SortedOrder(b, k.order);
    var col := LastColumn(b, k.order);
    forall i | 0 <= i < |b| ensures seqToUnseq[Column(k)[i]] == col[i] {
      assert k.inUse[col[i]];
    }
  }

  /** The inverse transform and the expansion give back the runs. */
  lemma BlockRestored(k: Block, p: int)
    requires Sorted(k) && p == OrigPtr(k)
    ensures |k.order| == |Data(k)| && Permutation(k.order)
    ensures var col := LastColumn(Data(k), k.order); var t := NextRow(col);
      RowMap(col, t) && Expand(Walk(col, t, t[p], |col| + 2)[..|col| + 1]) == Expansion(ExpandRuns(k.runs), false)
  {
    hide SortedOrder, Covers, EncodeRuns, ExpandRuns, RunsOk;
    IsPermutation(Data(k), k.order);
    var b, col := Data(k), LastColumn(Data(k), k.order);
    var t := NextRow(col);
    InverseBwtRestoresBlock(b, k.order, p);
    WalkPrefix(col, t, t[p], |col| + 1);
    RunLengthRoundTrip(k.runs, b[0]);
  }

  lemma {:induction false} WalkPrefix(col: seq<byte>, t: seq<int>, q: int, n: nat)
    requires RowMap(col, t) && 0 <= q < |col|
    ensures Walk(col, t, q, n + 1)[..n] == Walk(col, t, q, n)
    decreases n
  {
    if n > 0 {
      WalkPrefix(col, t, t[q], n - 1);
      var a, b := Walk(col, t, t[q], n), Walk(col, t, t[q], n - 1);
      assert ([col[q]] + a)[..n] == [col[q]] + a[..n - 1];
    }
  }

  /** tt holds a last column of which unzftab holds the counts: set up cftab, thread the rows and
      fetch the first byte. */
  method StartOutput(d: DState, nblock: int, origPtr: int, unzftab: array<int>, ghost col: seq<byte>)
    returns (ok: bool, ghost chars: seq<byte>)
    requires d.tt as object != unzftab as object && unzftab.Length == 256 && |d.crcTable| == 256
    requires 0 <= nblock == |col| <= 100000 * d.blockSize100k <= d.tt.Length && d.blockSize100k <= 9 && 0 <= origPtr
    requires forall i :: 0 <= i < nblock ==> d.tt[i] == col[i]
    requires forall c :: 0 <= c < 256 ==> unzftab[c] == Count(col, c, nblock)
    modifies d, d.tt
    ensures ok <==> origPtr < nblock
    ensures ok ==> RowMap(col, NextRow(col)) && chars == Walk(col, NextRow(col), NextRow(col)[origPtr], nblock + 2)
    ensures ok ==> d.Valid(col, NextRow(col), chars) && d.Owed(chars) == Expand(chars[..nblock + 1])
    ensures ok ==> d.calculatedBlockCRC == 0xffff_ffff
  {
    hide NextRow, Walk, Count, UndoesRows, RowMap, Expand, DState.Valid, DState.Owed;
    chars := [];
    if origPtr < 0 || origPtr >= nblock { return false, chars; }
    var cftab := new int[257];
    ok := BuildCftab(unzftab, nblock, cftab, col);
    NextRowUndoesRows(col);
    NextRowLength(col);
    d.StartBlock(nblock, origPtr, cftab, col, NextRow(col));
    chars := Walk(col, NextRow(col), NextRow(col)[origPtr], nblock + 2);
  }

  lemma NextRowLength(col: seq<byte>)
    requires UndoesRows(NextRow(col), col)
    ensures |NextRow(col)| == |col|
  {
  }

  /** What is read of a block after its magic number. */
  ghost function BodyBits(table: seq<bv32>, k: Block, level: int): seq<bit>
    requires |table| == 256 && ValidBlock(k, level)
  {
    Bits(BlockCrcOf(table, k.runs) as int, 32) + ([0] + (Bits(OrigPtr(k), 24) + MtfBitsOf(k, level)))
  }

  lemma AllKnown(sr: SymbolReader, nInUse: int)
    requires sr.Valid() && sr.read == [] && sr.alphaSize == nInUse + 2 && 1 <= nInUse <= 256
    ensures Known(sr.All(), Identity(256), nInUse + 1)
    ensures sr.All() == SymbolsIn(sr.start, sr.lens, sr.selector, 0)
  {
    hide SymbolsIn;
    var all := SymbolsIn(sr.r.Remaining(), sr.lens, sr.selector, 0);
    assert [] + all == all;
    assert [] + sr.r.Remaining() == sr.r.Remaining();
    forall i | 0 <= i < |all| ensures 0 <= all[i] <= nInUse + 1 {
      SymbolsInRange(sr.r.Remaining(), sr.lens, sr.selector, 0, sr.alphaSize, i);
    }
  }

  /** After the first EOB of exactly the block's symbols, the input goes on with what follows them. */
  lemma SymbolsConsumed(sr: SymbolReader, k: Block, level: int, rest: seq<bit>, all: seq<int>)
    requires sr.Valid() && ValidBlock(k, level) && Ready(sr, k.selector, k.lens, NInUse(k) + 2, Syms(k), rest)
    requires sr.alphaSize == NInUse(k) + 2
    requires UpToEob(sr.read, NInUse(k) + 1) && UpToEob(Syms(k), NInUse(k) + 1) && sr.read <= all && Syms(k) <= all
    ensures sr.r.Remaining() == rest
  {
    hide SymbolBits, UpToEob, Syms, Codable, Chosen;
    SameEob(sr.read, Syms(k), all, NInUse(k) + 1);
    var front := SymbolBits(k.lens, k.selector, NInUse(k) + 2, Syms(k), |Syms(k)|);
    assert (front + sr.r.Remaining())[|front|..] == sr.r.Remaining() && (front + rest)[|front|..] == rest;
  }

  /** The tables and the symbols of a block: tt receives the last column, unzftab the counts. */
  method ReadColumn(r: BitReader, tt: array<uint32>, unzftab: array<int>, level: int, ghost k: Block,
        ghost rest: seq<bit>)
    returns (ok: bool, nblock: int, ghost col: seq<byte>)
    requires r.Valid() && 1 <= level <= 9 && 100000 * level <= tt.Length && unzftab.Length == 256
    requires tt as object != unzftab as object && ValidBlock(k, level)
    modifies r, tt, unzftab
    ensures ok ==> r.Valid() && r.Onward() && 0 <= nblock == |col| <= 100000 * level
    ensures ok ==> forall i :: 0 <= i < nblock ==> tt[i] == col[i]
    ensures ok ==> forall c :: 0 <= c < 256 ==> unzftab[c] == Count(col, c, nblock)
    ensures |k.order| == |Data(k)| && Permutation(k.order)
    ensures old(r.Remaining()) == MtfBitsOf(k, level) + rest ==>
          ok && r.Remaining() == rest && col == LastColumn(Data(k), k.order)
  {
    hide BitReader.Valid, BitReader.Remaining, BitReader.Delivered, SymbolReader.Valid, SymbolReader.All, Decode, Known;
    hide MtfBits, SymbolsIn, SymbolBits;
    hide Encode, ShortCode, SortedOrder, Count, Codable, MapsBack, UpToEob, ByteMaps.Rank, EncodeRuns, RunsOk;
    IsPermutation(Data(k), k.order);
    ghost var good := r.Remaining() == MtfBitsOf(k, level) + rest;
    nblock, col := 0, [];
    var seqToUnseq := new byte[256];
    var nInUse, sr;
    ok, nInUse, sr := ReceiveMTFValues(r, seqToUnseq, k.inUse, k.nGroups, k.selector, k.lens, Syms(k), rest);
    if !ok { return; }
    AllKnown(sr, nInUse);
    ghost var all := sr.All();
    ghost var s2u := seqToUnseq[..];
    if good { BlockSymbols(k, level, rest, all); }
    ghost var out;
    ok, nblock, out := MtfDecoder.ExpandSymbols(sr, nInUse, seqToUnseq[..], 100000 * level, tt, unzftab, all);
    if !ok { return; }
    DecodedColumn(tt[..], unzftab[..], s2u, out, nblock);
    col := MtfDecoder.Mapped(s2u, out);
    ReaderValid(sr);
    if good {
      SymbolsConsumed(sr, k, level, rest, all);
      ColumnMapped(k, s2u);
    }
  }

  lemma ReaderValid(sr: SymbolReader)
    requires sr.Valid()
    ensures sr.r.Valid() && |sr.r.Remaining()| <= |sr.start| && sr.r.Delivered() == sr.delivered
    ensures sr.r.at >= sr.startAt
  {
  }

  lemma DecodedColumn(tt: seq<uint32>, unzftab: seq<int>, s2u: seq<byte>, out: seq<int>, nblock: int)
    requires MtfDecoder.Decoded(tt, unzftab, s2u, out, nblock)
    ensures |s2u| == 256 && (forall i :: 0 <= i < |out| ==> 0 <= out[i] < 256) && |tt| >= nblock && |unzftab| == 256
    ensures nblock == |MtfDecoder.Mapped(s2u, out)|
    ensures forall i :: 0 <= i < nblock ==> tt[i] == MtfDecoder.Mapped(s2u, out)[i]
    ensures forall c :: 0 <= c < 256 ==> unzftab[c] == Count(MtfDecoder.Mapped(s2u, out), c, nblock)
  {
  }

  /** BZ2_decompress from BZ_X_BCRC_1 on: a block is read and its output is started. An input that
      starts with a block of the encoder's leads to exactly the bytes of its runs. */
  method DecodeBlock(r: BitReader, d: DState, level: int, ghost k: Block, ghost rest: seq<bit>)
    returns (ok: bool, storedBlockCRC: uint32, ghost col: seq<byte>, ghost chars: seq<byte>)
    requires r.Valid() && 1 <= level <= 9 && d.blockSize100k == level && d.tt.Length == 100000 * level
    requires |d.crcTable| == 256
    requires ValidBlock(k, level)
    modifies r, d, d.tt
    ensures ok ==> r.Valid() && r.Onward()
    ensures ok ==> RowMap(col, NextRow(col)) && d.Valid(col, NextRow(col), chars) && d.calculatedBlockCRC == 0xffff_ffff
    ensures old(r.Remaining()) == BodyBits(d.crcTable, k, level) + rest
            ==> ok && r.Remaining() == rest && storedBlockCRC == BlockCrcOf(d.crcTable, k.runs) as int
                && d.Owed(chars) == Expansion(ExpandRuns(k.runs), false)
  {
    hide BitReader.Valid, BitReader.Remaining, BitReader.Delivered, Bits, DState.Valid, DState.Owed, NextRow, Walk;
    hide Expand, RowMap, BlockCrcOf;
    hide MtfBitsOf, Count, LastColumn, Permutation, OrigPtr, SortedOrder, Covers, Chosen, Syms, RunsOk, EncodeRuns;
    ghost var crc: uint32, p := BlockCrcOf(d.crcTable, k.runs) as int, OrigPtr(k);
    ghost var after1 := MtfBitsOf(k, level) + rest;
    ghost var good := r.Remaining() == BodyBits(d.crcTable, k, level) + rest;
    FieldsRegrouped(Bits(crc, 32), [0], Bits(p, 24), MtfBitsOf(k, level), rest);
    OrigPtrBound(k, level);
    col, chars := [], [];
    var randomised, origPtr, nblock;
    ok, storedBlockCRC, randomised, origPtr := ReadFields(r, level, crc, p, after1);
    if !ok { return; }
    if randomised { return false, storedBlockCRC, col, chars; }
    var unzftab := new int[256];
    ok, nblock, col := ReadColumn(r, d.tt, unzftab, level, k, rest);
    if !ok { return; }
    ok, chars := StartOutput(d, nblock, origPtr, unzftab, col);
    if good {
      BlockRestored(k, p);
      ColumnLength(k);
    }
  }

  lemma ColumnLength(k: Block)
    requires Sorted(k)
    ensures |k.order| == |Data(k)| && Permutation(k.order) && |LastColumn(Data(k), k.order)| == |Data(k)|
    ensures OrigPtr(k) < |Data(k)|
  {
    IsPermutation(Data(k), k.order);
  }

  lemma OrigPtrBound(k: Block, level: int)
    requires ValidBlock(k, level)
    ensures OrigPtr(k) <= 10 + 100000 * level
  {
  }

  lemma FieldsRegrouped(a: seq<bit>, b: seq<bit>, c: seq<bit>, d: seq<bit>, e: seq<bit>)
    ensures a + (b + (c + d)) + e == a + (b + (c + (d + e)))
  {
    Associative(c, d, e);
    Associative(b, c + d, e);
    Associative(a, b + (c + d), e);
  }
}
