/** The compressed form of blocks and streams: what the encoder writes for given choices, as bits. */
module BlockFormat {
  import opened Bytes
  import opened Permutations
  import opened Rotations
  import opened RunLength
  import opened BlockCrc
  import opened BitStrings
  import opened ByteMaps
  import opened MtfCoding
  import opened MtfEncoder
  import opened SendMtf
  import opened Words
  import HuffmanCodes

  /** A block: its runs, and all that the encoder is free to choose in coding them. */
  datatype Block = Block(runs: seq<Run>, order: seq<int>, inUse: seq<bool>, nGroups: int, selector: seq<int>,
                         lens: seq<seq<int>>)

  /** The block before sorting. */
  ghost function Data(k: Block): seq<byte>
    requires RunsOk(k.runs)
  {
    EncodeRuns(k.runs)
  }

  /** Sorted, with all its bytes marked as being in use. */
  ghost predicate Sorted(k: Block) {
    RunsOk(k.runs) && 0 < |Data(k)| && SortedOrder(Data(k), k.order) && Covers(k.inUse, Data(k))
  }

  ghost function NInUse(k: Block): nat
    requires Sorted(k)
  {
    Rank(k.inUse, 256)
  }

  ghost function Column(k: Block): (r: seq<int>)
    requires Sorted(k)
    ensures |r| == |Data(k)| && forall i :: 0 <= i < |r| ==> r[i] in Identity(NInUse(k))
    ensures NInUse(k) > 0
  {
    IndicesInList(Data(k), k.order, k.inUse);
    var r := ColumnIndices(Data(k), k.order, k.inUse);
    assert r[0] in Identity(NInUse(k));
    r
  }

  /** The symbols of the block. */
  ghost function Syms(k: Block): seq<int>
    requires Sorted(k)
  {
    Encode(Column(k), 0, Identity(NInUse(k)), 0, NInUse(k) + 1)
  }

  /** A block that an encoder of the given level may write. */
  ghost predicate ValidBlock(k: Block, level: int) {
    && Sorted(k) && |Data(k)| <= 100000 * level
    && Chosen(k.nGroups, k.selector, k.lens, NInUse(k) + 2, Syms(k))
  }

  /** The row of the original block in the sorted order. */
  ghost function OrigPtr(k: Block): (p: int)
    requires Sorted(k)
    ensures 0 <= p < |Data(k)| && k.order[p] == 0
  {
    PositionOf(k.order, 0)
  }

  /** BZ_FINALISE_CRC of the CRC of the uncompressed bytes. */
  ghost function BlockCrcOf(table: seq<bv32>, runs: seq<Run>): bv32
    requires |table| == 256 && RunsOk(runs)
  {
    FinaliseCrc(CrcOf(table, 0xffff_ffff, ExpandRuns(runs)))
  }

  function Turn(c: bv32): bv32 {
    (c << 1) | (c >> 31)
  }

  /** The combined CRC after one more block. */
  function Combine(combined: bv32, crc: bv32): bv32 {
    Xor(Turn(combined), crc)
  }

  const BLOCK_MAGIC: seq<byte> := [0x31, 0x41, 0x59, 0x26, 0x53, 0x59]
  const END_MAGIC: seq<byte> := [0x17, 0x72, 0x45, 0x38, 0x50, 0x90]

  ghost function MtfBitsOf(k: Block, level: int): seq<bit>
    requires ValidBlock(k, level)
  {
    MtfBits(k.inUse, k.nGroups, k.selector, k.lens, NInUse(k) + 2, Syms(k))
  }

  /** Everything that is written for one block. */
  ghost function BlockBits(table: seq<bv32>, k: Block, level: int): seq<bit>
    requires |table| == 256 && ValidBlock(k, level)
  {
    BitsOf(BLOCK_MAGIC) +
      (Bits(BlockCrcOf(table, k.runs) as int, 32) + ([0] + (Bits(OrigPtr(k), 24) + MtfBitsOf(k, level))))
  }

  ghost predicate ValidBlocks(blocks: seq<Block>, level: int) {
    forall i :: 0 <= i < |blocks| ==> ValidBlock(blocks[i], level)
  }

  /** Blocks, one after the other. */
  ghost function BlocksBits(table: seq<bv32>, blocks: seq<Block>, level: int): seq<bit>
    requires |table| == 256 && ValidBlocks(blocks, level)
  {
    if |blocks| == 0 then []
    else BlocksBits(table, blocks[..|blocks| - 1], level) + BlockBits(table, blocks[|blocks| - 1], level)
  }

  ghost function CombinedCrc(table: seq<bv32>, blocks: seq<Block>, level: int): bv32
    requires |table| == 256 && ValidBlocks(blocks, level)
  {
    if |blocks| == 0 then 0
    else Combine(CombinedCrc(table, blocks[..|blocks| - 1], level), BlockCrcOf(table, blocks[|blocks| - 1].runs))
  }

  /** What the blocks stand for. */
  ghost function Plain(blocks: seq<Block>, level: int): seq<byte>
    requires ValidBlocks(blocks, level)
  {
    if |blocks| == 0 then [] else Plain(blocks[..|blocks| - 1], level) + ExpandRuns(blocks[|blocks| - 1].runs)
  }

  /** The four bytes a stream starts with: BZh and the level. */
  ghost function HeaderBytes(level: int): seq<byte>
    requires 1 <= level <= 9
  {
    [0x42, 0x5a, 0x68, 0x30 + level]
  }

  ghost function TrailerBits(table: seq<bv32>, blocks: seq<Block>, level: int): seq<bit>
    requires |table| == 256 && ValidBlocks(blocks, level)
  {
    BitsOf(END_MAGIC) + Bits(CombinedCrc(table, blocks, level) as int, 32)
  }

  /** A whole stream. */
  ghost function StreamBits(table: seq<bv32>, blocks: seq<Block>, level: int): seq<bit>
    requires |table| == 256 && 1 <= level <= 9 && ValidBlocks(blocks, level)
  {
    BitsOf(HeaderBytes(level)) + BlocksBits(table, blocks, level) + TrailerBits(table, blocks, level)
  }

  /** The block that holds the one byte 0. */
  ghost function Sample(): Block {
    Block([Run(0, 1)], [0], seq(256, c => c == 0), 2, [0], [[1, 2, 2], [1, 2, 2]])
  }

  lemma SampleIsSorted()
    ensures Sorted(Sample()) && Data(Sample()) == [0]
  {
    var k := Sample();
    assert k.runs[..0] == [];
    assert EncodeRuns([]) == [] && EncodeRun(k.runs[0]) == [0];
    LexSame(Rotation([0], 0));
  }

  lemma SampleSymbols()
    requires Sorted(Sample()) && Data(Sample()) == [0]
    ensures NInUse(Sample()) == 1 && Syms(Sample()) == [0, 2]
  {
    hide Sorted;
    var k := Sample();
    OnlyZero(k.inUse, 256);
    OnlyZeroRank(k.inUse);
    assert Column(k) == [0] && Identity(1) == [0];
    OneZero();
  }

  lemma OneZero()
    ensures Encode([0], 0, [0], 0, 2) == [0, 2]
  {
    assert RunDigits(1) == [0] + RunDigits(0) && RunDigits(0) == [];
    assert Encode([0], 1, [0], 1, 2) == RunDigits(1) + [2];
  }

  /** Valid blocks exist. */
  lemma SampleIsValid(level: int)
    requires 1 <= level
    ensures ValidBlock(Sample(), level)
  {
    hide Sorted, Data, Syms, NInUse, ShortCode;
    SampleIsSorted();
    SampleSymbols();
    SampleCode();
  }

  lemma {:induction false} OnlyZero(inUse: seq<bool>, c: int)
    requires |inUse| == 256 && 1 <= c <= 256 && forall i :: 0 <= i < 256 ==> inUse[i] == (i == 0)
    ensures Rank(inUse, c) == 1
    decreases c
  {
    if c > 1 { OnlyZero(inUse, c - 1); }
  }

  lemma OnlyZeroRank(inUse: seq<bool>)
    requires |inUse| == 256
    ensures Rank(inUse, 0) == 0
  {
  }

  lemma LexSame(s: seq<byte>)
    ensures LexLe(s, s)
  {
  }

  lemma SampleCode()
    ensures ShortCode([1, 2, 2])
  {
    var len: seq<int> := [1, 2, 2];
    var half, quarter := Pow2(16), Pow2(15);
    assert Pow2(17) == 2 * half && half == 2 * quarter;
    hide Pow2;
    assert HuffmanCodes.KraftSum(len, 17, 0) == 0;
    assert HuffmanCodes.KraftSum(len, 17, 1) == half;
    assert HuffmanCodes.KraftSum(len, 17, 2) == half + quarter;
    assert HuffmanCodes.KraftSum(len, 17, 3) == half + quarter + quarter;
  }
}
