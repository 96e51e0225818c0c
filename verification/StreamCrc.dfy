/** What the CRCs written into a stream are, and the changes they show. */
module StreamCrc {
  import opened BitStrings
  import opened BlockCrc
  import opened BlockCrcPoly
  import opened BlockFormat
  import opened Bytes
  import opened RunLength
  import opened Words

  const ONES: bv32 := 0xffff_ffff

  lemma FinaliseIsXor(c: bv32)
    ensures FinaliseCrc(c) == Xor(c, ONES)
  {
  }

  /** The CRC of a block: the remainder of its bytes for a register that starts with all ones and is
      complemented at the end. */
  lemma BlockCrcIsRemainder(table: seq<bv32>, runs: seq<Run>)
    requires IsTable(table) && RunsOk(runs)
    ensures var s := ExpandRuns(runs);
            BlockCrcOf(table, runs) == Xor(Xor(Shifted(8 * |s|, ONES), Remainder(BitsOf(s))), ONES)
  {
    hide CrcOf, Shifted, Xor, Remainder, BitsOf, FinaliseCrc, ExpandRuns;
    var s := ExpandRuns(runs);
    CrcIsRemainder(table, ONES, s);
    FinaliseIsXor(CrcOf(table, ONES, s));
  }

  /** Changing one to four neighbouring bytes of a block in any way changes its CRC. */
  lemma BlockChangeShows(table: seq<bv32>, runs: seq<Run>, runs': seq<Run>, before: seq<byte>, s: seq<byte>,
        t: seq<byte>, after: seq<byte>)
    requires IsTable(table) && RunsOk(runs) && RunsOk(runs') && |s| == |t| <= 4 && s != t
    requires ExpandRuns(runs) == before + s + after && ExpandRuns(runs') == before + t + after
    ensures BlockCrcOf(table, runs) != BlockCrcOf(table, runs')
  {
    hide CrcOf, Xor, FinaliseCrc, ExpandRuns;
    ChangeShows(table, ONES, before, s, t, after);
    var c, c' := CrcOf(table, ONES, before + s + after), CrcOf(table, ONES, before + t + after);
    FinaliseIsXor(c);
    FinaliseIsXor(c');
    Apart(c, c', ONES);
  }

  /** The CRC of the one byte 0x61. */
  lemma OneByte(table: seq<bv32>)
    requires IsTable(table)
    ensures FinaliseCrc(CrcOf(table, ONES, [0x61])) == 0x1993_9b6b
  {
    hide Shifted, TimesX, UpdateCrc;
    CrcOfOne(table, ONES, 0x61);
    StepByTable(table, ONES, 0x61);
    StartWithByte();
    Unrolled(0x9eff_ffff);
    EightTurns();
  }

  lemma StartWithByte()
    ensures Xor(ONES, High(0x61)) == 0x9eff_ffff && FinaliseCrc(0xe66c_6494) == 0x1993_9b6b
  {
  }

  lemma EightTurns()
    ensures TimesX(0x9eff_ffff) == 0x393e_e249 && TimesX(0x393e_e249) == 0x727d_c492
    ensures TimesX(0x727d_c492) == 0xe4fb_8924 && TimesX(0xe4fb_8924) == 0xcd36_0fff
    ensures TimesX(0xcd36_0fff) == 0x9ead_0249 && TimesX(0x9ead_0249) == 0x399b_1925
    ensures TimesX(0x399b_1925) == 0x7336_324a && TimesX(0x7336_324a) == 0xe66c_6494
  {
  }

  // The combined CRC

  /** Bit k of a word. */
  function BitAt(c: bv32, k: bv6): bool
    requires k < 32
  {
    Last(Right(c, k))
  }

  lemma TurnBits(c: bv32, k: bv6)
    requires 0 < k < 32
    ensures BitAt(Turn(c), k) == BitAt(c, k - 1)
  {
    hide Turn;
    TurnedUp(c, k);
  }

  lemma TurnedUp(c: bv32, k: bv6)
    requires 0 < k < 32
    ensures (Turn(c) >> k) & 1 == (c >> (k - 1)) & 1
  {
  }

  lemma TurnLowest(c: bv32)
    ensures BitAt(Turn(c), 0) == BitAt(c, 31)
  {
  }

  /** The combined CRC is rotated left by one bit before the CRC of a block is added. */
  lemma CombineBits(c: bv32, crc: bv32, k: bv6)
    requires k < 32
    ensures BitAt(Combine(c, crc), k) == (BitAt(c, if k == 0 then 31 else k - 1) != BitAt(crc, k))
  {
    hide Turn, Xor, Right, Last;
    if k == 0 { TurnLowest(c); } else { TurnBits(c, k); }
    RightAdds(Turn(c), crc, k);
    XorLast(Right(Turn(c), k), Right(crc, k));
  }

  lemma TurnsApart(c: bv32, d: bv32)
    requires c != d
    ensures Turn(c) != Turn(d)
  {
  }

  lemma ValidRuns(k: Block, level: int)
    requires ValidBlock(k, level)
    ensures RunsOk(k.runs)
  {
  }

  /** A change in the CRC of one block changes the combined CRC. */
  lemma {:induction false} CombinedChangeShows(table: seq<bv32>, blocks: seq<Block>, k: Block, i: nat, level: int)
    requires |table| == 256 && ValidBlocks(blocks, level) && i < |blocks| && ValidBlock(k, level)
    requires BlockCrcOf(table, blocks[i].runs) != BlockCrcOf(table, k.runs)
    ensures CombinedCrc(table, blocks, level) != CombinedCrc(table, blocks[i := k], level)
    decreases |blocks|
  {
    hide BlockCrcOf, Xor, Turn, ValidBlock, RunsOk;
    var n := |blocks| - 1;
    ValidRuns(blocks[n], level);
    ValidRuns(blocks[i], level);
    ValidRuns(k, level);
    var c := CombinedCrc(table, blocks[..n], level);
    var x := BlockCrcOf(table, blocks[n].runs);
    if i == n {
      assert blocks[i := k][..n] == blocks[..n];
      Apart(x, BlockCrcOf(table, k.runs), Turn(c));
    } else {
      assert blocks[i := k][..n] == blocks[..n][i := k];
      CombinedChangeShows(table, blocks[..n], k, i, level);
      var c' := CombinedCrc(table, blocks[..n][i := k], level);
      TurnsApart(c, c');
      Apart(Turn(c), Turn(c'), x);
    }
  }
}
