/** crc32.c: the tables for a byte and for a braided word. */
module CrcTables {
  import opened Crc32
  import opened CrcPoly
  import opened CrcPowers
  import opened Words

  function Index(b: bv8): (i: nat)
    ensures i < 256
  {
    b as int
  }

  /** An index into a table as a byte. */
  function Byte(i: nat): bv8
    requires i < 256
  {
    i as bv8
  }

  function Wide(i: nat): bv32
    requires i < 256
  {
    Byte(i) as bv32
  }

  lemma ByteOfIndex(b: bv8)
    ensures Byte(Index(b)) == b && Wide(Index(b)) == b as bv32
  {
  }

  lemma WideIs(i: nat)
    requires i < 256
    ensures Wide(i) == Byte(i) as bv32
  {
  }

  lemma FirstByte()
    ensures Wide(0) == 0
  {
  }

  lemma OtherByte(i: nat)
    requires 0 < i < 256
    ensures Byte(i) != 0
  {
  }

  /** crc_table */
  ghost predicate ByteTable(table: seq<bv32>) {
    |table| == 256 && forall i :: 0 <= i < 256 ==> table[i] == Shifted(8, Wide(i))
  }

  /** crc_braid_table for n braids of words of w bytes. */
  ghost predicate BraidTable(table: seq<seq<bv32>>, n: nat, w: nat) {
    |table| == w && forall k :: 0 <= k < w ==> BraidRow(table[k], n * w, k)
  }

  /** Entry b is b times x^(8 * (nw - k)). */
  ghost predicate BraidRow(row: seq<bv32>, nw: nat, k: nat) {
    |row| == 256 && k <= nw && forall i :: 0 <= i < 256 ==> row[i] == Shifted(8 * (nw - k), Wide(i))
  }

  function Low(x: bv32): bv8 {
    (x & 0xff) as bv8
  }

  /** A word without its lowest byte, and with nothing else. */
  lemma LowAndRest(x: bv32)
    ensures Xor(x & 0xffff_ff00, Low(x) as bv32) == x
  {
  }

  /** Eight steps without a bit that falls out. */
  lemma DropByte(x: bv32)
    ensures Shifted(8, x & 0xffff_ff00) == Right(x, 8)
  {
    hide TimesX, Right;
    var y := x & 0xffff_ff00;
    Unrolled(y);
    Drops(x, y);
  }

  lemma Unrolled(y: bv32)
    ensures Shifted(8, y) == TimesX(TimesX(TimesX(TimesX(TimesX(TimesX(TimesX(TimesX(y))))))))
  {
    hide TimesX;
    Twice(y, 0);
    Twice(y, 2);
    Twice(y, 4);
    Twice(y, 6);
  }

  lemma Twice(y: bv32, n: nat)
    ensures Shifted(n + 2, y) == TimesX(TimesX(Shifted(n, y)))
    ensures Shifted(0, y) == y
  {
    hide TimesX;
  }

  lemma EvenDrops(y: bv32, n: bv6)
    requires n < 8 && y & 0xff == 0
    ensures TimesX(Right(y, n)) == Right(y, n + 1)
  {
    EvenLast(y, n);
    OneMore(y, n);
  }

  lemma EvenLast(y: bv32, n: bv6)
    requires n < 8 && y & 0xff == 0
    ensures !Last(Right(y, n))
  {
  }

  lemma OneMore(y: bv32, n: bv6)
    requires n < 8
    ensures Right(Right(y, n), 1) == Right(y, n + 1)
  {
  }

  lemma Drops(x: bv32, y: bv32)
    requires y == x & 0xffff_ff00
    ensures TimesX(TimesX(TimesX(TimesX(TimesX(TimesX(TimesX(TimesX(y)))))))) == Right(x, 8)
  {
    hide TimesX, Right;
    LowZero(x, y);
    EvenDrops(y, 0);
    EvenDrops(y, 1);
    EvenDrops(y, 2);
    EvenDrops(y, 3);
    EvenDrops(y, 4);
    EvenDrops(y, 5);
    EvenDrops(y, 6);
    EvenDrops(y, 7);
  }

  lemma LowZero(x: bv32, y: bv32)
    requires y == x & 0xffff_ff00
    ensures y & 0xff == 0 && Right(y, 0) == y && Right(y, 8) == Right(x, 8)
  {
  }

  /** (crc >> 8) ^ crc_table[(crc ^ byte) & 0xff] is one step of the register. */
  lemma StepByTable(c: bv32, b: bv8)
    ensures Step(c, b) == Xor(Right(c, 8), Shifted(8, Low(Xor(c, b as bv32)) as bv32))
  {
    hide Xor, Shifted, Right, Low;
    var x := Xor(c, b as bv32);
    LowAndRest(x);
    ShiftedAdds(8, x & 0xffff_ff00, Low(x) as bv32);
    DropByte(x);
    SameRight(c, b);
  }

  lemma SameRight(c: bv32, b: bv8)
    ensures Right(Xor(c, b as bv32), 8) == Right(c, 8)
  {
  }

  /** The CRC of the one byte 0x61. */
  lemma OneByte()
    ensures Crc([0x61]) == 0xe8b7_be43
  {
    hide Shifted, TimesX;
    var s: seq<bv8> := [0x61];
    assert s[..0] == [] && Run(ONES, []) == ONES;
    StartWithByte();
    Unrolled(0xffff_ff9e);
    EightTurns();
  }

  lemma StartWithByte()
    ensures Xor(ONES, 0x61) == 0xffff_ff9e && Xor(0x1748_41bc, ONES) == 0xe8b7_be43
  {
  }

  lemma EightTurns()
    ensures TimesX(0xffff_ff9e) == 0x7fff_ffcf && TimesX(0x7fff_ffcf) == 0xd247_7cc7
    ensures TimesX(0xd247_7cc7) == 0x849b_3d43 && TimesX(0x849b_3d43) == 0xaff5_1d81
    ensures TimesX(0xaff5_1d81) == 0xba42_0de0 && TimesX(0xba42_0de0) == 0x5d21_06f0
    ensures TimesX(0x5d21_06f0) == 0x2e90_8378 && TimesX(0x2e90_8378) == 0x1748_41bc
  {
  }

  /** The part of make_crc_table that fills crc_table. */
  method MakeByteTable(table: array<bv32>)
    requires table.Length == 256
    modifies table
    ensures ByteTable(table[..])
  {
    hide Shifted, Byte;
    for i := 0 to 256
      invariant forall k :: 0 <= k < i ==> table[k] == Shifted(8, Wide(k))
    {
      table[i] := ByteEntry(Byte(i));
    }
  }

  method ByteEntry(b: bv8) returns (p: bv32)
    ensures p == Shifted(8, b as bv32)
  {
    hide Shifted, TimesX;
    p := b as bv32;
    Twice(p, 0);
    for j := 0 to 8
      invariant p == Shifted(j, b as bv32)
    {
      ShiftOnce(j, b as bv32);
      p := TimesX(p);
    }
  }

  lemma ShiftOnce(n: nat, b: bv32)
    ensures Shifted(n + 1, b) == TimesX(Shifted(n, b))
  {
  }

  // braid

  /** A byte at the highest powers of x, moved to the lowest ones. */
  lemma ByteDown(b: bv8)
    ensures Shifted(24, (b as bv32) << 24) == b as bv32
  {
    hide Shifted;
    var y := (b as bv32) << 24;
    ByteBits(b);
    DropByte(y);
    DropByte(y >> 8);
    DropByte(y >> 16);
    ShiftedShifted(8, 8, y);
    ShiftedShifted(8, 16, y);
  }

  lemma ByteBits(b: bv8)
    ensures var y := (b as bv32) << 24;
            && y & 0xffff_ff00 == y && Right(y, 8) == y >> 8 && (y >> 8) & 0xffff_ff00 == y >> 8
            && Right(y >> 8, 8) == y >> 16 && (y >> 16) & 0xffff_ff00 == y >> 16 && Right(y >> 16, 8) == b as bv32
  {
  }

  /** Entry b of row k. */
  lemma BraidEntry(b: bv8, nw: nat, k: nat)
    requires k <= nw
    ensures Product((b as bv32) << 24, Power(8 * (nw + 3 - k))) == Shifted(8 * (nw - k), b as bv32)
  {
    hide Shifted, Product, Power;
    var m := 8 * (nw - k);
    ProductCommutes((b as bv32) << 24, Power(m + 24));
    ProductOfPower(m + 24, (b as bv32) << 24);
    ShiftedShifted(m, 24, (b as bv32) << 24);
    ByteDown(b);
  }

  /** Row k of the table made by braid, nw being n * w. */
  method Braid(x2n: seq<bv32>, row: array<bv32>, nw: nat, k: nat)
    requires HoldsPowers(x2n) && row.Length == 256 && k <= nw
    modifies row
    ensures BraidRow(row[..], nw, k)
  {
    hide Shifted, Product, Power, HoldsPowers, Byte, Wide;
    var p := X2nModP(x2n, (nw + 3 - k) * 8, 0);
    FirstByte();
    assert Exp2(0) == 1;
    row[0] := 0;
    ShiftedZero(8 * (nw - k));
    for i := 1 to 256
      invariant forall j :: 0 <= j < i ==> row[j] == Shifted(8 * (nw - k), Wide(j))
    {
      OtherByte(i);
      WideIs(i);
      row[i] := OneBraidEntry(Byte(i), p, nw, k);
    }
  }

  method OneBraidEntry(b: bv8, p: bv32, ghost nw: nat, ghost k: nat) returns (q: bv32)
    requires b != 0 && k <= nw && p == Power(8 * (nw + 3 - k))
    ensures q == Shifted(8 * (nw - k), b as bv32)
  {
    hide Shifted, Product, Power;
    NonZeroByte(b);
    q := MultModP((b as bv32) << 24, p);
    BraidEntry(b, nw, k);
  }

  lemma NonZeroByte(b: bv8)
    requires b != 0
    ensures (b as bv32) << 24 != 0
  {
  }
}
