/** The block CRC as a remainder of polynomials over GF(2), the highest power in the most significant bit. */
module BlockCrcPoly {
  import opened BitSlices
  import opened BitStrings
  import opened BlockCrc
  import opened Bytes
  import opened Words

  /** x^32 + x^26 + ... + 1 without its highest power */
  const POLY: bv32 := 0x04c1_1db7
  const TOP: bv32 := 0x8000_0000

  predicate First(b: bv32) {
    b & TOP != 0
  }

  function TimesX(b: bv32): bv32 {
    if First(b) then Xor(Left(b), POLY) else Left(b)
  }

  /** b times x^n modulo the CRC polynomial. */
  function Shifted(n: nat, b: bv32): bv32 {
    if n == 0 then b else TimesX(Shifted(n - 1, b))
  }

  /** A byte at the highest powers. */
  function HighBits(b: bv8): bv32 {
    (b as bv32) << 24
  }

  function High(ch: byte): bv32 {
    HighBits(Octet(ch))
  }

  /** BZ2_crc32Table */
  ghost predicate IsTable(table: seq<bv32>) {
    |table| == 256 && forall i :: 0 <= i < 256 ==> table[i] == Shifted(8, High(i))
  }

  // Linearity

  lemma FirstAdds(a: bv32, b: bv32)
    ensures First(Xor(a, b)) == (First(a) != First(b))
  {
  }

  lemma TimesXAdds(a: bv32, b: bv32)
    ensures TimesX(Xor(a, b)) == Xor(TimesX(a), TimesX(b))
  {
    hide Xor, Left, First;
    XorLeft(a, b);
    FirstAdds(a, b);
    var p := POLY;
    var la, lb := Left(a), Left(b);
    if First(a) && First(b) {
      XorSwaps(la, p, lb, p);
      XorZero(p);
      XorZero(Xor(la, lb));
    } else if First(a) {
      XorAssociates(la, p, lb);
      XorCommutes(p, lb);
      XorAssociates(la, lb, p);
    } else if First(b) {
      XorAssociates(la, lb, p);
    }
  }

  lemma {:induction false} ShiftedAdds(n: nat, a: bv32, b: bv32)
    ensures Shifted(n, Xor(a, b)) == Xor(Shifted(n, a), Shifted(n, b))
  {
    hide Xor, TimesX;
    if n > 0 {
      ShiftedAdds(n - 1, a, b);
      TimesXAdds(Shifted(n - 1, a), Shifted(n - 1, b));
    }
  }

  lemma {:induction false} ShiftedShifted(n: nat, k: nat, b: bv32)
    ensures Shifted(n, Shifted(k, b)) == Shifted(n + k, b)
  {
    hide TimesX;
    if n > 0 {
      ShiftedShifted(n - 1, k, b);
    }
  }

  lemma TimesXNonZero(b: bv32)
    requires b != 0
    ensures TimesX(b) != 0
  {
  }

  lemma {:induction false} ShiftedNonZero(n: nat, b: bv32)
    requires b != 0
    ensures Shifted(n, b) != 0
  {
    hide TimesX;
    if n > 0 {
      ShiftedNonZero(n - 1, b);
      TimesXNonZero(Shifted(n - 1, b));
    }
  }

  // One step of the table

  function Low(x: bv32): bv32 {
    x & 0xff_ffff
  }

  lemma EntryIsTop(crc: bv32, b: bv8)
    ensures Xor(Low(crc), HighBits(Entry(crc, b))) == Xor(crc, HighBits(b))
  {
  }

  lemma OctetOfIndex(b: bv8)
    ensures Octet(Index(b)) == b
  {
  }

  lemma LowLefts(x: bv32, n: bv6)
    requires n < 8
    ensures TimesX(LeftBy(Low(x), n)) == LeftBy(Low(x), n + 1)
  {
    hide Left;
    LeftByNext(Low(x), n);
    LowFirst(x, n);
  }

  lemma LowFirst(x: bv32, n: bv6)
    requires n < 8
    ensures !First(LeftBy(Low(x), n))
  {
  }

  lemma LowFalls(x: bv32)
    ensures Shifted(8, Low(x)) == LeftBy(x, 8)
  {
    hide TimesX, Low, LeftBy;
    var y := Low(x);
    NoShift(y);
    Unrolled(y);
    LowLefts(x, 0);
    LowLefts(x, 1);
    LowLefts(x, 2);
    LowLefts(x, 3);
    LowLefts(x, 4);
    LowLefts(x, 5);
    LowLefts(x, 6);
    LowLefts(x, 7);
    LowGone(x);
  }

  lemma LowGone(x: bv32)
    ensures LeftBy(Low(x), 8) == LeftBy(x, 8)
  {
  }

  lemma Unrolled(y: bv32)
    ensures Shifted(8, y) == TimesX(TimesX(TimesX(TimesX(TimesX(TimesX(TimesX(TimesX(y))))))))
  {
    hide TimesX;
    Twice(y, 0);
    Twice(y, 2);
    Twice(y, 4);
    Twice(y, 6);
  }

  lemma Twice(y: bv32, n: nat)
    ensures Shifted(n + 2, y) == TimesX(TimesX(Shifted(n, y)))
    ensures Shifted(0, y) == y
  {
    hide TimesX;
  }

  /** (crc << 8) ^ BZ2_crc32Table[(crc >> 24) ^ ch] */
  lemma StepByTable(table: seq<bv32>, crc: bv32, ch: byte)
    requires IsTable(table)
    ensures UpdateCrc(table, crc, ch) == Shifted(8, Xor(crc, High(ch)))
  {
    hide Xor, Shifted, Low, HighBits, Octet, Index, LeftBy, Entry;
    var e := Entry(crc, Octet(ch));
    OctetOfIndex(e);
    EntryIsTop(crc, Octet(ch));
    ShiftedAdds(8, Low(crc), HighBits(e));
    LowFalls(crc);
  }

  // The register fed bit by bit

  ghost function Feed(c: bv32, b: bit): bv32 {
    TimesX(Xor(c, if b == 1 then TOP else 0))
  }

  ghost function FeedAll(c: bv32, s: seq<bit>): bv32 {
    if |s| == 0 then c else Feed(FeedAll(c, s[..|s| - 1]), s[|s| - 1])
  }

  lemma {:induction false} FeedConcat(c: bv32, s: seq<bit>, t: seq<bit>)
    ensures FeedAll(c, s + t) == FeedAll(FeedAll(c, s), t)
    decreases |t|
  {
    hide Feed;
    if |t| == 0 {
      assert s + t == s;
    } else {
      var t' := t[..|t| - 1];
      FeedConcat(c, s, t');
      assert (s + t)[..|s + t| - 1] == s + t';
    }
  }

  /** The bits of y from its first one on can be fed or be in the register already. */
  ghost predicate Leads(y: bv32, b: bit) {
    First(y) <==> b == 1
  }

  /** Feeding a bit that leads y shifts the rest of y. */
  lemma FeedLeading(c: bv32, y: bv32, b: bit)
    requires Leads(y, b)
    ensures TimesX(Xor(c, y)) == Xor(Feed(c, b), Left(y))
  {
    hide Xor, TimesX, Left;
    var t: bv32 := if b == 1 then TOP else 0;
    var rest := Rest(y);
    LeadAndRest(y, b);
    XorAssociates(c, t, rest);
    TimesXAdds(Xor(c, t), rest);
    RestShifts(y);
  }

  function Rest(y: bv32): bv32 {
    y & 0x7fff_ffff
  }

  lemma LeadAndRest(y: bv32, b: bit)
    requires Leads(y, b)
    ensures y == Xor(if b == 1 then TOP else 0, Rest(y))
  {
    hide Xor, First, Rest;
    if b == 1 { Leading(y); } else { NotLeading(y); }
  }

  lemma Leading(y: bv32)
    requires First(y)
    ensures y == Xor(TOP, Rest(y))
  {
  }

  lemma NotLeading(y: bv32)
    requires !First(y)
    ensures y == Xor(0, Rest(y))
  {
  }

  lemma RestShifts(y: bv32)
    ensures TimesX(Rest(y)) == Left(y)
  {
  }

  ghost function Lefts(y: bv32, n: nat): bv32 {
    if n == 0 then y else Left(Lefts(y, n - 1))
  }

  /** The bits of s are the first bits of y. */
  ghost predicate AllLead(y: bv32, s: seq<bit>) {
    forall k :: 0 <= k < |s| ==> Leads(Lefts(y, k), s[k])
  }

  lemma {:induction false} FeedAllLeading(c: bv32, y: bv32, s: seq<bit>)
    requires AllLead(y, s)
    ensures Shifted(|s|, Xor(c, y)) == Xor(FeedAll(c, s), Lefts(y, |s|))
    decreases |s|
  {
    hide Xor, TimesX, Feed, Leads, Left;
    if |s| > 0 {
      var n := |s| - 1;
      FeedAllLeading(c, y, s[..n]);
      FeedLeading(FeedAll(c, s[..n]), Lefts(y, n), s[n]);
    }
  }

  // The bits of a byte

  lemma {:induction false} BitAt(v: nat, n: nat, k: nat)
    requires k < n
    ensures Bits(v, n)[k] == v / Pow2(n - 1 - k) % 2
  {
    if k < n - 1 {
      BitAt(v / 2, n - 1, k);
      DivideTwice(v, 2, Pow2(n - 2 - k));
    }
  }

  lemma LeftsBy(y: bv32)
    ensures Lefts(y, 0) == y && Lefts(y, 1) == LeftBy(y, 1) && Lefts(y, 2) == LeftBy(y, 2)
    ensures Lefts(y, 3) == LeftBy(y, 3) && Lefts(y, 4) == LeftBy(y, 4) && Lefts(y, 5) == LeftBy(y, 5)
    ensures Lefts(y, 6) == LeftBy(y, 6) && Lefts(y, 7) == LeftBy(y, 7) && Lefts(y, 8) == LeftBy(y, 8)
  {
    hide Left, LeftBy;
    NoShift(y);
    LeftByNext(y, 0);
    LeftByNext(y, 1);
    LeftByNext(y, 2);
    LeftByNext(y, 3);
    LeftByNext(y, 4);
    LeftByNext(y, 5);
    LeftByNext(y, 6);
    LeftByNext(y, 7);
  }

  predicate BitOf(b: bv8, n: bv6)
    requires n < 8
  {
    (b << n) & 0x80 != 0
  }

  lemma FirstOfHigh(b: bv8, n: bv6)
    requires n < 8
    ensures First(LeftBy(HighBits(b), n)) == BitOf(b, n)
  {
  }

  lemma HighGone(b: bv8)
    ensures LeftBy(HighBits(b), 8) == 0
  {
  }

  lemma OctetBits(ch: byte)
    ensures BitOf(Octet(ch), 0) == (ch / 128 % 2 == 1) && BitOf(Octet(ch), 1) == (ch / 64 % 2 == 1)
    ensures BitOf(Octet(ch), 2) == (ch / 32 % 2 == 1) && BitOf(Octet(ch), 3) == (ch / 16 % 2 == 1)
    ensures BitOf(Octet(ch), 4) == (ch / 8 % 2 == 1) && BitOf(Octet(ch), 5) == (ch / 4 % 2 == 1)
    ensures BitOf(Octet(ch), 6) == (ch / 2 % 2 == 1) && BitOf(Octet(ch), 7) == (ch / 1 % 2 == 1)
  {
  }

  lemma LeadsByte(ch: byte, k: nat)
    requires k < 8
    ensures Leads(Lefts(High(ch), k), Bits(ch, 8)[k])
  {
    hide First, LeftBy, HighBits, BitOf, Octet, Bits, Lefts;
    var b := Octet(ch);
    OctetBits(ch);
    LeftsBy(High(ch));
    NoShift(High(ch));
    BitAt(ch, 8, k);
    FirstOfHigh(b, 0);
    FirstOfHigh(b, 1);
    FirstOfHigh(b, 2);
    FirstOfHigh(b, 3);
    FirstOfHigh(b, 4);
    FirstOfHigh(b, 5);
    FirstOfHigh(b, 6);
    FirstOfHigh(b, 7);
    assert Pow2(0) == 1 && Pow2(1) == 2 && Pow2(2) == 4 && Pow2(3) == 8;
    assert Pow2(4) == 16 && Pow2(5) == 32 && Pow2(6) == 64 && Pow2(7) == 128;
    if k == 0 {
    } else if k == 1 {
    } else if k == 2 {
    } else if k == 3 {
    } else if k == 4 {
    } else if k == 5 {
    } else if k == 6 {
    } else {
    }
  }

  lemma FeedByte(c: bv32, ch: byte)
    ensures FeedAll(c, Bits(ch, 8)) == Shifted(8, Xor(c, High(ch)))
  {
    hide FeedAll, Shifted, Lefts, Leads, High, Xor, Bits;
    forall k | 0 <= k < 8 ensures Leads(Lefts(High(ch), k), Bits(ch, 8)[k]) {
      LeadsByte(ch, k);
    }
    FeedAllLeading(c, High(ch), Bits(ch, 8));
    NothingLeft(ch);
    XorZero(FeedAll(c, Bits(ch, 8)));
  }

  lemma NothingLeft(ch: byte)
    ensures Lefts(High(ch), 8) == 0
  {
    hide LeftBy, HighBits;
    LeftsBy(High(ch));
    HighGone(Octet(ch));
  }

  /** The CRC is what a register fed with the bits of the bytes, most significant first, ends with. */
  lemma {:induction false} CrcIsRegister(table: seq<bv32>, c: bv32, s: seq<byte>)
    requires IsTable(table)
    ensures CrcOf(table, c, s) == FeedAll(c, BitsOf(s))
    decreases |s|
  {
    hide UpdateCrc, Feed, Shifted;
    if |s| > 0 {
      var n := |s| - 1;
      CrcIsRegister(table, c, s[..n]);
      FeedConcat(c, BitsOf(s[..n]), Bits(s[n], 8));
      FeedByte(FeedAll(c, BitsOf(s[..n])), s[n]);
      StepByTable(table, CrcOf(table, c, s[..n]), s[n]);
    }
  }

  // The register as a remainder

  /** x^n modulo the CRC polynomial. */
  ghost function Power(n: nat): bv32 {
    Shifted(n, 1)
  }

  /** s(x) times x^32 modulo the CRC polynomial, the first bit of s belonging to the highest power. */
  ghost function Remainder(s: seq<bit>): bv32 {
    if |s| == 0 then 0 else Xor(if s[0] == 1 then Power(32 + |s| - 1) else 0, Remainder(s[1..]))
  }

  lemma PowerTop()
    ensures Power(31) == TOP
  {
    hide TimesX;
    FourTimes(0, 1);
    FourTimes(4, 0x10);
    FourTimes(8, 0x100);
    FourTimes(12, 0x1000);
    FourTimes(16, 0x1_0000);
    FourTimes(20, 0x10_0000);
    FourTimes(24, 0x100_0000);
    Twice(1, 28);
    Twice(1, 29);
    LastThree();
  }

  lemma LastThree()
    ensures TimesX(0x1000_0000) == 0x2000_0000 && TimesX(0x2000_0000) == 0x4000_0000 && TimesX(0x4000_0000) == TOP
  {
  }

  lemma FourTimes(n: nat, p: bv32)
    requires Power(n) == p && p < 0x1000_0000
    ensures Power(n + 4) == p << 4
  {
    hide TimesX;
    Twice(1, n);
    Twice(1, n + 2);
    SmallTimes(p);
  }

  lemma SmallTimes(p: bv32)
    requires p < 0x1000_0000
    ensures TimesX(TimesX(TimesX(TimesX(p)))) == p << 4
  {
  }

  lemma Once(b: bv32)
    ensures Shifted(1, b) == TimesX(b) && Shifted(0, b) == b
  {
    hide TimesX;
  }

  lemma ShiftedZero(n: nat)
    ensures Shifted(n, 0) == 0
  {
    hide Xor, Shifted;
    ShiftedAdds(n, 0, 0);
    XorZero(0);
    XorZero(Shifted(n, 0));
  }

  /** A bit that is fed, and shifted n times more. */
  lemma BitShifted(b: bit, n: nat)
    ensures Shifted(n, TimesX(if b == 1 then TOP else 0)) == if b == 1 then Power(32 + n) else 0
  {
    hide TimesX, Shifted;
    if b == 1 {
      PowerTop();
      Once(TOP);
      ShiftedShifted(1, 31, 1);
      ShiftedShifted(n, 32, 1);
    } else {
      ShiftedZero(n);
      Once(0);
      ShiftedZero(1);
    }
  }

  lemma FeedOne(c: bv32, b: bit)
    ensures FeedAll(c, [b]) == Feed(c, b)
  {
    hide Feed;
    assert [b][..0] == [];
  }

  lemma {:induction false} RegisterIsRemainder(c: bv32, s: seq<bit>)
    ensures FeedAll(c, s) == Xor(Shifted(|s|, c), Remainder(s))
    decreases |s|
  {
    hide Xor, TimesX, Shifted, Power;
    if |s| == 0 {
      XorZero(c);
      Once(c);
    } else {
      hide FeedAll;
      var n, rest := |s| - 1, s[1..];
      var t: bv32 := if s[0] == 1 then TOP else 0;
      assert s == [s[0]] + rest;
      FeedConcat(c, [s[0]], rest);
      FeedOne(c, s[0]);
      RegisterIsRemainder(Feed(c, s[0]), rest);
      TimesXAdds(c, t);
      ShiftedAdds(n, TimesX(c), TimesX(t));
      BitShifted(s[0], n);
      Once(c);
      ShiftedShifted(n, 1, c);
      XorAssociates(Shifted(n + 1, c), Shifted(n, TimesX(t)), Remainder(rest));
    }
  }

  /** The CRC is the remainder of the bytes, with the register shifted along. */
  lemma CrcIsRemainder(table: seq<bv32>, c: bv32, s: seq<byte>)
    requires IsTable(table)
    ensures CrcOf(table, c, s) == Xor(Shifted(8 * |s|, c), Remainder(BitsOf(s)))
  {
    hide UpdateCrc, Shifted, Xor, FeedAll, Remainder;
    CrcIsRegister(table, c, s);
    RegisterIsRemainder(c, BitsOf(s));
  }

  // Errors that the CRC finds

  /** The bytes of s, at most four, at the highest powers. */
  ghost function Packed(s: seq<byte>): bv32 {
    if |s| == 0 then 0 else Xor(High(s[0]), Right(Packed(s[1..]), 8))
  }

  function UnusedMask(n: nat): bv32 {
    if n == 0 then 0xffff_ffff else if n == 1 then 0xff_ffff else if n == 2 then 0xffff else if n == 3 then 0xff else 0
  }

  /** All but the highest n bytes are zero. */
  ghost predicate Short(y: bv32, n: nat) {
    And(y, UnusedMask(n)) == 0
  }

  lemma ShortGrows(b: bv8, y: bv32, n: nat)
    requires n < 4 && Short(y, n)
    ensures Short(Xor(HighBits(b), Right(y, 8)), n + 1)
  {
  }

  lemma ShortReturns(y: bv32, n: nat)
    requires n < 4 && Short(y, n)
    ensures LeftBy(Right(y, 8), 8) == y && Low(Right(y, 8)) == Right(y, 8)
  {
  }

  lemma {:induction false} PackedShort(s: seq<byte>)
    requires |s| <= 4
    ensures Short(Packed(s), |s|)
  {
    hide Xor, Right, HighBits;
    if |s| > 0 {
      hide Short;
      PackedShort(s[1..]);
      ShortGrows(Octet(s[0]), Packed(s[1..]), |s| - 1);
    }
  }

  /** Up to four bytes shifted in are the register with them added, shifted. */
  lemma {:induction false} CrcOfPacked(table: seq<bv32>, c: bv32, s: seq<byte>)
    requires IsTable(table) && |s| <= 4
    ensures CrcOf(table, c, s) == Shifted(8 * |s|, Xor(c, Packed(s)))
    decreases |s|
  {
    hide Xor, Shifted, High, Right, UpdateCrc;
    if |s| == 0 {
      XorZero(c);
      Once(c);
    } else {
      var b, rest, p := High(s[0]), s[1..], Packed(s[1..]);
      assert s == [s[0]] + rest;
      CrcOfConcat(table, c, [s[0]], rest);
      CrcOfOne(table, c, s[0]);
      StepByTable(table, c, s[0]);
      CrcOfPacked(table, UpdateCrc(table, c, s[0]), rest);
      PackedShort(rest);
      ShortReturns(p, |rest|);
      LowFalls(Right(p, 8));
      ShiftedAdds(8, Xor(c, b), Right(p, 8));
      ShiftedShifted(8 * |rest|, 8, Xor(Xor(c, b), Right(p, 8)));
      XorAssociates(c, b, Right(p, 8));
    }
  }

  lemma CrcOfOne(table: seq<bv32>, c: bv32, ch: byte)
    requires |table| == 256
    ensures CrcOf(table, c, [ch]) == UpdateCrc(table, c, ch)
  {
    hide UpdateCrc;
    assert [ch][..0] == [];
  }

  lemma {:induction false} PackedDetermines(s: seq<byte>, t: seq<byte>)
    requires |s| == |t| <= 4 && Packed(s) == Packed(t)
    ensures s == t
  {
    hide Xor, HighBits, Right, Octet, Short;
    if |s| > 0 {
      var p, q := Packed(s[1..]), Packed(t[1..]);
      PackedShort(s[1..]);
      PackedShort(t[1..]);
      ShortReturns(p, |s| - 1);
      ShortReturns(q, |s| - 1);
      TopAndRest(Octet(s[0]), Octet(t[0]), Right(p, 8), Right(q, 8));
      SameOctet(s[0], t[0]);
      PackedDetermines(s[1..], t[1..]);
      assert s == [s[0]] + s[1..] && t == [t[0]] + t[1..];
    }
  }

  lemma SameOctet(ch: byte, ch': byte)
    requires Octet(ch) == Octet(ch')
    ensures ch == ch'
  {
    hide HighBits, Lefts, First, Octet, Bits;
    forall k | 0 <= k < 8 ensures Bits(ch, 8)[k] == Bits(ch', 8)[k] {
      LeadsByte(ch, k);
      LeadsByte(ch', k);
    }
    assert Pow2(8) == 256;
    BitsInjective(ch, ch', 8);
  }

  lemma TopAndRest(b: bv8, b': bv8, y: bv32, y': bv32)
    requires Low(y) == y && Low(y') == y' && Xor(HighBits(b), y) == Xor(HighBits(b'), y')
    ensures b == b' && y == y'
  {
  }

  /** From different registers, the same bytes lead to different registers. */
  lemma {:induction false} RegistersStayApart(table: seq<bv32>, c: bv32, c': bv32, s: seq<byte>)
    requires IsTable(table) && c != c'
    ensures CrcOf(table, c, s) != CrcOf(table, c', s)
    decreases |s|
  {
    hide UpdateCrc, Shifted, Xor;
    if |s| > 0 {
      var n := |s| - 1;
      var d, d' := CrcOf(table, c, s[..n]), CrcOf(table, c', s[..n]);
      RegistersStayApart(table, c, c', s[..n]);
      StepByTable(table, d, s[n]);
      StepByTable(table, d', s[n]);
      var e := High(s[n]);
      Apart(d, d', e);
      ShiftedApart(8, Xor(d, e), Xor(d', e));
    }
  }

  lemma Apart(d: bv32, d': bv32, e: bv32)
    requires d != d'
    ensures Xor(d, e) != Xor(d', e) && Xor(e, d) != Xor(e, d')
  {
  }

  lemma ShiftedApart(n: nat, a: bv32, b: bv32)
    requires a != b
    ensures Shifted(n, a) != Shifted(n, b)
  {
    hide Shifted, Xor;
    ShiftedAdds(n, a, b);
    DifferBySomething(a, b);
    ShiftedNonZero(n, Xor(a, b));
    XorZero(Shifted(n, a));
  }

  lemma DifferBySomething(a: bv32, b: bv32)
    requires a != b
    ensures Xor(a, b) != 0
  {
  }

  /** The CRC differs when one to four neighbouring bytes are changed in any way. */
  lemma ChangeShows(table: seq<bv32>, c: bv32, before: seq<byte>, s: seq<byte>, t: seq<byte>, after: seq<byte>)
    requires IsTable(table) && |s| == |t| <= 4 && s != t
    ensures CrcOf(table, c, before + s + after) != CrcOf(table, c, before + t + after)
  {
    hide CrcOf, Shifted, Packed, Xor;
    var d := CrcOf(table, c, before);
    CrcOfConcat(table, c, before, s);
    CrcOfConcat(table, c, before, t);
    CrcOfConcat(table, c, before + s, after);
    CrcOfConcat(table, c, before + t, after);
    CrcOfPacked(table, d, s);
    CrcOfPacked(table, d, t);
    if Packed(s) == Packed(t) { PackedDetermines(s, t); }
    Apart(Packed(s), Packed(t), d);
    ShiftedApart(8 * |s|, Xor(d, Packed(s)), Xor(d, Packed(t)));
    RegistersStayApart(table, CrcOf(table, d, s), CrcOf(table, d, t), after);
  }
}
