/** Powers of x in the CRC field: squaring, and that x^(2^n) repeats after 32 squarings. */
module CrcPowers {
  import opened CrcPoly
  import opened Words

  function Exp2(n: nat): nat {
    if n == 0 then 1 else 2 * Exp2(n - 1)
  }

  /** The sum of c, x^2 c, x^4 c, ... for the coefficients of a from that of the mask m down. */
  ghost function EvenSum(a: bv32, m: bv32, c: bv32): bv32
    decreases m
  {
    if m == 0 then 0 else Term(a, m, c, EvenSum(a, m >> 1, TimesX(TimesX(c))))
  }

  lemma EvenStep(a: bv32, m: bv32, c: bv32, m': bv32, c': bv32)
    requires m != 0 && m' == Right(m, 1) && c' == TimesX(TimesX(c))
    ensures EvenSum(a, m, c) == Term(a, m, c, EvenSum(a, m', c'))
  {
    hide TimesX, Term;
  }

  lemma NoEvenSum(a: bv32, c: bv32)
    ensures EvenSum(a, 0, c) == 0
  {
  }

  /** Squaring a sum modulo 2 squares its terms. */
  lemma SquareAdds(a: bv32, b: bv32)
    ensures Product(Xor(a, b), Xor(a, b)) == Xor(Product(a, a), Product(b, b))
  {
    hide Product, Xor;
    ProductAdds(Xor(a, b), a, b);
    ProductAdds(a, a, b);
    ProductAdds(b, a, b);
    ProductCommutes(a, b);
    var aa, ab, bb := Product(a, a), Product(a, b), Product(b, b);
    XorCommutes(ab, bb);
    XorSwaps(aa, ab, bb, ab);
    XorZero(ab);
    XorZero(Xor(aa, bb));
  }

  lemma ProductTimesX(a: bv32, b: bv32)
    ensures Product(TimesX(a), TimesX(b)) == TimesX(TimesX(Product(a, b)))
  {
    hide Sum, TimesX;
    SumTimesX(TimesX(a), ONE, b);
    ProductCommutes(TimesX(a), b);
    SumTimesX(b, ONE, a);
    ProductCommutes(a, b);
  }

  lemma {:induction false} SquareOfSum(a: bv32, m: bv32, c: bv32)
    ensures Product(Sum(a, m, c), Sum(a, m, c)) == EvenSum(a, m, Product(c, c))
    decreases m
  {
    hide Product, Xor, Sum, And, EvenSum, TimesX, Right, Term;
    ProductZero();
    if m == 0 {
      NoSum(a, c);
      NoEvenSum(a, Product(c, c));
    } else {
      var rest := Sum(a, Right(m, 1), TimesX(c));
      MaskShrinks(m);
      SumStep(a, m, c);
      EvenStep(a, m, Product(c, c), Right(m, 1), TimesX(TimesX(Product(c, c))));
      SquareOfSum(a, Right(m, 1), TimesX(c));
      ProductTimesX(c, c);
      SquareAdds(if And(a, m) != 0 then c else 0, rest);
      TermIsXor(a, m, Product(c, c), Product(rest, rest));
    }
  }

  lemma ProductZero()
    ensures Product(0, 0) == 0
  {
    SumOfZero(0, ONE);
  }

  /** The sum written out: the even powers of x below x^64 that belong to the coefficients of a. */
  ghost function EvenPowers(a: bv32): bv32 {
    Term(a, 0x8000_0000, 0x8000_0000,
    Term(a, 0x4000_0000, 0x2000_0000,
    Term(a, 0x2000_0000, 0x0800_0000,
    Term(a, 0x1000_0000, 0x0200_0000,
    Term(a, 0x0800_0000, 0x0080_0000,
    Term(a, 0x0400_0000, 0x0020_0000,
    Term(a, 0x0200_0000, 0x0008_0000,
    Term(a, 0x0100_0000, 0x0002_0000,
    Term(a, 0x0080_0000, 0x0000_8000,
    Term(a, 0x0040_0000, 0x0000_2000,
    Term(a, 0x0020_0000, 0x0000_0800,
    Term(a, 0x0010_0000, 0x0000_0200,
    Term(a, 0x0008_0000, 0x0000_0080,
    Term(a, 0x0004_0000, 0x0000_0020,
    Term(a, 0x0002_0000, 0x0000_0008,
    Term(a, 0x0001_0000, 0x0000_0002,
    Term(a, 0x0000_8000, 0xedb8_8320,
    Term(a, 0x0000_4000, 0x3b6e_20c8,
    Term(a, 0x0000_2000, 0x0edb_8832,
    Term(a, 0x0000_1000, 0xee0e_612c,
    Term(a, 0x0000_0800, 0x3b83_984b,
    Term(a, 0x0000_0400, 0x9584_24a2,
    Term(a, 0x0000_0200, 0xc8d9_8a08,
    Term(a, 0x0000_0100, 0x3236_6282,
    Term(a, 0x0000_0080, 0xe135_1b80,
    Term(a, 0x0000_0040, 0x384d_46e0,
    Term(a, 0x0000_0020, 0x0e13_51b8,
    Term(a, 0x0000_0010, 0x0384_d46e,
    Term(a, 0x0000_0008, 0xed59_b63b,
    Term(a, 0x0000_0004, 0xa032_af3e,
    Term(a, 0x0000_0002, 0xc5b4_28ef,
    Term(a, 0x0000_0001, 0xaa09_c88b, 0))))))))))))))))))))))))))))))))
  }

  lemma SquareIsEvenPowers(a: bv32)
    ensures Product(a, a) == EvenPowers(a)
  {
    hide Sum, EvenSum, TimesX, Right, Term;
    ProductOne(a);
    ProductOne(ONE);
    SquareOfSum(a, ONE, ONE);
    Coefficients();
    Masks();
    EvenStep(a, 0x8000_0000, 0x8000_0000, 0x4000_0000, 0x2000_0000);
    EvenStep(a, 0x4000_0000, 0x2000_0000, 0x2000_0000, 0x0800_0000);
    EvenStep(a, 0x2000_0000, 0x0800_0000, 0x1000_0000, 0x0200_0000);
    EvenStep(a, 0x1000_0000, 0x0200_0000, 0x0800_0000, 0x0080_0000);
    EvenStep(a, 0x0800_0000, 0x0080_0000, 0x0400_0000, 0x0020_0000);
    EvenStep(a, 0x0400_0000, 0x0020_0000, 0x0200_0000, 0x0008_0000);
    EvenStep(a, 0x0200_0000, 0x0008_0000, 0x0100_0000, 0x0002_0000);
    EvenStep(a, 0x0100_0000, 0x0002_0000, 0x0080_0000, 0x0000_8000);
    EvenStep(a, 0x0080_0000, 0x0000_8000, 0x0040_0000, 0x0000_2000);
    EvenStep(a, 0x0040_0000, 0x0000_2000, 0x0020_0000, 0x0000_0800);
    EvenStep(a, 0x0020_0000, 0x0000_0800, 0x0010_0000, 0x0000_0200);
    EvenStep(a, 0x0010_0000, 0x0000_0200, 0x0008_0000, 0x0000_0080);
    EvenStep(a, 0x0008_0000, 0x0000_0080, 0x0004_0000, 0x0000_0020);
    EvenStep(a, 0x0004_0000, 0x0000_0020, 0x0002_0000, 0x0000_0008);
    EvenStep(a, 0x0002_0000, 0x0000_0008, 0x0001_0000, 0x0000_0002);
    EvenStep(a, 0x0001_0000, 0x0000_0002, 0x0000_8000, 0xedb8_8320);
    EvenStep(a, 0x0000_8000, 0xedb8_8320, 0x0000_4000, 0x3b6e_20c8);
    EvenStep(a, 0x0000_4000, 0x3b6e_20c8, 0x0000_2000, 0x0edb_8832);
    EvenStep(a, 0x0000_2000, 0x0edb_8832, 0x0000_1000, 0xee0e_612c);
    EvenStep(a, 0x0000_1000, 0xee0e_612c, 0x0000_0800, 0x3b83_984b);
    EvenStep(a, 0x0000_0800, 0x3b83_984b, 0x0000_0400, 0x9584_24a2);
    EvenStep(a, 0x0000_0400, 0x9584_24a2, 0x0000_0200, 0xc8d9_8a08);
    EvenStep(a, 0x0000_0200, 0xc8d9_8a08, 0x0000_0100, 0x3236_6282);
    EvenStep(a, 0x0000_0100, 0x3236_6282, 0x0000_0080, 0xe135_1b80);
    EvenStep(a, 0x0000_0080, 0xe135_1b80, 0x0000_0040, 0x384d_46e0);
    EvenStep(a, 0x0000_0040, 0x384d_46e0, 0x0000_0020, 0x0e13_51b8);
    EvenStep(a, 0x0000_0020, 0x0e13_51b8, 0x0000_0010, 0x0384_d46e);
    EvenStep(a, 0x0000_0010, 0x0384_d46e, 0x0000_0008, 0xed59_b63b);
    EvenStep(a, 0x0000_0008, 0xed59_b63b, 0x0000_0004, 0xa032_af3e);
    EvenStep(a, 0x0000_0004, 0xa032_af3e, 0x0000_0002, 0xc5b4_28ef);
    EvenStep(a, 0x0000_0002, 0xc5b4_28ef, 0x0000_0001, 0xaa09_c88b);
    EvenStep(a, 0x0000_0001, 0xaa09_c88b, 0, 0xb1e6_b092);
    NoEvenSum(a, 0xb1e6_b092);
  }

  lemma Coefficients()
    ensures TimesX(TimesX(0x8000_0000)) == 0x2000_0000
    ensures TimesX(TimesX(0x2000_0000)) == 0x0800_0000
    ensures TimesX(TimesX(0x0800_0000)) == 0x0200_0000
    ensures TimesX(TimesX(0x0200_0000)) == 0x0080_0000
    ensures TimesX(TimesX(0x0080_0000)) == 0x0020_0000
    ensures TimesX(TimesX(0x0020_0000)) == 0x0008_0000
    ensures TimesX(TimesX(0x0008_0000)) == 0x0002_0000
    ensures TimesX(TimesX(0x0002_0000)) == 0x0000_8000
    ensures TimesX(TimesX(0x0000_8000)) == 0x0000_2000
    ensures TimesX(TimesX(0x0000_2000)) == 0x0000_0800
    ensures TimesX(TimesX(0x0000_0800)) == 0x0000_0200
    ensures TimesX(TimesX(0x0000_0200)) == 0x0000_0080
    ensures TimesX(TimesX(0x0000_0080)) == 0x0000_0020
    ensures TimesX(TimesX(0x0000_0020)) == 0x0000_0008
    ensures TimesX(TimesX(0x0000_0008)) == 0x0000_0002
    ensures TimesX(TimesX(0x0000_0002)) == 0xedb8_8320
    ensures TimesX(TimesX(0xedb8_8320)) == 0x3b6e_20c8
    ensures TimesX(TimesX(0x3b6e_20c8)) == 0x0edb_8832
    ensures TimesX(TimesX(0x0edb_8832)) == 0xee0e_612c
    ensures TimesX(TimesX(0xee0e_612c)) == 0x3b83_984b
    ensures TimesX(TimesX(0x3b83_984b)) == 0x9584_24a2
    ensures TimesX(TimesX(0x9584_24a2)) == 0xc8d9_8a08
    ensures TimesX(TimesX(0xc8d9_8a08)) == 0x3236_6282
    ensures TimesX(TimesX(0x3236_6282)) == 0xe135_1b80
    ensures TimesX(TimesX(0xe135_1b80)) == 0x384d_46e0
    ensures TimesX(TimesX(0x384d_46e0)) == 0x0e13_51b8
    ensures TimesX(TimesX(0x0e13_51b8)) == 0x0384_d46e
    ensures TimesX(TimesX(0x0384_d46e)) == 0xed59_b63b
    ensures TimesX(TimesX(0xed59_b63b)) == 0xa032_af3e
    ensures TimesX(TimesX(0xa032_af3e)) == 0xc5b4_28ef
    ensures TimesX(TimesX(0xc5b4_28ef)) == 0xaa09_c88b
    ensures TimesX(TimesX(0xaa09_c88b)) == 0xb1e6_b092
  {
  }

  lemma Masks()
    ensures Right(0x8000_0000, 1) == 0x4000_0000
    ensures Right(0x4000_0000, 1) == 0x2000_0000
    ensures Right(0x2000_0000, 1) == 0x1000_0000
    ensures Right(0x1000_0000, 1) == 0x0800_0000
    ensures Right(0x0800_0000, 1) == 0x0400_0000
    ensures Right(0x0400_0000, 1) == 0x0200_0000
    ensures Right(0x0200_0000, 1) == 0x0100_0000
    ensures Right(0x0100_0000, 1) == 0x0080_0000
    ensures Right(0x0080_0000, 1) == 0x0040_0000
    ensures Right(0x0040_0000, 1) == 0x0020_0000
    ensures Right(0x0020_0000, 1) == 0x0010_0000
    ensures Right(0x0010_0000, 1) == 0x0008_0000
    ensures Right(0x0008_0000, 1) == 0x0004_0000
    ensures Right(0x0004_0000, 1) == 0x0002_0000
    ensures Right(0x0002_0000, 1) == 0x0001_0000
    ensures Right(0x0001_0000, 1) == 0x0000_8000
    ensures Right(0x0000_8000, 1) == 0x0000_4000
    ensures Right(0x0000_4000, 1) == 0x0000_2000
    ensures Right(0x0000_2000, 1) == 0x0000_1000
    ensures Right(0x0000_1000, 1) == 0x0000_0800
    ensures Right(0x0000_0800, 1) == 0x0000_0400
    ensures Right(0x0000_0400, 1) == 0x0000_0200
    ensures Right(0x0000_0200, 1) == 0x0000_0100
    ensures Right(0x0000_0100, 1) == 0x0000_0080
    ensures Right(0x0000_0080, 1) == 0x0000_0040
    ensures Right(0x0000_0040, 1) == 0x0000_0020
    ensures Right(0x0000_0020, 1) == 0x0000_0010
    ensures Right(0x0000_0010, 1) == 0x0000_0008
    ensures Right(0x0000_0008, 1) == 0x0000_0004
    ensures Right(0x0000_0004, 1) == 0x0000_0002
    ensures Right(0x0000_0002, 1) == 0x0000_0001
    ensures Right(0x0000_0001, 1) == 0
  {
  }

  lemma Squares0()
    ensures EvenPowers(0x4000_0000) == 0x2000_0000
    ensures EvenPowers(0x2000_0000) == 0x0800_0000
    ensures EvenPowers(0x0800_0000) == 0x0080_0000
    ensures EvenPowers(0x0080_0000) == 0x0000_8000
  {
  }

  lemma Squares4()
    ensures EvenPowers(0x0000_8000) == 0xedb8_8320
    ensures EvenPowers(0xedb8_8320) == 0xb1e6_b092
    ensures EvenPowers(0xb1e6_b092) == 0xa06a_2517
    ensures EvenPowers(0xa06a_2517) == 0xed62_7dae
  {
  }

  lemma Squares8()
    ensures EvenPowers(0xed62_7dae) == 0x88d1_4467
    ensures EvenPowers(0x88d1_4467) == 0xd7bb_fe6a
    ensures EvenPowers(0xd7bb_fe6a) == 0xec44_7f11
    ensures EvenPowers(0xec44_7f11) == 0x8e7e_a170
  {
  }

  lemma Squares12()
    ensures EvenPowers(0x8e7e_a170) == 0x6427_800e
    ensures EvenPowers(0x6427_800e) == 0x4d47_bae0
    ensures EvenPowers(0x4d47_bae0) == 0x09fe_548f
    ensures EvenPowers(0x09fe_548f) == 0x8385_2d0f
  {
  }

  lemma Squares16()
    ensures EvenPowers(0x8385_2d0f) == 0x3036_2f1a
    ensures EvenPowers(0x3036_2f1a) == 0x7b5a_9cc3
    ensures EvenPowers(0x7b5a_9cc3) == 0x31fe_c169
    ensures EvenPowers(0x31fe_c169) == 0x9fec_022a
  {
  }

  lemma Squares20()
    ensures EvenPowers(0x9fec_022a) == 0x6c8d_edc4
    ensures EvenPowers(0x6c8d_edc4) == 0x15d6_874d
    ensures EvenPowers(0x15d6_874d) == 0x5fde_7a4e
    ensures EvenPowers(0x5fde_7a4e) == 0xbad9_0e37
  {
  }

  lemma Squares24()
    ensures EvenPowers(0xbad9_0e37) == 0x2e4e_5eef
    ensures EvenPowers(0x2e4e_5eef) == 0x4eab_a214
    ensures EvenPowers(0x4eab_a214) == 0xa8a4_72c0
    ensures EvenPowers(0xa8a4_72c0) == 0x429a_969e
  {
  }

  lemma Squares28()
    ensures EvenPowers(0x429a_969e) == 0x148d_302a
    ensures EvenPowers(0x148d_302a) == 0xc40b_a6d0
    ensures EvenPowers(0xc40b_a6d0) == 0xc4e2_2c3c
    ensures EvenPowers(0xc4e2_2c3c) == 0x4000_0000
  {
  }

  lemma Squared(n: nat, v: bv32, w: bv32)
    requires Power(Exp2(n)) == v && EvenPowers(v) == w
    ensures Power(Exp2(n + 1)) == w
  {
    hide EvenPowers, Power, Product;
    SquareIsEvenPowers(v);
    PowersMultiply(Exp2(n), Exp2(n));
  }

  lemma FirstPower()
    ensures Power(Exp2(0)) == 0x4000_0000
  {
    assert Shifted(0, ONE) == ONE && TimesX(ONE) == 0x4000_0000;
  }

  /** The entries of x2n_table in crc32.h, and what would be its next entry. */
  lemma TableOfPowers()
    ensures Power(Exp2(0)) == 0x4000_0000
    ensures Power(Exp2(1)) == 0x2000_0000
    ensures Power(Exp2(2)) == 0x0800_0000
    ensures Power(Exp2(3)) == 0x0080_0000
    ensures Power(Exp2(4)) == 0x0000_8000
    ensures Power(Exp2(5)) == 0xedb8_8320
    ensures Power(Exp2(6)) == 0xb1e6_b092
    ensures Power(Exp2(7)) == 0xa06a_2517
    ensures Power(Exp2(8)) == 0xed62_7dae
    ensures Power(Exp2(9)) == 0x88d1_4467
    ensures Power(Exp2(10)) == 0xd7bb_fe6a
    ensures Power(Exp2(11)) == 0xec44_7f11
    ensures Power(Exp2(12)) == 0x8e7e_a170
    ensures Power(Exp2(13)) == 0x6427_800e
    ensures Power(Exp2(14)) == 0x4d47_bae0
    ensures Power(Exp2(15)) == 0x09fe_548f
    ensures Power(Exp2(16)) == 0x8385_2d0f
    ensures Power(Exp2(17)) == 0x3036_2f1a
    ensures Power(Exp2(18)) == 0x7b5a_9cc3
    ensures Power(Exp2(19)) == 0x31fe_c169
    ensures Power(Exp2(20)) == 0x9fec_022a
    ensures Power(Exp2(21)) == 0x6c8d_edc4
    ensures Power(Exp2(22)) == 0x15d6_874d
    ensures Power(Exp2(23)) == 0x5fde_7a4e
    ensures Power(Exp2(24)) == 0xbad9_0e37
    ensures Power(Exp2(25)) == 0x2e4e_5eef
    ensures Power(Exp2(26)) == 0x4eab_a214
    ensures Power(Exp2(27)) == 0xa8a4_72c0
    ensures Power(Exp2(28)) == 0x429a_969e
    ensures Power(Exp2(29)) == 0x148d_302a
    ensures Power(Exp2(30)) == 0xc40b_a6d0
    ensures Power(Exp2(31)) == 0xc4e2_2c3c
    ensures Power(Exp2(32)) == 0x4000_0000
  {
    hide EvenPowers, Power, Exp2;
    FirstPower();
    Squares0();
    Squares4();
    Squares8();
    Squares12();
    Squares16();
    Squares20();
    Squares24();
    Squares28();
    Squared(0, 0x4000_0000, 0x2000_0000);
    Squared(1, 0x2000_0000, 0x0800_0000);
    Squared(2, 0x0800_0000, 0x0080_0000);
    Squared(3, 0x0080_0000, 0x0000_8000);
    Squared(4, 0x0000_8000, 0xedb8_8320);
    Squared(5, 0xedb8_8320, 0xb1e6_b092);
    Squared(6, 0xb1e6_b092, 0xa06a_2517);
    Squared(7, 0xa06a_2517, 0xed62_7dae);
    Squared(8, 0xed62_7dae, 0x88d1_4467);
    Squared(9, 0x88d1_4467, 0xd7bb_fe6a);
    Squared(10, 0xd7bb_fe6a, 0xec44_7f11);
    Squared(11, 0xec44_7f11, 0x8e7e_a170);
    Squared(12, 0x8e7e_a170, 0x6427_800e);
    Squared(13, 0x6427_800e, 0x4d47_bae0);
    Squared(14, 0x4d47_bae0, 0x09fe_548f);
    Squared(15, 0x09fe_548f, 0x8385_2d0f);
    Squared(16, 0x8385_2d0f, 0x3036_2f1a);
    Squared(17, 0x3036_2f1a, 0x7b5a_9cc3);
    Squared(18, 0x7b5a_9cc3, 0x31fe_c169);
    Squared(19, 0x31fe_c169, 0x9fec_022a);
    Squared(20, 0x9fec_022a, 0x6c8d_edc4);
    Squared(21, 0x6c8d_edc4, 0x15d6_874d);
    Squared(22, 0x15d6_874d, 0x5fde_7a4e);
    Squared(23, 0x5fde_7a4e, 0xbad9_0e37);
    Squared(24, 0xbad9_0e37, 0x2e4e_5eef);
    Squared(25, 0x2e4e_5eef, 0x4eab_a214);
    Squared(26, 0x4eab_a214, 0xa8a4_72c0);
    Squared(27, 0xa8a4_72c0, 0x429a_969e);
    Squared(28, 0x429a_969e, 0x148d_302a);
    Squared(29, 0x148d_302a, 0xc40b_a6d0);
    Squared(30, 0xc40b_a6d0, 0xc4e2_2c3c);
    Squared(31, 0xc4e2_2c3c, 0x4000_0000);
  }

  /** x^(2^32) = x, so that an index into the table may be taken modulo 32. */
  lemma {:induction false} PowersRepeat(n: nat)
    ensures Power(Exp2(n + 32)) == Power(Exp2(n))
  {
    hide Power, Product;
    if n == 0 {
      TableOfPowers();
    } else {
      PowersRepeat(n - 1);
      PowersMultiply(Exp2(n - 1), Exp2(n - 1));
      PowersMultiply(Exp2(n + 31), Exp2(n + 31));
    }
  }

  lemma {:induction false} PowersModulo(n: nat)
    ensures Power(Exp2(n)) == Power(Exp2(n % 32))
    decreases n
  {
    hide Power, Exp2;
    if n >= 32 {
      PowersRepeat(n - 32);
      PowersModulo(n - 32);
    }
  }
}
