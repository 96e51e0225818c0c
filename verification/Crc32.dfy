/** crc32.c: the CRC of a sequence of bytes, multiplication and powers modulo the CRC polynomial, and
    the CRC of a concatenation from the CRCs of its parts. */
module Crc32 {
  import opened CrcPoly
  import opened CrcPowers
  import opened Words

  const ONES: bv32 := 0xffff_ffff

  /** A byte goes into the register at the highest powers, and the register is shifted by 8. */
  function Step(c: bv32, b: bv8): bv32 {
    Shifted(8, Xor(c, b as bv32))
  }

  /** The register after the bytes s, without pre- and post-conditioning. */
  function Run(c: bv32, s: seq<bv8>): bv32 {
    if |s| == 0 then c else Step(Run(c, s[..|s| - 1]), s[|s| - 1])
  }

  /** Section 8 of RFC 1952. */
  function Crc(s: seq<bv8>): bv32 {
    Xor(Run(ONES, s), ONES)
  }

  lemma {:induction false} RunConcat(c: bv32, s: seq<bv8>, s': seq<bv8>)
    ensures Run(c, s + s') == Run(Run(c, s), s')
    decreases |s'|
  {
    hide Step;
    if |s'| == 0 {
      assert s + s' == s;
    } else {
      var i := |s'| - 1;
      assert (s + s')[..|s + s'| - 1] == s + s'[..i];
      RunConcat(c, s, s'[..i]);
    }
  }

  lemma StepAdds(c: bv32, d: bv32, b: bv8)
    ensures Step(Xor(c, d), b) == Xor(Step(c, b), Shifted(8, d))
  {
    hide Xor, Shifted;
    XorAssociates(c, d, b as bv32);
    XorCommutes(d, b as bv32);
    XorAssociates(c, b as bv32, d);
    ShiftedAdds(8, Xor(c, b as bv32), d);
  }

  /** What is added to the register before the bytes is shifted past them. */
  lemma {:induction false} RunAdds(c: bv32, d: bv32, s: seq<bv8>)
    ensures Run(Xor(c, d), s) == Xor(Run(c, s), Shifted(8 * |s|, d))
    decreases |s|
  {
    hide Step, Xor, Shifted;
    if |s| == 0 {
      NotShifted(d);
    } else {
      var i := |s| - 1;
      RunAdds(c, d, s[..i]);
      StepAdds(Run(c, s[..i]), Shifted(8 * i, d), s[i]);
      ShiftedShifted(8, 8 * i, d);
    }
  }

  lemma NotShifted(d: bv32)
    ensures Shifted(0, d) == d
  {
  }

  /** Going on from the CRC of s gives the CRC of the whole. */
  lemma CrcGoesOn(s: seq<bv8>, s': seq<bv8>)
    ensures Xor(Run(Xor(Crc(s), ONES), s'), ONES) == Crc(s + s')
  {
    hide Run, Xor;
    XorCommutes(Run(ONES, s), ONES);
    XorCommutes(Crc(s), ONES);
    XorCancels(ONES, Run(ONES, s));
    RunConcat(ONES, s, s');
  }

  lemma CrcOfConcat(s: seq<bv8>, s': seq<bv8>)
    ensures Crc(s + s') == Xor(Shifted(8 * |s'|, Crc(s)), Crc(s'))
  {
    hide Run, Xor, Shifted;
    CrcGoesOn(s, s');
    XorCommutes(Crc(s), ONES);
    RunAdds(ONES, Crc(s), s');
    var a, b := Run(ONES, s'), Shifted(8 * |s'|, Crc(s));
    XorCommutes(a, b);
    XorAssociates(b, a, ONES);
  }

  // multmodp

  /** With no bit below m, nothing is left to sum up. */
  lemma {:induction false} SumNone(a: bv32, m: bv32, b: bv32)
    requires OneBit(m) && a & (m - 1) == 0
    ensures Sum(a, Right(m, 1), b) == 0
    decreases m
  {
    hide Sum, Xor, TimesX;
    if m == 1 {
      assert Right(m, 1) == 0;
      NoSum(a, b);
    } else {
      HalfBit(m);
      NoneBelow(a, m);
      MaskShrinks(m);
      NonZero(Right(m, 1));
      SumStep(a, Right(m, 1), b);
      SumNone(a, Right(m, 1), TimesX(b));
      XorZero(0);
    }
  }

  lemma NoneBelow(a: bv32, m: bv32)
    requires OneBit(m) && m != 1 && a & (m - 1) == 0
    ensures And(a, Right(m, 1)) == 0 && a & (Right(m, 1) - 1) == 0
  {
    LessBits(m);
  }

  /** Bits of a remain below m, where the loop goes on. */
  lemma MoreBits(a: bv32, m: bv32)
    requires OneBit(m) && From(a, m) != 0 && (And(a, m) == 0 || a & (m - 1) != 0)
    ensures m != 1 && From(a, Right(m, 1)) != 0
  {
    if m != 1 {
      LessBits(m);
    }
  }

  /** What the loop adds to p stands for one coefficient of a. */
  lemma NextTerm(a: bv32, m: bv32, b: bv32, p: bv32, r: bv32)
    requires m != 0 && Xor(p, Sum(a, m, b)) == r
    ensures Xor(if And(a, m) != 0 then Xor(p, b) else p, Sum(a, Right(m, 1), TimesX(b))) == r
  {
    hide Sum, Xor, And, TimesX;
    var rest := Sum(a, Right(m, 1), TimesX(b));
    SumStep(a, m, b);
    XorAssociates(p, b, rest);
    XorZero(rest);
  }

  method MultModP(a: bv32, b: bv32) returns (p: bv32)
    requires a != 0
    ensures p == Product(a, b)
  {
    hide Sum, Xor, And, TimesX, OneBit, From, Product;
    var m, c := ONE, b;
    p := 0;
    StartProduct(a, b);
    while true
      invariant OneBit(m) && From(a, m) != 0 && Xor(p, Sum(a, m, c)) == Product(a, b)
      decreases m
    {
      NonZero(m);
      NextTerm(a, m, c, p, Product(a, b));
      if And(a, m) != 0 {
        p := Xor(p, c);
        if a & (m - 1) == 0 {
          SumNone(a, m, TimesX(c));
          XorZero(p);
          break;
        }
      }
      MoreBits(a, m);
      MaskShrinks(m);
      NextBit(m);
      m := Right(m, 1);
      c := TimesX(c);
    }
  }

  lemma StartProduct(a: bv32, b: bv32)
    requires a != 0
    ensures OneBit(ONE) && From(a, ONE) != 0 && Xor(0, Sum(a, ONE, b)) == Product(a, b)
  {
    hide Sum;
    XorZero(Sum(a, ONE, b));
    assert From(a, ONE) == a;
  }

  // x2nmodp

  /** The contents of x2n_table. */
  ghost predicate HoldsPowers(table: seq<bv32>) {
    |table| == 32 && forall i :: 0 <= i < 32 ==> table[i] == Power(Exp2(i))
  }

  /** The part of make_crc_table that fills x2n_table. */
  method MakeX2nTable(table: array<bv32>)
    requires table.Length == 32
    modifies table
    ensures HoldsPowers(table[..])
  {
    hide Power, Product, Exp2;
    FirstPower();
    var p: bv32 := 0x4000_0000;
    table[0] := p;
    for n := 1 to 32
      invariant forall i :: 0 <= i < n ==> table[i] == Power(Exp2(i))
      invariant p == Power(Exp2(n - 1))
    {
      DoubledPower(n - 1);
      PowerNonZero(Exp2(n - 1));
      p := MultModP(p, p);
      table[n] := p;
    }
  }

  lemma DoubledPower(n: nat)
    ensures Product(Power(Exp2(n)), Power(Exp2(n))) == Power(Exp2(n + 1))
  {
    hide Power, Product;
    PowersMultiply(Exp2(n), Exp2(n));
  }

  method X2nModP(table: seq<bv32>, n: nat, k: nat) returns (p: bv32)
    requires HoldsPowers(table)
    ensures p == Power(n * Exp2(k))
  {
    hide Power, Product, Exp2;
    p := ONE;
    ZeroPower();
    var n': nat, k': nat := n, k;
    ghost var done: nat := 0;
    while n' != 0
      invariant done + n' * Exp2(k') == n * Exp2(k) && p == Power(done)
    {
      HalfTimes(n', k');
      if n' % 2 == 1 {
        PowersModulo(k');
        PowersMultiply(Exp2(k'), done);
        PowerNonZero(Exp2(k' % 32));
        p := MultModP(table[k' % 32], p);
        done := done + Exp2(k');
      }
      n', k' := n' / 2, k' + 1;
    }
  }

  lemma HalfTimes(n: nat, k: nat)
    ensures n * Exp2(k) == (n / 2) * Exp2(k + 1) + (n % 2) * Exp2(k)
  {
    var e, q, r := Exp2(k), n / 2, n % 2;
    assert n == 2 * q + r;
    assert (2 * q + r) * e == q * (2 * e) + r * e;
  }

  lemma ZeroPower()
    ensures Power(0) == ONE
  {
  }

  // crc32_combine64, crc32_combine_gen64 and crc32_combine_op

  method CombineGen(table: seq<bv32>, len2: nat) returns (op: bv32)
    requires HoldsPowers(table)
    ensures op == Power(8 * len2)
  {
    assert Exp2(3) == 8;
    op := X2nModP(table, len2, 3);
  }

  method CombineOp(crc1: bv32, crc2: bv32, op: bv32) returns (crc: bv32)
    requires op != 0
    ensures crc == Xor(Product(op, crc1), crc2)
  {
    var p := MultModP(op, crc1);
    crc := Xor(p, crc2);
  }

  /** Whatever the two sequences are, if these are their CRCs and the length of the second. */
  method Combine(table: seq<bv32>, crc1: bv32, crc2: bv32, len2: nat) returns (crc: bv32)
    requires HoldsPowers(table)
    ensures forall s, s' :: Crc(s) == crc1 && Crc(s') == crc2 && |s'| == len2 ==> crc == Crc(s + s')
  {
    hide Power, Product, Crc, HoldsPowers, Shifted, Xor;
    var op := CombineGen(table, len2);
    PowerNonZero(8 * len2);
    crc := CombineOp(crc1, crc2, op);
    ProductOfPower(8 * len2, crc1);
    forall s, s' | Crc(s) == crc1 && Crc(s') == crc2 && |s'| == len2 ensures crc == Crc(s + s') {
      CrcOfConcat(s, s');
    }
  }
}
