/** crc32.c: words as polynomials over GF(2) modulo the CRC polynomial, the lowest power in the most
    significant bit. Adding is exclusive-or; TimesX is the shift register. */
module CrcPoly {
  import opened Words

  const POLY: bv32 := 0xedb8_8320

  /** x^0 */
  const ONE: bv32 := 0x8000_0000

  function TimesX(b: bv32): bv32 {
    if Last(b) then Xor(Right(b, 1), POLY) else Right(b, 1)
  }

  /** b times x^n. */
  function Shifted(n: nat, b: bv32): bv32 {
    if n == 0 then b else TimesX(Shifted(n - 1, b))
  }

  /** x^n */
  function Power(n: nat): bv32 {
    Shifted(n, ONE)
  }

  /** The sum of b, x b, x^2 b, ... for the coefficients of a from that of the mask m down. */
  function Sum(a: bv32, m: bv32, b: bv32): bv32
    decreases m
  {
    if m == 0 then 0 else Xor(if And(a, m) != 0 then b else 0, Sum(a, m >> 1, TimesX(b)))
  }

  /** a(x) times b(x) modulo the CRC polynomial. */
  function Product(a: bv32, b: bv32): bv32 {
    Sum(a, ONE, b)
  }

  lemma SumStep(a: bv32, m: bv32, b: bv32)
    requires m != 0
    ensures Sum(a, m, b) == Xor(if And(a, m) != 0 then b else 0, Sum(a, Right(m, 1), TimesX(b)))
  {
    hide And, Xor, TimesX;
  }

  lemma MaskShrinks(m: bv32)
    requires m != 0
    ensures Right(m, 1) < m
  {
  }

  // Linearity

  lemma TimesXAdds(a: bv32, b: bv32)
    ensures TimesX(Xor(a, b)) == Xor(TimesX(a), TimesX(b))
  {
    hide Xor, Right, Last;
    XorRight(a, b);
    XorLast(a, b);
    var p := POLY;
    var ra, rb := Right(a, 1), Right(b, 1);
    if Last(a) && Last(b) {
      XorSwaps(ra, p, rb, p);
      XorZero(p);
      XorZero(Xor(ra, rb));
    } else if Last(a) {
      XorAssociates(ra, p, rb);
      XorCommutes(p, rb);
      XorAssociates(ra, rb, p);
    } else if Last(b) {
      XorAssociates(ra, rb, p);
    }
  }

  lemma {:induction false} ShiftedAdds(n: nat, a: bv32, b: bv32)
    ensures Shifted(n, Xor(a, b)) == Xor(Shifted(n, a), Shifted(n, b))
  {
    hide Xor, TimesX;
    if n > 0 {
      ShiftedAdds(n - 1, a, b);
      TimesXAdds(Shifted(n - 1, a), Shifted(n - 1, b));
    }
  }

  lemma {:induction false} ShiftedZero(n: nat)
    ensures Shifted(n, 0) == 0
  {
    if n > 0 {
      ShiftedZero(n - 1);
      assert TimesX(0) == 0;
    }
  }

  lemma {:induction false} ShiftedShifted(n: nat, k: nat, b: bv32)
    ensures Shifted(n, Shifted(k, b)) == Shifted(n + k, b)
  {
    hide TimesX;
    if n > 0 {
      ShiftedShifted(n - 1, k, b);
    }
  }

  /** The sum is linear in what is summed up. */
  lemma {:induction false} SumAdds(a: bv32, m: bv32, b: bv32, c: bv32)
    ensures Sum(a, m, Xor(b, c)) == Xor(Sum(a, m, b), Sum(a, m, c))
    decreases m
  {
    hide Xor, And, TimesX, Right, Sum;
    if m == 0 {
      NoSum(a, b);
      NoSum(a, c);
      NoSum(a, Xor(b, c));
      XorZero(0);
    } else {
      SumStep(a, m, b);
      SumStep(a, m, c);
      SumStep(a, m, Xor(b, c));
      MaskShrinks(m);
      TimesXAdds(b, c);
      SumAdds(a, Right(m, 1), TimesX(b), TimesX(c));
      var zero: bv32 := 0;
      XorZero(zero);
      var bit := And(a, m) != 0;
      XorSwaps(if bit then b else 0, Sum(a, Right(m, 1), TimesX(b)), if bit then c else 0,
               Sum(a, Right(m, 1), TimesX(c)));
    }
  }

  lemma NoSum(a: bv32, b: bv32)
    ensures Sum(a, 0, b) == 0
  {
  }

  lemma SumOfZero(a: bv32, m: bv32)
    ensures Sum(a, m, 0) == 0
  {
    hide Xor, And, TimesX, Right, Sum;
    SumAdds(a, m, 0, 0);
    XorZero(0);
    XorZero(Sum(a, m, 0));
  }

  lemma {:induction false} SumTimesX(a: bv32, m: bv32, b: bv32)
    ensures Sum(a, m, TimesX(b)) == TimesX(Sum(a, m, b))
    decreases m
  {
    hide Xor, And, TimesX, Right, Sum;
    TimesXZero();
    if m == 0 {
      NoSum(a, b);
      NoSum(a, TimesX(b));
    } else {
      SumStep(a, m, b);
      SumStep(a, m, TimesX(b));
      MaskShrinks(m);
      SumTimesX(a, Right(m, 1), TimesX(b));
      TimesXAdds(if And(a, m) != 0 then b else 0, Sum(a, Right(m, 1), TimesX(b)));
    }
  }

  lemma TimesXZero()
    ensures TimesX(0) == 0
  {
  }

  lemma {:induction false} SumShifted(a: bv32, n: nat, b: bv32)
    ensures Sum(a, ONE, Shifted(n, b)) == Shifted(n, Sum(a, ONE, b))
  {
    hide TimesX, Sum;
    if n > 0 {
      SumShifted(a, n - 1, b);
      SumTimesX(a, ONE, Shifted(n - 1, b));
    }
  }

  // What a polynomial is the sum of

  /** The bits of a from the single bit m down. */
  ghost function From(a: bv32, m: bv32): bv32 {
    a & (m | (m - 1))
  }

  ghost predicate OneBit(m: bv32) {
    m != 0 && m & (m - 1) == 0
  }

  lemma NextBit(m: bv32)
    requires OneBit(m) && m != 1
    ensures OneBit(Right(m, 1)) && TimesX(m) == Right(m, 1)
  {
    EvenBit(m);
    HalfBit(m);
  }

  lemma EvenBit(m: bv32)
    requires OneBit(m) && m != 1
    ensures !Last(m)
  {
  }

  lemma HalfBit(m: bv32)
    requires OneBit(m) && m != 1
    ensures OneBit(Right(m, 1))
  {
  }

  lemma FromStep(a: bv32, m: bv32)
    requires OneBit(m) && m != 1
    ensures From(a, m) == Xor(And(a, m), From(a, Right(m, 1)))
  {
    LessBits(m);
  }

  lemma LessBits(m: bv32)
    requires m & (m - 1) == 0 && m != 1
    ensures (m >> 1) | ((m >> 1) - 1) == m - 1
  {
  }

  lemma BitOf(a: bv32, m: bv32)
    requires OneBit(m)
    ensures And(a, m) != 0 ==> And(a, m) == m
  {
  }

  lemma {:induction false} SumOfBits(a: bv32, m: bv32)
    requires OneBit(m)
    ensures Sum(a, m, m) == From(a, m)
    decreases m
  {
    hide Xor, And, TimesX, Right, Sum, From, OneBit;
    BitOf(a, m);
    if m == 1 {
      LowestBit(a);
    } else {
      NonZero(m);
      SumStep(a, m, m);
      MaskShrinks(m);
      NextBit(m);
      SumOfBits(a, Right(m, 1));
      FromStep(a, m);
    }
  }

  lemma NonZero(m: bv32)
    requires OneBit(m)
    ensures m != 0
  {
  }

  lemma LowestBit(a: bv32)
    ensures Sum(a, 1, 1) == From(a, 1)
  {
    assert From(a, 1) == And(a, 1);
  }

  lemma ProductOne(a: bv32)
    ensures Product(a, ONE) == a
  {
    hide Sum;
    assert OneBit(ONE);
    SumOfBits(a, ONE);
    assert From(a, ONE) == a;
  }

  // The laws of the product

  lemma {:induction false} ProductOfSum(a: bv32, b: bv32, m: bv32, c: bv32)
    ensures Product(a, Sum(b, m, c)) == Sum(b, m, Product(a, c))
    decreases m
  {
    hide Xor, And, TimesX, Right, Sum;
    SumOfZero(a, ONE);
    if m == 0 {
      NoSum(b, c);
      NoSum(b, Product(a, c));
    } else {
      SumStep(b, m, c);
      SumStep(b, m, Product(a, c));
      MaskShrinks(m);
      ProductOfSum(a, b, Right(m, 1), TimesX(c));
      SumTimesX(a, ONE, c);
      SumAdds(a, ONE, if And(b, m) != 0 then c else 0, Sum(b, Right(m, 1), TimesX(c)));
    }
  }

  lemma ProductCommutes(a: bv32, b: bv32)
    ensures Product(a, b) == Product(b, a)
  {
    hide Sum;
    ProductOne(b);
    ProductOne(a);
    ProductOfSum(a, b, ONE, ONE);
  }

  lemma ProductAssociates(a: bv32, b: bv32, c: bv32)
    ensures Product(Product(a, b), c) == Product(a, Product(b, c))
  {
    hide Sum;
    ProductOfSum(c, a, ONE, b);
    ProductCommutes(Product(a, b), c);
    ProductCommutes(b, c);
  }

  lemma ProductAdds(a: bv32, b: bv32, c: bv32)
    ensures Product(a, Xor(b, c)) == Xor(Product(a, b), Product(a, c))
    ensures Product(Xor(b, c), a) == Xor(Product(b, a), Product(c, a))
  {
    hide Sum, Xor;
    SumAdds(a, ONE, b, c);
    ProductCommutes(a, Xor(b, c));
    ProductCommutes(a, b);
    ProductCommutes(a, c);
  }

  /** Multiplying by x^n is shifting n times. */
  lemma ProductOfPower(n: nat, b: bv32)
    ensures Product(Power(n), b) == Shifted(n, b)
  {
    hide Sum, Shifted;
    ProductCommutes(Power(n), b);
    SumShifted(b, n, ONE);
    ProductOne(b);
  }

  lemma PowersMultiply(n: nat, k: nat)
    ensures Product(Power(n), Power(k)) == Power(n + k)
  {
    hide Sum, Shifted;
    ProductOfPower(n, Power(k));
    ShiftedShifted(n, k, ONE);
  }

  lemma TimesXNonZero(b: bv32)
    requires b != 0
    ensures TimesX(b) != 0
  {
  }

  lemma {:induction false} PowerNonZero(n: nat)
    ensures Power(n) != 0
  {
    hide TimesX;
    if n > 0 {
      PowerNonZero(n - 1);
      TimesXNonZero(Power(n - 1));
    }
  }
}
