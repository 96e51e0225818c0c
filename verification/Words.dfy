/** 32-bit words as vectors of bits. */
module Words {

  function Xor(x: bv32, y: bv32): bv32 {
    x ^ y
  }

  function And(x: bv32, y: bv32): bv32 {
    x & y
  }

  function Right(x: bv32, n: bv6): bv32
    requires n <= 32
  {
    x >> n
  }

  function Left(x: bv32): bv32 {
    x << 1
  }

  function LeftBy(x: bv32, n: bv6): bv32
    requires n < 32
  {
    x << n
  }

  /** The lowest bit. */
  predicate Last(x: bv32) {
    x & 1 == 1
  }

  lemma XorRight(x: bv32, y: bv32)
    ensures Right(Xor(x, y), 1) == Xor(Right(x, 1), Right(y, 1))
  {
  }

  lemma XorLast(x: bv32, y: bv32)
    ensures Last(Xor(x, y)) == (Last(x) != Last(y))
  {
  }

  lemma XorCommutes(x: bv32, y: bv32)
    ensures Xor(x, y) == Xor(y, x)
  {
  }

  lemma XorAssociates(x: bv32, y: bv32, z: bv32)
    ensures Xor(Xor(x, y), z) == Xor(x, Xor(y, z))
  {
  }

  lemma XorCancels(x: bv32, y: bv32)
    ensures Xor(x, Xor(x, y)) == y
  {
  }

  lemma XorZero(x: bv32)
    ensures Xor(x, 0) == x && Xor(0, x) == x && Xor(x, x) == 0
  {
  }

  /** The middle two of four terms change places. */
  lemma XorSwaps(a: bv32, b: bv32, c: bv32, d: bv32)
    ensures Xor(Xor(a, b), Xor(c, d)) == Xor(Xor(a, c), Xor(b, d))
  {
    hide Xor;
    XorAssociates(a, b, Xor(c, d));
    XorAssociates(b, c, d);
    XorCommutes(b, c);
    XorAssociates(c, b, d);
    XorAssociates(a, c, Xor(b, d));
  }

  lemma RightTwice(x: bv32, n: bv6)
    requires n == 1 || n == 2 || n == 4 || n == 8
    ensures Right(Right(x, n), n) == Right(x, 2 * n)
  {
  }

  lemma LeftRight(x: bv32)
    requires x < 0x8000_0000
    ensures Right(Left(x), 1) == x && !Last(Left(x))
  {
  }

  lemma XorAnd(x: bv32, y: bv32, z: bv32)
    ensures And(Xor(x, y), z) == Xor(And(x, z), And(y, z))
  {
  }

  lemma LeftByNext(x: bv32, n: bv6)
    requires n < 31
    ensures LeftBy(x, n + 1) == Left(LeftBy(x, n))
  {
  }

  lemma RightNext(x: bv32, n: bv6)
    requires n < 31
    ensures Right(x, n + 1) == Right(Right(x, n), 1)
  {
  }

  lemma NoShift(x: bv32)
    ensures LeftBy(x, 0) == x && Right(x, 0) == x
  {
  }

  lemma XorLeft(x: bv32, y: bv32)
    ensures Left(Xor(x, y)) == Xor(Left(x), Left(y))
  {
  }

  lemma {:induction false} LeftByAdds(x: bv32, y: bv32, n: bv6)
    requires n < 32
    ensures LeftBy(Xor(x, y), n) == Xor(LeftBy(x, n), LeftBy(y, n))
    decreases n
  {
    hide LeftBy, Left, Xor;
    if n == 0 {
      NoShift(x);
      NoShift(y);
      NoShift(Xor(x, y));
    } else {
      LeftByAdds(x, y, n - 1);
      LeftByNext(x, n - 1);
      LeftByNext(y, n - 1);
      LeftByNext(Xor(x, y), n - 1);
      XorLeft(LeftBy(x, n - 1), LeftBy(y, n - 1));
    }
  }

  lemma {:induction false} RightAdds(x: bv32, y: bv32, n: bv6)
    requires n < 32
    ensures Right(Xor(x, y), n) == Xor(Right(x, n), Right(y, n))
    decreases n
  {
    hide Right, Xor;
    if n == 0 {
      NoShift(x);
      NoShift(y);
      NoShift(Xor(x, y));
    } else {
      RightAdds(x, y, n - 1);
      RightNext(x, n - 1);
      RightNext(y, n - 1);
      RightNext(Xor(x, y), n - 1);
      XorRight(Right(x, n - 1), Right(y, n - 1));
    }
  }

  /** c if a has the bit m, plus rest. */
  ghost function Term(a: bv32, m: bv32, c: bv32, rest: bv32): bv32 {
    (if a & m != 0 then c else 0) ^ rest
  }

  ghost function Bit(a: bv32, m: bv32, c: bv32): bv32 {
    if And(a, m) != 0 then c else 0
  }

  lemma TermIsXor(a: bv32, m: bv32, c: bv32, rest: bv32)
    ensures Term(a, m, c, rest) == Xor(Bit(a, m, c), rest)
  {
    if And(a, m) != 0 {
      assert a & m != 0 && Bit(a, m, c) == c;
    } else {
      assert a & m == 0;
    }
  }
}
