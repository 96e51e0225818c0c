/** The parity of a 32-bit word, and folding a word on itself to find it. */
module Parity {
  import opened Words

  /** Whether an odd number of the lowest k bits of x are 1. */
  function Odd(x: bv32, k: nat): bool {
    if k == 0 then false else Last(x) != Odd(Right(x, 1), k - 1)
  }

  lemma {:induction false} OddOfXor(x: bv32, y: bv32, k: nat)
    ensures Odd(Xor(x, y), k) == (Odd(x, k) != Odd(y, k))
    decreases k
  {
    hide Xor, Right, Last;
    if k > 0 {
      XorRight(x, y);
      XorLast(x, y);
      OddOfXor(Right(x, 1), Right(y, 1), k - 1);
    }
  }

  lemma Split2(x: bv32, k: nat)
    ensures Odd(x, 2 + k) == (Odd(x, 2) != Odd(Right(x, 2), k))
  {
    hide Xor, Right, Last;
    RightTwice(x, 1);
    assert Odd(x, 2 + k) == (Last(x) != (Last(Right(x, 1)) != Odd(Right(Right(x, 1), 1), k)));
    Two(x);
  }

  lemma Two(x: bv32)
    ensures Odd(x, 2) == (Last(x) != Last(Right(x, 1)))
  {
    hide Xor, Right, Last;
    assert !Odd(Right(Right(x, 1), 1), 0);
  }

  lemma Split4(x: bv32, k: nat)
    ensures Odd(x, 4 + k) == (Odd(x, 4) != Odd(Right(x, 4), k))
  {
    hide Xor, Right, Last, Odd;
    RightTwice(x, 2);
    Split2(x, 2 + k);
    Split2(x, 2);
    Split2(Right(x, 2), k);
  }

  lemma Split8(x: bv32, k: nat)
    ensures Odd(x, 8 + k) == (Odd(x, 8) != Odd(Right(x, 8), k))
  {
    hide Xor, Right, Last, Odd;
    RightTwice(x, 4);
    Split4(x, 4 + k);
    Split4(x, 4);
    Split4(Right(x, 4), k);
  }

  lemma Split16(x: bv32, k: nat)
    ensures Odd(x, 16 + k) == (Odd(x, 16) != Odd(Right(x, 16), k))
  {
    hide Xor, Right, Last, Odd;
    RightTwice(x, 8);
    Split8(x, 8 + k);
    Split8(x, 8);
    Split8(Right(x, 8), k);
  }

  /** Folding a word by 16, 8, 4, 2 and 1 leaves its parity in the lowest bit. */
  lemma FoldIsParity(x: bv32, a: bv32, b: bv32, c: bv32, d: bv32, e: bv32)
    requires a == Xor(x, Right(x, 16)) && b == Xor(a, Right(a, 8)) && c == Xor(b, Right(b, 4))
    requires d == Xor(c, Right(c, 2)) && e == Xor(d, Right(d, 1))
    ensures Last(e) == Odd(x, 32)
  {
    hide Xor, Right, Last, Odd;
    Split16(x, 16);
    OddOfXor(x, Right(x, 16), 16);
    Split8(a, 8);
    OddOfXor(a, Right(a, 8), 8);
    Split4(b, 4);
    OddOfXor(b, Right(b, 4), 4);
    Split2(c, 2);
    OddOfXor(c, Right(c, 2), 2);
    Two(d);
    XorLast(d, Right(d, 1));
  }

  /** The word with bit j alone. */
  function Single(j: nat): bv32 {
    if j == 0 then 1 else Left(Single(j - 1))
  }

  lemma Singles(j: nat)
    requires j < 32
    ensures Single(j) != 0 && (Single(j) < 0x8000_0000 <==> j < 31)
    ensures Single(32) == 0
  {
    assert Single(0) == 0x1;
    assert Single(1) == 0x2;
    assert Single(2) == 0x4;
    assert Single(3) == 0x8;
    assert Single(4) == 0x10;
    assert Single(5) == 0x20;
    assert Single(6) == 0x40;
    assert Single(7) == 0x80;
    assert Single(8) == 0x100;
    assert Single(9) == 0x200;
    assert Single(10) == 0x400;
    assert Single(11) == 0x800;
    assert Single(12) == 0x1000;
    assert Single(13) == 0x2000;
    assert Single(14) == 0x4000;
    assert Single(15) == 0x8000;
    assert Single(16) == 0x10000;
    assert Single(17) == 0x20000;
    assert Single(18) == 0x40000;
    assert Single(19) == 0x80000;
    assert Single(20) == 0x100000;
    assert Single(21) == 0x200000;
    assert Single(22) == 0x400000;
    assert Single(23) == 0x800000;
    assert Single(24) == 0x1000000;
    assert Single(25) == 0x2000000;
    assert Single(26) == 0x4000000;
    assert Single(27) == 0x8000000;
    assert Single(28) == 0x10000000;
    assert Single(29) == 0x20000000;
    assert Single(30) == 0x40000000;
    assert Single(31) == 0x80000000;
    assert Single(32) == 0x0;
  }

  lemma {:induction false} NoBits(k: nat)
    ensures !Odd(0, k)
  {
    if k > 0 {
      assert !Last(0) && Right(0, 1) == 0;
      NoBits(k - 1);
    }
  }

  lemma {:induction false} SingleIsOdd(j: nat, k: nat)
    requires j < k <= 32
    ensures Odd(Single(j), k)
  {
    if j == 0 {
      assert Last(1) && Right(1, 1) == 0;
      NoBits(k - 1);
    } else {
      hide Right, Left, Last;
      Singles(j - 1);
      LeftRight(Single(j - 1));
      SingleIsOdd(j - 1, k - 1);
    }
  }
}
