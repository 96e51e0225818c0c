/** period_certification: the first state word is made to have an odd inner product with the parity
    vector, by changing at most one bit. */
module Certification {
  import opened Parity
  import opened SfmtWords
  import opened Words

  /** The inner product of two vectors of 32 bits, modulo 2. */
  ghost predicate Dot(x: bv32, y: bv32) {
    Odd(And(x, y), 32)
  }

  /** The inner product of two vectors of 128 bits, modulo 2. */
  ghost predicate Inner(w: W128, parity: W128) {
    (Dot(w.u0, parity.u0) != Dot(w.u1, parity.u1)) != (Dot(w.u2, parity.u2) != Dot(w.u3, parity.u3))
  }

  /** Word i of w exclusive-or work. */
  function Turned(w: W128, i: nat, work: bv32): W128
    requires i < 4
  {
    match i
    case 0 => w.(u0 := Xor(w.u0, work))
    case 1 => w.(u1 := Xor(w.u1, work))
    case 2 => w.(u2 := Xor(w.u2, work))
    case _ => w.(u3 := Xor(w.u3, work))
  }

  ghost predicate OneBitTurned(w: W128, r: W128) {
    exists i, j :: 0 <= i < 4 && 0 <= j < 32 && r == Turned(w, i, Single(j))
  }

  lemma FlipsParity(x: bv32, j: nat, z: bv32)
    requires j < 32 && And(Single(j), z) == Single(j)
    ensures Dot(Xor(x, Single(j)), z) != Dot(x, z)
  {
    hide Xor, And, Single, Odd;
    XorAnd(x, Single(j), z);
    OddOfXor(And(x, z), Single(j), 32);
    SingleIsOdd(j, 32);
  }

  lemma FlipChangesInner(w: W128, parity: W128, i: nat, j: nat)
    requires i < 4 && j < 32 && And(Single(j), parity.U(i)) == Single(j)
    ensures Inner(Turned(w, i, Single(j)), parity) != Inner(w, parity)
  {
    hide Xor, And, Single, Dot, Turned, Inner, W128.U;
    FlipsParity(w.U(i), j, parity.U(i));
    TurnedWord(w, i, Single(j));
    forall k | 0 <= k < 4 && k != i ensures Turned(w, i, Single(j)).U(k) == w.U(k) {
      OtherWord(w, i, Single(j), k);
    }
    OneTerm(w, Turned(w, i, Single(j)), parity, i);
  }

  lemma TurnedWord(w: W128, i: nat, work: bv32)
    requires i < 4
    ensures Turned(w, i, work).U(i) == Xor(w.U(i), work)
  {
    hide Xor;
  }

  lemma OtherWord(w: W128, i: nat, work: bv32, k: nat)
    requires i < 4 && k < 4 && k != i
    ensures Turned(w, i, work).U(k) == w.U(k)
  {
    hide Xor;
  }

  lemma OneTerm(w: W128, r: W128, parity: W128, i: nat)
    requires i < 4 && (forall k :: 0 <= k < 4 && k != i ==> r.U(k) == w.U(k))
    requires Dot(r.U(i), parity.U(i)) != Dot(w.U(i), parity.U(i))
    ensures Inner(r, parity) != Inner(w, parity)
  {
    hide Dot;
    assert (0 != i ==> r.U(0) == w.U(0)) && (1 != i ==> r.U(1) == w.U(1));
    assert (2 != i ==> r.U(2) == w.U(2)) && (3 != i ==> r.U(3) == w.U(3));
  }

  /** No bit below the single bit work. */
  ghost predicate Below(z: bv32, work: bv32) {
    work & (work - 1) == 0 && z & (work - 1) == 0
  }

  lemma NextBelow(z: bv32, work: bv32)
    requires Below(z, work) && And(work, z) == 0
    ensures Below(z, Left(work))
  {
    DoubleLess(work);
  }

  lemma DoubleLess(work: bv32)
    requires work & (work - 1) == 0
    ensures (work << 1) - 1 == work | (work - 1)
    ensures (work << 1) & (work | (work - 1)) == 0
  {
  }

  lemma AndSingle(z: bv32, work: bv32)
    requires Below(z, work) && And(work, z) != 0
    ensures And(work, z) == work
  {
  }

  lemma NoneBelow(z: bv32)
    ensures Below(z, 1) && (Below(z, 0) ==> z == 0)
  {
  }

  lemma InnerFolded(w: W128, parity: W128, inner: bv32)
    requires inner == Xor(Xor(Xor(And(w.u0, parity.u0), And(w.u1, parity.u1)), And(w.u2, parity.u2)),
                          And(w.u3, parity.u3))
    ensures Odd(inner, 32) == Inner(w, parity)
  {
    hide Xor, And, Odd;
    OddOfXor(And(w.u0, parity.u0), And(w.u1, parity.u1), 32);
    OddOfXor(Xor(And(w.u0, parity.u0), And(w.u1, parity.u1)), And(w.u2, parity.u2), 32);
    OddOfXor(Xor(Xor(And(w.u0, parity.u0), And(w.u1, parity.u1)), And(w.u2, parity.u2)), And(w.u3, parity.u3), 32);
  }

  lemma NoneIn(work: bv32)
    ensures And(work, 0) == 0
  {
  }

  lemma Start()
    ensures Single(0) == 1
  {
  }

  lemma Onward(j: nat)
    ensures Single(j + 1) == Left(Single(j))
  {
  }

  lemma AllZero(parity: W128)
    requires forall k :: 0 <= k < 4 ==> parity.U(k) == 0
    ensures parity == W128(0, 0, 0, 0)
  {
    assert parity.U(0) == 0 && parity.U(1) == 0 && parity.U(2) == 0 && parity.U(3) == 0;
  }

  lemma NoParity(w: W128, parity: W128)
    ensures parity == W128(0, 0, 0, 0) ==> !Inner(w, parity)
  {
    hide Odd, And;
    NoBits(32);
    NoneIn(w.u0);
    NoneIn(w.u1);
    NoneIn(w.u2);
    NoneIn(w.u3);
  }

  /** The fold of the loop over i = 16, 8, 4, 2, 1. */
  method Fold(x: bv32) returns (inner: bv32)
    ensures inner == if Odd(x, 32) then 1 else 0
  {
    hide Odd, Xor, Right, And, Last;
    inner := Xor(x, Right(x, 16));
    ghost var a := inner;
    inner := Xor(inner, Right(inner, 8));
    ghost var b := inner;
    inner := Xor(inner, Right(inner, 4));
    ghost var c := inner;
    inner := Xor(inner, Right(inner, 2));
    ghost var d := inner;
    inner := Xor(inner, Right(inner, 1));
    FoldIsParity(x, a, b, c, d, inner);
    LastBit(inner);
    inner := And(inner, 1);
  }

  lemma LastBit(x: bv32)
    ensures And(x, 1) == if Last(x) then 1 else 0
  {
  }

  /** The inner loop: the lowest bit of the parity word, if it has one. */
  method LowestBit(z: bv32) returns (found: bool, work: bv32, j: nat)
    ensures found <==> z != 0
    ensures found ==> j < 32 && work == Single(j) && And(work, z) == work
  {
    hide Single, And, Below, Left;
    work, j := 1, 0;
    NoneBelow(z);
    Start();
    while j < 32
      invariant j <= 32 && work == Single(j) && Below(z, work)
    {
      if And(work, z) != 0 {
        AndSingle(z, work);
        NoneIn(work);
        return true, work, j;
      }
      NextBelow(z, work);
      Onward(j);
      work, j := Left(work), j + 1;
    }
    Singles(0);
    found := false;
  }

  /** period_certification on the first state word. */
  method Certify(w: W128, parity: W128) returns (r: W128)
    ensures Inner(r, parity) <==> Inner(w, parity) || parity != W128(0, 0, 0, 0)
    ensures Inner(w, parity) || parity == W128(0, 0, 0, 0) ==> r == w
    ensures r == w || OneBitTurned(w, r)
  {
    hide Odd, Single, And, Inner, Xor, Turned;
    var folded := Xor(Xor(Xor(And(w.u0, parity.u0), And(w.u1, parity.u1)), And(w.u2, parity.u2)), And(w.u3, parity.u3));
    InnerFolded(w, parity, folded);
    var inner := Fold(folded);
    r := w;
    if inner == 1 {
      NoParity(w, parity);
      return;
    }
    var i := 0;
    while i < 4
      invariant 0 <= i <= 4 && forall k :: 0 <= k < i ==> parity.U(k) == 0
    {
      var found, work, j := LowestBit(parity.U(i));
      if found {
        FlipChangesInner(w, parity, i, j);
        r := Turned(w, i, work);
        return;
      }
      i := i + 1;
    }
    AllZero(parity);
  }
}
