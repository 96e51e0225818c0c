/** SFMT-common.h: the step of the recurrence on the numbers that its words are, and its linearity. */
module SfmtLinear {
  import opened Bytes
  import opened SfmtShifts
  import opened SfmtWords
  import opened Words

  /** One 32-bit word of the result. */
  ghost predicate Lane(p: Params, m: bv32, a: bv32, x: bv32, b: bv32, y: bv32, d: bv32, r: bv32)
    requires ProperShifts(p)
  {
    r == Xor(Xor(Xor(Xor(a, x), And(Right(b, p.sr1), m)), y), LeftBy(d, p.sl1))
  }

  ghost predicate Lanes(p: Params, a: W128, x: W128, b: W128, y: W128, d: W128, r: W128)
    requires ProperShifts(p)
  {
    && Lane(p, p.msk.u0, a.u0, x.u0, b.u0, y.u0, d.u0, r.u0)
    && Lane(p, p.msk.u1, a.u1, x.u1, b.u1, y.u1, d.u1, r.u1)
    && Lane(p, p.msk.u2, a.u2, x.u2, b.u2, y.u2, d.u2, r.u2)
    && Lane(p, p.msk.u3, a.u3, x.u3, b.u3, y.u3, d.u3, r.u3)
  }

  ghost predicate ShiftedLeft(a: W128, n: nat, x: W128) {
    Value(x) == Value(a) * Pow2(n) % Pow2(128)
  }

  ghost predicate ShiftedRight(c: W128, n: nat, y: W128) {
    Value(y) == Value(c) / Pow2(n)
  }

  /** r is the word that a, b, c and d make in the recurrence: a, a shifted left by 8 * sl2 bits as a 128-bit
      number, the words of b shifted right and masked, c shifted right by 8 * sr2 bits as a 128-bit
      number, and the words of d shifted left, added without carries. */
  ghost predicate IsNext(p: Params, a: W128, b: W128, c: W128, d: W128, r: W128)
    requires ProperShifts(p)
  {
    exists x, y ::
      ShiftedLeft(a, 8 * (p.sl2 as nat), x) && ShiftedRight(c, 8 * (p.sr2 as nat), y) && Lanes(p, a, x, b, y, d, r)
  }

  lemma MixIsLane(p: Params, m: bv32, a: bv32, x: bv32, b: bv32, y: bv32, d: bv32)
    requires ProperShifts(p)
    ensures Lane(p, m, a, x, b, y, d, Mix(p, m, a, x, b, y, d))
  {
    hide Xor, And, Right, LeftBy;
  }

  lemma RecursionLanes(p: Params, a: W128, b: W128, c: W128, d: W128)
    requires Proper(p)
    ensures Lanes(p, a, LShift128(a, p.sl2), b, RShift128(c, p.sr2), d, DoRecursion(p, a, b, c, d))
  {
    hide LShift128, RShift128, Mix, Lane;
    var x, y := LShift128(a, p.sl2), RShift128(c, p.sr2);
    MixIsLane(p, p.msk.u0, a.u0, x.u0, b.u0, y.u0, d.u0);
    MixIsLane(p, p.msk.u1, a.u1, x.u1, b.u1, y.u1, d.u1);
    MixIsLane(p, p.msk.u2, a.u2, x.u2, b.u2, y.u2, d.u2);
    MixIsLane(p, p.msk.u3, a.u3, x.u3, b.u3, y.u3, d.u3);
  }

  lemma RecursionIsNext(p: Params, a: W128, b: W128, c: W128, d: W128)
    requires Proper(p)
    ensures IsNext(p, a, b, c, d, DoRecursion(p, a, b, c, d))
  {
    hide LShift128, RShift128, Value, Pow2, Lanes, DoRecursion;
    LShiftValue(a, p.sl2 as nat);
    RShiftValue(c, p.sr2 as nat);
    RecursionLanes(p, a, b, c, d);
  }

  /** No other word is. */
  lemma NextIsUnique(p: Params, a: W128, b: W128, c: W128, d: W128, r: W128, r': W128)
    requires ProperShifts(p) && IsNext(p, a, b, c, d, r) && IsNext(p, a, b, c, d, r')
    ensures r == r'
  {
    hide Value, Pow2, Lanes;
    var n, k := 8 * (p.sl2 as nat), 8 * (p.sr2 as nat);
    var x, y :| ShiftedLeft(a, n, x) && ShiftedRight(c, k, y) && Lanes(p, a, x, b, y, d, r);
    var x', y' :| ShiftedLeft(a, n, x') && ShiftedRight(c, k, y') && Lanes(p, a, x', b, y', d, r');
    ValueDetermines(x, x');
    ValueDetermines(y, y');
    SameLanes(p, a, x, b, y, d, r, r');
  }

  lemma SameLanes(p: Params, a: W128, x: W128, b: W128, y: W128, d: W128, r: W128, r': W128)
    requires ProperShifts(p) && Lanes(p, a, x, b, y, d, r) && Lanes(p, a, x, b, y, d, r')
    ensures r == r'
  {
  }

  // Linearity

  /** The sum without carries. */
  function Plus(x: W128, y: W128): W128 {
    W128(Xor(x.u0, y.u0), Xor(x.u1, y.u1), Xor(x.u2, y.u2), Xor(x.u3, y.u3))
  }

  lemma RaisedAdds(u: bv32, v: bv32, u': bv32, v': bv32)
    ensures Raised(Xor(u, u'), Xor(v, v')) == Xor(Raised(u, v), Raised(u', v'))
  {
  }

  lemma LoweredAdds(u: bv32, v: bv32, u': bv32, v': bv32)
    ensures Lowered(Xor(u, u'), Xor(v, v')) == Xor(Lowered(u, v), Lowered(u', v'))
  {
  }

  lemma {:induction false} LeftsAdds(x: W128, y: W128, n: nat)
    ensures Lefts(Plus(x, y), n) == Plus(Lefts(x, n), Lefts(y, n))
  {
    hide Xor, Raised;
    if n > 0 {
      LeftsAdds(x, y, n - 1);
      LeftOnceAdds(Lefts(x, n - 1), Lefts(y, n - 1));
    }
  }

  lemma LeftOnceAdds(x: W128, y: W128)
    ensures LeftOnce(Plus(x, y)) == Plus(LeftOnce(x), LeftOnce(y))
  {
    hide Xor, Raised;
    XorZero(0);
    RaisedAdds(x.u0, 0, y.u0, 0);
    RaisedAdds(x.u1, x.u0, y.u1, y.u0);
    RaisedAdds(x.u2, x.u1, y.u2, y.u1);
    RaisedAdds(x.u3, x.u2, y.u3, y.u2);
  }

  lemma RightOnceAdds(x: W128, y: W128)
    ensures RightOnce(Plus(x, y)) == Plus(RightOnce(x), RightOnce(y))
  {
    hide Xor, Lowered;
    XorZero(0);
    LoweredAdds(x.u0, x.u1, y.u0, y.u1);
    LoweredAdds(x.u1, x.u2, y.u1, y.u2);
    LoweredAdds(x.u2, x.u3, y.u2, y.u3);
    LoweredAdds(x.u3, 0, y.u3, 0);
  }

  lemma {:induction false} RightsAdds(x: W128, y: W128, n: nat)
    ensures Rights(Plus(x, y), n) == Plus(Rights(x, n), Rights(y, n))
  {
    hide RightOnce, Plus;
    if n > 0 {
      RightsAdds(x, y, n - 1);
      RightOnceAdds(Rights(x, n - 1), Rights(y, n - 1));
    }
  }

  lemma MixAdds(p: Params, m: bv32, a: bv32, x: bv32, b: bv32, y: bv32, d: bv32, a': bv32, x': bv32, b': bv32,
        y': bv32, d': bv32)
    requires ProperShifts(p)
    ensures Mix(p, m, Xor(a, a'), Xor(x, x'), Xor(b, b'), Xor(y, y'), Xor(d, d'))
            == Xor(Mix(p, m, a, x, b, y, d), Mix(p, m, a', x', b', y', d'))
  {
    hide Xor, And, Right, LeftBy;
    RightAdds(b, b', p.sr1);
    var r, r' := Right(b, p.sr1), Right(b', p.sr1);
    XorAnd(r, r', m);
    LeftByAdds(d, d', p.sl1);
    XorSwaps(a, a', x, x');
    var s, s' := Xor(a, x), Xor(a', x');
    XorSwaps(s, s', And(r, m), And(r', m));
    s, s' := Xor(s, And(r, m)), Xor(s', And(r', m));
    XorSwaps(s, s', y, y');
    XorSwaps(Xor(s, y), Xor(s', y'), LeftBy(d, p.sl1), LeftBy(d', p.sl1));
  }

  /** The step of the recurrence is linear. */
  lemma RecursionAdds(p: Params, a: W128, b: W128, c: W128, d: W128, a': W128, b': W128, c': W128, d': W128)
    requires Proper(p)
    ensures DoRecursion(p, Plus(a, a'), Plus(b, b'), Plus(c, c'), Plus(d, d'))
            == Plus(DoRecursion(p, a, b, c, d), DoRecursion(p, a', b', c', d'))
  {
    hide LShift128, RShift128, Mix, Xor;
    LeftAdds(a, a', p.sl2);
    RightShiftAdds(c, c', p.sr2);
    var x, x', y, y' := LShift128(a, p.sl2), LShift128(a', p.sl2), RShift128(c, p.sr2), RShift128(c', p.sr2);
    MixAdds(p, p.msk.u0, a.u0, x.u0, b.u0, y.u0, d.u0, a'.u0, x'.u0, b'.u0, y'.u0, d'.u0);
    MixAdds(p, p.msk.u1, a.u1, x.u1, b.u1, y.u1, d.u1, a'.u1, x'.u1, b'.u1, y'.u1, d'.u1);
    MixAdds(p, p.msk.u2, a.u2, x.u2, b.u2, y.u2, d.u2, a'.u2, x'.u2, b'.u2, y'.u2, d'.u2);
    MixAdds(p, p.msk.u3, a.u3, x.u3, b.u3, y.u3, d.u3, a'.u3, x'.u3, b'.u3, y'.u3, d'.u3);
  }

  lemma LeftAdds(a: W128, a': W128, s: bv6)
    requires 0 < s < 8
    ensures LShift128(Plus(a, a'), s) == Plus(LShift128(a, s), LShift128(a', s))
  {
    hide LShift128, Plus;
    var n := s as nat;
    LeftIsLefts(a, n);
    LeftIsLefts(a', n);
    LeftIsLefts(Plus(a, a'), n);
    LeftsAdds(a, a', n);
  }

  lemma RightShiftAdds(c: W128, c': W128, s: bv6)
    requires 0 < s < 8
    ensures RShift128(Plus(c, c'), s) == Plus(RShift128(c, s), RShift128(c', s))
  {
    hide RShift128, Plus;
    var n := s as nat;
    RightIsRights(c, n);
    RightIsRights(c', n);
    RightIsRights(Plus(c, c'), n);
    RightsAdds(c, c', n);
  }
}
