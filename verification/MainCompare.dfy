/** mainGtU: comparing two rotations on the block with its overshoot area, cut short by the
    quadrant values that remember earlier results. */
module MainCompare {
  import opened Bytes
  import opened Rotations
  import opened BucketScan
  import opened BlockArea

  /** The block is followed by a copy of its first bytes. */
  ghost predicate Overshot(s: seq<int>, n: int) {
    && OVERSHOOT <= n && |s| == n + OVERSHOOT
    && forall i :: 0 <= i < OVERSHOOT ==> s[n + i] == s[i]
  }

  /** Between positions with the same byte, a smaller quadrant value means a rotation that is not
      larger; equal values mean nothing. */
  ghost predicate Cached(b: seq<byte>, quadrant: seq<int>) {
    && Overshot(quadrant, |b|)
    && forall i, j :: 0 <= i < |b| && 0 <= j < |b| && b[i] == b[j] && quadrant[i] < quadrant[j] ==> Le(b, i, j)
  }

  /** A position in the block or its overshoot area as a position in the block. */
  function Wrapped(n: int, i: int): (r: int)
    requires 0 <= i < 2 * n
    ensures 0 <= r < n
  {
    if i < n then i else i - n
  }

  /** p moved forward t places. */
  ghost function Ahead(n: int, p: int, t: nat): (r: int)
    requires 0 <= p < n
    ensures 0 <= r < n
  {
    if t == 0 then p else Next(n, Ahead(n, p, t - 1))
  }

  /** The first t bytes from p and from q are the same. */
  ghost predicate Agree(b: seq<byte>, p: int, q: int, t: nat)
    requires 0 <= p < |b| && 0 <= q < |b|
  {
    forall k :: 0 <= k < t ==> b[Ahead(|b|, p, k)] == b[Ahead(|b|, q, k)]
  }

  lemma AheadWraps(n: int, p: int, t: nat)
    requires 0 <= p < n && p + t < 2 * n
    ensures Wrapped(n, p + t) == Ahead(n, p, t)
  {
    if t > 0 { AheadWraps(n, p, t - 1); }
  }

  /** Behind a common part, the order is that of what follows. */
  lemma {:induction false} AgreeDecides(b: seq<byte>, p: int, q: int, t: nat)
    requires 0 <= p < |b| && 0 <= q < |b| && Agree(b, p, q, t)
    ensures Le(b, Ahead(|b|, p, t), Ahead(|b|, q, t)) ==> Le(b, p, q)
  {
    if t > 0 {
      AgreeDecides(b, p, q, t - 1);
      LeByNext(b, Ahead(|b|, p, t - 1), Ahead(|b|, q, t - 1));
    }
  }

  lemma {:induction false} AheadAdds(n: int, p: int, t: nat)
    requires 0 <= p < n
    ensures Ahead(n, p, t + 1) == Ahead(n, Next(n, p), t)
  {
    if t > 0 { AheadAdds(n, p, t - 1); }
  }

  lemma {:induction false} AgreeCyclic(b: seq<byte>, p: int, q: int, t: nat)
    requires 0 <= p < |b| && 0 <= q < |b| && Agree(b, p, q, t)
    ensures Cyclic(b, p, t) == Cyclic(b, q, t)
    decreases t
  {
    if t > 0 {
      var p', q' := Next(|b|, p), Next(|b|, q);
      assert b[Ahead(|b|, p, 0)] == b[Ahead(|b|, q, 0)];
      forall k | 0 <= k < t - 1 ensures b[Ahead(|b|, p', k)] == b[Ahead(|b|, q', k)] {
        AheadAdds(|b|, p, k);
        AheadAdds(|b|, q, k);
        assert b[Ahead(|b|, p, k + 1)] == b[Ahead(|b|, q, k + 1)];
      }
      AgreeCyclic(b, p', q', t - 1);
    }
  }

  /** Rotations that agree for a whole turn are equal. */
  lemma AgreeFully(b: seq<byte>, p: int, q: int, t: nat)
    requires 0 <= p < |b| && 0 <= q < |b| && Agree(b, p, q, t) && t >= |b|
    ensures Le(b, p, q)
  {
    AgreeCyclic(b, p, q, |b|);
    RotationIsCyclic(b, p);
    RotationIsCyclic(b, q);
  }

  /** The comparison stands at i1, i2 after t equal bytes from p1, p2. */
  ghost predicate Comparing(b: seq<byte>, p1: int, p2: int, t: nat, i1: int, i2: int) {
    && 0 <= p1 < |b| && 0 <= p2 < |b| && Agree(b, p1, p2, t)
    && 0 <= i1 < |b| + OVERSHOOT <= 2 * |b| && 0 <= i2 < |b| + OVERSHOOT
    && Wrapped(|b|, i1) == Ahead(|b|, p1, t) && Wrapped(|b|, i2) == Ahead(|b|, p2, t)
  }

  /** A verdict on p1 > p2 that is not against the order of their rotations. */
  ghost predicate Verdict(b: seq<byte>, p1: int, p2: int, gt: bool)
    requires 0 <= p1 < |b| && 0 <= p2 < |b|
  {
    if gt then Le(b, p2, p1) else Le(b, p1, p2)
  }

  lemma AgreeSymmetric(b: seq<byte>, p: int, q: int, t: nat)
    requires 0 <= p < |b| && 0 <= q < |b| && Agree(b, p, q, t)
    ensures Agree(b, q, p, t)
  {
  }

  /** What the byte or quadrant value at an index in the overshoot area is. */
  lemma ReadsWrapped(s: seq<int>, n: int, i: int)
    requires Overshot(s, n) && 0 <= i < n + OVERSHOOT
    ensures i < |s| == n + OVERSHOOT && i < 2 * n && s[i] == s[Wrapped(n, i)]
  {
  }

  /** An order of what follows the common part decides. */
  lemma Settled(b: seq<byte>, p1: int, p2: int, t: nat, gt: bool)
    requires 0 <= p1 < |b| && 0 <= p2 < |b| && Agree(b, p1, p2, t)
    requires Verdict(b, Ahead(|b|, p1, t), Ahead(|b|, p2, t), gt)
    ensures Verdict(b, p1, p2, gt)
  {
    AgreeDecides(b, p1, p2, t);
    AgreeSymmetric(b, p1, p2, t);
    AgreeDecides(b, p2, p1, t);
  }

  /** A difference settles the comparison; equal bytes move it on. */
  lemma CompareStep(b: seq<byte>, block: seq<byte>, p1: int, p2: int, t: nat, i1: int, i2: int)
    requires Comparing(b, p1, p2, t, i1, i2) && Overshot(block, |b|) && block[..|b|] == b
    ensures i1 < |block| && i2 < |block|
    ensures block[i1] != block[i2] ==> Verdict(b, p1, p2, block[i1] > block[i2])
    ensures block[i1] == block[i2] ==> Agree(b, p1, p2, t + 1)
    ensures block[i1] == block[i2] && i1 + 1 < |b| + OVERSHOOT && i2 + 1 < |b| + OVERSHOOT ==>
          Comparing(b, p1, p2, t + 1, i1 + 1, i2 + 1)
  {
    hide Le, Overshot;
    BlockSize(block, |b|);
    ReadsWrapped(block, |b|, i1);
    ReadsWrapped(block, |b|, i2);
    var w1, w2 := Wrapped(|b|, i1), Wrapped(|b|, i2);
    assert block[..|b|][w1] == b[w1] && block[..|b|][w2] == b[w2];
    if block[i1] != block[i2] {
      LeByNext(b, w1, w2);
      LeByNext(b, w2, w1);
      Settled(b, p1, p2, t, block[i1] > block[i2]);
    } else {
      MoveOn(b, p1, p2, t, i1, i2);
    }
  }

  lemma MoveOn(b: seq<byte>, p1: int, p2: int, t: nat, i1: int, i2: int)
    requires Comparing(b, p1, p2, t, i1, i2) && b[Ahead(|b|, p1, t)] == b[Ahead(|b|, p2, t)]
    ensures Agree(b, p1, p2, t + 1)
    ensures i1 + 1 < |b| + OVERSHOOT && i2 + 1 < |b| + OVERSHOOT ==> Comparing(b, p1, p2, t + 1, i1 + 1, i2 + 1)
  {
    assert Agree(b, p1, p2, t + 1);
    hide Agree;
    assert Ahead(|b|, p1, t + 1) == Next(|b|, Ahead(|b|, p1, t)) &&
      Ahead(|b|, p2, t + 1) == Next(|b|, Ahead(|b|, p2, t));
  }

  lemma QuadrantStep(b: seq<byte>, block: seq<byte>, quadrant: seq<int>, p1: int, p2: int, t: nat, i1: int, i2: int)
    requires Comparing(b, p1, p2, t, i1, i2) && Overshot(block, |b|) && block[..|b|] == b && Cached(b, quadrant)
    requires |block| == |quadrant| == |b| + OVERSHOOT
    requires block[i1] == block[i2] && quadrant[i1] != quadrant[i2]
    ensures Verdict(b, p1, p2, quadrant[i1] > quadrant[i2])
  {
    hide Le, Overshot;
    ReadsWrapped(block, |b|, i1);
    ReadsWrapped(block, |b|, i2);
    ReadsWrapped(quadrant, |b|, i1);
    ReadsWrapped(quadrant, |b|, i2);
    var w1, w2 := Wrapped(|b|, i1), Wrapped(|b|, i2);
    assert block[..|b|][w1] == b[w1] && block[..|b|][w2] == b[w2];
    Settled(b, p1, p2, t, quadrant[i1] > quadrant[i2]);
  }

  /** The twelve comparisons of bytes alone. */
  method CompareBytes(block: seq<byte>, i1: int, i2: int, ghost b: seq<byte>)
    returns (decided: bool, gt: bool)
    requires |b| >= OVERSHOOT && Overshot(block, |b|) && block[..|b|] == b && 0 <= i1 <= |b| + 14 && 0 <= i2 <= |b| + 14
    ensures decided ==> Verdict(b, Wrapped(|b|, i1), Wrapped(|b|, i2), gt)
    ensures !decided ==> Comparing(b, Wrapped(|b|, i1), Wrapped(|b|, i2), 12, i1 + 12, i2 + 12)
  {
    hide Verdict, Overshot, Agree;
    StartComparing(block, i1, i2, b);
    ghost var p1, p2 := Wrapped(|b|, i1), Wrapped(|b|, i2);
    for t := 0 to 12
      invariant Comparing(b, p1, p2, t, i1 + t, i2 + t)
    {
      BlockSize(block, |b|);
      CompareStep(b, block, p1, p2, t, i1 + t, i2 + t);
      var c1, c2 := block[i1 + t], block[i2 + t];
      if c1 != c2 { return true, c1 > c2; }
    }
    return false, false;
  }

  lemma StartComparing(block: seq<byte>, i1: int, i2: int, b: seq<byte>)
    requires Overshot(block, |b|) && 0 <= i1 < |b| + OVERSHOOT && 0 <= i2 < |b| + OVERSHOOT
    ensures |b| + OVERSHOOT <= 2 * |b| && Comparing(b, Wrapped(|b|, i1), Wrapped(|b|, i2), 0, i1, i2)
  {
  }

  lemma BlockSize(s: seq<int>, n: int)
    requires Overshot(s, n)
    ensures |s| == n + OVERSHOOT && n >= OVERSHOOT
  {
  }

  /** Eight comparisons of a byte and then of its quadrant value. */
  method CompareEight(block: seq<byte>, quadrant: seq<int>, i1: int, i2: int, ghost b: seq<byte>, ghost p1: int,
        ghost p2: int, ghost t: nat)
    returns (decided: bool, gt: bool)
    requires Overshot(block, |b|) && block[..|b|] == b && Cached(b, quadrant) && i1 <= |b| + 26 && i2 <= |b| + 26
    requires Comparing(b, p1, p2, t, i1, i2)
    ensures decided ==> Verdict(b, p1, p2, gt)
    ensures !decided ==>
          Agree(b, p1, p2, t + 8) && Ahead(|b|, p1, t + 8) == Next(|b|, Ahead(|b|, p1, t + 7)) &&
            Comparing(b, p1, p2, t + 7, i1 + 7, i2 + 7)
  {
    hide Verdict, Overshot, Agree, Cached;
    var k := 0;
    while k < 8
      invariant 0 <= k <= 8 && Agree(b, p1, p2, t + k)
      invariant k < 8 ==> Comparing(b, p1, p2, t + k, i1 + k, i2 + k)
      invariant k == 8 ==> Comparing(b, p1, p2, t + 7, i1 + 7, i2 + 7)
    {
      BlockSize(block, |b|);
      QuadrantSize(b, quadrant);
      CompareStep(b, block, p1, p2, t + k, i1 + k, i2 + k);
      var c1, c2 := block[i1 + k], block[i2 + k];
      if c1 != c2 { return true, c1 > c2; }
      var s1, s2 := quadrant[i1 + k], quadrant[i2 + k];
      if s1 != s2 {
        QuadrantStep(b, block, quadrant, p1, p2, t + k, i1 + k, i2 + k);
        return true, s1 > s2;
      }
      k := k + 1;
    }
    return false, false;
  }

  lemma QuadrantSize(b: seq<byte>, quadrant: seq<int>)
    requires Cached(b, quadrant)
    ensures |quadrant| == |b| + OVERSHOOT
  {
  }

  lemma StartOver(b: seq<byte>, p1: int, p2: int, t: nat, i1: int, i2: int)
    requires Comparing(b, p1, p2, t + 7, i1 + 7, i2 + 7) && Agree(b, p1, p2, t + 8) && |b| > OVERSHOOT
    ensures Comparing(b, p1, p2, t + 8, if i1 + 8 >= |b| then i1 + 8 - |b| else i1 + 8, if i2 + 8 >= |b| then i2 +
                      8 - |b| else i2 + 8)
  {
  }

  /** mainGtU on two positions that may lie up to 14 places past the block. Its verdict is never
      against the order of the rotations, and no index passes the overshoot area. */
  method GreaterThan(i1: int, i2: int, block: seq<byte>, quadrant: seq<int>, nblock: int, budget: int,
        ghost b: seq<byte>)
    returns (gt: bool, left: int)
    requires nblock == |b| > OVERSHOOT && Overshot(block, |b|) && block[..|b|] == b && Cached(b, quadrant)
    requires 0 <= i1 <= |b| + 14 && 0 <= i2 <= |b| + 14
    ensures Verdict(b, Wrapped(|b|, i1), Wrapped(|b|, i2), gt) && left <= budget
  {
    hide Verdict, Overshot, Agree, Cached, Comparing;
    ghost var p1, p2 := Wrapped(|b|, i1), Wrapped(|b|, i2);
    left := budget;
    var decided;
    decided, gt := CompareBytes(block, i1, i2, b);
    if decided { return; }
    var j1, j2 := i1 + 12, i2 + 12;
    var k := nblock + 8;
    ghost var t := 12;
    while true
      invariant -8 <= k <= nblock + 8 && t == 12 + nblock + 8 - k && left <= budget
      invariant k >= 0 && j1 <= |b| + 26 && j2 <= |b| + 26 && Comparing(b, p1, p2, t, j1, j2)
      decreases k
    {
      decided, gt := CompareEight(block, quadrant, j1, j2, b, p1, p2, t);
      if decided { return; }
      StartOver(b, p1, p2, t, j1, j2);
      WrapsBelow(b, p1, p2, t + 7, j1 + 7, j2 + 7);
      j1, j2 := j1 + 8, j2 + 8;
      if j1 >= nblock { j1 := j1 - nblock; }
      if j2 >= nblock { j2 := j2 - nblock; }
      t := t + 8;
      k := k - 8;
      left := left - 1;
      if k < 0 { break; }
    }
    AgreedAll(b, p1, p2, t, j1, j2);
    gt := false;
  }

  lemma WrapsBelow(b: seq<byte>, p1: int, p2: int, t: nat, i1: int, i2: int)
    requires Comparing(b, p1, p2, t, i1, i2)
    ensures i1 < |b| + OVERSHOOT && i2 < |b| + OVERSHOOT
  {
  }

  lemma AgreedAll(b: seq<byte>, p1: int, p2: int, t: nat, i1: int, i2: int)
    requires Comparing(b, p1, p2, t, i1, i2) && t >= |b|
    ensures Verdict(b, p1, p2, false)
  {
    AgreeFully(b, p1, p2, t);
  }
}
