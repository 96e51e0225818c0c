/** The order in which mainSort takes the big buckets: a shell sort of 0..255 by bucket size. */
module RunningOrder {
  import opened Permutations
  import opened Rearranging
  import opened Partitioning
  import opened MainSimpleSort

  /** BIGFREQ(x) */
  function BigFreq(ftab: seq<int>, x: int): int
    requires |ftab| == 65537 && 0 <= x < 256
  {
    ftab[(x + 1) * 256] - ftab[x * 256]
  }

  ghost function Sizes(ftab: seq<int>): (r: seq<int>)
    requires |ftab| == 65537
    ensures |r| == 256
  {
    seq(256, x requires 0 <= x < 256 => BigFreq(ftab, x))
  }

  /** The state of an insertion, as in Inserting but by bucket size. */
  ghost predicate Moving(a: seq<int>, now: seq<int>, e: seq<int>, i: int, h: int, v: int, j: int) {
    && 0 <= j <= i < |a| && 0 <= v < |e| && HaveClasses(a, e, 0, i) && HoleAt(a, now, 0, i, v, j)
    && (h == 1 ==> ShiftedUp(a, now, e, 0, i, v, j))
  }

  lemma MovingStep(a: seq<int>, now: seq<int>, e: seq<int>, i: int, h: int, v: int, j: int)
    requires Moving(a, now, e, i, h, v, j) && 1 <= h <= j
    requires 0 <= now[j - h] < |e| && e[v] <= e[now[j - h]]
    ensures Moving(a, now[j := now[j - h]], e, i, h, v, j - h)
  {
    hide Rearranged;
    HoleMoves(a, now, 0, i, v, j, j - h);
    if h == 1 { ShiftedUpMoves(a, now, e, 0, i, v, j); }
  }

  lemma MovingReads(a: seq<int>, now: seq<int>, e: seq<int>, i: int, h: int, v: int, j: int, k: int)
    requires Moving(a, now, e, i, h, v, j) && 0 <= k <= i && k != j
    ensures 0 <= now[k] < |e|
  {
    HaveClassesRearranged(a, now[j := v], e, 0, i, 0, i);
    assert now[j := v][k] == now[k];
  }

  lemma MovingEnds(a: seq<int>, now: seq<int>, e: seq<int>, i: int, h: int, v: int, j: int)
    requires Moving(a, now, e, i, h, v, j)
    requires h == 1 && j > 0 ==> 0 <= now[j - 1] < |e| && e[now[j - 1]] <= e[v]
    ensures |now| == |a| && Rearranged(a, now[j := v], 0, i) && HaveClasses(now[j := v], e, 0, i)
    ensures HaveClasses(a, e, 0, i) && (h == 1 && SortedByClass(a, e, 0, i - 1) ==> SortedByClass(now[j := v], e, 0, i))
  {
    HaveClassesRearranged(a, now[j := v], e, 0, i, 0, i);
    hide Rearranged;
    if h == 1 && SortedByClass(a, e, 0, i - 1) { InsertedUp(a, now, now[j := v], e, 0, i, v, j); }
  }

  /** One insertion. */
  method Insert(order: array<int>, ftab: seq<int>, i: int, h: int)
    requires |ftab| == 65537 && order.Length == 256 && 1 <= h <= i < 256 && HaveClasses(order[..], Sizes(ftab), 0, 255)
    modifies order
    ensures Rearranged(old(order[..]), order[..], 0, 255) && HaveClasses(order[..], Sizes(ftab), 0, 255)
    ensures h == 1 && SortedByClass(old(order[..]), Sizes(ftab), 0, i - 1) ==>
          SortedByClass(order[..], Sizes(ftab), 0, i)
  {
    hide Rearranged, Moving, SortedByClass;
    ghost var a, e := order[..], Sizes(ftab);
    var vv, j := order[i], i;
    MovingStarts(a, e, i, h);
    MovingReads(a, a, e, i, h, vv, i, i - h);
    while BigFreq(ftab, order[j - h]) > BigFreq(ftab, vv)
      invariant h <= j <= i && Moving(a, order[..], e, i, h, vv, j) && 0 <= order[j - h] < 256
      decreases j
    {
      MovingStep(a, order[..], e, i, h, vv, j);
      Store(order, j, order[j - h]);
      j := j - h;
      if j <= h - 1 { break; }
      MovingReads(a, order[..], e, i, h, vv, j, j - h);
    }
    MovingEnds(a, order[..], e, i, h, vv, j);
    Store(order, j, vv);
    RearrangedWider(a, order[..], 0, i, 0, 255);
    HaveClassesRearranged(a, order[..], e, 0, 255, 0, 255);
  }

  lemma MovingStarts(a: seq<int>, e: seq<int>, i: int, h: int)
    requires 0 <= i < |a| && HaveClasses(a, e, 0, |a| - 1)
    ensures 0 <= a[i] < |e| && Moving(a, a, e, i, h, a[i], i)
  {
    HoleStarts(a, 0, i, i);
  }

  /** The big buckets, smallest first. */
  method Compute(ftab: seq<int>) returns (order: array<int>)
    requires |ftab| == 65537
    ensures fresh(order) && order.Length == 256 && Permutation(order[..])
    ensures forall x, y :: 0 <= x <= y < 256 ==> BigFreq(ftab, order[x]) <= BigFreq(ftab, order[y])
  {
    hide Rearranged;
    order := new int[256];
    for i := 0 to 256
      invariant forall k :: 0 <= k < i ==> order[k] == k
    {
      order[i] := i;
    }
    ghost var a := order[..];
    assert Permutation(a);
    NotRearranged(a, 0, 255);
    var h := 1;
    h := 3 * h + 1;
    while h <= 256
      invariant h in {4, 13, 40, 121, 364}
      decreases 256 - h
    {
      h := 3 * h + 1;
    }
    h := h / 3;
    SortPass(order, ftab, h, a);
    while h != 1
      invariant h in {1, 4, 13, 40, 121} && Rearranged(a, order[..], 0, 255)
      invariant HaveClasses(order[..], Sizes(ftab), 0, 255)
      invariant h == 1 ==> SortedByClass(order[..], Sizes(ftab), 0, 255)
    {
      h := h / 3;
      SortPass(order, ftab, h, a);
    }
    RearrangedPermutation(a, order[..], 0, 255);
  }

  /** One pass with stride h. */
  method SortPass(order: array<int>, ftab: seq<int>, h: int, ghost a: seq<int>)
    requires |ftab| == 65537 && order.Length == |a| == 256 && 1 <= h < 256
    requires Rearranged(a, order[..], 0, 255) && HaveClasses(order[..], Sizes(ftab), 0, 255)
    modifies order
    ensures Rearranged(a, order[..], 0, 255) && HaveClasses(order[..], Sizes(ftab), 0, 255)
    ensures h == 1 ==> SortedByClass(order[..], Sizes(ftab), 0, 255)
  {
    hide Rearranged, Sizes;
    for i := h to 256
      invariant Rearranged(a, order[..], 0, 255) && HaveClasses(order[..], Sizes(ftab), 0, 255)
      invariant h == 1 ==> SortedByClass(order[..], Sizes(ftab), 0, i - 1)
    {
      ghost var f := order[..];
      Insert(order, ftab, i, h);
      RearrangedTwice(a, f, order[..], 0, 255);
    }
  }
}
