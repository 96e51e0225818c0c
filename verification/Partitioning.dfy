/** 3-way partitioning of a stretch of an array of positions around a class, as both quicksorts of
    the block sorter do it. e gives the class of each position. */
module Partitioning {
  import opened Rearranging

  /** fmap entries lo..hi are positions that have an equivalence class. */
  ghost predicate HaveClasses(f: seq<int>, e: seq<int>, lo: int, hi: int)
    requires 0 <= lo <= hi + 1 <= |f|
  {
    forall k :: lo <= k <= hi ==> 0 <= f[k] < |e|
  }

  ghost predicate SortedByClass(f: seq<int>, e: seq<int>, lo: int, hi: int)
    requires 0 <= lo <= hi + 1 <= |f| && HaveClasses(f, e, lo, hi)
  {
    forall p, q :: lo <= p <= q <= hi ==> e[f[p]] <= e[f[q]]
  }

  lemma HaveClassesRearranged(a: seq<int>, b: seq<int>, e: seq<int>, lo: int, hi: int, lo': int, hi': int)
    requires 0 <= lo' <= lo <= hi + 1 <= hi' + 1 <= |a|
    requires Rearranged(a, b, lo, hi) && HaveClasses(a, e, lo', hi')
    ensures HaveClasses(b, e, lo', hi')
  {
    forall k | lo' <= k <= hi' ensures 0 <= b[k] < |e| {
      if lo <= k <= hi {
        var j := RearrangedInside(a, b, lo, hi, k);
      } else {
        RearrangedOutside(a, b, lo, hi, k);
      }
    }
  }

  method Swap(fmap: array<int>, i: int, j: int)
    requires 0 <= i < fmap.Length && 0 <= j < fmap.Length
    modifies fmap
    ensures fmap[..] == Swapped(old(fmap[..]), i, j)
  {
    fmap[i], fmap[j] := fmap[j], fmap[i];
  }

  /** 3-way partitioning in progress: equal elements are parked at both ends, smaller ones lie
      before unLo, larger ones after unHi. */
  ghost predicate Parted(f: seq<int>, e: seq<int>, lo: int, hi: int, lt: int, un: int, uh: int, gt: int, med: int) {
    && 0 <= lo <= lt <= un <= uh + 1 && uh <= gt <= hi < |f|
    && HaveClasses(f, e, lo, hi)
    && (forall k :: lo <= k < lt ==> e[f[k]] == med)
    && (forall k :: lt <= k < un ==> e[f[k]] < med)
    && (forall k :: uh < k <= gt ==> e[f[k]] > med)
    && (forall k :: gt < k <= hi ==> e[f[k]] == med)
  }

  /** One round of partitioning keeps this: a rearrangement that is parted. */
  ghost predicate PartedFrom(a: seq<int>, f: seq<int>, e: seq<int>, lo: int, hi: int,
                             lt: int, un: int, uh: int, gt: int, med: int)
  {
    Parted(f, e, lo, hi, lt, un, uh, gt, med) && hi < |a| && Rearranged(a, f, lo, hi)
  }

  lemma ParkLow(a: seq<int>, f: seq<int>, e: seq<int>, lo: int, hi: int, lt: int, un: int, uh: int, gt: int, med: int)
    requires PartedFrom(a, f, e, lo, hi, lt, un, uh, gt, med) && un <= uh && e[f[un]] == med
    ensures PartedFrom(a, Swapped(f, un, lt), e, lo, hi, lt + 1, un + 1, uh, gt, med)
  {
    SwapRearranges(f, un, lt, lo, hi);
    RearrangedTwice(a, f, Swapped(f, un, lt), lo, hi);
  }

  lemma ParkHigh(a: seq<int>, f: seq<int>, e: seq<int>, lo: int, hi: int, lt: int, un: int, uh: int, gt: int, med: int)
    requires PartedFrom(a, f, e, lo, hi, lt, un, uh, gt, med) && un <= uh && e[f[uh]] == med
    ensures PartedFrom(a, Swapped(f, uh, gt), e, lo, hi, lt, un, uh - 1, gt - 1, med)
    ensures un < uh ==> Swapped(f, uh, gt)[un] == f[un]
  {
    SwapRearranges(f, uh, gt, lo, hi);
    RearrangedTwice(a, f, Swapped(f, uh, gt), lo, hi);
  }

  lemma Exchange(a: seq<int>, f: seq<int>, e: seq<int>, lo: int, hi: int, lt: int, un: int, uh: int, gt: int, med: int)
    requires PartedFrom(a, f, e, lo, hi, lt, un, uh, gt, med) && un < uh
    requires e[f[un]] > med && e[f[uh]] < med
    ensures PartedFrom(a, Swapped(f, un, uh), e, lo, hi, lt, un + 1, uh - 1, gt, med)
  {
    SwapRearranges(f, un, uh, lo, hi);
    RearrangedTwice(a, f, Swapped(f, un, uh), lo, hi);
  }

  /** The left inner loop: stops at an element above med or past unHi. */
  method ScanLow(fmap: array<int>, e: seq<int>, lo: int, hi: int, ltLo: int, unLo: int, unHi: int,
                 gtHi: int, med: int, ghost a: seq<int>)
    returns (lt: int, un: int)
    requires PartedFrom(a, fmap[..], e, lo, hi, ltLo, unLo, unHi, gtHi, med)
    modifies fmap
    ensures PartedFrom(a, fmap[..], e, lo, hi, lt, un, unHi, gtHi, med)
    ensures unLo <= un && (un <= unHi ==> e[fmap[un]] > med)
  {
    hide Rearranged;
    lt, un := ltLo, unLo;
    while un <= unHi
      invariant PartedFrom(a, fmap[..], e, lo, hi, lt, un, unHi, gtHi, med)
      invariant unLo <= un
    {
      var n := e[fmap[un]] - med;
      if n == 0 {
        ParkLow(a, fmap[..], e, lo, hi, lt, un, unHi, gtHi, med);
        Swap(fmap, un, lt);
        lt, un := lt + 1, un + 1;
        continue;
      }
      if n > 0 { break; }
      un := un + 1;
    }
  }

  method SwapHigh(fmap: array<int>, e: seq<int>, lo: int, hi: int, lt: int, un: int, uh: int,
                  gt: int, med: int, ghost a: seq<int>)
    requires PartedFrom(a, fmap[..], e, lo, hi, lt, un, uh, gt, med)
    requires un <= uh && e[fmap[uh]] == med && e[fmap[un]] > med
    modifies fmap
    ensures PartedFrom(a, fmap[..], e, lo, hi, lt, un, uh - 1, gt - 1, med)
    ensures fmap[un] == old(fmap[un])
  {
    ParkHigh(a, fmap[..], e, lo, hi, lt, un, uh, gt, med);
    Swap(fmap, uh, gt);
  }

  /** The right inner loop: stops at an element below med or before unLo. */
  method ScanHigh(fmap: array<int>, e: seq<int>, lo: int, hi: int, ltLo: int, unLo: int, unHi: int,
                  gtHi: int, med: int, ghost a: seq<int>)
    returns (uh: int, gt: int)
    requires PartedFrom(a, fmap[..], e, lo, hi, ltLo, unLo, unHi, gtHi, med)
    requires unLo <= unHi ==> e[fmap[unLo]] > med
    modifies fmap
    ensures PartedFrom(a, fmap[..], e, lo, hi, ltLo, unLo, uh, gt, med)
    ensures uh <= unHi
    ensures unLo <= uh ==> unLo < uh && e[fmap[unLo]] > med && e[fmap[uh]] < med
  {
    hide Rearranged;
    uh, gt := unHi, gtHi;
    while unLo <= uh
      invariant PartedFrom(a, fmap[..], e, lo, hi, ltLo, unLo, uh, gt, med)
      invariant unLo <= uh ==> e[fmap[unLo]] > med
      invariant uh <= unHi
    {
      var n := e[fmap[uh]] - med;
      if n == 0 {
        SwapHigh(fmap, e, lo, hi, ltLo, unLo, uh, gt, med, a);
        gt, uh := gt - 1, uh - 1;
        continue;
      }
      if n < 0 { break; }
      uh := uh - 1;
    }
  }

  /** The partitioning loop. */
  method PartitionStretch(fmap: array<int>, e: seq<int>, lo: int, hi: int, med: int)
    returns (lt: int, un: int, uh: int, gt: int)
    requires 0 <= lo <= hi < fmap.Length && HaveClasses(fmap[..], e, lo, hi)
    modifies fmap
    ensures PartedFrom(old(fmap[..]), fmap[..], e, lo, hi, lt, un, uh, gt, med)
    ensures uh == un - 1
  {
    un, lt := lo, lo;
    uh, gt := hi, hi;
    while true
      invariant PartedFrom(old(fmap[..]), fmap[..], e, lo, hi, lt, un, uh, gt, med)
      decreases uh - un + 2
    {
      lt, un := ScanLow(fmap, e, lo, hi, lt, un, uh, gt, med, old(fmap[..]));
      uh, gt := ScanHigh(fmap, e, lo, hi, lt, un, uh, gt, med, old(fmap[..]));
      if un > uh { break; }
      Exchange(old(fmap[..]), fmap[..], e, lo, hi, lt, un, uh, gt, med);
      Swap(fmap, un, uh);
      un, uh := un + 1, uh - 1;
    }
  }

  /** f after its n elements at p1 and its n elements at p2 have changed places. */
  ghost predicate BlocksSwapped(a: seq<int>, f: seq<int>, p1: int, p2: int, n: int)
    requires 0 <= p1 && 0 <= n && p1 + n <= p2 && p2 + n <= |a|
  {
    && |f| == |a|
    && (forall k :: p1 <= k < p1 + n ==> f[k] == a[k - p1 + p2])
    && (forall k :: p2 <= k < p2 + n ==> f[k] == a[k - p2 + p1])
    && (forall k :: 0 <= k < p1 || p1 + n <= k < p2 || p2 + n <= k < |a| ==> f[k] == a[k])
  }

  lemma BlocksSwappedStep(a: seq<int>, f: seq<int>, p1: int, p2: int, i: int, n: int)
    requires 0 <= p1 && 0 <= i < n && p1 + n <= p2 && p2 + n <= |a|
    requires BlocksSwapped(a, f, p1, p2, i)
    ensures BlocksSwapped(a, Swapped(f, p1 + i, p2 + i), p1, p2, i + 1)
  {
    assert f[p1 + i] == a[p1 + i] && f[p2 + i] == a[p2 + i];
  }

  lemma BlocksSwappedRearranges(a: seq<int>, f: seq<int>, p1: int, p2: int, n: int, lo: int, hi: int)
    requires 0 <= lo <= p1 && 0 <= n && p1 + n <= p2 && p2 + n <= hi + 1 <= |a|
    requires BlocksSwapped(a, f, p1, p2, n)
    ensures Rearranged(a, f, lo, hi)
  {
    var q1, q2 := p1 + n, p2 + n;
    SwappedPartsUnchanged(a, f, p1, p2, n, 0, lo);
    SwappedPartsUnchanged(a, f, p1, p2, n, lo, p1);
    SwappedPartsUnchanged(a, f, p1, p2, n, q1, p2);
    SwappedPartsUnchanged(a, f, p1, p2, n, q2, hi + 1);
    SwappedPartsUnchanged(a, f, p1, p2, n, hi + 1, |a|);
    SwappedPartsMoved(a, f, p1, p2, n);
    PartsRearranged(a, f, lo, p1, q1, p2, q2, hi + 1);
  }

  lemma PartsRearranged(a: seq<int>, f: seq<int>, i: int, j: int, k: int, l: int, m: int, n: int)
    requires 0 <= i <= j <= k <= l <= m <= n <= |a| == |f|
    requires f[0..i] == a[0..i] && f[i..j] == a[i..j] && f[k..l] == a[k..l] && f[m..n] == a[m..n]
    requires f[n..|a|] == a[n..|a|]
    requires f[j..k] == a[l..m] && f[l..m] == a[j..k]
    ensures Rearranged(a, f, i, n - 1)
  {
    FiveParts(a, i, j, k, l, m, n);
    FiveParts(f, i, j, k, l, m, n);
  }

  lemma SwappedPartsUnchanged(a: seq<int>, f: seq<int>, p1: int, p2: int, n: int, i: int, j: int)
    requires 0 <= p1 && 0 <= n && p1 + n <= p2 && p2 + n <= |a| && BlocksSwapped(a, f, p1, p2, n)
    requires 0 <= i <= j <= p1 || p1 + n <= i <= j <= p2 || p2 + n <= i <= j <= |a|
    ensures f[i..j] == a[i..j]
  {
  }

  lemma SwappedPartsMoved(a: seq<int>, f: seq<int>, p1: int, p2: int, n: int)
    requires 0 <= p1 && 0 <= n && p1 + n <= p2 && p2 + n <= |a| && BlocksSwapped(a, f, p1, p2, n)
    ensures f[p1..p1 + n] == a[p2..p2 + n] && f[p2..p2 + n] == a[p1..p1 + n]
  {
  }

  lemma FiveParts(a: seq<int>, i: int, j: int, k: int, l: int, m: int, n: int)
    requires 0 <= i <= j <= k <= l <= m <= n <= |a|
    ensures multiset(a[i..n])
         == multiset(a[i..j]) + multiset(a[j..k]) + multiset(a[k..l]) + multiset(a[l..m]) + multiset(a[m..n])
  {
    TwoParts(a, i, j, n);
    TwoParts(a, j, k, n);
    TwoParts(a, k, l, n);
    TwoParts(a, l, m, n);
  }

  lemma TwoParts(a: seq<int>, i: int, j: int, k: int)
    requires 0 <= i <= j <= k <= |a|
    ensures multiset(a[i..k]) == multiset(a[i..j]) + multiset(a[j..k])
  {
    assert a[i..k] == a[i..j] + a[j..k];
  }

  /** fvswap */
  method SwapBlocks(fmap: array<int>, p1: int, p2: int, n: int, ghost lo: int, ghost hi: int)
    requires 0 <= lo <= p1 && 0 <= n && p1 + n <= p2 && p2 + n <= hi + 1 <= fmap.Length
    modifies fmap
    ensures BlocksSwapped(old(fmap[..]), fmap[..], p1, p2, n)
    ensures Rearranged(old(fmap[..]), fmap[..], lo, hi)
  {
    ghost var a := fmap[..];
    for i := 0 to n
      invariant BlocksSwapped(a, fmap[..], p1, p2, i)
    {
      BlocksSwappedStep(a, fmap[..], p1, p2, i, n);
      Swap(fmap, p1 + i, p2 + i);
    }
    BlocksSwappedRearranges(a, fmap[..], p1, p2, n, lo, hi);
  }

  /** lo..n below med, n+1..m-1 equal to it, m..hi above it. */
  ghost predicate ThreeParts(f: seq<int>, e: seq<int>, lo: int, hi: int, n: int, m: int, med: int) {
    && 0 <= lo <= n + 1 <= m <= hi + 1 <= |f| && HaveClasses(f, e, lo, hi)
    && (forall k :: lo <= k <= n ==> e[f[k]] < med)
    && (forall k :: n < k < m ==> e[f[k]] == med)
    && (forall k :: m <= k <= hi ==> e[f[k]] > med)
  }

  /** The low side gathered: lo..s-1 below med, s..un-1 equal to it; the high side as parted. */
  ghost predicate LowGathered(f: seq<int>, e: seq<int>, lo: int, hi: int, s: int, un: int, gt: int, med: int) {
    && 0 <= lo <= s <= un <= gt + 1 && gt <= hi < |f| && HaveClasses(f, e, lo, hi)
    && (forall k :: lo <= k < s ==> e[f[k]] < med)
    && (forall k :: s <= k < un ==> e[f[k]] == med)
    && (forall k :: un <= k <= gt ==> e[f[k]] > med)
    && (forall k :: gt < k <= hi ==> e[f[k]] == med)
  }

  /** The parked elements of the low side are moved to the middle. */
  lemma LowToMiddle(f: seq<int>, g: seq<int>, e: seq<int>, lo: int, hi: int, lt: int, un: int, gt: int, med: int,
        n: int)
    requires Parted(f, e, lo, hi, lt, un, un - 1, gt, med)
    requires n == (if lt - lo < un - lt then lt - lo else un - lt)
    requires BlocksSwapped(f, g, lo, un - n, n) && HaveClasses(g, e, lo, hi)
    ensures LowGathered(g, e, lo, hi, lo + un - lt, un, gt, med)
  {
    forall k | lo <= k < lo + un - lt ensures e[g[k]] < med {
      var j := if k < lo + n then k - lo + un - n else k;
      assert g[k] == f[j] && lt <= j < un;
    }
    forall k | lo + un - lt <= k < un ensures e[g[k]] == med {
      var j := if k >= un - n then k - un + n + lo else k;
      assert g[k] == f[j] && lo <= j < lt;
    }
  }

  /** The parked elements of the high side are moved to the middle. */
  lemma HighToMiddle(f: seq<int>, g: seq<int>, e: seq<int>, lo: int, hi: int, s: int, un: int, gt: int, med: int,
        m: int)
    requires LowGathered(f, e, lo, hi, s, un, gt, med)
    requires m == (if hi - gt < gt - un + 1 then hi - gt else gt - un + 1)
    requires BlocksSwapped(f, g, un, hi - m + 1, m) && HaveClasses(g, e, lo, hi)
    ensures ThreeParts(g, e, lo, hi, s - 1, hi - (gt - un), med)
  {
    var top := hi - (gt - un);
    forall k | s <= k < top ensures e[g[k]] == med {
      var j := if un <= k < un + m then k - un + hi - m + 1 else k;
      assert g[k] == f[j];
    }
    forall k | top <= k <= hi ensures e[g[k]] > med {
      var j := if k >= hi - m + 1 then k - (hi - m + 1) + un else k;
      assert g[k] == f[j];
    }
  }

  method GatherLow(fmap: array<int>, e: seq<int>, lo: int, hi: int, lt: int, un: int, gt: int, med: int)
    requires Parted(fmap[..], e, lo, hi, lt, un, un - 1, gt, med)
    modifies fmap
    ensures Rearranged(old(fmap[..]), fmap[..], lo, hi)
    ensures LowGathered(fmap[..], e, lo, hi, lo + un - lt, un, gt, med)
  {
    ghost var a := fmap[..];
    var n := if lt - lo < un - lt then lt - lo else un - lt;
    SwapBlocks(fmap, lo, un - n, n, lo, hi);
    HaveClassesRearranged(a, fmap[..], e, lo, hi, lo, hi);
    LowToMiddle(a, fmap[..], e, lo, hi, lt, un, gt, med, n);
  }

  method GatherHigh(fmap: array<int>, e: seq<int>, lo: int, hi: int, un: int, gt: int,
                    ghost s: int, ghost med: int)
    requires LowGathered(fmap[..], e, lo, hi, s, un, gt, med)
    modifies fmap
    ensures Rearranged(old(fmap[..]), fmap[..], lo, hi)
    ensures ThreeParts(fmap[..], e, lo, hi, s - 1, hi - (gt - un), med)
  {
    ghost var a := fmap[..];
    var m := if hi - gt < gt - un + 1 then hi - gt else gt - un + 1;
    SwapBlocks(fmap, un, hi - m + 1, m, lo, hi);
    HaveClassesRearranged(a, fmap[..], e, lo, hi, lo, hi);
    HighToMiddle(a, fmap[..], e, lo, hi, s, un, gt, med, m);
  }

  /** The two fvswaps. */
  method Gather(fmap: array<int>, e: seq<int>, lo: int, hi: int, lt: int, un: int, gt: int, med: int)
    requires Parted(fmap[..], e, lo, hi, lt, un, un - 1, gt, med)
    modifies fmap
    ensures Rearranged(old(fmap[..]), fmap[..], lo, hi)
    ensures ThreeParts(fmap[..], e, lo, hi, lo + un - lt - 1, hi - (gt - un), med)
  {
    ghost var a := fmap[..];
    GatherLow(fmap, e, lo, hi, lt, un, gt, med);
    ghost var b := fmap[..];
    GatherHigh(fmap, e, lo, hi, un, gt, lo + un - lt, med);
    RearrangedTwice(a, b, fmap[..], lo, hi);
  }
}
