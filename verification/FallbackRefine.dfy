/** The exponential radix sort: each pass turns an order on H characters into one on 2H. */
module FallbackRefine {
  import opened Bytes
  import opened Permutations
  import opened Rotations
  import opened Counting
  import opened Rearranging
  import opened BucketBits
  import opened Partitioning
  import opened FallbackQSort
  import opened FallbackOrder

  /** Every entry lies in the first-byte bucket of its byte. */
  ghost predicate InBuckets(b: seq<byte>, f: seq<int>) {
    && |f| == |b|
    && forall k :: 0 <= k < |f| ==> 0 <= f[k] < |b| && InBucket(b, f[k], k)
  }

  ghost predicate InBucket(b: seq<byte>, x: int, k: int)
    requires 0 <= x < |b|
  {
    var c: int := b[x];
    Below(b, c) <= k < Below(b, c + 1)
  }

  /** l..r is a class: header at l, none up to r, and the next header at r+1. */
  ghost predicate IsClass(hd: seq<bool>, l: int, r: int) {
    && 0 <= l <= r && r + 1 < |hd|
    && hd[l] && hd[r + 1]
    && forall i :: l < i <= r ==> !hd[i]
  }

  /** The entries of a class agree on h characters. */
  lemma {:induction false} ClassAgrees(b: seq<byte>, f: seq<int>, hd: seq<bool>, h: nat, r0: int, l: int, r: int,
        k: int)
    requires Refined(b, f, hd, h, r0) && r0 < l <= k <= r < |b| && IsClass(hd, l, r)
    ensures 0 <= f[l] < |b| && 0 <= f[k] < |b|
    ensures Cyclic(b, f[k], h) == Cyclic(b, f[l], h)
    decreases k
  {
    if l < k {
      ClassAgrees(b, f, hd, h, r0, l, r, k - 1);
      assert StepAt(b, f, hd, h, r0, k);
    }
  }

  /** A class rearranged keeps each entry's h-prefix. */
  lemma RearrangedClassAgrees(b: seq<byte>, f: seq<int>, g: seq<int>, hd: seq<bool>, h: nat, r0: int, l: int, r: int,
        k: int)
    requires Refined(b, f, hd, h, r0) && r0 < l <= r < |b| && IsClass(hd, l, r)
    requires Rearranged(f, g, l, r) && 0 <= k < |b|
    ensures 0 <= g[k] < |b| && 0 <= f[k] < |b| && Cyclic(b, g[k], h) == Cyclic(b, f[k], h)
    ensures k < l || r < k ==> g[k] == f[k]
  {
    if l <= k <= r {
      var j := RearrangedInside(f, g, l, r, k);
      ClassAgrees(b, f, hd, h, r0, l, r, j);
      ClassAgrees(b, f, hd, h, r0, l, r, k);
    } else {
      RearrangedOutside(f, g, l, r, k);
    }
  }

  ghost predicate NewRank(f: seq<int>, e: seq<int>, l: int, i: int)
    requires 0 <= l <= i < |f| && 0 <= f[i] < |e| && (i == l || 0 <= f[i - 1] < |e|)
  {
    i == l || e[f[i - 1]] != e[f[i]]
  }

  /** What the header-bit loop does to the bits of l..r. */
  ghost predicate HeadersMarked(f: seq<int>, e: seq<int>, hd: seq<bool>, hd': seq<bool>, l: int, r: int)
    requires 0 <= l <= r + 1 <= |f| && HaveClasses(f, e, l, r)
  {
    && |hd'| == |hd|
    && (forall i :: 0 <= i < |hd| && (i < l || r < i) ==> (hd'[i] <==> hd[i]))
    && forall i :: l <= i <= r && i < |hd| ==>
      (hd'[i] <==> hd[i] || NewRank(f, e, l, i))
  }

  /** Each neighbouring pair after a class has been sorted by rank and marked. */
  lemma ClassRefinedAt(b: seq<byte>, f: seq<int>, g: seq<int>, e: seq<int>, hd: seq<bool>, hd': seq<bool>,
                       h: nat, r0: int, l: int, r: int, k: int)
    requires Refined(b, f, hd, h, r0) && Ranks(b, e, h) && -1 <= r0 < l <= r < |b| && IsClass(hd, l, r)
    requires AllSet(hd, r0 + 1, l)
    requires Rearranged(f, g, l, r) && HaveClasses(g, e, l, r) && SortedByClass(g, e, l, r)
    requires HeadersMarked(g, e, hd, hd', l, r)
    requires 0 < k < |b| && 0 <= g[k - 1] < |b| && 0 <= g[k] < |b|
    ensures StepAt(b, g, hd', h, r, k)
  {
    RearrangedClassAgrees(b, f, g, hd, h, r0, l, r, k - 1);
    RearrangedClassAgrees(b, f, g, hd, h, r0, l, r, k);
    assert StepAt(b, f, hd, h, r0, k);
    if r0 < k <= l {
      PrefixDecides(b, h, h, g[k - 1], g[k]);
    } else if l < k <= r {
      ClassAgrees(b, f, hd, h, r0, l, r, k - 1);
      ClassAgrees(b, f, hd, h, r0, l, r, k);
      assert RanksPair(b, e, h, g[k - 1], g[k]);
      RankDecides(b, e, h, g[k - 1], g[k]);
    }
  }

  lemma HeaderKept(f: seq<int>, e: seq<int>, hd: seq<bool>, hd': seq<bool>, l: int, r: int, i: int)
    requires 0 <= l <= r < |f| && HaveClasses(f, e, l, r) && HeadersMarked(f, e, hd, hd', l, r)
    requires 0 <= i < |hd| && hd[i]
    ensures hd'[i]
  {
  }

  lemma ClassRefined(b: seq<byte>, f: seq<int>, g: seq<int>, e: seq<int>, hd: seq<bool>, hd': seq<bool>,
                     h: nat, r0: int, l: int, r: int)
    requires Refined(b, f, hd, h, r0) && Ranks(b, e, h) && -1 <= r0 < l <= r < |b| && IsClass(hd, l, r)
    requires AllSet(hd, r0 + 1, l)
    requires Rearranged(f, g, l, r) && HaveClasses(g, e, l, r) && SortedByClass(g, e, l, r)
    requires HeadersMarked(g, e, hd, hd', l, r)
    ensures Refined(b, g, hd', h, r)
  {
    RearrangedPermutation(f, g, l, r);
    HeaderKept(g, e, hd, hd', l, r, 0);
    forall k | 0 < k < |g| ensures StepAt(b, g, hd', h, r, k) {
      ClassRefinedAt(b, f, g, e, hd, hd', h, r0, l, r, k);
    }
  }

  lemma ClassStaysInBuckets(b: seq<byte>, f: seq<int>, g: seq<int>, hd: seq<bool>, h: nat, r0: int, l: int, r: int)
    requires Refined(b, f, hd, h, r0) && -1 <= r0 < l <= r < |b| && IsClass(hd, l, r) && 0 < h
    requires Rearranged(f, g, l, r) && InBuckets(b, f)
    ensures InBuckets(b, g)
  {
    forall k | 0 <= k < |g| ensures 0 <= g[k] < |b| && InBucket(b, g[k], k) {
      RearrangedClassAgrees(b, f, g, hd, h, r0, l, r, k);
      assert Cyclic(b, g[k], h)[0] == b[g[k]] && Cyclic(b, f[k], h)[0] == b[f[k]];
    }
  }

  /** When every bit beyond r is set, the pass is complete. */
  lemma PassComplete(b: seq<byte>, f: seq<int>, hd: seq<bool>, h: nat, r: int)
    requires Refined(b, f, hd, h, r) && -1 <= r < |b| && h <= |b|
    requires AllSet(hd, r + 1, |b|)
    ensures Refined(b, f, hd, h + h, -1)
  {
    var d := h + h;
    forall k | 0 < k < |f| ensures StepAt(b, f, hd, d, -1, k) {
      assert StepAt(b, f, hd, h, r, k);
      if r < k { PrefixDecides(b, h, h, f[k - 1], f[k]); }
    }
  }

  /** The first loop of a pass: j remembers the last header seen. */
  method WriteClasses(fmap: array<int>, eclass: array<int>, bhtab: array<uint32>, nblock: int, H: int, ghost m: nat)
    requires fmap != eclass && bhtab as object != eclass as object
    requires 0 < nblock == fmap.Length <= eclass.Length && 0 < H <= nblock && nblock < m <= 32 * bhtab.Length
    requires forall i :: 0 <= i < nblock ==> 0 <= fmap[i] < nblock
    requires forall i, j :: 0 <= i < j < nblock ==> fmap[i] != fmap[j]
    requires Headers(bhtab[..], m)[0]
    modifies eclass
    ensures forall i :: 0 <= i < nblock ==> eclass[Retreat(nblock, fmap[i], H)] == Start(Headers(bhtab[..], m), i)
  {
    hide Headers;
    ghost var hd := Headers(bhtab[..], m);
    var j := 0;
    for i := 0 to nblock
      invariant i > 0 ==> j == Start(hd, i - 1)
      invariant forall p :: 0 <= p < i ==> eclass[Retreat(nblock, fmap[p], H)] == Start(hd, p)
    {
      var header := TestBit(bhtab, i, m);
      if header { j := i; }
      var k := fmap[i] - H;
      if k < 0 { k := k + nblock; }
      assert k == Retreat(nblock, fmap[i], H);
      eclass[k] := j;
    }
  }

  /** The first loop of a pass, with what it means. */
  method AssignClasses(fmap: array<int>, eclass: array<int>, bhtab: array<uint32>, nblock: int, H: int,
        ghost b: seq<byte>)
    requires fmap != eclass && bhtab as object != eclass as object
    requires nblock == |b| == fmap.Length <= eclass.Length && 0 < H <= nblock && |b| + 2 <= 32 * bhtab.Length
    requires Refined(b, fmap[..], Headers(bhtab[..], |b| + 2), H, -1)
    modifies eclass
    ensures Ranks(b, eclass[..], H)
    ensures forall x :: 0 <= x < |b| ==> 0 <= eclass[x] < nblock
  {
    hide Ranks, RanksPair, StepAt, Cyclic;
    ghost var f, hd := fmap[..], Headers(bhtab[..], |b| + 2);
    WriteClasses(fmap, eclass, bhtab, nblock, H, |b| + 2);
    ClassesAreRanks(b, f, hd, eclass[..], H);
    forall x | 0 <= x < |b| ensures 0 <= eclass[x] < nblock {
      var i := PositionOf(f, Advance(|b|, x, H));
      assert eclass[Retreat(nblock, f[i], H)] == Start(hd, i);
    }
  }

  /** Scan a sorted class and generate header bits. */
  method MarkHeaders(fmap: array<int>, eclass: array<int>, bhtab: array<uint32>, l: int, r: int, ghost m: nat)
    requires bhtab as object != fmap as object && bhtab as object != eclass as object
    requires 0 <= l <= r < fmap.Length && r < m <= 32 * bhtab.Length
    requires HaveClasses(fmap[..], eclass[..], l, r)
    requires forall k :: l <= k <= r ==> eclass[fmap[k]] >= 0
    modifies bhtab
    ensures HeadersMarked(fmap[..], eclass[..], old(Headers(bhtab[..], m)), Headers(bhtab[..], m), l, r)
  {
    ghost var hd := Headers(bhtab[..], m);
    var cc := -1;
    for i := l to r + 1
      invariant cc == if i == l then -1 else eclass[fmap[i - 1]]
      invariant HeadersMarked(fmap[..], eclass[..], hd, Headers(bhtab[..], m), l, i - 1)
    {
      var cc1 := eclass[fmap[i]];
      if cc != cc1 {
        SetBit(bhtab, i, m);
        cc := cc1;
      }
    }
  }

  /** A class found by the scan is sorted by rank and marked: the refined part grows to r. */
  method RefineClass(fmap: array<int>, eclass: array<int>, bhtab: array<uint32>, l: int, r: int,
                     ghost b: seq<byte>, ghost h: nat, ghost r0: int)
    requires fmap != eclass && bhtab as object != fmap as object && bhtab as object != eclass as object
    requires fmap.Length == |b| <= eclass.Length && |b| < 0x8000_0000 && 0 < h && |b| + 2 <= 32 * bhtab.Length
    requires -1 <= r0 < l <= r < |b| && IsClass(Headers(bhtab[..], |b| + 2), l, r)
    requires AllSet(Headers(bhtab[..], |b| + 2), r0 + 1, l)
    requires Refined(b, fmap[..], Headers(bhtab[..], |b| + 2), h, r0) && InBuckets(b, fmap[..])
    requires Ranks(b, eclass[..], h)
    requires forall x :: 0 <= x < |b| ==> eclass[x] >= 0
    modifies fmap, bhtab
    ensures Refined(b, fmap[..], Headers(bhtab[..], |b| + 2), h, r) && InBuckets(b, fmap[..])
    ensures Headers(bhtab[..], |b| + 2)[r + 1]
  {
    ghost var f, hd := fmap[..], Headers(bhtab[..], |b| + 2);
    QSort3(fmap, eclass, l, r);
    ghost var g := fmap[..];
    forall k | l <= k <= r ensures 0 <= g[k] < |b| {
      RearrangedClassAgrees(b, f, g, hd, h, r0, l, r, k);
    }
    MarkHeaders(fmap, eclass, bhtab, l, r, |b| + 2);
    ClassRefined(b, f, g, eclass[..], hd, Headers(bhtab[..], |b| + 2), h, r0, l, r);
    ClassStaysInBuckets(b, f, g, hd, h, r0, l, r);
  }

  lemma RefinedEnds(b: seq<byte>, f: seq<int>, hd: seq<bool>, h: nat, r: int)
    requires Refined(b, f, hd, h, r)
    ensures 0 < |b| == |f| && |hd| == |b| + 2 && hd[0] && hd[|b|] && !hd[|b| + 1]
  {
  }

  /** Find and refine every class of more than one entry. */
  method RefineClasses(fmap: array<int>, eclass: array<int>, bhtab: array<uint32>, nblock: int,
                       ghost b: seq<byte>, ghost h: nat)
    returns (nNotDone: int)
    requires fmap != eclass && bhtab as object != fmap as object && bhtab as object != eclass as object
    requires nblock == fmap.Length == |b| <= eclass.Length && |b| < 0x8000_0000 && 0 < h <= nblock
    requires |b| + 2 <= 32 * bhtab.Length
    requires Refined(b, fmap[..], Headers(bhtab[..], |b| + 2), h, -1) && InBuckets(b, fmap[..])
    requires Ranks(b, eclass[..], h)
    requires forall x :: 0 <= x < |b| ==> eclass[x] >= 0
    modifies fmap, bhtab
    ensures Refined(b, fmap[..], Headers(bhtab[..], |b| + 2), h + h, -1) && InBuckets(b, fmap[..])
    ensures nNotDone == 0 ==> AllSet(Headers(bhtab[..], |b| + 2), 0, nblock)
  {
    hide Refined, InBuckets, Ranks, Headers;
    RefinedEnds(b, fmap[..], Headers(bhtab[..], |b| + 2), h, -1);
    nNotDone := 0;
    var r := -1;
    while true
      invariant -1 <= r < nblock
      invariant Refined(b, fmap[..], Headers(bhtab[..], |b| + 2), h, r) && InBuckets(b, fmap[..])
      invariant Headers(bhtab[..], |b| + 2)[r + 1]
      invariant nNotDone >= 0 && (nNotDone == 0 ==> r == -1)
      decreases nblock - r
    {
      RefinedEnds(b, fmap[..], Headers(bhtab[..], |b| + 2), h, r);
      // find the next non-singleton bucket
      var k := SkipSet(bhtab, r + 1, nblock + 1, nblock + 2);
      var l := k - 1;
      if l >= nblock { break; }
      assert l < k && !Headers(bhtab[..], |b| + 2)[k];
      k := SkipClear(bhtab, k, nblock, nblock + 2);
      ghost var r0 := r;
      r := k - 1;
      if r >= nblock { break; }
      // now [l, r] bracket the current bucket
      if r > l {
        nNotDone := nNotDone + (r - l + 1);
        RefineClass(fmap, eclass, bhtab, l, r, b, h, r0);
      }
    }
    PassComplete(b, fmap[..], Headers(bhtab[..], |b| + 2), h, r);
  }

  /** Sorted on h characters with every entry its own class, or on at least a whole turn: then
      the rotations are in order. */
  lemma RefinedIsSorted(b: seq<byte>, f: seq<int>, hd: seq<bool>, h: nat)
    requires Refined(b, f, hd, h, -1)
    requires h > |b| || AllSet(hd, 0, |b|)
    ensures SortedOrder(b, f)
  {
    hide Cyclic, Rotation;
    forall p, q | 0 <= p <= q < |b| ensures LexLe(Rotation(b, f[p]), Rotation(b, f[q])) {
      ClassesInOrder(b, f, hd, h, p, q);
      var n := |b|;
      RotationIsCyclic(b, f[p]);
      RotationIsCyclic(b, f[q]);
      if h >= n {
        CyclicSplit(b, f[p], n, h - n);
        CyclicSplit(b, f[q], n, h - n);
        var s, t := Cyclic(b, Advance(n, f[p], n), h - n), Cyclic(b, Advance(n, f[q], n), h - n);
        LexConcat(Cyclic(b, f[p], n), s, Cyclic(b, f[q], n), t);
        LexTotal(Cyclic(b, f[p], n), Cyclic(b, f[q], n));
      } else if p < q {
        assert Start(hd, q) == q;
        PrefixDecides(b, h, n - h, f[p], f[q]);
      }
    }
  }

  /** One pass of the log(N) loop. */
  method OnePass(fmap: array<int>, eclass: array<int>, bhtab: array<uint32>, nblock: int, H: int, ghost b: seq<byte>)
    returns (nNotDone: int, H': int)
    requires fmap != eclass && bhtab as object != fmap as object && bhtab as object != eclass as object
    requires nblock == fmap.Length == |b| <= eclass.Length && |b| < 0x8000_0000 && 0 < H <= nblock
    requires |b| + 2 <= 32 * bhtab.Length
    requires Refined(b, fmap[..], Headers(bhtab[..], |b| + 2), H, -1) && InBuckets(b, fmap[..])
    modifies fmap, eclass, bhtab
    ensures H' == 2 * H
    ensures Refined(b, fmap[..], Headers(bhtab[..], |b| + 2), H', -1) && InBuckets(b, fmap[..])
    ensures H' > nblock || nNotDone == 0 ==> SortedOrder(b, fmap[..])
    ensures forall x :: 0 <= x < |b| ==> 0 <= eclass[x] < nblock
  {
    AssignClasses(fmap, eclass, bhtab, nblock, H, b);
    nNotDone := RefineClasses(fmap, eclass, bhtab, nblock, b, H);
    H' := H * 2;
    if H' > nblock || nNotDone == 0 { RefinedIsSorted(b, fmap[..], Headers(bhtab[..], |b| + 2), H'); }
  }

  /** The log(N) loop. */
  method RefineAll(fmap: array<int>, eclass: array<int>, bhtab: array<uint32>, nblock: int, ghost b: seq<byte>)
    requires fmap != eclass && bhtab as object != fmap as object && bhtab as object != eclass as object
    requires 0 < nblock == fmap.Length == |b| <= eclass.Length && |b| < 0x8000_0000
    requires |b| + 2 <= 32 * bhtab.Length
    requires Refined(b, fmap[..], Headers(bhtab[..], |b| + 2), 1, -1) && InBuckets(b, fmap[..])
    modifies fmap, eclass, bhtab
    ensures SortedOrder(b, fmap[..]) && InBuckets(b, fmap[..])
    ensures forall x :: 0 <= x < |b| ==> 0 <= eclass[x] < nblock
  {
    var H, nNotDone := 1, 1;
    while true
      invariant 0 < H <= nblock
      invariant Refined(b, fmap[..], Headers(bhtab[..], |b| + 2), H, -1) && InBuckets(b, fmap[..])
      decreases nblock - H
    {
      nNotDone, H := OnePass(fmap, eclass, bhtab, nblock, H, b);
      if H > nblock || nNotDone == 0 { break; }
    }
  }
}
