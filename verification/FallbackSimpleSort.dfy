/** fallbackSimpleSort: sorting a short stretch of fmap by equivalence class with an insertion sort. */
module FallbackSimpleSort {
  import opened Rearranging
  import opened Partitioning

  /** With gap one, everything the hole has passed was smaller than tmp and moved down a place. */
  ghost predicate Shifted(a: seq<int>, now: seq<int>, e: seq<int>, i: int, hi: int, tmp: int, h: int)
    requires 0 <= i <= hi < |a| && HaveClasses(a, e, i, hi) && 0 <= tmp < |e|
  {
    && |now| == |a| && i <= h <= hi
    && (forall k :: 0 <= k < i || h < k < |a| ==> now[k] == a[k])
    && (forall k :: i <= k < h ==> now[k] == a[k + 1])
    && (forall k :: i < k <= h ==> e[a[k]] < e[tmp])
  }

  lemma ShiftedMoves(a: seq<int>, now: seq<int>, e: seq<int>, i: int, hi: int, tmp: int, h: int)
    requires 0 <= i <= hi < |a| && HaveClasses(a, e, i, hi) && 0 <= tmp < |e|
    requires Shifted(a, now, e, i, hi, tmp, h) && h < hi && e[a[h + 1]] < e[tmp]
    ensures Shifted(a, now[h := now[h + 1]], e, i, hi, tmp, h + 1)
  {
  }

  /** Moving a[i] up to h and the elements it passes down by one is a rearrangement. */
  lemma ShiftRearranges(a: seq<int>, now: seq<int>, b: seq<int>, e: seq<int>, i: int, hi: int, h: int)
    requires 0 <= i <= hi < |a| && HaveClasses(a, e, i, hi)
    requires Shifted(a, now, e, i, hi, a[i], h) && b == now[h := a[i]]
    ensures Rearranged(a, b, i, hi)
  {
    assert a[i..hi + 1] == [a[i]] + a[i + 1..h + 1] + a[h + 1..hi + 1];
    assert b[i..h] == a[i + 1..h + 1];
    assert b[h + 1..hi + 1] == a[h + 1..hi + 1];
    assert b[i..hi + 1] == b[i..h] + [b[h]] + b[h + 1..hi + 1];
    assert a[..i] == b[..i] && a[hi + 1..] == b[hi + 1..];
  }

  lemma InsertedSorted(a: seq<int>, now: seq<int>, b: seq<int>, e: seq<int>, i: int, hi: int, tmp: int, h: int)
    requires 0 <= i <= hi < |a| && HaveClasses(a, e, i, hi) && 0 <= tmp < |e|
    requires Shifted(a, now, e, i, hi, tmp, h) && b == now[h := tmp]
    requires SortedByClass(a, e, i + 1, hi)
    requires h + 1 <= hi ==> e[tmp] <= e[a[h + 1]]
    requires HaveClasses(b, e, i, hi)
    ensures SortedByClass(b, e, i, hi)
  {
    forall p, q | i <= p <= q <= hi ensures e[b[p]] <= e[b[q]] {
      if p == h && q > h { assert e[a[h + 1]] <= e[a[q]]; }
      if p < h < q { assert e[a[p + 1]] <= e[a[q]]; }
    }
  }

  /** One insertion of the pass with stride four. */
  method InsertStride(fmap: array<int>, eclass: array<int>, i: int, hi: int)
    requires fmap != eclass
    requires 0 <= i <= hi < fmap.Length
    requires HaveClasses(fmap[..], eclass[..], i, hi)
    modifies fmap
    ensures Rearranged(old(fmap[..]), fmap[..], i, hi)
    ensures HaveClasses(fmap[..], eclass[..], i, hi)
  {
    hide Rearranged;
    ghost var a, e := fmap[..], eclass[..];
    var tmp := fmap[i];
    var ecTmp := eclass[tmp];
    var j := i + 4;
    HoleStarts(a, i, hi, i);
    while j <= hi && ecTmp > eclass[fmap[j]]
      invariant HoleAt(a, fmap[..], i, hi, tmp, j - 4)
      invariant HaveClasses(fmap[..], e, i, hi)
    {
      MoveHole(fmap, j - 4, j, a, i, hi, tmp);
      j := j + 4;
    }
    Store(fmap, j - 4, tmp);
    HaveClassesRearranged(a, fmap[..], e, i, hi, i, hi);
  }

  /** The inner loop of the final pass: j is where it stops. */
  method ShiftDown(fmap: array<int>, eclass: array<int>, i: int, hi: int) returns (j: int)
    requires fmap != eclass
    requires 0 <= i <= hi < fmap.Length
    requires HaveClasses(fmap[..], eclass[..], i, hi)
    modifies fmap
    ensures i < j <= hi + 1 && Shifted(old(fmap[..]), fmap[..], eclass[..], i, hi, old(fmap[i]), j - 1)
    ensures j <= hi ==> eclass[old(fmap[i])] <= eclass[old(fmap[j])]
  {
    ghost var a, e := fmap[..], eclass[..];
    var tmp := fmap[i];
    var ecTmp := eclass[tmp];
    j := i + 1;
    while j <= hi && ecTmp > eclass[fmap[j]]
      invariant Shifted(a, fmap[..], e, i, hi, tmp, j - 1)
    {
      ShiftedMoves(a, fmap[..], e, i, hi, tmp, j - 1);
      Store(fmap, j - 1, fmap[j]);
      j := j + 1;
    }
  }

  /** One insertion of the final pass: i joins the sorted stretch i+1..hi. */
  method InsertNext(fmap: array<int>, eclass: array<int>, i: int, hi: int)
    requires fmap != eclass
    requires 0 <= i <= hi < fmap.Length
    requires HaveClasses(fmap[..], eclass[..], i, hi) && SortedByClass(fmap[..], eclass[..], i + 1, hi)
    modifies fmap
    ensures Rearranged(old(fmap[..]), fmap[..], i, hi)
    ensures HaveClasses(fmap[..], eclass[..], i, hi) && SortedByClass(fmap[..], eclass[..], i, hi)
  {
    ghost var a, e := fmap[..], eclass[..];
    var tmp := fmap[i];
    var j := ShiftDown(fmap, eclass, i, hi);
    ghost var now := fmap[..];
    Store(fmap, j - 1, tmp);
    ShiftRearranges(a, now, fmap[..], e, i, hi, j - 1);
    HaveClassesRearranged(a, fmap[..], e, i, hi, i, hi);
    InsertedSorted(a, now, fmap[..], e, i, hi, tmp, j - 1);
  }

  /** The pass with stride four. */
  method StridePass(fmap: array<int>, eclass: array<int>, lo: int, hi: int)
    requires fmap != eclass
    requires 0 <= lo <= hi + 1 <= fmap.Length
    requires HaveClasses(fmap[..], eclass[..], lo, hi)
    modifies fmap
    ensures Rearranged(old(fmap[..]), fmap[..], lo, hi)
    ensures HaveClasses(fmap[..], eclass[..], lo, hi)
  {
    var i := hi - 4;
    while i >= lo
      invariant i <= hi
      invariant Rearranged(old(fmap[..]), fmap[..], lo, hi)
      invariant HaveClasses(fmap[..], eclass[..], lo, hi)
    {
      ghost var before := fmap[..];
      InsertStride(fmap, eclass, i, hi);
      HaveClassesRearranged(before, fmap[..], eclass[..], i, hi, lo, hi);
      RearrangedWider(before, fmap[..], i, hi, lo, hi);
      RearrangedTwice(old(fmap[..]), before, fmap[..], lo, hi);
      i := i - 1;
    }
  }

  /** The final pass. */
  method NextPass(fmap: array<int>, eclass: array<int>, lo: int, hi: int)
    requires fmap != eclass
    requires 0 <= lo <= hi < fmap.Length
    requires HaveClasses(fmap[..], eclass[..], lo, hi)
    modifies fmap
    ensures Rearranged(old(fmap[..]), fmap[..], lo, hi)
    ensures HaveClasses(fmap[..], eclass[..], lo, hi) && SortedByClass(fmap[..], eclass[..], lo, hi)
  {
    var i := hi - 1;
    while i >= lo
      invariant lo - 1 <= i <= hi
      invariant Rearranged(old(fmap[..]), fmap[..], lo, hi)
      invariant HaveClasses(fmap[..], eclass[..], lo, hi)
      invariant SortedByClass(fmap[..], eclass[..], i + 1, hi)
    {
      ghost var before := fmap[..];
      InsertNext(fmap, eclass, i, hi);
      HaveClassesRearranged(before, fmap[..], eclass[..], i, hi, lo, hi);
      RearrangedWider(before, fmap[..], i, hi, lo, hi);
      RearrangedTwice(old(fmap[..]), before, fmap[..], lo, hi);
      i := i - 1;
    }
  }

  /** fallbackSimpleSort. An empty stretch (hi == lo - 1) is left alone. */
  method SimpleSort(fmap: array<int>, eclass: array<int>, lo: int, hi: int)
    requires fmap != eclass
    requires 0 <= lo <= hi + 1 <= fmap.Length
    requires HaveClasses(fmap[..], eclass[..], lo, hi)
    modifies fmap
    ensures Rearranged(old(fmap[..]), fmap[..], lo, hi)
    ensures HaveClasses(fmap[..], eclass[..], lo, hi) && SortedByClass(fmap[..], eclass[..], lo, hi)
  {
    if lo == hi { return; }
    if hi - lo > 3 {
      StridePass(fmap, eclass, lo, hi);
    }
    if lo < hi {
      ghost var before := fmap[..];
      NextPass(fmap, eclass, lo, hi);
      RearrangedTwice(old(fmap[..]), before, fmap[..], lo, hi);
    }
  }
}
