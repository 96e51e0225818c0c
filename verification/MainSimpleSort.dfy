/** mainSimpleSort: shell sort of a stretch of ptr by rotation, given up when the budget is spent. */
module MainSimpleSort {
  import opened Bytes
  import opened Rotations
  import opened Rearranging
  import opened Partitioning
  import opened BucketScan
  import opened BlockArea
  import opened MainCompare

  /** How many rotations are smaller: the order of rotations as numbers. */
  ghost function Ranks(b: seq<byte>): (r: seq<int>)
    ensures |r| == |b|
  {
    seq(|b|, p requires 0 <= p < |b| => |Smaller(b, p)|)
  }

  ghost function Smaller(b: seq<byte>, p: int): set<int>
    requires 0 <= p < |b|
  {
    set r | 0 <= r < |b| && !Le(b, p, r)
  }

  lemma LeTotal(b: seq<byte>, p: int, q: int)
    requires 0 <= p < |b| && 0 <= q < |b|
    ensures Le(b, p, q) || Le(b, q, p)
  {
    LexTotal(Rotation(b, p), Rotation(b, q));
  }

  lemma RankOrder(b: seq<byte>, p: int, q: int)
    requires 0 <= p < |b| && 0 <= q < |b|
    ensures Ranks(b)[p] <= Ranks(b)[q] <==> Le(b, p, q)
  {
    hide Le;
    LeTotal(b, p, q);
    if Le(b, p, q) {
      SmallerGrows(b, p, q);
    } else {
      SmallerGrows(b, q, p);
      LeTotal(b, q, q);
      assert q in Smaller(b, p) && q !in Smaller(b, q);
      hide Smaller;
      var s, t := Smaller(b, q), Smaller(b, p);
      assert t == s + (t - s) && q in t - s;
    }
  }

  lemma SmallerGrows(b: seq<byte>, p: int, q: int)
    requires 0 <= p < |b| && 0 <= q < |b| && Le(b, p, q)
    ensures Smaller(b, p) <= Smaller(b, q) && |Smaller(b, p)| <= |Smaller(b, q)|
  {
    forall r | r in Smaller(b, p) ensures r in Smaller(b, q) {
      if Le(b, q, r) { LeTransitive(b, p, q, r); }
    }
    var s, t := Smaller(b, p), Smaller(b, q);
    assert t == s + (t - s);
  }

  /** The positions at lo..hi have their first d bytes in common. */
  ghost predicate Alike(b: seq<byte>, f: seq<int>, lo: int, hi: int, d: nat)
    requires 0 <= lo <= hi + 1 <= |f|
  {
    && HaveClasses(f, Ranks(b), lo, hi)
    && forall x, y :: lo <= x <= hi && lo <= y <= hi ==> Agree(b, f[x], f[y], d)
  }

  lemma AlikeRearranged(b: seq<byte>, f: seq<int>, g: seq<int>, lo: int, hi: int, d: nat)
    requires 0 <= lo <= hi + 1 <= |f| && Rearranged(f, g, lo, hi) && Alike(b, f, lo, hi, d)
    ensures Alike(b, g, lo, hi, d)
  {
    HaveClassesRearranged(f, g, Ranks(b), lo, hi, lo, hi);
    forall x, y | lo <= x <= hi && lo <= y <= hi ensures Agree(b, g[x], g[y], d) {
      var x' := RearrangedInside(f, g, lo, hi, x);
      var y' := RearrangedInside(f, g, lo, hi, y);
      assert Agree(b, f[x'], f[y'], d);
    }
  }

  /** What the comparisons read. */
  ghost predicate Comparable(b: seq<byte>, block: seq<byte>, quadrant: seq<int>) {
    OVERSHOOT < |b| <= 900000 && Overshot(block, |b|) && block[..|b|] == b && Cached(b, quadrant)
  }

  /** mainGtU ( p + d, q + d, ... ) for positions with d common bytes. */
  method GreaterBehind(p: int, q: int, d: nat, block: seq<byte>, quadrant: seq<int>, nblock: int, budget: int,
        ghost b: seq<byte>)
    returns (gt: bool, left: int)
    requires nblock == |b| && Comparable(b, block, quadrant) && d <= 15
    requires 0 <= p < |b| && 0 <= q < |b| && Agree(b, p, q, d)
    ensures if gt then Ranks(b)[q] <= Ranks(b)[p] else Ranks(b)[p] <= Ranks(b)[q]
    ensures left <= budget
  {
    hide Ranks, Agree, Le;
    gt, left := GreaterThan(p + d, q + d, block, quadrant, nblock, budget, b);
    AheadWraps(|b|, p, d);
    AheadWraps(|b|, q, d);
    Settled(b, p, q, d, gt);
    RankOrder(b, p, q);
    RankOrder(b, q, p);
  }

  /** With gap one, everything the hole has passed was not smaller than v and moved up a place. */
  ghost predicate ShiftedUp(a: seq<int>, now: seq<int>, e: seq<int>, lo: int, i: int, v: int, h: int)
    requires 0 <= lo <= i < |a| && HaveClasses(a, e, lo, i) && 0 <= v < |e|
  {
    && |now| == |a| && lo <= h <= i
    && (forall k :: 0 <= k < h || i < k < |a| ==> now[k] == a[k])
    && (forall k :: h < k <= i ==> now[k] == a[k - 1])
    && (forall k :: h <= k < i ==> e[v] <= e[a[k]])
  }

  lemma ShiftedUpMoves(a: seq<int>, now: seq<int>, e: seq<int>, lo: int, i: int, v: int, h: int)
    requires 0 <= lo <= i < |a| && HaveClasses(a, e, lo, i) && 0 <= v < |e|
    requires ShiftedUp(a, now, e, lo, i, v, h) && lo < h && e[v] <= e[now[h - 1]]
    ensures ShiftedUp(a, now[h := now[h - 1]], e, lo, i, v, h - 1)
  {
  }

  lemma InsertedUp(a: seq<int>, now: seq<int>, b: seq<int>, e: seq<int>, lo: int, i: int, v: int, h: int)
    requires 0 <= lo <= i < |a| && HaveClasses(a, e, lo, i) && 0 <= v < |e|
    requires ShiftedUp(a, now, e, lo, i, v, h) && b == now[h := v]
    requires SortedByClass(a, e, lo, i - 1)
    requires lo < h ==> e[now[h - 1]] <= e[v]
    requires HaveClasses(b, e, lo, i)
    ensures SortedByClass(b, e, lo, i)
  {
    forall p, q | lo <= p <= q <= i ensures e[b[p]] <= e[b[q]] {
      if p < h && q == h { assert e[a[p]] <= e[a[h - 1]]; }
      if p < h < q { assert e[a[p]] <= e[a[q - 1]]; }
      if p == h && q > h { assert b[q] == a[q - 1]; }
    }
  }

  /** The state of an insertion: v is to go to j or, h by h, further down. */
  ghost predicate Inserting(a: seq<int>, now: seq<int>, b: seq<byte>, lo: int, i: int, h: int, d: nat, v: int, j: int) {
    && 0 <= lo <= j <= i < |a| && 0 <= v < |b|
    && Alike(b, a, lo, i, d) && HoleAt(a, now, lo, i, v, j)
    && (h == 1 ==> ShiftedUp(a, now, Ranks(b), lo, i, v, j))
  }

  lemma InsertStarts(a: seq<int>, b: seq<byte>, lo: int, i: int, h: int, d: nat)
    requires 0 <= lo <= i < |a| && Alike(b, a, lo, i, d)
    ensures 0 <= a[i] < |b| && Inserting(a, a, b, lo, i, h, d, a[i], i)
  {
    HoleStarts(a, lo, i, i);
  }

  /** The next element to be compared with v. */
  lemma InsertCompares(a: seq<int>, now: seq<int>, b: seq<byte>, lo: int, i: int, h: int, d: nat, v: int, j: int,
        k: int)
    requires Inserting(a, now, b, lo, i, h, d, v, j) && lo <= k <= i && k != j
    ensures 0 <= now[k] < |b| && Agree(b, now[k], v, d)
  {
    var filled := now[j := v];
    AlikeRearranged(b, a, filled, lo, i, d);
    assert filled[k] == now[k] && filled[j] == v;
    assert Agree(b, filled[k], filled[j], d);
  }

  lemma InsertMoves(a: seq<int>, now: seq<int>, b: seq<byte>, lo: int, i: int, h: int, d: nat, v: int, j: int)
    requires Inserting(a, now, b, lo, i, h, d, v, j) && 1 <= h && lo <= j - h
    requires 0 <= now[j - h] < |b| && Ranks(b)[v] <= Ranks(b)[now[j - h]]
    ensures Inserting(a, now[j := now[j - h]], b, lo, i, h, d, v, j - h)
  {
    hide Ranks, Alike, Rearranged;
    HoleMoves(a, now, lo, i, v, j, j - h);
    AlikeClasses(b, a, lo, i, d);
    if h == 1 { ShiftedUpMoves(a, now, Ranks(b), lo, i, v, j); }
  }

  lemma AlikeClasses(b: seq<byte>, f: seq<int>, lo: int, hi: int, d: nat)
    requires 0 <= lo <= hi + 1 <= |f| && Alike(b, f, lo, hi, d)
    ensures HaveClasses(f, Ranks(b), lo, hi)
  {
  }

  lemma InsertEnds(a: seq<int>, now: seq<int>, b: seq<byte>, lo: int, i: int, h: int, d: nat, v: int, j: int)
    requires Inserting(a, now, b, lo, i, h, d, v, j)
    requires h == 1 && lo < j ==> 0 <= now[j - 1] < |b| && Ranks(b)[now[j - 1]] <= Ranks(b)[v]
    ensures |now| == |a| && Rearranged(a, now[j := v], lo, i) && Alike(b, now[j := v], lo, i, d)
    ensures HaveClasses(now[j := v], Ranks(b), lo, i) && HaveClasses(a, Ranks(b), lo, i)
    ensures h == 1 && SortedByClass(a, Ranks(b), lo, i - 1) ==> SortedByClass(now[j := v], Ranks(b), lo, i)
  {
    hide Ranks, Alike, Rearranged;
    AlikeRearranged(b, a, now[j := v], lo, i, d);
    AlikeClasses(b, a, lo, i, d);
    AlikeClasses(b, now[j := v], lo, i, d);
    if h == 1 && SortedByClass(a, Ranks(b), lo, i - 1) { InsertedUp(a, now, now[j := v], Ranks(b), lo, i, v, j); }
  }

  /** One insertion with stride h. */
  method Insert(ptr: array<int>, block: seq<byte>, quadrant: seq<int>, nblock: int, lo: int, i: int, h: int, d: nat,
        budget: int, ghost b: seq<byte>)
    returns (left: int)
    requires nblock == |b| && Comparable(b, block, quadrant) && d <= 15
    requires 1 <= h && 0 <= lo && lo + h <= i < ptr.Length && Alike(b, ptr[..], lo, i, d)
    modifies ptr
    ensures Rearranged(old(ptr[..]), ptr[..], lo, i) && Alike(b, ptr[..], lo, i, d) && left <= budget
    ensures HaveClasses(ptr[..], Ranks(b), lo, i) && HaveClasses(old(ptr[..]), Ranks(b), lo, i)
    ensures h == 1 && SortedByClass(old(ptr[..]), Ranks(b), lo, i - 1) ==> SortedByClass(ptr[..], Ranks(b), lo, i)
  {
    hide Ranks, Alike, Rearranged, Agree, Comparable, Inserting, SortedByClass, HaveClasses;
    ghost var a := ptr[..];
    var v, j := ptr[i], i;
    left := budget;
    InsertStarts(a, b, lo, i, h, d);
    while true
      invariant lo + h <= j <= i && left <= budget && Inserting(a, ptr[..], b, lo, i, h, d, v, j)
      decreases j
    {
      InsertCompares(a, ptr[..], b, lo, i, h, d, v, j, j - h);
      ghost var now := ptr[..];
      var gt;
      gt, left := GreaterBehind(ptr[j - h], v, d, block, quadrant, nblock, left, b);
      if !gt { break; }
      InsertMoves(a, now, b, lo, i, h, d, v, j);
      Store(ptr, j, ptr[j - h]);
      j := j - h;
      if j <= lo + h - 1 { break; }
    }
    InsertEnds(a, ptr[..], b, lo, i, h, d, v, j);
    Store(ptr, j, v);
  }

  /** One insertion seen in the whole stretch. */
  lemma InsertedWithin(a: seq<int>, f: seq<int>, g: seq<int>, b: seq<byte>, lo: int, i: int, hi: int, d: nat)
    requires 0 <= lo <= i <= hi < |a| && Rearranged(a, f, lo, hi) && Alike(b, f, lo, hi, d) && Rearranged(f, g, lo, i)
    ensures Rearranged(a, g, lo, hi) && Alike(b, g, lo, hi, d)
  {
    RearrangedWider(f, g, lo, i, lo, hi);
    RearrangedTwice(a, f, g, lo, hi);
    AlikeRearranged(b, f, g, lo, hi, d);
  }

  lemma AlikeNarrower(b: seq<byte>, f: seq<int>, lo: int, hi: int, d: nat, lo': int, hi': int)
    requires 0 <= lo <= lo' <= hi' + 1 && hi' <= hi < |f| && Alike(b, f, lo, hi, d)
    ensures Alike(b, f, lo', hi', d)
  {
  }

  /** Sorted as far as the insertions with stride one have come. */
  ghost predicate SortedTo(f: seq<int>, b: seq<byte>, lo: int, hi: int, h: int, i: int) {
    h == 1 ==>
      0 <= lo <= i <= hi + 1 <= |f| && HaveClasses(f, Ranks(b), lo, i - 1) && SortedByClass(f, Ranks(b), lo, i - 1)
  }

  lemma SortedToStarts(f: seq<int>, b: seq<byte>, lo: int, hi: int, h: int, d: nat)
    requires 0 <= lo < hi < |f| && 1 <= h && Alike(b, f, lo, hi, d)
    ensures SortedTo(f, b, lo, hi, h, lo + h)
  {
  }

  lemma SortedToStep(f: seq<int>, g: seq<int>, b: seq<byte>, lo: int, hi: int, h: int, i: int)
    requires 0 <= lo <= i <= hi < |f| == |g| && HaveClasses(f, Ranks(b), lo, i) && HaveClasses(g, Ranks(b), lo, i)
    requires SortedTo(f, b, lo, hi, h, i)
    requires h == 1 && SortedByClass(f, Ranks(b), lo, i - 1) ==> SortedByClass(g, Ranks(b), lo, i)
    ensures SortedTo(g, b, lo, hi, h, i + 1)
  {
  }

  lemma SortedToEnds(f: seq<int>, b: seq<byte>, lo: int, hi: int, h: int, i: int, d: nat)
    requires 0 <= lo < hi < |f| && Alike(b, f, lo, hi, d) && SortedTo(f, b, lo, hi, h, i) && i > hi
    ensures HaveClasses(f, Ranks(b), lo, hi)
    ensures h == 1 ==> SortedByClass(f, Ranks(b), lo, hi)
  {
  }

  /** One pass: insertions three at a time, each three followed by a look at the budget. */
  method Pass(ptr: array<int>, block: seq<byte>, quadrant: seq<int>, nblock: int, lo: int, hi: int, h: int, d: nat,
        budget: int, ghost b: seq<byte>)
    returns (left: int, abandoned: bool)
    requires nblock == |b| && Comparable(b, block, quadrant) && d <= 15
    requires 1 <= h && 0 <= lo < hi < ptr.Length && Alike(b, ptr[..], lo, hi, d)
    modifies ptr
    ensures Rearranged(old(ptr[..]), ptr[..], lo, hi) && Alike(b, ptr[..], lo, hi, d) && left <= budget
    ensures HaveClasses(ptr[..], Ranks(b), lo, hi)
    ensures abandoned ==> left < 0
    ensures !abandoned && h == 1 ==> SortedByClass(ptr[..], Ranks(b), lo, hi)
  {
    hide Ranks, Alike, Rearranged, Comparable, SortedByClass, HaveClasses, SortedTo;
    ghost var a := ptr[..];
    left, abandoned := budget, false;
    var i := lo + h;
    NotRearranged(a, lo, hi);
    AlikeClasses(b, a, lo, hi, d);
    SortedToStarts(a, b, lo, hi, h, d);
    while true
      invariant lo + h <= i && left <= budget && Rearranged(a, ptr[..], lo, hi) && Alike(b, ptr[..], lo, hi, d)
      invariant HaveClasses(ptr[..], Ranks(b), lo, hi) && SortedTo(ptr[..], b, lo, hi, h, i)
      decreases hi - i
    {
      ghost var first := i;
      for copy := 0 to 3
        invariant lo + h <= first + copy == i && left <= budget && Rearranged(a, ptr[..], lo, hi)
        invariant Alike(b, ptr[..], lo, hi, d)
        invariant HaveClasses(ptr[..], Ranks(b), lo, hi) && SortedTo(ptr[..], b, lo, hi, h, i)
        invariant copy > 0 ==> first <= hi
      {
        if i > hi {
          SortedToEnds(ptr[..], b, lo, hi, h, i, d);
          return;
        }
        ghost var f := ptr[..];
        AlikeNarrower(b, f, lo, hi, d, lo, i);
        left := Insert(ptr, block, quadrant, nblock, lo, i, h, d, left, b);
        InsertedWithin(a, f, ptr[..], b, lo, i, hi, d);
        AlikeClasses(b, ptr[..], lo, hi, d);
        SortedToStep(f, ptr[..], b, lo, hi, h, i);
        i := i + 1;
      }
      if left < 0 { return left, true; }
    }
  }

  lemma NotRearranged(a: seq<int>, lo: int, hi: int)
    requires 0 <= lo <= hi + 1 <= |a|
    ensures Rearranged(a, a, lo, hi)
  {
  }

  /** Knuth's increments. */
  const INCS: seq<int> := [1, 4, 13, 40, 121, 364, 1093, 3280, 9841, 29524, 88573, 265720, 797161, 2391484]

  /** mainSimpleSort: lo..hi, positions with their first d bytes in common, ends up in rotation
      order unless the budget has run out; no other slot changes. */
  method SimpleSort(ptr: array<int>, block: seq<byte>, quadrant: seq<int>, nblock: int, lo: int, hi: int, d: nat,
        budget: int, ghost b: seq<byte>)
    returns (left: int)
    requires nblock == |b| && Comparable(b, block, quadrant) && d <= 15 && ptr.Length == |b|
    requires 0 <= lo <= hi + 1 <= ptr.Length && Alike(b, ptr[..], lo, hi, d)
    modifies ptr
    ensures Rearranged(old(ptr[..]), ptr[..], lo, hi) && left <= budget
    ensures HaveClasses(ptr[..], Ranks(b), lo, hi)
    ensures left >= 0 ==> SortedByClass(ptr[..], Ranks(b), lo, hi)
  {
    hide Ranks, Alike, Rearranged, HaveClasses;
    ghost var a := ptr[..];
    NotRearranged(a, lo, hi);
    AlikeClasses(b, a, lo, hi, d);
    left := budget;
    var bigN := hi - lo + 1;
    if bigN < 2 { return; }
    SmallBlock(b, block, quadrant);
    var hp := 0;
    while INCS[hp] < bigN
      invariant 0 <= hp < 14 && bigN <= 900000
      decreases 14 - hp
    {
      hp := hp + 1;
    }
    hp := hp - 1;
    ghost var top := hp;
    while hp >= 0
      invariant -1 <= hp < 14 && 0 <= top && hp <= top && left <= budget && Alike(b, ptr[..], lo, hi, d)
      invariant Rearranged(a, ptr[..], lo, hi) && HaveClasses(ptr[..], Ranks(b), lo, hi)
      invariant hp < 0 ==> SortedByClass(ptr[..], Ranks(b), lo, hi)
    {
      var h := INCS[hp];
      ghost var f := ptr[..];
      var abandoned;
      left, abandoned := Pass(ptr, block, quadrant, nblock, lo, hi, h, d, left, b);
      RearrangedTwice(a, f, ptr[..], lo, hi);
      if abandoned { return; }
      hp := hp - 1;
    }
  }

  lemma SmallBlock(b: seq<byte>, block: seq<byte>, quadrant: seq<int>)
    requires Comparable(b, block, quadrant)
    ensures |b| <= 900000
  {
  }
}
