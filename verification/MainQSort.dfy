/** mainQSort3: 3-way radix quicksort of a small bucket by rotation, with an explicit stack of
    ranges whose positions have their first d bytes in common. */
module MainQSort {
  import opened Bytes
  import opened Rearranging
  import opened Partitioning
  import opened SortStack
  import opened BucketScan
  import opened MainCompare
  import opened MainSimpleSort

  /** A range on the stack: stackLo, stackHi and stackD. */
  datatype Part = Part(lo: int, hi: int, d: nat)

  ghost function RangeOf(x: Part): Range {
    (x.lo, x.hi)
  }

  ghost function Ranges(stack: seq<Part>): (r: seq<Range>)
    ensures |r| == |stack|
  {
    seq(|stack|, i requires 0 <= i < |stack| => RangeOf(stack[i]))
  }

  lemma RangesAdd(s: seq<Part>, t: seq<Part>)
    ensures Ranges(s + t) == Ranges(s) + Ranges(t)
  {
  }

  /** Every range on the stack has its common bytes. */
  ghost predicate AllAlike(b: seq<byte>, f: seq<int>, stack: seq<Part>) {
    forall k :: 0 <= k < |stack| ==>
      0 <= stack[k].lo <= stack[k].hi + 1 <= |f| && stack[k].d <= 15 &&
        Alike(b, f, stack[k].lo, stack[k].hi, stack[k].d)
  }

  /** Two places further up the stack, ranges are at most half as long; the last split was of more
      than twenty. */
  ghost predicate Shrinking(stack: seq<Range>, n: int) {
    && (forall k :: 0 <= k < |stack| ==> Doubled(Size(stack[k]), k / 2) <= n)
    && (|stack| >= 3 ==> Doubled(21, (|stack| - 3) / 2) <= n)
  }

  /** A stack of s ranges needs 21 * 2^((s-3)/2) positions. */
  lemma StackStaysLow(stack: seq<Range>, n: int)
    requires Shrinking(stack, n) && n <= 900000
    ensures |stack| <= 34
  {
    assert Doubled(21, 4) == 336 && Doubled(21, 8) == 5376 && Doubled(21, 12) == 86016 && Doubled(21, 16) == 1376256;
    if |stack| >= 35 { DoubledDeeper(21, 16, (|stack| - 3) / 2); }
  }

  lemma ShrinkingBelow(rest: seq<Range>, r: Range, n: int)
    requires Shrinking(rest + [r], n)
    ensures Shrinking(rest, n)
  {
    forall k | 0 <= k < |rest| ensures Doubled(Size(rest[k]), k / 2) <= n { assert (rest + [r])[k] == rest[k]; }
    if |rest| >= 3 { DoubledDeeper(21, (|rest| - 3) / 2, (|rest| - 2) / 2); }
  }

  /** Three parts, none longer than the one before it. */
  lemma ShrinkingSplit(rest: seq<Range>, r: Range, x: Range, y: Range, z: Range, n: int)
    requires Shrinking(rest + [r], n) && Size(r) >= 21
    requires 0 <= Size(z) <= Size(y) <= Size(x) && Size(x) + Size(y) + Size(z) <= Size(r)
    ensures Shrinking(rest + [x, y, z], n)
  {
    var s, t := rest + [r], rest + [x, y, z];
    var k := |rest|;
    assert s[k] == r && Doubled(Size(r), k / 2) <= n;
    forall i | 0 <= i < |t| ensures Doubled(Size(t[i]), i / 2) <= n {
      if i < k {
        assert t[i] == s[i];
      } else if i == k {
        DoubledMonotone(Size(x), Size(r), k / 2);
      } else {
        var w := if i == k + 1 then y else z;
        assert t[i] == w;
        DoubledMonotone(2 * Size(w), Size(r), k / 2);
        DoubledMonotone(Size(w), Size(w), k / 2);
        DoubledDeeper(Size(w), i / 2, k / 2 + 1);
      }
    }
    DoubledMonotone(21, Size(r), k / 2);
  }

  /** The median of three bytes. */
  method MedianOfThree(x: byte, y: byte, z: byte) returns (m: byte)
    ensures m == x || m == y || m == z
    ensures (x <= m <= y || y <= m <= x) || (x <= m <= z || z <= m <= x)
    ensures (x <= m <= y || y <= m <= x) || (y <= m <= z || z <= m <= y)
    ensures (x <= m <= z || z <= m <= x) || (y <= m <= z || z <= m <= y)
  {
    var a, b, c := x, y, z;
    if a > b { a, b := b, a; }
    if b > c {
      b := c;
      if a > b { b := a; }
    }
    m := b;
  }

  /** block + d: the byte that is d places behind each position. */
  function Keys(block: seq<byte>, nblock: int, d: nat): (r: seq<int>)
    requires 0 <= nblock && nblock + d <= |block|
    ensures |r| == nblock
  {
    block[d..d + nblock]
  }

  lemma KeyIsByte(b: seq<byte>, block: seq<byte>, quadrant: seq<int>, p: int, d: nat)
    requires Comparable(b, block, quadrant) && d <= 15 && 0 <= p < |b|
    ensures |b| + d <= |block| && Keys(block, |b|, d)[p] == block[p + d] == b[Ahead(|b|, p, d)]
  {
    ReadsWrapped(block, |b|, p + d);
    AheadWraps(|b|, p, d);
    assert block[..|b|][Wrapped(|b|, p + d)] == b[Wrapped(|b|, p + d)];
  }

  lemma AgreeOneMore(b: seq<byte>, p: int, q: int, d: nat)
    requires 0 <= p < |b| && 0 <= q < |b| && Agree(b, p, q, d) && b[Ahead(|b|, p, d)] == b[Ahead(|b|, q, d)]
    ensures Agree(b, p, q, d + 1)
  {
  }

  /** A smaller key behind a common part means a rotation that is not larger. */
  lemma KeyDecides(b: seq<byte>, block: seq<byte>, quadrant: seq<int>, p: int, q: int, d: nat)
    requires Comparable(b, block, quadrant) && d <= 15 && 0 <= p < |b| && 0 <= q < |b| && |b| + d <= |block|
    requires Agree(b, p, q, d)
    ensures Keys(block, |b|, d)[p] < Keys(block, |b|, d)[q] ==> Ranks(b)[p] <= Ranks(b)[q]
    ensures Keys(block, |b|, d)[p] == Keys(block, |b|, d)[q] ==> Agree(b, p, q, d + 1)
  {
    KeyIsByte(b, block, quadrant, p, d);
    KeyIsByte(b, block, quadrant, q, d);
    if Keys(block, |b|, d)[p] == Keys(block, |b|, d)[q] { AgreeOneMore(b, p, q, d); }
    hide Keys, Comparable, Ranks, Agree, Le;
    if Keys(block, |b|, d)[p] < Keys(block, |b|, d)[q] {
      LeByNext(b, Ahead(|b|, p, d), Ahead(|b|, q, d));
      Settled(b, p, q, d, false);
    }
    RankOrder(b, p, q);
  }

  /** Equal keys all over a range: one more common byte. */
  lemma OneMoreAlike(b: seq<byte>, block: seq<byte>, quadrant: seq<int>, f: seq<int>, lo: int, hi: int, d: nat,
        med: int)
    requires Comparable(b, block, quadrant) && d <= 14 && 0 <= lo <= hi + 1 <= |f| && |b| + d <= |block|
    requires Alike(b, f, lo, hi, d)
    requires forall k :: lo <= k <= hi ==> Keys(block, |b|, d)[f[k]] == med
    ensures Alike(b, f, lo, hi, d + 1)
  {
    hide Ranks, Keys, Comparable;
    forall x, y | lo <= x <= hi && lo <= y <= hi ensures Agree(b, f[x], f[y], d + 1) {
      assert Agree(b, f[x], f[y], d);
      KeyDecides(b, block, quadrant, f[x], f[y], d);
    }
  }

  /** The parts that a range falls into. */
  ghost function Parts(lo: int, hi: int, n: int, m: int, d: nat): (r: (Part, Part, Part)) {
    (Part(lo, n, d), Part(m, hi, d), Part(n + 1, m - 1, d + 1))
  }

  /** x, y, z are the three parts in some order. */
  ghost predicate InSomeOrder(x: Part, y: Part, z: Part, parts: (Part, Part, Part)) {
    || (x, y, z) == (parts.0, parts.1, parts.2) || (x, y, z) == (parts.0, parts.2, parts.1) ||
       (x, y, z) == (parts.1, parts.0, parts.2)
    || (x, y, z) == (parts.1, parts.2, parts.0) || (x, y, z) == (parts.2, parts.0, parts.1) ||
       (x, y, z) == (parts.2, parts.1, parts.0)
  }

  /** What every turn of the main loop keeps. */
  ghost predicate Sorting(a: seq<int>, f: seq<int>, b: seq<byte>, lo: int, hi: int, stack: seq<Part>) {
    && 0 <= lo <= hi + 1 <= |f| == |a| == |b|
    && Rearranged(a, f, lo, hi) && HaveClasses(f, Ranks(b), lo, hi)
    && Waiting(Ranges(stack), lo, hi) && OrderedOutside(f, Ranks(b), lo, hi, Ranges(stack))
    && AllAlike(b, f, stack) && Shrinking(Ranges(stack), hi - lo + 1)
  }

  lemma SortingStarts(a: seq<int>, b: seq<byte>, lo: int, hi: int, d: nat)
    requires 0 <= lo <= hi + 1 <= |a| == |b| && d <= 15 && Alike(b, a, lo, hi, d)
    ensures Sorting(a, a, b, lo, hi, [Part(lo, hi, d)])
  {
    hide Ranks;
    var s := Ranges([Part(lo, hi, d)]);
    assert s[0] == (lo, hi);
    assert forall p, q :: lo <= p < q <= hi ==> Holds(s[0], p, q);
    assert Doubled(Size(s[0]), 0) <= hi - lo + 1;
  }

  lemma SortingEnds(a: seq<int>, f: seq<int>, b: seq<byte>, lo: int, hi: int)
    requires Sorting(a, f, b, lo, hi, [])
    ensures 0 <= lo <= hi + 1 <= |f| && Rearranged(a, f, lo, hi) && HaveClasses(f, Ranks(b), lo, hi)
    ensures SortedByClass(f, Ranks(b), lo, hi)
  {
    assert |Ranges([])| == 0;
  }

  /** The ranges below the top keep their common bytes when the top is rearranged. */
  lemma AlikeBelow(b: seq<byte>, f: seq<int>, g: seq<int>, rest: seq<Part>, r: Part, lo: int, hi: int)
    requires 0 <= r.lo <= r.hi + 1 <= |f| && Rearranged(f, g, r.lo, r.hi)
    requires AllAlike(b, f, rest + [r]) && Waiting(Ranges(rest + [r]), lo, hi)
    ensures AllAlike(b, g, rest)
  {
    hide Ranks, Agree;
    var s := rest + [r];
    forall k | 0 <= k < |rest|
      ensures 0 <= rest[k].lo <= rest[k].hi + 1 <= |g| && rest[k].d <= 15
      ensures Alike(b, g, rest[k].lo, rest[k].hi, rest[k].d)
    {
      assert s[k] == rest[k] && s[|rest|] == r;
      assert Disjoint(Ranges(s)[k], Ranges(s)[|rest|]);
      AlikeElsewhere(b, f, g, r.lo, r.hi, rest[k]);
    }
  }

  lemma AlikeElsewhere(b: seq<byte>, f: seq<int>, g: seq<int>, lo: int, hi: int, x: Part)
    requires 0 <= lo <= hi + 1 <= |f| && Rearranged(f, g, lo, hi) && Disjoint((lo, hi), RangeOf(x))
    requires 0 <= x.lo <= x.hi + 1 <= |f| && Alike(b, f, x.lo, x.hi, x.d)
    ensures |g| == |f| && Alike(b, g, x.lo, x.hi, x.d)
  {
    forall k | x.lo <= k <= x.hi ensures g[k] == f[k] { RearrangedOutside(f, g, lo, hi, k); }
  }

  /** The popped range has been replaced by parts. */
  lemma PopReplace(a: seq<int>, f: seq<int>, g: seq<int>, b: seq<byte>, lo: int, hi: int, rest: seq<Part>, r: Part,
        parts: seq<Part>)
    requires Sorting(a, f, b, lo, hi, rest + [r])
    requires |f| == |g| && lo <= r.lo <= r.hi + 1 && r.hi <= hi && Rearranged(f, g, r.lo, r.hi)
    requires Waiting(Ranges(parts), r.lo, r.hi) && AllAlike(b, g, parts)
    requires HaveClasses(g, Ranks(b), r.lo, r.hi) && OrderedOutside(g, Ranks(b), r.lo, r.hi, Ranges(parts))
    requires Shrinking(Ranges(rest + parts), hi - lo + 1)
    ensures Sorting(a, g, b, lo, hi, rest + parts)
  {
    hide Ranks, Rearranged, Shrinking, Alike;
    HaveClassesRearranged(f, g, Ranks(b), r.lo, r.hi, lo, hi);
    RangesAdd(rest, [r]);
    RangesAdd(rest, parts);
    assert Ranges([r]) == [RangeOf(r)];
    PopAndSplit(f, g, Ranks(b), lo, hi, Ranges(rest), RangeOf(r), Ranges(parts));
    WaitingParts(Ranges(rest), RangeOf(r), Ranges(parts), lo, hi);
    AlikeBelow(b, f, g, rest, r, lo, hi);
    RearrangedWider(f, g, r.lo, r.hi, lo, hi);
    RearrangedTwice(a, f, g, lo, hi);
    assert AllAlike(b, g, rest + parts) by {
      forall k | 0 <= k < |rest + parts|
        ensures var x := (rest + parts)[k]; 0 <= x.lo <= x.hi + 1 <= |g| && x.d <= 15 && Alike(b, g, x.lo, x.hi, x.d)
      {
        if k < |rest| { assert (rest + parts)[k] == rest[k]; } else { assert (rest + parts)[k] == parts[k - |rest|]; }
      }
    }
  }

  /** A measure that every turn lowers. */
  ghost function Load(x: Part): int {
    3 * (if x.hi < x.lo then 0 else x.hi - x.lo + 1) * (if x.d > 16 then 0 else 17 - x.d) + 1
  }

  ghost function Work(stack: seq<Part>): (r: nat)
    ensures |stack| > 0 ==> r > 0
  {
    if |stack| == 0 then 0 else LoadPositive(stack[|stack| - 1]); Work(stack[..|stack| - 1]) + Load(stack[|stack| - 1])
  }

  lemma LoadPositive(x: Part)
    ensures Load(x) > 0
  {
    var s, t := if x.hi < x.lo then 0 else x.hi - x.lo + 1, if x.d > 16 then 0 else 17 - x.d;
    assert s * t >= 0;
  }

  lemma WorkPush(rest: seq<Part>, x: Part)
    ensures Work(rest + [x]) == Work(rest) + Load(x)
  {
    assert (rest + [x])[..|rest|] == rest;
  }

  lemma LoadDeeper(lo: int, hi: int, d: nat)
    requires lo <= hi && d <= 14
    ensures Load(Part(lo, hi, d + 1)) < Load(Part(lo, hi, d))
  {
    var s := hi - lo + 1;
    assert 3 * s * (17 - d) == 3 * s * (16 - d) + 3 * s;
  }

  lemma Products(x: nat, y: nat, z: nat, t: nat)
    requires z >= 1 && t >= 1
    ensures 3 * x * t + 1 + (3 * y * t + 1) + (3 * z * (t - 1) + 1) < 3 * (x + y + z) * t + 1
  {
    var u, v, w := x * t, y * t, z * t;
    assert 3 * x * t == 3 * u && 3 * y * t == 3 * v;
    assert 3 * z * (t - 1) == 3 * w - 3 * z;
    assert (x + y + z) * t == u + v + w;
  }

  lemma LoadSplit(lo: int, hi: int, n: int, m: int, d: nat)
    requires lo <= n + 1 < m <= hi + 1 && d <= 14
    ensures var p := Parts(lo, hi, n, m, d); Load(p.0) + Load(p.1) + Load(p.2) < Load(Part(lo, hi, d))
  {
    Products(n - lo + 1, hi - m + 1, m - 1 - n, 17 - d);
  }

  /** stackLo, stackHi and stackD with the stack pointer. */
  class PartStack {
    const stackLo: array<int>
    const stackHi: array<int>
    const stackD: array<nat>
    var sp: int

    constructor ()
      ensures Valid() && Contents() == [] && fresh(stackLo) && fresh(stackHi) && fresh(stackD)
    {
      stackLo := new int[100](_ => 0);
      stackHi := new int[100](_ => 0);
      stackD := new nat[100](_ => 0);
      sp := 0;
    }

    ghost predicate Valid()
      reads this
    {
      && stackLo != stackHi
      && stackLo.Length == stackHi.Length == stackD.Length == 100 && 0 <= sp <= 100
    }

    ghost function Contents(): (r: seq<Part>)
      requires Valid()
      reads this, stackLo, stackHi, stackD
      ensures |r| == sp
    {
      seq(sp, i requires 0 <= i < sp &&
          Valid() reads this, stackLo, stackHi, stackD => Part(stackLo[i], stackHi[i], stackD[i]))
    }

    method Push(lo: int, hi: int, d: nat)
      requires Valid() && sp < 100
      modifies this, stackLo, stackHi, stackD
      ensures Valid() && Contents() == old(Contents()) + [Part(lo, hi, d)]
    {
      stackLo[sp] := lo;
      stackHi[sp] := hi;
      stackD[sp] := d;
      sp := sp + 1;
    }

    method Pop() returns (lo: int, hi: int, d: nat)
      requires Valid() && sp > 0
      modifies this
      ensures Valid() && old(Contents()) == Contents() + [Part(lo, hi, d)]
    {
      sp := sp - 1;
      lo, hi, d := stackLo[sp], stackHi[sp], stackD[sp];
    }
  }

  /** The byte to partition around: the median of three. */
  method ChooseByte(ptr: seq<int>, block: seq<byte>, nblock: int, lo: int, hi: int, d: nat)
      returns (med: byte, ghost pick: int)
    requires 0 <= nblock && nblock + d <= |block| && 0 <= lo <= hi < |ptr|
    requires HaveClasses(ptr, Keys(block, nblock, d), lo, hi)
    ensures lo <= pick <= hi && Keys(block, nblock, d)[ptr[pick]] == med
  {
    var mid := (lo + hi) / 2;
    med := MedianOfThree(block[ptr[lo] + d], block[ptr[hi] + d], block[ptr[mid] + d]);
    pick := if med == block[ptr[lo] + d] then lo else if med == block[ptr[hi] + d] then hi else mid;
  }

  /** One round on a long range: choose a byte, partition around it and gather the middle. At
      least the chosen position ends up in the middle. */
  method Split(ptr: array<int>, block: seq<byte>, ghost quadrant: seq<int>, nblock: int, lo: int, hi: int, d: nat,
        ghost b: seq<byte>)
    returns (allEqual: bool, n: int, m: int, ghost med: int)
    requires nblock == |b| && Comparable(b, block, quadrant) && d <= 14 && |b| + d <= |block|
    requires 0 <= lo <= hi < ptr.Length && HaveClasses(ptr[..], Keys(block, nblock, d), lo, hi)
    modifies ptr
    ensures Rearranged(old(ptr[..]), ptr[..], lo, hi) && HaveClasses(ptr[..], Keys(block, nblock, d), lo, hi)
    ensures allEqual ==> forall k :: lo <= k <= hi ==> Keys(block, nblock, d)[ptr[k]] == med
    ensures !allEqual ==> ThreeParts(ptr[..], Keys(block, nblock, d), lo, hi, n, m, med) && lo <= n + 1 < m <= hi + 1
  {
    hide Rearranged, Comparable, Overshot, Keys;
    ghost var a := ptr[..];
    n, m := lo - 1, hi + 1;
    ghost var pick;
    var chosen;
    chosen, pick := ChooseByte(ptr[..], block, nblock, lo, hi, d);
    med := chosen;
    var lt, un, uh, gt := PartitionStretch(ptr, Keys(block, nblock, d), lo, hi, chosen);
    allEqual := gt < lt;
    if !allEqual {
      ghost var p := ptr[..];
      Gather(ptr, Keys(block, nblock, d), lo, hi, lt, un, gt, chosen);
      RearrangedTwice(a, p, ptr[..], lo, hi);
      n := lo + un - lt - 1;
      m := hi - (gt - uh) + 1;
      ghost var j := RearrangedInside(ptr[..], a, lo, hi, pick);
      assert n < j < m;
    }
  }

  function NextSize(x: Part): int {
    x.hi - x.lo
  }

  /** The three parts go on the stack, the longest first. */
  method PushParts(stack: PartStack, lo: int, hi: int, n: int, m: int, d: nat)
    returns (ghost x: Part, ghost y: Part, ghost z: Part)
    requires stack.Valid() && stack.sp <= 97
    modifies stack, stack.stackLo, stack.stackHi, stack.stackD
    ensures stack.Valid() && stack.Contents() == old(stack.Contents()) + [x, y, z]
    ensures InSomeOrder(x, y, z, Parts(lo, hi, n, m, d)) && NextSize(x) >= NextSize(y) >= NextSize(z)
  {
    ghost var before := stack.Contents();
    var next0, next1, next2 := Part(lo, n, d), Part(m, hi, d), Part(n + 1, m - 1, d + 1);
    if NextSize(next0) < NextSize(next1) { next0, next1 := next1, next0; }
    if NextSize(next1) < NextSize(next2) { next1, next2 := next2, next1; }
    if NextSize(next0) < NextSize(next1) { next0, next1 := next1, next0; }
    x, y, z := next0, next1, next2;
    stack.Push(next0.lo, next0.hi, next0.d);
    stack.Push(next1.lo, next1.hi, next1.d);
    stack.Push(next2.lo, next2.hi, next2.d);
    assert before + [x] + [y] + [z] == before + [x, y, z];
  }

  /** The popped range has been sorted outright. */
  lemma PopSorted(a: seq<int>, f: seq<int>, g: seq<int>, b: seq<byte>, lo: int, hi: int, rest: seq<Part>, r: Part)
    requires Sorting(a, f, b, lo, hi, rest + [r])
    requires |f| == |g| && lo <= r.lo <= r.hi + 1 && r.hi <= hi && Rearranged(f, g, r.lo, r.hi)
    requires HaveClasses(g, Ranks(b), r.lo, r.hi) && SortedByClass(g, Ranks(b), r.lo, r.hi)
    ensures Sorting(a, g, b, lo, hi, rest)
  {
    hide Ranks, Rearranged;
    RangesAdd(rest, [r]);
    assert Ranges([r]) == [RangeOf(r)];
    ShrinkingBelow(Ranges(rest), RangeOf(r), hi - lo + 1);
    assert rest + [] == rest;
    PopReplace(a, f, g, b, lo, hi, rest, r, []);
  }

  /** All keys of the popped range are equal. */
  lemma PopEqual(a: seq<int>, f: seq<int>, g: seq<int>, b: seq<byte>, lo: int, hi: int, rest: seq<Part>, r: Part,
                 block: seq<byte>, quadrant: seq<int>, med: int)
    requires Comparable(b, block, quadrant) && |b| + r.d <= |block| && Sorting(a, f, b, lo, hi, rest + [r]) && r.d <= 14
    requires |f| == |g| && lo <= r.lo <= r.hi + 1 && r.hi <= hi && Rearranged(f, g, r.lo, r.hi)
    requires Alike(b, f, r.lo, r.hi, r.d)
    requires HaveClasses(g, Keys(block, |b|, r.d), r.lo, r.hi)
    requires forall k :: r.lo <= k <= r.hi ==> Keys(block, |b|, r.d)[g[k]] == med
    ensures Sorting(a, g, b, lo, hi, rest + [r.(d := r.d + 1)])
  {
    hide Ranks, Rearranged, Comparable, Keys, Agree;
    var r' := r.(d := r.d + 1);
    AlikeRearranged(b, f, g, r.lo, r.hi, r.d);
    OneMoreAlike(b, block, quadrant, g, r.lo, r.hi, r.d, med);
    RangesAdd(rest, [r]);
    RangesAdd(rest, [r']);
    assert Ranges([r]) == [RangeOf(r)] && Ranges([r']) == [RangeOf(r)];
    assert forall p, q :: r.lo <= p < q <= r.hi ==> Holds(Ranges([r'])[0], p, q);
    PopReplace(a, f, g, b, lo, hi, rest, r, [r']);
  }

  /** Positions in different parts are in order. */
  lemma PartsOrdered(b: seq<byte>, g: seq<int>, lo: int, hi: int, n: int, m: int, d: nat, x: Part, y: Part, z: Part,
                     block: seq<byte>, quadrant: seq<int>, med: int)
    requires Comparable(b, block, quadrant) && |b| + d <= |block| && d <= 14
    requires 0 <= lo <= hi < |g| && Alike(b, g, lo, hi, d)
    requires ThreeParts(g, Keys(block, |b|, d), lo, hi, n, m, med) && InSomeOrder(x, y, z, Parts(lo, hi, n, m, d))
    ensures HaveClasses(g, Ranks(b), lo, hi) && OrderedOutside(g, Ranks(b), lo, hi, Ranges([x, y, z]))
  {
    hide Ranks, Comparable, Keys;
    var s := Ranges([x, y, z]);
    assert s[0] == RangeOf(x) && s[1] == RangeOf(y) && s[2] == RangeOf(z);
    forall p, q | lo <= p < q <= hi
      ensures Ranks(b)[g[p]] <= Ranks(b)[g[q]] || exists i :: 0 <= i < |s| && Holds(s[i], p, q)
    {
      if q <= n || m <= p || n < p < q < m {
        assert Holds(s[0], p, q) || Holds(s[1], p, q) || Holds(s[2], p, q);
      } else {
        assert Agree(b, g[p], g[q], d);
        KeyDecides(b, block, quadrant, g[p], g[q], d);
      }
    }
  }

  /** The parts have their common bytes, the middle one more. */
  lemma PartsAlike(b: seq<byte>, g: seq<int>, lo: int, hi: int, n: int, m: int, d: nat, x: Part, y: Part, z: Part,
                   block: seq<byte>, quadrant: seq<int>, med: int)
    requires Comparable(b, block, quadrant) && |b| + d <= |block| && d <= 14
    requires 0 <= lo <= hi < |g| && Alike(b, g, lo, hi, d)
    requires ThreeParts(g, Keys(block, |b|, d), lo, hi, n, m, med) && InSomeOrder(x, y, z, Parts(lo, hi, n, m, d))
    ensures AllAlike(b, g, [x, y, z])
  {
    AlikeNarrower(b, g, lo, hi, d, lo, n);
    AlikeNarrower(b, g, lo, hi, d, m, hi);
    AlikeNarrower(b, g, lo, hi, d, n + 1, m - 1);
    OneMoreAlike(b, block, quadrant, g, n + 1, m - 1, d, med);
    hide Alike;
  }

  lemma PartsWaiting(lo: int, hi: int, n: int, m: int, d: nat, x: Part, y: Part, z: Part)
    requires lo <= n + 1 <= m <= hi + 1 && InSomeOrder(x, y, z, Parts(lo, hi, n, m, d))
    ensures Waiting(Ranges([x, y, z]), lo, hi) && Ranges([x, y, z]) == [RangeOf(x), RangeOf(y), RangeOf(z)]
    ensures Size(RangeOf(x)) + Size(RangeOf(y)) + Size(RangeOf(z)) == hi - lo + 1
    ensures 0 <= Size(RangeOf(x)) && 0 <= Size(RangeOf(y)) && 0 <= Size(RangeOf(z))
  {
    var s := Ranges([x, y, z]);
    assert s == [RangeOf(x), RangeOf(y), RangeOf(z)];
    assert Disjoint(RangeOf(x), RangeOf(y)) && Disjoint(RangeOf(x), RangeOf(z)) && Disjoint(RangeOf(y), RangeOf(z));
    assert forall i :: 0 <= i < 3 ==> lo <= s[i].0 <= s[i].1 + 1 && s[i].1 <= hi;
    hide InSomeOrder;
  }

  /** The popped range has been split. */
  lemma PopSplit(a: seq<int>, f: seq<int>, g: seq<int>, b: seq<byte>, lo: int, hi: int, rest: seq<Part>, r: Part,
                 x: Part, y: Part, z: Part, n: int, m: int, block: seq<byte>, quadrant: seq<int>, med: int)
    requires Comparable(b, block, quadrant) && |b| + r.d <= |block| && Sorting(a, f, b, lo, hi, rest + [r]) && r.d <= 14
    requires |f| == |g| && lo <= r.lo && r.hi <= hi && r.hi - r.lo >= 20 && Rearranged(f, g, r.lo, r.hi)
    requires Alike(b, f, r.lo, r.hi, r.d)
    requires ThreeParts(g, Keys(block, |b|, r.d), r.lo, r.hi, n, m, med)
    requires InSomeOrder(x, y, z, Parts(r.lo, r.hi, n, m, r.d)) && NextSize(x) >= NextSize(y) >= NextSize(z)
    ensures Sorting(a, g, b, lo, hi, rest + [x, y, z])
  {
    hide Ranks, Rearranged, Comparable, Keys, Agree, InSomeOrder, AllAlike, OrderedOutside, Shrinking, Alike;
    AlikeRearranged(b, f, g, r.lo, r.hi, r.d);
    PartsOrdered(b, g, r.lo, r.hi, n, m, r.d, x, y, z, block, quadrant, med);
    PartsAlike(b, g, r.lo, r.hi, n, m, r.d, x, y, z, block, quadrant, med);
    PartsWaiting(r.lo, r.hi, n, m, r.d, x, y, z);
    RangesAdd(rest, [r]);
    RangesAdd(rest, [x, y, z]);
    assert Ranges([r]) == [RangeOf(r)];
    ShrinkingSplit(Ranges(rest), RangeOf(r), RangeOf(x), RangeOf(y), RangeOf(z), hi - lo + 1);
    PopReplace(a, f, g, b, lo, hi, rest, r, [x, y, z]);
  }

  lemma TopAlike(a: seq<int>, f: seq<int>, b: seq<byte>, lo: int, hi: int, rest: seq<Part>, r: Part)
    requires Sorting(a, f, b, lo, hi, rest + [r])
    ensures 0 <= lo <= r.lo <= r.hi + 1 && r.hi <= hi < |f| == |b| && r.d <= 15 && Alike(b, f, r.lo, r.hi, r.d)
  {
    hide Alike, Ranks;
    var s := rest + [r];
    assert s[|rest|] == r && Ranges(s)[|rest|] == RangeOf(r);
  }

  lemma BlockLength(b: seq<byte>, block: seq<byte>, quadrant: seq<int>)
    requires Comparable(b, block, quadrant)
    ensures |block| == |b| + 34 && |b| <= 900000
  {
  }

  lemma SplitLess(rest: seq<Part>, lo: int, hi: int, n: int, m: int, d: nat, x: Part, y: Part, z: Part)
    requires lo <= n + 1 < m <= hi + 1 && d <= 14 && InSomeOrder(x, y, z, Parts(lo, hi, n, m, d))
    ensures Work(rest + [x, y, z]) < Work(rest + [Part(lo, hi, d)])
  {
    WorkPush(rest, Part(lo, hi, d));
    WorkPush(rest, x);
    WorkPush(rest + [x], y);
    WorkPush(rest + [x] + [y], z);
    assert rest + [x] + [y] + [z] == rest + [x, y, z];
    LoadSplit(lo, hi, n, m, d);
    hide Load, Work;
  }

  lemma DeeperLess(rest: seq<Part>, lo: int, hi: int, d: nat)
    requires lo <= hi && d <= 14
    ensures Work(rest + [Part(lo, hi, d + 1)]) < Work(rest + [Part(lo, hi, d)])
  {
    WorkPush(rest, Part(lo, hi, d));
    WorkPush(rest, Part(lo, hi, d + 1));
    LoadDeeper(lo, hi, d);
  }

  /** One turn of the main loop on a long range, just popped. */
  method SplitTop(ptr: array<int>, block: seq<byte>, ghost quadrant: seq<int>, nblock: int, stack: PartStack, lo: int,
        hi: int, d: nat, ghost b: seq<byte>, ghost a: seq<int>, ghost loSt: int, ghost hiSt: int)
    requires nblock == |b| && Comparable(b, block, quadrant) && d <= 14 && hi - lo >= 20
    requires stack.stackLo != ptr && stack.stackHi != ptr && stack.Valid() && stack.sp <= 97
    requires Sorting(a, ptr[..], b, loSt, hiSt, stack.Contents() + [Part(lo, hi, d)])
    modifies ptr, stack, stack.stackLo, stack.stackHi, stack.stackD
    ensures stack.Valid() && Sorting(a, ptr[..], b, loSt, hiSt, stack.Contents())
    ensures Work(stack.Contents()) < old(Work(stack.Contents() + [Part(lo, hi, d)]))
  {
    hide Rearranged, Work, Comparable, Sorting, Alike, ThreeParts, InSomeOrder, Keys, HaveClasses;
    ghost var f, rest := ptr[..], stack.Contents();
    TopAlike(a, f, b, loSt, hiSt, rest, Part(lo, hi, d));
    BlockLength(b, block, quadrant);
    AlikeKeys(b, block, quadrant, f, lo, hi, d);
    var allEqual, n, m;
    ghost var med;
    allEqual, n, m, med := Split(ptr, block, quadrant, nblock, lo, hi, d, b);
    if allEqual {
      PopEqual(a, f, ptr[..], b, loSt, hiSt, rest, Part(lo, hi, d), block, quadrant, med);
      DeeperLess(rest, lo, hi, d);
      stack.Push(lo, hi, d + 1);
      return;
    }
    ghost var x, y, z := PushParts(stack, lo, hi, n, m, d);
    PopSplit(a, f, ptr[..], b, loSt, hiSt, rest, Part(lo, hi, d), x, y, z, n, m, block, quadrant, med);
    SplitLess(rest, lo, hi, n, m, d, x, y, z);
  }

  lemma AlikeKeys(b: seq<byte>, block: seq<byte>, quadrant: seq<int>, f: seq<int>, lo: int, hi: int, d: nat)
    requires Comparable(b, block, quadrant) && |b| + d <= |block| && 0 <= lo <= hi + 1 <= |f| && Alike(b, f, lo, hi, d)
    ensures HaveClasses(f, Keys(block, |b|, d), lo, hi)
  {
  }

  const MAIN_QSORT_SMALL_THRESH := 20
  /** BZ_N_RADIX + BZ_N_QSORT */
  const MAIN_QSORT_DEPTH_THRESH := 2 + 12

  /** One turn of the main loop. */
  method SortTop(ptr: array<int>, block: seq<byte>, quadrant: seq<int>, nblock: int, stack: PartStack, budget: int,
                 ghost b: seq<byte>, ghost a: seq<int>, ghost loSt: int, ghost hiSt: int)
    returns (left: int, abandoned: bool)
    requires nblock == |b| == ptr.Length && Comparable(b, block, quadrant)
    requires stack.stackLo != ptr && stack.stackHi != ptr && stack.Valid() && 0 < stack.sp <= 98
    requires Sorting(a, ptr[..], b, loSt, hiSt, stack.Contents())
    modifies ptr, stack, stack.stackLo, stack.stackHi, stack.stackD
    ensures stack.Valid() && left <= budget && (abandoned ==> left < 0)
    ensures 0 <= loSt <= hiSt + 1 <= |a| && Rearranged(a, ptr[..], loSt, hiSt)
    ensures !abandoned ==> Sorting(a, ptr[..], b, loSt, hiSt, stack.Contents())
    ensures !abandoned ==> Work(stack.Contents()) < old(Work(stack.Contents()))
  {
    hide Rearranged, Work, Comparable, Sorting, Alike, HaveClasses, Ranks, SortedByClass;
    ghost var f, s := ptr[..], stack.Contents();
    left, abandoned := budget, false;
    var lo, hi, d := stack.Pop();
    ghost var rest := stack.Contents();
    TopAlike(a, f, b, loSt, hiSt, rest, Part(lo, hi, d));
    if hi - lo < MAIN_QSORT_SMALL_THRESH || d > MAIN_QSORT_DEPTH_THRESH {
      left := SimpleSort(ptr, block, quadrant, nblock, lo, hi, d, budget, b);
      WithinStart(a, f, ptr[..], b, loSt, hiSt, rest, Part(lo, hi, d));
      if left < 0 { return left, true; }
      PopSorted(a, f, ptr[..], b, loSt, hiSt, rest, Part(lo, hi, d));
      WorkPush(rest, Part(lo, hi, d));
      LoadPositive(Part(lo, hi, d));
    } else {
      SplitTop(ptr, block, quadrant, nblock, stack, lo, hi, d, b, a, loSt, hiSt);
      SortingWithin(a, ptr[..], b, loSt, hiSt, stack.Contents());
    }
  }

  lemma SortingWithin(a: seq<int>, f: seq<int>, b: seq<byte>, lo: int, hi: int, stack: seq<Part>)
    requires Sorting(a, f, b, lo, hi, stack)
    ensures 0 <= lo <= hi + 1 <= |a| == |f| && Rearranged(a, f, lo, hi)
  {
  }

  lemma WithinStart(a: seq<int>, f: seq<int>, g: seq<int>, b: seq<byte>, lo: int, hi: int, rest: seq<Part>, r: Part)
    requires Sorting(a, f, b, lo, hi, rest + [r])
    requires |f| == |g| && 0 <= lo <= r.lo <= r.hi + 1 && r.hi <= hi < |f| && Rearranged(f, g, r.lo, r.hi)
    ensures hi + 1 <= |a| && Rearranged(a, g, lo, hi)
  {
    RearrangedWider(f, g, r.lo, r.hi, lo, hi);
    RearrangedTwice(a, f, g, lo, hi);
  }

  /** mainQSort3: loSt..hiSt, positions with their first dSt bytes in common, ends up in rotation
      order unless the budget has run out; no other slot changes, and the stack never comes near
      its 100 entries: assertion 1001 cannot fail. */
  method QSort3(ptr: array<int>, block: seq<byte>, quadrant: seq<int>, nblock: int, loSt: int, hiSt: int, dSt: nat,
        budget: int, ghost b: seq<byte>)
    returns (left: int)
    requires nblock == |b| == ptr.Length && Comparable(b, block, quadrant) && dSt <= 15
    requires 0 <= loSt <= hiSt < ptr.Length && Alike(b, ptr[..], loSt, hiSt, dSt)
    modifies ptr
    ensures Rearranged(old(ptr[..]), ptr[..], loSt, hiSt) && left <= budget
    ensures left >= 0 ==> HaveClasses(ptr[..], Ranks(b), loSt, hiSt) && SortedByClass(ptr[..], Ranks(b), loSt, hiSt)
  {
    hide Rearranged, Work, Comparable, Sorting, Alike, HaveClasses, Ranks, SortedByClass, Shrinking;
    ghost var a := ptr[..];
    left := budget;
    var stack := new PartStack();
    stack.Push(loSt, hiSt, dSt);
    assert stack.Contents() == [Part(loSt, hiSt, dSt)];
    SortingStarts(a, b, loSt, hiSt, dSt);
    NotRearranged(a, loSt, hiSt);
    BlockLength(b, block, quadrant);
    while stack.sp > 0
      invariant stack.Valid() && left <= budget && Sorting(a, ptr[..], b, loSt, hiSt, stack.Contents())
      decreases Work(stack.Contents())
    {
      SortingLow(a, ptr[..], b, loSt, hiSt, stack.Contents());
      assert stack.sp < 100 - 2;
      var abandoned;
      left, abandoned := SortTop(ptr, block, quadrant, nblock, stack, left, b, a, loSt, hiSt);
      if abandoned { return; }
    }
    assert stack.Contents() == [];
    SortingEnds(a, ptr[..], b, loSt, hiSt);
  }

  lemma SortingLow(a: seq<int>, f: seq<int>, b: seq<byte>, lo: int, hi: int, stack: seq<Part>)
    requires Sorting(a, f, b, lo, hi, stack) && |b| <= 900000
    ensures |stack| <= 34
  {
    StackStaysLow(Ranges(stack), hi - lo + 1);
  }
}
