/** fallbackQSort3: sorting a stretch of fmap by equivalence class with an explicit stack, whose
    depth stays logarithmic because the smaller part is always taken first. */
module FallbackQSort {
  import opened Rearranging
  import opened SortStack
  import opened Partitioning
  import opened FallbackSimpleSort

  /** The range k places from the bottom has at most the 2^k-th part of the n entries, and the
      last split was of a range of more than ten. */
  ghost predicate Halving(stack: seq<Range>, n: int) {
    && (forall k :: 0 <= k < |stack| ==> Doubled(Size(stack[k]), k) <= n)
    && (|stack| >= 2 ==> Doubled(11, |stack| - 2) <= n)
  }

  /** A stack of d ranges needs 11 * 2^(d-2) entries. */
  lemma DepthIsLogarithmic(stack: seq<Range>, n: int)
    requires Halving(stack, n)
    ensures n <= 900000 ==> |stack| <= 18
    ensures n < 0x8000_0000 ==> |stack| <= 29
  {
    assert Doubled(11, 4) == 176 && Doubled(11, 8) == 2816 && Doubled(11, 12) == 45056;
    assert Doubled(11, 16) == 720896 && Doubled(11, 17) == 1441792;
    assert Doubled(11, 21) == 23068672 && Doubled(11, 25) == 369098752 && Doubled(11, 28) == 2952790016;
    if |stack| >= 19 { DoubledDeeper(11, 17, |stack| - 2); }
    if |stack| >= 30 { DoubledDeeper(11, 28, |stack| - 2); }
  }

  /** One round of the main loop on a long range: choose a class, partition around it and gather
      the middle. At least the chosen entry ends up in the middle. */
  method Split(fmap: array<int>, eclass: array<int>, lo: int, hi: int, r: int)
    returns (allEqual: bool, n: int, m: int, r': int, ghost med: int)
    requires fmap != eclass
    requires 0 <= lo <= hi < fmap.Length && HaveClasses(fmap[..], eclass[..], lo, hi)
    requires 0 <= r < 32768
    modifies fmap
    ensures 0 <= r' < 32768
    ensures Rearranged(old(fmap[..]), fmap[..], lo, hi) && HaveClasses(fmap[..], eclass[..], lo, hi)
    ensures allEqual ==> SortedByClass(fmap[..], eclass[..], lo, hi)
    ensures !allEqual ==> ThreeParts(fmap[..], eclass[..], lo, hi, n, m, med)
    ensures !allEqual ==> lo <= n + 1 < m <= hi + 1
  {
    ghost var a := fmap[..];
    n, m := lo - 1, hi + 1;
    r' := (r * 7621 + 1) % 32768;
    var r3 := r' % 3;
    var pick := if r3 == 0 then lo else if r3 == 1 then (lo + hi) / 2 else hi;
    var cls := eclass[fmap[pick]];
    med := cls;
    var lt, un, uh, gt := PartitionStretch(fmap, eclass[..], lo, hi, cls);
    allEqual := gt < lt;
    if !allEqual {
      ghost var b := fmap[..];
      Gather(fmap, eclass[..], lo, hi, lt, un, gt, cls);
      RearrangedTwice(a, b, fmap[..], lo, hi);
      n := lo + un - lt - 1;
      m := hi - (gt - uh) + 1;
      ghost var j := RearrangedInside(fmap[..], a, lo, hi, pick);
      assert n < j < m;
    }
  }

  ghost function Pairs(lows: seq<int>, highs: seq<int>): (r: seq<Range>)
    requires |lows| == |highs|
    ensures |r| == |lows|
  {
    seq(|lows|, i requires 0 <= i < |lows| => (lows[i], highs[i]))
  }

  /** stackLo and stackHi with the stack pointer. */
  class RangeStack {
    const stackLo: array<int>
    const stackHi: array<int>
    var sp: int

    constructor ()
      ensures Valid() && Ranges() == [] && fresh(stackLo) && fresh(stackHi)
    {
      stackLo := new int[100](_ => 0);
      stackHi := new int[100](_ => 0);
      sp := 0;
    }

    ghost predicate Valid()
      reads this
    {
      stackLo != stackHi && stackLo.Length == stackHi.Length == 100 && 0 <= sp <= 100
    }

    ghost function Ranges(): (r: seq<Range>)
      requires Valid()
      reads this, stackLo, stackHi
      ensures |r| == sp
    {
      Pairs(stackLo[..sp], stackHi[..sp])
    }

    method Push(lo: int, hi: int)
      requires Valid() && sp < 100
      modifies this, stackLo, stackHi
      ensures Valid() && Ranges() == old(Ranges()) + [(lo, hi)]
    {
      stackLo[sp] := lo;
      stackHi[sp] := hi;
      sp := sp + 1;
    }

    method Pop() returns (lo: int, hi: int)
      requires Valid() && sp > 0
      modifies this
      ensures Valid() && old(Ranges()) == Ranges() + [(lo, hi)]
    {
      sp := sp - 1;
      lo, hi := stackLo[sp], stackHi[sp];
    }
  }

  /** What every turn of the main loop keeps. */
  ghost predicate Sorting(a: seq<int>, f: seq<int>, e: seq<int>, lo: int, hi: int, stack: seq<Range>) {
    && 0 <= lo <= hi + 1 <= |f| == |a|
    && Rearranged(a, f, lo, hi) && HaveClasses(f, e, lo, hi)
    && Waiting(stack, lo, hi) && OrderedOutside(f, e, lo, hi, stack) && Halving(stack, hi - lo + 1)
  }

  lemma SortingStarts(a: seq<int>, e: seq<int>, lo: int, hi: int)
    requires 0 <= lo <= hi < |a| && HaveClasses(a, e, lo, hi)
    ensures Sorting(a, a, e, lo, hi, [(lo, hi)])
  {
    var s: seq<Range> := [(lo, hi)];
    assert forall p, q :: lo <= p < q <= hi ==> Holds(s[0], p, q);
  }

  lemma SortingEnds(a: seq<int>, f: seq<int>, e: seq<int>, lo: int, hi: int, stack: seq<Range>)
    requires |stack| == 0 && Sorting(a, f, e, lo, hi, stack)
    ensures Rearranged(a, f, lo, hi) && HaveClasses(f, e, lo, hi) && SortedByClass(f, e, lo, hi)
  {
  }

  /** Dropping the top keeps what holds of the ranges below it. */
  lemma BelowTop(rest: seq<Range>, r: Range, lo: int, hi: int, n: int)
    requires Waiting(rest + [r], lo, hi) && Halving(rest + [r], n)
    ensures Waiting(rest, lo, hi) && Halving(rest, n)
  {
    var s := rest + [r];
    forall i | 0 <= i < |rest|
      ensures lo <= rest[i].0 <= rest[i].1 + 1 && rest[i].1 <= hi && Doubled(Size(rest[i]), i) <= n
    {
      assert rest[i] == s[i];
    }
    forall i, j | 0 <= i < j < |rest| ensures Disjoint(rest[i], rest[j]) {
      assert Disjoint(s[i], s[j]);
    }
    if |rest| >= 2 { DoubledDeeper(11, |rest| - 2, |rest| - 1); }
  }

  /** The popped range has been sorted outright. */
  lemma PopSorted(a: seq<int>, f: seq<int>, g: seq<int>, e: seq<int>, lo: int, hi: int, rest: seq<Range>, r: Range)
    requires Sorting(a, f, e, lo, hi, rest + [r])
    requires lo <= r.0 <= r.1 + 1 && r.1 <= hi
    requires Rearranged(f, g, r.0, r.1)
    requires HaveClasses(g, e, r.0, r.1) && SortedByClass(g, e, r.0, r.1)
    ensures Sorting(a, g, e, lo, hi, rest)
  {
    HaveClassesRearranged(f, g, e, r.0, r.1, lo, hi);
    PopAndSplit(f, g, e, lo, hi, rest, r, []);
    assert rest + [] == rest;
    RearrangedWider(f, g, r.0, r.1, lo, hi);
    RearrangedTwice(a, f, g, lo, hi);
    BelowTop(rest, r, lo, hi, hi - lo + 1);
  }

  /** The popped range has been split; the larger part is pushed first. */
  lemma PopSplit(a: seq<int>, f: seq<int>, g: seq<int>, e: seq<int>, lo: int, hi: int, rest: seq<Range>, r: Range,
                 x: Range, y: Range, n: int, m: int, med: int)
    requires Sorting(a, f, e, lo, hi, rest + [r])
    requires lo <= r.0 <= r.1 && r.1 <= hi && r.1 - r.0 >= 10
    requires Rearranged(f, g, r.0, r.1)
    requires ThreeParts(g, e, r.0, r.1, n, m, med) && n + 1 < m
    requires (x == (r.0, n) && y == (m, r.1) && Size(x) >= Size(y)) ||
      (x == (m, r.1) && y == (r.0, n) && Size(x) >= Size(y))
    ensures Sorting(a, g, e, lo, hi, rest + [x, y])
  {
    HaveClassesRearranged(f, g, e, r.0, r.1, lo, hi);
    forall p, q | r.0 <= p < q <= r.1
      ensures e[g[p]] <= e[g[q]] || exists i :: 0 <= i < |[x, y]| && Holds([x, y][i], p, q)
    {
      if q <= n || m <= p {
        assert Holds([x, y][0], p, q) || Holds([x, y][1], p, q);
      }
    }
    PopAndSplit(f, g, e, lo, hi, rest, r, [x, y]);
    RearrangedWider(f, g, r.0, r.1, lo, hi);
    RearrangedTwice(a, f, g, lo, hi);
    WaitingParts(rest, r, [x, y], lo, hi);
    HalvingSplit(rest, r, x, y, hi - lo + 1);
  }

  lemma HalvingSplit(rest: seq<Range>, r: Range, x: Range, y: Range, n: int)
    requires Halving(rest + [r], n) && Size(r) >= 11
    requires 0 <= Size(y) <= Size(x) && Size(x) + Size(y) < Size(r)
    ensures Halving(rest + [x, y], n)
  {
    var s, t := rest + [r], rest + [x, y];
    var k := |rest|;
    assert s[k] == r && Doubled(Size(r), k) <= n;
    DoubledMonotone(Size(x), Size(r), k);
    DoubledMonotone(2 * Size(y), Size(r), k);
    DoubledMonotone(Size(y), Size(y), k);
    DoubledMonotone(11, Size(r), k);
    forall i | 0 <= i < |t| ensures Doubled(Size(t[i]), i) <= n {
      if i < k {
        assert t[i] == s[i];
      } else {
        assert t[i] == if i == k then x else y;
      }
    }
  }

  /** A measure that every turn lowers. */
  ghost function Work(stack: seq<Range>): int {
    if |stack| == 0 then 0 else Work(stack[..|stack| - 1]) + 2 * Size(stack[|stack| - 1]) + 1
  }

  lemma WorkPush(rest: seq<Range>, r: Range)
    ensures Work(rest + [r]) == Work(rest) + 2 * Size(r) + 1
  {
    assert (rest + [r])[..|rest|] == rest;
  }

  lemma {:induction false} WorkNonNegative(stack: seq<Range>)
    requires forall i :: 0 <= i < |stack| ==> Size(stack[i]) >= 0
    ensures Work(stack) >= 0
  {
    if |stack| > 0 { WorkNonNegative(stack[..|stack| - 1]); }
  }

  /** The parts of the popped range go on the stack, the larger one first. */
  method PushParts(stack: RangeStack, lo: int, hi: int, n: int, m: int)
    returns (ghost x: Range, ghost y: Range)
    requires stack.Valid() && stack.sp <= 98
    modifies stack, stack.stackLo, stack.stackHi
    ensures stack.Valid() && stack.Ranges() == old(stack.Ranges()) + [x, y]
    ensures (x, y) == ((lo, n), (m, hi)) || (x, y) == ((m, hi), (lo, n))
    ensures Size(x) >= Size(y)
  {
    ghost var before := stack.Ranges();
    if n - lo > hi - m {
      x, y := (lo, n), (m, hi);
      stack.Push(lo, n);
      stack.Push(m, hi);
    } else {
      x, y := (m, hi), (lo, n);
      stack.Push(m, hi);
      stack.Push(lo, n);
    }
    assert before + [x] + [y] == before + [x, y];
  }

  /** One turn of the main loop on a long range, just popped. */
  method SplitTop(fmap: array<int>, eclass: array<int>, stack: RangeStack, lo: int, hi: int, r: int,
                  ghost a: seq<int>, ghost loSt: int, ghost hiSt: int)
    returns (r': int)
    requires fmap != eclass && stack.stackLo != fmap && stack.stackLo != eclass
    requires stack.stackHi != fmap && stack.stackHi != eclass
    requires stack.Valid() && stack.sp <= 97 && 0 <= r < 32768 && hi - lo >= 10
    requires loSt <= lo && hi <= hiSt
    requires Sorting(a, fmap[..], eclass[..], loSt, hiSt, stack.Ranges() + [(lo, hi)])
    modifies fmap, stack, stack.stackLo, stack.stackHi
    ensures stack.Valid() && 0 <= r' < 32768
    ensures Sorting(a, fmap[..], eclass[..], loSt, hiSt, stack.Ranges())
    ensures Work(stack.Ranges()) < old(Work(stack.Ranges() + [(lo, hi)]))
  {
    hide Rearranged, OrderedOutside, Work, Halving, SortedByClass, Pairs;
    ghost var f, e, rest := fmap[..], eclass[..], stack.Ranges();
    var allEqual, n, m;
    ghost var med;
    WorkPush(rest, (lo, hi));
    allEqual, n, m, r', med := Split(fmap, eclass, lo, hi, r);
    if allEqual {
      PopSorted(a, f, fmap[..], e, loSt, hiSt, rest, (lo, hi));
      return;
    }
    ghost var x, y := PushParts(stack, lo, hi, n, m);
    PopSplit(a, f, fmap[..], e, loSt, hiSt, rest, (lo, hi), x, y, n, m, med);
    WorkPush(rest, x);
    WorkPush(rest + [x], y);
    assert rest + [x] + [y] == rest + [x, y];
  }

  /** One turn of the main loop. */
  method SortTop(fmap: array<int>, eclass: array<int>, stack: RangeStack, r: int,
                 ghost a: seq<int>, ghost loSt: int, ghost hiSt: int)
    returns (r': int)
    requires fmap != eclass && stack.stackLo != fmap && stack.stackLo != eclass
    requires stack.stackHi != fmap && stack.stackHi != eclass
    requires stack.Valid() && 0 < stack.sp <= 98 && 0 <= r < 32768
    requires Sorting(a, fmap[..], eclass[..], loSt, hiSt, stack.Ranges())
    modifies fmap, stack, stack.stackLo, stack.stackHi
    ensures stack.Valid() && 0 <= r' < 32768
    ensures Sorting(a, fmap[..], eclass[..], loSt, hiSt, stack.Ranges())
    ensures Work(stack.Ranges()) < old(Work(stack.Ranges()))
  {
    ghost var f, e, s := fmap[..], eclass[..], stack.Ranges();
    var lo, hi := stack.Pop();
    assert s[|s| - 1] == (lo, hi);
    if hi - lo < 10 {
      WorkPush(stack.Ranges(), (lo, hi));
      SimpleSort(fmap, eclass, lo, hi);
      PopSorted(a, f, fmap[..], e, loSt, hiSt, stack.Ranges(), (lo, hi));
      r' := r;
    } else {
      r' := SplitTop(fmap, eclass, stack, lo, hi, r, a, loSt, hiSt);
    }
  }

  /** fallbackQSort3: lo..hi is sorted by class, nothing else moves, and the stack never comes
      near its 100 entries: assertion 1004 cannot fail. */
  method QSort3(fmap: array<int>, eclass: array<int>, loSt: int, hiSt: int)
    requires fmap != eclass
    requires 0 <= loSt <= hiSt < fmap.Length && hiSt - loSt + 1 < 0x8000_0000
    requires HaveClasses(fmap[..], eclass[..], loSt, hiSt)
    modifies fmap
    ensures Rearranged(old(fmap[..]), fmap[..], loSt, hiSt)
    ensures HaveClasses(fmap[..], eclass[..], loSt, hiSt) && SortedByClass(fmap[..], eclass[..], loSt, hiSt)
  {
    hide Rearranged, SortedByClass, OrderedOutside, Work;
    ghost var a, e := fmap[..], eclass[..];
    var r := 0;
    var stack := new RangeStack();
    stack.Push(loSt, hiSt);
    assert stack.Ranges() == [(loSt, hiSt)];
    SortingStarts(a, e, loSt, hiSt);
    while stack.sp > 0
      invariant stack.Valid() && 0 <= r < 32768 && eclass[..] == e
      invariant Sorting(a, fmap[..], e, loSt, hiSt, stack.Ranges())
      decreases Work(stack.Ranges())
    {
      DepthIsLogarithmic(stack.Ranges(), hiSt - loSt + 1);
      WorkNonNegative(stack.Ranges());
      assert stack.sp < 100 - 1;
      r := SortTop(fmap, eclass, stack, r, a, loSt, hiSt);
    }
    SortingEnds(a, fmap[..], e, loSt, hiSt, stack.Ranges());
  }
}
