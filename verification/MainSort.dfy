/** mainSort: radix sort on two bytes, then big bucket by big bucket, with quicksort where needed
    and the copy phase where possible. */
module MainSort {
  import opened Bytes
  import opened Permutations
  import opened Rotations
  import opened Rearranging
  import opened Partitioning
  import opened BucketScan
  import opened MainScan
  import opened BlockArea
  import opened MainCompare
  import opened MainSimpleSort
  import opened MainQSort
  import opened QuadrantCache
  import opened RadixSort
  import RunningOrder

  /** What the main loop keeps. Marked small buckets are in order, and so are all small buckets of
      the big buckets that are done. */
  ghost predicate Buckets(b: seq<byte>, ptr: seq<int>, ftab: seq<int>, done: seq<bool>) {
    && |ptr| == |b| && |done| == 256 && Starting(ftab, b)
    && (forall key :: 0 <= key < 65536 ==> Holds(ptr, b, key))
    && (forall key :: 0 <= key < 65536 && Marked(ftab[key]) ==> InOrder(ptr, b, key))
    && (forall t: byte, y: byte :: done[t] ==> InOrder(ptr, b, KeyOf(t, y)))
  }

  /** Positions with the same key have two bytes in common. */
  lemma BucketAlike(b: seq<byte>, ptr: seq<int>, key: int)
    requires |b| > 1 && 0 <= key < 65536 && Holds(ptr, b, key)
    ensures Alike(b, ptr, At(b, key), At(b, key + 1) - 1, 2)
  {
    hide Ranks;
    var lo, hi := At(b, key), At(b, key + 1);
    var s := ptr[lo..hi];
    forall k | lo <= k < hi ensures 0 <= ptr[k] < |b| && Key(b, ptr[k]) == key { assert s[k - lo] in Elems(s); }
    forall x, y | lo <= x < hi && lo <= y < hi ensures Agree(b, ptr[x], ptr[y], 2) {
      SameKeyAgree(b, ptr[x], ptr[y]);
    }
  }

  lemma SameKeyAgree(b: seq<byte>, p: int, q: int)
    requires 0 <= p < |b| && 0 <= q < |b| && Key(b, p) == Key(b, q)
    ensures Agree(b, p, q, 2)
  {
    var n := |b|;
    assert Ahead(n, p, 0) == p && Ahead(n, q, 0) == q;
    assert Ahead(n, p, 1) == Next(n, Ahead(n, p, 0)) && Ahead(n, q, 1) == Next(n, Ahead(n, q, 0));
    forall k | 0 <= k < 2 ensures b[Ahead(n, p, k)] == b[Ahead(n, q, k)] {
      if k == 1 { assert b[Next(n, p)] == b[Next(n, q)]; }
    }
  }

  /** A rearranged list still lists the same set. */
  lemma ListsRearranged(s: seq<int>, t: seq<int>, S: set<int>)
    requires Lists(s, S) && multiset(s) == multiset(t)
    ensures Lists(t, S)
  {
    forall x ensures x in Elems(t) <==> x in Elems(s) {
      assert x in multiset(t) <==> x in multiset(s);
    }
    forall i, j | 0 <= i < j < |t| ensures t[i] != t[j] {
      OnceEach(s, t[i]);
      if t[i] == t[j] { TwiceThere(t, i, j); }
    }
  }

  lemma BucketRearranged(b: seq<byte>, f: seq<int>, g: seq<int>, key: int)
    requires 0 <= key < 65536 && Holds(f, b, key) && Rearranged(f, g, At(b, key), At(b, key + 1) - 1)
    ensures Holds(g, b, key)
  {
    ListsRearranged(f[At(b, key)..At(b, key + 1)], g[At(b, key)..At(b, key + 1)], Bucket(b, key));
  }

  lemma BucketSorted(b: seq<byte>, g: seq<int>, key: int)
    requires 0 <= key < 65536 && Holds(g, b, key) && HaveClasses(g, Ranks(b), At(b, key), At(b, key + 1) - 1)
    requires SortedByClass(g, Ranks(b), At(b, key), At(b, key + 1) - 1)
    ensures InOrder(g, b, key)
  {
    hide Ranks;
    var lo, hi := At(b, key), At(b, key + 1);
    var s := g[lo..hi];
    forall i, j | 0 <= i < j < |s| ensures 0 <= s[i] < |b| && 0 <= s[j] < |b| && Le(b, s[i], s[j]) {
      assert s[i] == g[lo + i] && s[j] == g[lo + j];
      RankOrder(b, s[i], s[j]);
    }
    forall i | 0 <= i < |s| ensures 0 <= s[i] < |b| { assert s[i] == g[lo + i]; }
  }

  /** A bucket of at most one position is in order. */
  lemma TinyBucket(b: seq<byte>, g: seq<int>, key: int)
    requires 0 <= key < 65536 && Holds(g, b, key) && At(b, key + 1) <= At(b, key) + 1
    ensures InOrder(g, b, key)
  {
    var s := g[At(b, key)..At(b, key + 1)];
    forall i | 0 <= i < |s| ensures 0 <= s[i] < |b| { assert s[i] in Elems(s); }
  }

  /** A bucket that shares no slot with the stretch is as it was. */
  lemma BucketElsewhere(b: seq<byte>, f: seq<int>, g: seq<int>, key: int, other: int)
    requires 0 <= key < 65536 && 0 <= other < 65536 && key != other && |f| == |b| && Holds(f, b, key)
    requires At(b, other) <= At(b, other + 1) <= |f| && Rearranged(f, g, At(b, other), At(b, other + 1) - 1)
    ensures Holds(g, b, key) && (InOrder(f, b, key) ==> InOrder(g, b, key))
  {
    var lo, hi := At(b, key), At(b, key + 1);
    if key < other { SlotsApart(b, key, other); } else { SlotsApart(b, other, key); }
    forall k | lo <= k < hi ensures f[k] == g[k] { RearrangedOutside(f, g, At(b, other), At(b, other + 1) - 1, k); }
    assert f[lo..hi] == g[lo..hi];
  }

  /** Small bucket sb has been sorted; it may be marked. */
  lemma BucketsStep(b: seq<byte>, f: seq<int>, g: seq<int>, ftab: seq<int>, done: seq<bool>, sb: int)
    requires Buckets(b, f, ftab, done) && 0 <= sb < 65536 && !Marked(ftab[sb])
    requires At(b, sb) <= At(b, sb + 1) <= |f| && Rearranged(f, g, At(b, sb), At(b, sb + 1) - 1) && InOrder(g, b, sb)
    ensures Buckets(b, g, ftab, done)
    ensures forall key :: 0 <= key < 65536 && InOrder(f, b, key) ==> InOrder(g, b, key)
  {
    assert Holds(f, b, sb) && Holds(g, b, sb);
    forall key | 0 <= key < 65536 ensures Holds(g, b, key) && (InOrder(f, b, key) ==> InOrder(g, b, key)) {
      assert Holds(f, b, key);
      if key != sb { BucketElsewhere(b, f, g, key, sb); }
    }
    hide At, Holds, InOrder, Starting, Rearranged, Marked;
  }

  lemma MarkStep(b: seq<byte>, ptr: seq<int>, ftab: seq<int>, done: seq<bool>, sb: int)
    requires Buckets(b, ptr, ftab, done) && 0 <= sb < 65536 && InOrder(ptr, b, sb)
    ensures Buckets(b, ptr, ftab[sb := WithMask(ftab[sb])], done)
  {
    MaskKeeps(ftab[sb]);
    hide At, Holds, InOrder;
  }

  /** The slots of a small bucket. */
  lemma BucketRange(b: seq<byte>, ptr: seq<int>, ftab: seq<int>, done: seq<bool>, sb: int)
    requires Buckets(b, ptr, ftab, done) && 0 <= sb < 65536
    ensures |ftab| == 65537 && Clear(ftab[sb]) == At(b, sb) <= At(b, sb + 1) == Clear(ftab[sb + 1]) <= |ptr|
    ensures Holds(ptr, b, sb)
    ensures 0 <= ftab[sb] < 2 * SETMASK
  {
    assert Holds(ptr, b, sb);
  }

  /** One small bucket of Step 1. */
  method SortSmall(ptr: array<int>, block: seq<byte>, quadrant: seq<int>, ftab: array<uint32>, nblock: int, sb: int,
        budget: int, ghost b: seq<byte>, ghost done: seq<bool>)
    returns (left: int)
    requires nblock == |b| == ptr.Length && Comparable(b, block, quadrant) && 0 <= sb < 65536
    requires Buckets(b, ptr[..], ftab[..], done)
    modifies ptr, ftab
    ensures left <= budget
    ensures (budget >= 0 && left >= 0 ==> Buckets(b, ptr[..], ftab[..], done) && InOrder(ptr[..], b, sb))
    ensures left >= 0 ==> forall key :: 0 <= key < 65536 && InOrder(old(ptr[..]), b, key) ==> InOrder(ptr[..], b, key)
  {
    hide At, Holds, InOrder, Starting, Rearranged, Comparable, Ranks, Alike, HaveClasses, SortedByClass, Buckets;
    hide Marked, Clear;
    left := budget;
    ghost var f := ptr[..];
    BucketRange(b, f, ftab[..], done, sb);
    if !Marked(ftab[sb]) {
      var lo := Clear(ftab[sb]);
      var hi := Clear(ftab[sb + 1]) - 1;
      if hi > lo {
        BlockLength(b, block, quadrant);
        BucketAlike(b, f, sb);
        left := QSort3(ptr, block, quadrant, nblock, lo, hi, 2, budget, b);
        if left < 0 { return; }
        BucketRearranged(b, f, ptr[..], sb);
        BucketSorted(b, ptr[..], sb);
        BucketsStep(b, f, ptr[..], ftab[..], done, sb);
      } else {
        TinyBucket(b, f, sb);
      }
    } else {
      MarkedInOrder(b, f, ftab[..], done, sb);
    }
    MarkStep(b, ptr[..], ftab[..], done, sb);
    SetMark(ftab, sb);
  }

  /** ftab[sb] |= SETMASK */
  method SetMark(ftab: array<uint32>, sb: int)
    requires 0 <= sb < ftab.Length && ftab[sb] < 2 * SETMASK
    modifies ftab
    ensures ftab[..] == old(ftab[..])[sb := WithMask(old(ftab[sb]))]
  {
    ftab[sb] := WithMask(ftab[sb]);
  }

  lemma MarkedInOrder(b: seq<byte>, ptr: seq<int>, ftab: seq<int>, done: seq<bool>, sb: int)
    requires Buckets(b, ptr, ftab, done) && 0 <= sb < 65536 && Marked(ftab[sb])
    ensures InOrder(ptr, b, sb)
  {
  }

  /** Step 1: the small buckets [ss,j] for j != ss. */
  method SortUnsorted(ptr: array<int>, block: seq<byte>, quadrant: seq<int>, ftab: array<uint32>, nblock: int, ss: byte,
        budget: int, ghost b: seq<byte>, ghost done: seq<bool>)
    returns (left: int)
    requires nblock == |b| == ptr.Length && Comparable(b, block, quadrant) && budget >= 0
    requires Buckets(b, ptr[..], ftab[..], done)
    modifies ptr, ftab
    ensures left <= budget
    ensures left >= 0 ==> Buckets(b, ptr[..], ftab[..], done) && forall y :: 0 <= y < 256 && y != ss ==>
          InOrder(ptr[..], b, KeyOf(ss, y))
  {
    hide InOrder, Comparable, Buckets;
    left := budget;
    for j := 0 to 256
      invariant 0 <= left <= budget && Buckets(b, ptr[..], ftab[..], done)
      invariant forall y :: 0 <= y < j && y != ss ==> InOrder(ptr[..], b, KeyOf(ss, y))
    {
      if j != ss {
        var sb := ss * 256 + j;
        assert sb == KeyOf(ss, j);
        left := SortSmall(ptr, block, quadrant, ftab, nblock, sb, left, b, done);
        if left < 0 { return; }
      }
    }
  }

  /** Step 2 leaves a small bucket alone unless it fills it. */
  lemma BucketUntouched(b: seq<byte>, f: seq<int>, g: seq<int>, ss: byte, done: seq<bool>, key: int)
    requires |done| == 256 && 0 <= key < 65536 && Untouched(b, ss, done, f, g) && Holds(f, b, key)
    requires key % 256 != ss || done[key / 256]
    ensures Holds(g, b, key) && (InOrder(f, b, key) ==> InOrder(g, b, key))
  {
    var lo, hi := At(b, key), At(b, key + 1);
    forall i | lo <= i < hi ensures f[i] == g[i] {
      forall t: byte | !done[t] ensures !(At(b, KeyOf(t, ss)) <= i < At(b, KeyOf(t, ss) + 1)) {
        assert KeyOf(t, ss) != key;
        if KeyOf(t, ss) < key { SlotsApart(b, KeyOf(t, ss), key); } else { SlotsApart(b, key, KeyOf(t, ss)); }
      }
    }
    assert f[lo..hi] == g[lo..hi];
  }

  /** After Steps 1 and 2 the big bucket is done. */
  lemma BigBucketDone(b: seq<byte>, f: seq<int>, g: seq<int>, ftab: seq<int>, ftab': seq<int>, done: seq<bool>,
        ss: byte)
    requires Buckets(b, f, ftab, done) && !done[ss] && |g| == |b| && |ftab| == |ftab'| == 65537
    requires forall y :: 0 <= y < 256 && y != ss ==> InOrder(f, b, KeyOf(ss, y))
    requires Untouched(b, ss, done, f, g) && forall t: byte :: !done[t] ==> InOrder(g, b, KeyOf(t, ss))
    requires Starting(ftab', b) && forall key :: 0 <= key < 65536 ==>
          (Marked(ftab'[key]) <==> Marked(ftab[key]) || key % 256 == ss)
    ensures Buckets(b, g, ftab', done[ss := true])
    ensures forall y: byte :: InOrder(g, b, KeyOf(ss, y))
  {
    hide At, Untouched, Starting, Marked;
    forall key | 0 <= key < 65536
      ensures Holds(g, b, key) && (InOrder(f, b, key) || (key % 256 == ss && !done[key / 256]) ==> InOrder(g, b, key))
    {
      assert Holds(f, b, key);
      var t: byte := key / 256;
      if key % 256 == ss && !done[t] {
        assert KeyOf(t, ss) == key;
      } else {
        BucketUntouched(b, f, g, ss, done, key);
      }
    }
    hide Holds, InOrder;
    forall y: byte ensures InOrder(g, b, KeyOf(ss, y)) {
      assert KeyOf(ss, y) / 256 == ss && KeyOf(ss, y) % 256 == y;
    }
    forall key | 0 <= key < 65536 && Marked(ftab'[key]) ensures InOrder(g, b, key) {
      if !Marked(ftab[key]) {
        var t: byte := key / 256;
        assert key == KeyOf(t, ss);
      }
    }
    forall t: byte, y: byte | done[ss := true][t] ensures InOrder(g, b, KeyOf(t, y)) {
      assert KeyOf(t, y) / 256 == t && KeyOf(t, y) % 256 == y;
      if t != ss { assert InOrder(f, b, KeyOf(t, y)); }
    }
  }

  /** The bucket that slot x belongs to. */
  lemma BucketOf(b: seq<byte>, x: int) returns (key: int)
    requires 0 <= x < |b|
    ensures 0 <= key < 65536 && At(b, key) <= x < At(b, key + 1)
  {
    AtEnds(b);
    hide At;
    key := 0;
    while At(b, key + 1) <= x
      invariant 0 <= key < 65536 && At(b, key) <= x
      decreases 65536 - key
    {
      key := key + 1;
    }
  }

  lemma EntryOf(b: seq<byte>, ptr: seq<int>, key: int, x: int)
    requires 0 <= key < 65536 && Holds(ptr, b, key) && At(b, key) <= x < At(b, key + 1)
    ensures 0 <= ptr[x] < |b| && Key(b, ptr[x]) == key
  {
    assert ptr[At(b, key)..At(b, key + 1)][x - At(b, key)] in Elems(ptr[At(b, key)..At(b, key + 1)]);
  }

  lemma SmallerKey(b: seq<byte>, p: int, q: int)
    requires 0 <= p < |b| && 0 <= q < |b| && Key(b, p) < Key(b, q)
    ensures Le(b, p, q)
  {
    LeByNext(b, Next(|b|, p), Next(|b|, q));
    LeByNext(b, p, q);
  }

  /** Two slots of the same bucket. */
  lemma SameBucket(b: seq<byte>, ptr: seq<int>, key: int, x: int, y: int)
    requires 0 <= key < 65536 && InOrder(ptr, b, key) && At(b, key) <= x < y < At(b, key + 1)
    ensures ptr[x] != ptr[y] && 0 <= ptr[x] < |b| && 0 <= ptr[y] < |b| && Le(b, ptr[x], ptr[y])
  {
    var s := ptr[At(b, key)..At(b, key + 1)];
    assert s[x - At(b, key)] == ptr[x] && s[y - At(b, key)] == ptr[y];
  }

  /** Slots in different buckets hold different positions, the earlier one's rotation not larger. */
  lemma TwoSlots(b: seq<byte>, ptr: seq<int>, x: int, y: int)
    requires |ptr| == |b| && 0 <= x < y < |b| && forall key :: 0 <= key < 65536 ==> InOrder(ptr, b, key)
    ensures ptr[x] != ptr[y] && 0 <= ptr[x] < |b| && 0 <= ptr[y] < |b| && Le(b, ptr[x], ptr[y])
  {
    var k := BucketOf(b, x);
    var l := BucketOf(b, y);
    assert InOrder(ptr, b, k) && InOrder(ptr, b, l);
    if k == l {
      SameBucket(b, ptr, k, x, y);
    } else {
      if l < k { SlotsApart(b, l, k); }
      EntryOf(b, ptr, k, x);
      EntryOf(b, ptr, l, y);
      SmallerKey(b, ptr[x], ptr[y]);
    }
  }

  /** With all small buckets in order, ptr is the sorted order. */
  lemma AllInOrder(b: seq<byte>, ptr: seq<int>)
    requires |ptr| == |b| && forall key :: 0 <= key < 65536 ==> InOrder(ptr, b, key)
    ensures SortedOrder(b, ptr)
  {
    hide InOrder, Key, At;
    forall x | 0 <= x < |b| ensures 0 <= ptr[x] < |b| {
      var k := BucketOf(b, x);
      assert InOrder(ptr, b, k);
      InOrderHolds(ptr, b, k);
      EntryOf(b, ptr, k, x);
    }
    forall x, y | 0 <= x < y < |b| ensures ptr[x] != ptr[y] && Le(b, ptr[x], ptr[y]) { TwoSlots(b, ptr, x, y); }
  }

  lemma InOrderHolds(ptr: seq<int>, b: seq<byte>, key: int)
    requires InOrder(ptr, b, key)
    ensures Holds(ptr, b, key)
  {
  }

  lemma AllDone(b: seq<byte>, ptr: seq<int>, ftab: seq<int>, done: seq<bool>)
    requires Buckets(b, ptr, ftab, done) && forall t :: 0 <= t < 256 ==> done[t]
    ensures SortedOrder(b, ptr)
  {
    forall key | 0 <= key < 65536 ensures InOrder(ptr, b, key) {
      var t: byte, y: byte := key / 256, key % 256;
      assert key == KeyOf(t, y);
    }
    AllInOrder(b, ptr);
  }

  lemma BucketsStart(b: seq<byte>, ptr: seq<int>, ftab: seq<int>, done: seq<bool>)
    requires |ptr| == |b| && |done| == 256 && Starting(ftab, b) && forall t :: 0 <= t < 256 ==> !done[t]
    requires forall key :: 0 <= key < 65536 ==> Holds(ptr, b, key) && !Marked(ftab[key])
    ensures Buckets(b, ptr, ftab, done)
  {
  }

  /** Step 3 is skipped for the last big bucket. */
  method RecordBucket(ptr: seq<int>, arr2: array<int>, ftab: seq<int>, b: seq<byte>, nblock: nat, ss: byte,
        ghost done: seq<bool>)
    requires AreaOk(arr2[..], nblock) && nblock == |b| == |ptr| && Cached(b, QuadrantOf(arr2[..], nblock))
    requires Buckets(b, ptr, ftab, done) && forall y: byte :: InOrder(ptr, b, KeyOf(ss, y))
    modifies arr2
    ensures AreaOk(arr2[..], nblock) && BlockOf(arr2[..], nblock) == old(BlockOf(arr2[..], nblock))
    ensures Cached(b, QuadrantOf(arr2[..], nblock))
  {
    hide Cached, InOrder, At, Holds, AreaOk, BlockOf, QuadrantOf;
    forall y | 0 <= y < 256
      ensures InOrder(ptr, b, KeyOf(ss, y)) { var z: byte := y; assert InOrder(ptr, b, KeyOf(ss, z)); }
    BigBucketInOrder(ptr, b, ss);
    assert KeyOf(ss, 256) == (ss + 1) * 256 && KeyOf(ss, 0) == ss * 256;
    var bbStart := Clear(ftab[ss * 256]);
    var bbSize := Clear(ftab[(ss + 1) * 256]) - bbStart;
    BigBucketRange(ptr, b, ss, At(b, KeyOf(ss, 0)), At(b, KeyOf(ss, 256)));
    var shifts := UpdateQuadrants(ptr, arr2, b, nblock, ss, bbStart, bbSize);
  }

  lemma BigBucketRange(ptr: seq<int>, b: seq<byte>, ss: byte, lo: int, hi: int)
    requires BigBucket(ptr, b, ss, lo, hi)
    ensures lo <= hi
  {
  }

  /** arr2 holds what the comparisons read. */
  ghost predicate Ready(words: seq<int>, b: seq<byte>) {
    AreaOk(words, |b|) && Comparable(b, BlockOf(words, |b|), QuadrantOf(words, |b|))
  }

  /** One turn of the main loop: Steps 1, 2 and 3 for big bucket ss. */
  method SortBigBucket(ptr: array<int>, arr2: array<int>, ftab: array<uint32>, bigDone: array<bool>, nblock: nat,
                       ss: byte, last: bool, budget: int, ghost b: seq<byte>)
    returns (left: int)
    requires ptr != arr2 && nblock == |b| == ptr.Length && Ready(arr2[..], b) && budget >= 0
    requires bigDone.Length == 256 && !bigDone[ss] && Buckets(b, ptr[..], ftab[..], bigDone[..])
    modifies ptr, arr2, ftab, bigDone
    ensures left <= budget && bigDone[..] == if left >= 0 then old(bigDone[..])[ss := true] else old(bigDone[..])
    ensures Ready(arr2[..], b) && (left >= 0 ==> Buckets(b, ptr[..], ftab[..], bigDone[..]))
  {
    hide At, Holds, InOrder, Starting, Comparable, Buckets, Untouched, Cached, Marked, AreaOk, BlockOf, QuadrantOf;
    left := SortUnsorted(ptr, BlockOf(arr2[..], nblock), QuadrantOf(arr2[..], nblock), ftab, nblock, ss, budget, b,
                         bigDone[..]);
    if left < 0 { return; }
    assert !bigDone[ss];
    ghost var f, starts, done := ptr[..], ftab[..], bigDone[..];
    CopyReady(b, f, starts, done);
    ghost var block, q := BlockOf(arr2[..], nblock), QuadrantOf(arr2[..], nblock);
    BlockIs(b, block, q);
    CopyPhase(ptr, BlockOf(arr2[..], nblock)[..nblock], ftab, bigDone[..], ss, nblock);
    BigBucketDone(b, f, ptr[..], starts, ftab[..], done, ss);
    bigDone[ss] := true;
    if !last {
      RecordBucket(ptr[..], arr2, ftab[..], BlockOf(arr2[..], nblock)[..nblock], nblock, ss, bigDone[..]);
      StillComparable(b, block, q, QuadrantOf(arr2[..], nblock));
    }
  }

  lemma StillComparable(b: seq<byte>, block: seq<byte>, q: seq<int>, q': seq<int>)
    requires Comparable(b, block, q) && Cached(b, q')
    ensures Comparable(b, block, q')
  {
  }

  lemma CopyReady(b: seq<byte>, ptr: seq<int>, ftab: seq<int>, done: seq<bool>)
    requires Buckets(b, ptr, ftab, done)
    ensures Starting(ftab, b) && forall key :: 0 <= key < 65536 ==> Holds(ptr, b, key)
  {
  }

  lemma BlockIs(b: seq<byte>, block: seq<byte>, quadrant: seq<int>)
    requires Comparable(b, block, quadrant)
    ensures |block| >= |b| && block[..|b|] == b && Cached(b, quadrant)
  {
  }

  /** mainSort: unless the budget runs out, ptr ends up listing all rotations in order. The block
      is as it was. */
  method Sort(ptr: array<int>, arr2: array<int>, ftab: array<uint32>, nblock: nat, budget: int, ghost b: seq<byte>)
    returns (left: int)
    requires ptr != arr2 && ftab.Length == 65537 && ptr.Length == nblock == |b| && OVERSHOOT < nblock <= 900000
    requires budget >= 0
    requires AreaOk(arr2[..], nblock) && BlockOf(arr2[..], nblock)[..nblock] == b
    modifies ptr, arr2, ftab
    ensures left <= budget && (left >= 0 ==> SortedOrder(b, ptr[..]))
    ensures AreaOk(arr2[..], nblock) && BlockOf(arr2[..], nblock)[..nblock] == b
  {
    hide At, Holds, InOrder, Starting, Comparable, Buckets, Cached, Overshot, SortedOrder, Marked, Bucket, AreaOk;
    hide BlockOf, QuadrantOf, Ready;
    CountPairs(arr2, ftab, nblock, b);
    RunningTotals(ftab, b);
    Distribute(ptr, BlockOf(arr2[..], nblock), ftab, nblock, b);
    StartReady(arr2[..], b);
    var runningOrder := RunningOrder.Compute(ftab[..]);
    ghost var order := runningOrder[..];
    var bigDone := new bool[256](_ => false);
    BucketsStart(b, ptr[..], ftab[..], bigDone[..]);
    left := budget;
    for i := 0 to 256
      invariant 0 <= left <= budget && runningOrder[..] == order
      invariant Ready(arr2[..], b) && Buckets(b, ptr[..], ftab[..], bigDone[..])
      invariant forall k :: 0 <= k < 256 ==> 0 <= order[k] < 256 && (bigDone[order[k]] <==> k < i)
    {
      var ss: byte := runningOrder[i];
      left := SortBigBucket(ptr, arr2, ftab, bigDone, nblock, ss, i == 255, left, b);
      ReadyBlock(arr2[..], b);
      if left < 0 { return; }
    }
    ReadyBlock(arr2[..], b);
    forall t | 0 <= t < 256 ensures bigDone[t] { PermutationIsOnto(order, t); }
    AllDone(b, ptr[..], ftab[..], bigDone[..]);
  }

  lemma ReadyBlock(words: seq<int>, b: seq<byte>)
    requires Ready(words, b)
    ensures AreaOk(words, |b|) && BlockOf(words, |b|)[..|b|] == b
  {
  }

  lemma StartReady(words: seq<int>, b: seq<byte>)
    requires AreaOk(words, |b|) && OVERSHOOT < |b| <= 900000 && Overshot(BlockOf(words, |b|), |b|)
    requires BlockOf(words, |b|)[..|b|] == b && Cached(b, QuadrantOf(words, |b|))
    ensures Ready(words, b)
  {
  }

  /** BIGFREQ is how many rotations begin with the byte x. */
  lemma BigFreqCounts(ftab: seq<int>, b: seq<byte>, x: int)
    requires Starting(ftab, b) && 0 <= x < 256 && !Marked(ftab[x * 256]) && !Marked(ftab[(x + 1) * 256])
    ensures RunningOrder.BigFreq(ftab, x) == |set p | 0 <= p < |b| && b[p] == x|
  {
    var low := set p | 0 <= p < |b| && Key(b, p) < x * 256;
    var here := set p | 0 <= p < |b| && b[p] == x;
    assert (set p | 0 <= p < |b| && Key(b, p) < (x + 1) * 256) == low + here && low !! here;
    assert Clear(ftab[x * 256]) == At(b, x * 256) && Clear(ftab[(x + 1) * 256]) == At(b, (x + 1) * 256);
  }
}
