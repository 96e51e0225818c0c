/** Step 3 of mainSort: the order of a finished big bucket is remembered in the quadrant values. */
module QuadrantCache {
  import opened Bytes
  import opened Rotations
  import opened BucketScan
  import opened MainScan
  import opened BlockArea
  import opened MainCompare
  import opened BitStrings

  /** All positions that start with byte ss, in order. */
  ghost predicate BigBucket(ptr: seq<int>, b: seq<byte>, ss: byte, lo: int, hi: int) {
    && 0 <= lo <= hi <= |ptr|
    && Lists(ptr[lo..hi], set p | 0 <= p < |b| && b[p] == ss) && Ordered(b, ptr[lo..hi], true)
  }

  lemma BigBucketInOrder(ptr: seq<int>, b: seq<byte>, ss: byte)
    requires |ptr| == |b| && forall y :: 0 <= y < 256 ==> InOrder(ptr, b, KeyOf(ss, y))
    ensures BigBucket(ptr, b, ss, At(b, KeyOf(ss, 0)), At(b, KeyOf(ss, 256)))
  {
    AtMonotone(b, KeyOf(ss, 0), KeyOf(ss, 256));
    AtBound(b, KeyOf(ss, 256));
    Below(ptr, b, ss, 256);
    assert (set p | 0 <= p < |b| && b[p] == ss && b[Next(|b|, p)] < 256) == set p | 0 <= p < |b| && b[p] == ss;
  }

  /** Slots lo+from..hi-1 have their quadrant values; other bytes keep theirs. */
  ghost predicate Recorded(ptr: seq<int>, b: seq<byte>, ss: byte, lo: int, hi: int, from: int, shifts: nat,
        was: seq<int>, quadrant: seq<int>) {
    && BigBucket(ptr, b, ss, lo, hi) && 0 <= from <= hi - lo && Cached(b, was) && Overshot(quadrant, |b|)
    && (forall k :: lo + from <= k < hi ==> 0 <= ptr[k] < |b| && quadrant[ptr[k]] == Shr(k - lo, shifts))
    && (forall p :: 0 <= p < |b| && b[p] != ss ==> quadrant[p] == was[p])
  }

  lemma SlotOf(ptr: seq<int>, b: seq<byte>, ss: byte, lo: int, hi: int, j: int)
    requires BigBucket(ptr, b, ss, lo, hi) && lo <= j < hi
    ensures 0 <= ptr[j] < |b| && b[ptr[j]] == ss && forall k :: lo <= k < hi && k != j ==> ptr[k] != ptr[j]
  {
    var s := ptr[lo..hi];
    assert s[j - lo] in Elems(s);
    forall k | lo <= k < hi && k != j ensures ptr[k] != ptr[j] { assert s[k - lo] != s[j - lo]; }
  }

  /** A quadrant value written, with its copy in the overshoot area. */
  function WithQuadrant(quadrant: seq<int>, n: int, a: int, v: int): (r: seq<int>)
    requires 0 <= a < n && |quadrant| == n + OVERSHOOT && OVERSHOOT <= n
    ensures |r| == |quadrant|
  {
    if a < OVERSHOOT then quadrant[a := v][a + n := v] else quadrant[a := v]
  }

  lemma WithQuadrantIs(quadrant: seq<int>, n: int, a: int, v: int)
    requires 0 <= a < n && Overshot(quadrant, n)
    ensures var q := WithQuadrant(quadrant, n, a, v);
      Overshot(q, n) && q[a] == v && forall p :: 0 <= p < n && p != a ==> q[p] == quadrant[p]
  {
  }

  lemma RecordOne(ptr: seq<int>, b: seq<byte>, ss: byte, lo: int, hi: int, from: int, shifts: nat, was: seq<int>,
        quadrant: seq<int>)
    requires Recorded(ptr, b, ss, lo, hi, from, shifts, was, quadrant) && from > 0
    requires 0 <= ptr[lo + from - 1] < |b|
    ensures Recorded(ptr, b, ss, lo, hi, from - 1, shifts, was,
                     WithQuadrant(quadrant, |b|, ptr[lo + from - 1], Shr(from - 1, shifts)))
  {
    var k0 := lo + from - 1;
    SlotOf(ptr, b, ss, lo, hi, k0);
    WithQuadrantIs(quadrant, |b|, ptr[k0], Shr(from - 1, shifts));
    hide Cached, BigBucket, Shr, WithQuadrant, Overshot;
  }

  lemma {:induction false} ShrMonotone(x: nat, y: nat, k: nat)
    requires x <= y
    ensures Shr(x, k) <= Shr(y, k)
    decreases k
  {
    if k > 0 { ShrMonotone(x / 2, y / 2, k - 1); }
  }

  /** With all slots recorded the cache is right again. */
  lemma RecordedAll(ptr: seq<int>, b: seq<byte>, ss: byte, lo: int, hi: int, shifts: nat, was: seq<int>,
        quadrant: seq<int>)
    requires Recorded(ptr, b, ss, lo, hi, 0, shifts, was, quadrant)
    ensures Cached(b, quadrant)
  {
    var s := ptr[lo..hi];
    forall i, j | 0 <= i < |b| && 0 <= j < |b| && b[i] == b[j] && quadrant[i] < quadrant[j] ensures Le(b, i, j) {
      if b[i] == ss {
        assert i in Elems(s) && j in Elems(s);
        var x :| 0 <= x < |s| && s[x] == i;
        var y :| 0 <= y < |s| && s[y] == j;
        assert ptr[lo + x] == i && ptr[lo + y] == j;
        assert quadrant[i] == Shr(x, shifts) && quadrant[j] == Shr(y, shifts);
        if y <= x { ShrMonotone(y, x, shifts); }
        assert Le(b, s[x], s[y]);
      }
    }
  }

  lemma {:induction false} ShrOnce(x: nat, k: nat)
    ensures Shr(x, k + 1) == Shr(x, k) / 2
    decreases k
  {
    if k > 0 { ShrOnce(x / 2, k - 1); }
  }

  /** The shift that brings the positions in a big bucket into 16 bits. */
  method Shifts(bbSize: nat) returns (shifts: nat)
    ensures Shr(bbSize, shifts) <= 65534
    ensures forall k: nat :: k < shifts ==> Shr(bbSize, k) > 65534
  {
    shifts := 0;
    while Shr(bbSize, shifts) > 65534
      invariant forall k: nat :: k < shifts ==> Shr(bbSize, k) > 65534
      decreases Shr(bbSize, shifts)
    {
      ShrOnce(bbSize, shifts);
      shifts := shifts + 1;
    }
  }

  /** One quadrant value, and its copy in the overshoot area. */
  method RecordSlot(arr2: array<int>, a2update: int, qVal: uint16, nblock: nat)
    requires AreaOk(arr2[..], nblock) && 0 <= a2update < nblock && OVERSHOOT <= nblock
    modifies arr2
    ensures AreaOk(arr2[..], nblock) && BlockOf(arr2[..], nblock) == old(BlockOf(arr2[..], nblock))
    ensures QuadrantOf(arr2[..], nblock) == WithQuadrant(old(QuadrantOf(arr2[..], nblock)), nblock, a2update, qVal)
  {
    hide BlockOf, QuadrantOf, AreaOk;
    PutQuadrant(arr2, nblock, a2update, qVal);
    if a2update < OVERSHOOT { PutQuadrant(arr2, nblock, a2update + nblock, qVal); }
  }

  /** Step 3. Every position of the big bucket gets its place in the bucket, shifted into 16 bits
      by the least shift that will do, so assertion 1002 cannot fail; the quadrant values stay
      right about the order of rotations. */
  method UpdateQuadrants(ptr: seq<int>, arr2: array<int>, b: seq<byte>, nblock: nat, ss: byte, bbStart: int,
        bbSize: nat)
    returns (shifts: nat)
    requires AreaOk(arr2[..], nblock) && nblock == |b| == |ptr|
    requires Cached(b, QuadrantOf(arr2[..], nblock)) && BigBucket(ptr, b, ss, bbStart, bbStart + bbSize)
    modifies arr2
    ensures AreaOk(arr2[..], nblock) && BlockOf(arr2[..], nblock) == old(BlockOf(arr2[..], nblock))
    ensures Shr(bbSize, shifts) <= 65534 && forall k: nat :: k < shifts ==> Shr(bbSize, k) > 65534
    ensures var q := QuadrantOf(arr2[..], nblock);
      Recorded(ptr, b, ss, bbStart, bbStart + bbSize, 0, shifts, old(QuadrantOf(arr2[..], nblock)), q) && Cached(b, q)
  {
    hide Cached, BigBucket, Overshot, Recorded, Shr, AreaOk, BlockOf, QuadrantOf, WithQuadrant;
    ghost var was: seq<int> := QuadrantOf(arr2[..], nblock);
    BucketSize(ptr, b, ss, bbStart, bbStart + bbSize, was);
    shifts := Shifts(bbSize);
    var j := bbSize - 1;
    NothingRecorded(ptr, b, ss, bbStart, bbStart + bbSize, shifts, was);
    while j >= 0
      invariant AreaOk(arr2[..], nblock) && BlockOf(arr2[..], nblock) == old(BlockOf(arr2[..], nblock))
      invariant -1 <= j < bbSize
      invariant Recorded(ptr, b, ss, bbStart, bbStart + bbSize, j + 1, shifts, was, QuadrantOf(arr2[..], nblock))
    {
      SlotOf(ptr, b, ss, bbStart, bbStart + bbSize, bbStart + j);
      var a2update := ptr[bbStart + j];
      ShrMonotone(j, bbSize, shifts);
      var qVal: uint16 := Shr(j, shifts) % 0x1_0000;
      RecordOne(ptr, b, ss, bbStart, bbStart + bbSize, j + 1, shifts, was, QuadrantOf(arr2[..], nblock));
      RecordSlot(arr2, a2update, qVal, nblock);
      j := j - 1;
    }
    if bbSize > 0 {
      ShrMonotone(bbSize - 1, bbSize, shifts);
      assert Shr(bbSize - 1, shifts) <= 65535;
    }
    RecordedAll(ptr, b, ss, bbStart, bbStart + bbSize, shifts, was, QuadrantOf(arr2[..], nblock));
  }

  lemma BucketSize(ptr: seq<int>, b: seq<byte>, ss: byte, lo: int, hi: int, quadrant: seq<int>)
    requires BigBucket(ptr, b, ss, lo, hi) && Cached(b, quadrant)
    ensures 0 <= lo <= hi <= |ptr| && |quadrant| == |b| + OVERSHOOT && OVERSHOOT <= |b|
  {
  }

  lemma NothingRecorded(ptr: seq<int>, b: seq<byte>, ss: byte, lo: int, hi: int, shifts: nat, was: seq<int>)
    requires BigBucket(ptr, b, ss, lo, hi) && Cached(b, was)
    ensures Recorded(ptr, b, ss, lo, hi, hi - lo, shifts, was, was)
  {
  }
}
