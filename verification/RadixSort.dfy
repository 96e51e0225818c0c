/** The first part of mainSort: the radix sort on two bytes, and the order in which big buckets are
    taken. */
module RadixSort {
  import opened Bytes
  import opened Permutations
  import opened Rotations
  import opened BucketScan
  import opened MainScan
  import opened BlockArea
  import opened MainCompare

  /** The positions from i on with this key. */
  ghost function From(b: seq<byte>, key: int, i: int): set<int> {
    set p | 0 <= p < |b| && i <= p && Key(b, p) == key
  }

  lemma FromStep(b: seq<byte>, key: int, i: int)
    requires 0 <= i < |b|
    ensures |From(b, key, i)| == |From(b, key, i + 1)| + (if Key(b, i) == key then 1 else 0)
  {
    hide Key;
    var s, t := From(b, key, i), From(b, key, i + 1);
    if Key(b, i) == key {
      assert i in s && i !in t;
      assert s - {i} == t;
    } else {
      assert s == t;
    }
  }

  lemma FromEnds(b: seq<byte>, key: int)
    ensures From(b, key, |b|) == {} && From(b, key, 0) == Bucket(b, key)
  {
  }

  lemma FromShrinks(b: seq<byte>, key: int, i: int, j: int)
    requires 0 <= i <= j
    ensures |From(b, key, j)| <= |From(b, key, i)|
    ensures i < j && i < |b| && Key(b, i) == key ==> |From(b, key, j)| < |From(b, key, i)|
  {
    var s, t := From(b, key, i), From(b, key, j);
    assert s == t + (s - t);
    if i < j && i < |b| && Key(b, i) == key { assert i in s - t; }
  }

  /** Where the radix sort puts position p: buckets are filled from their ends. */
  ghost function Slot(b: seq<byte>, p: int): int
    requires 0 <= p < |b|
  {
    At(b, Key(b, p) + 1) - |From(b, Key(b, p), p)|
  }

  lemma SlotInBucket(b: seq<byte>, p: int)
    requires 0 <= p < |b|
    ensures At(b, Key(b, p)) <= Slot(b, p) < At(b, Key(b, p) + 1) <= |b|
  {
    var key := Key(b, p);
    AtNext(b, key);
    FromEnds(b, key);
    FromShrinks(b, key, 0, p);
    FromStep(b, key, p);
    AtBound(b, key + 1);
  }

  lemma SlotsDiffer(b: seq<byte>, p: int, q: int)
    requires 0 <= p < q < |b|
    ensures Slot(b, p) != Slot(b, q)
  {
    var x, y := Key(b, p), Key(b, q);
    if x == y {
      FromShrinks(b, x, p, q);
    } else {
      SlotInBucket(b, p);
      SlotInBucket(b, q);
      hide At;
      if x < y { SlotsApart(b, x, y); } else { SlotsApart(b, y, x); }
    }
  }

  ghost function Slots(b: seq<byte>): (s: seq<int>)
    ensures |s| == |b| && Permutation(s)
    ensures forall p :: 0 <= p < |b| ==> s[p] == Slot(b, p)
  {
    var s := seq(|b|, p requires 0 <= p < |b| => Slot(b, p));
    assert Permutation(s) by {
      hide Slot;
      forall p | 0 <= p < |s| ensures 0 <= s[p] < |s| { SlotInBucket(b, p); }
      forall p, q | 0 <= p < q < |s| ensures s[p] != s[q] { SlotsDiffer(b, p, q); }
    }
    s
  }

  lemma SlotsBack(b: seq<byte>, ptr: seq<int>)
    requires |ptr| == |b| && forall p :: 0 <= p < |b| ==> ptr[Slots(b)[p]] == p
    ensures forall x :: 0 <= x < |ptr| ==> 0 <= ptr[x] < |b| && Slots(b)[ptr[x]] == x
  {
    hide Slot, Slots;
    forall x | 0 <= x < |ptr| ensures 0 <= ptr[x] < |b| && Slots(b)[ptr[x]] == x {
      var p := PositionOf(Slots(b), x);
      assert ptr[Slots(b)[p]] == p;
    }
  }

  /** With every position in its slot, the buckets hold their positions. */
  lemma SlotsFilled(b: seq<byte>, ptr: seq<int>, key: int)
    requires |ptr| == |b| && (forall p :: 0 <= p < |b| ==> ptr[Slots(b)[p]] == p) && 0 <= key < 65536
    ensures Holds(ptr, b, key)
  {
    hide Slot, Slots, At, Key;
    var slots := Slots(b);
    AtBound(b, key + 1);
    AtMonotone(b, key, key + 1);
    var lo, hi := At(b, key), At(b, key + 1);
    var s := ptr[lo..hi];
    SlotsBack(b, ptr);
    forall p | p in Elems(s) ensures p in Bucket(b, key) {
      var x :| 0 <= x < |s| && s[x] == p;
      assert s[x] == ptr[lo + x];
      SlotOfKey(b, p, key);
    }
    forall p | p in Bucket(b, key) ensures p in Elems(s) {
      SlotInBucket(b, p);
      assert ptr[slots[p]] == s[slots[p] - lo];
    }
    forall i, j | 0 <= i < j < |s| ensures s[i] != s[j] {
      assert slots[ptr[lo + i]] == lo + i && slots[ptr[lo + j]] == lo + j;
    }
  }

  /** A slot within a bucket belongs to a position with its key. */
  lemma SlotOfKey(b: seq<byte>, p: int, key: int)
    requires 0 <= p < |b| && At(b, key) <= Slot(b, p) < At(b, key + 1)
    ensures Key(b, p) == key
  {
    SlotInBucket(b, p);
    hide At, Slot;
    var k := Key(b, p);
    if k < key { SlotsApart(b, k, key); }
    if key < k { SlotsApart(b, key, k); }
  }

  /** (j >> 8) | (c << 8) */
  function Window(j: int, c: int): int {
    j / 256 + c * 256
  }

  /** One step of the two-byte window towards the front of the block. */
  lemma WindowStep(b: seq<byte>, i: int, j: int)
    requires 0 <= i < |b| && 0 <= j < 65536 && j / 256 == b[Next(|b|, i)]
    ensures Window(j, b[i]) == Key(b, i) && Window(j, b[i]) / 256 == b[i]
  {
  }

  /** block[..nblock] is b, and the quadrant values from i on are zero. */
  ghost predicate Clearing(words: seq<int>, b: seq<byte>, i: int) {
    && OVERSHOOT <= |b| && AreaOk(words, |b|) && BlockOf(words, |b|)[..|b|] == b
    && forall k :: 0 <= k && i <= k < |b| ==> QuadrantOf(words, |b|)[k] == 0
  }

  /** The two-byte frequency table; the quadrant values start at zero, and the overshoot area is
      filled. */
  method CountPairs(arr2: array<int>, ftab: array<uint32>, nblock: nat, ghost b: seq<byte>)
    requires ftab.Length == 65537 && OVERSHOOT <= nblock == |b| < 0x1_0000_0000
    requires AreaOk(arr2[..], nblock) && BlockOf(arr2[..], nblock)[..nblock] == b
    modifies arr2, ftab
    ensures AreaOk(arr2[..], nblock) && BlockOf(arr2[..], nblock)[..nblock] == b
    ensures Overshot(BlockOf(arr2[..], nblock), nblock)
    ensures Cached(b, QuadrantOf(arr2[..], nblock))
    ensures (forall key :: 0 <= key < 65536 ==> ftab[key] == |Bucket(b, key)|) && ftab[65536] == 0
  {
    hide Key, From, Bucket, BlockOf, QuadrantOf, AreaOk, Clearing, Cached, Overshot;
    ClearFtab(ftab);
    var i := nblock - 1;
    StartClearing(arr2[..], b);
    var c0 := GetBlock(arr2, nblock, 0);
    assert c0 == BlockOf(arr2[..], nblock)[..nblock][0];
    var j := Window(0, c0);
    forall key | 0 <= key < 65536 ensures |From(b, key, nblock)| == 0 { FromEnds(b, key); }
    while i >= 0
      invariant -1 <= i < nblock && 0 <= j < 65536 && Clearing(arr2[..], b, i + 1)
      invariant (i >= 0 ==> j / 256 == b[Next(nblock, i)])
      invariant forall key :: 0 <= key < 65536 ==> ftab[key] == |From(b, key, i + 1)|
      invariant ftab[65536] == 0
    {
      var c := ClearOne(arr2, i, nblock, b);
      WindowStep(b, i, j);
      j := Window(j, c);
      FromBound(b, j, i);
      forall key | 0 <= key < 65536
        ensures |From(b, key, i)| == |From(b, key, i + 1)| + (if j == key then 1 else 0) { FromStep(b, key, i); }
      ftab[j] := ftab[j] + 1;
      i := i - 1;
    }
    forall key | 0 <= key < 65536 ensures ftab[key] == |Bucket(b, key)| { FromEnds(b, key); }
    FillOvershoot(arr2, nblock, b);
  }

  method ClearFtab(ftab: array<uint32>)
    requires ftab.Length == 65537
    modifies ftab
    ensures forall key :: 0 <= key <= 65536 ==> ftab[key] == 0
  {
    var i := 65536;
    while i >= 0
      invariant -1 <= i <= 65536 && forall key :: i < key <= 65536 ==> ftab[key] == 0
    {
      ftab[i] := 0;
      i := i - 1;
    }
  }

  lemma StartClearing(words: seq<int>, b: seq<byte>)
    requires OVERSHOOT <= |b| && AreaOk(words, |b|) && BlockOf(words, |b|)[..|b|] == b
    ensures Clearing(words, b, |b|)
  {
  }

  lemma FromBound(b: seq<byte>, key: int, i: int)
    requires 0 <= i < |b|
    ensures |From(b, key, i)| <= |b| - i
    decreases |b| - i
  {
    FromStep(b, key, i);
    if i + 1 < |b| { FromBound(b, key, i + 1); } else { FromEnds(b, key); }
  }

  /** quadrant[i] = 0; the byte at i. */
  method ClearOne(arr2: array<int>, i: int, nblock: nat, ghost b: seq<byte>) returns (c: byte)
    requires nblock == |b| && 0 <= i < nblock && Clearing(arr2[..], b, i + 1)
    modifies arr2
    ensures Clearing(arr2[..], b, i) && c == b[i]
  {
    hide AreaOk, BlockOf, QuadrantOf;
    PutQuadrant(arr2, nblock, i, 0);
    c := GetBlock(arr2, nblock, i);
    assert c == BlockOf(arr2[..], nblock)[..nblock][i];
  }

  /** The overshoot area: a copy of the first bytes, and quadrant values of zero. */
  method FillOvershoot(arr2: array<int>, nblock: nat, ghost b: seq<byte>)
    requires OVERSHOOT <= nblock == |b| && Clearing(arr2[..], b, 0)
    modifies arr2
    ensures AreaOk(arr2[..], nblock) && BlockOf(arr2[..], nblock)[..nblock] == b
    ensures Overshot(BlockOf(arr2[..], nblock), nblock)
    ensures Cached(b, QuadrantOf(arr2[..], nblock))
  {
    hide Le, AreaOk, BlockOf, QuadrantOf;
    for i := 0 to OVERSHOOT
      invariant AreaOk(arr2[..], nblock) && BlockOf(arr2[..], nblock)[..nblock] == b
      invariant forall k :: 0 <= k < i ==> BlockOf(arr2[..], nblock)[nblock + k] == BlockOf(arr2[..], nblock)[k]
      invariant forall k :: 0 <= k < nblock + i ==> QuadrantOf(arr2[..], nblock)[k] == 0
    {
      ghost var bl := BlockOf(arr2[..], nblock);
      var c := GetBlock(arr2, nblock, i);
      PutBlock(arr2, nblock, nblock + i, c);
      assert bl[nblock + i := c][..nblock] == bl[..nblock];
      PutQuadrant(arr2, nblock, nblock + i, 0);
    }
  }

  /** The frequencies become the ends of the buckets. */
  method RunningTotals(ftab: array<uint32>, ghost b: seq<byte>)
    requires ftab.Length == 65537 && |b| < 0x1_0000_0000
    requires (forall key :: 0 <= key < 65536 ==> ftab[key] == |Bucket(b, key)|) && ftab[65536] == 0
    modifies ftab
    ensures (forall key :: 0 <= key < 65536 ==> ftab[key] == At(b, key + 1)) && ftab[65536] == At(b, 65536)
  {
    hide At, Bucket;
    AtEnds(b);
    AtNext(b, 0);
    for i := 1 to 65537
      invariant forall key :: 0 <= key < i ==> ftab[key] == if key < 65536 then At(b, key + 1) else At(b, 65536)
      invariant forall key :: i <= key < 65536 ==> ftab[key] == |Bucket(b, key)|
      invariant i <= 65536 ==> ftab[65536] == 0
    {
      AtNext(b, i);
      AtBound(b, if i < 65536 then i + 1 else i);
      ftab[i] := ftab[i] + ftab[i - 1];
    }
  }

  /** The positions go to their buckets, and ftab ends up with the bucket starts. */
  method Distribute(ptr: array<int>, block: seq<byte>, ftab: array<uint32>, nblock: int, ghost b: seq<byte>)
    requires ftab.Length == 65537 && 0 < nblock == |b| == ptr.Length && |block| >= nblock && block[..nblock] == b
    requires nblock < SETMASK
    requires (forall key :: 0 <= key < 65536 ==> ftab[key] == At(b, key + 1)) && ftab[65536] == At(b, 65536)
    modifies ptr, ftab
    ensures Starting(ftab[..], b) && forall key :: 0 <= key < 65536 ==> Holds(ptr[..], b, key) && !Marked(ftab[key])
  {
    hide At, Key, From, Bucket, Slots, Holds;
    ghost var slots := Slots(b);
    var s := Window(0, block[0]);
    var i := nblock - 1;
    forall key | 0 <= key < 65536 ensures |From(b, key, nblock)| == 0 { FromEnds(b, key); }
    while i >= 0
      invariant -1 <= i < nblock && 0 <= s < 65536 && (i >= 0 ==> s / 256 == b[Next(nblock, i)])
      invariant forall key :: 0 <= key < 65536 ==> ftab[key] == At(b, key + 1) - |From(b, key, i + 1)|
      invariant ftab[65536] == At(b, 65536)
      invariant forall p :: i < p < nblock ==> ptr[slots[p]] == p
    {
      assert block[i] == b[i];
      WindowStep(b, i, s);
      s := Window(s, block[i]);
      forall key | 0 <= key < 65536
        ensures |From(b, key, i)| == |From(b, key, i + 1)| + (if s == key then 1 else 0) { FromStep(b, key, i); }
      var end: int := ftab[s];
      var j := end - 1;
      assert j == slots[i];
      ftab[s] := j;
      ptr[j] := i;
      i := i - 1;
    }
    forall key | 0 <= key < 65536 ensures ftab[key] == At(b, key) { FromEnds(b, key); AtNext(b, key); }
    Unmarked(ftab[..], b);
    forall key | 0 <= key < 65536 ensures Holds(ptr[..], b, key) { SlotsFilled(b, ptr[..], key); }
  }

  lemma Unmarked(ftab: seq<int>, b: seq<byte>)
    requires |ftab| == 65537 && |b| < SETMASK && forall key :: 0 <= key <= 65536 ==> ftab[key] == At(b, key)
    ensures Starting(ftab, b) && forall key :: 0 <= key < 65536 ==> !Marked(ftab[key])
  {
    forall key | 0 <= key <= 65536 ensures 0 <= ftab[key] < SETMASK { AtBound(b, key); }
    hide At;
  }
}
