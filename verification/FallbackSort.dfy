/** fallbackSort: bucket sort on the first byte, exponential radix sort, and the block put back
    into the words that eclass has overwritten. */
module FallbackSort {
  import opened Bytes
  import opened Permutations
  import opened Rotations
  import opened Counting
  import opened BucketBits
  import opened ByteView
  import opened FallbackOrder
  import opened FallbackRefine

  /** Where the bucket sort puts position i: buckets are filled from their ends. */
  ghost function Slot(b: seq<byte>, i: int): int
    requires 0 <= i < |b|
  {
    var c: int := b[i];
    Below(b, c + 1) - 1 - Count(b, c, i)
  }

  lemma SlotInBucket(b: seq<byte>, i: int)
    requires 0 <= i < |b|
    ensures InBucket(b, i, Slot(b, i)) && 0 <= Slot(b, i) < |b|
  {
    var c: int := b[i];
    CountMonotone(b, c, i, |b|);
    BelowMonotone(b, c, 256);
    BelowAll(b);
  }

  lemma SlotsDiffer(b: seq<byte>, i: int, j: int)
    requires 0 <= i < j < |b|
    ensures Slot(b, i) != Slot(b, j)
  {
    SlotInBucket(b, i);
    SlotInBucket(b, j);
    var c: int, d: int := b[i], b[j];
    CountMonotone(b, c, i, j);
    if c < d { BelowMonotone(b, c, d); BelowUpTo(b, c + 1, d); }
    if d < c { BelowUpTo(b, d + 1, c); }
  }

  lemma {:induction false} BelowUpTo(b: seq<byte>, c: nat, d: nat)
    requires c <= d
    ensures Below(b, c) <= Below(b, d)
  {
    if c < d { BelowMonotone(b, c, d); }
  }

  ghost function Slots(b: seq<byte>): (s: seq<int>)
    ensures |s| == |b| && Permutation(s)
    ensures forall i :: 0 <= i < |b| ==> s[i] == Slot(b, i)
  {
    var s := seq(|b|, i requires 0 <= i < |b| => Slot(b, i));
    assert Permutation(s) by {
      forall i | 0 <= i < |s| ensures 0 <= s[i] < |s| { SlotInBucket(b, i); }
      forall i, j | 0 <= i < j < |s| ensures s[i] != s[j] { SlotsDiffer(b, i, j); }
    }
    s
  }

  /** The frequencies of the bytes, then their running totals. */
  method CountFrequencies(arr2: array<int>, nblock: int, ftab: array<int>, ftabCopy: array<int>, ghost b: seq<byte>)
    requires ftab.Length == 257 && ftabCopy.Length == 256 && ftab != ftabCopy && ftab != arr2 && ftabCopy != arr2
    requires HoldsBytes(arr2[..], nblock) && BytesOf(arr2[..], nblock) == b
    modifies ftab, ftabCopy
    ensures forall c :: 0 <= c < 256 ==> ftab[c] == Below(b, c + 1) && ftabCopy[c] == Count(b, c, nblock)
  {
    for i := 0 to 257
      invariant forall c :: 0 <= c < i ==> ftab[c] == 0
    {
      ftab[i] := 0;
    }
    for i := 0 to nblock
      invariant forall c :: 0 <= c < 256 ==> ftab[c] == Count(b, c, i)
      invariant ftab[256] == 0
    {
      var j := GetByte(arr2, i, nblock);
      ftab[j] := ftab[j] + 1;
    }
    for i := 0 to 256
      invariant forall c :: 0 <= c < 256 ==> ftab[c] == Count(b, c, nblock)
      invariant forall c :: 0 <= c < i ==> ftabCopy[c] == Count(b, c, nblock)
    {
      ftabCopy[i] := ftab[i];
    }
    RunningTotals(ftab, b);
  }

  method RunningTotals(ftab: array<int>, ghost b: seq<byte>)
    requires ftab.Length == 257
    requires forall c :: 0 <= c < 256 ==> ftab[c] == Count(b, c, |b|)
    modifies ftab
    ensures forall c :: 0 <= c < 256 ==> ftab[c] == Below(b, c + 1)
  {
    for i := 1 to 257
      invariant forall c :: 0 <= c < i && c < 256 ==> ftab[c] == Below(b, c + 1)
      invariant forall c :: i <= c < 256 ==> ftab[c] == Count(b, c, |b|)
    {
      ftab[i] := ftab[i] + ftab[i - 1];
    }
  }

  lemma SlotIs(b: seq<byte>, i: int)
    requires 0 <= i < |b|
    ensures Slot(b, i) == var c: int := b[i]; Below(b, c + 1) - Count(b, c, i) - 1
  {
  }

  /** The initial one-byte radix sort. */
  method BucketSort(fmap: array<int>, arr2: array<int>, nblock: int, ftab: array<int>, ghost b: seq<byte>)
    requires ftab.Length == 257 && fmap.Length == nblock && ftab != arr2 && ftab != fmap && fmap != arr2
    requires HoldsBytes(arr2[..], nblock) && BytesOf(arr2[..], nblock) == b
    requires forall c :: 0 <= c < 256 ==> ftab[c] == Below(b, c + 1)
    modifies fmap, ftab
    ensures forall c :: 0 <= c < 256 ==> ftab[c] == Below(b, c)
    ensures Permutation(fmap[..]) && InBuckets(b, fmap[..])
  {
    hide Count, Below, Slot;
    ghost var slots := Slots(b);
    forall c ensures Count(b, c, 0) == 0 { CountStarts(b, c); }
    for i := 0 to nblock
      invariant forall c :: 0 <= c < 256 ==> ftab[c] == Below(b, c + 1) - Count(b, c, i)
      invariant forall k :: 0 <= k < i ==> fmap[slots[k]] == k
    {
      var j := GetByte(arr2, i, nblock);
      var k := ftab[j] - 1;
      SlotIs(b, i);
      forall c | 0 <= c < 256
        ensures Count(b, c, i + 1) == Count(b, c, i) + (if b[i] == c then 1 else 0) { CountStep(b, c, i); }
      ftab[j] := k;
      fmap[k] := i;
    }
    forall c | 0 <= c < 256 ensures ftab[c] == Below(b, c) { BelowStep(b, c); }
    SlotsFilled(b, fmap[..]);
  }

  lemma SlotsFilled(b: seq<byte>, f: seq<int>)
    requires |f| == |b| && forall k :: 0 <= k < |b| ==> f[Slots(b)[k]] == k
    ensures Permutation(f) && InBuckets(b, f)
  {
    var slots := Slots(b);
    forall p | 0 <= p < |f| ensures 0 <= f[p] < |b| && slots[f[p]] == p && InBucket(b, f[p], p) {
      var k := PositionOf(slots, p);
      assert f[slots[k]] == k;
      SlotInBucket(b, k);
    }
  }

  /** A bucket starts at entry k. */
  ghost predicate BucketStart(b: seq<byte>, k: int, below: int) {
    exists c :: 0 <= c < below && BucketStartsAt(b, c, k)
  }

  ghost predicate BucketStartsAt(b: seq<byte>, c: nat, k: int) {
    Below(b, c) == k
  }

  /** Clear the header bits, then set one at the start of every bucket. */
  method MarkBuckets(bhtab: array<uint32>, ftab: array<int>, nblock: int, ghost b: seq<byte>)
    requires bhtab as object != ftab as object
    requires ftab.Length == 257 && 0 < nblock == |b| && nblock + 64 <= 32 * bhtab.Length
    requires forall c :: 0 <= c < 256 ==> ftab[c] == Below(b, c)
    modifies bhtab
    ensures forall k :: 0 <= k <= nblock + 1 ==> (Headers(bhtab[..], nblock + 64)[k] <==> BucketStart(b, k, 256))
  {
    var nBhtab := 2 + nblock / 32;
    for i := 0 to nBhtab
      invariant forall w :: 0 <= w < i ==> bhtab[w] == 0
    {
      bhtab[i] := 0;
    }
    ghost var m := nblock + 64;
    forall k | 0 <= k <= nblock + 1 ensures !Headers(bhtab[..], m)[k] {
      assert bhtab[..][k / 32] == 0;
      AllOnes(32, k % 32);
    }
    for i := 0 to 256
      invariant forall k :: 0 <= k <= nblock + 1 ==> (Headers(bhtab[..], m)[k] <==> BucketStart(b, k, i))
    {
      BelowUpTo(b, i, 256);
      BelowAll(b);
      assert BucketStartsAt(b, i, ftab[i]);
      SetBit(bhtab, ftab[i], m);
    }
  }

  /** Sentinel bits for block-end detection. */
  method SetSentinels(bhtab: array<uint32>, nblock: int)
    requires 0 < nblock && nblock + 64 <= 32 * bhtab.Length
    modifies bhtab
    ensures Headers(bhtab[..], nblock + 64)[..nblock] == old(Headers(bhtab[..], nblock + 64))[..nblock]
    ensures Headers(bhtab[..], nblock + 64)[nblock] && !Headers(bhtab[..], nblock + 64)[nblock + 1]
  {
    ghost var m := nblock + 64;
    ghost var hd := Headers(bhtab[..], m);
    for i := 0 to 32
      invariant Headers(bhtab[..], m)[..nblock] == hd[..nblock]
      invariant i > 0 ==> Headers(bhtab[..], m)[nblock] && !Headers(bhtab[..], m)[nblock + 1]
    {
      SetBit(bhtab, nblock + 2 * i, m);
      ClearBit(bhtab, nblock + 2 * i + 1, m);
    }
  }

  lemma StartSeparates(b: seq<byte>, x: int, y: int, k: int)
    requires 0 < k < |b| && 0 <= x < |b| && 0 <= y < |b| && InBucket(b, x, k - 1) && InBucket(b, y, k)
    ensures b[x] <= b[y]
    ensures b[x] != b[y] <==> BucketStart(b, k, 256)
  {
    var c: int, d: int := b[x], b[y];
    if d < c { BelowUpTo(b, d + 1, c); }
    if c < d {
      BelowUpTo(b, c + 1, d);
      assert BucketStartsAt(b, d, k);
    }
    if BucketStart(b, k, 256) {
      var z :| 0 <= z < 256 && BucketStartsAt(b, z, k);
      if z <= c { BelowUpTo(b, z, c); }
      if d < z { BelowUpTo(b, d + 1, z); }
    }
  }

  /** After the bucket sort, entries are in order on one character. */
  lemma BucketsAreRefined(b: seq<byte>, f: seq<int>, hd: seq<bool>)
    requires 0 < |b| && |hd| == |b| + 2 && Permutation(f) && InBuckets(b, f)
    requires forall k :: 0 <= k < |b| ==> (hd[k] <==> BucketStart(b, k, 256))
    requires hd[|b|] && !hd[|b| + 1]
    ensures Refined(b, f, hd, 1, -1)
  {
    assert BucketStartsAt(b, 0, 0);
    forall k | 0 < k < |f| ensures StepAt(b, f, hd, 1, -1, k) {
      StartSeparates(b, f[k - 1], f[k], k);
      assert Cyclic(b, f[k - 1], 1) == [b[f[k - 1]]] && Cyclic(b, f[k], 1) == [b[f[k]]];
    }
  }

  /** The original block is put back, byte by byte in sorted order. */
  method Rebuild(fmap: array<int>, arr2: array<int>, ftabCopy: array<int>, nblock: int, ghost b: seq<byte>)
    requires ftabCopy.Length == 256 && fmap.Length == nblock == |b| <= arr2.Length
    requires fmap != arr2 && ftabCopy != arr2 && ftabCopy != fmap
    requires Permutation(fmap[..]) && InBuckets(b, fmap[..])
    requires forall c :: 0 <= c < 256 ==> ftabCopy[c] == Count(b, c, nblock)
    requires forall x :: 0 <= x < nblock ==> 0 <= arr2[x] < 0x1_0000_0000
    modifies arr2, ftabCopy
    ensures HoldsBytes(arr2[..], nblock) && BytesOf(arr2[..], nblock) == b
  {
    ghost var f := fmap[..];
    var j := 0;
    for i := 0 to nblock
      invariant 0 <= j < 256 && Below(b, j) <= i <= Below(b, j + 1)
      invariant ftabCopy[j] == Below(b, j + 1) - i
      invariant forall c :: j < c < 256 ==> ftabCopy[c] == Count(b, c, nblock)
      invariant HoldsBytes(arr2[..], nblock)
      invariant forall k :: 0 <= k < i ==> BytesOf(arr2[..], nblock)[f[k]] == b[f[k]]
    {
      j := NextNonempty(ftabCopy, j, i, b);
      BucketIsByte(b, f[i], i, j);
      ftabCopy[j] := ftabCopy[j] - 1;
      PutByte(arr2, fmap[i], j, nblock);
    }
    forall x | 0 <= x < nblock ensures BytesOf(arr2[..], nblock)[x] == b[x] {
      var k := PositionOf(f, x);
    }
  }

  lemma BucketIsByte(b: seq<byte>, x: int, k: int, j: nat)
    requires 0 <= x < |b| && InBucket(b, x, k) && Below(b, j) <= k < Below(b, j + 1)
    ensures b[x] == j
  {
    var c: int := b[x];
    if c < j { BelowUpTo(b, c + 1, j); }
    if j < c { BelowUpTo(b, j + 1, c); }
  }

  /** Advance j to the bucket of entry i; assertion 1005 (j < 256) cannot fail. */
  method NextNonempty(ftabCopy: array<int>, j0: int, i: int, ghost b: seq<byte>) returns (j: int)
    requires ftabCopy.Length == 256 && 0 <= j0 < 256 && 0 <= i < |b|
    requires Below(b, j0) <= i <= Below(b, j0 + 1) && ftabCopy[j0] == Below(b, j0 + 1) - i
    requires forall c :: j0 < c < 256 ==> ftabCopy[c] == Count(b, c, |b|)
    ensures j0 <= j < 256 && Below(b, j) <= i < Below(b, j + 1) && ftabCopy[j] == Below(b, j + 1) - i
  {
    j := j0;
    while ftabCopy[j] == 0
      invariant j0 <= j < 256 && Below(b, j) <= i <= Below(b, j + 1)
      invariant ftabCopy[j] == Below(b, j + 1) - i
      decreases 256 - j
    {
      BelowAll(b);
      j := j + 1;
    }
  }

  /** fallbackSort: fmap lists the rotations of the block in order, and the block is back in the
      bytes of arr2. */
  method Sort(fmap: array<int>, arr2: array<int>, bhtab: array<uint32>, nblock: int, ghost b: seq<byte>)
    requires fmap != arr2 && bhtab as object != fmap as object && bhtab as object != arr2 as object
    requires 0 < nblock == fmap.Length <= arr2.Length && nblock < 0x8000_0000
    requires nblock + 64 <= 32 * bhtab.Length
    requires HoldsBytes(arr2[..], nblock) && BytesOf(arr2[..], nblock) == b
    modifies fmap, arr2, bhtab
    ensures SortedOrder(b, fmap[..])
    ensures HoldsBytes(arr2[..], nblock) && BytesOf(arr2[..], nblock) == b
  {
    var ftab := new int[257];
    var ftabCopy := new int[256];
    CountFrequencies(arr2, nblock, ftab, ftabCopy, b);
    BucketSort(fmap, arr2, nblock, ftab, b);
    MarkBuckets(bhtab, ftab, nblock, b);
    ghost var hd := Headers(bhtab[..], nblock + 64);
    SetSentinels(bhtab, nblock);
    forall k | 0 <= k < nblock ensures Headers(bhtab[..], nblock + 2)[k] <==> BucketStart(b, k, 256) {
      assert Headers(bhtab[..], nblock + 64)[..nblock][k] == hd[..nblock][k];
    }
    BucketsAreRefined(b, fmap[..], Headers(bhtab[..], nblock + 2));
    RefineAll(fmap, arr2, bhtab, nblock, b);
    Rebuild(fmap, arr2, ftabCopy, nblock, b);
  }
}
