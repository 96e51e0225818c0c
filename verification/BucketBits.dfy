/** bhtab: one header bit per position, 32 to a word, scanned a word at a time. */
module BucketBits {
  import opened Bytes

  /** Bit j of a word. */
  predicate WordBit(w: nat, j: nat) {
    if j == 0 then w % 2 == 1 else WordBit(w / 2, j - 1)
  }

  /** w | (1 << j) */
  function WithBit(w: nat, j: nat): nat {
    if j == 0 then (if w % 2 == 1 then w else w + 1) else 2 * WithBit(w / 2, j - 1) + w % 2
  }

  /** w & ~(1 << j) */
  function WithoutBit(w: nat, j: nat): nat {
    if j == 0 then (if w % 2 == 1 then w - 1 else w) else 2 * WithoutBit(w / 2, j - 1) + w % 2
  }

  /** Setting and clearing bit j change bit j and no other. */
  lemma {:induction false} WordBitWritten(w: nat, j: nat, i: nat)
    ensures WordBit(WithBit(w, j), i) <==> WordBit(w, i) || i == j
    ensures WordBit(WithoutBit(w, j), i) <==> WordBit(w, i) && i != j
    decreases j
  {
    if j > 0 {
      assert WithBit(w, j) / 2 == WithBit(w / 2, j - 1) && WithBit(w, j) % 2 == w % 2;
      assert WithoutBit(w, j) / 2 == WithoutBit(w / 2, j - 1) && WithoutBit(w, j) % 2 == w % 2;
      if i > 0 { WordBitWritten(w / 2, j - 1, i - 1); }
    } else {
      assert WithBit(w, j) / 2 == w / 2 && WithoutBit(w, j) / 2 == w / 2;
    }
  }

  /** A word stays a word of n bits. */
  lemma {:induction false} WordStays(w: nat, j: nat, n: nat)
    requires w < Pow2(n) && j < n
    ensures WithBit(w, j) < Pow2(n) && WithoutBit(w, j) < Pow2(n)
    decreases j
  {
    if j > 0 { WordStays(w / 2, j - 1, n - 1); }
  }

  lemma {:induction false} AllOnes(n: nat, j: nat)
    requires j < n
    ensures WordBit(Pow2(n) - 1, j) && !WordBit(0, j)
    decreases j
  {
    if j > 0 {
      AllOnes(n - 1, j - 1);
      assert (Pow2(n) - 1) / 2 == Pow2(n - 1) - 1;
    }
  }

  lemma Pow2Of32()
    ensures Pow2(32) == 0x1_0000_0000
  {
    assert Pow2(8) == 0x100 && Pow2(16) == 0x1_0000 && Pow2(24) == 0x100_0000;
  }

  /** ISSET_BH */
  predicate IsSet(words: seq<uint32>, k: int)
    requires 0 <= k && k / 32 < |words|
  {
    WordBit(words[k / 32], k % 32)
  }

  function IsSetAt(bhtab: array<uint32>, k: int): (r: bool)
    requires 0 <= k && k / 32 < bhtab.Length
    reads bhtab
    ensures r == IsSet(bhtab[..], k)
  {
    WordBit(bhtab[k / 32], k % 32)
  }

  lemma WordWritten(words: seq<uint32>, words': seq<uint32>, k: int, i: int)
    requires 0 <= k && k / 32 < |words| && 0 <= i && i / 32 < |words| == |words'|
    ensures words' == words[k / 32 := words'[k / 32]] && words'[k / 32] == WithBit(words[k / 32], k % 32) ==>
      (IsSet(words', i) <==> IsSet(words, i) || i == k)
    ensures words' == words[k / 32 := words'[k / 32]] && words'[k / 32] == WithoutBit(words[k / 32], k % 32) ==>
      (IsSet(words', i) <==> IsSet(words, i) && i != k)
  {
    if i / 32 == k / 32 { WordBitWritten(words[k / 32], k % 32, i % 32); }
  }

  /** The first m header bits. */
  ghost function Headers(words: seq<uint32>, m: nat): (hd: seq<bool>)
    requires m <= 32 * |words|
    ensures |hd| == m
  {
    seq(m, k requires 0 <= k < m => IsSet(words, k))
  }

  /** SET_BH changes one bit. */
  method SetBit(bhtab: array<uint32>, k: int, ghost m: nat)
    requires 0 <= k < m <= 32 * bhtab.Length
    modifies bhtab
    ensures Headers(bhtab[..], m) == old(Headers(bhtab[..], m))[k := true]
  {
    ghost var words := bhtab[..];
    Pow2Of32();
    WordStays(words[k / 32], k % 32, 32);
    bhtab[k / 32] := WithBit(bhtab[k / 32], k % 32);
    forall i | 0 <= i < m
      ensures IsSet(bhtab[..], i) <==> IsSet(words, i) || i == k
    {
      WordWritten(words, bhtab[..], k, i);
    }
  }

  /** CLEAR_BH changes one bit. */
  method ClearBit(bhtab: array<uint32>, k: int, ghost m: nat)
    requires 0 <= k < m <= 32 * bhtab.Length
    modifies bhtab
    ensures Headers(bhtab[..], m) == old(Headers(bhtab[..], m))[k := false]
  {
    ghost var words := bhtab[..];
    Pow2Of32();
    WordStays(words[k / 32], k % 32, 32);
    bhtab[k / 32] := WithoutBit(bhtab[k / 32], k % 32);
    forall i | 0 <= i < m
      ensures IsSet(bhtab[..], i) <==> IsSet(words, i) && i != k
    {
      WordWritten(words, bhtab[..], k, i);
    }
  }

  /** ISSET_BH on the header bits. */
  method TestBit(bhtab: array<uint32>, k: int, ghost m: nat) returns (r: bool)
    requires 0 <= k < m <= 32 * bhtab.Length
    ensures r == Headers(bhtab[..], m)[k]
  {
    r := IsSetAt(bhtab, k);
  }

  /** A word of all ones has every bit set, a zero word none. */
  lemma WholeWord(words: seq<uint32>, k: int, i: int)
    requires 0 <= k && k / 32 < |words| && k % 32 == 0 && k <= i < k + 32
    ensures i / 32 == k / 32
    ensures words[k / 32] == 0xffff_ffff ==> IsSet(words, i)
    ensures words[k / 32] == 0 ==> !IsSet(words, i)
  {
    Pow2Of32();
    AllOnes(32, i % 32);
  }

  /** Runs over the set bits of a whole word. z bounds the scan. */
  method SkipFullWords(bhtab: array<uint32>, k0: int, ghost z: int) returns (k: int)
    requires 0 <= k0 <= z && k0 % 32 == 0 && z / 32 < bhtab.Length && !IsSet(bhtab[..], z)
    ensures k0 <= k <= z
    ensures forall i :: k0 <= i < k ==> IsSet(bhtab[..], i)
  {
    k := k0;
    while bhtab[k / 32] == 0xffff_ffff
      invariant k0 <= k <= z && k % 32 == 0
      invariant forall i :: k0 <= i < k ==> IsSet(bhtab[..], i)
      decreases z - k
    {
      forall i | k <= i < k + 32 ensures i / 32 < bhtab.Length && IsSet(bhtab[..], i) {
        WholeWord(bhtab[..], k, i);
      }
      k := k + 32;
    }
  }

  method SkipZeroWords(bhtab: array<uint32>, k0: int, ghost z: int) returns (k: int)
    requires 0 <= k0 <= z && k0 % 32 == 0 && z / 32 < bhtab.Length && IsSet(bhtab[..], z)
    ensures k0 <= k <= z
    ensures forall i :: k0 <= i < k ==> !IsSet(bhtab[..], i)
  {
    k := k0;
    while bhtab[k / 32] == 0
      invariant k0 <= k <= z && k % 32 == 0
      invariant forall i :: k0 <= i < k ==> !IsSet(bhtab[..], i)
      decreases z - k
    {
      forall i | k <= i < k + 32 ensures i / 32 < bhtab.Length && !IsSet(bhtab[..], i) {
        WholeWord(bhtab[..], k, i);
      }
      k := k + 32;
    }
  }

  /** Runs over set bits to the first clear one, or to the first word boundary if asked to stop
      there. */
  method SkipSetBits(bhtab: array<uint32>, k0: int, toBoundary: bool, ghost z: int) returns (k: int)
    requires 0 <= k0 <= z && z / 32 < bhtab.Length && !IsSet(bhtab[..], z)
    ensures k0 <= k <= z
    ensures forall i :: k0 <= i < k ==> IsSet(bhtab[..], i)
    ensures !IsSet(bhtab[..], k) || (toBoundary && k % 32 == 0)
  {
    k := k0;
    while IsSetAt(bhtab, k) && !(toBoundary && k % 32 == 0)
      invariant k0 <= k <= z
      invariant forall i :: k0 <= i < k ==> IsSet(bhtab[..], i)
      decreases z - k
    {
      k := k + 1;
    }
  }

  method SkipClearBits(bhtab: array<uint32>, k0: int, toBoundary: bool, ghost z: int) returns (k: int)
    requires 0 <= k0 <= z && z / 32 < bhtab.Length && IsSet(bhtab[..], z)
    ensures k0 <= k <= z
    ensures forall i :: k0 <= i < k ==> !IsSet(bhtab[..], i)
    ensures IsSet(bhtab[..], k) || (toBoundary && k % 32 == 0)
  {
    k := k0;
    while !IsSetAt(bhtab, k) && !(toBoundary && k % 32 == 0)
      invariant k0 <= k <= z
      invariant forall i :: k0 <= i < k ==> !IsSet(bhtab[..], i)
      decreases z - k
    {
      k := k + 1;
    }
  }

  /** From k over set bits to the first clear one, whole words at a time once aligned. z is a
      clear bit that bounds the scan. */
  method SkipSet(bhtab: array<uint32>, k0: int, ghost z: int, ghost m: nat) returns (k: int)
    requires 0 <= k0 <= z < m <= 32 * bhtab.Length && !Headers(bhtab[..], m)[z]
    ensures k0 <= k <= z && !Headers(bhtab[..], m)[k]
    ensures forall i :: k0 <= i < k ==> Headers(bhtab[..], m)[i]
  {
    k := SkipSetBits(bhtab, k0, true, z);
    if IsSetAt(bhtab, k) {
      k := SkipFullWords(bhtab, k, z);
      k := SkipSetBits(bhtab, k, false, z);
    }
  }

  /** The same over clear bits to the first set one. */
  method SkipClear(bhtab: array<uint32>, k0: int, ghost z: int, ghost m: nat) returns (k: int)
    requires 0 <= k0 <= z < m <= 32 * bhtab.Length && Headers(bhtab[..], m)[z]
    ensures k0 <= k <= z && Headers(bhtab[..], m)[k]
    ensures forall i :: k0 <= i < k ==> !Headers(bhtab[..], m)[i]
  {
    k := SkipClearBits(bhtab, k0, true, z);
    if !IsSetAt(bhtab, k) {
      k := SkipZeroWords(bhtab, k, z);
      k := SkipClearBits(bhtab, k, false, z);
    }
  }
}
