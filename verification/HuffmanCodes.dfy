/** Canonical prefix codes: how lengths determine codes and decoding tables, and the bit-by-bit
    decoding loop. */
module HuffmanCodes {
  import opened Bytes
  import opened BitStrings
  import opened BitIo

  /** How many of the first i symbols have codes of length n. */
  ghost function Cnt(len: seq<int>, n: int, i: int): (r: nat)
    requires 0 <= i <= |len|
    decreases i
  {
    if i == 0 then 0 else Cnt(len, n, i - 1) + (if len[i - 1] == n then 1 else 0)
  }

  ghost function All(len: seq<int>, n: int): nat {
    Cnt(len, n, |len|)
  }

  /** The first code of length n: twice what comes after the last code of length n-1. */
  ghost function First(len: seq<int>, n: nat): nat {
    if n == 0 then 0 else 2 * (First(len, n - 1) + All(len, n - 1))
  }

  /** Codes of one length are handed out in the order of the symbols. */
  ghost function CodeOf(len: seq<int>, i: int): nat
    requires 0 <= i < |len| && len[i] >= 0
  {
    First(len, len[i]) + Cnt(len, len[i], i)
  }

  ghost function CodeBits(len: seq<int>, i: int): (r: seq<bit>)
    requires 0 <= i < |len| && len[i] >= 0
    ensures |r| == len[i]
  {
    Bits(CodeOf(len, i), len[i])
  }

  /** How many symbols have codes shorter than n. */
  ghost function Shorter(len: seq<int>, n: nat): nat {
    if n == 0 then 0 else Shorter(len, n - 1) + All(len, n - 1)
  }

  /** The place of a symbol when symbols are listed by code length. */
  ghost function Slot(len: seq<int>, i: int): nat
    requires 0 <= i < |len| && len[i] >= 0
  {
    Shorter(len, len[i]) + Cnt(len, len[i], i)
  }

  /** All lengths are between lo and hi, and hi is one of them. */
  ghost predicate Lengths(len: seq<int>, lo: int, hi: int) {
    && 1 <= lo <= hi <= 20 && 0 < |len| <= 258
    && (forall i :: 0 <= i < |len| ==> lo <= len[i] <= hi)
    && exists i :: 0 <= i < |len| && len[i] == hi
  }

  /** The codes up to length n do not run out of n bits. */
  ghost predicate Fits(len: seq<int>, n: nat) {
    First(len, n) + All(len, n) <= Pow2(n)
  }

  lemma {:induction false} FitsBelow(len: seq<int>, n: nat, m: nat)
    requires Fits(len, m) && n <= m
    ensures Fits(len, n)
    decreases m
  {
    if n < m { FitsBelow(len, n, m - 1); }
  }

  lemma {:induction false} CntMonotone(len: seq<int>, n: int, i: int, j: int)
    requires 0 <= i <= j <= |len|
    ensures Cnt(len, n, i) <= Cnt(len, n, j) <= Cnt(len, n, i) + j - i
    ensures i < j && len[i] == n ==> Cnt(len, n, i) < Cnt(len, n, j)
    decreases j
  {
    if i < j { CntMonotone(len, n, i, j - 1); }
  }

  lemma {:induction false} NoneThere(len: seq<int>, n: int, i: int)
    requires 0 <= i <= |len| && forall j :: 0 <= j < i ==> len[j] != n
    ensures Cnt(len, n, i) == 0
    decreases i
  {
    if i > 0 { NoneThere(len, n, i - 1); }
  }

  /** Below the least length everything is zero. */
  lemma {:induction false} NothingShorter(len: seq<int>, n: nat)
    requires forall i :: 0 <= i < |len| ==> len[i] >= n
    ensures First(len, n) == 0 && Shorter(len, n) == 0
    decreases n
  {
    if n > 0 {
      NothingShorter(len, n - 1);
      NoneThere(len, n - 1, |len|);
    }
  }

  lemma {:induction false} ShorterMonotone(len: seq<int>, n: nat, m: nat)
    requires n < m
    ensures Shorter(len, n) + All(len, n) <= Shorter(len, m)
    decreases m
  {
    if n < m - 1 { ShorterMonotone(len, n, m - 1); }
  }

  /** After a code of length n, longer codes start beyond it. */
  lemma {:induction false} FirstBeyond(len: seq<int>, n: nat, m: nat)
    requires n < m
    ensures Shl(First(len, n) + All(len, n), m - n) <= First(len, m)
    decreases m
  {
    if n < m - 1 { FirstBeyond(len, n, m - 1); }
  }

  lemma {:induction false} ShrOfAtLeast(v: nat, w: nat, k: nat)
    requires v >= Shl(w, k)
    ensures Shr(v, k) >= w
    decreases k
  {
    if k > 0 { ShrOfAtLeast(v / 2, w, k - 1); }
  }

  lemma {:induction false} ShrBelow(v: nat, n: nat, k: nat)
    requires v < Pow2(n + k)
    ensures Shr(v, k) < Pow2(n)
    decreases k
  {
    if k > 0 { ShrBelow(v / 2, n, k - 1); }
  }

  lemma CodeInRange(len: seq<int>, i: int)
    requires 0 <= i < |len| && len[i] >= 0 && Fits(len, len[i])
    ensures CodeOf(len, i) < First(len, len[i]) + All(len, len[i]) <= Pow2(len[i])
  {
    CntMonotone(len, len[i], i, |len|);
  }

  /** The symbol's code does not need more bits than its length. */
  ghost predicate HasCode(len: seq<int>, s: int) {
    0 <= s < |len| && len[s] >= 0 && CodeOf(len, s) < Pow2(len[s])
  }

  /** No code is a prefix of another one, whatever the lengths. */
  lemma PrefixFree(len: seq<int>, s: int, t: int)
    requires HasCode(len, s) && HasCode(len, t) && CodeBits(len, s) <= CodeBits(len, t)
    ensures s == t
  {
    hide Bits;
    var n, m := len[s], len[t];
    CntMonotone(len, n, s, |len|);
    CntMonotone(len, m, t, |len|);
    if n == m {
      BitsInjective(CodeOf(len, s), CodeOf(len, t), n);
      CntMonotone(len, n, if s < t then s else t, if s < t then t else s);
    } else {
      var k := m - n;
      BitsSplit(CodeOf(len, t), n, k);
      FirstBeyond(len, n, m);
      ShrOfAtLeast(CodeOf(len, t), First(len, n) + All(len, n), k);
      ShrBelow(CodeOf(len, t), n, k);
      assert CodeBits(len, t)[..n] == Bits(Shr(CodeOf(len, t), k), n);
      BitsInjective(CodeOf(len, s), Shr(CodeOf(len, t), k), n);
    }
  }

  /** The left side of Kraft's inequality, in units of 2^-M. */
  ghost function KraftSum(len: seq<int>, M: nat, i: int): nat
    requires 0 <= i <= |len|
    decreases i
  {
    if i == 0 then 0 else KraftSum(len, M, i - 1) + (if 0 <= len[i - 1] <= M then Pow2(M - len[i - 1]) else 0)
  }

  lemma {:induction false} KraftSumDoubles(len: seq<int>, n: nat, i: int)
    requires 0 <= i <= |len| && n > 0
    ensures KraftSum(len, n, i) == 2 * KraftSum(len, n - 1, i) + Cnt(len, n, i)
    decreases i
  {
    if i > 0 { KraftSumDoubles(len, n, i - 1); }
  }

  lemma {:induction false} KraftSumOfNone(len: seq<int>, i: int)
    requires 0 <= i <= |len|
    ensures KraftSum(len, 0, i) == Cnt(len, 0, i)
    decreases i
  {
    if i > 0 { KraftSumOfNone(len, i - 1); }
  }

  /** Codes up to length M take up exactly the sum's share of the codes of M bits. */
  lemma {:induction false} KraftSumIsCodes(len: seq<int>, M: nat)
    ensures KraftSum(len, M, |len|) == First(len, M) + All(len, M)
    decreases M
  {
    if M == 0 {
      KraftSumOfNone(len, |len|);
    } else {
      KraftSumDoubles(len, M, |len|);
      KraftSumIsCodes(len, M - 1);
    }
  }

  /** Kraft's inequality is what makes the canonical codes fit, at every length. */
  lemma KraftFits(len: seq<int>, M: nat, n: nat)
    requires KraftSum(len, M, |len|) <= Pow2(M) && n <= M
    ensures Fits(len, n)
  {
    KraftSumIsCodes(len, M);
    FitsBelow(len, n, M);
  }

  /** Symbols with codes shorter than n, and the first i of those with codes of n bits, have their
      codes. */
  ghost predicate Assigned(code: seq<int>, len: seq<int>, n: int, i: int) {
    && |len| <= |code|
    && forall j :: 0 <= j < |len| && (len[j] < n || (len[j] == n && j < i)) ==> len[j] >= 0 && code[j] == CodeOf(len, j)
  }

  lemma AssignNext(code: seq<int>, len: seq<int>, n: nat, i: int)
    requires 0 <= i < |len| && Assigned(code, len, n, i)
    ensures len[i] == n ==> Assigned(code[i := First(len, n) + Cnt(len, n, i)], len, n, i + 1)
    ensures len[i] != n ==> Assigned(code, len, n, i + 1)
  {
  }

  /** One step up in length, and one symbol further. */
  lemma FirstAndCnt(len: seq<int>, n: nat, i: int)
    requires 0 <= i < |len|
    ensures First(len, n + 1) == 2 * (First(len, n) + Cnt(len, n, |len|))
    ensures Shorter(len, n + 1) == Shorter(len, n) + Cnt(len, n, |len|)
    ensures Cnt(len, n, 0) == 0 && Cnt(len, n, i + 1) == Cnt(len, n, i) + if len[i] == n then 1 else 0
  {
  }

  /** BZ2_hbAssignCodes */
  method AssignCodes(code: array<int>, length: seq<int>, minLen: int, maxLen: int, alphaSize: int)
    requires Lengths(length, minLen, maxLen) && alphaSize == |length| <= code.Length
    modifies code
    ensures forall i :: 0 <= i < alphaSize ==> code[i] == CodeOf(length, i)
  {
    hide Cnt, First;
    var vec := 0;
    NothingShorter(length, minLen);
    for n := minLen to maxLen + 1
      invariant vec == First(length, n) && Assigned(code[..], length, n, 0)
    {
      hide Assigned;
      FirstAndCnt(length, n, 0);
      for i := 0 to alphaSize
        invariant vec == First(length, n) + Cnt(length, n, i) && Assigned(code[..], length, n, i)
      {
        AssignNext(code[..], length, n, i);
        FirstAndCnt(length, n, i);
        if length[i] == n {
          ghost var was := code[..];
          code[i] := vec;
          assert code[..] == was[i := vec];
          vec := vec + 1;
        }
      }
      vec := vec * 2;
      NextAssigned(code[..], length, n);
    }
  }

  lemma NextAssigned(code: seq<int>, len: seq<int>, n: nat)
    requires Assigned(code, len, n, |len|)
    ensures Assigned(code, len, n + 1, 0)
  {
  }

  /** What the decoding loop needs to know of the three tables. */
  ghost predicate Tables(limit: seq<int>, base: seq<int>, perm: seq<int>, len: seq<int>, lo: int, hi: int) {
    && Lengths(len, lo, hi) && |limit| == |base| == |perm| == 258
    && (forall n :: lo <= n <= hi ==>
        limit[n] == First(len, n) + All(len, n) - 1 && base[n] == First(len, n) - Shorter(len, n))
    && (forall n :: hi < n < 23 ==> limit[n] == 0)
    && (forall i :: 0 <= i < |len| ==> Slot(len, i) < |len| && perm[Slot(len, i)] == i)
  }

  /** Slots are handed out one after the other. */
  lemma SlotBefore(len: seq<int>, j: int, n: nat, i: int)
    requires 0 <= j < |len| && 0 <= len[j] <= n && 0 <= i <= |len| && (len[j] < n || j < i)
    ensures Slot(len, j) < Shorter(len, n) + Cnt(len, n, i)
  {
    if len[j] < n {
      ShorterMonotone(len, len[j], n);
      CntMonotone(len, len[j], j, |len|);
    } else {
      CntMonotone(len, n, j, i);
    }
  }

  /** There are as many slots as symbols. */
  lemma {:induction false} AllShorter(len: seq<int>, n: nat, i: int)
    requires 0 <= i <= |len| && forall j :: 0 <= j < |len| ==> 0 <= len[j] < n
    ensures ShorterUpTo(len, n, i) == i
    decreases i
  {
    if i > 0 {
      AllShorter(len, n, i - 1);
      OneMore(len, n, i);
    } else {
      NoneYet(len, n);
    }
  }

  /** How many of the first i symbols have codes shorter than n. */
  ghost function ShorterUpTo(len: seq<int>, n: nat, i: int): nat
    requires 0 <= i <= |len|
  {
    if n == 0 then 0 else ShorterUpTo(len, n - 1, i) + Cnt(len, n - 1, i)
  }

  lemma {:induction false} OneMore(len: seq<int>, n: nat, i: int)
    requires 0 < i <= |len|
    ensures ShorterUpTo(len, n, i) == ShorterUpTo(len, n, i - 1) + (if 0 <= len[i - 1] < n then 1 else 0)
    decreases n
  {
    if n > 0 { OneMore(len, n - 1, i); }
  }

  lemma {:induction false} NoneYet(len: seq<int>, n: nat)
    ensures ShorterUpTo(len, n, 0) == 0
    decreases n
  {
    if n > 0 { NoneYet(len, n - 1); }
  }

  lemma {:induction false} ShorterUpToAll(len: seq<int>, n: nat)
    ensures ShorterUpTo(len, n, |len|) == Shorter(len, n)
    decreases n
  {
    if n > 0 { ShorterUpToAll(len, n - 1); }
  }

  lemma SlotInRange(len: seq<int>, i: int, n: nat)
    requires 0 <= i < |len| && forall j :: 0 <= j < |len| ==> 0 <= len[j] < n
    ensures Slot(len, i) < |len|
  {
    SlotBefore(len, i, n, 0);
    AllShorter(len, n, |len|);
    ShorterUpToAll(len, n);
  }

  ghost predicate SlotsFit(len: seq<int>, m: int) {
    forall k :: 0 <= k < |len| ==> 0 <= len[k] && Slot(len, k) < m
  }

  lemma AllSlotsFit(len: seq<int>, n: nat)
    requires forall j :: 0 <= j < |len| ==> 0 <= len[j] < n
    ensures SlotsFit(len, |len|)
  {
    forall k | 0 <= k < |len| ensures Slot(len, k) < |len| { SlotInRange(len, k, n); }
  }

  /** Symbols with codes shorter than n, and the first i of those with codes of n bits, are in
      their slots. */
  ghost predicate Placed(perm: seq<int>, len: seq<int>, n: nat, i: int) {
    && SlotsFit(len, |perm|)
    && forall k :: 0 <= k < |len| && (len[k] < n || (len[k] == n && k < i)) ==> perm[Slot(len, k)] == k
  }

  lemma PlaceSymbol(perm: seq<int>, len: seq<int>, n: nat, i: int)
    requires 0 <= i < |len| && Placed(perm, len, n, i)
    ensures len[i] == n ==>
          Shorter(len, n) + Cnt(len, n, i) < |perm| &&
            Placed(perm[Shorter(len, n) + Cnt(len, n, i) := i], len, n, i + 1)
    ensures len[i] != n ==> Placed(perm, len, n, i + 1)
  {
    if len[i] == n {
      var pp := Slot(len, i);
      assert pp == Shorter(len, n) + Cnt(len, n, i);
      forall k | 0 <= k < |len| && (len[k] < n || (len[k] == n && k < i)) ensures Slot(len, k) < pp {
        SlotBefore(len, k, n, i);
      }
      hide Slot, Cnt, Shorter;
      assert Placed(perm[pp := i], len, n, i + 1);
    }
  }

  /** The first loop of BZ2_hbCreateDecodeTables: the symbols by code length. */
  method FillPerm(perm: array<int>, length: seq<int>, minLen: int, maxLen: int, alphaSize: int)
    requires Lengths(length, minLen, maxLen) && alphaSize == |length| <= perm.Length
    modifies perm
    ensures Placed(perm[..], length, maxLen + 1, 0)
  {
    hide Placed, Slot, SlotsFit, Cnt, Shorter;
    var pp := 0;
    AllSlotsFit(length, maxLen + 1);
    NothingShorter(length, minLen);
    PlacedNone(perm[..], length, minLen);
    for i := minLen to maxLen + 1
      invariant pp == Shorter(length, i) && Placed(perm[..], length, i, 0)
    {
      FirstAndCnt(length, i, 0);
      for j := 0 to alphaSize
        invariant pp == Shorter(length, i) + Cnt(length, i, j) && Placed(perm[..], length, i, j)
      {
        PlaceSymbol(perm[..], length, i, j);
        FirstAndCnt(length, i, j);
        if length[j] == i {
          ghost var was := perm[..];
          perm[pp] := j;
          assert perm[..] == was[pp := j];
          pp := pp + 1;
        }
      }
      NextLength(perm[..], length, i);
    }
  }

  lemma PlacedNone(perm: seq<int>, len: seq<int>, n: nat)
    requires SlotsFit(len, |len|) && |len| <= |perm| && forall k :: 0 <= k < |len| ==> len[k] >= n
    ensures Placed(perm, len, n, 0)
  {
  }

  lemma NextLength(perm: seq<int>, len: seq<int>, n: nat)
    requires Placed(perm, len, n, |len|)
    ensures Placed(perm, len, n + 1, 0)
  {
  }

  lemma PlacedAll(perm: seq<int>, len: seq<int>, n: nat)
    requires Placed(perm, len, n, 0) && SlotsFit(len, |len|) && |len| <= |perm| && forall k :: 0 <= k < |len| ==>
          len[k] < n
    ensures forall i :: 0 <= i < |len| ==> len[i] >= 0 && Slot(len, i) < |len| <= |perm| && perm[Slot(len, i)] == i
  {
  }

  lemma CntStarts(len: seq<int>, n: int)
    ensures Cnt(len, n, 0) == 0
  {
  }

  lemma CntStep(len: seq<int>, n: int, i: int)
    requires 0 <= i < |len|
    ensures Cnt(len, n, i + 1) == Cnt(len, n, i) + (if len[i] == n then 1 else 0)
  {
  }

  lemma ShorterStarts(len: seq<int>)
    ensures Shorter(len, 0) == 0
  {
  }

  lemma ShorterStep(len: seq<int>, n: nat)
    requires n > 0
    ensures Shorter(len, n) == Shorter(len, n - 1) + All(len, n - 1)
  {
  }

  /** The counting loops: base[n] is the number of codes shorter than n. */
  method CountShorter(base: array<int>, length: seq<int>, ghost minLen: int, ghost maxLen: int, alphaSize: int)
    requires Lengths(length, minLen, maxLen) && alphaSize == |length| && base.Length == 258
    modifies base
    ensures forall n :: 0 <= n < 23 ==> base[n] == Shorter(length, n)
  {
    hide Cnt, Shorter;
    for i := 0 to 23
      invariant forall n :: 0 <= n < i ==> base[n] == 0
    {
      base[i] := 0;
    }
    NoneThere(length, -1, 0);
    forall k | 0 <= k < 22 ensures Cnt(length, k, 0) == 0 { CntStarts(length, k); }
    for i := 0 to alphaSize
      invariant base[0] == 0
      invariant forall n :: 1 <= n < 23 ==> base[n] == Cnt(length, n - 1, i)
    {
      forall k | 0 <= k < 22 ensures Cnt(length, k, i + 1) == Cnt(length, k, i) + (if length[i] == k then 1 else 0) {
        CntStep(length, k, i);
      }
      base[length[i] + 1] := base[length[i] + 1] + 1;
    }
    ShorterStarts(length);
    for i := 1 to 23
      invariant forall n :: 0 <= n < i ==> base[n] == Shorter(length, n)
      invariant forall n :: i <= n < 23 ==> base[n] == All(length, n - 1)
    {
      ShorterStep(length, i);
      base[i] := base[i] + base[i - 1];
    }
  }

  /** The limits, from the counts in base. */
  method SetLimits(limit: array<int>, base: array<int>, length: seq<int>, minLen: int, maxLen: int)
    requires Lengths(length, minLen, maxLen) && limit != base && limit.Length == base.Length == 258
    requires forall n :: 0 <= n < 23 ==> base[n] == Shorter(length, n)
    modifies limit
    ensures forall n :: minLen <= n <= maxLen ==> limit[n] == First(length, n) + All(length, n) - 1
    ensures forall n :: maxLen < n < 23 ==> limit[n] == 0
  {
    for i := 0 to 23
      invariant forall n :: 0 <= n < i ==> limit[n] == 0
    {
      limit[i] := 0;
    }
    var vec := 0;
    NothingShorter(length, minLen);
    for i := minLen to maxLen + 1
      invariant vec == First(length, i)
      invariant forall n :: minLen <= n < i ==> limit[n] == First(length, n) + All(length, n) - 1
      invariant forall n :: maxLen < n < 23 ==> limit[n] == 0
    {
      vec := vec + (base[i + 1] - base[i]);
      limit[i] := vec - 1;
      vec := vec * 2;
    }
  }

  lemma NextFirstIs(len: seq<int>, n: nat)
    requires n > 0
    ensures First(len, n) == 2 * (First(len, n - 1) + All(len, n - 1))
  {
  }

  /** The last loop: base[n] becomes what to subtract from a code of n bits to get its slot. */
  method SetBase(base: array<int>, limit: array<int>, length: seq<int>, minLen: int, maxLen: int)
    requires limit != base && Lengths(length, minLen, maxLen) && base.Length == limit.Length == 258
    requires forall n :: 0 <= n < 23 ==> base[n] == Shorter(length, n)
    requires forall n :: minLen <= n <= maxLen ==> limit[n] == First(length, n) + All(length, n) - 1
    modifies base
    ensures forall n :: minLen <= n <= maxLen ==> base[n] == First(length, n) - Shorter(length, n)
  {
    hide First, Shorter, All;
    NothingShorter(length, minLen);
    for i := minLen + 1 to maxLen + 1
      invariant forall n :: minLen <= n < i ==> base[n] == First(length, n) - Shorter(length, n)
      invariant forall n :: i <= n < 23 ==> base[n] == Shorter(length, n)
    {
      NextFirstIs(length, i);
      base[i] := (limit[i - 1] + 1) * 2 - base[i];
    }
  }

  /** BZ2_hbCreateDecodeTables */
  method CreateDecodeTables(limit: array<int>, base: array<int>, perm: array<int>, length: seq<int>,
                            minLen: int, maxLen: int, alphaSize: int)
    requires limit != base && limit != perm && base != perm && limit.Length == base.Length == perm.Length == 258
    requires Lengths(length, minLen, maxLen) && alphaSize == |length|
    modifies limit, base, perm
    ensures Tables(limit[..], base[..], perm[..], length, minLen, maxLen)
  {
    hide First, Shorter, All, Slot, Placed, SlotsFit;
    AllSlotsFit(length, maxLen + 1);
    FillPerm(perm, length, minLen, maxLen, alphaSize);
    PlacedAll(perm[..], length, maxLen + 1);
    CountShorter(base, length, minLen, maxLen, alphaSize);
    SetLimits(limit, base, length, minLen, maxLen);
    SetBase(base, limit, length, minLen, maxLen);
  }

  /** The r-th symbol with a code of length n. */
  lemma {:induction false} NthSymbol(len: seq<int>, n: int, r: nat, j: int) returns (i: int)
    requires 0 <= j <= |len| && r < Cnt(len, n, j)
    ensures 0 <= i < j && len[i] == n && Cnt(len, n, i) == r
    decreases j
  {
    if Cnt(len, n, j - 1) == r { i := j - 1; } else { i := NthSymbol(len, n, r, j - 1); }
  }

  /** The decoding loop has read the zn bits of zvec, and no code of fewer bits was among them. */
  ghost predicate Scanned(len: seq<int>, lo: int, all: seq<bit>, rest: seq<bit>, zn: nat, zvec: nat) {
    && zvec < Pow2(zn) && all == Bits(zvec, zn) + rest && First(len, zn) <= zvec
    && (forall s :: 0 <= s < |len| ==> len[s] >= 0)
    && forall s :: HasCode(len, s) && len[s] < zn ==> !(CodeBits(len, s) <= all)
  }

  /** A symbol whose code has zn bits would have been recognised. */
  lemma NotThisLength(len: seq<int>, lo: int, hi: int, all: seq<bit>, rest: seq<bit>, zn: nat, zvec: nat, s: int)
    requires Lengths(len, lo, hi)
    requires zvec < Pow2(zn) && all == Bits(zvec, zn) + rest
    requires HasCode(len, s) && len[s] == zn && zvec >= First(len, zn) + All(len, zn)
    ensures !(CodeBits(len, s) <= all)
  {
    hide Bits;
    if CodeBits(len, s) <= all {
      CntMonotone(len, zn, s, |len|);
      assert all[..zn] == Bits(zvec, zn);
      BitsInjective(CodeOf(len, s), zvec, zn);
    }
  }

  lemma BitJoins(v: nat, n: nat, b: bit, rest: seq<bit>)
    requires v < Pow2(n)
    ensures Bits(v, n) + (Bits(b, 1) + rest) == Bits(2 * v + b, n + 1) + rest
    ensures 2 * v + b < Pow2(n + 1)
  {
    assert Bits(b, 1) == [b];
    assert Bits(2 * v + b, n + 1) == Bits(v, n) + [b];
    Associative(Bits(v, n), [b], rest);
  }

  lemma NextFirst(len: seq<int>, zn: nat, zvec: nat, zj: bit)
    requires zvec >= First(len, zn) + All(len, zn)
    ensures First(len, zn + 1) <= 2 * zvec + zj
  {
  }

  lemma OneMoreBit(len: seq<int>, lo: int, hi: int, all: seq<bit>, rest: seq<bit>, zn: nat, zvec: nat, zj: bit,
        rest': seq<bit>)
    requires Lengths(len, lo, hi) && Scanned(len, lo, all, rest, zn, zvec)
    requires zvec >= First(len, zn) + All(len, zn) && rest == Bits(zj, 1) + rest'
    ensures Scanned(len, lo, all, rest', zn + 1, 2 * zvec + zj)
  {
    NextFirst(len, zn, zvec, zj);
    BitJoins(zvec, zn, zj, rest');
    hide Bits, First, All, CodeBits, HasCode;
    forall s | HasCode(len, s) && len[s] < zn + 1 ensures !(CodeBits(len, s) <= all) {
      if len[s] == zn { NotThisLength(len, lo, hi, all, rest, zn, zvec, s); }
    }
  }

  /** A value in the range of its length is the code of the symbol the tables give. */
  lemma Recognised(limit: seq<int>, base: seq<int>, perm: seq<int>, len: seq<int>, lo: int, hi: int, zn: nat, zvec: nat)
    requires Tables(limit, base, perm, len, lo, hi) && lo <= zn <= hi
    requires First(len, zn) <= zvec < First(len, zn) + All(len, zn)
    ensures 0 <= zvec - base[zn] < |len|
    ensures var sym := perm[zvec - base[zn]]; 0 <= sym < |len| && len[sym] == zn && CodeOf(len, sym) == zvec
  {
    var i := NthSymbol(len, zn, zvec - First(len, zn), |len|);
    assert zvec - base[zn] == Slot(len, i);
  }

  /** Beyond the longest code no value is within a limit. */
  lemma {:induction false} BeyondLongest(len: seq<int>, lo: int, hi: int, zn: nat)
    requires Lengths(len, lo, hi) && hi < zn
    ensures First(len, zn) > 0
    decreases zn
  {
    if zn - 1 > hi {
      BeyondLongest(len, lo, hi, zn - 1);
    } else {
      var i :| 0 <= i < |len| && len[i] == hi;
      CntMonotone(len, hi, i, |len|);
    }
  }

  /** The part of GET_MTF_VAL that reads one code. It takes the code of a symbol off the input and
      returns the symbol, or finds that the input starts with no code at all; that includes an
      input that ends too early. */
  method GetSymbol(r: BitReader, limit: seq<int>, base: seq<int>, perm: seq<int>, minLen: int,
                   ghost len: seq<int>, ghost maxLen: int)
    returns (res: Option<int>)
    requires r.Valid() && Tables(limit, base, perm, len, minLen, maxLen)
    modifies r
    ensures r.Valid() && r.at >= old(r.at) && r.Delivered() == old(r.Delivered())
    ensures res.Some? ==> HasCode(len, res.value) && old(r.Remaining()) == CodeBits(len, res.value) + r.Remaining()
    ensures res.None? ==> forall s :: HasCode(len, s) ==> !(CodeBits(len, s) <= old(r.Remaining()))
  {
    hide Bits, First, All, Pow2, BitReader.Delivered, BitReader.Valid, BitReader.Remaining, HasCode, CodeBits;
    ghost var all := r.Remaining();
    var zn := minLen;
    var ok: bool, zvec: nat;
    ok, zvec := r.GetBits(zn);
    if !ok {
      NotOneCode(len, minLen, maxLen, all);
      return None;
    }
    AtStart(len, minLen, maxLen, all, r.Remaining(), zvec);
    while true
      invariant r.Valid() && r.at >= old(r.at) && r.Delivered() == old(r.Delivered()) && minLen <= zn <= 21
      invariant Scanned(len, minLen, all, r.Remaining(), zn, zvec)
      decreases 21 - zn
    {
      if zn > 20 {
        NoCodeAtAll(len, minLen, maxLen, all, r.Remaining(), zn, zvec);
        return None;
      }
      if zvec <= limit[zn] { break; }
      Missed(limit, base, perm, len, minLen, maxLen, zn, zvec);
      ghost var rest := r.Remaining();
      var zj;
      ok, zj := r.GetBits(1);
      if !ok {
        TooShort(len, minLen, maxLen, all, rest, zn, zvec);
        return None;
      }
      BitIs(zj);
      OneMoreBit(len, minLen, maxLen, all, rest, zn, zvec, zj, r.Remaining());
      zvec := zvec * 2 + zj;
      zn := zn + 1;
    }
    WithinLimit(limit, base, perm, len, minLen, maxLen, zn, zvec);
    Recognised(limit, base, perm, len, minLen, maxLen, zn, zvec);
    assert 0 <= zvec - base[zn] < 258;
    res := Some(perm[zvec - base[zn]]);
    CodeFound(len, minLen, maxLen, all, r.Remaining(), zn, zvec, perm[zvec - base[zn]]);
  }

  lemma NotOneCode(len: seq<int>, lo: int, hi: int, all: seq<bit>)
    requires Lengths(len, lo, hi) && |all| < lo
    ensures forall s :: HasCode(len, s) ==> !(CodeBits(len, s) <= all)
  {
    hide CodeBits;
  }

  lemma NoCodeAtAll(len: seq<int>, lo: int, hi: int, all: seq<bit>, rest: seq<bit>, zn: nat, zvec: nat)
    requires Lengths(len, lo, hi) && Scanned(len, lo, all, rest, zn, zvec) && zn > 20
    ensures forall s :: HasCode(len, s) ==> !(CodeBits(len, s) <= all)
  {
    hide CodeBits, First, Bits;
  }

  lemma CodeFound(len: seq<int>, lo: int, hi: int, all: seq<bit>, rest: seq<bit>, zn: nat, zvec: nat, sym: int)
    requires Lengths(len, lo, hi) && Scanned(len, lo, all, rest, zn, zvec)
    requires 0 <= sym < |len| && len[sym] == zn && CodeOf(len, sym) == zvec
    ensures HasCode(len, sym) && all == CodeBits(len, sym) + rest
  {
    hide First, Bits;
  }

  lemma BitIs(zj: nat)
    requires zj < Pow2(1)
    ensures zj < 2
  {
  }

  lemma AtStart(len: seq<int>, lo: int, hi: int, all: seq<bit>, rest: seq<bit>, zvec: nat)
    requires Lengths(len, lo, hi) && zvec < Pow2(lo) && all == Bits(zvec, lo) + rest
    ensures Scanned(len, lo, all, rest, lo, zvec)
  {
    NothingShorter(len, lo);
  }

  lemma Missed(limit: seq<int>, base: seq<int>, perm: seq<int>, len: seq<int>, lo: int, hi: int, zn: nat, zvec: nat)
    requires Tables(limit, base, perm, len, lo, hi) && lo <= zn <= 20 && First(len, zn) <= zvec && zvec > limit[zn]
    ensures zvec >= First(len, zn) + All(len, zn)
  {
    if zn > hi { NoneThere(len, zn, |len|); }
  }

  lemma WithinLimit(limit: seq<int>, base: seq<int>, perm: seq<int>, len: seq<int>, lo: int, hi: int, zn: nat,
        zvec: nat)
    requires Tables(limit, base, perm, len, lo, hi) && lo <= zn <= 20 && First(len, zn) <= zvec && zvec <= limit[zn]
    ensures zn <= hi && zvec < First(len, zn) + All(len, zn)
  {
    if zn > hi { BeyondLongest(len, lo, hi, zn); }
  }

  lemma TooShort(len: seq<int>, lo: int, hi: int, all: seq<bit>, rest: seq<bit>, zn: nat, zvec: nat)
    requires Lengths(len, lo, hi) && Scanned(len, lo, all, rest, zn, zvec) && |rest| == 0
    requires zvec >= First(len, zn) + All(len, zn)
    ensures forall s :: HasCode(len, s) ==> !(CodeBits(len, s) <= all)
  {
    forall s | HasCode(len, s) ensures !(CodeBits(len, s) <= all) {
      if len[s] == zn { NotThisLength(len, lo, hi, all, rest, zn, zvec, s); }
    }
  }
}
