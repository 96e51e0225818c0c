/** Prefix doubling: how the order of rotations on h characters and the ranks of the positions h
    further on give the order on 2h characters. */
module FallbackOrder {
  import opened Bytes
  import opened Permutations
  import opened Rotations

  /** Neighbours k-1 and k of fmap are in order on h characters, and the header bit of k tells
      whether they differ there. */
  ghost predicate StepOk(b: seq<byte>, f: seq<int>, hd: seq<bool>, h: nat, k: int)
    requires 0 < k < |f| && k < |hd|
    requires 0 <= f[k - 1] < |b| && 0 <= f[k] < |b|
  {
    var x, y := Cyclic(b, f[k - 1], h), Cyclic(b, f[k], h);
    LexLe(x, y) && (hd[k] <==> x != y)
  }

  /** Up to entry r the current pass has been there, beyond it has not. */
  ghost predicate StepAt(b: seq<byte>, f: seq<int>, hd: seq<bool>, h: nat, r: int, k: int)
    requires 0 < k < |f| && k < |hd|
    requires 0 <= f[k - 1] < |b| && 0 <= f[k] < |b|
  {
    StepOk(b, f, hd, if k <= r then h + h else h, k)
  }

  /** fmap is sorted on 2h characters up to r and on h characters beyond; the header bits mark
      exactly the first entries of the classes; sentinels follow the last entry. */
  ghost predicate Refined(b: seq<byte>, f: seq<int>, hd: seq<bool>, h: nat, r: int) {
    && 0 < |b| == |f| && Permutation(f)
    && |hd| == |b| + 2
    && hd[0] && hd[|b|] && !hd[|b| + 1]
    && forall k :: 0 < k < |f| ==> StepAt(b, f, hd, h, r, k)
  }

  /** Entries lo..hi all have their header bit set. */
  ghost predicate AllSet(hd: seq<bool>, lo: int, hi: int) {
    0 <= lo && hi < |hd| && forall i :: lo <= i <= hi ==> hd[i]
  }

  /** The header of the class that entry k belongs to. */
  ghost function Start(hd: seq<bool>, k: int): (r: int)
    requires 0 <= k && k < |hd| && hd[0]
    ensures 0 <= r <= k
    decreases k
  {
    if hd[k] then k else Start(hd, k - 1)
  }

  /** Entries are in the same class exactly when their h-prefixes agree, and classes come in
      order. */
  lemma {:induction false} ClassesInOrder(b: seq<byte>, f: seq<int>, hd: seq<bool>, h: nat, p: int, q: int)
    requires Refined(b, f, hd, h, -1) && 0 <= p <= q < |f|
    ensures p < |hd| && q < |hd| && 0 <= f[p] < |b| && 0 <= f[q] < |b|
    ensures Start(hd, p) <= Start(hd, q)
    ensures Start(hd, p) == Start(hd, q) <==> Cyclic(b, f[p], h) == Cyclic(b, f[q], h)
    ensures LexLe(Cyclic(b, f[p], h), Cyclic(b, f[q], h))
    ensures Start(hd, q) <= p <==> Start(hd, p) == Start(hd, q)
    decreases q
  {
    if p < q {
      ClassesInOrder(b, f, hd, h, p, q - 1);
      assert StepAt(b, f, hd, h, -1, q);
      var x, y, z := Cyclic(b, f[p], h), Cyclic(b, f[q - 1], h), Cyclic(b, f[q], h);
      LexTotal(x, y);
      LexTotal(y, z);
      LexTotal(x, z);
      if LexLt(x, y) && LexLt(y, z) { LexTransitive(x, y, z); }
    }
  }

  /** eclass ranks each position by the h characters that start h places further on. */
  ghost predicate Ranks(b: seq<byte>, e: seq<int>, h: nat) {
    && 0 < h <= |b| <= |e|
    && forall x, y :: 0 <= x < |b| && 0 <= y < |b| ==> RanksPair(b, e, h, x, y)
  }

  ghost predicate RanksPair(b: seq<byte>, e: seq<int>, h: nat, x: int, y: int)
    requires 0 < h <= |b| <= |e| && 0 <= x < |b| && 0 <= y < |b|
  {
    var s, t := Cyclic(b, Advance(|b|, x, h), h), Cyclic(b, Advance(|b|, y, h), h);
    (e[x] == e[y] <==> s == t) && (e[x] < e[y] ==> LexLt(s, t))
  }

  function Retreat(n: int, i: int, h: int): (r: int)
    requires 0 <= i < n && 0 <= h <= n
    ensures 0 <= r < n && Advance(n, r, h) == i
    ensures forall j :: 0 <= j < n && Advance(n, j, h) == i ==> j == r
  {
    if i - h < 0 then i - h + n else i - h
  }

  /** The classes written by the first loop of a pass are such ranks. */
  lemma ClassesAreRanks(b: seq<byte>, f: seq<int>, hd: seq<bool>, e: seq<int>, h: nat)
    requires Refined(b, f, hd, h, -1) && 0 < h <= |b| <= |e|
    requires forall i :: 0 <= i < |f| ==> 0 <= f[i] < |b| && i < |hd|
    requires forall i :: 0 <= i < |f| ==> e[Retreat(|b|, f[i], h)] == Start(hd, i)
    ensures Ranks(b, e, h)
  {
    forall x, y | 0 <= x < |b| && 0 <= y < |b| ensures RanksPair(b, e, h, x, y) {
      var i := PositionOf(f, Advance(|b|, x, h));
      var j := PositionOf(f, Advance(|b|, y, h));
      assert Retreat(|b|, f[i], h) == x && Retreat(|b|, f[j], h) == y;
      if i <= j { ClassesInOrder(b, f, hd, h, i, j); } else { ClassesInOrder(b, f, hd, h, j, i); }
      LexTotal(Cyclic(b, f[i], h), Cyclic(b, f[j], h));
    }
  }

  /** Two positions with equal h-prefixes compare on 2h characters as their ranks do. */
  lemma RankDecides(b: seq<byte>, e: seq<int>, h: nat, x: int, y: int)
    requires 0 < h <= |b| <= |e| && 0 <= x < |b| && 0 <= y < |b| && RanksPair(b, e, h, x, y)
    requires Cyclic(b, x, h) == Cyclic(b, y, h)
    ensures e[x] <= e[y] ==> LexLe(Cyclic(b, x, h + h), Cyclic(b, y, h + h))
    ensures e[x] == e[y] <==> Cyclic(b, x, h + h) == Cyclic(b, y, h + h)
  {
    CyclicSplit(b, x, h, h);
    CyclicSplit(b, y, h, h);
    var p := Cyclic(b, x, h);
    var s, t := Cyclic(b, Advance(|b|, x, h), h), Cyclic(b, Advance(|b|, y, h), h);
    LexConcat(p, s, p, t);
    LexTotal(p, p);
  }

  /** Positions that differ on h characters are ordered on 2h as on h. */
  lemma PrefixDecides(b: seq<byte>, h: nat, k: nat, x: int, y: int)
    requires 0 <= x < |b| && 0 <= y < |b| && h <= |b|
    requires LexLe(Cyclic(b, x, h), Cyclic(b, y, h)) && Cyclic(b, x, h) != Cyclic(b, y, h)
    ensures LexLt(Cyclic(b, x, h + k), Cyclic(b, y, h + k))
    ensures Cyclic(b, x, h + k) != Cyclic(b, y, h + k)
  {
    CyclicSplit(b, x, h, k);
    CyclicSplit(b, y, h, k);
    LexConcat(Cyclic(b, x, h), Cyclic(b, Advance(|b|, x, h), k), Cyclic(b, y, h), Cyclic(b, Advance(|b|, y, h), k));
  }
}
