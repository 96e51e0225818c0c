/** Rearranging a stretch of a sequence in place. */
module Rearranging {
  import opened Permutations

  /** b is a with the elements at lo..hi (inclusive) in another order. */
  ghost predicate Rearranged(a: seq<int>, b: seq<int>, lo: int, hi: int)
    requires 0 <= lo <= hi + 1 <= |a|
  {
    && |a| == |b|
    && a[..lo] == b[..lo] && a[hi + 1..] == b[hi + 1..]
    && multiset(a[lo..hi + 1]) == multiset(b[lo..hi + 1])
  }

  lemma RearrangedOutside(a: seq<int>, b: seq<int>, lo: int, hi: int, k: int)
    requires 0 <= lo <= hi + 1 <= |a| && Rearranged(a, b, lo, hi)
    requires 0 <= k < lo || hi < k < |a|
    ensures a[k] == b[k]
  {
    if k < lo {
      assert a[k] == a[..lo][k] == b[..lo][k] == b[k];
    } else {
      assert a[k] == a[hi + 1..][k - hi - 1] == b[hi + 1..][k - hi - 1] == b[k];
    }
  }

  /** Every element of the stretch was somewhere in the stretch before. */
  lemma RearrangedInside(a: seq<int>, b: seq<int>, lo: int, hi: int, k: int) returns (j: int)
    requires 0 <= lo <= hi + 1 <= |a| && Rearranged(a, b, lo, hi)
    requires lo <= k <= hi
    ensures lo <= j <= hi && a[j] == b[k]
  {
    assert b[lo..hi + 1][k - lo] == b[k];
    assert b[k] in multiset(b[lo..hi + 1]);
    assert b[k] in a[lo..hi + 1];
    var i :| 0 <= i < |a[lo..hi + 1]| && a[lo..hi + 1][i] == b[k];
    j := lo + i;
  }

  lemma RearrangedWider(a: seq<int>, b: seq<int>, lo: int, hi: int, lo': int, hi': int)
    requires 0 <= lo <= hi + 1 <= |a| && Rearranged(a, b, lo, hi)
    requires 0 <= lo' <= lo && hi <= hi' < |a|
    ensures Rearranged(a, b, lo', hi')
  {
    assert a[..lo'] == a[..lo][..lo'] == b[..lo][..lo'] == b[..lo'];
    assert a[hi' + 1..] == a[hi + 1..][hi' - hi..] == b[hi + 1..][hi' - hi..] == b[hi' + 1..];
    var front, back := a[..lo][lo'..], a[hi + 1..][..hi' - hi];
    assert a[lo'..hi' + 1] == front + a[lo..hi + 1] + back;
    assert b[lo'..hi' + 1] == front + b[lo..hi + 1] + back;
  }

  lemma RearrangedTwice(a: seq<int>, b: seq<int>, c: seq<int>, lo: int, hi: int)
    requires 0 <= lo <= hi + 1 <= |a| && Rearranged(a, b, lo, hi) && Rearranged(b, c, lo, hi)
    ensures Rearranged(a, c, lo, hi)
  {
  }

  ghost function Swapped(a: seq<int>, i: int, j: int): (r: seq<int>)
    requires 0 <= i < |a| && 0 <= j < |a|
    ensures |r| == |a|
  {
    a[i := a[j]][j := a[i]]
  }

  lemma SwapRearranges(a: seq<int>, i: int, j: int, lo: int, hi: int)
    requires 0 <= lo <= i <= hi < |a| && lo <= j <= hi
    ensures Rearranged(a, Swapped(a, i, j), lo, hi)
  {
    var b := Swapped(a, i, j);
    assert a[..lo] == b[..lo] && a[hi + 1..] == b[hi + 1..];
    var s, t := a[lo..hi + 1], b[lo..hi + 1];
    assert t == s[i - lo := s[j - lo]][j - lo := s[i - lo]];
  }

  /** A rearranged permutation is a permutation. */
  lemma RearrangedPermutation(a: seq<int>, b: seq<int>, lo: int, hi: int)
    requires 0 <= lo <= hi + 1 <= |a| && Rearranged(a, b, lo, hi)
    requires Permutation(a)
    ensures Permutation(b)
  {
    RearrangedWider(a, b, lo, hi, 0, |a| - 1);
    assert a[0..|a|] == a && b[0..|a|] == b;
    forall k | 0 <= k < |b| ensures 0 <= b[k] < |b| {
      var j := RearrangedInside(a, b, 0, |a| - 1, k);
    }
    forall i, j | 0 <= i < j < |b| ensures b[i] != b[j] {
      OnceEach(a, b[i]);
      if b[i] == b[j] { TwiceThere(b, i, j); }
    }
  }

  lemma {:induction false} OnceEach(a: seq<int>, x: int)
    requires forall i, j :: 0 <= i < j < |a| ==> a[i] != a[j]
    ensures multiset(a)[x] <= 1
    decreases |a|
  {
    if |a| > 0 {
      var a' := a[..|a| - 1];
      assert a == a' + [a[|a| - 1]];
      OnceEach(a', x);
      if a[|a| - 1] == x {
        assert x !in a';
        assert multiset(a')[x] == 0;
      }
    }
  }

  lemma TwiceThere(b: seq<int>, i: int, j: int)
    requires 0 <= i < j < |b| && b[i] == b[j]
    ensures multiset(b)[b[i]] >= 2
  {
    assert b == b[..j] + [b[j]] + b[j + 1..];
    assert b[i] == b[..j][i];
    assert b[i] in multiset(b[..j]);
  }

  method Store(a: array<int>, i: int, v: int)
    requires 0 <= i < a.Length
    modifies a
    ensures a[..] == old(a[..])[i := v]
  {
    a[i] := v;
  }

  /** The stretch while the element tmp, taken out of i..hi, has moved to the hole at h. */
  ghost predicate HoleAt(a: seq<int>, now: seq<int>, i: int, hi: int, tmp: int, h: int)
    requires 0 <= i <= hi < |a|
  {
    && |now| == |a| && i <= h <= hi
    && Rearranged(a, now[h := tmp], i, hi)
  }

  lemma HoleStarts(a: seq<int>, i: int, hi: int, h: int)
    requires 0 <= i <= h <= hi < |a|
    ensures HoleAt(a, a, i, hi, a[h], h)
  {
    assert a[h := a[h]] == a;
  }

  lemma HoleMoves(a: seq<int>, now: seq<int>, i: int, hi: int, tmp: int, h: int, h': int)
    requires 0 <= i <= hi < |a| && HoleAt(a, now, i, hi, tmp, h) && i <= h' <= hi && h' != h
    ensures HoleAt(a, now[h := now[h']], i, hi, tmp, h')
  {
    var next := now[h := now[h']];
    var filled := now[h := tmp];
    assert next[h' := tmp] == Swapped(filled, h, h');
    SwapRearranges(filled, h, h', i, hi);
    RearrangedTwice(a, filled, next[h' := tmp], i, hi);
  }

  method MoveHole(fmap: array<int>, h: int, h': int, ghost a: seq<int>, ghost i: int, ghost hi: int, ghost tmp: int)
    requires 0 <= i <= hi < fmap.Length == |a| && HoleAt(a, fmap[..], i, hi, tmp, h) && i <= h' <= hi && h' != h
    modifies fmap
    ensures HoleAt(a, fmap[..], i, hi, tmp, h')
    ensures fmap[..] == old(fmap[..])[h := old(fmap[h'])]
  {
    hide Rearranged;
    HoleMoves(a, fmap[..], i, hi, tmp, h, h');
    Store(fmap, h, fmap[h']);
  }
}
