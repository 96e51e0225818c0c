/** Permutations of 0..n-1 held in a sequence, and the counting facts the block sorter and the
    inverse transform rest on. */
module Permutations {

  /** s lists distinct naturals below n. */
  ghost predicate DistinctBelow(s: seq<int>, n: int) {
    && (forall i :: 0 <= i < |s| ==> 0 <= s[i] < n)
    && (forall i, j :: 0 <= i < j < |s| ==> s[i] != s[j])
  }

  ghost predicate Permutation(p: seq<int>) {
    DistinctBelow(p, |p|)
  }

  /** Pigeonhole: n distinct naturals below n are all there can be. */
  lemma {:induction false} Pigeonhole(s: seq<int>, n: nat)
    requires DistinctBelow(s, n)
    ensures |s| <= n
    decreases n
  {
    if |s| > 0 {
      assert 0 <= s[0] < n;
      if i :| 0 <= i < |s| && s[i] == n - 1 {
        Pigeonhole(s[..i] + s[i + 1..], n - 1);
      } else {
        Pigeonhole(s, n - 1);
      }
    }
  }

  /** An injection of 0..n-1 into itself is onto. */
  lemma PermutationIsOnto(p: seq<int>, v: int)
    requires Permutation(p)
    requires 0 <= v < |p|
    ensures exists i :: 0 <= i < |p| && p[i] == v
  {
    if forall i :: 0 <= i < |p| ==> p[i] != v {
      var n := |p|;
      // Rename n-1 to the missing value v: n distinct values would fit below n-1.
      var q := seq(n, k requires 0 <= k < n => if p[k] == n - 1 then v else p[k]);
      Pigeonhole(q, n - 1);
    }
  }

  /** Where the permutation p takes the value v. */
  ghost function PositionOf(p: seq<int>, v: int): (i: int)
    requires Permutation(p)
    requires 0 <= v < |p|
    ensures 0 <= i < |p| && p[i] == v
  {
    PermutationIsOnto(p, v);
    var i :| 0 <= i < |p| && p[i] == v;
    i
  }

  /** The inverse permutation. */
  ghost function Inverse(p: seq<int>): (q: seq<int>)
    requires Permutation(p)
    ensures |q| == |p|
    ensures forall v :: 0 <= v < |p| ==> 0 <= q[v] < |p| && p[q[v]] == v
    ensures forall i :: 0 <= i < |p| ==> q[p[i]] == i
    ensures Permutation(q)
  {
    seq(|p|, v requires 0 <= v < |p| => PositionOf(p, v))
  }

  /** Two sequences of length n that are rearrangements of one another and both nondecreasing
      under a total preorder agree, position by position, up to that preorder. */
  lemma SortedRearrangementsAgree<T(!new)>(a: seq<T>, b: seq<T>, sigma: seq<int>, le: (T, T) -> bool, k: int)
    requires |a| == |b| == |sigma|
    requires Permutation(sigma)
    requires forall i :: 0 <= i < |a| ==> b[i] == a[sigma[i]]
    requires forall x, y :: le(x, y) || le(y, x)
    requires forall x, y, z :: le(x, y) && le(y, z) ==> le(x, z)
    requires forall i, j :: 0 <= i <= j < |a| ==> le(a[i], a[j])
    requires forall i, j :: 0 <= i <= j < |b| ==> le(b[i], b[j])
    requires 0 <= k < |a|
    ensures le(a[k], b[k]) && le(b[k], a[k])
  {
    if !le(b[k], a[k]) {
      // b[k..] lies strictly above a[..k+1], so sigma sends n-k positions above k.
      forall i | k <= i < |a| ensures sigma[i] > k {
        assert le(b[k], b[i]);
        assert b[i] == a[sigma[i]];
      }
      var s := seq(|a| - k, i requires 0 <= i < |a| - k => sigma[k + i] - k - 1);
      Pigeonhole(s, |a| - k - 1);
      assert false;
    } else if !le(a[k], b[k]) {
      // b[..k+1] lies strictly below a[k..], so sigma sends k+1 positions below k.
      forall i | 0 <= i <= k ensures sigma[i] < k {
        assert le(b[i], b[k]);
        assert b[i] == a[sigma[i]];
      }
      Pigeonhole(sigma[..k + 1], k);
      assert false;
    }
  }
}
