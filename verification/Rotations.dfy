/** Cyclic rotations of a block and their lexicographic order: what block sorting is about. */
module Rotations {
  import opened Bytes
  import opened Permutations

  /** The cyclic successor and predecessor of position i in a block of n bytes. */
  function Next(n: int, i: int): (r: int)
    requires 0 <= i < n
    ensures 0 <= r < n
  {
    if i + 1 == n then 0 else i + 1
  }

  function Prev(n: int, i: int): (r: int)
    requires 0 <= i < n
    ensures 0 <= r < n && Next(n, r) == i
  {
    if i == 0 then n - 1 else i - 1
  }

  /** i moved forward h places around a block of n bytes. */
  function Advance(n: int, i: int, h: int): (r: int)
    requires 0 <= i < n && 0 <= h <= n
    ensures 0 <= r < n
  {
    if i + h < n then i + h else i + h - n
  }

  /** Strict lexicographic order. */
  ghost predicate LexLt(s: seq<byte>, t: seq<byte>) {
    |t| > 0 && (|s| == 0 || s[0] < t[0] || (s[0] == t[0] && LexLt(s[1..], t[1..])))
  }

  ghost predicate LexLe(s: seq<byte>, t: seq<byte>) {
    s == t || LexLt(s, t)
  }

  lemma {:induction false} LexTotal(s: seq<byte>, t: seq<byte>)
    ensures LexLt(s, t) || s == t || LexLt(t, s)
    ensures !(LexLt(s, t) && LexLt(t, s))
    ensures !LexLt(s, s)
  {
    if |s| > 0 {
      LexTotal(s[1..], s[1..]);
      if |t| > 0 {
        LexTotal(s[1..], t[1..]);
        if s[0] == t[0] && s[1..] == t[1..] { assert s == [s[0]] + s[1..] == t; }
      }
    }
  }

  lemma {:induction false} LexTransitive(s: seq<byte>, t: seq<byte>, u: seq<byte>)
    requires LexLt(s, t) && LexLt(t, u)
    ensures LexLt(s, u)
  {
    if |s| > 0 && s[0] == t[0] == u[0] { LexTransitive(s[1..], t[1..], u[1..]); }
  }

  /** Lexicographic order on concatenations is decided by the first part that differs. */
  lemma {:induction false} LexConcat(s: seq<byte>, s': seq<byte>, t: seq<byte>, t': seq<byte>)
    requires |s| == |t|
    ensures LexLt(s + s', t + t') <==> LexLt(s, t) || (s == t && LexLt(s', t'))
    ensures s + s' == t + t' <==> s == t && s' == t'
  {
    assert s + s' == t + t' ==> s == t && s' == t' by {
      if s + s' == t + t' {
        assert s == (s + s')[..|s|] == (t + t')[..|s|] == t;
        assert s' == (s + s')[|s|..] == (t + t')[|s|..] == t';
      }
    }
    if |s| > 0 {
      assert (s + s')[1..] == s[1..] + s' && (t + t')[1..] == t[1..] + t';
      LexConcat(s[1..], s', t[1..], t');
      LexTotal(s, t);
      assert s == [s[0]] + s[1..] && t == [t[0]] + t[1..];
    } else {
      assert s + s' == s' && t + t' == t';
    }
  }

  /** The k bytes met when reading the block cyclically from position i. */
  ghost function Cyclic(b: seq<byte>, i: int, k: nat): (r: seq<byte>)
    requires 0 <= i < |b|
    ensures |r| == k
    decreases k
  {
    if k == 0 then [] else [b[i]] + Cyclic(b, Next(|b|, i), k - 1)
  }

  /** The rotation of b that starts at position i. */
  ghost function Rotation(b: seq<byte>, i: int): (r: seq<byte>)
    requires 0 <= i < |b|
    ensures |r| == |b|
  {
    b[i..] + b[..i]
  }

  lemma {:induction false} CyclicSplit(b: seq<byte>, i: int, h: nat, k: nat)
    requires 0 <= i < |b| && h <= |b|
    ensures Cyclic(b, i, h + k) == Cyclic(b, i, h) + Cyclic(b, Advance(|b|, i, h), k)
    decreases h
  {
    if h == 0 {
      assert Cyclic(b, i, 0) + Cyclic(b, i, k) == Cyclic(b, i, k);
    } else {
      var j := Next(|b|, i);
      CyclicSplit(b, j, h - 1, k);
      assert Advance(|b|, j, h - 1) == Advance(|b|, i, h);
      assert [b[i]] + (Cyclic(b, j, h - 1) + Cyclic(b, Advance(|b|, i, h), k))
          == [b[i]] + Cyclic(b, j, h - 1) + Cyclic(b, Advance(|b|, i, h), k);
    }
  }

  lemma {:induction false} CyclicSlice(b: seq<byte>, i: int, k: nat)
    requires 0 <= i < |b| && i + k <= |b|
    ensures Cyclic(b, i, k) == b[i..i + k]
    decreases k
  {
    if k > 0 {
      if i + 1 < |b| {
        CyclicSlice(b, i + 1, k - 1);
      } else {
        assert k == 1;
      }
      assert b[i..i + k] == [b[i]] + b[i + 1..i + k];
    }
  }

  /** One full turn read cyclically is the rotation. */
  lemma RotationIsCyclic(b: seq<byte>, i: int)
    requires 0 <= i < |b|
    ensures Rotation(b, i) == Cyclic(b, i, |b|)
  {
    var h := |b| - i;
    CyclicSplit(b, i, h, i);
    CyclicSlice(b, i, h);
    CyclicSlice(b, 0, i);
    assert b[i..i + h] == b[i..];
  }

  /** Moving the first byte of a rotation to its end gives the next rotation. */
  lemma RotationNext(b: seq<byte>, i: int)
    requires 0 <= i < |b|
    ensures Rotation(b, i)[0] == b[i]
    ensures Rotation(b, Next(|b|, i)) == Rotation(b, i)[1..] + [b[i]]
    ensures Rotation(b, Next(|b|, i))[|b| - 1] == b[i]
  {
    var j := Next(|b|, i);
    if j == 0 {
      assert Rotation(b, j) == b;
      assert b == b[..i] + [b[i]];
      assert b[i..] == [b[i]];
    } else {
      assert b[i..] == [b[i]] + b[j..];
      assert b[..j] == b[..i] + [b[i]];
    }
  }

  /** Equal rotations have equal successors. */
  lemma EqualRotationsNext(b: seq<byte>, i: int, j: int)
    requires 0 <= i < |b| && 0 <= j < |b|
    requires Rotation(b, i) == Rotation(b, j)
    ensures b[i] == b[j]
    ensures Rotation(b, Next(|b|, i)) == Rotation(b, Next(|b|, j))
  {
    RotationNext(b, i);
    RotationNext(b, j);
  }

  /** Rotations that start with the same byte are ordered as their successors are. */
  lemma RotationOrderByNext(b: seq<byte>, i: int, j: int)
    requires 0 <= i < |b| && 0 <= j < |b|
    ensures b[i] < b[j] ==> LexLt(Rotation(b, i), Rotation(b, j))
    ensures b[i] == b[j] ==>
      (LexLt(Rotation(b, i), Rotation(b, j)) <==> LexLt(Rotation(b, Next(|b|, i)), Rotation(b, Next(|b|, j))))
    ensures b[i] == b[j] && Rotation(b, Next(|b|, i)) == Rotation(b, Next(|b|, j))
      ==> Rotation(b, i) == Rotation(b, j)
  {
    RotationNext(b, i);
    RotationNext(b, j);
    var x, y := Rotation(b, i)[1..], Rotation(b, j)[1..];
    assert Rotation(b, i) == [b[i]] + x && Rotation(b, j) == [b[j]] + y;
    LexConcat([b[i]], x, [b[j]], y);
    LexConcat(x, [b[i]], y, [b[j]]);
    LexTotal([b[i]], [b[j]]);
  }

  /** order lists every position once, its rotations in nondecreasing order. */
  ghost predicate SortedOrder(b: seq<byte>, order: seq<int>) {
    && |order| == |b|
    && Permutation(order)
    && forall p, q :: 0 <= p <= q < |b| ==> LexLe(Rotation(b, order[p]), Rotation(b, order[q]))
  }

  lemma IsPermutation(b: seq<byte>, order: seq<int>)
    requires SortedOrder(b, order)
    ensures |order| == |b| && Permutation(order)
  {
  }

  /** The last column of the sorted rotation matrix. */
  ghost function LastColumn(b: seq<byte>, order: seq<int>): (r: seq<byte>)
    requires |order| == |b| && Permutation(order)
    ensures |r| == |b|
  {
    seq(|b|, i requires 0 <= i < |b| => b[Prev(|b|, order[i])])
  }
}
