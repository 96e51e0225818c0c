/** Numbers as bit strings, most significant bit first. */
module BitStrings {
  import opened Bytes

  type bit = x: int | 0 <= x < 2

  /** The lowest n bits of v. */
  ghost function Bits(v: nat, n: nat): (r: seq<bit>)
    ensures |r| == n
  {
    if n == 0 then [] else Bits(v / 2, n - 1) + [v % 2]
  }

  ghost function Value(s: seq<bit>): (r: nat)
    ensures r < Pow2(|s|)
  {
    if |s| == 0 then 0 else 2 * Value(s[..|s| - 1]) + s[|s| - 1]
  }

  lemma {:induction false} ValueOfBits(v: nat, n: nat)
    requires v < Pow2(n)
    ensures Value(Bits(v, n)) == v
    decreases n
  {
    if n > 0 {
      ValueOfBits(v / 2, n - 1);
      assert Bits(v, n)[..n - 1] == Bits(v / 2, n - 1);
    }
  }

  /** Different numbers have different bits. */
  lemma BitsInjective(v: nat, w: nat, n: nat)
    requires v < Pow2(n) && w < Pow2(n) && Bits(v, n) == Bits(w, n)
    ensures v == w
  {
    ValueOfBits(v, n);
    ValueOfBits(w, n);
  }

  function Shl(v: nat, k: nat): (r: nat)
  {
    if k == 0 then v else 2 * Shl(v, k - 1)
  }

  function Shr(v: nat, k: nat): (r: nat)
    decreases k
  {
    if k == 0 then v else Shr(v / 2, k - 1)
  }

  function Or(v: nat, w: nat): (r: nat)
    decreases v + w
  {
    if v == 0 && w == 0 then 0 else 2 * Or(v / 2, w / 2) + (if v % 2 == 1 || w % 2 == 1 then 1 else 0)
  }

  ghost function Zeros(n: nat): (r: seq<bit>)
    ensures |r| == n
  {
    if n == 0 then [] else Zeros(n - 1) + [0]
  }

  lemma {:induction false} BitsOfZero(n: nat)
    ensures Bits(0, n) == Zeros(n)
  {
    if n > 0 { BitsOfZero(n - 1); }
  }

  /** The upper and the lower part of a number. */
  lemma {:induction false} BitsSplit(v: nat, m: nat, k: nat)
    ensures Bits(v, m + k) == Bits(Shr(v, k), m) + Bits(v, k)
    decreases k
  {
    if k == 0 {
      assert Bits(v, m) + [] == Bits(v, m);
    } else {
      BitsSplit(v / 2, m, k - 1);
      assert Bits(Shr(v, k), m) + (Bits(v / 2, k - 1) + [v % 2]) == Bits(Shr(v, k), m) + Bits(v / 2, k - 1) + [v % 2];
    }
  }

  lemma {:induction false} BitsOfShl(v: nat, n: nat, k: nat)
    ensures Bits(Shl(v, k), n + k) == Bits(v, n) + Zeros(k)
    decreases k
  {
    if k == 0 {
      assert Bits(v, n) + [] == Bits(v, n);
    } else {
      BitsOfShl(v, n, k - 1);
      assert Bits(v, n) + (Zeros(k - 1) + [0]) == Bits(v, n) + Zeros(k - 1) + [0];
    }
  }

  lemma {:induction false} ShlBound(v: nat, n: nat, k: nat)
    requires v < Pow2(n)
    ensures Shl(v, k) < Pow2(n + k)
    decreases k
  {
    if k > 0 { ShlBound(v, n, k - 1); }
  }

  /** Only the lowest n bits of v matter. */
  lemma {:induction false} BitsOfRemainder(v: nat, n: nat)
    ensures Bits(v % Pow2(n), n) == Bits(v, n)
    decreases n
  {
    if n > 0 {
      HalfOfRemainder(v, Pow2(n - 1));
      BitsOfRemainder(v / 2, n - 1);
    }
  }

  lemma HalfOfRemainder(v: nat, p: nat)
    requires p > 0
    ensures (v % (2 * p)) / 2 == (v / 2) % p && (v % (2 * p)) % 2 == v % 2
  {
    var q, r := (v / 2) / p, (v / 2) % p;
    assert v / 2 == p * q + r;
    assert v == (2 * p) * q + (2 * r + v % 2);
    RemainderIs(v, 2 * p, q, 2 * r + v % 2);
  }

  lemma RemainderIs(v: nat, d: nat, q: nat, r: nat)
    requires d > 0 && v == d * q + r && r < d
    ensures v % d == r
  {
    MultipleBeyond(d, v / d - q);
    assert d * (v / d - q) == d * (v / d) - d * q;
  }

  lemma MultipleBeyond(d: int, k: int)
    requires d > 0
    ensures k >= 1 ==> d * k >= d
    ensures k <= -1 ==> d * k <= -d
  {
    if k >= 1 { assert d * k == d + d * (k - 1); }
    if k <= -1 { assert d * k == -d + d * (k + 1); }
  }

  lemma {:induction false} OrZero(v: nat)
    ensures Or(v, 0) == v
  {
    if v > 0 { OrZero(v / 2); }
  }

  /** OR puts bits where there were zeros. */
  lemma {:induction false} BitsOfOr(w: nat, x: nat, p: seq<bit>, m: nat)
    requires Bits(w, |p| + m) == p + Zeros(m) && x < Pow2(m)
    ensures Bits(Or(w, x), |p| + m) == p + Bits(x, m)
    decreases m
  {
    if m == 0 {
      OrZero(w);
      assert p + [] == p;
    } else {
      var n := |p| + m;
      assert p + Zeros(m) == (p + Zeros(m - 1)) + [0];
      assert Bits(w, n)[..n - 1] == Bits(w / 2, n - 1) && Bits(w, n)[n - 1] == w % 2;
      BitsOfOr(w / 2, x / 2, p, m - 1);
      assert Or(w, x) / 2 == Or(w / 2, x / 2) && Or(w, x) % 2 == x % 2;
      assert p + (Bits(x / 2, m - 1) + [x % 2]) == p + Bits(x / 2, m - 1) + [x % 2];
    }
  }

  /** The bits of a sequence of bytes. */
  ghost function BitsOf(s: seq<byte>): (r: seq<bit>)
    ensures |r| == 8 * |s|
  {
    if |s| == 0 then [] else BitsOf(s[..|s| - 1]) + Bits(s[|s| - 1], 8)
  }

  lemma {:induction false} BitsOfConcat(s: seq<byte>, t: seq<byte>)
    ensures BitsOf(s + t) == BitsOf(s) + BitsOf(t)
    decreases |t|
  {
    if |t| == 0 {
      assert s + t == s && BitsOf(s) + [] == BitsOf(s);
    } else {
      var t', last := t[..|t| - 1], Bits(t[|t| - 1], 8);
      BitsOfConcat(s, t');
      assert (s + t)[..|s + t| - 1] == s + t';
      assert BitsOf(s) + (BitsOf(t') + last) == BitsOf(s) + BitsOf(t') + last;
    }
  }
}
