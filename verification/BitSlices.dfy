/** The bits of a number, lowest first, cut out by division and remainder. */
module BitSlices {
  import opened Bytes

  /** The n bits of x from bit c on. */
  function Slice(x: nat, c: nat, n: nat): (s: nat)
    ensures s < Pow2(n)
  {
    (x / Pow2(c)) % Pow2(n)
  }

  lemma {:induction false} PowersMultiply(a: nat, b: nat)
    ensures Pow2(a + b) == Pow2(a) * Pow2(b)
  {
    if a > 0 {
      PowersMultiply(a - 1, b);
      Associates(2, Pow2(a - 1), Pow2(b));
    }
  }

  lemma Associates(x: int, y: int, z: int)
    ensures x * (y * z) == (x * y) * z
  {
  }

  lemma Distributes(x: int, y: int, z: int)
    ensures x * (y + z) == x * y + x * z
  {
  }

  /** Quotient and remainder are determined. */
  lemma QuotientIs(x: nat, d: nat, q: int, r: int)
    requires 0 <= r < d && x == d * q + r
    ensures x / d == q && x % d == r
  {
    var a := x / d;
    assert x == d * a + x % d;
    Distributes(d, a, -q);
    assert d * (a - q) == r - x % d;
    if a > q {
      Grows(d, a - q, 1);
    } else if a < q {
      Grows(d, -1, a - q);
    }
  }

  lemma Grows(d: nat, x: int, y: int)
    requires x >= y
    ensures d * x >= d * y
  {
  }

  lemma DivideTwice(x: nat, p: nat, q: nat)
    requires p > 0 && q > 0
    ensures p * q > 0 && x / (p * q) == (x / p) / q
    ensures x % (p * q) == x % p + p * ((x / p) % q)
  {
    var a := x / p;
    var b, r, s := a / q, x % p, a % q;
    assert x == p * a + r && a == q * b + s;
    Regroup(p, q, b, s);
    Below(p, q, s, r);
    Product(p, q);
    QuotientIs(x, p * q, b, p * s + r);
  }

  lemma Regroup(p: int, q: int, b: int, s: int)
    ensures p * (q * b + s) == (p * q) * b + p * s
  {
    Distributes(p, q * b, s);
    Associates(p, q, b);
  }

  lemma Below(p: nat, q: nat, s: nat, r: nat)
    requires s < q && r < p
    ensures 0 <= p * s + r < p * q
  {
    Grows(p, q - 1, s);
    Distributes(p, q, -1);
    Grows(p, s, 0);
  }

  lemma Product(p: nat, q: nat)
    requires p > 0 && q > 0
    ensures p * q > 0
  {
  }

  /** A slice in two parts. */
  lemma SliceJoins(x: nat, c: nat, n: nat, m: nat)
    ensures Slice(x, c, n + m) == Slice(x, c, n) + Pow2(n) * Slice(x, c + n, m)
  {
    hide Pow2;
    PowersMultiply(n, m);
    PowersMultiply(c, n);
    DivideTwice(x, Pow2(c), Pow2(n));
    DivideTwice(x / Pow2(c), Pow2(n), Pow2(m));
  }

  /** The low bits, and what is left when they have been shifted out. */
  lemma SliceSplits(x: nat, c: nat, n: nat, m: nat)
    ensures Slice(x, c, n + m) % Pow2(n) == Slice(x, c, n)
    ensures Slice(x, c, n + m) / Pow2(n) == Slice(x, c + n, m)
  {
    hide Pow2, Slice;
    SliceJoins(x, c, n, m);
    QuotientIs(Slice(x, c, n + m), Pow2(n), Slice(x, c + n, m), Slice(x, c, n));
  }
}
