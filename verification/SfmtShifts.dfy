/** SFMT-common.h: the shifts of a 128-bit word as multiplication and division of the number it is. */
module SfmtShifts {
  import opened BitSlices
  import opened Bytes
  import opened SfmtWords

  function Byte(u: bv32, j: nat): bv8
    requires j < 4
  {
    if j == 0 then (u & 0xff) as bv8
    else if j == 1 then ((u >> 8) & 0xff) as bv8
    else if j == 2 then ((u >> 16) & 0xff) as bv8
    else (u >> 24) as bv8
  }

  /** The 16 bytes, the lowest first. */
  function Digits(x: W128): (s: seq<bv8>)
    ensures |s| == 16
  {
    [Byte(x.u0, 0), Byte(x.u0, 1), Byte(x.u0, 2), Byte(x.u0, 3), Byte(x.u1, 0), Byte(x.u1, 1), Byte(x.u1, 2),
     Byte(x.u1, 3), Byte(x.u2, 0), Byte(x.u2, 1), Byte(x.u2, 2), Byte(x.u2, 3), Byte(x.u3, 0), Byte(x.u3, 1),
     Byte(x.u3, 2), Byte(x.u3, 3)]
  }

  ghost function WordBytes(u: bv32): (s: seq<bv8>)
    ensures |s| == 4
  {
    [Byte(u, 0), Byte(u, 1), Byte(u, 2), Byte(u, 3)]
  }

  lemma FourFrom(d: seq<bv8>, from: nat, e: seq<bv8>)
    requires from + 4 <= |d| && |e| == 4
    requires d[from] == e[0] && d[from + 1] == e[1] && d[from + 2] == e[2] && d[from + 3] == e[3]
    ensures d[from..from + 4] == e
  {
  }

  /** Word k has the digits from 4 * k on. */
  lemma WordDigits(x: W128, k: nat)
    requires k < 4
    ensures Digits(x)[4 * k..4 * k + 4] == WordBytes(x.U(k))
  {
    hide Byte;
    if k == 0 {
      FourFrom(Digits(x), 0, WordBytes(x.u0));
    } else if k == 1 {
      FourFrom(Digits(x), 4, WordBytes(x.u1));
    } else if k == 2 {
      FourFrom(Digits(x), 8, WordBytes(x.u2));
    } else {
      FourFrom(Digits(x), 12, WordBytes(x.u3));
    }
  }

  /** The number with these digits to the base 256, the lowest first. */
  function NumberOf(s: seq<bv8>): nat {
    if s == [] then 0 else s[0] as nat + 256 * NumberOf(s[1..])
  }

  /** The 128-bit number that a word is. */
  function Value(x: W128): nat {
    NumberOf(Digits(x))
  }

  lemma {:induction false} NumberFits(s: seq<bv8>)
    ensures NumberOf(s) < Pow2(8 * |s|)
  {
    if s != [] {
      NumberFits(s[1..]);
      PowStep(|s| - 1);
    }
  }

  lemma {:induction false} NumberOfConcat(s: seq<bv8>, t: seq<bv8>)
    ensures NumberOf(s + t) == NumberOf(s) + Pow2(8 * |s|) * NumberOf(t)
  {
    hide Pow2;
    if s == [] {
      NoPower();
      assert s + t == t;
    } else {
      NumberOfConcat(s[1..], t);
      assert (s + t)[1..] == s[1..] + t;
      PowStep(|s| - 1);
      OneDigitMore(s[0] as nat, NumberOf(s[1..]), Pow2(8 * (|s| - 1)), NumberOf(t));
    }
  }

  lemma OneDigitMore(a: nat, n: nat, p: nat, m: nat)
    ensures a + 256 * (n + p * m) == (a + 256 * n) + (256 * p) * m
  {
    Distributes(256, n, p * m);
    Associates(256, p, m);
  }

  lemma {:induction false} SameNumber(s: seq<bv8>, t: seq<bv8>)
    requires |s| == |t| && NumberOf(s) == NumberOf(t)
    ensures s == t
  {
    if s != [] {
      SameDigits(s[0] as nat, NumberOf(s[1..]), t[0] as nat, NumberOf(t[1..]));
      SameNumber(s[1..], t[1..]);
      assert s == [s[0]] + s[1..] && t == [t[0]] + t[1..];
    }
  }

  lemma SameDigits(a: nat, n: nat, b: nat, m: nat)
    requires a < 256 && b < 256 && a + 256 * n == b + 256 * m
    ensures a == b && n == m
  {
  }

  /** A word is determined by its number. */
  lemma ValueDetermines(x: W128, y: W128)
    requires Value(x) == Value(y)
    ensures x == y
  {
    hide Byte, Digits, NumberOf;
    SameNumber(Digits(x), Digits(y));
    SameWords(x, y, 0);
    SameWords(x, y, 1);
    SameWords(x, y, 2);
    SameWords(x, y, 3);
  }

  lemma SameWords(x: W128, y: W128, k: nat)
    requires Digits(x) == Digits(y) && k < 4
    ensures x.U(k) == y.U(k)
  {
    hide Byte, Digits;
    WordDigits(x, k);
    WordDigits(y, k);
    var d, e := WordBytes(x.U(k)), WordBytes(y.U(k));
    assert d[0] == e[0] && d[1] == e[1] && d[2] == e[2] && d[3] == e[3];
    FourBytes(x.U(k), y.U(k));
  }

  lemma FourBytes(u: bv32, v: bv32)
    requires Byte(u, 0) == Byte(v, 0) && Byte(u, 1) == Byte(v, 1)
    requires Byte(u, 2) == Byte(v, 2) && Byte(u, 3) == Byte(v, 3)
    ensures u == v
  {
  }

  // One byte at a time

  /** u moved up by a byte, with the highest byte of v below. */
  function Raised(u: bv32, v: bv32): bv32 {
    (u << 8) | (v >> 24)
  }

  /** u moved down by a byte, with the lowest byte of v above. */
  function Lowered(u: bv32, v: bv32): bv32 {
    (u >> 8) | (v << 24)
  }

  function LeftOnce(x: W128): W128 {
    W128(Raised(x.u0, 0), Raised(x.u1, x.u0), Raised(x.u2, x.u1), Raised(x.u3, x.u2))
  }

  function RightOnce(x: W128): W128 {
    W128(Lowered(x.u0, x.u1), Lowered(x.u1, x.u2), Lowered(x.u2, x.u3), Lowered(x.u3, 0))
  }

  ghost function Lefts(x: W128, n: nat): W128 {
    if n == 0 then x else LeftOnce(Lefts(x, n - 1))
  }

  ghost function Rights(x: W128, n: nat): W128 {
    if n == 0 then x else RightOnce(Rights(x, n - 1))
  }

  lemma Left1(x: W128)
    ensures LShift128(x, 1) == LeftOnce(x)
  {
  }

  lemma Left2(x: W128)
    ensures LShift128(x, 2) == LeftOnce(LShift128(x, 1))
  {
  }

  lemma Left3(x: W128)
    ensures LShift128(x, 3) == LeftOnce(LShift128(x, 2))
  {
  }

  lemma Left4(x: W128)
    ensures LShift128(x, 4) == LeftOnce(LShift128(x, 3))
  {
  }

  lemma Left5(x: W128)
    ensures LShift128(x, 5) == LeftOnce(LShift128(x, 4))
  {
  }

  lemma Left6(x: W128)
    ensures LShift128(x, 6) == LeftOnce(LShift128(x, 5))
  {
  }

  lemma Left7(x: W128)
    ensures LShift128(x, 7) == LeftOnce(LShift128(x, 6))
  {
  }

  lemma Right1(x: W128)
    ensures RShift128(x, 1) == RightOnce(x)
  {
  }

  lemma Right2(x: W128)
    ensures RShift128(x, 2) == RightOnce(RShift128(x, 1))
  {
  }

  lemma Right3(x: W128)
    ensures RShift128(x, 3) == RightOnce(RShift128(x, 2))
  {
  }

  lemma Right4(x: W128)
    ensures RShift128(x, 4) == RightOnce(RShift128(x, 3))
  {
  }

  lemma Right5(x: W128)
    ensures RShift128(x, 5) == RightOnce(RShift128(x, 4))
  {
  }

  lemma Right6(x: W128)
    ensures RShift128(x, 6) == RightOnce(RShift128(x, 5))
  {
  }

  lemma Right7(x: W128)
    ensures RShift128(x, 7) == RightOnce(RShift128(x, 6))
  {
  }

  lemma {:induction false} LeftIsLefts(x: W128, s: nat)
    requires 0 < s < 8
    ensures LShift128(x, s as bv6) == Lefts(x, s)
    decreases s
  {
    hide LShift128, LeftOnce;
    if s > 1 { LeftIsLefts(x, s - 1); }
    if s == 1 {
      Left1(x);
    } else if s == 2 {
      Left2(x);
    } else if s == 3 {
      Left3(x);
    } else if s == 4 {
      Left4(x);
    } else if s == 5 {
      Left5(x);
    } else if s == 6 {
      Left6(x);
    } else {
      Left7(x);
    }
  }

  lemma {:induction false} RightIsRights(x: W128, s: nat)
    requires 0 < s < 8
    ensures RShift128(x, s as bv6) == Rights(x, s)
    decreases s
  {
    hide RShift128, RightOnce;
    if s > 1 { RightIsRights(x, s - 1); }
    if s == 1 {
      Right1(x);
    } else if s == 2 {
      Right2(x);
    } else if s == 3 {
      Right3(x);
    } else if s == 4 {
      Right4(x);
    } else if s == 5 {
      Right5(x);
    } else if s == 6 {
      Right6(x);
    } else {
      Right7(x);
    }
  }

  // The digits of a word moved by one byte

  lemma RaisedBytes(u: bv32, v: bv32)
    ensures Byte(Raised(u, v), 0) == Byte(v, 3) && Byte(Raised(u, v), 1) == Byte(u, 0)
    ensures Byte(Raised(u, v), 2) == Byte(u, 1) && Byte(Raised(u, v), 3) == Byte(u, 2)
  {
  }

  lemma LoweredBytes(u: bv32, v: bv32)
    ensures Byte(Lowered(u, v), 0) == Byte(u, 1) && Byte(Lowered(u, v), 1) == Byte(u, 2)
    ensures Byte(Lowered(u, v), 2) == Byte(u, 3) && Byte(Lowered(u, v), 3) == Byte(v, 0)
  {
  }

  lemma ZeroBytes()
    ensures Byte(0, 0) == 0 && Byte(0, 3) == 0
  {
  }

  lemma LeftOnceDigits(x: W128)
    ensures Digits(LeftOnce(x))[0] == 0 && Digits(LeftOnce(x))[1..] == Digits(x)[..15]
  {
    hide Byte, Raised;
    ZeroBytes();
    RaisedBytes(x.u0, 0);
    RaisedBytes(x.u1, x.u0);
    RaisedBytes(x.u2, x.u1);
    RaisedBytes(x.u3, x.u2);
  }

  lemma RightOnceDigits(x: W128)
    ensures Digits(RightOnce(x)) == Digits(x)[1..] + [0]
  {
    hide Byte, Lowered;
    ZeroBytes();
    LoweredBytes(x.u3, 0);
    LoweredBytes(x.u2, x.u3);
    LoweredBytes(x.u1, x.u2);
    LoweredBytes(x.u0, x.u1);
  }

  lemma ModTimes(a: nat, m: nat, k: nat)
    requires m > 0
    ensures (a % m) * k % m == a * k % m
  {
    var q, r := a / m, (a % m) * k;
    assert a == m * q + a % m;
    Distributes(k, m * q, a % m);
    Associates(m, q, k);
    assert a * k == m * (q * k) + r;
    Distributes(m, q * k, r / m);
    QuotientIs(a * k, m, q * k + r / m, r % m);
  }

  lemma NextProduct(v: nat, p: nat, m: nat)
    requires m > 0
    ensures (v * p % m) * 256 % m == v * (256 * p) % m
  {
    ModTimes(v * p, m, 256);
    Associates(v, p, 256);
  }

  lemma LeftOnceValue(x: W128)
    ensures Value(LeftOnce(x)) == Value(x) * 256 % Pow2(128)
  {
    hide Digits, LeftOnce, Pow2;
    LeftOnceDigits(x);
    var b := Digits(x);
    assert b == b[..15] + b[15..];
    NumberOfConcat(b[..15], b[15..]);
    NumberFits(b[..15]);
    PowStep(15);
    TopDrops(NumberOf(b[..15]), Pow2(120), NumberOf(b[15..]));
  }

  lemma NoPower()
    ensures Pow2(0) == 1
  {
  }

  lemma PowStep(n: nat)
    ensures Pow2(8 * (n + 1)) == 256 * Pow2(8 * n)
  {
    PowersMultiply(8, 8 * n);
    assert Pow2(8) == 256;
  }

  lemma TopDrops(a: nat, p: nat, top: nat)
    requires a < p
    ensures (a + p * top) * 256 % (256 * p) == 256 * a
  {
    Distributes(256, a, p * top);
    Associates(256, p, top);
    QuotientIs((a + p * top) * 256, 256 * p, top, 256 * a);
  }

  lemma RightOnceValue(x: W128)
    ensures Value(RightOnce(x)) == Value(x) / 256
  {
    hide Digits, RightOnce;
    RightOnceDigits(x);
    var b := Digits(x);
    var z: seq<bv8> := [0];
    NumberOfConcat(b[1..], z);
    assert NumberOf(z) == 0;
  }

  lemma {:induction false} LeftsValue(x: W128, n: nat)
    ensures Value(Lefts(x, n)) == Value(x) * Pow2(8 * n) % Pow2(128)
  {
    hide Value, LeftOnce, Pow2;
    if n == 0 {
      NoPower();
      ValueFits(x);
    } else {
      LeftsValue(x, n - 1);
      LeftOnceValue(Lefts(x, n - 1));
      PowStep(n - 1);
      NextProduct(Value(x), Pow2(8 * (n - 1)), Pow2(128));
    }
  }

  lemma ValueFits(x: W128)
    ensures Value(x) < Pow2(128)
  {
    NumberFits(Digits(x));
  }

  lemma RightStep(v: nat, p: nat, w: nat)
    requires p > 0 && w == v / p
    ensures w / 256 == v / (256 * p)
  {
    DivideTwice(v, p, 256);
  }

  lemma {:induction false} RightsValue(x: W128, n: nat)
    ensures Value(Rights(x, n)) == Value(x) / Pow2(8 * n)
  {
    hide Value, RightOnce, Pow2;
    if n == 0 {
      NoPower();
    } else {
      RightsValue(x, n - 1);
      RightOnceValue(Rights(x, n - 1));
      PowStep(n - 1);
      RightStep(Value(x), Pow2(8 * (n - 1)), Value(Rights(x, n - 1)));
    }
  }

  /** lshift128 multiplies by 2^(8 * s) modulo 2^128. */
  lemma LShiftValue(x: W128, s: nat)
    requires 0 < s < 8
    ensures Value(LShift128(x, s as bv6)) == Value(x) * Pow2(8 * s) % Pow2(128)
  {
    LeftIsLefts(x, s);
    LeftsValue(x, s);
  }

  /** rshift128 divides by 2^(8 * s). */
  lemma RShiftValue(x: W128, s: nat)
    requires 0 < s < 8
    ensures Value(RShift128(x, s as bv6)) == Value(x) / Pow2(8 * s)
  {
    RightIsRights(x, s);
    RightsValue(x, s);
  }
}
