/** adler32.c: the Adler-32 checksum with deferred modulo operations, the shift-only modulo macros,
    and combining the checksums of two pieces. */
module Adler32 {
  import opened Bytes

  /** The largest prime below 65536. */
  const BASE := 65521
  const NMAX := 5552

  /** The two component sums. */
  datatype Sums = Sums(a: nat, b: nat)

  ghost predicate Reduced(s: Sums) {
    s.a < BASE && s.b < BASE
  }

  /** The definition, one byte at a time (section 2.2 of RFC 1950). */
  ghost function Run(s: Sums, buf: seq<byte>): Sums {
    if |buf| == 0 then s
    else
      var r := Run(s, buf[..|buf| - 1]);
      var a := (r.a + buf[|buf| - 1]) % BASE;
      Sums(a, (r.b + a) % BASE)
  }

  /** The checksum of buf, continued from s. */
  ghost function Checksum(s: Sums, buf: seq<byte>): (r: Sums)
    ensures Reduced(r)
  {
    Sums(Run(s, buf).a % BASE, Run(s, buf).b % BASE)
  }

  function Pack(s: Sums): nat {
    s.a + s.b * 0x1_0000
  }

  function Unpack(adler: uint32): Sums {
    var v: int := adler;
    Sums(v % 0x1_0000, v / 0x1_0000)
  }

  /** The sums without any modulo operation. */
  ghost function Raw(s: Sums, buf: seq<byte>): Sums {
    if |buf| == 0 then s
    else
      var r := Raw(s, buf[..|buf| - 1]);
      var a := r.a + buf[|buf| - 1];
      Sums(a, r.b + a)
  }

  ghost predicate Congruent(x: int, y: int) {
    x % BASE == y % BASE
  }

  ghost predicate SameSums(s: Sums, t: Sums) {
    Congruent(s.a, t.a) && Congruent(s.b, t.b)
  }

  lemma Plus(x: int, y: int, u: int, v: int)
    requires Congruent(x, y) && Congruent(u, v)
    ensures Congruent(x + u, y + v) && Congruent(x - u, y - v) && Congruent(x, x % BASE)
  {
    var p, q, r, s := x / BASE, y / BASE, u / BASE, v / BASE;
    assert x + u - (y + v) == BASE * (p - q + (r - s)) && x - u - (y - v) == BASE * (p - q - (r - s));
    Multiple(y + v, p - q + (r - s));
    Multiple(y - v, p - q - (r - s));
  }

  lemma Multiple(x: int, k: int)
    ensures Congruent(x + BASE * k, x)
  {
    assert x + BASE * k == BASE * (x / BASE + k) + x % BASE;
  }

  /** One byte keeps the unreduced sums congruent to the reduced ones. */
  lemma StepCongruent(x: Sums, y: Sums, c: int)
    requires SameSums(x, y)
    ensures Congruent(x.a + c, (y.a + c) % BASE) && Congruent(x.b + (x.a + c), (y.b + (y.a + c) % BASE) % BASE)
  {
    hide Congruent;
    var a := (y.a + c) % BASE;
    Itself(c);
    Plus(x.a, y.a, c, c);
    Remainder(y.a + c);
    Same(x.a + c, y.a + c, a);
    Plus(x.b, y.b, x.a + c, a);
    Remainder(y.b + a);
    Same(x.b + (x.a + c), y.b + a, (y.b + a) % BASE);
  }

  lemma Remainder(x: int)
    ensures Congruent(x, x % BASE)
  {
  }

  /** The modulo operations may be left for later. */
  lemma {:induction false} RawIsRun(s: Sums, t: Sums, buf: seq<byte>)
    requires SameSums(s, t)
    ensures SameSums(Raw(s, buf), Run(t, buf))
    decreases |buf|
  {
    if |buf| > 0 {
      var k := |buf| - 1;
      RawIsRun(s, t, buf[..k]);
      StepCongruent(Raw(s, buf[..k]), Run(t, buf[..k]), buf[k]);
    }
  }

  lemma Itself(x: int)
    ensures Congruent(x, x)
  {
  }

  lemma Same(x: int, y: int, z: int)
    requires Congruent(x, y) && Congruent(y, z)
    ensures Congruent(x, z)
  {
  }

  lemma {:induction false} RunConcat(s: Sums, x: seq<byte>, y: seq<byte>)
    ensures Run(s, x + y) == Run(Run(s, x), y)
    decreases |y|
  {
    if |y| == 0 {
      assert x + y == x;
    } else {
      var k := |y| - 1;
      assert (x + y)[..|x + y| - 1] == x + y[..k];
      RunConcat(s, x, y[..k]);
    }
  }

  /** 255 n (n + 1) / 2 + (n + 1) times the first sum bounds what n bytes can add up to. */
  lemma {:induction false} RawBound(s: Sums, buf: seq<byte>)
    ensures s.a <= Raw(s, buf).a <= s.a + 255 * |buf|
    ensures 2 * Raw(s, buf).b <= 2 * s.b + 2 * (|buf| * s.a) + 255 * (|buf| * (|buf| + 1))
    decreases |buf|
  {
    if |buf| > 0 {
      var k := |buf| - 1;
      RawBound(s, buf[..k]);
      assert |buf| * s.a == k * s.a + s.a;
      assert |buf| * (|buf| + 1) == k * (k + 1) + 2 * |buf|;
    }
  }

  /** In a block of NMAX bytes nothing exceeds 32 bits, whatever 16-bit sums it starts with. */
  lemma NoOverflow(s: Sums, buf: seq<byte>)
    requires s.a < 0x1_0000 && s.b < 0x1_0000 && |buf| <= NMAX
    ensures Raw(s, buf).a < 0x1_0000_0000 && Raw(s, buf).b < 0x1_0000_0000
  {
    RawBound(s, buf);
    var n := |buf|;
    assert n * s.a <= NMAX * 65535 by { Monotone(n, NMAX, s.a, 65535); }
    assert n * (n + 1) <= NMAX * (NMAX + 1) by { Monotone(n, NMAX, n + 1, NMAX + 1); }
  }

  lemma Monotone(x: nat, y: nat, u: nat, v: nat)
    requires x <= y && u <= v
    ensures x * u <= y * v
  {
    assert x * u <= x * v;
    assert x * v <= y * v;
  }

  /** NMAX cannot be larger: 5553 bytes of 255 after sums of BASE - 1 pass 2^32 - 1. */
  lemma NmaxIsLargest()
    ensures 255 * NMAX * (NMAX + 1) / 2 + (NMAX + 1) * (BASE - 1) <= 0xffff_ffff
    ensures 255 * (NMAX + 1) * (NMAX + 2) / 2 + (NMAX + 2) * (BASE - 1) > 0xffff_ffff
  {
  }

  /** One byte is added to both sums. */
  lemma RawNext(s: Sums, buf: seq<byte>, from: nat, to: nat)
    requires from <= to < |buf|
    ensures Raw(s, buf[from..to + 1]) == var r := Raw(s, buf[from..to]); Sums(r.a + buf[to], r.b + r.a + buf[to])
  {
    assert buf[from..to + 1][..to - from] == buf[from..to];
  }

  /** The plain summing loop over buf[from..to]. */
  method Sum(adler0: uint32, sum0: uint32, buf: seq<byte>, from: nat, to: nat, ghost s: Sums, ghost start: nat)
    returns (adler: uint32, sum2: uint32)
    requires start <= from <= to <= |buf| && to - start <= NMAX && s.a < 0x1_0000 && s.b < 0x1_0000
    requires Sums(adler0, sum0) == Raw(s, buf[start..from])
    ensures Sums(adler, sum2) == Raw(s, buf[start..to])
  {
    adler, sum2 := adler0, sum0;
    for i := from to to
      invariant Sums(adler, sum2) == Raw(s, buf[start..i])
    {
      RawNext(s, buf, start, i);
      NoOverflow(s, buf[start..i + 1]);
      adler := adler + buf[i];
      sum2 := sum2 + adler;
    }
  }

  /** NMAX / 16 times sixteen bytes. */
  method SumBlock(adler0: uint32, sum0: uint32, buf: seq<byte>, at: nat) returns (adler: uint32, sum2: uint32)
    requires at + NMAX <= |buf| && adler0 < 0x1_0000 && sum0 < 0x1_0000
    ensures Sums(adler, sum2) == Raw(Sums(adler0, sum0), buf[at..at + NMAX])
  {
    hide Raw;
    adler, sum2 := adler0, sum0;
    NothingSummed(Sums(adler, sum2), buf, at);
    for n := 0 to NMAX / 16
      invariant Sums(adler, sum2) == Raw(Sums(adler0, sum0), buf[at..at + 16 * n])
    {
      adler, sum2 := Sum(adler, sum2, buf, at + 16 * n, at + 16 * n + 16, Sums(adler0, sum0), at);
    }
  }

  lemma NothingSummed(s: Sums, buf: seq<byte>, at: nat)
    requires at <= |buf|
    ensures Raw(s, buf[at..at]) == s
  {
  }

  /** What the first at bytes have given, up to multiples of BASE. */
  ghost predicate Summed(s: Sums, buf: seq<byte>, at: nat, t: Sums) {
    at <= |buf| && SameSums(t, Run(s, buf[..at]))
  }

  /** More bytes are summed and the sums reduced. */
  lemma SummedMore(s: Sums, buf: seq<byte>, at: nat, to: nat, t: Sums)
    requires at <= to <= |buf| && Summed(s, buf, at, t)
    ensures var r := Raw(t, buf[at..to]); Summed(s, buf, to, r) && Summed(s, buf, to, Sums(r.a % BASE, r.b % BASE))
  {
    var x := Run(s, buf[..at]);
    assert buf[..to] == buf[..at] + buf[at..to];
    RunConcat(s, buf[..at], buf[at..to]);
    RawIsRun(t, x, buf[at..to]);
    var r := Raw(t, buf[at..to]);
    Plus(r.a, r.a, 0, 0);
    Plus(r.b, r.b, 0, 0);
  }

  lemma SummedAll(s: Sums, buf: seq<byte>, t: Sums)
    requires Summed(s, buf, |buf|, t) && Reduced(t)
    ensures t == Checksum(s, buf)
  {
    assert buf[..|buf|] == buf;
  }

  /** The main part: blocks of NMAX bytes, and what is left. */
  method SumLong(adler0: uint32, sum0: uint32, buf: seq<byte>) returns (adler: uint32, sum2: uint32)
    requires |buf| >= 16 && adler0 < 0x1_0000 && sum0 < 0x1_0000
    ensures Sums(adler, sum2) == Checksum(Sums(adler0, sum0), buf)
  {
    hide Raw, Run, Summed;
    ghost var s := Sums(adler0, sum0);
    adler, sum2 := adler0, sum0;
    var at := 0;
    SummedStarts(s, buf);
    while |buf| - at >= NMAX
      invariant at <= |buf| && Summed(s, buf, at, Sums(adler, sum2)) && adler < 0x1_0000 && sum2 < 0x1_0000
      invariant at > 0 ==> adler < BASE && sum2 < BASE
    {
      SummedMore(s, buf, at, at + NMAX, Sums(adler, sum2));
      adler, sum2 := SumBlock(adler, sum2, buf, at);
      adler, sum2 := adler % BASE, sum2 % BASE;
      at := at + NMAX;
    }
    if at < |buf| {
      SummedMore(s, buf, at, |buf|, Sums(adler, sum2));
      adler, sum2 := SumRest(adler, sum2, buf, at);
      adler, sum2 := adler % BASE, sum2 % BASE;
    }
    SummedAll(s, buf, Sums(adler, sum2));
  }

  lemma SummedStarts(s: Sums, buf: seq<byte>)
    ensures Summed(s, buf, 0, s)
  {
    assert buf[..0] == [];
  }

  /** Less than NMAX bytes, sixteen at a time and then one by one. */
  method SumRest(adler0: uint32, sum0: uint32, buf: seq<byte>, at: nat) returns (adler: uint32, sum2: uint32)
    requires at < |buf| < at + NMAX && adler0 < 0x1_0000 && sum0 < 0x1_0000
    ensures Sums(adler, sum2) == Raw(Sums(adler0, sum0), buf[at..|buf|])
  {
    hide Raw;
    ghost var s := Sums(adler0, sum0);
    adler, sum2 := adler0, sum0;
    var i := at;
    NothingSummed(s, buf, at);
    while |buf| - i >= 16
      invariant at <= i <= |buf| && Sums(adler, sum2) == Raw(s, buf[at..i])
    {
      adler, sum2 := Sum(adler, sum2, buf, i, i + 16, s, at);
      i := i + 16;
    }
    adler, sum2 := Sum(adler, sum2, buf, i, |buf|, s, at);
  }

  /** The fast way for one byte. */
  method AddByte(a0: uint16, b0: uint16, c: byte) returns (a: nat, b: nat)
    ensures Pack(Sums(a, b)) == Pack(Checksum(Sums(a0, b0), [c])) <==> b0 + (a0 + c) % BASE < 2 * BASE
  {
    hide Run, Checksum, Pack;
    var x: int, y: int := a0, b0;
    a := x + c;
    if a >= BASE { a := a - BASE; }
    OnceLess(x + c, a);
    b := y + a;
    ghost var before := b;
    if b >= BASE { b := b - BASE; }
    OnceLess(before, b);
    OneByte(Sums(a0, b0), [c]);
    PackInjective(Sums(a, b), Checksum(Sums(a0, b0), [c]));
  }

  lemma OnceLess(x: nat, y: nat)
    requires x < 3 * BASE && y == if x >= BASE then x - BASE else x
    ensures y == x % BASE <==> x < 2 * BASE
  {
  }

  /** Fewer than sixteen bytes. */
  method SumShort(a0: uint16, b0: uint16, buf: seq<byte>) returns (a: nat, b: nat)
    requires |buf| < 16
    ensures Sums(a, b) == Checksum(Sums(a0, b0), buf)
  {
    hide Run, Raw;
    ghost var s := Sums(a0, b0);
    SummedStarts(s, buf);
    SummedMore(s, buf, 0, |buf|, s);
    NothingSummed(s, buf, 0);
    a, b := Sum(a0, b0, buf, 0, |buf|, s, 0);
    RawBound(s, buf[0..|buf|]);
    ghost var before := a;
    if a >= BASE { a := a - BASE; }
    assert a == before % BASE;
    b := b % BASE;
    SummedAll(s, buf, Sums(a, b));
  }

  /** adler32_z on a buffer (None is Z_NULL). The result is the checksum by definition for every
      length; the one exception is a single byte added to a word whose upper half is no checksum
      component, which can come out BASE too large. */
  method Adler32(adler: uint32, buf: Option<seq<byte>>) returns (r: nat)
    ensures buf.None? ==> r == 1
    ensures buf.Some? && |buf.value| != 1 ==> r == Pack(Checksum(Unpack(adler), buf.value))
    ensures buf.Some? && |buf.value| == 1 ==>
      var s := Unpack(adler);
      (r == Pack(Checksum(s, buf.value)) <==> s.b + (s.a + buf.value[0]) % BASE < 2 * BASE)
  {
    hide Checksum, Pack;
    var v: int := adler;
    var sum2, a := v / 0x1_0000 % 0x1_0000, v % 0x1_0000;
    if buf.None? { return 1; }
    var bytes := buf.value;
    if |bytes| == 1 {
      assert bytes == [bytes[0]];
      a, sum2 := AddByte(a, sum2, bytes[0]);
    } else if |bytes| < 16 {
      a, sum2 := SumShort(a, sum2, bytes);
    } else {
      a, sum2 := SumLong(a, sum2, bytes);
    }
    r := Pack(Sums(a, sum2));
  }

  lemma OneByte(s: Sums, buf: seq<byte>)
    requires |buf| == 1
    ensures Checksum(s, buf) == Sums((s.a + buf[0]) % BASE, (s.b + (s.a + buf[0]) % BASE) % BASE)
  {
    assert buf[..0] == [];
    var r := Run(s, buf);
    assert Run(s, buf[..0]) == s;
  }

  lemma PackInjective(s: Sums, t: Sums)
    requires s.a < 0x1_0000 && t.a < 0x1_0000
    ensures Pack(s) == Pack(t) ==> s == t
  {
  }

  /** For a checksum the exception cannot happen. */
  lemma ChecksumsNeverExceptional(s: Sums, c: byte)
    requires Reduced(s)
    ensures s.b + (s.a + c) % BASE < 2 * BASE
  {
  }

  /** CHOP: 65536 is 15 more than BASE. */
  function Chop(a: nat): (r: nat)
    ensures Congruent(r, a) && r == a % 0x1_0000 + 15 * (a / 0x1_0000)
  {
    Multiple(a % 0x1_0000 + 15 * (a / 0x1_0000), a / 0x1_0000);
    a % 0x1_0000 + (a / 0x1_0000 * 16 - a / 0x1_0000)
  }

  lemma OneLess(a: nat, v: nat)
    requires a < 2 * BASE && Congruent(a, v)
    ensures (if a >= BASE then a - BASE else a) == v % BASE
  {
  }

  /** MOD28 without division: right below 2^28 and somewhat beyond. */
  method Mod28(a0: nat) returns (a: nat)
    requires a0 < 0x1000_0000
    ensures a == a0 % BASE
  {
    a := Chop(a0);
    OneLess(a, a0);
    if a >= BASE { a := a - BASE; }
  }

  /** MOD without division: right for every 32-bit word. */
  method Mod(a0: uint32) returns (a: nat)
    ensures a == a0 % BASE
  {
    a := Chop(a0);
    a := Mod28(a);
  }

  /** MOD63 without division: right for every non-negative 64-bit number. */
  method Mod63(a0: nat) returns (a: nat)
    requires a0 < 0x8000_0000_0000_0000
    ensures a == a0 % BASE
  {
    var tmp := a0 / 0x1_0000_0000;
    a := a0 % 0x1_0000_0000;
    ghost var low := a;
    assert a0 == low + 0x1_0000_0000 * tmp;
    a := a + (tmp * 256 - tmp * 32 + tmp);
    assert a0 == a + BASE * (65551 * tmp);
    Multiple(a, 65551 * tmp);
    ghost var a1 := a;
    a := Chop(a);
    ghost var a2 := a;
    a := Chop(a);
    Same(a, a2, a1);
    Same(a, a1, a0);
    OneLess(a, a0);
    if a >= BASE { a := a - BASE; }
  }

  /** Starting from s instead of (1, 0) adds s.a - 1 to every sum. */
  lemma {:induction false} Shifted(s: Sums, buf: seq<byte>)
    ensures Raw(s, buf).a == Raw(Sums(1, 0), buf).a + s.a - 1
    ensures Raw(s, buf).b == Raw(Sums(1, 0), buf).b + s.b + |buf| * s.a - |buf|
    decreases |buf|
  {
    if |buf| > 0 {
      Shifted(s, buf[..|buf| - 1]);
      assert |buf| * s.a == (|buf| - 1) * s.a + s.a;
    }
  }

  /** What adler32_combine_ computes, before it is reduced. */
  lemma Combined(s: Sums, buf: seq<byte>, len2: nat, rem: nat)
    requires len2 == |buf| && rem == len2 % BASE && Reduced(s)
    ensures var t := Checksum(Sums(1, 0), buf);
      Congruent(s.a + t.a + BASE - 1, Run(s, buf).a) &&
        Congruent(rem * s.a % BASE + s.b + t.b + BASE - rem, Run(s, buf).b)
  {
    var one := Sums(1, 0);
    var t := Checksum(one, buf);
    RawIsRun(s, s, buf);
    RawIsRun(one, one, buf);
    Shifted(s, buf);
    var x, y := Raw(one, buf), Raw(s, buf);
    RemTimes(len2, s.a);
    hide Congruent, Raw, Run;
    Remainder(Run(one, buf).a);
    Remainder(Run(one, buf).b);
    Same(x.a, Run(one, buf).a, t.a);
    Same(x.b, Run(one, buf).b, t.b);
    Flip(x.a, t.a);
    Flip(x.b, t.b);
    SumA(s, t, x, y);
    SumB(s, t, x, y, len2, rem);
    Same(s.a + t.a + BASE - 1, y.a, Run(s, buf).a);
    Same(rem * s.a % BASE + s.b + t.b + BASE - rem, y.b, Run(s, buf).b);
  }

  lemma Flip(x: int, y: int)
    requires Congruent(x, y)
    ensures Congruent(y, x)
  {
  }

  lemma RemTimes(len2: nat, a: nat)
    ensures Congruent(len2 % BASE * a % BASE, len2 * a) && Congruent(len2 % BASE, len2)
  {
    var q, r := len2 / BASE, len2 % BASE;
    assert len2 * a == (BASE * q + r) * a == r * a + BASE * (q * a);
    Multiple(r * a, q * a);
  }

  lemma SumA(s: Sums, t: Sums, x: Sums, y: Sums)
    requires Congruent(t.a, x.a) && y.a == x.a + s.a - 1
    ensures Congruent(s.a + t.a + BASE - 1, y.a)
  {
    Itself(s.a - 1);
    Plus(t.a, x.a, s.a - 1, s.a - 1);
    Multiple(t.a + s.a - 1, 1);
    Same(s.a + t.a + BASE - 1, t.a + s.a - 1, y.a);
  }

  lemma SumB(s: Sums, t: Sums, x: Sums, y: Sums, len2: nat, rem: nat)
    requires Congruent(t.b, x.b) && y.b == x.b + s.b + len2 * s.a - len2 && rem == len2 % BASE
    ensures Congruent(rem * s.a % BASE + s.b + t.b + BASE - rem, y.b)
  {
    RemTimes(len2, s.a);
    hide Congruent;
    var p := rem * s.a % BASE;
    Itself(s.b);
    Plus(t.b, x.b, s.b, s.b);
    Plus(t.b + s.b, x.b + s.b, p, len2 * s.a);
    Plus(t.b + s.b + p, x.b + s.b + len2 * s.a, rem, len2);
    Multiple(t.b + s.b + p - rem, 1);
    Same(p + s.b + t.b + BASE - rem, t.b + s.b + p - rem, y.b);
  }

  /** adler32_combine_: from the checksums of two pieces and the length of the second, the checksum
      of both together. A negative length gives an invalid checksum. */
  method Combine(adler1: uint32, adler2: uint32, len2: int, ghost s: Sums, ghost y: seq<byte>) returns (r: nat)
    requires len2 < 0x8000_0000_0000_0000 && Reduced(s) && adler1 == Pack(s)
    requires len2 >= 0 ==> len2 == |y| && adler2 == Pack(Checksum(Sums(1, 0), y))
    ensures if len2 < 0 then r == 0xffff_ffff else r == Pack(Checksum(s, y))
  {
    hide Run, Congruent;
    if len2 < 0 { return 0xffff_ffff; }
    var a1: int, a2: int := adler1, adler2;
    ghost var t := Checksum(Sums(1, 0), y);
    Halves(s, t);
    Combined(s, y, len2, len2 % BASE);
    var rem := Mod63(len2);
    var sum1: uint32 := a1 % 0x1_0000;
    Monotone(rem, BASE, sum1, BASE);
    var sum2: uint32 := rem * sum1 % BASE;
    sum1 := sum1 + a2 % 0x1_0000 + BASE - 1;
    sum2 := sum2 + a1 / 0x1_0000 % 0x1_0000 + a2 / 0x1_0000 % 0x1_0000 + BASE - rem;
    ghost var x1, x2 := sum1, sum2;
    if sum1 >= BASE { sum1 := sum1 - BASE; }
    if sum1 >= BASE { sum1 := sum1 - BASE; }
    if sum2 >= 2 * BASE { sum2 := sum2 - 2 * BASE; }
    if sum2 >= BASE { sum2 := sum2 - BASE; }
    FullyReduced(x1, x2, sum1, sum2, Run(s, y));
    r := Pack(Sums(sum1, sum2));
  }

  lemma Halves(s: Sums, t: Sums)
    requires Reduced(s) && Reduced(t)
    ensures Pack(s) % 0x1_0000 == s.a && Pack(s) / 0x1_0000 % 0x1_0000 == s.b
    ensures Pack(t) % 0x1_0000 == t.a && Pack(t) / 0x1_0000 % 0x1_0000 == t.b
  {
  }

  /** The conditional subtractions reduce what is below 3 BASE and 4 BASE. */
  lemma FullyReduced(x1: nat, x2: nat, y1: nat, y2: nat, r: Sums)
    requires x1 < 3 * BASE && x2 < 4 * BASE && Congruent(x1, r.a) && Congruent(x2, r.b)
    requires y1 < BASE && (y1 == x1 || y1 == x1 - BASE || y1 == x1 - 2 * BASE)
    requires y2 < BASE && (y2 == x2 || y2 == x2 - BASE || y2 == x2 - 2 * BASE || y2 == x2 - 3 * BASE)
    ensures y1 == r.a % BASE && y2 == r.b % BASE
  {
  }

  /** Two checksums combined are the checksum of the concatenation. */
  lemma ChecksumOfConcat(x: seq<byte>, y: seq<byte>)
    ensures Checksum(Sums(1, 0), x + y) == Checksum(Checksum(Sums(1, 0), x), y)
  {
    hide Run, Raw;
    RunConcat(Sums(1, 0), x, y);
    RunReduced(Sums(1, 0), x);
    assert Checksum(Sums(1, 0), x) == Run(Sums(1, 0), x);
  }

  lemma {:induction false} RunReduced(s: Sums, buf: seq<byte>)
    requires Reduced(s)
    ensures Reduced(Run(s, buf))
    decreases |buf|
  {
    if |buf| > 0 { RunReduced(s, buf[..|buf| - 1]); }
  }
}
