/** The bit buffers of both sides: bsW and its kin in the encoder, GET_BITS in the decoder. */
module BitIo {
  import opened Bytes
  import opened BitStrings

  /** The pending bits p are at the top of the encoder's buffer, with nothing below them. */
  ghost predicate AtTop(bsBuff: nat, p: seq<bit>) {
    |p| <= 32 && bsBuff < 0x1_0000_0000 && Bits(bsBuff, 32) == p + Zeros(32 - |p|)
  }

  lemma Pow2Values()
    ensures Pow2(8) == 0x100 && Pow2(24) == 0x100_0000 && Pow2(32) == 0x1_0000_0000
  {
    assert Pow2(8) == 0x100;
    assert Pow2(16) == 0x1_0000;
    assert Pow2(24) == 0x100_0000;
  }

  lemma {:induction false} ShrByPow2(v: nat, k: nat)
    ensures Shr(v, k) == v / Pow2(k)
    decreases k
  {
    if k > 0 {
      ShrByPow2(v / 2, k - 1);
      DivideTwice(v, Pow2(k - 1));
    }
  }

  lemma DivideTwice(v: nat, p: nat)
    requires p > 0
    ensures v / 2 / p == v / (2 * p)
  {
    var q, r := v / 2 / p, v / 2 % p;
    var d := 2 * p;
    var x, y := v / d, v % d;
    assert v / 2 == p * q + r && v == d * x + y;
    assert d * q == 2 * (p * q);
    MultipleBeyond(d, x - q);
    assert d * (x - q) == d * x - d * q;
  }

  /** Taking the top byte out of the buffer. */
  lemma TopByte(bsBuff: nat, p: seq<bit>)
    requires AtTop(bsBuff, p) && |p| >= 8
    ensures bsBuff / 0x100_0000 < 256 && Bits(bsBuff / 0x100_0000, 8) == p[..8]
    ensures AtTop(bsBuff * 0x100 % 0x1_0000_0000, p[8..])
  {
    hide Bits, Zeros, Shr, Pow2;
    Pow2Values();
    BitsSplit(bsBuff, 8, 24);
    ShrByPow2(bsBuff, 24);
    assert Bits(bsBuff, 32)[..8] == p[..8];
    assert Bits(bsBuff, 32)[8..] == Bits(bsBuff, 24) == p[8..] + Zeros(32 - |p|);
    BitsOfRemainder(bsBuff * 0x100, 32);
    ByteUp(bsBuff);
    ZerosJoin(32 - |p|, 8);
    assert p[8..] + Zeros(32 - |p|) + Zeros(8) == p[8..] + (Zeros(32 - |p|) + Zeros(8));
  }

  lemma ByteUp(v: nat)
    ensures Bits(v * 0x100, 32) == Bits(v, 24) + Zeros(8)
  {
    hide Bits, Zeros;
    BitsOfShl(v, 24, 8);
    assert Shl(v, 1) == 2 * v;
    assert Shl(v, 2) == 4 * v;
    assert Shl(v, 4) == 16 * v;
    assert Shl(v, 6) == 64 * v;
  }

  lemma {:induction false} ZerosJoin(m: nat, n: nat)
    ensures Zeros(m) + Zeros(n) == Zeros(m + n)
    decreases n
  {
    if n == 0 {
      assert Zeros(m) + [] == Zeros(m);
    } else {
      ZerosJoin(m, n - 1);
      assert Zeros(m) + (Zeros(n - 1) + [0]) == Zeros(m) + Zeros(n - 1) + [0];
    }
  }

  /** Adding n bits below the pending ones. */
  lemma AddBits(bsBuff: nat, p: seq<bit>, n: nat, v: nat)
    requires AtTop(bsBuff, p) && |p| + n <= 32 && v < Pow2(n)
    ensures AtTop(Or(bsBuff, Shl(v, 32 - |p| - n)), p + Bits(v, n))
  {
    hide Bits, Zeros, Or, Shl, Pow2;
    var k := 32 - |p| - n;
    Pow2Values();
    ShlBound(v, n, k);
    BitsOfShl(v, n, k);
    BitsOfOr(bsBuff, Shl(v, k), p, 32 - |p|);
    assert p + (Bits(v, n) + Zeros(k)) == p + Bits(v, n) + Zeros(k);
    Pow2Monotone(n + k, 32);
    OrBound(bsBuff, Shl(v, k), 32);
  }

  lemma {:induction false} Pow2Monotone(i: nat, j: nat)
    requires i <= j
    ensures Pow2(i) <= Pow2(j)
    decreases j
  {
    if i < j { Pow2Monotone(i, j - 1); }
  }

  lemma {:induction false} OrBound(v: nat, w: nat, n: nat)
    requires v < Pow2(n) && w < Pow2(n)
    ensures Or(v, w) < Pow2(n)
    decreases n
  {
    if n > 0 && (v > 0 || w > 0) { OrBound(v / 2, w / 2, n - 1); }
  }

  /** The part of EState that collects the compressed bits. */
  class BitWriter {
    var zbits: seq<byte>
    var bsBuff: uint32
    var bsLive: int
    ghost var pending: seq<bit>
    ghost var sent: seq<byte>

    ghost predicate Valid()
      reads this
    {
      0 <= bsLive == |pending| <= 32 && AtTop(bsBuff, pending)
    }

    /** All the bits written so far; sent are the bytes of earlier blocks. */
    ghost function Written(): seq<bit>
      reads this
    {
      BitsOf(sent + zbits) + pending
    }

    /** numZ = 0: the bytes of a block have been taken out. */
    method ResetZ()
      modifies this`zbits, this`sent
      ensures zbits == [] && sent == old(sent + zbits) && Written() == old(Written())
      ensures old(Valid()) ==> Valid()
    {
      sent := sent + zbits;
      zbits := [];
      assert sent + [] == sent;
    }

    /** BZ2_bsInitWrite */
    constructor ()
      ensures Valid() && Written() == [] && sent == [] && zbits == []
    {
      zbits, bsBuff, bsLive, pending, sent := [], 0, 0, [], [];
      new;
      BitsOfZero(32);
      assert [] + Zeros(32) == Zeros(32);
    }

    /** bsNEEDW: whole bytes leave the buffer. */
    method NeedW()
      requires Valid()
      modifies this
      ensures Valid() && bsLive < 8 && Written() == old(Written()) && sent == old(sent)
    {
      hide AtTop, BitsOf;
      while bsLive >= 8
        invariant Valid() && Written() == old(Written()) && sent == old(sent)
        decreases bsLive
      {
        ByteLeaves(bsBuff, sent + zbits, pending);
        Associative(sent, zbits, [bsBuff / 0x100_0000]);
        zbits := zbits + [bsBuff / 0x100_0000];
        bsBuff := bsBuff * 0x100 % 0x1_0000_0000;
        bsLive := bsLive - 8;
        pending := pending[8..];
      }
    }

    /** bsW: append the n lowest bits of v. */
    method BsW(n: int, v: nat)
      requires Valid() && 0 <= n <= 24 && v < Pow2(n)
      modifies this
      ensures Valid() && Written() == old(Written()) + Bits(v, n) && sent == old(sent)
    {
      hide AtTop;
      NeedW();
      AddBits(bsBuff, pending, n, v);
      Word(Or(bsBuff, Shl(v, 32 - bsLive - n)), pending + Bits(v, n));
      bsBuff := Or(bsBuff, Shl(v, 32 - bsLive - n));
      Associative(BitsOf(sent + zbits), pending, Bits(v, n));
      pending := pending + Bits(v, n);
      bsLive := bsLive + n;
    }

    lemma Word(w: nat, p: seq<bit>)
      requires AtTop(w, p)
      ensures w < 0x1_0000_0000
    {
    }

    /** bsW of a single bit. */
    method PutBit(b: bit)
      requires Valid()
      modifies this
      ensures Valid() && Written() == old(Written()) + [b] && sent == old(sent)
    {
      OneBit(b);
      BsW(1, b);
    }

    /** bsFinishWrite: the last byte is filled up with zeros. */
    method FinishWrite()
      requires Valid()
      modifies this
      ensures bsLive <= 0 && pending == [] && Written() == BitsOf(sent + zbits) && sent == old(sent)
      ensures exists n :: 0 <= n < 8 && Written() == old(Written()) + Zeros(n)
    {
      hide AtTop, Bits, BitsOf, Zeros;
      ghost var n := 0;
      assert Written() + Zeros(0) == Written();
      while bsLive > 0
        invariant |pending| == (if bsLive > 0 then bsLive else 0) && AtTop(bsBuff, pending)
        invariant n == (if bsLive < 0 then -bsLive else 0) && n < 8
        invariant Written() == old(Written()) + Zeros(n) && sent == old(sent)
        decreases bsLive
      {
        if bsLive < 8 {
          n := 8 - bsLive;
          PadToByte(bsBuff, pending);
          Associative(BitsOf(sent + zbits), pending, Zeros(n));
          pending := pending + Zeros(n);
        }
        ByteLeaves(bsBuff, sent + zbits, pending);
        Associative(sent, zbits, [bsBuff / 0x100_0000]);
        zbits := zbits + [bsBuff / 0x100_0000];
        bsBuff := bsBuff * 0x100 % 0x1_0000_0000;
        bsLive := bsLive - 8;
        pending := pending[8..];
      }
      assert BitsOf(sent + zbits) + [] == BitsOf(sent + zbits);
    }
  }

  /** The first eight pending bits go to zbits. */
  lemma ByteLeaves(bsBuff: nat, zbits: seq<byte>, p: seq<bit>)
    requires AtTop(bsBuff, p) && |p| >= 8
    ensures 0 <= bsBuff / 0x100_0000 < 256 && AtTop(bsBuff * 0x100 % 0x1_0000_0000, p[8..])
    ensures BitsOf(zbits + [bsBuff / 0x100_0000]) + p[8..] == BitsOf(zbits) + p
  {
    hide AtTop, Bits;
    TopByte(bsBuff, p);
    var c := bsBuff / 0x100_0000;
    assert (zbits + [c])[..|zbits|] == zbits;
    assert BitsOf(zbits) + p[..8] + p[8..] == BitsOf(zbits) + p;
  }

  lemma PadToByte(bsBuff: nat, p: seq<bit>)
    requires AtTop(bsBuff, p) && |p| < 8
    ensures AtTop(bsBuff, p + Zeros(8 - |p|))
  {
    hide Bits, Zeros;
    var q := p + Zeros(8 - |p|);
    ZerosJoin(8 - |p|, 24);
    assert q + Zeros(24) == p + (Zeros(8 - |p|) + Zeros(24));
  }

  /** Reading n of the live bits, which are at the bottom of the decoder's buffer. */
  lemma TakeBits(bsBuff: nat, live: nat, n: nat)
    requires n <= live
    ensures var v := Shr(bsBuff, live - n) % Pow2(n);
            v < Pow2(n) && Bits(bsBuff, live) == Bits(v, n) + Bits(bsBuff, live - n)
  {
    BitsSplit(bsBuff, n, live - n);
    BitsOfRemainder(Shr(bsBuff, live - n), n);
  }

  lemma TailsAgree(w: seq<bit>, a: seq<bit>, b: seq<bit>, d: seq<bit>, e: seq<bit>, c: seq<bit>)
    requires w == a + b == d + e + c && |a| == |d|
    ensures b == e + c
  {
    assert b == w[|a|..] == e + c;
  }

  /** Appending a byte below the live bits. */
  lemma AppendByte(bsBuff: nat, live: nat, c: byte)
    requires live <= 24
    ensures var w := Or(bsBuff * 0x100 % 0x1_0000_0000, c);
      w < 0x1_0000_0000 && Bits(w, live + 8) == Bits(bsBuff, live) + Bits(c, 8)
  {
    hide Bits, Zeros, Or;
    Pow2Values();
    var u := bsBuff * 0x100 % 0x1_0000_0000;
    BitsOfRemainder(bsBuff * 0x100, 32);
    ByteUp(bsBuff);
    BitsOfOr(u, c, Bits(bsBuff, 24), 8);
    OrBound(u, c, 32);
    BitsSplit(Or(u, c), 24 - live, live + 8);
    BitsSplit(bsBuff, 24 - live, live);
    TailsAgree(Bits(Or(u, c), 24 - live + (live + 8)), Bits(Shr(Or(u, c), live + 8), 24 - live),
               Bits(Or(u, c), live + 8),
               Bits(Shr(bsBuff, live), 24 - live), Bits(bsBuff, live), Bits(c, 8));
  }

  /** What one call provides: new input, and room for output. */
  datatype Supply = Supply(input: seq<byte>, room: nat)

  /** The input of all calls from number i on. */
  function InputFrom(all: seq<Supply>, i: nat): seq<byte>
    decreases |all| - i
  {
    if i >= |all| then [] else all[i].input + InputFrom(all, i + 1)
  }

  /** The bytes of all the calls. */
  ghost function Flat(outs: seq<seq<byte>>): seq<byte> {
    if |outs| == 0 then [] else Flat(outs[..|outs| - 1]) + outs[|outs| - 1]
  }

  /** The part of DState and bz_stream that the compressed bits come from and the output goes to.
      BZ2_bzDecompress is called once for each supply. Where the source returns BZ_OK for want of
      input or room, to go on at the same place when it is called again, the next call begins. */
  class BitReader {
    const all: seq<Supply>
    var at: nat
    var next_in: seq<byte>
    var bsBuff: uint32
    var bsLive: int
    var availOut: nat
    var outs: seq<seq<byte>>
    var out: seq<byte>

    ghost predicate Valid()
      reads this
    {
      && 0 <= bsLive <= 32 && at < |all| && |outs| == at && |out| + availOut == all[at].room
      && forall i :: 0 <= i < at ==> |outs[i]| <= all[i].room
    }

    /** The input that has not been looked at yet, in this call and later ones. */
    ghost function Unread(): seq<byte>
      reads this
    {
      next_in + InputFrom(all, at + 1)
    }

    /** The bits that have not been used yet. */
    ghost function Remaining(): seq<bit>
      requires Valid()
      reads this
    {
      Bits(bsBuff, bsLive) + BitsOf(Unread())
    }

    /** All that has been put out. */
    ghost function Delivered(): seq<byte>
      reads this
    {
      Flat(outs) + out
    }

    constructor (all: seq<Supply>)
      requires |all| > 0
      ensures Valid() && this.all == all && Remaining() == BitsOf(InputFrom(all, 0)) && Delivered() == []
    {
      this.all, at := all, 0;
      next_in, bsBuff, bsLive, availOut, outs, out := all[0].input, 0, 0, all[0].room, [], [];
      new;
      assert [] + BitsOf(Unread()) == BitsOf(Unread());
    }

    /** Nothing is put out, and no bits come back. */
    twostate predicate Onward()
      requires old(Valid()) && Valid()
      reads this
    {
      at >= old(at) && |Remaining()| <= old(|Remaining()|) && Delivered() == old(Delivered())
    }

    /** The call returns, and the next one is made. */
    method NextCall()
      requires Valid() && at + 1 < |all|
      modifies this
      ensures Valid() && at == old(at) + 1 && availOut == all[at].room
      ensures Unread() == old(Unread()) && Remaining() == old(Remaining()) && Delivered() == old(Delivered())
    {
      assert (outs + [out])[..|outs|] == outs;
      assert Flat(outs) + out + [] == Flat(outs) + out;
      Associative(next_in, all[at + 1].input, InputFrom(all, at + 2));
      outs, out := outs + [out], [];
      at := at + 1;
      next_in, availOut := next_in + all[at].input, all[at].room;
    }

    /** Bytes go to the output. */
    method Deliver(piece: seq<byte>)
      requires Valid() && |piece| <= availOut
      modifies this
      ensures Valid() && at == old(at) && availOut == old(availOut) - |piece|
      ensures Remaining() == old(Remaining()) && Delivered() == old(Delivered()) + piece
    {
      Associative(Flat(outs), out, piece);
      out, availOut := out + piece, availOut - |piece|;
    }

    /** GET_BITS: the next n bits as a number. It fails only when there is not enough input in all
        the calls, and then nothing is lost. */
    method GetBits(n: int) returns (ok: bool, v: nat)
      requires Valid() && 0 <= n <= 24
      modifies this
      ensures Valid() && at >= old(at) && Delivered() == old(Delivered())
      ensures ok <==> n <= |old(Remaining())|
      ensures ok ==> v < Pow2(n) && old(Remaining()) == Bits(v, n) + Remaining()
      ensures !ok ==> Remaining() == old(Remaining())
    {
      hide Bits, BitsOf, Pow2, Shr, Flat;
      v := 0;
      while true
        invariant Valid() && at >= old(at) && Remaining() == old(Remaining()) && Delivered() == old(Delivered())
        decreases |Unread()|, |all| - at
      {
        if bsLive >= n {
          v := TakeLive(n);
          return true, v;
        }
        if |next_in| == 0 {
          if at + 1 == |all| { return false, v; }
          NextCall();
        } else {
          TakeByte();
        }
      }
    }

    method TakeLive(n: int) returns (v: nat)
      requires Valid() && 0 <= n <= 24 && n <= bsLive
      modifies this`bsLive
      ensures Valid() && v < Pow2(n) && old(Remaining()) == Bits(v, n) + Remaining()
    {
      hide Bits, BitsOf, Pow2, Shr;
      TakeBits(bsBuff, bsLive, n);
      v := Shr(bsBuff, bsLive - n) % Pow2(n);
      Associative(Bits(v, n), Bits(bsBuff, bsLive - n), BitsOf(Unread()));
      bsLive := bsLive - n;
    }

    method TakeByte()
      requires Valid() && bsLive < 24 && |next_in| > 0
      modifies this`bsBuff, this`bsLive, this`next_in
      ensures Valid() && Remaining() == old(Remaining()) && |Unread()| < |old(Unread())|
    {
      hide Bits, BitsOf;
      FirstByte(Unread());
      AppendByte(bsBuff, bsLive, next_in[0]);
      assert Unread()[1..] == next_in[1..] + InputFrom(all, at + 1) && Unread()[0] == next_in[0];
      Associative(Bits(bsBuff, bsLive), Bits(next_in[0], 8), BitsOf(Unread()[1..]));
      bsBuff := Or(bsBuff * 0x100 % 0x1_0000_0000, next_in[0]);
      bsLive := bsLive + 8;
      next_in := next_in[1..];
    }
  }

  /** The same bits are the same number, followed by the same bits. */
  lemma SameStart(v: nat, x: nat, n: nat, a: seq<bit>, b: seq<bit>)
    requires v < Pow2(n) && x < Pow2(n) && Bits(v, n) + a == Bits(x, n) + b
    ensures v == x && a == b
  {
    hide Bits;
    assert (Bits(v, n) + a)[..n] == Bits(v, n) && (Bits(x, n) + b)[..n] == Bits(x, n);
    assert (Bits(v, n) + a)[n..] == a && (Bits(x, n) + b)[n..] == b;
    BitsInjective(v, x, n);
  }

  /** GET_BITS, when the input may be known to start with the n bits of x. */
  method NextBits(r: BitReader, n: int, ghost x: nat, ghost more: seq<bit>) returns (ok: bool, v: nat)
    requires r.Valid() && 0 <= n <= 24
    modifies r
    ensures r.Valid()
    ensures r.Onward()
    ensures ok ==> v < Pow2(n) && old(r.Remaining()) == Bits(v, n) + r.Remaining()
    ensures x < Pow2(n) && old(r.Remaining()) == Bits(x, n) + more ==> ok && v == x && r.Remaining() == more
  {
    hide Bits;
    ok, v := r.GetBits(n);
    if ok && x < Pow2(n) && old(r.Remaining()) == Bits(x, n) + more {
      SameStart(v, x, n, r.Remaining(), more);
    }
  }

  /** GET_BIT, likewise. */
  method NextBit(r: BitReader, ghost b: bit, ghost more: seq<bit>) returns (ok: bool, v: bit)
    requires r.Valid()
    modifies r
    ensures r.Valid()
    ensures r.Onward()
    ensures ok ==> old(r.Remaining()) == [v] + r.Remaining()
    ensures old(r.Remaining()) == [b] + more ==> ok && v == b && r.Remaining() == more
  {
    var u;
    OneBit(b);
    ok, u := NextBits(r, 1, b, more);
    v := if u == 0 then 0 else 1;
    OneBit(v);
  }

  lemma OneBit(b: bit)
    ensures Bits(b, 1) == [b] && Pow2(1) == 2
  {
    assert Bits(b, 0) == [];
  }

  lemma FirstByte(s: seq<byte>)
    requires |s| > 0
    ensures BitsOf(s) == Bits(s[0], 8) + BitsOf(s[1..])
  {
    assert s == [s[0]] + s[1..];
    BitsOfConcat([s[0]], s[1..]);
    assert [s[0]][..0] == [];
    assert [] + Bits(s[0], 8) == Bits(s[0], 8);
  }
}
