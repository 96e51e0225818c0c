/** Bytes, magic numbers and 32-bit words in the bit stream. */
module BitWords {
  import opened Bytes
  import opened BitStrings
  import opened BitIo

  /** bsPutUChar, four times: a 32-bit word, most significant byte first. */
  method PutUInt32(w: BitWriter, u: uint32)
    requires w.Valid()
    modifies w
    ensures w.Valid() && w.sent == old(w.sent) && w.Written() == old(w.Written()) + Bits(u, 32)
  {
    hide BitWriter.Valid, BitWriter.Written, Bits, Pow2;
    Pow2Values();
    ghost var was := w.Written();
    w.BsW(8, u / 0x100_0000 % 0x100);
    w.BsW(8, u / 0x1_0000 % 0x100);
    w.BsW(8, u / 0x100 % 0x100);
    w.BsW(8, u % 0x100);
    WordInBytes(u);
    var a, b, c, d := Bits(u / 0x100_0000 % 0x100, 8), Bits(u / 0x1_0000 % 0x100, 8), Bits(u / 0x100 % 0x100, 8),
      Bits(u % 0x100, 8);
    assert was + a + b + c + d == was + (a + b + c + d);
  }

  lemma WordInBytes(u: nat)
    requires u < 0x1_0000_0000
    ensures Bits(u, 32) == Bits(u / 0x100_0000 % 0x100, 8) + Bits(u / 0x1_0000 % 0x100, 8) +
      Bits(u / 0x100 % 0x100, 8) + Bits(u % 0x100, 8)
  {
    hide Bits;
    TwoParts(u, 24);
    TwoParts(u / 0x100, 16);
    TwoParts(u / 0x1_0000, 8);
    BitsOfRemainder(u / 0x100_0000, 8);
  }

  /** The lowest byte of a number. */
  lemma TwoParts(u: nat, n: nat)
    ensures Bits(u, n + 8) == Bits(u / 0x100, n) + Bits(u % 0x100, 8)
  {
    hide Bits;
    Pow2Values();
    BitsSplit(u, n, 8);
    ShrByPow2(u, 8);
    BitsOfRemainder(u, 8);
  }

  /** bsPutUChar for each of the bytes. */
  method PutBytes(w: BitWriter, s: seq<byte>)
    requires w.Valid()
    modifies w
    ensures w.Valid() && w.sent == old(w.sent) && w.Written() == old(w.Written()) + BitsOf(s)
  {
    hide BitWriter.Valid, BitWriter.Written, Bits, Pow2;
    Pow2Values();
    ghost var was := w.Written();
    assert s[..0] == [] && was + [] == was;
    for i := 0 to |s|
      invariant w.Valid() && w.sent == old(w.sent) && w.Written() == was + BitsOf(s[..i])
    {
      w.BsW(8, s[i]);
      assert s[..i + 1][..i] == s[..i];
      Associative(was, BitsOf(s[..i]), Bits(s[i], 8));
    }
    assert s[..|s|] == s;
  }

  /** GET_UCHAR, and give up if it is not the byte that must come next. */
  method Expect(r: BitReader, c: byte, ghost more: seq<bit>) returns (ok: bool)
    requires r.Valid()
    modifies r
    ensures r.Valid()
    ensures r.Onward()
    ensures ok ==> old(r.Remaining()) == Bits(c, 8) + r.Remaining()
    ensures old(r.Remaining()) == Bits(c, 8) + more ==> ok && r.Remaining() == more
  {
    Pow2Values();
    var uc;
    ok, uc := NextBits(r, 8, c, more);
    ok := ok && uc == c;
  }

  /** The remaining bytes of a magic number. */
  method ExpectBytes(r: BitReader, s: seq<byte>, ghost more: seq<bit>) returns (ok: bool)
    requires r.Valid()
    modifies r
    ensures r.Valid()
    ensures r.Onward()
    ensures ok ==> old(r.Remaining()) == BitsOf(s) + r.Remaining()
    ensures old(r.Remaining()) == BitsOf(s) + more ==> ok && r.Remaining() == more
  {
    hide BitReader.Valid, BitReader.Remaining, BitReader.Delivered, Bits, BitsOf;
    ghost var good, all := r.Remaining() == BitsOf(s) + more, r.Remaining();
    assert s[0..] == s;
    NoBytesYet(s, all);
    for i := 0 to |s|
      invariant r.Valid() && r.Onward() && (good ==> r.Remaining() == BitsOf(s[i..]) + more)
      invariant all == BitsOf(s[..i]) + r.Remaining()
    {
      FirstByte(s[i..]);
      assert s[i..][1..] == s[i + 1..];
      Associative(Bits(s[i], 8), BitsOf(s[i + 1..]), more);
      ok := Expect(r, s[i], BitsOf(s[i + 1..]) + more);
      if !ok { return; }
      OneMoreByte(s, i, r.Remaining());
    }
    assert s[..|s|] == s;
    NoBytes(s, more);
    ok := true;
  }

  lemma NoBytesYet(s: seq<byte>, more: seq<bit>)
    ensures BitsOf(s[..0]) + more == more
  {
  }

  lemma OneMoreByte(s: seq<byte>, i: nat, more: seq<bit>)
    requires i < |s|
    ensures BitsOf(s[..i]) + (Bits(s[i], 8) + more) == BitsOf(s[..i + 1]) + more
  {
    hide Bits;
    assert s[..i + 1][..i] == s[..i];
    Associative(BitsOf(s[..i]), Bits(s[i], 8), more);
  }

  lemma NoBytes(s: seq<byte>, more: seq<bit>)
    ensures BitsOf(s[|s|..]) + more == more
  {
  }

  lemma LastByte(q: nat, ch: byte, n: nat)
    ensures Bits(q * 0x100 + ch, n + 8) == Bits(q, n) + Bits(ch, 8)
  {
    hide Bits;
    assert (q * 0x100 + ch) / 0x100 == q && (q * 0x100 + ch) % 0x100 == ch;
    TwoParts(q * 0x100 + ch, n);
  }

  /** Four bytes in a row are a word. */
  lemma WordOfBytes(a: byte, b: byte, c: byte, d: byte, more: seq<bit>)
    ensures var x := ((a * 0x100 + b) * 0x100 + c) * 0x100 + d;
            Bits(a, 8) + (Bits(b, 8) + (Bits(c, 8) + (Bits(d, 8) + more))) == Bits(x, 32) + more
  {
    hide Bits;
    var y := a * 0x100 + b;
    var z := y * 0x100 + c;
    LastByte(a, b, 8);
    LastByte(y, c, 16);
    LastByte(z, d, 24);
    FourThen(Bits(a, 8), Bits(b, 8), Bits(c, 8), Bits(d, 8), more);
  }

  lemma FourThen(a: seq<bit>, b: seq<bit>, c: seq<bit>, d: seq<bit>, more: seq<bit>)
    ensures a + b + c + d + more == a + (b + (c + (d + more)))
  {
    Associative(a, b, c + (d + more));
    Associative(a + b, c, d + more);
    Associative(a + b + c, d, more);
  }

  /** Four GET_UCHARs that are put together: (stored << 8) | uc, in 32 bits. */
  method GetUInt32(r: BitReader, ghost x: uint32, ghost more: seq<bit>) returns (ok: bool, stored: uint32)
    requires r.Valid()
    modifies r
    ensures r.Valid()
    ensures r.Onward()
    ensures ok ==> old(r.Remaining()) == Bits(stored, 32) + r.Remaining()
    ensures old(r.Remaining()) == Bits(x, 32) + more ==> ok && stored == x && r.Remaining() == more
  {
    hide BitReader.Valid, BitReader.Remaining, BitReader.Delivered, Bits, Pow2;
    Pow2Values();
    stored := 0;
    var a, b, c, d;
    ok, a := r.GetBits(8);
    if !ok { return; }
    stored := AppendByteTo(stored, a);
    ok, b := r.GetBits(8);
    if !ok { return; }
    stored := AppendByteTo(stored, b);
    ok, c := r.GetBits(8);
    if !ok { return; }
    stored := AppendByteTo(stored, c);
    ok, d := r.GetBits(8);
    if !ok { return; }
    stored := AppendByteTo(stored, d);
    WordOfBytes(a, b, c, d, r.Remaining());
    if old(r.Remaining()) == Bits(x, 32) + more { SameStart(stored, x, 32, r.Remaining(), more); }
  }

  /** (stored << 8) | uc */
  function AppendByteTo(stored: uint32, uc: byte): (r: uint32)
    ensures stored < 0x100_0000 ==> r == stored * 0x100 + uc
  {
    stored % 0x100_0000 * 0x100 + uc
  }
}
