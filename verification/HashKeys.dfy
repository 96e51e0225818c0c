/** deflate.c: the running hash of three bytes. */
module HashKeys {
  /** hash_bits is memLevel + 7; hash_shift is the least with which the oldest of three bytes falls out. */
  datatype Hash = Hash(bits: nat, shift: nat)

  ghost predicate ProperHash(k: Hash) {
    8 <= k.bits <= 16 && k.shift == (k.bits + 2) / 3
  }

  function Size(k: Hash): (n: nat)
    ensures n >= 1
  {
    match k.bits
    case 8 => 0x100
    case 9 => 0x200
    case 10 => 0x400
    case 11 => 0x800
    case 12 => 0x1000
    case 13 => 0x2000
    case 14 => 0x4000
    case 15 => 0x8000
    case _ => 0x1_0000
  }

  function Mask(bits: nat): bv32
  {
    match bits
    case 8 => 0xff
    case 9 => 0x1ff
    case 10 => 0x3ff
    case 11 => 0x7ff
    case 12 => 0xfff
    case 13 => 0x1fff
    case 14 => 0x3fff
    case 15 => 0x7fff
    case _ => 0xffff
  }

  function Shifted(h: bv32, shift: nat): bv32 {
    match shift
    case 3 => h << 3
    case 4 => h << 4
    case 5 => h << 5
    case _ => h << 6
  }

  function Cut(x: bv32, m: bv32): bv32 {
    x & m
  }

  function Blend(x: bv32, c: bv32, m: bv32): bv32 {
    (x ^ c) & m
  }

  /** UPDATE_HASH */
  function Mix(k: Hash, h: bv32, c: bv32): bv32 {
    Blend(Shifted(h, k.shift), c, Mask(k.bits))
  }

  /** The key of three bytes, whatever the hash was before. */
  function Key3(k: Hash, a: bv32, b: bv32, c: bv32): bv32 {
    Mix(k, Mix(k, a, b), c)
  }

  lemma FallsOut8(a: bv32, b: bv32, c: bv32)
    ensures ((((((((a << 3) ^ b) & 0xff) << 3) ^ c) & 0xff) << 3) & 0xff) == ((((b << 3) ^ c) & 0xff) << 3) & 0xff
  {
  }

  lemma FallsOut9(a: bv32, b: bv32, c: bv32)
    ensures ((((((((a << 3) ^ b) & 0x1ff) << 3) ^ c) & 0x1ff) << 3) & 0x1ff) == ((((b << 3) ^ c) & 0x1ff) << 3) & 0x1ff
  {
  }

  lemma FallsOut10(a: bv32, b: bv32, c: bv32)
    ensures ((((((((a << 4) ^ b) & 0x3ff) << 4) ^ c) & 0x3ff) << 4) & 0x3ff) == ((((b << 4) ^ c) & 0x3ff) << 4) & 0x3ff
  {
  }

  lemma FallsOut11(a: bv32, b: bv32, c: bv32)
    ensures ((((((((a << 4) ^ b) & 0x7ff) << 4) ^ c) & 0x7ff) << 4) & 0x7ff) == ((((b << 4) ^ c) & 0x7ff) << 4) & 0x7ff
  {
  }

  lemma FallsOut12(a: bv32, b: bv32, c: bv32)
    ensures ((((((((a << 4) ^ b) & 0xfff) << 4) ^ c) & 0xfff) << 4) & 0xfff) == ((((b << 4) ^ c) & 0xfff) << 4) & 0xfff
  {
  }

  lemma FallsOut13(a: bv32, b: bv32, c: bv32)
    ensures ((((((((a << 5) ^ b) & 0x1fff) << 5) ^ c) & 0x1fff) << 5) & 0x1fff) ==
      ((((b << 5) ^ c) & 0x1fff) << 5) & 0x1fff
  {
  }

  lemma FallsOut14(a: bv32, b: bv32, c: bv32)
    ensures ((((((((a << 5) ^ b) & 0x3fff) << 5) ^ c) & 0x3fff) << 5) & 0x3fff) ==
      ((((b << 5) ^ c) & 0x3fff) << 5) & 0x3fff
  {
  }

  lemma FallsOut15(a: bv32, b: bv32, c: bv32)
    ensures ((((((((a << 5) ^ b) & 0x7fff) << 5) ^ c) & 0x7fff) << 5) & 0x7fff) ==
      ((((b << 5) ^ c) & 0x7fff) << 5) & 0x7fff
  {
  }

  lemma FallsOut16(a: bv32, b: bv32, c: bv32)
    ensures ((((((((a << 6) ^ b) & 0xffff) << 6) ^ c) & 0xffff) << 6) & 0xffff) ==
      ((((b << 6) ^ c) & 0xffff) << 6) & 0xffff
  {
  }

  lemma OldFallsOut8(k: Hash, a: bv32, b: bv32, c: bv32)
    requires k.bits == 8 && k.shift == 3
    ensures Cut(Shifted(Key3(k, a, b, c), k.shift), Mask(k.bits)) == Cut(Shifted(Mix(k, b, c), k.shift), Mask(k.bits))
  {
    FallsOut8(a, b, c);
  }

  lemma OldFallsOut9(k: Hash, a: bv32, b: bv32, c: bv32)
    requires k.bits == 9 && k.shift == 3
    ensures Cut(Shifted(Key3(k, a, b, c), k.shift), Mask(k.bits)) == Cut(Shifted(Mix(k, b, c), k.shift), Mask(k.bits))
  {
    FallsOut9(a, b, c);
  }

  lemma OldFallsOut10(k: Hash, a: bv32, b: bv32, c: bv32)
    requires k.bits == 10 && k.shift == 4
    ensures Cut(Shifted(Key3(k, a, b, c), k.shift), Mask(k.bits)) == Cut(Shifted(Mix(k, b, c), k.shift), Mask(k.bits))
  {
    FallsOut10(a, b, c);
  }

  lemma OldFallsOut11(k: Hash, a: bv32, b: bv32, c: bv32)
    requires k.bits == 11 && k.shift == 4
    ensures Cut(Shifted(Key3(k, a, b, c), k.shift), Mask(k.bits)) == Cut(Shifted(Mix(k, b, c), k.shift), Mask(k.bits))
  {
    FallsOut11(a, b, c);
  }

  lemma OldFallsOut12(k: Hash, a: bv32, b: bv32, c: bv32)
    requires k.bits == 12 && k.shift == 4
    ensures Cut(Shifted(Key3(k, a, b, c), k.shift), Mask(k.bits)) == Cut(Shifted(Mix(k, b, c), k.shift), Mask(k.bits))
  {
    FallsOut12(a, b, c);
  }

  lemma OldFallsOut13(k: Hash, a: bv32, b: bv32, c: bv32)
    requires k.bits == 13 && k.shift == 5
    ensures Cut(Shifted(Key3(k, a, b, c), k.shift), Mask(k.bits)) == Cut(Shifted(Mix(k, b, c), k.shift), Mask(k.bits))
  {
    FallsOut13(a, b, c);
  }

  lemma OldFallsOut14(k: Hash, a: bv32, b: bv32, c: bv32)
    requires k.bits == 14 && k.shift == 5
    ensures Cut(Shifted(Key3(k, a, b, c), k.shift), Mask(k.bits)) == Cut(Shifted(Mix(k, b, c), k.shift), Mask(k.bits))
  {
    FallsOut14(a, b, c);
  }

  lemma OldFallsOut15(k: Hash, a: bv32, b: bv32, c: bv32)
    requires k.bits == 15 && k.shift == 5
    ensures Cut(Shifted(Key3(k, a, b, c), k.shift), Mask(k.bits)) == Cut(Shifted(Mix(k, b, c), k.shift), Mask(k.bits))
  {
    FallsOut15(a, b, c);
  }

  lemma OldFallsOut16(k: Hash, a: bv32, b: bv32, c: bv32)
    requires k.bits == 16 && k.shift == 6
    ensures Cut(Shifted(Key3(k, a, b, c), k.shift), Mask(k.bits)) == Cut(Shifted(Mix(k, b, c), k.shift), Mask(k.bits))
  {
    FallsOut16(a, b, c);
  }

  lemma OldFallsOut(k: Hash, a: bv32, b: bv32, c: bv32)
    requires ProperHash(k)
    ensures Cut(Shifted(Key3(k, a, b, c), k.shift), Mask(k.bits)) == Cut(Shifted(Mix(k, b, c), k.shift), Mask(k.bits))
  {
    hide Cut, Shifted, Key3, Mask, Mix;
    if k.bits == 8 {
      OldFallsOut8(k, a, b, c);
    } else if k.bits == 9 {
      OldFallsOut9(k, a, b, c);
    } else if k.bits == 10 {
      OldFallsOut10(k, a, b, c);
    } else if k.bits == 11 {
      OldFallsOut11(k, a, b, c);
    } else if k.bits == 12 {
      OldFallsOut12(k, a, b, c);
    } else if k.bits == 13 {
      OldFallsOut13(k, a, b, c);
    } else if k.bits == 14 {
      OldFallsOut14(k, a, b, c);
    } else if k.bits == 15 {
      OldFallsOut15(k, a, b, c);
    } else if k.bits == 16 {
      OldFallsOut16(k, a, b, c);
    }
  }

  lemma LastByteDecides(k: Hash, h: bv32, c: bv32, d: bv32)
    requires ProperHash(k) && c <= 0xff && d <= 0xff && Mix(k, h, c) == Mix(k, h, d)
    ensures c == d
  {
  }

  function High(h: bv32): bv8 {
    ((h >> 8) & 0xff) as bv8
  }

  function Low(h: bv32): bv8 {
    (h & 0xff) as bv8
  }

  function Number(x: bv8): (n: nat)
    ensures n < 256
  {
    x as nat
  }

  /** A key of at most 16 bits as an index into head. */
  function Slot(h: bv32): nat {
    256 * Number(High(h)) + Number(Low(h))
  }

  lemma ByteDecides(x: bv8, y: bv8)
    requires Number(x) == Number(y)
    ensures x == y
  {
  }

  lemma BytesDecide(h: bv32, h': bv32)
    requires h <= 0xffff && h' <= 0xffff && High(h) == High(h') && Low(h) == Low(h')
    ensures h == h'
  {
  }

  lemma SlotDecides(h: bv32, h': bv32)
    requires h <= 0xffff && h' <= 0xffff && Slot(h) == Slot(h')
    ensures h == h'
  {
    hide High, Low, Number;
    ByteDecides(High(h), High(h'));
    ByteDecides(Low(h), Low(h'));
    BytesDecide(h, h');
  }

  lemma Small8(h: bv32)
    requires h <= 0xff
    ensures Slot(h) < 256
  {
    assert High(h) <= 0x0;
  }

  lemma Small9(h: bv32)
    requires h <= 0x1ff
    ensures Slot(h) < 512
  {
    assert High(h) <= 0x1;
  }

  lemma Small10(h: bv32)
    requires h <= 0x3ff
    ensures Slot(h) < 1024
  {
    assert High(h) <= 0x3;
  }

  lemma Small11(h: bv32)
    requires h <= 0x7ff
    ensures Slot(h) < 2048
  {
    assert High(h) <= 0x7;
  }

  lemma Small12(h: bv32)
    requires h <= 0xfff
    ensures Slot(h) < 4096
  {
    assert High(h) <= 0xf;
  }

  lemma Small13(h: bv32)
    requires h <= 0x1fff
    ensures Slot(h) < 8192
  {
    assert High(h) <= 0x1f;
  }

  lemma Small14(h: bv32)
    requires h <= 0x3fff
    ensures Slot(h) < 16384
  {
    assert High(h) <= 0x3f;
  }

  lemma Small15(h: bv32)
    requires h <= 0x7fff
    ensures Slot(h) < 32768
  {
    assert High(h) <= 0x7f;
  }

  lemma Small16(h: bv32)
    requires h <= 0xffff
    ensures Slot(h) < 65536
  {
    assert High(h) <= 0xff;
  }

  lemma SlotInRange(k: Hash, h: bv32)
    requires ProperHash(k) && h <= Mask(k.bits)
    ensures Slot(h) < Size(k)
  {
    hide Slot;
    if k.bits == 8 {
      Small8(h);
    } else if k.bits == 9 {
      Small9(h);
    } else if k.bits == 10 {
      Small10(h);
    } else if k.bits == 11 {
      Small11(h);
    } else if k.bits == 12 {
      Small12(h);
    } else if k.bits == 13 {
      Small13(h);
    } else if k.bits == 14 {
      Small14(h);
    } else if k.bits == 15 {
      Small15(h);
    } else if k.bits == 16 {
      Small16(h);
    }
  }

  lemma Masked(x: bv32, m: bv32)
    ensures x & m <= m
  {
  }

  /** The index of the chain that a string beginning with these bytes belongs to. */
  function Chain(k: Hash, a: bv8, b: bv8, c: bv8): nat {
    Slot(Key3(k, a as bv32, b as bv32, c as bv32))
  }

  /** ins_h lacks only the byte after a and b. */
  ghost predicate Ready(k: Hash, h: bv32, a: bv8, b: bv8) {
    Cut(Shifted(h, k.shift), Mask(k.bits)) == Cut(Shifted(Mix(k, a as bv32, b as bv32), k.shift), Mask(k.bits))
  }

  lemma MaskedXor(x: bv32, y: bv32, c: bv32, m: bv32)
    requires Cut(x, m) == Cut(y, m)
    ensures Blend(x, c, m) == Blend(y, c, m)
  {
  }

  lemma MaskSmall(bits: nat)
    ensures Mask(bits) <= 0xffff
  {
  }

  lemma KeySmall(k: Hash, h: bv32, c: bv32)
    ensures Mix(k, h, c) <= Mask(k.bits) <= 0xffff
  {
    Masked(Shifted(h, k.shift) ^ c, Mask(k.bits));
    MaskSmall(k.bits);
  }

  lemma ReadyStarts(k: Hash, a: bv8, b: bv8)
    ensures Ready(k, Mix(k, a as bv32, b as bv32), a, b)
  {
  }

  /** Mixing in the third byte gives the chain of the three, and is ready for the next one. */
  lemma MixGivesChain(k: Hash, h: bv32, a: bv8, b: bv8, c: bv8)
    requires ProperHash(k) && Ready(k, h, a, b)
    ensures Slot(Mix(k, h, c as bv32)) == Chain(k, a, b, c) < Size(k)
    ensures Ready(k, Mix(k, h, c as bv32), b, c)
  {
    hide Shifted, Mask, Slot, Cut, Blend;
    MixIsKey(k, h, a, b, c);
    OldFallsOut(k, a as bv32, b as bv32, c as bv32);
    KeySmall(k, h, c as bv32);
    SlotInRange(k, Mix(k, h, c as bv32));
  }

  lemma MixIsKey(k: Hash, h: bv32, a: bv8, b: bv8, c: bv8)
    requires Ready(k, h, a, b)
    ensures Mix(k, h, c as bv32) == Key3(k, a as bv32, b as bv32, c as bv32)
  {
    hide Shifted, Mask, Cut, Blend;
    MaskedXor(Shifted(h, k.shift), Shifted(Mix(k, a as bv32, b as bv32), k.shift), c as bv32, Mask(k.bits));
  }

  /** Strings on one chain that agree in two bytes agree in the third. */
  lemma ThirdByte(k: Hash, a: bv8, b: bv8, c: bv8, d: bv8)
    requires ProperHash(k) && Chain(k, a, b, c) == Chain(k, a, b, d)
    ensures c == d
  {
    hide Slot, Mix;
    var h := Mix(k, a as bv32, b as bv32);
    KeySmall(k, h, c as bv32);
    KeySmall(k, h, d as bv32);
    SlotDecides(Mix(k, h, c as bv32), Mix(k, h, d as bv32));
    WideSmall(c);
    WideSmall(d);
    LastByteDecides(k, h, c as bv32, d as bv32);
    WideDecides(c, d);
  }

  lemma WideSmall(c: bv8)
    ensures c as bv32 <= 0xff
  {
  }

  lemma WideDecides(c: bv8, d: bv8)
    requires c as bv32 == d as bv32
    ensures c == d
  {
  }
}
