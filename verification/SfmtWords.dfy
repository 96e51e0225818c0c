/** SFMT-common.h: 128-bit words and the step of the recurrence on them. */
module SfmtWords {
  import opened Words

  /** w128_t, as four 32-bit words. */
  datatype W128 = W128(u0: bv32, u1: bv32, u2: bv32, u3: bv32) {
    function U(k: nat): bv32
      requires k < 4
    {
      if k == 0 then u0 else if k == 1 then u1 else if k == 2 then u2 else u3
    }
  }

  /** The parameters of SFMT-params.h. */
  datatype Params = Params(n: nat, pos1: nat, sl1: bv6, sl2: bv6, sr1: bv6, sr2: bv6, msk: W128, parity: W128)

  ghost predicate Proper(p: Params) {
    3 <= p.n && 0 < p.pos1 < p.n && ProperShifts(p)
  }

  ghost predicate ProperShifts(p: Params) {
    0 < p.sl2 < 8 && 0 < p.sr2 < 8 && p.sl1 < 32 && p.sr1 < 32
  }

  function Join(high: bv32, low: bv32): bv64 {
    ((high as bv64) << 32) | (low as bv64)
  }

  function Split(h: bv64, l: bv64): W128 {
    W128((l & 0xffff_ffff) as bv32, (l >> 32) as bv32, (h & 0xffff_ffff) as bv32, (h >> 32) as bv32)
  }

  /** The 128-bit number shifted left by 8 * shift bits. */
  function LShift128(x: W128, shift: bv6): W128
    requires 0 < shift < 8
  {
    var th, tl := Join(x.u3, x.u2), Join(x.u1, x.u0);
    var n := shift * 8;
    Split((th << n) | (tl >> (64 - n as bv7)), tl << n)
  }

  function RShift128(x: W128, shift: bv6): W128
    requires 0 < shift < 8
  {
    var th, tl := Join(x.u3, x.u2), Join(x.u1, x.u0);
    var n := shift * 8;
    Split(th >> n, (tl >> n) | (th << (64 - n as bv7)))
  }

  /** One 32-bit word of do_recursion. */
  function Mix(p: Params, m: bv32, a: bv32, x: bv32, b: bv32, y: bv32, d: bv32): bv32
    requires ProperShifts(p)
  {
    Xor(Xor(Xor(Xor(a, x), And(Right(b, p.sr1), m)), y), LeftBy(d, p.sl1))
  }

  /** do_recursion */
  function DoRecursion(p: Params, a: W128, b: W128, c: W128, d: W128): W128
    requires Proper(p)
  {
    var x, y := LShift128(a, p.sl2), RShift128(c, p.sr2);
    W128(Mix(p, p.msk.u0, a.u0, x.u0, b.u0, y.u0, d.u0), Mix(p, p.msk.u1, a.u1, x.u1, b.u1, y.u1, d.u1),
         Mix(p, p.msk.u2, a.u2, x.u2, b.u2, y.u2, d.u2), Mix(p, p.msk.u3, a.u3, x.u3, b.u3, y.u3, d.u3))
  }
}
