/** The bits that stand for literals and matches (section 3.2.5 of RFC 1951), from the encoding side, and
    the decoding tables for a code. */
module InflateCodes {
  import opened BitSlices
  import opened Bytes
  import opened InflateTables
  import opened Lz77

  type bit = x: int | 0 <= x < 2

  // Bits in the order in which they come

  /** The number that has these bits, the first one lowest. */
  ghost function Packed(s: seq<bit>): (v: nat)
    ensures v < Pow2(|s|)
  {
    if |s| == 0 then 0 else s[0] + 2 * Packed(s[1..])
  }

  /** The lowest n bits of v, the lowest first. */
  ghost function Lowest(v: nat, n: nat): (s: seq<bit>)
    ensures |s| == n
  {
    if n == 0 then [] else [v % 2] + Lowest(v / 2, n - 1)
  }

  lemma {:induction false} PackedLowest(v: nat, n: nat)
    requires v < Pow2(n)
    ensures Packed(Lowest(v, n)) == v
  {
    if n > 0 {
      PackedLowest(v / 2, n - 1);
    }
  }

  lemma {:induction false} PackedConcat(s: seq<bit>, t: seq<bit>)
    ensures Packed(s + t) == Packed(s) + Pow2(|s|) * Packed(t)
  {
    if |s| == 0 {
      assert s + t == t;
    } else {
      PackedConcat(s[1..], t);
      assert (s + t)[1..] == s[1..] + t;
      Distributes(2, Packed(s[1..]), Pow2(|s| - 1) * Packed(t));
      Associates(2, Pow2(|s| - 1), Packed(t));
    }
  }

  /** The bits of x from bit c on begin with s. */
  ghost predicate Begins(x: nat, c: nat, s: seq<bit>) {
    Slice(x, c, |s|) == Packed(s)
  }

  lemma BeginsBoth(x: nat, c: nat, s: seq<bit>, t: seq<bit>)
    requires Begins(x, c, s + t)
    ensures Begins(x, c, s) && Begins(x, c + |s|, t)
  {
    hide Pow2, Slice, Packed;
    PackedConcat(s, t);
    SliceSplits(x, c, |s|, |t|);
    QuotientIs(Packed(s + t), Pow2(|s|), Packed(t), Packed(s));
  }

  lemma BeginsAfter(before: seq<bit>, s: seq<bit>, rest: seq<bit>)
    ensures Begins(Packed(before + (s + rest)), |before|, s)
  {
    hide Pow2, Slice, Packed;
    var x := Packed(before + (s + rest));
    PackedConcat(before, s + rest);
    PackedConcat(s, rest);
    QuotientIs(x, Pow2(|before|), Packed(s + rest), Packed(before));
    QuotientIs(Packed(s + rest), Pow2(|s|), Packed(rest), Packed(s));
    SliceIs(x, |before|, |s|);
  }

  lemma SliceIs(x: nat, c: nat, n: nat)
    ensures Slice(x, c, n) == x / Pow2(c) % Pow2(n)
  {
  }

  // Lengths and distances

  /** lbase */
  function LenBases(): (r: seq<nat>)
    ensures |r| == 29 && r[0] == MIN_MATCH
  {
    [3, 4, 5, 6, 7, 8, 9, 10, 11, 13, 15, 17, 19, 23, 27, 31, 35, 43, 51, 59, 67, 83, 99, 115, 131, 163, 195, 227, 258]
  }

  /** The low bits of lext. */
  function LenExtras(): (r: seq<nat>)
    ensures |r| == 29
  {
    [0, 0, 0, 0, 0, 0, 0, 0, 1, 1, 1, 1, 2, 2, 2, 2, 3, 3, 3, 3, 4, 4, 4, 4, 5, 5, 5, 5, 0]
  }

  /** dbase */
  function DistBases(): (r: seq<nat>)
    ensures |r| == 30 && r[0] == 1
  {
    [1, 2, 3, 4, 5, 7, 9, 13, 17, 25, 33, 49, 65, 97, 129, 193, 257, 385, 513, 769, 1025, 1537, 2049, 3073, 4097, 6145,
     8193, 12289, 16385, 24577]
  }

  /** The low bits of dext. */
  function DistExtras(): (r: seq<nat>)
    ensures |r| == 30
  {
    [0, 0, 0, 0, 1, 1, 2, 2, 3, 3, 4, 4, 5, 5, 6, 6, 7, 7, 8, 8, 9, 9, 10, 10, 11, 11, 12, 12, 13, 13]
  }

  const END := 256

  /** The last of the first n bases that is not above v. */
  ghost function LastBase(base: seq<nat>, n: nat, v: nat): (k: nat)
    requires 0 < n <= |base| && base[0] <= v
    ensures k < n && base[k] <= v && (k + 1 < n ==> v < base[k + 1])
  {
    if base[n - 1] <= v then n - 1 else LastBase(base, n - 1, v)
  }

  /** No gap between one base and the next but what the extra bits fill. */
  ghost predicate ReachesAt(base: seq<nat>, extra: seq<nat>, most: nat, k: nat)
    requires k < |base| == |extra|
  {
    (if k + 1 < |base| then base[k + 1] else most + 1) <= base[k] + Pow2(extra[k]) && extra[k] < 16
  }

  ghost predicate Reaches(base: seq<nat>, extra: seq<nat>, most: nat) {
    |base| == |extra| > 0 && forall k :: 0 <= k < |base| ==> ReachesAt(base, extra, most, k)
  }

  lemma LengthsReachAt(k: nat)
    requires k < 29
    ensures ReachesAt(LenBases(), LenExtras(), MAX_MATCH, k)
  {
    hide ReachesAt;
    if k < 15 { LowLengthsReach(k); } else { HighLengthsReach(k); }
  }

  lemma LowLengthsReach(k: nat)
    requires k < 15
    ensures ReachesAt(LenBases(), LenExtras(), MAX_MATCH, k)
  {
    hide Pow2;
    SmallPowers();
  }

  lemma HighLengthsReach(k: nat)
    requires 15 <= k < 29
    ensures ReachesAt(LenBases(), LenExtras(), MAX_MATCH, k)
  {
    hide Pow2;
    SmallPowers();
  }

  lemma LengthsReach()
    ensures Reaches(LenBases(), LenExtras(), MAX_MATCH)
  {
    hide ReachesAt, LenBases, LenExtras;
    forall k | 0 <= k < 29 ensures ReachesAt(LenBases(), LenExtras(), MAX_MATCH, k) {
      LengthsReachAt(k);
    }
  }

  lemma DistancesReachAt(k: nat)
    requires k < 30
    ensures ReachesAt(DistBases(), DistExtras(), 0x8000, k)
  {
    hide ReachesAt;
    if k < 15 { LowDistancesReach(k); } else { HighDistancesReach(k); }
  }

  lemma LowDistancesReach(k: nat)
    requires k < 15
    ensures ReachesAt(DistBases(), DistExtras(), 0x8000, k)
  {
    hide Pow2;
    SmallPowers();
  }

  lemma HighDistancesReach(k: nat)
    requires 15 <= k < 30
    ensures ReachesAt(DistBases(), DistExtras(), 0x8000, k)
  {
    hide Pow2;
    SmallPowers();
  }

  lemma DistancesReach()
    ensures Reaches(DistBases(), DistExtras(), 0x8000)
  {
    hide ReachesAt, DistBases, DistExtras;
    forall k | 0 <= k < 30 ensures ReachesAt(DistBases(), DistExtras(), 0x8000, k) {
      DistancesReachAt(k);
    }
  }

  lemma SmallPowers()
    ensures Pow2(0) == 1 && Pow2(1) == 2 && Pow2(2) == 4 && Pow2(3) == 8 && Pow2(4) == 16 && Pow2(5) == 32
    ensures Pow2(6) == 64 && Pow2(7) == 128 && Pow2(8) == 256 && Pow2(9) == 512 && Pow2(10) == 1024
    ensures Pow2(11) == 2048 && Pow2(12) == 4096 && Pow2(13) == 8192
  {
  }

  /** The extra bits that v takes behind its base. */
  lemma ExtraFits(base: seq<nat>, extra: seq<nat>, most: nat, v: nat)
    requires Reaches(base, extra, most) && base[0] <= v <= most
    ensures var k := LastBase(base, |base|, v); v - base[k] < Pow2(extra[k]) && extra[k] < 16
  {
    hide Pow2, LastBase;
    var k := LastBase(base, |base|, v);
    assert ReachesAt(base, extra, most, k);
  }

  ghost function LenSymbol(len: nat): (k: nat)
    requires MIN_MATCH <= len
    ensures k < 29
  {
    LastBase(LenBases(), 29, len)
  }

  ghost function DistSymbol(dist: nat): (k: nat)
    requires 1 <= dist
    ensures k < 30
  {
    LastBase(DistBases(), 30, dist)
  }

  function LenBase(s: nat): nat
    requires s < 29
  {
    LenBases()[s]
  }

  function LenExtra(s: nat): nat
    requires s < 29
  {
    LenExtras()[s]
  }

  function DistBase(s: nat): nat
    requires s < 30
  {
    DistBases()[s]
  }

  function DistExtra(s: nat): nat
    requires s < 30
  {
    DistExtras()[s]
  }

  /** Every length is the base of its symbol and a number that fits the extra bits. */
  lemma LengthFits(len: nat)
    requires MIN_MATCH <= len <= MAX_MATCH
    ensures var s := LenSymbol(len); LenBase(s) <= len && len - LenBase(s) < Pow2(LenExtra(s)) && LenExtra(s) < 16
  {
    hide Pow2, Reaches, LastBase, LenBases, LenExtras;
    LengthsReach();
    ExtraFits(LenBases(), LenExtras(), MAX_MATCH, len);
  }

  lemma DistanceFits(dist: nat)
    requires 1 <= dist <= 0x8000
    ensures var s := DistSymbol(dist);
            DistBase(s) <= dist && dist - DistBase(s) < Pow2(DistExtra(s)) && DistExtra(s) < 16
  {
    hide Pow2, Reaches, LastBase, DistBases, DistExtras;
    DistancesReach();
    ExtraFits(DistBases(), DistExtras(), 0x8000, dist);
  }

  // Codes, and the bits of tokens

  /** The code words of the 286 literal and length symbols and of the 30 distance symbols; one that is not
      used has none. */
  datatype Codes = Codes(lit: seq<seq<bit>>, dist: seq<seq<bit>>)

  ghost predicate ProperCodes(k: Codes) {
    |k.lit| == 286 && |k.dist| == 30 && k.lit[END] != []
  }

  /** The token has code words. */
  ghost predicate Coded(k: Codes, t: Token)
    requires ProperCodes(k)
  {
    match t
    case Literal(c) => k.lit[c as int] != []
    case Match(dist, len) =>
      && MIN_MATCH <= len <= MAX_MATCH && 1 <= dist <= 0x8000
      && k.lit[END + 1 + LenSymbol(len)] != [] && k.dist[DistSymbol(dist)] != []
  }

  ghost predicate AllCoded(k: Codes, tokens: seq<Token>)
    requires ProperCodes(k)
  {
    forall i :: 0 <= i < |tokens| ==> Coded(k, tokens[i])
  }

  /** A length: its symbol and its extra bits. */
  ghost function LenBits(k: Codes, len: nat): seq<bit>
    requires ProperCodes(k) && MIN_MATCH <= len
  {
    var s := LenSymbol(len);
    k.lit[END + 1 + s] + Lowest(len - LenBase(s), LenExtra(s))
  }

  ghost function DistBits(k: Codes, dist: nat): seq<bit>
    requires ProperCodes(k) && 1 <= dist
  {
    var s := DistSymbol(dist);
    k.dist[s] + Lowest(dist - DistBase(s), DistExtra(s))
  }

  ghost function TokenBits(k: Codes, t: Token): seq<bit>
    requires ProperCodes(k) && Coded(k, t)
  {
    match t
    case Literal(c) => k.lit[c as int]
    case Match(dist, len) => LenBits(k, len) + DistBits(k, dist)
  }

  ghost function TokensBits(k: Codes, tokens: seq<Token>): seq<bit>
    requires ProperCodes(k) && AllCoded(k, tokens)
  {
    if |tokens| == 0 then [] else TokensBits(k, tokens[..|tokens| - 1]) + TokenBits(k, tokens[|tokens| - 1])
  }

  /** The tokens and the end-of-block code. */
  ghost function BlockBits(k: Codes, tokens: seq<Token>): seq<bit>
    requires ProperCodes(k) && AllCoded(k, tokens)
  {
    TokensBits(k, tokens) + k.lit[END]
  }

  // Tables for a code

  /** The entries for a code word: all whose index begins with it, in the first table, or in the second one
      that its first root bits lead to. */
  ghost predicate Holds(t: seq<Code>, root: nat, w: seq<bit>, op: nat, val: nat)
    requires Pow2(root) <= |t|
  {
    var n, v := |w|, Packed(w);
    if n <= root then forall i :: 0 <= i < Pow2(root) && i % Pow2(n) == v ==> t[i] == Code(op, n, val)
    else
      var e := t[v % Pow2(root)];
      && IsLink(e) && e.bits == root && n - root <= e.op && e.val + Pow2(e.op) <= |t|
      && forall i :: e.val <= i < e.val + Pow2(e.op) && (i - e.val) % Pow2(n - root) == v / Pow2(root) ==>
           t[i] == Code(op, n - root, val)
  }

  function LitOp(s: nat): nat
    requires s < 286
  {
    if s < END then 0 else if s == END then 96 else 16 + LenExtra(s - END - 1)
  }

  function LitVal(s: nat): nat
    requires s < 286
  {
    if s < END then s else if s == END then 0 else LenBase(s - END - 1)
  }

  ghost predicate TablesFor(t: Tables, k: Codes) {
    && ProperTables(t) && ProperCodes(k)
    && (forall s :: 0 <= s < 286 && k.lit[s] != [] ==> Holds(t.lcode, t.lenbits, k.lit[s], LitOp(s), LitVal(s)))
    && forall s :: 0 <= s < 30 && k.dist[s] != [] ==>
         Holds(t.dcode, t.distbits, k.dist[s], 16 + DistExtra(s), DistBase(s))
  }

  /** A code word that comes next is found. */
  lemma FindsWord(t: seq<Code>, root: nat, least: nat, maxExtra: nat, most: nat, w: seq<bit>, op: nat, val: nat, x: nat,
        c: nat)
    requires ProperTable(t, root, least, maxExtra, most) && Holds(t, root, w, op, val) && Begins(x, c, w)
    requires op == 0 || (op / 16) % 2 == 1 || (op / 64) % 2 == 1
    ensures var (e, c') := Decode(t, root, x, c, least, maxExtra, most); e.op == op && e.val == val && c' == c + |w|
  {
    hide Pow2, Slice, Packed;
    var n := |w|;
    var i := Slice(x, c, root);
    assert Entry(t, t[i], least, maxExtra, most);
    if n <= root {
      SliceSplits(x, c, n, root - n);
    } else {
      SliceSplits(x, c, root, n - root);
      var e := t[i];
      SliceSplits(x, c + root, n - root, e.op - (n - root));
      var j := Slice(x, c + root, e.op);
      assert j % Pow2(n - root) == Packed(w) / Pow2(root);
    }
  }
}
