/** The block data: symbols in groups of 50, each group coded with the table its selector names. */
module CodedSymbols {
  import opened Bytes
  import opened BitStrings
  import opened BitIo
  import opened HuffmanCodes

  const G_SIZE := 50

  /** The decoding tables of one code, as BZ2_hbCreateDecodeTables leaves them. */
  datatype Table = Table(limit: seq<int>, base: seq<int>, perm: seq<int>, minLen: int)

  /** Code lengths for alphaSize symbols that a decoder can work with. */
  ghost predicate GoodLengths(len: seq<int>, alphaSize: int) {
    && 0 < |len| == alphaSize <= 258 && forall i :: 0 <= i < |len| ==> 1 <= len[i] <= 20
  }

  /** One code for every selector value. */
  ghost predicate GoodCoding(lens: seq<seq<int>>, sel: seq<int>, alphaSize: int) {
    && (forall t :: 0 <= t < |lens| ==> GoodLengths(lens[t], alphaSize))
    && (forall i :: 0 <= i < |sel| ==> 0 <= sel[i] < |lens|)
  }

  ghost predicate TableFor(t: Table, len: seq<int>, maxLen: int) {
    Tables(t.limit, t.base, t.perm, len, t.minLen, maxLen)
  }

  /** The code of symbol number k. */
  ghost function LenFor(lens: seq<seq<int>>, sel: seq<int>, k: nat): seq<int>
    requires k / G_SIZE < |sel| && 0 <= sel[k / G_SIZE] < |lens|
  {
    lens[sel[k / G_SIZE]]
  }

  /** Enough selectors for n symbols, and all symbols have codes. */
  ghost predicate Codable(lens: seq<seq<int>>, sel: seq<int>, alphaSize: int, syms: seq<int>) {
    && GoodCoding(lens, sel, alphaSize) && |syms| <= G_SIZE * |sel|
    && forall i :: 0 <= i < |syms| ==> 0 <= syms[i] < alphaSize
  }

  ghost function OneSymbol(lens: seq<seq<int>>, sel: seq<int>, alphaSize: int, syms: seq<int>, k: nat): seq<bit>
    requires Codable(lens, sel, alphaSize, syms) && k < |syms|
  {
    assert GoodLengths(LenFor(lens, sel, k), alphaSize);
    CodeBits(LenFor(lens, sel, k), syms[k])
  }

  /** The bits of the first k symbols. */
  ghost function SymbolBits(lens: seq<seq<int>>, sel: seq<int>, alphaSize: int, syms: seq<int>, k: nat): seq<bit>
    requires Codable(lens, sel, alphaSize, syms) && k <= |syms|
  {
    if k == 0 then [] else SymbolBits(lens, sel, alphaSize, syms, k - 1) + OneSymbol(lens, sel, alphaSize, syms, k - 1)
  }

  /** Symbol s starts the bits. */
  ghost predicate IsNext(len: seq<int>, s: int, bits: seq<bit>) {
    HasCode(len, s) && len[s] > 0 && CodeBits(len, s) <= bits
  }

  /** All symbols that can be decoded from the bits, from symbol number k on. */
  ghost function SymbolsIn(bits: seq<bit>, lens: seq<seq<int>>, sel: seq<int>, k: nat): (r: seq<int>)
    requires forall i :: 0 <= i < |sel| ==> 0 <= sel[i] < |lens|
    decreases |bits|
  {
    if k / G_SIZE < |sel| && exists s :: IsNext(LenFor(lens, sel, k), s, bits) then
      var len := LenFor(lens, sel, k);
      var s :| IsNext(len, s, bits);
      [s] + SymbolsIn(bits[len[s]..], lens, sel, k + 1)
    else
      []
  }

  /** Only one symbol can be next. */
  lemma NextIsUnique(len: seq<int>, alphaSize: int, s: int, t: int, bits: seq<bit>)
    requires GoodLengths(len, alphaSize) && IsNext(len, s, bits) && IsNext(len, t, bits)
    ensures s == t
  {
    if len[s] <= len[t] {
      assert CodeBits(len, s) == bits[..len[s]] && CodeBits(len, t) == bits[..len[t]];
      assert bits[..len[s]] == bits[..len[t]][..len[s]];
      PrefixFree(len, s, t);
    } else {
      assert CodeBits(len, t) == bits[..len[t]] && CodeBits(len, s) == bits[..len[s]];
      assert bits[..len[t]] == bits[..len[s]][..len[t]];
      PrefixFree(len, t, s);
    }
  }

  lemma {:induction false} SymbolsInRange(bits: seq<bit>, lens: seq<seq<int>>, sel: seq<int>, k: nat, alphaSize: int,
        i: int)
    requires GoodCoding(lens, sel, alphaSize) && 0 <= i < |SymbolsIn(bits, lens, sel, k)|
    ensures 0 <= SymbolsIn(bits, lens, sel, k)[i] < alphaSize
    decreases i
  {
    var len := LenFor(lens, sel, k);
    var s :| IsNext(len, s, bits) && SymbolsIn(bits, lens, sel, k) == [s] + SymbolsIn(bits[len[s]..], lens, sel, k + 1);
    if i > 0 { SymbolsInRange(bits[len[s]..], lens, sel, k + 1, alphaSize, i - 1); }
  }

  /** What decoding the next symbol does to the symbols in the bits. */
  lemma FirstSymbol(bits: seq<bit>, rest: seq<bit>, lens: seq<seq<int>>, sel: seq<int>, k: nat, alphaSize: int, s: int)
    requires GoodCoding(lens, sel, alphaSize) && k / G_SIZE < |sel|
    requires IsNext(LenFor(lens, sel, k), s, bits) && bits == CodeBits(LenFor(lens, sel, k), s) + rest
    ensures SymbolsIn(bits, lens, sel, k) == [s] + SymbolsIn(rest, lens, sel, k + 1)
  {
    var len := LenFor(lens, sel, k);
    forall t | IsNext(len, t, bits) ensures t == s { NextIsUnique(len, alphaSize, s, t, bits); }
    assert bits[len[s]..] == rest;
  }

  lemma NoSymbol(bits: seq<bit>, lens: seq<seq<int>>, sel: seq<int>, k: nat)
    requires forall i :: 0 <= i < |sel| ==> 0 <= sel[i] < |lens|
    requires k / G_SIZE < |sel| ==> forall s :: !IsNext(LenFor(lens, sel, k), s, bits)
    ensures SymbolsIn(bits, lens, sel, k) == []
  {
  }

  /** The state of GET_MTF_VAL between uses. The ghost fields are the bits it started from and the
      symbols it has delivered. */
  class SymbolReader {
    const r: BitReader
    const tables: seq<Table>
    const selector: seq<int>
    var groupNo: int
    var groupPos: int
    ghost const lens: seq<seq<int>>
    ghost const maxLens: seq<int>
    ghost const alphaSize: int
    ghost const start: seq<bit>
    ghost const delivered: seq<byte>
    ghost const startAt: nat
    ghost var read: seq<int>

    ghost predicate Valid()
      reads this, r
    {
      && r.Valid() && r.Delivered() == delivered && r.at >= startAt && |tables| == |lens| == |maxLens| &&
         GoodCoding(lens, selector, alphaSize)
      && (forall t :: 0 <= t < |tables| ==> TableFor(tables[t], lens[t], maxLens[t]))
      && 0 <= groupPos < G_SIZE && -1 <= groupNo < |selector| && |read| == G_SIZE * groupNo + G_SIZE - groupPos
      && Codable(lens, selector, alphaSize, read)
      && start == SymbolBits(lens, selector, alphaSize, read, |read|) + r.Remaining()
    }

    /** What it will deliver. */
    ghost function Ahead(): seq<int>
      requires Valid()
      reads this, r
    {
      SymbolsIn(r.Remaining(), lens, selector, |read|)
    }

    /** What it has delivered and will deliver. */
    ghost function All(): seq<int>
      requires Valid()
      reads this, r
    {
      read + Ahead()
    }

    constructor (r: BitReader, tables: seq<Table>, selector: seq<int>, ghost lens: seq<seq<int>>,
          ghost maxLens: seq<int>, ghost alphaSize: int)
      requires r.Valid() && |tables| == |lens| == |maxLens| && GoodCoding(lens, selector, alphaSize)
      requires forall t :: 0 <= t < |tables| ==> TableFor(tables[t], lens[t], maxLens[t])
      ensures Valid() && this.r == r && this.lens == lens && this.selector == selector && this.alphaSize == alphaSize
      ensures start == r.Remaining() && delivered == r.Delivered() && startAt == r.at && read == []
    {
      this.r, this.tables, this.selector, this.lens, this.maxLens, this.alphaSize := r, tables, selector, lens, maxLens,
        alphaSize;
      groupNo, groupPos := -1, 0;
      start, delivered, startAt, read := r.Remaining(), r.Delivered(), r.at, [];
      new;
      assert [] + r.Remaining() == r.Remaining();
    }

    /** GET_MTF_VAL: deliver the next symbol, or fail because there is none: no selector is left,
        no code matches, or the input ends. */
    method GetMtfVal() returns (ok: bool, lval: int)
      requires Valid()
      modifies this, r
      ensures ok <==> |old(Ahead())| > 0
      ensures ok ==>
            Valid() && lval == old(Ahead())[0] && old(Ahead()) == [lval] + Ahead() && read == old(read) + [lval]
      ensures ok ==> 0 <= lval < alphaSize && r.Valid()
      ensures ok ==> All() == old(All())
    {
      hide GoodLengths, HasCode, Tables, CodeBits, Bits, SymbolsIn, SymbolBits, Codable, BitReader.Valid;
      hide BitReader.Remaining, BitReader.Delivered;
      ghost var bits, k := r.Remaining(), |read|;
      lval := 0;
      if groupPos == 0 {
        groupNo := groupNo + 1;
        if groupNo >= |selector| {
          NoSymbol(bits, lens, selector, k);
          return false, lval;
        }
        groupPos := G_SIZE;
      }
      assert k / G_SIZE == groupNo;
      groupPos := groupPos - 1;
      var gSel := selector[groupNo];
      ghost var len := lens[gSel];
      assert len == LenFor(lens, selector, k) && TableFor(tables[gSel], len, maxLens[gSel]);
      GoodTable(len, tables[gSel], maxLens[gSel], alphaSize);
      var res := GetSymbol(r, tables[gSel].limit, tables[gSel].base, tables[gSel].perm, tables[gSel].minLen, len,
                           maxLens[gSel]);
      if res.None? {
        NoSymbol(bits, lens, selector, k);
        return false, lval;
      }
      ok, lval := true, res.value;
      LengthPositive(len, alphaSize, lval);
      assert IsNext(len, lval, bits);
      FirstSymbol(bits, r.Remaining(), lens, selector, k, alphaSize, lval);
      OneMoreSymbol(lens, selector, alphaSize, read, lval, start, bits, r.Remaining());
      read := read + [lval];
      Associative(old(read), [lval], SymbolsIn(r.Remaining(), lens, selector, |read|));
    }

  }

  lemma GoodTable(len: seq<int>, t: Table, maxLen: int, alphaSize: int)
    requires TableFor(t, len, maxLen) && GoodLengths(len, alphaSize)
    ensures Tables(t.limit, t.base, t.perm, len, t.minLen, maxLen)
  {
  }

  lemma LengthPositive(len: seq<int>, alphaSize: int, s: int)
    requires GoodLengths(len, alphaSize) && HasCode(len, s)
    ensures len[s] > 0 && |len| == alphaSize && 0 <= s < alphaSize
  {
  }

  lemma {:induction false} SymbolBitsOfPrefix(lens: seq<seq<int>>, sel: seq<int>, alphaSize: int, syms: seq<int>,
        more: seq<int>, k: nat)
    requires Codable(lens, sel, alphaSize, syms + more) && k <= |syms|
    ensures Codable(lens, sel, alphaSize, syms)
    ensures SymbolBits(lens, sel, alphaSize, syms, k) == SymbolBits(lens, sel, alphaSize, syms + more, k)
    decreases k
  {
    var all := syms + more;
    forall i | 0 <= i < |syms| ensures 0 <= syms[i] < alphaSize { assert syms[i] == all[i]; }
    if k > 0 { SymbolBitsOfPrefix(lens, sel, alphaSize, syms, more, k - 1); }
  }

  lemma OneMoreSymbol(lens: seq<seq<int>>, sel: seq<int>, alphaSize: int, read: seq<int>, s: int,
                      start: seq<bit>, bits: seq<bit>, rest: seq<bit>)
    requires Codable(lens, sel, alphaSize, read) && |read| / G_SIZE < |sel| && 0 <= s < alphaSize
    requires start == SymbolBits(lens, sel, alphaSize, read, |read|) + bits
    requires s < |LenFor(lens, sel, |read|)| && LenFor(lens, sel, |read|)[s] > 0
    requires bits == CodeBits(LenFor(lens, sel, |read|), s) + rest
    ensures Codable(lens, sel, alphaSize, read + [s])
    ensures start == SymbolBits(lens, sel, alphaSize, read + [s], |read| + 1) + rest
  {
    hide CodeBits;
    SymbolBitsOfPrefix(lens, sel, alphaSize, read, [s], |read|);
    Associative(SymbolBits(lens, sel, alphaSize, read, |read|), CodeBits(LenFor(lens, sel, |read|), s), rest);
  }

  /** All symbols have codes of their lengths. */
  ghost predicate AllCoded(lens: seq<seq<int>>, sel: seq<int>, alphaSize: int, syms: seq<int>) {
    && Codable(lens, sel, alphaSize, syms)
    && forall k :: 0 <= k < |syms| ==> HasCode(LenFor(lens, sel, k), syms[k])
  }

  /** The bits from symbol k on. */
  ghost function TailBits(lens: seq<seq<int>>, sel: seq<int>, alphaSize: int, syms: seq<int>, k: nat,
        rest: seq<bit>): seq<bit>
    requires Codable(lens, sel, alphaSize, syms) && k <= |syms|
    decreases |syms| - k
  {
    if k == |syms| then rest
    else OneSymbol(lens, sel, alphaSize, syms, k) + TailBits(lens, sel, alphaSize, syms, k + 1, rest)
  }

  lemma {:induction false} TailFollows(lens: seq<seq<int>>, sel: seq<int>, alphaSize: int, syms: seq<int>, k: nat,
        rest: seq<bit>)
    requires Codable(lens, sel, alphaSize, syms) && k <= |syms|
    ensures SymbolBits(lens, sel, alphaSize, syms, k) + TailBits(lens, sel, alphaSize, syms, k, rest)
         == SymbolBits(lens, sel, alphaSize, syms, |syms|) + rest
    decreases |syms| - k
  {
    hide OneSymbol, Codable;
    if k < |syms| {
      TailFollows(lens, sel, alphaSize, syms, k + 1, rest);
      Associative(SymbolBits(lens, sel, alphaSize, syms, k), OneSymbol(lens, sel, alphaSize, syms, k),
                  TailBits(lens, sel, alphaSize, syms, k + 1, rest));
    }
  }

  lemma {:induction false} TailDecodes(lens: seq<seq<int>>, sel: seq<int>, alphaSize: int, syms: seq<int>, k: nat,
        rest: seq<bit>)
    requires AllCoded(lens, sel, alphaSize, syms) && k <= |syms|
    ensures SymbolsIn(TailBits(lens, sel, alphaSize, syms, k, rest), lens, sel, k) == syms[k..] +
      SymbolsIn(rest, lens, sel, |syms|)
    decreases |syms| - k
  {
    hide SymbolsIn, CodeBits;
    var after := SymbolsIn(rest, lens, sel, |syms|);
    if k == |syms| {
      assert syms[k..] == [] && [] + after == after;
    } else {
      TailDecodes(lens, sel, alphaSize, syms, k + 1, rest);
      var len, tail := LenFor(lens, sel, k), TailBits(lens, sel, alphaSize, syms, k + 1, rest);
      assert GoodLengths(len, alphaSize);
      FirstSymbol(CodeBits(len, syms[k]) + tail, tail, lens, sel, k, alphaSize, syms[k]);
      assert syms[k..] == [syms[k]] + syms[k + 1..];
      Associative([syms[k]], syms[k + 1..], after);
    }
  }

  /** Decoding the coded symbols gives them back, whatever follows them. */
  lemma SymbolsRoundTrip(lens: seq<seq<int>>, sel: seq<int>, alphaSize: int, syms: seq<int>, rest: seq<bit>)
    requires AllCoded(lens, sel, alphaSize, syms)
    ensures SymbolsIn(SymbolBits(lens, sel, alphaSize, syms, |syms|) + rest, lens, sel, 0)
         == syms + SymbolsIn(rest, lens, sel, |syms|)
  {
    TailFollows(lens, sel, alphaSize, syms, 0, rest);
    TailDecodes(lens, sel, alphaSize, syms, 0, rest);
    var tail := TailBits(lens, sel, alphaSize, syms, 0, rest);
    assert [] + tail == tail && syms[0..] == syms;
  }
}
