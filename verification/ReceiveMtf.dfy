/** What BZ2_decompress receives before the symbols of a block: the counterpart of sendMTFValues. */
module ReceiveMtf {
  import opened Bytes
  import opened BitStrings
  import opened BitIo
  import opened ByteMaps
  import opened HuffmanCodes
  import opened CodedSymbols
  import opened SendMtf
  import MtfCoding
  import MappingTable
  import Selectors
  import CodeTables

  /** Create the Huffman decoding tables. */
  method MakeDecodeTables(lens: seq<seq<int>>, alphaSize: int) returns (tables: seq<Table>, ghost maxLens: seq<int>)
    requires 0 < alphaSize <= 258 && forall t :: 0 <= t < |lens| ==> GoodLengths(lens[t], alphaSize)
    ensures |tables| == |maxLens| == |lens|
    ensures forall t :: 0 <= t < |lens| ==> TableFor(tables[t], lens[t], maxLens[t])
  {
    hide Tables;
    tables, maxLens := [], [];
    for t := 0 to |lens|
      invariant |tables| == |maxLens| == t && forall k :: 0 <= k < t ==> TableFor(tables[k], lens[k], maxLens[k])
    {
      assert GoodLengths(lens[t], alphaSize);
      var minLen, maxLen := TableExtremes(lens[t]);
      var limit, base, perm := new int[258], new int[258], new int[258];
      CreateDecodeTables(limit, base, perm, lens[t], minLen, maxLen, alphaSize);
      tables := tables + [Table(limit[..], base[..], perm[..], minLen)];
      maxLens := maxLens + [maxLen];
    }
  }

  /** The number of groups and the selectors. */
  method ReceiveSelectors(r: BitReader, selectorMtf: array<byte>, selector: array<byte>, ghost g: int,
        ghost sel: seq<int>, ghost rest: seq<bit>)
    returns (ok: bool, inBounds: bool, nGroups: int, nSelectors: int)
    requires r.Valid() && 2 <= g <= 6 && forall i :: 0 <= i < |sel| ==> 0 <= sel[i] < g
    requires selectorMtf != selector && selectorMtf.Length == selector.Length == Selectors.MAX_SELECTORS
    modifies r, selectorMtf, selector
    ensures r.Valid() && r.Onward() && (ok ==> inBounds)
    ensures ok ==> 2 <= nGroups <= 6 && 1 <= nSelectors <= Selectors.MAX_SELECTORS
    ensures ok ==> forall i :: 0 <= i < nSelectors ==> 0 <= selector[i] < nGroups
    ensures Selectors.Choices(MtfCoding.Identity(g), g)
    ensures 1 <= |sel| < 32768 && old(r.Remaining()) == Bits(g, 3) + (Bits(|sel|, 15) +
              (Selectors.UnaryBits(Selectors.Indices(sel, 0, MtfCoding.Identity(g)), 0) + rest))
            ==> (inBounds <==> |sel| <= Selectors.MAX_SELECTORS)
                && (inBounds ==>
                      ok && nGroups == g && nSelectors == |sel| && selector[..nSelectors] == sel
                      && r.Remaining() == rest)
  {
    hide BitReader.Valid, BitReader.Remaining, BitReader.Delivered, Selectors.UnaryBits, Selectors.Indices;
    hide Selectors.Chosen, Selectors.Choices, Bits, Pow2;
    Selectors.ChoicesAtStart(g);
    ghost var mtf := Selectors.Indices(sel, 0, MtfCoding.Identity(g));
    ghost var after2 := Selectors.UnaryBits(mtf, 0) + rest;
    ghost var after1 := Bits(|sel|, 15) + after2;
    ghost var good := 1 <= |sel| < 32768 && r.Remaining() == Bits(g, 3) + after1;
    if good { CountsFit(g, |sel|); }
    nSelectors, inBounds := 0, true;
    ok, nGroups := NextBits(r, 3, g, after1);
    if !ok { return; }
    if nGroups < 2 || nGroups > 6 { return false, inBounds, nGroups, nSelectors; }
    ok, nSelectors := NextBits(r, 15, |sel|, after2);
    if !ok { return; }
    if nSelectors < 1 { return false, inBounds, nGroups, nSelectors; }
    ghost var m := if good then mtf else [];
    ok, inBounds := Selectors.Receive(r, selectorMtf, nSelectors, nGroups, m, rest);
    if !ok { return; }
    Selectors.UndoMtf(selectorMtf, selector, nSelectors, nGroups);
    if good {
      assert mtf[0..] == mtf && sel[0..] == sel;
      Selectors.SelectorRoundTrip(sel, 0, MtfCoding.Identity(g), mtf, 0);
    }
  }

  /** The reader stands in front of the coded symbols syms. */
  ghost predicate Ready(sr: SymbolReader, sel: seq<int>, lens: seq<seq<int>>, alphaSize: int, syms: seq<int>,
        rest: seq<bit>) {
    && sr.lens == lens && sr.selector == sel && Codable(lens, sel, alphaSize, syms)
    && sr.start == SymbolBits(lens, sel, alphaSize, syms, |syms|) + rest
  }

  /** The mapping table, and the way back from indices to bytes. */
  method ReceiveMapping(r: BitReader, seqToUnseq: array<byte>, ghost u: seq<bool>, ghost more: seq<bit>)
    returns (ok: bool, nInUse: int)
    requires r.Valid() && seqToUnseq.Length == 256 && |u| == 256
    modifies r, seqToUnseq
    ensures r.Valid() && r.Onward() && (ok ==> 1 <= nInUse <= 256)
    ensures old(r.Remaining()) == MappingTable.MappingBits(u) + more && Rank(u, 256) > 0
            ==> ok && nInUse == Rank(u, 256) && MapsBack(u, seqToUnseq[..]) && r.Remaining() == more
  {
    hide BitReader.Valid, BitReader.Remaining, BitReader.Delivered, Rank, MappingTable.MappingBits;
    var inUse := new bool[256];
    nInUse := 0;
    ok := MappingTable.Receive(r, inUse, u, more);
    if !ok { return; }
    nInUse := MakeMapsD(inUse, seqToUnseq);
    RankBound(inUse[..]);
    ok := nInUse != 0;
  }

  /** The mapping table, the selectors and the coding tables; the result is ready to read symbols.
      An input that starts with what sendMTFValues writes gives back what was sent. */
  method ReceiveMTFValues(r: BitReader, seqToUnseq: array<byte>, ghost u: seq<bool>, ghost g: int, ghost sel: seq<int>,
                          ghost lens: seq<seq<int>>, ghost syms: seq<int>, ghost rest: seq<bit>)
    returns (ok: bool, nInUse: int, sr: SymbolReader?)
    requires r.Valid() && seqToUnseq.Length == 256 && |u| == 256
    requires Chosen(g, sel, lens, Rank(u, 256) + 2, syms)
    modifies r, seqToUnseq
    ensures r.Valid()
    ensures r.Onward()
    ensures ok ==>
          sr != null && fresh(sr) && sr.Valid() && sr.r == r && sr.start == r.Remaining() &&
            sr.delivered == r.Delivered()
    ensures ok ==> sr.startAt == r.at && sr.read == [] && 1 <= nInUse <= 256 && sr.alphaSize == nInUse + 2
    ensures old(r.Remaining()) == MtfBits(u, g, sel, lens, Rank(u, 256) + 2, syms) + rest
            ==> ok && nInUse == Rank(u, 256) && MapsBack(u, seqToUnseq[..])
                && Ready(sr, sel, lens, nInUse + 2, syms, rest)
  {
    hide BitReader.Valid, BitReader.Remaining, BitReader.Delivered, Rank, Codable, GoodLengths, ShortCode, TableFor;
    hide CodeTables.LengthsOk;
    hide MappingTable.MappingBits, Selectors.UnaryBits, Selectors.Indices, CodeTables.TablesBits, Bits, SymbolBits;
    hide SymbolReader.Valid;
    sr, nInUse := null, 0;
    ghost var a := Rank(u, 256) + 2;
    ChosenIsCodable(g, sel, lens, a, syms);
    ghost var after3 := SymbolBits(lens, sel, a, syms, |syms|) + rest;
    ghost var after2 := CodeTables.TablesBits(lens, 0) + after3;
    Selectors.ChoicesAtStart(g);
    ghost var after1 := Bits(g, 3) + (Bits(|sel|, 15) +
      (Selectors.UnaryBits(Selectors.Indices(sel, 0, MtfCoding.Identity(g)), 0) + after2));
    ghost var good := r.Remaining() == MtfBits(u, g, sel, lens, a, syms) + rest;
    if good { PartsRegrouped(u, g, sel, lens, a, syms, rest); }
    ok, nInUse := ReceiveMapping(r, seqToUnseq, u, after1);
    if !ok { return; }
    var selectorMtf, selector := new byte[Selectors.MAX_SELECTORS], new byte[Selectors.MAX_SELECTORS];
    var inBounds, nGroups, nSelectors, got;
    ok, inBounds, nGroups, nSelectors := ReceiveSelectors(r, selectorMtf, selector, g, sel, after2);
    if !ok { return; }
    var alphaSize := nInUse + 2;
    ghost var l := if good then lens else [];
    LengthsForReceive(g, sel, lens, a, syms);
    ok, got := CodeTables.Receive(r, nGroups, alphaSize, l, after3);
    if !ok { return; }
    LengthsAreGood(got, alphaSize);
    var tables; ghost var maxLens;
    tables, maxLens := MakeDecodeTables(got, alphaSize);
    sr := new SymbolReader(r, tables, selector[..nSelectors], got, maxLens, alphaSize);
  }

  lemma RankBound(u: seq<bool>)
    requires |u| == 256
    ensures Rank(u, 256) <= 256
  {
  }

  lemma LengthsForReceive(g: int, sel: seq<int>, lens: seq<seq<int>>, a: int, syms: seq<int>)
    requires Chosen(g, sel, lens, a, syms)
    ensures forall k :: 0 <= k < |lens| ==> CodeTables.LengthsOk(lens[k]) && |lens[k]| == a
  {
    ChosenIsCodable(g, sel, lens, a, syms);
  }

  lemma LengthsAreGood(got: seq<seq<int>>, alphaSize: int)
    requires 0 < alphaSize <= 258 && forall t :: 0 <= t < |got| ==>
          CodeTables.LengthsOk(got[t]) && |got[t]| == alphaSize
    ensures forall t :: 0 <= t < |got| ==> GoodLengths(got[t], alphaSize)
  {
    forall t | 0 <= t < |got| ensures GoodLengths(got[t], alphaSize) { assert CodeTables.LengthsOk(got[t]); }
  }

  lemma PartsRegrouped(u: seq<bool>, g: int, sel: seq<int>, lens: seq<seq<int>>, a: int, syms: seq<int>, rest: seq<bit>)
    requires |u| == 256 && Chosen(g, sel, lens, a, syms)
    ensures Selectors.Choices(MtfCoding.Identity(g), g) && Codable(lens, sel, a, syms)
    ensures forall t :: 0 <= t < |lens| ==> CodeTables.LengthsOk(lens[t])
    ensures MtfBits(u, g, sel, lens, a, syms) + rest
         == MappingTable.MappingBits(u) + (Bits(g, 3) + (Bits(|sel|, 15) +
              (Selectors.UnaryBits(Selectors.Indices(sel, 0, MtfCoding.Identity(g)), 0) +
                (CodeTables.TablesBits(lens, 0) + (SymbolBits(lens, sel, a, syms, |syms|) + rest)))))
  {
    hide Codable, GoodLengths, ShortCode, CodeTables.LengthsOk;
    hide MappingTable.MappingBits, Selectors.UnaryBits, Selectors.Indices, CodeTables.TablesBits, Bits, SymbolBits;
    Selectors.ChoicesAtStart(g);
    ChosenIsCodable(g, sel, lens, a, syms);
    SixPartsRight(MappingTable.MappingBits(u), Bits(g, 3), Bits(|sel|, 15),
                  Selectors.UnaryBits(Selectors.Indices(sel, 0, MtfCoding.Identity(g)), 0),
                  CodeTables.TablesBits(lens, 0), SymbolBits(lens, sel, a, syms, |syms|), rest);
  }

  lemma SixPartsRight(a: seq<bit>, b: seq<bit>, c: seq<bit>, d: seq<bit>, e: seq<bit>, f: seq<bit>, g: seq<bit>)
    ensures a + (b + (c + (d + (e + f)))) + g == a + (b + (c + (d + (e + (f + g)))))
  {
    Associative(e, f, g);
    Associative(d, e + f, g);
    Associative(c, d + (e + f), g);
    Associative(b, c + (d + (e + f)), g);
    Associative(a, b + (c + (d + (e + f))), g);
  }
}
