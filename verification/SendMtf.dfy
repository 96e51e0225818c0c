/** What sendMTFValues transmits once it has chosen the tables: the mapping table, the selectors, the
    code lengths and the symbols. */
module SendMtf {
  import opened Bytes
  import opened BitStrings
  import opened BitIo
  import opened HalfView
  import opened HuffmanCodes
  import opened CodedSymbols
  import MtfCoding
  import MappingTable
  import Selectors
  import CodeTables

  /** How many groups of 50 n symbols make. */
  function Groups(n: nat): nat {
    (n + G_SIZE - 1) / G_SIZE
  }

  /** The choices made before transmission: a selector for every group, and complete codes of at
      most 17 bits. */
  ghost predicate Chosen(nGroups: int, selector: seq<int>, lens: seq<seq<int>>, alphaSize: int, syms: seq<int>) {
    && 2 <= nGroups <= 6 && |lens| == nGroups && 3 <= alphaSize <= 258
    && 0 < |syms| && |selector| == Groups(|syms|) <= Selectors.MAX_SELECTORS
    && (forall i :: 0 <= i < |syms| ==> 0 <= syms[i] < alphaSize)
    && (forall i :: 0 <= i < |selector| ==> 0 <= selector[i] < nGroups)
    && (forall t :: 0 <= t < nGroups ==> |lens[t]| == alphaSize && ShortCode(lens[t]))
  }

  ghost predicate ShortCode(len: seq<int>) {
    (forall i :: 0 <= i < |len| ==> 1 <= len[i] <= 17) && KraftSum(len, 17, |len|) <= Pow2(17)
  }

  lemma ChosenIsCodable(nGroups: int, selector: seq<int>, lens: seq<seq<int>>, alphaSize: int, syms: seq<int>)
    requires Chosen(nGroups, selector, lens, alphaSize, syms)
    ensures Codable(lens, selector, alphaSize, syms)
    ensures forall t :: 0 <= t < nGroups ==> CodeTables.LengthsOk(lens[t])
  {
    forall t | 0 <= t < |lens| ensures GoodLengths(lens[t], alphaSize) { assert ShortCode(lens[t]); }
    forall t | 0 <= t < nGroups ensures CodeTables.LengthsOk(lens[t]) { assert ShortCode(lens[t]); }
  }

  /** Every symbol of such a code has a code, and it fits the call of bsW. */
  lemma ShortCodeHasCodes(len: seq<int>, s: int)
    requires ShortCode(len) && 0 <= s < |len|
    ensures HasCode(len, s) && 1 <= len[s] <= 17
  {
    KraftFits(len, 17, len[s]);
    CodeInRange(len, s);
  }

  ghost function MtfBits(inUse: seq<bool>, nGroups: int, selector: seq<int>, lens: seq<seq<int>>, alphaSize: int,
        syms: seq<int>): seq<bit>
    requires |inUse| == 256 && Chosen(nGroups, selector, lens, alphaSize, syms)
  {
    Selectors.ChoicesAtStart(nGroups);
    ChosenIsCodable(nGroups, selector, lens, alphaSize, syms);
    MappingTable.MappingBits(inUse) + (Bits(nGroups, 3) + (Bits(|selector|, 15) +
      (Selectors.UnaryBits(Selectors.Indices(selector, 0, MtfCoding.Identity(nGroups)), 0) +
        (CodeTables.TablesBits(lens, 0) + SymbolBits(lens, selector, alphaSize, syms, |syms|)))))
  }

  /** The least and the greatest length of a table. */
  method TableExtremes(len: seq<int>) returns (minLen: int, maxLen: int)
    requires 0 < |len| <= 258 && forall i :: 0 <= i < |len| ==> 1 <= len[i] <= 20
    ensures Lengths(len, minLen, maxLen)
  {
    minLen, maxLen := 32, 0;
    ghost var at := 0;
    for i := 0 to |len|
      invariant forall k :: 0 <= k < i ==> minLen <= len[k] <= maxLen
      invariant 0 <= maxLen <= 20 && 1 <= minLen <= 32 && (i == 0 ==> maxLen == 0)
      invariant i > 0 ==> 0 <= at < i && len[at] == maxLen
    {
      if len[i] > maxLen { maxLen, at := len[i], i; }
      if len[i] < minLen { minLen := len[i]; }
    }
    assert len[at] == maxLen;
  }

  ghost predicate CodesFor(code: seq<int>, len: seq<int>) {
    |code| == |len| && forall i :: 0 <= i < |len| ==> len[i] >= 0 && code[i] == CodeOf(len, i)
  }

  /** Assign actual codes for the tables. */
  method AssignAll(lens: seq<seq<int>>, alphaSize: int) returns (codes: seq<seq<int>>)
    requires 0 < alphaSize <= 258 && forall t :: 0 <= t < |lens| ==> |lens[t]| == alphaSize && ShortCode(lens[t])
    ensures |codes| == |lens| && forall t :: 0 <= t < |lens| ==> CodesFor(codes[t], lens[t])
  {
    hide CodeOf, KraftSum, Pow2;
    codes := [];
    for t := 0 to |lens|
      invariant |codes| == t && forall k :: 0 <= k < t ==> CodesFor(codes[k], lens[k])
    {
      assert ShortCode(lens[t]);
      var minLen, maxLen := TableExtremes(lens[t]);
      var code := new int[alphaSize];
      AssignCodes(code, lens[t], minLen, maxLen, alphaSize);
      codes := codes + [code[..]];
    }
  }

  /** One code. */
  method SendSymbol(w: BitWriter, n: int, v: int, ghost lens: seq<seq<int>>, ghost selector: seq<int>,
        ghost alphaSize: int, ghost syms: seq<int>, ghost k: nat, ghost was: seq<bit>)
    requires w.Valid() && Codable(lens, selector, alphaSize, syms) && k < |syms|
    requires GoodLengths(LenFor(lens, selector, k), alphaSize)
    requires ShortCode(LenFor(lens, selector, k)) && n == LenFor(lens, selector, k)[syms[k]]
    requires v == CodeOf(LenFor(lens, selector, k), syms[k])
    requires w.Written() == was + SymbolBits(lens, selector, alphaSize, syms, k)
    modifies w
    ensures w.Valid() && w.sent == old(w.sent)
    ensures w.Written() == was + SymbolBits(lens, selector, alphaSize, syms, k + 1)
  {
    hide BitWriter.Valid, BitWriter.Written, Bits, ShortCode, CodeOf;
    ShortCodeHasCodes(LenFor(lens, selector, k), syms[k]);
    w.BsW(n, v);
    Associative(was, SymbolBits(lens, selector, alphaSize, syms, k), Bits(v, n));
  }

  /** The block data proper: group after group, with the table its selector names. */
  method SendSymbols(w: BitWriter, arr1: array<int>, nMTF: int, selector: seq<int>, nGroups: int, lens: seq<seq<int>>,
                     codes: seq<seq<int>>, alphaSize: int, ghost syms: seq<int>)
    requires w.Valid() && AllWords(arr1[..]) && nMTF <= 2 * arr1.Length
    requires 0 < nMTF == |syms| && syms == HalvesOf(arr1[..], nMTF) && Chosen(nGroups, selector, lens, alphaSize, syms)
    requires Codable(lens, selector, alphaSize, syms)
    requires |codes| == |lens| && forall t :: 0 <= t < |lens| ==> CodesFor(codes[t], lens[t])
    modifies w
    ensures w.Valid() && w.sent == old(w.sent)
    ensures w.Written() == old(w.Written()) + SymbolBits(lens, selector, alphaSize, syms, |syms|)
  {
    hide BitWriter.Valid, BitWriter.Written, ShortCode, CodeOf, SymbolBits, GoodLengths, HalvesOf, AllWords;
    ghost var was := w.Written();
    var gs, selCtr := 0, 0;
    NoSymbols(lens, selector, alphaSize, syms);
    assert was + [] == was;
    while true
      invariant w.Valid() && w.sent == old(w.sent) && 0 <= gs <= nMTF && 0 <= selCtr <= |selector|
      invariant gs == if selCtr * G_SIZE < nMTF then selCtr * G_SIZE else nMTF
      invariant gs == nMTF <==> selCtr == |selector|
      invariant w.Written() == was + SymbolBits(lens, selector, alphaSize, syms, gs)
      decreases nMTF - gs
    {
      if gs >= nMTF { break; }
      var ge := gs + G_SIZE - 1;
      if ge >= nMTF { ge := nMTF - 1; }
      assert selector[selCtr] < nGroups;
      for i := gs to ge + 1
        invariant w.Valid() && w.sent == old(w.sent)
        invariant w.Written() == was + SymbolBits(lens, selector, alphaSize, syms, i)
      {
        var m := GetHalf(arr1, i, nMTF);
        assert m == syms[i] && i / G_SIZE == selCtr;
        var t := selector[selCtr];
        assert LenFor(lens, selector, i) == lens[t] && CodesFor(codes[t], lens[t]) && |lens[t]| == alphaSize;
        SendSymbol(w, lens[t][m], codes[t][m], lens, selector, alphaSize, syms, i, was);
      }
      gs := ge + 1;
      selCtr := selCtr + 1;
    }
    assert selCtr == |selector|;
  }

  lemma NoSymbols(lens: seq<seq<int>>, sel: seq<int>, alphaSize: int, syms: seq<int>)
    requires Codable(lens, sel, alphaSize, syms)
    ensures SymbolBits(lens, sel, alphaSize, syms, 0) == []
  {
  }

  lemma SixParts(a: seq<bit>, b: seq<bit>, c: seq<bit>, d: seq<bit>, e: seq<bit>, f: seq<bit>, g: seq<bit>)
    ensures a + (b + (c + (d + (e + (f + g))))) == a + b + c + d + e + f + g
  {
    Associative(a, b, c + (d + (e + (f + g))));
    Associative(a + b, c, d + (e + (f + g)));
    Associative(a + b + c, d, e + (f + g));
    Associative(a + b + c + d, e, f + g);
    Associative(a + b + c + d + e, f, g);
  }

  lemma CountsFit(nGroups: int, nSelectors: int)
    requires 2 <= nGroups <= 6 && 0 <= nSelectors < 32768
    ensures nGroups < Pow2(3) && nSelectors < Pow2(15)
  {
    assert Pow2(3) == 8;
    assert Pow2(9) == 512;
  }

  /** The transmitting part of sendMTFValues. */
  method SendMTFValues(w: BitWriter, inUse: array<bool>, nGroups: int, selector: seq<int>, lens: seq<seq<int>>,
        alphaSize: int, arr1: array<int>, nMTF: int, ghost syms: seq<int>)
    requires w.Valid() && inUse.Length == 256 && AllWords(arr1[..]) && nMTF <= 2 * arr1.Length
    requires 0 < nMTF == |syms| && syms == HalvesOf(arr1[..], nMTF) && Chosen(nGroups, selector, lens, alphaSize, syms)
    modifies w
    ensures w.Valid() && w.sent == old(w.sent)
    ensures w.Written() == old(w.Written()) + MtfBits(inUse[..], nGroups, selector, lens, alphaSize, syms)
  {
    hide BitWriter.Valid, BitWriter.Written, ShortCode, CodeOf, SymbolBits, HalvesOf, AllWords, Codable;
    hide MappingTable.MappingBits, Selectors.UnaryBits, Selectors.Indices, CodeTables.TablesBits, CodeTables.LengthsOk;
    hide Bits, Pow2;
    ghost var was, u := w.Written(), inUse[..];
    ChosenIsCodable(nGroups, selector, lens, alphaSize, syms);
    CountsFit(nGroups, |selector|);
    var selectorMtf := Selectors.ComputeMtf(selector, nGroups);
    var codes := AssignAll(lens, alphaSize);
    MappingTable.Send(w, inUse);
    w.BsW(3, nGroups);
    w.BsW(15, |selector|);
    Selectors.Send(w, selectorMtf);
    CodeTables.Send(w, lens);
    SendSymbols(w, arr1, nMTF, selector, nGroups, lens, codes, alphaSize, syms);
    SixParts(was, MappingTable.MappingBits(u), Bits(nGroups, 3), Bits(|selector|, 15),
             Selectors.UnaryBits(selectorMtf, 0),
             CodeTables.TablesBits(lens, 0), SymbolBits(lens, selector, alphaSize, syms, |syms|));
  }

  /** The array bounds that assertion 3003 guards: a block of at most 900000 bytes makes at most
      900001 symbols. */
  lemma SelectorsFit(nMTF: nat)
    requires nMTF <= 900001
    ensures Groups(nMTF) < 32768 && Groups(nMTF) <= 2 + 900000 / G_SIZE
  {
  }
}
