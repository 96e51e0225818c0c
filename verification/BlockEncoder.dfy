/** BZ2_compressBlock for a block that holds something: sort it, code it, write it. */
module BlockEncoder {
  import opened Bytes
  import opened Permutations
  import opened Rotations
  import opened RunLength
  import opened BitStrings
  import opened BitIo
  import opened BitWords
  import opened ByteView
  import opened HalfView
  import opened BlockArea
  import opened ByteMaps
  import opened MtfCoding
  import opened SendMtf
  import opened BlockFormat
  import CodedSymbols
  import FallbackSort
  import HuffmanCodes
  import HuffmanLengths
  import MainSort
  import MtfEncoder

  /** The block is in the bytes of arr2, which has room for the overshoot area and the quadrant
      values. */
  ghost predicate BlockIn(words: seq<int>, b: seq<byte>) {
    HoldsBytes(words, 4 * |words|) && |b| + OVERSHOOT <= |words| && BytesOf(words, |b|) == b
  }

  lemma BlockInArea(words: seq<int>, b: seq<byte>)
    requires BlockIn(words, b)
    ensures HoldsBytes(words, |b|) && BytesOf(words, |b|) == b && AreaOk(words, |b|) && BlockOf(words, |b|)[..|b|] == b
  {
    forall w | 0 <= w < |words| ensures 0 <= words[w] < 0x1_0000_0000 { assert 0 <= words[4 * w / 4] < 0x1_0000_0000; }
    assert BytesOf(words, |b| + OVERSHOOT)[..|b|] == BytesOf(words, |b|);
  }

  lemma AreaBlock(words: seq<int>, b: seq<byte>)
    requires AreaOk(words, |b|) && BlockOf(words, |b|)[..|b|] == b
    ensures HoldsBytes(words, |b|) && BytesOf(words, |b|) == b
  {
    AreaHoldsBytes(words, |b|);
    assert BytesOf(words, |b| + OVERSHOOT)[..|b|] == BytesOf(words, |b|);
  }

  /** The work that the main sort may do before it is given up. */
  function InitialBudget(nblock: nat, workFactor: int): (r: nat) {
    var wfact := if workFactor < 1 then 1 else if workFactor > 100 then 100 else workFactor;
    nblock * ((wfact - 1) / 3)
  }

  /** The sorting part of BZ2_blockSort: small blocks by fallbackSort, others by mainSort, and by
      fallbackSort again if that has used up its budget. */
  method SortBlock(arr1: array<int>, arr2: array<int>, ftab: array<uint32>, nblock: nat, workFactor: int,
        ghost b: seq<byte>)
    requires arr1 != arr2 && 0 < nblock == arr1.Length == |b| <= 900000 && ftab.Length == 65537 && BlockIn(arr2[..], b)
    modifies arr1, arr2, ftab
    ensures SortedOrder(b, arr1[..])
    ensures HoldsBytes(arr2[..], nblock) && BytesOf(arr2[..], nblock) == b
  {
    hide HoldsBytes, BytesOf, AreaOk, BlockOf, SortedOrder, BlockIn;
    BlockInArea(arr2[..], b);
    BlockFits(arr2[..], b);
    if nblock < 10000 {
      FallbackSort.Sort(arr1, arr2, ftab, nblock, b);
    } else {
      var budget := MainSort.Sort(arr1, arr2, ftab, nblock, InitialBudget(nblock, workFactor), b);
      AreaBlock(arr2[..], b);
      if budget < 0 { FallbackSort.Sort(arr1, arr2, ftab, nblock, b); }
    }
  }

  lemma BlockFits(words: seq<int>, b: seq<byte>)
    requires BlockIn(words, b)
    ensures |b| <= |words|
  {
  }

  /** BZ2_blockSort: whichever way it is sorted, the sorted order, and the row of the block itself.
      Assertion 1003 cannot fail. */
  method BlockSort(arr1: array<int>, arr2: array<int>, ftab: array<uint32>, nblock: nat, workFactor: int,
        ghost b: seq<byte>)
    returns (origPtr: int)
    requires arr1 != arr2 && 0 < nblock == arr1.Length == |b| <= 900000 && ftab.Length == 65537 && BlockIn(arr2[..], b)
    modifies arr1, arr2, ftab
    ensures SortedOrder(b, arr1[..])
    ensures HoldsBytes(arr2[..], nblock) && BytesOf(arr2[..], nblock) == b
    ensures 0 <= origPtr < nblock && arr1[origPtr] == 0
  {
    hide HoldsBytes, BytesOf, BlockIn;
    SortBlock(arr1, arr2, ftab, nblock, workFactor, b);
    ghost var p := PositionOf(arr1[..], 0);
    origPtr := -1;
    for i := 0 to nblock
      invariant i <= p
      invariant origPtr == -1
    {
      if arr1[i] == 0 { origPtr := i; break; }
    }
    assert origPtr != -1;
  }

  /** How often symbol v is in the groups that use table t, among the first i symbols. */
  ghost function Uses(syms: seq<int>, selector: seq<int>, t: int, v: int, i: int): (r: nat)
    requires 0 <= i <= |syms| && |selector| == Groups(|syms|)
    decreases i
  {
    if i == 0 then 0
    else
      var here := if selector[(i - 1) / CodedSymbols.G_SIZE] == t && syms[i - 1] == v then 1 else 0;
      Uses(syms, selector, t, v, i - 1) + here
  }

  /** The frequencies of all symbols in the groups that use table t. */
  ghost function UsesOf(syms: seq<int>, selector: seq<int>, t: int, alphaSize: nat): (r: seq<int>)
    requires |selector| == Groups(|syms|)
    ensures |r| == alphaSize && forall v :: 0 <= v < alphaSize ==> r[v] >= 0
  {
    seq(alphaSize, v => Uses(syms, selector, t, v, |syms|))
  }

  /** Every table is the shortest code for the frequencies in its groups, as far as 17 bits allow. */
  ghost predicate BestTables(lens: seq<seq<int>>, syms: seq<int>, selector: seq<int>, alphaSize: nat) {
    |selector| == Groups(|syms|) && forall t :: 0 <= t < |lens| ==> BestTable(lens[t], syms, selector, t, alphaSize)
  }

  ghost predicate BestTable(len: seq<int>, syms: seq<int>, selector: seq<int>, t: int, alphaSize: nat)
    requires |selector| == Groups(|syms|)
  {
    exists times :: HuffmanLengths.BestAfter(UsesOf(syms, selector, t, alphaSize), times, len)
  }

  /** The symbol frequencies for table t; their sum is at most the number of symbols. */
  method CountUses(arr1: array<int>, nMTF: int, selector: seq<int>, t: int, alphaSize: int, ghost syms: seq<int>)
    returns (freq: array<int>)
    requires AllWords(arr1[..]) && nMTF <= 2 * arr1.Length && 0 < nMTF == |syms| && syms == HalvesOf(arr1[..], nMTF)
    requires |selector| == Groups(nMTF) && alphaSize > 0 && forall i :: 0 <= i < |syms| ==> 0 <= syms[i] < alphaSize
    ensures fresh(freq) && freq.Length == alphaSize
    ensures freq[..] == UsesOf(syms, selector, t, alphaSize)
    ensures HuffmanLengths.FreqSum(freq[..], alphaSize) <= nMTF
  {
    hide AllWords, HalvesOf;
    freq := new int[alphaSize](_ => 0);
    NoFrequencies(freq[..], alphaSize);
    for i := 0 to nMTF
      invariant forall v :: 0 <= v < alphaSize ==> freq[v] == Uses(syms, selector, t, v, i)
      invariant HuffmanLengths.FreqSum(freq[..], alphaSize) <= i
    {
      var m := GetHalf(arr1, i, nMTF);
      assert m == syms[i];
      if selector[i / CodedSymbols.G_SIZE] == t {
        ghost var was := freq[..];
        freq[m] := freq[m] + 1;
        assert freq[..] == was[m := was[m] + 1];
        OneMoreUse(was, m, alphaSize);
      }
    }
  }

  lemma {:induction false} NoFrequencies(freq: seq<int>, i: int)
    requires 0 <= i <= |freq| && forall k :: 0 <= k < |freq| ==> freq[k] == 0
    ensures HuffmanLengths.FreqSum(freq, i) == 0
    decreases i
  {
    if i > 0 { NoFrequencies(freq, i - 1); }
  }

  lemma {:induction false} OneMoreUse(freq: seq<int>, m: int, i: int)
    requires 0 <= i <= |freq| && 0 <= m < |freq|
    ensures HuffmanLengths.FreqSum(freq[m := freq[m] + 1], i) == HuffmanLengths.FreqSum(freq, i) +
      if m < i then 1 else 0
    decreases i
  {
    if i > 0 { OneMoreUse(freq, m, i - 1); }
  }

  /** The last step of the choice of tables: for any selectors, code lengths of at most 17 bits
      that make complete codes. */
  method MakeTables(arr1: array<int>, nMTF: int, selector: seq<int>, nGroups: int, alphaSize: int, ghost syms: seq<int>)
    returns (lens: seq<seq<int>>)
    requires AllWords(arr1[..]) && nMTF <= 2 * arr1.Length && 0 < nMTF == |syms| <= 900000
    requires syms == HalvesOf(arr1[..], nMTF)
    requires |selector| == Groups(nMTF) && 3 <= alphaSize <= 258 && forall i :: 0 <= i < |syms| ==>
          0 <= syms[i] < alphaSize
    requires nGroups >= 0
    ensures |lens| == nGroups && forall t :: 0 <= t < nGroups ==> |lens[t]| == alphaSize && ShortCode(lens[t])
    ensures BestTables(lens, syms, selector, alphaSize)
  {
    hide AllWords, HalvesOf, HuffmanLengths.FreqSum, HuffmanCodes.KraftSum, Pow2, UsesOf, HuffmanLengths.BestAfter;
    lens := [];
    for t := 0 to nGroups
      invariant |lens| == t && forall k :: 0 <= k < t ==> |lens[k]| == alphaSize && ShortCode(lens[k])
      invariant BestTables(lens, syms, selector, alphaSize)
    {
      var freq := CountUses(arr1, nMTF, selector, t, alphaSize, syms);
      var len := new byte[alphaSize];
      HuffmanLengths.MakeCodeLengths(len, freq[..], alphaSize, 17);
      assert len[..alphaSize] == len[..];
      lens := lens + [len[..]];
    }
  }

  /** The number of coding tables. */
  method NumberOfGroups(nMTF: int) returns (nGroups: int)
    ensures nGroups == if nMTF < 200 then 2 else if nMTF < 600 then 3 else if nMTF < 1200 then 4
                       else if nMTF < 2400 then 5 else 6
  {
    if nMTF < 200 { nGroups := 2; }
    else if nMTF < 600 { nGroups := 3; }
    else if nMTF < 1200 { nGroups := 4; }
    else if nMTF < 2400 { nGroups := 5; }
    else { nGroups := 6; }
  }

  /** Symbols of a block stay below its alphabet. */
  lemma SymbolsKnown(k: Block)
    requires Sorted(k) && |Data(k)| < 0x20_0000
    ensures forall i :: 0 <= i < |Syms(k)| ==> 0 <= Syms(k)[i] < NInUse(k) + 2
    ensures 0 < |Syms(k)| <= |Data(k)| + 1
  {
    var n := NInUse(k);
    MtfRoundTrip(Column(k), 0, Identity(n), [], 0, |Column(k)|);
    EncodeLength(Column(k), 0, Identity(n), 0, n + 1);
  }

  ghost function Picked(pick: seq<int>, i: nat, nGroups: int): int {
    if i < |pick| && 0 <= pick[i] < nGroups then pick[i] else 0
  }

  /** A table for every group of 50 symbols: any choice will do. */
  method ChooseSelectors(nMTF: int, nGroups: int, pick: seq<int>) returns (selector: seq<int>)
    requires nMTF > 0 && nGroups > 0
    ensures |selector| == Groups(nMTF) && forall i :: 0 <= i < |selector| ==> 0 <= selector[i] < nGroups
    ensures forall i :: 0 <= i < |selector| ==> selector[i] == Picked(pick, i, nGroups)
  {
    selector := [];
    var gs := 0;
    while true
      invariant 0 <= gs <= nMTF && |selector| == Groups(gs) && (gs < nMTF ==> gs % CodedSymbols.G_SIZE == 0)
      invariant forall i :: 0 <= i < |selector| ==> 0 <= selector[i] < nGroups
      invariant forall i :: 0 <= i < |selector| ==> selector[i] == Picked(pick, i, nGroups)
      decreases nMTF - gs
    {
      if gs >= nMTF { break; }
      var ge := gs + CodedSymbols.G_SIZE - 1;
      if ge >= nMTF { ge := nMTF - 1; }
      var bt := if |selector| < |pick| && 0 <= pick[|selector|] < nGroups then pick[|selector|] else 0;
      selector := selector + [bt];
      gs := ge + 1;
    }
  }

  lemma OrigPtrIs(k: Block, origPtr: int)
    requires Sorted(k) && 0 <= origPtr < |Data(k)| && k.order[origPtr] == 0
    ensures OrigPtr(k) == origPtr
  {
  }

  /** The header of a block. */
  method PutBlockHeader(w: BitWriter, blockCRC: bv32, origPtr: int)
    requires w.Valid() && 0 <= origPtr < 0x100_0000
    modifies w
    ensures w.Valid() && w.sent == old(w.sent)
    ensures w.Written() == old(w.Written()) + BitsOf(BLOCK_MAGIC) + Bits(blockCRC as int, 32) + [0] + Bits(origPtr, 24)
  {
    hide BitWriter.Valid, BitWriter.Written, Bits, Pow2, BitsOf;
    Pow2Values();
    PutBytes(w, BLOCK_MAGIC);
    PutUInt32(w, blockCRC as int);
    w.PutBit(0);
    w.BsW(24, origPtr);
  }

  /** The part of BZ2_compressBlock that is done when the block is not empty. The result tells what
      choices were made; whatever they are, the block is valid. */
  method CompressBlock(w: BitWriter, arr1: array<int>, arr2: array<int>, ftab: array<uint32>, inUse: array<bool>,
        nblock: int, workFactor: int, blockCRC: bv32, level: int, pick: seq<int>, ghost runs: seq<Run>,
          ghost table: seq<bv32>)
    returns (ghost k: Block)
    requires arr1 != arr2 && ftab.Length == 65537
    requires w.Valid() && 1 <= level <= 9 && inUse.Length == 256 && |table| == 256
    requires 0 < nblock == arr1.Length && nblock <= 100000 * level - 10
    requires RunsOk(runs) && nblock == |EncodeRuns(runs)| && BlockIn(arr2[..], EncodeRuns(runs))
    requires Covers(inUse[..], EncodeRuns(runs)) && blockCRC == BlockCrcOf(table, runs)
    modifies w, arr1, arr2, ftab
    ensures w.Valid() && w.sent == old(w.sent) && ValidBlock(k, level) && k.runs == runs
    ensures BestTables(k.lens, Syms(k), k.selector, NInUse(k) + 2)
    ensures w.Written() == old(w.Written()) + BlockBits(table, k, level)
  {
    hide HoldsBytes, BytesOf, BlockIn, BitWriter.Valid, BitWriter.Written, Bits, BitsOf, Permutation, SortedOrder;
    hide Encode, Covers, MtfBits;
    hide EncodeRuns, RunsOk, BlockCrcOf, AllWords, HalvesOf, ShortCode, SortedOrder, ByteMaps.Rank, BestTable;
    ghost var b, was := EncodeRuns(runs), w.Written();
    var origPtr := BlockSort(arr1, arr2, ftab, nblock, workFactor, b);
    ghost var order, u := arr1[..], inUse[..];
    IsPermutation(b, order);
    PutBlockHeader(w, blockCRC, origPtr);
    var unseqToSeq := new int[256];
    var nInUse := MakeMapsE(inUse, unseqToSeq);
    var nMTF := MtfEncoder.GenerateMTFValues(arr1, arr2, nblock, unseqToSeq, nInUse, b, order, u);
    k := Block(runs, order, u, 0, [], []);
    SymbolsKnown(k);
    OrigPtrIs(k, origPtr);
    ghost var syms := Syms(k);
    var alphaSize := nInUse + 2;
    InUseBound(u);
    var nGroups := NumberOfGroups(nMTF);
    var selector := ChooseSelectors(nMTF, nGroups, pick);
    SelectorsFit(nMTF);
    var lens := MakeTables(arr1, nMTF, selector, nGroups, alphaSize, syms);
    k := Block(runs, order, u, nGroups, selector, lens);
    assert Chosen(nGroups, selector, lens, alphaSize, syms);
    SendMTFValues(w, inUse, nGroups, selector, lens, alphaSize, arr1, nMTF, syms);
    FiveParts(was, BitsOf(BLOCK_MAGIC), Bits(blockCRC as int, 32), [0], Bits(origPtr, 24), MtfBitsOf(k, level));
  }

  lemma InUseBound(u: seq<bool>)
    requires |u| == 256
    ensures ByteMaps.Rank(u, 256) <= 256
  {
  }

  lemma FiveParts(a: seq<bit>, b: seq<bit>, c: seq<bit>, d: seq<bit>, e: seq<bit>, f: seq<bit>)
    ensures a + (b + (c + (d + (e + f)))) == a + b + c + d + e + f
  {
    Associative(a, b, c + (d + (e + f)));
    Associative(a + b, c, d + (e + f));
    Associative(a + b + c, d, e + f);
    Associative(a + b + c + d, e, f);
  }
}
