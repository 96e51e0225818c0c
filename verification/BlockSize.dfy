/** How long a coded block can get: it always fits into what arr2 has left behind the block. */
module BlockSize {
  import opened Bytes
  import opened BitStrings
  import opened SendMtf
  import opened BlockFormat
  import BlockEncoder
  import CodedSymbols
  import CodeTables
  import HuffmanCodes
  import MappingTable
  import MtfCoding
  import Selectors

  lemma {:induction false} FlagsSize(inUse: seq<bool>, i: int)
    requires |inUse| == 256 && 0 <= i <= 16
    ensures |MappingTable.FlagBits(inUse, i)| == 16 - i
    decreases 16 - i
  {
    if i < 16 { FlagsSize(inUse, i + 1); }
  }

  lemma {:induction false} BytesSize(inUse: seq<bool>, i: int, j: int)
    requires |inUse| == 256 && 0 <= i <= 16 && 0 <= j <= 16
    ensures |MappingTable.ByteBits(inUse, i, j)| <= if i == 16 then 0 else 16 * (16 - i) - j
    decreases 16 - i, 16 - j
  {
    hide MappingTable.GroupInUse, MappingTable.Flag, MappingTable.ByteBits;
    ByteStep(inUse, i, j);
    if i < 16 {
      if j == 16 || !MappingTable.GroupInUse(inUse,
                                             i) { BytesSize(inUse, i + 1, 0); } else { BytesSize(inUse, i, j + 1); }
    }
  }

  lemma ByteStep(inUse: seq<bool>, i: int, j: int)
    requires |inUse| == 256 && 0 <= i <= 16 && 0 <= j <= 16
    ensures i == 16 ==> MappingTable.ByteBits(inUse, i, j) == []
    ensures i < 16 && (j == 16 || !MappingTable.GroupInUse(inUse, i))
            ==> MappingTable.ByteBits(inUse, i, j) == MappingTable.ByteBits(inUse, i + 1, 0)
    ensures i < 16 && j < 16 && MappingTable.GroupInUse(inUse, i)
            ==> |MappingTable.ByteBits(inUse, i, j)| == 1 + |MappingTable.ByteBits(inUse, i, j + 1)|
  {
    hide MappingTable.GroupInUse, MappingTable.Flag;
  }

  lemma {:induction false} UnarySize(mtf: seq<int>, i: int)
    requires 0 <= i <= |mtf| && forall k :: 0 <= k < |mtf| ==> 0 <= mtf[k] < 6
    ensures |Selectors.UnaryBits(mtf, i)| <= 6 * (|mtf| - i)
    decreases |mtf| - i
  {
    if i < |mtf| { UnarySize(mtf, i + 1); }
  }

  lemma {:induction false} StepsSize(c: int, l: int)
    ensures |CodeTables.Steps(c, l)| == 2 * (if c < l then l - c else c - l)
    decreases if c < l then l - c else c - l
  {
    if c < l { StepsSize(c + 1, l); } else if c > l { StepsSize(c - 1, l); }
  }

  lemma {:induction false} LengthsSize(len: seq<int>, i: int, c: int)
    requires 0 <= i <= |len| && 1 <= c <= 17 && forall k :: 0 <= k < |len| ==> 1 <= len[k] <= 17
    ensures |CodeTables.LengthBits(len, i, c)| <= 33 * (|len| - i)
    decreases |len| - i
  {
    if i < |len| {
      StepsSize(c, len[i]);
      LengthsSize(len, i + 1, len[i]);
    }
  }

  /** A table for at most 258 symbols. */
  lemma {:induction false} TablesSize(lens: seq<seq<int>>, t: int)
    requires 0 <= t <= |lens| && forall k :: 0 <= k < |lens| ==>
          CodeTables.LengthsOk(lens[k]) && |lens[k]| <= 258 && ShortCode(lens[k])
    ensures |CodeTables.TablesBits(lens, t)| <= 8519 * (|lens| - t)
    decreases |lens| - t
  {
    if t < |lens| {
      LengthsSize(lens[t], 0, lens[t][0]);
      TablesSize(lens, t + 1);
    }
  }

  /** No code is longer than 17 bits. */
  lemma {:induction false} SymbolsSize(lens: seq<seq<int>>, sel: seq<int>, alphaSize: int, syms: seq<int>, k: nat)
    requires CodedSymbols.Codable(lens, sel, alphaSize, syms) && k <= |syms|
    requires forall t :: 0 <= t < |lens| ==> ShortCode(lens[t])
    ensures |CodedSymbols.SymbolBits(lens, sel, alphaSize, syms, k)| <= 17 * k
  {
    if k > 0 {
      SymbolsSize(lens, sel, alphaSize, syms, k - 1);
      assert CodedSymbols.GoodLengths(CodedSymbols.LenFor(lens, sel, k - 1), alphaSize);
      assert |CodedSymbols.OneSymbol(lens, sel, alphaSize, syms, k - 1)| ==
        CodedSymbols.LenFor(lens, sel, k - 1)[syms[k - 1]];
    }
  }

  lemma MtfSize(inUse: seq<bool>, nGroups: int, selector: seq<int>, lens: seq<seq<int>>, alphaSize: int, syms: seq<int>)
    requires |inUse| == 256 && Chosen(nGroups, selector, lens, alphaSize, syms)
    ensures |MtfBits(inUse, nGroups, selector, lens, alphaSize, syms)| <= 51410 + 17 * |syms| + |syms| / 8
  {
    hide HuffmanCodes.KraftSum, Pow2, Bits;
    FlagsSize(inUse, 0);
    BytesSize(inUse, 0, 0);
    Selectors.ChoicesAtStart(nGroups);
    var mtf := Selectors.Indices(selector, 0, MtfCoding.Identity(nGroups));
    UnarySize(mtf, 0);
    ChosenIsCodable(nGroups, selector, lens, alphaSize, syms);
    TablesSize(lens, 0);
    SymbolsSize(lens, selector, alphaSize, syms, |syms|);
  }

  lemma BlockBitsSize(table: seq<bv32>, k: Block, level: int)
    requires |table| == 256 && ValidBlock(k, level) && |Data(k)| < 0x20_0000
    ensures |BlockBits(table, k, level)| <= 18 * |Data(k)| + 52000
  {
    assert |k.inUse| == 256;
    hide Sorted, Chosen, Data, Syms, NInUse, Bits, BlockCrcOf, OrigPtr;
    BlockEncoder.SymbolsKnown(k);
    MtfSize(k.inUse, k.nGroups, k.selector, k.lens, NInUse(k) + 2, Syms(k));
  }

  /** arr2 has 4 * (100000 * level + 34) bytes; the block takes up nblock of them. */
  lemma RoomBehindBlock(nblock: int, level: int, zbits: int)
    requires 1 <= level <= 9 && 0 <= nblock <= 100000 * level - 10
    requires 8 * zbits <= 18 * nblock + 52200
    ensures nblock + zbits <= 4 * (100000 * level + 34)
  {
  }
}
