/** inflate_fast on the bits of coded tokens: they come back as what the tokens expand to. */
module InflateRoundTrip {
  import opened BitSlices
  import opened Bytes
  import Fast = InflateFast
  import opened InflateCodes
  import opened InflateTables
  import opened Lz77

  // Tokens behind output that is there already

  /** What the tokens make of all, unless a distance goes back too far. */
  ghost function ExpandOn(all: seq<uch>, tokens: seq<Token>): Option<seq<uch>> {
    if |tokens| == 0 then Some(all)
    else
      match ExpandOn(all, tokens[..|tokens| - 1])
      case Some(out) => ExpandOne(out, tokens[|tokens| - 1])
      case None => None
  }

  ghost function ExpandOne(out: seq<uch>, t: Token): Option<seq<uch>> {
    match t
    case Literal(c) => Some(out + [c])
    case Match(dist, len) => if 1 <= dist <= |out| then Some(Copy(out, dist, len)) else None
  }

  /** Going on from what the tokens before have made. */
  lemma {:induction false} ExpandGoesOn(before: seq<Token>, tokens: seq<Token>)
    requires Expand(before).Some?
    ensures Expand(before + tokens) == ExpandOn(Expand(before).value, tokens)
    decreases |tokens|
  {
    hide Copy;
    if |tokens| == 0 {
      assert before + tokens == before;
    } else {
      var n := |tokens| - 1;
      assert (before + tokens)[..|before| + n] == before + tokens[..n];
      ExpandGoesOn(before, tokens[..n]);
    }
  }

  lemma ExpandFromNothing(tokens: seq<Token>)
    ensures Expand(tokens) == ExpandOn([], tokens)
  {
    assert [] + tokens == tokens;
    ExpandGoesOn([], tokens);
  }

  // One token

  lemma LiteralStep(t: Tables, k: Codes, c: uch, x: nat, at: nat, all: seq<uch>)
    requires TablesFor(t, k) && k.lit[c as int] != [] && Begins(x, at, k.lit[c as int])
    ensures Step(t, x, at, all) == Going(at + |k.lit[c as int]|, all + [c])
  {
    hide Decode, Holds, ProperTable, Begins, LenBase, LenExtra, DistBase, DistExtra, ToByte;
    var s := c as int;
    FindsWord(t.lcode, t.lenbits, MIN_MATCH, 5, MAX_MATCH, k.lit[s], LitOp(s), LitVal(s), x, at);
    ByteOf(c);
  }

  lemma ByteOf(c: uch)
    ensures ToByte(c as int) == c
  {
    hide Narrow;
    NarrowOf(c);
    assert (c as int) % 256 == c as int;
  }

  lemma NarrowOf(c: uch)
    ensures Narrow(c as int) == c
  {
  }

  lemma EndStep(t: Tables, k: Codes, x: nat, at: nat, all: seq<uch>)
    requires TablesFor(t, k) && Begins(x, at, k.lit[END])
    ensures Step(t, x, at, all) == Ended(at + |k.lit[END]|, all)
  {
    hide Decode, Holds, ProperTable, Begins, LenBase, LenExtra, DistBase, DistExtra;
    FindsWord(t.lcode, t.lenbits, MIN_MATCH, 5, MAX_MATCH, k.lit[END], LitOp(END), LitVal(END), x, at);
  }

  /** The value that extra bits add to a base. */
  lemma ExtraValue(v: nat, n: nat, x: nat, at: nat)
    requires v < Pow2(n) && Begins(x, at, Lowest(v, n))
    ensures Slice(x, at, n) == v
  {
    PackedLowest(v, n);
  }

  /** A base, found in a table, and its extra bits. */
  lemma BaseRead(t: seq<Code>, root: nat, least: nat, maxExtra: nat, most: nat, w: seq<bit>, extra: nat, base: nat,
        v: nat, x: nat, at: nat)
    requires ProperTable(t, root, least, maxExtra, most) && Holds(t, root, w, 16 + extra, base) && extra < 16
    requires base <= v && v - base < Pow2(extra) && Begins(x, at, w + Lowest(v - base, extra))
    ensures var (e, c) := Decode(t, root, x, at, least, maxExtra, most);
            && e.op == 16 + extra && IsBase(e) && Extra(e) == extra && c == at + |w|
            && e.val + Slice(x, c, extra) == v
  {
    hide Decode, Holds, ProperTable, Begins, Lowest, Slice, Pow2;
    BeginsBoth(x, at, w, Lowest(v - base, extra));
    FindsWord(t, root, least, maxExtra, most, w, 16 + extra, base, x, at);
    ExtraValue(v - base, extra, x, at + |w|);
  }

  lemma LengthStep(t: Tables, k: Codes, len: nat, x: nat, at: nat, all: seq<uch>)
    requires TablesFor(t, k) && MIN_MATCH <= len <= MAX_MATCH && k.lit[END + 1 + LenSymbol(len)] != []
    requires Begins(x, at, LenBits(k, len))
    ensures Step(t, x, at, all) == Distance(t, x, at + |LenBits(k, len)|, all, len)
  {
    hide Decode, Holds, ProperTable, Begins, Lowest, LenSymbol, LenBase, LenExtra, Distance, Slice, Pow2;
    var s := LenSymbol(len);
    LengthFits(len);
    BaseRead(t.lcode, t.lenbits, MIN_MATCH, 5, MAX_MATCH, k.lit[END + 1 + s], LenExtra(s), LenBase(s), len, x, at);
  }

  lemma DistanceStep(t: Tables, k: Codes, dist: nat, x: nat, at: nat, all: seq<uch>, len: nat)
    requires TablesFor(t, k) && 1 <= dist <= 0x8000 && k.dist[DistSymbol(dist)] != []
    requires Begins(x, at, DistBits(k, dist)) && dist <= |all|
    ensures Distance(t, x, at, all, len) == Going(at + |DistBits(k, dist)|, Copy(all, dist, len))
  {
    hide Decode, Holds, ProperTable, Begins, Lowest, DistSymbol, DistBase, DistExtra, Slice, Pow2, Copy;
    var s := DistSymbol(dist);
    DistanceFits(dist);
    BaseRead(t.dcode, t.distbits, 1, 13, 0x8000, k.dist[s], DistExtra(s), DistBase(s), dist, x, at);
  }

  /** The bits of a token lead to one step, which does what the token stands for. */
  lemma TokenStep(t: Tables, k: Codes, token: Token, x: nat, at: nat, all: seq<uch>)
    requires TablesFor(t, k) && Coded(k, token) && Begins(x, at, TokenBits(k, token)) && ExpandOne(all, token).Some?
    ensures Step(t, x, at, all) == Going(at + |TokenBits(k, token)|, ExpandOne(all, token).value)
  {
    hide Step, Distance, Holds, ProperTables, LenBits, DistBits, Begins, LenSymbol, DistSymbol, Copy;
    match token
    case Literal(c) =>
      LiteralStep(t, k, c, x, at, all);
    case Match(dist, len) =>
      BeginsBoth(x, at, LenBits(k, len), DistBits(k, dist));
      LengthStep(t, k, len, x, at, all);
      DistanceStep(t, k, dist, x, at + |LenBits(k, len)|, all, len);
  }

  // A block

  /** The steps over the bits of tokens: after n of them, the first n tokens have been expanded. */
  lemma {:induction false} TokensSteps(t: Tables, k: Codes, tokens: seq<Token>, x: nat, at: nat, all: seq<uch>)
    requires TablesFor(t, k) && AllCoded(k, tokens) && Begins(x, at, TokensBits(k, tokens))
    requires ExpandOn(all, tokens).Some?
    ensures Steps(t, x, at, all, |tokens|) == Going(at + |TokensBits(k, tokens)|, ExpandOn(all, tokens).value)
    decreases |tokens|
  {
    hide Step, Holds, Coded, TokenBits, Begins, ExpandOne;
    if |tokens| > 0 {
      var n := |tokens| - 1;
      BeginsBoth(x, at, TokensBits(k, tokens[..n]), TokenBits(k, tokens[n]));
      TokensSteps(t, k, tokens[..n], x, at, all);
      TokenStep(t, k, tokens[n], x, at + |TokensBits(k, tokens[..n])|, ExpandOn(all, tokens[..n]).value);
    }
  }

  /** The steps over the bits of a whole block: each expands one more token, and the one after the last
      token ends the block. */
  lemma BlockSteps(t: Tables, k: Codes, tokens: seq<Token>, x: nat, at: nat, all: seq<uch>, n: nat)
    requires TablesFor(t, k) && AllCoded(k, tokens) && Begins(x, at, BlockBits(k, tokens))
    requires ExpandOn(all, tokens).Some?
    ensures n <= |tokens| ==> ExpandOn(all, tokens[..n]).Some?
    ensures n <= |tokens| ==>
              Steps(t, x, at, all, n) == Going(at + |TokensBits(k, tokens[..n])|, ExpandOn(all, tokens[..n]).value)
    ensures n > |tokens| ==>
              Steps(t, x, at, all, n) == Ended(at + |BlockBits(k, tokens)|, ExpandOn(all, tokens).value)
    decreases n
  {
    hide Step, Holds, Coded, Begins, TokensBits, ExpandOn;
    BeginsBoth(x, at, TokensBits(k, tokens), k.lit[END]);
    if n <= |tokens| {
      FirstTokens(k, tokens, x, at, all, n);
      TokensSteps(t, k, tokens[..n], x, at, all);
    } else {
      BlockSteps(t, k, tokens, x, at, all, n - 1);
      assert tokens[..|tokens|] == tokens;
      EndStep(t, k, x, at + |TokensBits(k, tokens)|, ExpandOn(all, tokens).value);
    }
  }

  lemma {:induction false} FirstTokens(k: Codes, tokens: seq<Token>, x: nat, at: nat, all: seq<uch>, n: nat)
    requires ProperCodes(k) && AllCoded(k, tokens) && Begins(x, at, TokensBits(k, tokens))
    requires ExpandOn(all, tokens).Some? && n <= |tokens|
    ensures Begins(x, at, TokensBits(k, tokens[..n])) && ExpandOn(all, tokens[..n]).Some?
    decreases |tokens|
  {
    hide Coded, Begins, ExpandOne, TokenBits;
    if n == |tokens| {
      assert tokens[..n] == tokens;
    } else {
      var m := |tokens| - 1;
      BeginsBoth(x, at, TokensBits(k, tokens[..m]), TokenBits(k, tokens[m]));
      FirstTokens(k, tokens[..m], x, at, all, n);
      assert tokens[..m][..n] == tokens[..n];
    }
  }

  /** A block from the start of the data: the steps end with exactly what the tokens stand for. */
  lemma BlockComesBack(t: Tables, k: Codes, tokens: seq<Token>, data: seq<uch>, rest: seq<bit>)
    requires TablesFor(t, k) && AllCoded(k, tokens) && Expand(tokens) == Some(data)
    ensures Steps(t, Packed(BlockBits(k, tokens) + rest), 0, [], |tokens| + 1) == Ended(|BlockBits(k, tokens)|, data)
  {
    hide Steps, Holds, ProperTables, Coded, Begins, BlockBits, Expand, ExpandOn;
    var s := BlockBits(k, tokens);
    BeginsAfter([], s, rest);
    assert [] + (s + rest) == s + rest;
    ExpandFromNothing(tokens);
    BlockSteps(t, k, tokens, Packed(s + rest), 0, [], |tokens| + 1);
  }

  // inflate_fast

  /** The bits of bytes, the lowest of each byte first. */
  ghost function InputBits(input: seq<byte>): seq<bit> {
    if |input| == 0 then [] else Lowest(input[0], 8) + InputBits(input[1..])
  }

  lemma {:induction false} NumberIsPacked(input: seq<byte>)
    ensures Fast.Number(input) == Packed(InputBits(input))
  {
    hide Packed, Lowest, Pow2;
    if |input| == 0 {
      NothingPacked();
    } else {
      NumberIsPacked(input[1..]);
      SmallPowers();
      PackedLowest(input[0], 8);
      PackedConcat(Lowest(input[0], 8), InputBits(input[1..]));
    }
  }

  lemma NothingPacked()
    ensures Packed([]) == 0
  {
  }

  lemma TotalIsPacked(hold: nat, bits: nat, input: seq<byte>)
    requires hold < Pow2(bits)
    ensures Fast.Total(hold, bits, input) == Packed(Lowest(hold, bits) + InputBits(input))
  {
    hide Packed, Lowest, Pow2, InputBits, Fast.Number;
    NumberIsPacked(input);
    PackedLowest(hold, bits);
    PackedConcat(Lowest(hold, bits), InputBits(input));
  }

  /** What InflateFast has done when its input, with the bits in hold before it, are the bits of a block: it
      has put out what the tokens decoded so far stand for, and has found the end of the block exactly when
      these are all tokens of the block. */
  lemma FastDecodesBlock(t: Tables, k: Codes, tokens: seq<Token>, rest: seq<bit>, hold: nat, bits: nat,
        input: seq<byte>, all: seq<uch>, mode: Fast.Mode, c: nat, out: seq<uch>, n: nat)
    requires TablesFor(t, k) && AllCoded(k, tokens) && ExpandOn(all, tokens).Some? && hold < Pow2(bits)
    requires Lowest(hold, bits) + InputBits(input) == BlockBits(k, tokens) + rest
    requires Fast.Agrees(mode, c, out, Steps(t, Fast.Total(hold, bits, input), 0, all, n))
    ensures mode != Fast.BAD && (mode == Fast.TYPE <==> n > |tokens|)
    ensures mode == Fast.TYPE ==> ExpandOn(all, tokens) == Some(out) && c == |BlockBits(k, tokens)|
    ensures mode == Fast.LEN ==> ExpandOn(all, tokens[..n]) == Some(out) && c == |TokensBits(k, tokens[..n])|
  {
    hide Steps, Holds, ProperTables, Coded, Begins, BlockBits, TokensBits, ExpandOn, Fast.Total, Packed, Lowest, Pow2;
    hide InputBits;
    var s := BlockBits(k, tokens);
    TotalIsPacked(hold, bits, input);
    BeginsAfter([], s, rest);
    assert [] + (s + rest) == s + rest;
    BlockSteps(t, k, tokens, Packed(s + rest), 0, all, n);
  }

  // An example

  /** A code with an end of block, the literal 'A', the length 3 and the distance 1. */
  ghost function SampleCodes(): Codes {
    Codes(seq(286, s => if s == END then [0] else if s == 65 then [1, 0] else if s == 257 then [1, 1] else []),
          seq(30, s => if s == 0 then [0] else []))
  }

  ghost function SampleTables(): Tables {
    Tables([Code(96, 1, 0), Code(1, 1, 2), Code(0, 1, 65), Code(16, 1, 3)], 1, [Code(16, 1, 1), Code(64, 1, 0)], 1)
  }

  lemma SampleProper()
    ensures ProperTables(SampleTables())
  {
    hide Pow2;
    SmallPowers();
  }

  lemma SampleWords()
    ensures Packed([0]) == 0 && Packed([1, 0]) == 1 && Packed([1, 1]) == 3
  {
    assert Packed([]) == 0;
    assert [0][1..] == [] && [1][1..] == [] && [1, 0][1..] == [0] && [1, 1][1..] == [1];
    assert Packed([1]) == 1;
  }

  lemma SampleHolds()
    ensures var t := SampleTables();
            && Holds(t.lcode, 1, [0], 96, 0) && Holds(t.lcode, 1, [1, 0], 0, 65) && Holds(t.lcode, 1, [1, 1], 16, 3)
            && Holds(t.dcode, 1, [0], 16, 1)
  {
    hide Pow2, Packed;
    SmallPowers();
    SampleWords();
  }

  /** Tables for a code exist. */
  lemma SampleIsTables()
    ensures TablesFor(SampleTables(), SampleCodes())
  {
    hide Holds, ProperTables, Pow2;
    SmallPowers();
    SampleProper();
    SampleHolds();
    var t, k := SampleTables(), SampleCodes();
    forall s | 0 <= s < 286 && k.lit[s] != [] ensures Holds(t.lcode, t.lenbits, k.lit[s], LitOp(s), LitVal(s)) {
      assert s == END || s == 65 || s == 257;
      assert LenBases()[0] == 3 && LenExtras()[0] == 0;
    }
    forall s | 0 <= s < 30 && k.dist[s] != []
      ensures Holds(t.dcode, t.distbits, k.dist[s], 16 + DistExtra(s), DistBase(s))
    {
      assert s == 0;
      assert DistBases()[0] == 1 && DistExtras()[0] == 0;
    }
  }
}
