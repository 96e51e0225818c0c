/** crc32.c: the CRC of a 64-bit word, the first byte of the data in the lowest byte of the word. */
module CrcWords {
  import opened Crc32
  import opened CrcPoly
  import opened CrcTables
  import opened Words

  /** A word of which b is the lowest byte. */
  function Cons64(b: bv8, rest: bv64): bv64 {
    (b as bv64) | (rest << 8)
  }

  /** A register laid on a word. */
  function Join64(c: bv32, w: bv64): bv64 {
    (c as bv64) ^ w
  }

  function Low64(w: bv64): bv8 {
    (w & 0xff) as bv8
  }

  /** The word that up to eight bytes are read as. */
  function Load(s: seq<bv8>): bv64
    decreases |s|
  {
    if |s| == 0 then 0 else Cons64(s[0], Load(s[1..]))
  }

  function Right64(w: bv64): bv64 {
    w >> 8
  }

  function Plus64(w: bv64, t: bv32): bv64 {
    w ^ (t as bv64)
  }

  /** What the loop of crc_word makes of the word. */
  function NextWord(w: bv64): bv64 {
    Plus64(Right64(w), Shifted(8, Low64(w) as bv32))
  }

  function WordLoop(w: bv64, n: nat): bv64
    decreases n
  {
    if n == 0 then w else WordLoop(NextWord(w), n - 1)
  }

  // A word is short if it has room for one more byte.

  lemma ConsShort(b: bv8, rest: bv64)
    ensures rest == 0 ==> Cons64(b, rest) < 0x100
    ensures rest < 0x100 ==> Cons64(b, rest) < 0x1_0000
    ensures rest < 0x1_0000 ==> Cons64(b, rest) < 0x100_0000
    ensures rest < 0x100_0000 ==> Cons64(b, rest) < 0x1_0000_0000
  {
  }

  lemma ConsLonger(b: bv8, rest: bv64)
    ensures rest < 0x1_0000_0000 ==> Cons64(b, rest) < 0x100_0000_0000
    ensures rest < 0x100_0000_0000 ==> Cons64(b, rest) < 0x1_0000_0000_0000
    ensures rest < 0x1_0000_0000_0000 ==> Cons64(b, rest) < 0x100_0000_0000_0000
  {
  }

  lemma {:induction false} LoadShort(s: seq<bv8>)
    requires |s| <= 7
    decreases |s|
    ensures |s| <= 0 ==> Load(s) == 0
    ensures |s| <= 1 ==> Load(s) < 0x100
    ensures |s| <= 2 ==> Load(s) < 0x1_0000
    ensures |s| <= 3 ==> Load(s) < 0x100_0000
    ensures |s| <= 4 ==> Load(s) < 0x1_0000_0000
    ensures |s| <= 5 ==> Load(s) < 0x100_0000_0000
    ensures |s| <= 6 ==> Load(s) < 0x1_0000_0000_0000
    ensures Load(s) < 0x100_0000_0000_0000
  {
    hide Cons64;
    if |s| > 0 {
      LoadShort(s[1..]);
      ConsShort(s[0], Load(s[1..]));
      ConsLonger(s[0], Load(s[1..]));
    }
  }

  lemma JoinShifts(c: bv32, b: bv8, rest: bv64)
    requires rest < 0x100_0000_0000_0000
    ensures Right64(Join64(c, Cons64(b, rest))) == Join64(Right(c, 8), rest)
  {
  }

  lemma JoinLow(c: bv32, b: bv8, rest: bv64)
    ensures Low64(Join64(c, Cons64(b, rest))) == Low(Xor(c, b as bv32))
  {
  }

  lemma JoinXor(x: bv32, t: bv32, rest: bv64)
    ensures Plus64(Join64(x, rest), t) == Join64(Xor(x, t), rest)
  {
  }

  /** One turn of the loop is one step of the register. */
  lemma NextIsStep(c: bv32, b: bv8, rest: bv64)
    requires rest < 0x100_0000_0000_0000
    ensures NextWord(Join64(c, Cons64(b, rest))) == Join64(Step(c, b), rest)
  {
    hide Join64, Cons64, Low64, Low, Step, Shifted, Xor, Right, Right64, Plus64;
    JoinShifts(c, b, rest);
    JoinLow(c, b, rest);
    StepByTable(c, b);
    JoinXor(Right(c, 8), Shifted(8, Low(Xor(c, b as bv32)) as bv32), rest);
  }

  lemma RunFirst(c: bv32, s: seq<bv8>)
    requires |s| > 0
    ensures Run(c, s) == Run(Step(c, s[0]), s[1..])
  {
    hide Step;
    RunConcat(c, [s[0]], s[1..]);
    assert s == [s[0]] + s[1..];
    assert [s[0]][..0] == [];
    assert Run(c, []) == c;
    assert Run(c, [s[0]]) == Step(c, s[0]);
  }

  lemma {:induction false} LoopIsRun(c: bv32, s: seq<bv8>)
    requires |s| <= 8
    decreases |s|
    ensures WordLoop(Join64(c, Load(s)), |s|) == Join64(Run(c, s), 0)
  {
    hide Join64, Cons64, NextWord, Step;
    if |s| > 0 {
      LoadShort(s[1..]);
      NextIsStep(c, s[0], Load(s[1..]));
      RunFirst(c, s);
      LoopIsRun(Step(c, s[0]), s[1..]);
    }
  }

  lemma Joined(c: bv32)
    ensures (Join64(c, 0) & 0xffff_ffff) as bv32 == c
  {
  }

  /** crc_word */
  method CrcWord(table: seq<bv32>, data: bv64, ghost c: bv32, ghost s: seq<bv8>) returns (crc: bv32)
    requires ByteTable(table) && |s| == 8 && data == Join64(c, Load(s))
    ensures crc == Run(c, s)
  {
    hide Join64, NextWord, Low64, Run, Load;
    var w := data;
    LoopIsRun(c, s);
    for k := 0 to 8
      invariant WordLoop(w, 8 - k) == Join64(Run(c, s), 0)
    {
      w := OneTurn(table, w);
    }
    Joined(Run(c, s));
    crc := (w & 0xffff_ffff) as bv32;
  }

  method OneTurn(table: seq<bv32>, w: bv64) returns (r: bv64)
    requires ByteTable(table)
    ensures r == NextWord(w)
  {
    hide Low64, Shifted, Wide, Index, Right64, Plus64;
    ByteOfIndex(Low64(w));
    r := Plus64(Right64(w), table[Index(Low64(w))]);
  }

  // The bytes of a word

  /** (w >> (k << 3)) & 0xff */
  function ByteAt(w: bv64, k: nat): bv8
    requires k < 8
  {
    match k
    case 0 => Low64(w)
    case 1 => Low64(w >> 8)
    case 2 => Low64(w >> 16)
    case 3 => Low64(w >> 24)
    case 4 => Low64(w >> 32)
    case 5 => Low64(w >> 40)
    case 6 => Low64(w >> 48)
    case _ => Low64(w >> 56)
  }

  function BytesOf(w: bv64): (s: seq<bv8>)
    ensures |s| == 8 && forall k :: 0 <= k < 8 ==> s[k] == ByteAt(w, k)
  {
    [ByteAt(w, 0), ByteAt(w, 1), ByteAt(w, 2), ByteAt(w, 3), ByteAt(w, 4), ByteAt(w, 5), ByteAt(w, 6), ByteAt(w, 7)]
  }

  lemma Load8(s: seq<bv8>)
    requires |s| == 8
    ensures Load(s) == Cons64(s[0], Cons64(s[1], Cons64(s[2], Cons64(s[3],
                         Cons64(s[4], Cons64(s[5], Cons64(s[6], Cons64(s[7], 0))))))))
  {
    hide Cons64;
    Load2(s);
    Load2(s[2..]);
    Load2(s[4..]);
    Load2(s[6..]);
  }

  lemma Load2(s: seq<bv8>)
    requires |s| >= 2
    ensures Load(s) == Cons64(s[0], Cons64(s[1], Load(s[2..])))
    ensures Load([]) == 0
  {
    hide Cons64;
    assert s[1..][1..] == s[2..];
  }

  lemma ConsBytes(w: bv64)
    ensures Cons64(Low64(w), Cons64(Low64(w >> 8), Cons64(Low64(w >> 16), Cons64(Low64(w >> 24),
              Cons64(Low64(w >> 32), Cons64(Low64(w >> 40), Cons64(Low64(w >> 48), Cons64(Low64(w >> 56), 0)))))))) == w
  {
  }

  lemma LoadBytes(w: bv64)
    ensures Load(BytesOf(w)) == w
  {
    hide Cons64, Low64;
    Load8(BytesOf(w));
    ConsBytes(w);
  }

  /** A register laid on a word is as good as the register in front of its bytes. */
  lemma RunOfBytes(c: bv32, s: seq<bv8>)
    requires |s| == 8
    ensures Run(0, BytesOf(Join64(c, Load(s)))) == Run(c, s)
  {
    hide Join64, Load, BytesOf, Run;
    var w := Join64(c, Load(s));
    LoopIsRun(c, s);
    LoadBytes(w);
    JoinZero(w);
    LoopIsRun(0, BytesOf(w));
    Joined(Run(c, s));
    Joined(Run(0, BytesOf(w)));
  }

  lemma JoinZero(w: bv64)
    ensures Join64(0, w) == w
  {
  }
}
