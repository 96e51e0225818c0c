/** crc32.c: the little-endian braided calculation, in which every N-th word belongs to one of N
    registers that advance on their own. */
module CrcBraid {
  import opened Bytes
  import opened Crc32
  import opened CrcPoly
  import opened CrcTables
  import opened CrcWords
  import opened Words

  /** The number of braids, and the bytes in a word. */
  const N := 5
  const W := 8

  // One word of a braid

  /** The sum of the bytes of s, the first of them shifted by 8n, the next by 8 less and so on. */
  ghost function Spread(s: seq<bv8>, n: nat): bv32
    requires |s| <= n
  {
    if |s| == 0 then 0
    else
      var i := |s| - 1; Xor(Spread(s[..i], n), Shifted(8 * (n - i), s[i] as bv32))
  }

  lemma {:induction false} SpreadIsRun(s: seq<bv8>, n: nat)
    requires |s| <= n
    ensures Spread(s, n) == Shifted(8 * (n - |s|), Run(0, s))
    decreases |s|
  {
    hide Xor, Shifted;
    if |s| == 0 {
      ShiftedZero(8 * n);
    } else {
      var i := |s| - 1;
      SpreadIsRun(s[..i], n);
      ShiftedAdds(8, Run(0, s[..i]), s[i] as bv32);
      ShiftedAdds(8 * (n - |s|), Shifted(8, Run(0, s[..i])), Shifted(8, s[i] as bv32));
      ShiftedShifted(8 * (n - |s|), 8, Run(0, s[..i]));
      ShiftedShifted(8 * (n - |s|), 8, s[i] as bv32);
    }
  }

  /** The register of a braid after one word, moved to where the next word of the braid begins. */
  method BraidWord(table: seq<seq<bv32>>, word: bv64) returns (crc: bv32)
    requires BraidTable(table, N, W)
    ensures crc == Shifted(8 * (N - 1) * W, Run(0, BytesOf(word)))
  {
    hide Xor, Shifted, Run, BytesOf, ByteAt, Wide, Index;
    ghost var s := BytesOf(word);
    crc := table[0][Index(ByteAt(word, 0))];
    FirstByteSpread(table, s);
    for k := 1 to W
      invariant crc == Spread(s[..k], N * W)
    {
      ByteOfIndex(ByteAt(word, k));
      assert s[..k + 1][..k] == s[..k];
      crc := Xor(crc, table[k][Index(ByteAt(word, k))]);
    }
    assert s[..W] == s;
    SpreadIsRun(s, N * W);
  }

  lemma FirstByteSpread(table: seq<seq<bv32>>, s: seq<bv8>)
    requires BraidTable(table, N, W) && |s| == W
    ensures table[0][Index(s[0])] == Spread(s[..1], N * W)
  {
    hide Xor, Shifted, Wide, Index;
    ByteOfIndex(s[0]);
    assert s[..1][..0] == [];
    assert Spread(s[..1], N * W) == Xor(Spread([], N * W), Shifted(8 * N * W, s[0] as bv32));
    XorZero(Shifted(8 * N * W, s[0] as bv32));
  }

  // The registers of all braids

  /** What the first j registers stand for, when rem bytes follow the point where the first one is. */
  ghost function Pending(crc: seq<bv32>, rem: nat, j: nat): bv32
    requires j <= |crc| && W * j <= rem + W
  {
    if j == 0 then 0 else Xor(Pending(crc, rem, j - 1), Shifted(8 * (rem - W * (j - 1)), crc[j - 1]))
  }

  lemma {:induction false} NothingPending(crc: seq<bv32>, rem: nat, j: nat)
    requires 1 <= j <= |crc| && W * j <= rem + W && forall i :: 0 < i < j ==> crc[i] == 0
    ensures Pending(crc, rem, j) == Shifted(8 * rem, crc[0])
  {
    hide Xor, Shifted;
    XorZero(Shifted(8 * rem, crc[0]));
    if j == 1 {
      assert Pending(crc, rem, 0) == 0;
    } else {
      NothingPending(crc, rem, j - 1);
      ShiftedZero(8 * (rem - W * (j - 1)));
    }
  }

  lemma {:induction false} PendingShifts(crc: seq<bv32>, rem: nat, j: nat)
    requires j <= |crc| && W * j <= rem + W
    ensures Shifted(8 * W, Pending(crc, rem, j)) == Pending(crc, rem + W, j)
  {
    hide Xor, Shifted;
    if j == 0 {
      ShiftedZero(8 * W);
    } else {
      PendingShifts(crc, rem, j - 1);
      var k := 8 * (rem - W * (j - 1));
      ShiftedAdds(8 * W, Pending(crc, rem, j - 1), Shifted(k, crc[j - 1]));
      ShiftedShifted(8 * W, k, crc[j - 1]);
    }
  }

  /** A block of N words and the registers before it, up to word j, against the registers after it. */
  lemma {:induction false} BlockStep(blk: seq<bv8>, crc: seq<bv32>, next: seq<bv32>, rem: nat, j: nat)
    requires |blk| == N * W && |crc| == |next| == N && j <= N && 2 * N * W <= rem
    requires forall i :: 0 <= i < N ==> next[i] == Shifted(8 * (N - 1) * W, Run(crc[i], Word(blk, i)))
    ensures Xor(Shifted(8 * (rem - W * j), Run(0, blk[..W * j])), Pending(crc, rem, j)) == Pending(next, rem - N * W, j)
  {
    hide Xor, Shifted;
    if j == 0 {
      ShiftedZero(8 * rem);
      XorZero(0);
    } else {
      BlockStep(blk, crc, next, rem, j - 1);
      OneWordOfBlock(blk, crc[j - 1], rem, j - 1);
      var a, b := Shifted(8 * (rem - W * (j - 1)), Run(0, blk[..W * (j - 1)])), Pending(crc, rem, j - 1);
      var n := Shifted(8 * (rem - W * j), Run(0, Word(blk, j - 1)));
      var d := Shifted(8 * (rem - W * (j - 1)), crc[j - 1]);
      XorSwaps(a, n, b, d);
    }
  }

  function Word(blk: seq<bv8>, i: nat): (s: seq<bv8>)
    requires W * i + W <= |blk|
    ensures |s| == W
  {
    blk[W * i..W * i + W]
  }

  lemma OneWordOfBlock(blk: seq<bv8>, c: bv32, rem: nat, i: nat)
    requires |blk| == N * W && i < N && 2 * N * W <= rem
    ensures Shifted(8 * (rem - W * (i + 1)), Run(0, blk[..W * (i + 1)])) ==
            Xor(Shifted(8 * (rem - W * i), Run(0, blk[..W * i])),
                Shifted(8 * (rem - W * (i + 1)), Run(0, Word(blk, i))))
    ensures Shifted(8 * (rem - N * W - W * i), Shifted(8 * (N - 1) * W, Run(c, Word(blk, i)))) ==
            Xor(Shifted(8 * (rem - W * (i + 1)), Run(0, Word(blk, i))), Shifted(8 * (rem - W * i), c))
  {
    hide Xor, Shifted, Run;
    var k := 8 * (rem - W * (i + 1));
    var r, w := Run(0, blk[..W * i]), Word(blk, i);
    assert blk[..W * (i + 1)] == blk[..W * i] + w;
    RunConcat(0, blk[..W * i], w);
    RunFromZero(r, w);
    ShiftedAdds(k, Shifted(8 * W, r), Run(0, w));
    ShiftedShifted(k, 8 * W, r);
    RunFromZero(c, w);
    ShiftedShifted(8 * (rem - N * W - W * i), 8 * (N - 1) * W, Run(c, w));
    ShiftedAdds(k, Shifted(8 * W, c), Run(0, w));
    ShiftedShifted(k, 8 * W, c);
    XorCommutes(Shifted(k, Run(0, w)), Shifted(8 * (rem - W * i), c));
  }

  lemma RunFromZero(c: bv32, s: seq<bv8>)
    ensures Run(c, s) == Xor(Shifted(8 * |s|, c), Run(0, s))
  {
    hide Run, Shifted, Xor;
    RunAdds(0, c, s);
    XorZero(c);
    XorCommutes(Shifted(8 * |s|, c), Run(0, s));
  }

  /** The words of one block, each with the register of its braid. */
  method NextRegisters(braid: seq<seq<bv32>>, crc: seq<bv32>, blk: seq<bv8>) returns (next: seq<bv32>)
    requires BraidTable(braid, N, W) && |crc| == N && |blk| == N * W
    ensures |next| == N
    ensures forall i :: 0 <= i < N ==> next[i] == Shifted(8 * (N - 1) * W, Run(crc[i], Word(blk, i)))
  {
    hide Run, Shifted, BytesOf, Load, Join64, BraidTable;
    next := [];
    for j := 0 to N
      invariant |next| == j
      invariant forall i :: 0 <= i < j ==> next[i] == Shifted(8 * (N - 1) * W, Run(crc[i], Word(blk, i)))
    {
      var word := Join64(crc[j], Load(Word(blk, j)));
      RunOfBytes(crc[j], Word(blk, j));
      var c := BraidWord(braid, word);
      next := next + [c];
    }
  }

  /** A whole block later, registers and rest still stand for the same. */
  lemma BlockKeeps(s: seq<bv8>, crc: seq<bv32>, next: seq<bv32>)
    requires 2 * N * W <= |s| && |crc| == |next| == N
    requires forall i :: 0 <= i < N ==> next[i] == Shifted(8 * (N - 1) * W, Run(crc[i], Word(s[..N * W], i)))
    ensures Xor(Run(0, s[N * W..]), Pending(next, |s| - N * W, N)) == Xor(Run(0, s), Pending(crc, |s|, N))
  {
    hide Xor, Shifted, Run, Pending;
    var blk, rest := s[..N * W], s[N * W..];
    BlockStep(blk, crc, next, |s|, N);
    assert blk[..W * N] == blk && s == blk + rest;
    RunConcat(0, blk, rest);
    RunFromZero(Run(0, blk), rest);
    var a, b, d := Run(0, rest), Shifted(8 * |rest|, Run(0, blk)), Pending(crc, |s|, N);
    XorCommutes(a, b);
    XorAssociates(a, b, d);
  }

  lemma LastWord(s: seq<bv8>, crc: seq<bv32>, j: nat)
    requires |s| == N * W && |crc| == N && j < N
    ensures var c := Xor(Run(0, s[..W * j]), Pending(crc, W * j, j));
            Run(Xor(crc[j], c), Word(s, j)) == Xor(Run(0, s[..W * (j + 1)]), Pending(crc, W * (j + 1), j + 1))
  {
    hide Xor, Shifted, Run;
    var r, p, w := Run(0, s[..W * j]), Pending(crc, W * j, j), Word(s, j);
    assert s[..W * (j + 1)] == s[..W * j] + w;
    RunConcat(0, s[..W * j], w);
    XorCommutes(crc[j], Xor(r, p));
    XorAssociates(r, p, crc[j]);
    RunAdds(r, Xor(p, crc[j]), w);
    ShiftedAdds(8 * W, p, crc[j]);
    PendingShifts(crc, W * j, j);
  }

  /** The last block, in which the registers are combined. */
  method LastBlock(table: seq<bv32>, crc: seq<bv32>, s: seq<bv8>) returns (c: bv32)
    requires ByteTable(table) && |crc| == N && |s| == N * W
    ensures c == Xor(Run(0, s), Pending(crc, N * W, N))
  {
    hide Xor, Run, Load, Join64, ByteTable, Pending;
    FirstWord(s, crc);
    c := CrcWord(table, Join64(crc[0], Load(Word(s, 0))), crc[0], Word(s, 0));
    for j := 1 to N
      invariant c == Xor(Run(0, s[..W * j]), Pending(crc, W * j, j))
    {
      LastWord(s, crc, j);
      c := CrcWord(table, Join64(Xor(crc[j], c), Load(Word(s, j))), Xor(crc[j], c), Word(s, j));
    }
    assert s[..N * W] == s;
  }

  lemma FirstWord(s: seq<bv8>, crc: seq<bv32>)
    requires |s| == N * W && |crc| == N
    ensures Run(crc[0], Word(s, 0)) == Xor(Run(0, s[..W]), Pending(crc, W, 1))
  {
    hide Xor, Shifted, Pending;
    LastWord(s, crc, 0);
    NoWord(s, crc);
    XorZero(0);
    XorZero(crc[0]);
  }

  lemma NoWord(s: seq<bv8>, crc: seq<bv32>)
    requires |s| == N * W && |crc| == N
    ensures Run(0, s[..0]) == 0 && Pending(crc, 0, 0) == 0
  {
  }

  /** The braided calculation on a positive number of blocks. */
  method Braided(table: seq<bv32>, braid: seq<seq<bv32>>, c: bv32, s: seq<bv8>, blks: nat) returns (r: bv32)
    requires ByteTable(table) && BraidTable(braid, N, W) && blks > 0 && |s| == N * W * blks
    ensures r == Run(c, s)
  {
    hide Xor, Run, ByteTable, BraidTable, Shifted, Pending, Word;
    var crc := [c] + seq(N - 1, _ => 0);
    var pos, b := 0, blks - 1;
    NothingPending(crc, |s|, N);
    RunFromZero(c, s);
    XorCommutes(Shifted(8 * |s|, c), Run(0, s));
    assert s[0..] == s;
    while b != 0
      invariant |crc| == N && 0 <= pos <= |s| && |s| - pos == N * W * (b + 1)
      invariant Xor(Run(0, s[pos..]), Pending(crc, |s| - pos, N)) == Run(c, s)
    {
      var next := NextRegisters(braid, crc, s[pos..pos + N * W]);
      assert s[pos..][..N * W] == s[pos..pos + N * W] && s[pos..][N * W..] == s[pos + N * W..];
      BlockKeeps(s[pos..], crc, next);
      crc, pos, b := next, pos + N * W, b - 1;
    }
    r := LastBlock(table, crc, s[pos..]);
  }

  // crc32_z

  /** crc = (crc >> 8) ^ crc_table[(crc ^ *buf++) & 0xff] */
  method OneByte(table: seq<bv32>, c: bv32, ghost s: seq<bv8>, ghost from: bv32, b: bv8) returns (r: bv32)
    requires ByteTable(table) && c == Run(from, s)
    ensures r == Run(from, s + [b])
  {
    hide Xor, Shifted, Right, Low, Index, Wide, Step;
    var i := Low(Xor(c, b as bv32));
    ByteOfIndex(i);
    StepByTable(c, b);
    assert (s + [b])[..|s + [b]| - 1] == s;
    r := Xor(Right(c, 8), table[Index(i)]);
  }

  /** The bytes of s from pos to end one at a time. */
  method ByteByByte(table: seq<bv32>, c: bv32, from: bv32, s: seq<bv8>, pos: nat, end: nat) returns (r: bv32)
    requires ByteTable(table) && pos <= end <= |s| && c == Run(from, s[..pos])
    ensures r == Run(from, s[..end])
  {
    hide Run, ByteTable;
    r := c;
    for i := pos to end
      invariant r == Run(from, s[..i])
    {
      r := OneByte(table, r, s[..i], from, s[i]);
      assert s[..i + 1] == s[..i] + [s[i]];
    }
  }

  /** crc32_z with len the length of the buffer and addr its address; None is Z_NULL. */
  method Crc32Z(table: seq<bv32>, braid: seq<seq<bv32>>, crc: bv32, buf: Option<seq<bv8>>, addr: nat) returns (r: bv32)
    requires ByteTable(table) && BraidTable(braid, N, W)
    ensures buf.None? ==> r == 0
    ensures buf.Some? ==> r == Xor(Run(Xor(crc, ONES), buf.value), ONES)
    ensures buf.Some? ==> forall s :: Crc(s) == crc ==> r == Crc(s + buf.value)
  {
    hide Xor, Run, ByteTable, BraidTable, Crc;
    if buf.None? {
      return 0;
    }
    var s := buf.value;
    var from := Xor(crc, ONES);
    var c, pos := from, 0;
    NoBytes(from, s);
    if |s| >= N * W + W - 1 {
      while pos < |s| && (addr + pos) % W != 0
        invariant 0 <= pos <= (W - addr % W) % W && c == Run(from, s[..pos])
      {
        c := OneByte(table, c, s[..pos], from, s[pos]);
        assert s[..pos + 1] == s[..pos] + [s[pos]];
        pos := pos + 1;
      }
      var blks := (|s| - pos) / (N * W);
      var end := pos + N * W * blks;
      c := Braided(table, braid, c, s[pos..end], blks);
      RunConcat(from, s[..pos], s[pos..end]);
      assert s[..end] == s[..pos] + s[pos..end];
      pos := end;
    }
    while |s| - pos >= 8
      invariant 0 <= pos <= |s| && c == Run(from, s[..pos])
    {
      c := ByteByByte(table, c, from, s, pos, pos + 8);
      pos := pos + 8;
    }
    c := ByteByByte(table, c, from, s, pos, |s|);
    assert s[..|s|] == s;
    r := Xor(c, ONES);
    forall t | Crc(t) == crc ensures r == Crc(t + s) {
      CrcGoesOn(t, s);
    }
  }

  lemma NoBytes(c: bv32, s: seq<bv8>)
    ensures Run(c, s[..0]) == c
  {
  }
}
