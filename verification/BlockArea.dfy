/** arr2 while the main sort is at work: the bytes of the block, its overshoot area, and behind
    them, on an even address, the quadrant values. */
module BlockArea {
  import opened Bytes
  import opened ByteView
  import opened HalfView

  /** BZ_N_RADIX + BZ_N_QSORT + BZ_N_SHELL + 2 */
  const OVERSHOOT := 2 + 12 + 18 + 2

  /** Where the quadrant values start, in half words. */
  function QuadrantAt(nblock: nat): (r: nat)
    ensures nblock + OVERSHOOT <= 2 * r <= nblock + OVERSHOOT + 1
  {
    var i := nblock + OVERSHOOT;
    if i % 2 == 1 then (i + 1) / 2 else i / 2
  }

  /** There is room for both. */
  ghost predicate AreaOk(words: seq<int>, nblock: nat) {
    AllWords(words) && QuadrantAt(nblock) + nblock + OVERSHOOT <= 2 * |words|
  }

  lemma AreaHoldsBytes(words: seq<int>, nblock: nat)
    requires AreaOk(words, nblock)
    ensures HoldsBytes(words, nblock + OVERSHOOT)
  {
  }

  /** The block with its overshoot area. */
  function BlockOf(words: seq<int>, nblock: nat): (r: seq<byte>)
    requires AreaOk(words, nblock)
    ensures |r| == nblock + OVERSHOOT
  {
    AreaHoldsBytes(words, nblock);
    BytesOf(words, nblock + OVERSHOOT)
  }

  function HalfWord(words: seq<int>, h: nat): (r: uint16)
    requires AllWords(words) && h < 2 * |words|
  {
    HalfAt(words[h / 2], h % 2)
  }

  function QuadrantOf(words: seq<int>, nblock: nat): (r: seq<uint16>)
    requires AreaOk(words, nblock)
    ensures |r| == nblock + OVERSHOOT
  {
    var q := QuadrantAt(nblock);
    seq<uint16>(nblock + OVERSHOOT, i requires 0 <= i < nblock + OVERSHOOT => HalfWord(words, q + i))
  }

  lemma LowHalf(w: nat)
    ensures w % 0x1_0000 % 256 == w % 256 && w % 0x1_0000 / 256 == w / 256 % 256 && w / 256 / 256 == w / 0x1_0000
  {
    var x, y, z := w % 256, w / 256 % 256, w / 256 / 256;
    assert w == x + 256 * y + 0x1_0000 * z;
  }

  /** The halves of a word are its bytes, two by two. */
  lemma HalfIsTwoBytes(w: nat, k: int)
    requires w < 0x1_0000_0000 && 0 <= k < 2
    ensures ByteAt(w, 2 * k) == HalfAt(w, k) % 256 && ByteAt(w, 2 * k + 1) == HalfAt(w, k) / 256
  {
    LowHalf(w);
    assert ByteAt(w, 1) == ByteAt(w / 256, 0) == w / 256 % 256;
    if k == 1 {
      var u := w / 256 / 256;
      assert u < 0x1_0000;
      assert ByteAt(w, 2) == ByteAt(w / 256, 1) == ByteAt(u, 0) == u % 256;
      assert ByteAt(w, 3) == ByteAt(w / 256, 2) == ByteAt(u, 1) == ByteAt(u / 256, 0) == u / 256 % 256;
    }
  }

  lemma SameHalf(w: nat, w': nat, k: int)
    requires w < 0x1_0000_0000 && w' < 0x1_0000_0000 && 0 <= k < 2
    requires ByteAt(w, 2 * k) == ByteAt(w', 2 * k) && ByteAt(w, 2 * k + 1) == ByteAt(w', 2 * k + 1)
    ensures HalfAt(w, k) == HalfAt(w', k)
  {
    hide ByteAt, HalfAt;
    HalfIsTwoBytes(w, k);
    HalfIsTwoBytes(w', k);
  }

  /** Writing byte i changes no half word but that which holds it. */
  lemma OtherHalf(w: nat, j: nat, v: byte, k: int)
    requires w < 0x1_0000_0000 && j < 4 && 0 <= k < 2 && k != j / 2
    ensures WithByte(w, j, v) < 0x1_0000_0000 && HalfAt(WithByte(w, j, v), k) == HalfAt(w, k)
  {
    hide ByteAt, HalfAt, WithByte;
    FourBytes(w, j, v);
    ByteWritten(w, j, v, 2 * k);
    ByteWritten(w, j, v, 2 * k + 1);
    SameHalf(w, WithByte(w, j, v), k);
  }

  /** Writing a half word changes no byte outside it. */
  lemma OtherByte(w: nat, k: int, v: uint16, j: nat)
    requires w < 0x1_0000_0000 && 0 <= k < 2 && j < 4 && j / 2 != k
    ensures ByteAt(WithHalf(w, k, v), j) == ByteAt(w, j)
  {
    hide ByteAt, HalfAt, WithHalf;
    HalfIsTwoBytes(w, j / 2);
    HalfIsTwoBytes(WithHalf(w, k, v), j / 2);
    assert j == 2 * (j / 2) || j == 2 * (j / 2) + 1;
  }

  lemma QuadrantKept(words: seq<int>, i: int, v: byte, nblock: nat)
    requires AreaOk(words, nblock) && 0 <= i < nblock + OVERSHOOT
    ensures var words' := words[i / 4 := WithByte(words[i / 4], i % 4, v)];
      AreaOk(words', nblock) && QuadrantOf(words', nblock) == QuadrantOf(words, nblock)
  {
    hide ByteAt, HalfAt, WithByte;
    FourBytes(words[i / 4], i % 4, v);
    var words' := words[i / 4 := WithByte(words[i / 4], i % 4, v)];
    var q := QuadrantAt(nblock);
    assert AllWords(words');
    forall g | q <= g < q + nblock + OVERSHOOT ensures HalfWord(words', g) == HalfWord(words, g) {
      if g / 2 == i / 4 { OtherHalf(words[i / 4], i % 4, v, g % 2); }
    }
  }

  lemma BlockKept(words: seq<int>, i: int, v: uint16, nblock: nat)
    requires AreaOk(words, nblock) && 0 <= i < nblock + OVERSHOOT
    ensures var h := QuadrantAt(nblock) + i; var words' := words[h / 2 := WithHalf(words[h / 2], h % 2, v)];
      AreaOk(words', nblock) && BlockOf(words', nblock) == BlockOf(words, nblock)
  {
    hide ByteAt, HalfAt, WithHalf;
    var h := QuadrantAt(nblock) + i;
    var words' := words[h / 2 := WithHalf(words[h / 2], h % 2, v)];
    forall k | 0 <= k < nblock + OVERSHOOT ensures ByteAt(words'[k / 4], k % 4) == ByteAt(words[k / 4], k % 4) {
      if k / 4 == h / 2 { OtherByte(words[h / 2], h % 2, v, k % 4); }
    }
  }

  lemma QuadrantPut(words: seq<int>, i: int, v: uint16, nblock: nat)
    requires AreaOk(words, nblock) && 0 <= i < nblock + OVERSHOOT
    ensures var h := QuadrantAt(nblock) + i; var words' := words[h / 2 := WithHalf(words[h / 2], h % 2, v)];
      AreaOk(words', nblock) && QuadrantOf(words', nblock) == QuadrantOf(words, nblock)[i := v]
  {
    hide HalfAt, WithHalf;
    var q := QuadrantAt(nblock);
    var h := q + i;
    var words' := words[h / 2 := WithHalf(words[h / 2], h % 2, v)];
    assert AllWords(words');
    forall g | q <= g < q + nblock + OVERSHOOT ensures HalfWord(words', g) == if g == h then v else HalfWord(words, g) {
      if g / 2 == h / 2 && g != h { assert g % 2 == 1 - h % 2; }
    }
  }

  /** block[i] = v */
  method PutBlock(arr2: array<int>, nblock: nat, i: int, v: byte)
    requires AreaOk(arr2[..], nblock) && 0 <= i < nblock + OVERSHOOT
    modifies arr2
    ensures AreaOk(arr2[..], nblock) && QuadrantOf(arr2[..], nblock) == old(QuadrantOf(arr2[..], nblock))
    ensures BlockOf(arr2[..], nblock) == old(BlockOf(arr2[..], nblock))[i := v]
  {
    hide ByteAt, WithByte, BytesOf, QuadrantOf;
    ghost var words := arr2[..];
    AreaHoldsBytes(words, nblock);
    QuadrantKept(words, i, v, nblock);
    FourBytes(words[i / 4], i % 4, v);
    BytesAfterPut(words, words[i / 4 := WithByte(words[i / 4], i % 4, v)], i, v, nblock + OVERSHOOT);
    arr2[i / 4] := WithByte(arr2[i / 4], i % 4, v);
    assert arr2[..] == words[i / 4 := WithByte(words[i / 4], i % 4, v)];
  }

  /** quadrant[i] = v */
  method PutQuadrant(arr2: array<int>, nblock: nat, i: int, v: uint16)
    requires AreaOk(arr2[..], nblock) && 0 <= i < nblock + OVERSHOOT
    modifies arr2
    ensures AreaOk(arr2[..], nblock) && BlockOf(arr2[..], nblock) == old(BlockOf(arr2[..], nblock))
    ensures QuadrantOf(arr2[..], nblock) == old(QuadrantOf(arr2[..], nblock))[i := v]
  {
    hide HalfAt, WithHalf, BlockOf, QuadrantOf;
    ghost var words := arr2[..];
    BlockKept(words, i, v, nblock);
    QuadrantPut(words, i, v, nblock);
    var h := QuadrantAt(nblock) + i;
    arr2[h / 2] := WithHalf(arr2[h / 2], h % 2, v);
    assert arr2[..] == words[h / 2 := WithHalf(words[h / 2], h % 2, v)];
  }

  method GetBlock(arr2: array<int>, nblock: nat, i: int) returns (v: byte)
    requires AreaOk(arr2[..], nblock) && 0 <= i < nblock + OVERSHOOT
    ensures v == BlockOf(arr2[..], nblock)[i]
  {
    AreaHoldsBytes(arr2[..], nblock);
    v := GetByte(arr2, i, nblock + OVERSHOOT);
  }
}
