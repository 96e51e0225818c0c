/** An array of 32-bit words also used as an array of bytes (arr2 holds the block, and its words
    serve as eclass while the block is being sorted). Bytes are laid out least significant first. */
module ByteView {
  import opened Bytes

  /** Byte k of a word. */
  function ByteAt(w: nat, k: nat): (r: byte) {
    if k == 0 then w % 256 else ByteAt(w / 256, k - 1)
  }

  /** The word with byte k replaced. */
  function WithByte(w: nat, k: nat, v: byte): nat {
    if k == 0 then w / 256 * 256 + v else WithByte(w / 256, k - 1, v) * 256 + w % 256
  }

  lemma {:induction false} ByteWritten(w: nat, k: nat, v: byte, j: nat)
    ensures ByteAt(WithByte(w, k, v), j) == if j == k then v else ByteAt(w, j)
    decreases k
  {
    if k == 0 {
      assert WithByte(w, k, v) / 256 == w / 256;
    } else {
      assert WithByte(w, k, v) / 256 == WithByte(w / 256, k - 1, v) && WithByte(w, k, v) % 256 == w % 256;
      if j > 0 { ByteWritten(w / 256, k - 1, v, j - 1); }
    }
  }

  function Pow256(n: nat): nat {
    if n == 0 then 1 else 256 * Pow256(n - 1)
  }

  lemma {:induction false} WordStays(w: nat, k: nat, v: byte, n: nat)
    requires w < Pow256(n) && k < n
    ensures WithByte(w, k, v) < Pow256(n)
    decreases k
  {
    if k > 0 {
      WordStays(w / 256, k - 1, v, n - 1);
    } else {
      assert w / 256 < Pow256(n - 1);
    }
  }

  lemma FourBytes(w: nat, k: nat, v: byte)
    requires w < 0x1_0000_0000 && k < 4
    ensures WithByte(w, k, v) < 0x1_0000_0000
  {
    assert Pow256(4) == 0x1_0000_0000;
    WordStays(w, k, v, 4);
  }

  /** The words that hold the first n bytes. */
  ghost predicate HoldsBytes(words: seq<int>, n: int) {
    0 <= n <= 4 * |words| && forall i :: 0 <= i < n ==> 0 <= words[i / 4] < 0x1_0000_0000
  }

  function BytesOf(words: seq<int>, n: int): (r: seq<byte>)
    requires HoldsBytes(words, n)
    ensures |r| == n
  {
    seq(n, i requires 0 <= i < n => ByteAt(words[i / 4], i % 4))
  }

  method GetByte(arr: array<int>, i: int, ghost n: int) returns (v: byte)
    requires HoldsBytes(arr[..], n) && 0 <= i < n
    ensures v == BytesOf(arr[..], n)[i]
  {
    assert arr[i / 4] == arr[..][i / 4];
    v := ByteAt(arr[i / 4], i % 4);
  }

  method PutByte(arr: array<int>, i: int, v: byte, ghost n: int)
    requires HoldsBytes(arr[..], n) && 0 <= i < n
    modifies arr
    ensures HoldsBytes(arr[..], n)
    ensures BytesOf(arr[..], n) == old(BytesOf(arr[..], n))[i := v]
  {
    ghost var words := arr[..];
    assert arr[i / 4] == words[i / 4];
    FourBytes(arr[i / 4], i % 4, v);
    var w := WithByte(arr[i / 4], i % 4, v);
    arr[i / 4] := w;
    assert arr[..] == words[i / 4 := w];
    BytesAfterPut(words, arr[..], i, v, n);
  }

  lemma BytesAfterPut(words: seq<int>, words': seq<int>, i: int, v: byte, n: int)
    requires HoldsBytes(words, n) && 0 <= i < n
    requires words' == words[i / 4 := WithByte(words[i / 4], i % 4, v)]
    ensures HoldsBytes(words', n) && BytesOf(words', n) == BytesOf(words, n)[i := v]
  {
    forall k | 0 <= k < n
      ensures 0 <= words'[k / 4] < 0x1_0000_0000
      ensures ByteAt(words'[k / 4], k % 4) == if k == i then v else ByteAt(words[k / 4], k % 4)
    {
      if k / 4 == i / 4 {
        FourBytes(words[i / 4], i % 4, v);
        ByteWritten(words[i / 4], i % 4, v, k % 4);
      }
    }
  }
}
