/** An array of 32-bit words also used as an array of 16-bit words (arr1 holds the sorted order,
    and the MTF symbols are written over it). The lower half of a word comes first. */
module HalfView {
  import opened Bytes

  function HalfAt(w: nat, k: int): (r: int)
    requires w < 0x1_0000_0000 && 0 <= k < 2
    ensures 0 <= r < 0x1_0000
  {
    if k == 0 then w % 0x1_0000 else w / 0x1_0000
  }

  function WithHalf(w: nat, k: int, v: uint16): (r: nat)
    requires w < 0x1_0000_0000 && 0 <= k < 2
    ensures r < 0x1_0000_0000
    ensures HalfAt(r, k) == v && HalfAt(r, 1 - k) == HalfAt(w, 1 - k)
  {
    if k == 0 then w / 0x1_0000 * 0x1_0000 + v else v * 0x1_0000 + w % 0x1_0000
  }

  ghost predicate AllWords(words: seq<int>) {
    forall i :: 0 <= i < |words| ==> 0 <= words[i] < 0x1_0000_0000
  }

  /** The first n half words. */
  ghost function HalvesOf(words: seq<int>, n: nat): (r: seq<int>)
    requires AllWords(words) && n <= 2 * |words|
    ensures |r| == n
  {
    seq(n, i requires 0 <= i < n => HalfAt(words[i / 2], i % 2))
  }

  method GetHalf(arr: array<int>, i: int, ghost n: nat) returns (v: uint16)
    requires AllWords(arr[..]) && 0 <= i < n <= 2 * arr.Length
    ensures v == HalvesOf(arr[..], n)[i]
  {
    v := HalfAt(arr[i / 2], i % 2);
  }

  /** Writing half word i changes that half and no word after word i. */
  method PutHalf(arr: array<int>, i: int, v: uint16)
    requires AllWords(arr[..]) && 0 <= i < 2 * arr.Length
    modifies arr
    ensures AllWords(arr[..])
    ensures HalvesOf(arr[..], i + 1) == old(HalvesOf(arr[..], i)) + [v]
    ensures forall k :: i < k < arr.Length ==> arr[k] == old(arr[k])
  {
    ghost var words := arr[..];
    assert arr[i / 2] == words[i / 2];
    var w := WithHalf(arr[i / 2], i % 2, v);
    arr[i / 2] := w;
    assert arr[..] == words[i / 2 := w];
    HalvesAfterPut(words, arr[..], i, v);
  }

  lemma HalvesAfterPut(words: seq<int>, words': seq<int>, i: int, v: uint16)
    requires AllWords(words) && 0 <= i < 2 * |words|
    requires words' == words[i / 2 := WithHalf(words[i / 2], i % 2, v)]
    ensures AllWords(words') && HalvesOf(words', i + 1) == HalvesOf(words, i) + [v]
  {
    forall k | 0 <= k < i ensures HalfAt(words'[k / 2], k % 2) == HalfAt(words[k / 2], k % 2) {
      if k / 2 == i / 2 { assert k % 2 == 1 - i % 2; }
    }
  }
}
