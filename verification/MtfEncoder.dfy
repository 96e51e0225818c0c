/** generateMTFValues: the last column becomes MTF symbols, written over the sorted order. */
module MtfEncoder {
  import opened Bytes
  import opened Permutations
  import opened Rotations
  import opened ByteMaps
  import opened ByteView
  import opened HalfView
  import opened MtfCoding

  /** The inner loop: find x in the list, shift everything before it up by one and put it in
      front. */
  method FindAndShift(yy: array<int>, n: int, x: int) returns (j: int)
    requires 0 < n <= yy.Length && x in yy[..n] && yy[0] != x
    modifies yy
    ensures j == IndexIn(old(yy[..n]), x) > 0
    ensures yy[..n] == ToFront(old(yy[..n]), j)
  {
    ghost var list := yy[..n];
    assert list[0] == yy[0];
    ghost var at := IndexIn(list, x);
    var rtmp := yy[1];
    yy[1] := yy[0];
    j := 1;
    while x != rtmp
      invariant 1 <= j <= at && rtmp == list[j]
      invariant yy[0] == list[0]
      invariant forall k :: 1 <= k <= j ==> yy[k] == list[k - 1]
      invariant forall k :: j < k < n ==> yy[k] == list[k]
      decreases at - j
    {
      j := j + 1;
      var rtmp2 := rtmp;
      rtmp := yy[j];
      yy[j] := rtmp2;
    }
    yy[0] := rtmp;
    ShiftedIsToFront(list, yy[..n], j);
  }

  lemma ShiftedIsToFront(list: seq<int>, now: seq<int>, j: int)
    requires 0 <= j < |list| == |now| && now[0] == list[j]
    requires forall k :: 1 <= k <= j ==> now[k] == list[k - 1]
    requires forall k :: j < k < |list| ==> now[k] == list[k]
    ensures now == ToFront(list, j)
  {
  }

  /** Write the digits of a pending run after the first wr half words of arr1. */
  method WriteRun(arr1: array<int>, wr0: int, zPend0: nat, ghost out: seq<int>) returns (wr: int)
    requires AllWords(arr1[..]) && 0 <= wr0 == |out| && wr0 + zPend0 <= 2 * arr1.Length
    requires HalvesOf(arr1[..], wr0) == out
    modifies arr1
    ensures AllWords(arr1[..]) && wr == wr0 + |RunDigits(zPend0)|
    ensures HalvesOf(arr1[..], wr) == out + RunDigits(zPend0)
    ensures forall k :: wr0 + zPend0 <= k < arr1.Length ==> arr1[k] == old(arr1[k])
  {
    hide RunDigits;
    wr := wr0;
    ghost var done := out;
    if zPend0 > 0 {
      var zPend := zPend0 - 1;
      while true
        invariant AllWords(arr1[..]) && 0 <= zPend
        invariant |done| == wr && wr + zPend + 1 <= wr0 + zPend0
        invariant Owed(done, zPend + 1, out, zPend0)
        invariant HalvesOf(arr1[..], wr) == done
        invariant forall k :: wr0 + zPend0 <= k < arr1.Length ==> arr1[k] == old(arr1[k])
        decreases zPend
      {
        DigitMoves(done, zPend, out, zPend0);
        PutHalf(arr1, wr, if zPend % 2 == 1 then RUNB else RUNA);
        done := done + [zPend % 2];
        wr := wr + 1;
        if zPend < 2 { break; }
        zPend := (zPend - 2) / 2;
      }
    }
    assert done + [] == done;
  }

  /** What is still to be written after done, to complete the digits of z0. */
  ghost predicate Owed(done: seq<int>, z: nat, out: seq<int>, z0: nat) {
    done + RunDigits(z) == out + RunDigits(z0)
  }

  lemma DigitMoves(done: seq<int>, z: nat, out: seq<int>, z0: nat)
    requires Owed(done, z + 1, out, z0)
    ensures Owed(done + [z % 2], z / 2, out, z0)
    ensures z >= 2 ==> (z - 2) / 2 + 1 == z / 2
    ensures z < 2 ==> RunDigits(z / 2) == [] && done + [z % 2] == out + RunDigits(z0)
  {
    assert RunDigits(z + 1) == [z % 2] + RunDigits(z / 2);
    Regroup(done, [], [z % 2], RunDigits(z / 2));
    assert [] + [z % 2] == [z % 2] && done + [] == done;
    if z < 2 { assert done + [z % 2] + [] == done + [z % 2]; }
  }

  /** What the sorted order and the block give generateMTFValues to code: the last column, each
      byte as its index among the bytes in use. */
  ghost function ColumnIndices(b: seq<byte>, order: seq<int>, inUse: seq<bool>): (r: seq<int>)
    requires |order| == |b| && Permutation(order) && |inUse| == 256
    ensures |r| == |b|
  {
    seq(|b|, i requires 0 <= i < |b| => Rank(inUse, LastColumn(b, order)[i]))
  }

  lemma IndicesInList(b: seq<byte>, order: seq<int>, inUse: seq<bool>)
    requires |order| == |b| && Permutation(order) && Covers(inUse, b)
    ensures forall i :: 0 <= i < |b| ==> ColumnIndices(b, order, inUse)[i] in Identity(Rank(inUse, 256))
  {
    forall i | 0 <= i < |b| ensures ColumnIndices(b, order, inUse)[i] in Identity(Rank(inUse, 256)) {
      var c := LastColumn(b, order)[i];
      RankMonotone(inUse, c, 256);
      assert Identity(Rank(inUse, 256))[Rank(inUse, c)] == Rank(inUse, c);
    }
  }

  /** What the main loop keeps after i bytes: what has been written and what is pending lead to
      the whole encoding, the sorted order is intact from i on, and the write index together with
      the pending run stays behind the read index. */
  ghost predicate Coding(arr1: seq<int>, order: seq<int>, col: seq<int>, i: int, list: seq<int>, wr: int, zPend: int,
                         eob: int, goal: seq<int>)
  {
    && |arr1| == |order| == |col| && 0 <= i <= |col| && |list| > 0 && 0 <= wr && 0 <= zPend
    && wr + zPend <= i && AllWords(arr1)
    && (forall k :: i <= k < |order| ==> arr1[k] == order[k])
    && (forall k :: 0 <= k < |col| ==> col[k] in list)
    && HalvesOf(arr1, wr) + Encode(col, i, list, zPend, eob) == goal
  }

  /** One byte that is not at the front: write the pending run and the symbol. */
  method CodeSymbol(arr1: array<int>, yy: array<int>, nInUse: int, x: int, wr: int, zPend: int,
                    ghost order: seq<int>, ghost col: seq<int>, ghost i: int, ghost eob: int, ghost goal: seq<int>)
    returns (wr': int)
    requires arr1 != yy && 0 < nInUse <= yy.Length && nInUse < 0xffff
    requires 0 <= i < |col| && x == col[i] && yy[0] != x
    requires Coding(arr1[..], order, col, i, yy[..nInUse], wr, zPend, eob, goal)
    modifies arr1, yy
    ensures Coding(arr1[..], order, col, i + 1, yy[..nInUse], wr', 0, eob, goal)
  {
    hide RunDigits, IndexIn, ToFront, Encode, HalvesOf;
    ghost var list, out := yy[..nInUse], HalvesOf(arr1[..], wr);
    assert list[0] == yy[0];
    wr' := WriteRun(arr1, wr, zPend, out);
    var j := FindAndShift(yy, nInUse, x);
    PutHalf(arr1, wr', j + 1);
    wr' := wr' + 1;
    AllStay(col, list, j);
    EncodeUnfolds(col, i, list, zPend, eob, out, HalvesOf(arr1[..], wr'), goal);
  }

  lemma EncodeUnfolds(col: seq<int>, i: int, list: seq<int>, z: nat, eob: int, out: seq<int>, out': seq<int>,
        goal: seq<int>)
    requires 0 <= i < |col| && |list| > 0 && list[0] != col[i]
    requires forall k :: 0 <= k < |col| ==> col[k] in list
    requires forall k :: 0 <= k < |col| ==> col[k] in ToFront(list, IndexIn(list, col[i]))
    requires out + Encode(col, i, list, z, eob) == goal
    requires out' == out + RunDigits(z) + [IndexIn(list, col[i]) + 1]
    ensures out' + Encode(col, i + 1, ToFront(list, IndexIn(list, col[i])), 0, eob) == goal
  {
    hide RunDigits, IndexIn, ToFront;
    var j := IndexIn(list, col[i]);
    Regroup(out, RunDigits(z), [j + 1], Encode(col, i + 1, ToFront(list, j), 0, eob));
  }

  lemma Regroup(a: seq<int>, b: seq<int>, c: seq<int>, d: seq<int>)
    ensures a + (b + c + d) == a + b + c + d
  {
  }

  /** The byte before position i of the order, as an index among the bytes in use. */
  method ColumnIndex(arr1: array<int>, arr2: array<int>, nblock: int, i: int, unseqToSeq: array<int>,
                     ghost b: seq<byte>, ghost order: seq<int>, ghost inUse: seq<bool>)
    returns (x: int)
    requires 0 <= i < nblock == |b| == |order| == arr1.Length
    requires Permutation(order) && arr1[i] == order[i] && Covers(inUse, b)
    requires HoldsBytes(arr2[..], nblock) && BytesOf(arr2[..], nblock) == b
    requires unseqToSeq.Length == 256
    requires forall c :: 0 <= c < 256 && inUse[c] ==> unseqToSeq[c] == Rank(inUse, c)
    ensures x == ColumnIndices(b, order, inUse)[i]
  {
    var j := arr1[i] - 1;
    if j < 0 { j := j + nblock; }
    assert j == Prev(nblock, order[i]);
    var byt := GetByte(arr2, j, nblock);
    x := unseqToSeq[byt];
  }

  /** One turn of the main loop. */
  method CodeByte(arr1: array<int>, yy: array<int>, nInUse: int, x: int, wr0: int, zPend0: int,
                  ghost order: seq<int>, ghost col: seq<int>, ghost i: int, ghost eob: int, ghost goal: seq<int>)
    returns (wr: int, zPend: int)
    requires arr1 != yy && 0 < nInUse <= yy.Length && nInUse < 0xffff
    requires 0 <= i < |col| && x == col[i]
    requires Coding(arr1[..], order, col, i, yy[..nInUse], wr0, zPend0, eob, goal)
    modifies arr1, yy
    ensures Coding(arr1[..], order, col, i + 1, yy[..nInUse], wr, zPend, eob, goal)
  {
    assert yy[0] == yy[..nInUse][0];
    if yy[0] == x {
      wr, zPend := wr0, zPend0 + 1;
    } else {
      wr := CodeSymbol(arr1, yy, nInUse, x, wr0, zPend0, order, col, i, eob, goal);
      zPend := 0;
    }
  }

  /** generateMTFValues from the point where the maps have been made: the symbols of the last
      column end up in the half words of arr1, which holds the order they are computed from. */
  method GenerateMTFValues(arr1: array<int>, arr2: array<int>, nblock: int, unseqToSeq: array<int>, nInUse: int,
                           ghost b: seq<byte>, ghost order: seq<int>, ghost inUse: seq<bool>)
    returns (nMTF: int)
    requires arr1 != arr2 && arr1 != unseqToSeq && 0 < nblock == |b| == arr1.Length < 0x1_0000_0000
    requires arr1[..] == order && Permutation(order) && Covers(inUse, b)
    requires HoldsBytes(arr2[..], nblock) && BytesOf(arr2[..], nblock) == b
    requires unseqToSeq.Length == 256 && nInUse == Rank(inUse, 256)
    requires forall c :: 0 <= c < 256 && inUse[c] ==> unseqToSeq[c] == Rank(inUse, c)
    modifies arr1
    ensures AllWords(arr1[..]) && 0 < nMTF <= nblock + 1 <= 2 * arr1.Length
    ensures nInUse > 0
    ensures var col := ColumnIndices(b, order, inUse);
      && (forall k :: 0 <= k < |col| ==> col[k] in Identity(nInUse))
      && HalvesOf(arr1[..], nMTF) == Encode(col, 0, Identity(nInUse), 0, nInUse + 1)
  {
    hide Encode, ColumnIndices, Rank;
    IndicesInList(b, order, inUse);
    ghost var col := ColumnIndices(b, order, inUse);
    assert col[0] in Identity(nInUse);
    var eob := nInUse + 1;
    var yy := new int[256](i => i);
    assert yy[..nInUse] == Identity(nInUse);
    ghost var goal := Encode(col, 0, yy[..nInUse], 0, eob);
    var wr, zPend := 0, 0;
    assert HalvesOf(arr1[..], 0) + goal == goal;
    for i := 0 to nblock
      invariant Coding(arr1[..], order, col, i, yy[..nInUse], wr, zPend, eob, goal)
    {
      var x := ColumnIndex(arr1, arr2, nblock, i, unseqToSeq, b, order, inUse);
      wr, zPend := CodeByte(arr1, yy, nInUse, x, wr, zPend, order, col, i, eob, goal);
    }
    nMTF := FinishCoding(arr1, wr, zPend, eob, order, col, yy[..nInUse], goal);
  }

  /** The last run and EOB. */
  method FinishCoding(arr1: array<int>, wr: int, zPend: int, eob: int, ghost order: seq<int>, ghost col: seq<int>,
                      ghost list: seq<int>, ghost goal: seq<int>)
    returns (nMTF: int)
    requires arr1.Length > 0 && 0 <= eob < 0x1_0000
    requires Coding(arr1[..], order, col, |col|, list, wr, zPend, eob, goal)
    modifies arr1
    ensures AllWords(arr1[..]) && 0 < nMTF <= |col| + 1 <= 2 * arr1.Length
    ensures HalvesOf(arr1[..], nMTF) == goal
  {
    ghost var out := HalvesOf(arr1[..], wr);
    nMTF := WriteRun(arr1, wr, zPend, out);
    PutHalf(arr1, nMTF, eob);
    nMTF := nMTF + 1;
    assert out + RunDigits(zPend) + [eob] == out + (RunDigits(zPend) + [eob]);
  }
}
