/** What the move-to-front stage means: symbols 0 and 1 (RUNA, RUNB) spell run lengths in
    bijective base 2, symbol s in 2..EOB-1 stands for list position s-1, EOB ends the block. */
module MtfCoding {
  import opened Bytes

  const RUNA := 0
  const RUNB := 1

  /** The list after its element at j has been moved to the front. */
  ghost function ToFront(list: seq<int>, j: int): (r: seq<int>)
    requires 0 <= j < |list|
    ensures |r| == |list|
  {
    [list[j]] + list[..j] + list[j + 1..]
  }

  /** The digits generateMTFValues writes for a run of z. */
  ghost function RunDigits(z: nat): (d: seq<int>)
    ensures |d| <= z
    ensures forall i :: 0 <= i < |d| ==> d[i] == RUNA || d[i] == RUNB
  {
    if z == 0 then [] else [(z - 1) % 2] + RunDigits((z - 1) / 2)
  }

  /** k digits reach at least 2^k - 1. */
  lemma {:induction false} RunDigitsShort(z: nat, k: nat)
    requires |RunDigits(z)| > k
    ensures Pow2(k) <= z
    decreases k
  {
    if k > 0 { RunDigitsShort((z - 1) / 2, k - 1); }
  }

  /** Where x is in the list. */
  ghost function IndexIn(list: seq<int>, x: int): (j: int)
    requires x in list
    ensures 0 <= j < |list| && list[j] == x
    ensures forall k :: 0 <= k < j ==> list[k] != x
  {
    if list[0] == x then 0 else 1 + IndexIn(list[1..], x)
  }

  lemma ToFrontKeepsElements(list: seq<int>, j: int, x: int)
    requires 0 <= j < |list| && x in list
    ensures x in ToFront(list, j)
  {
    var k :| 0 <= k < |list| && list[k] == x;
    assert ToFront(list, j)[if k == j then 0 else if k < j then k + 1 else k] == x;
  }

  /** The symbols for col[i..] when z repeats of the front element are pending. */
  ghost function Encode(col: seq<int>, i: int, list: seq<int>, z: nat, eob: int): (r: seq<int>)
    requires 0 <= i <= |col| && |list| > 0
    requires forall k :: 0 <= k < |col| ==> col[k] in list
    decreases |col| - i
  {
    if i == |col| then RunDigits(z) + [eob]
    else if list[0] == col[i] then Encode(col, i + 1, list, z + 1, eob)
    else
      var j := IndexIn(list, col[i]);
      assert forall k :: 0 <= k < |col| ==> col[k] in ToFront(list, j) by {
        forall k | 0 <= k < |col| ensures col[k] in ToFront(list, j) { ToFrontKeepsElements(list, j, col[k]); }
      }
      RunDigits(z) + [j + 1] + Encode(col, i + 1, ToFront(list, j), 0, eob)
  }

  ghost predicate IsDigit(s: int) {
    s == RUNA || s == RUNB
  }

  ghost function Repeat(x: int, n: int): (r: seq<int>)
    ensures |r| == if n < 0 then 0 else n
  {
    seq(if n < 0 then 0 else n, _ => x)
  }

  /** 0, 1, ..., n-1 */
  ghost function Identity(n: nat): (r: seq<int>)
    ensures |r| == n
  {
    seq(n, i => i)
  }

  /** Every symbol can come from tables for eob + 1 symbols, over a list that is long enough. */
  ghost predicate Known(syms: seq<int>, list: seq<int>, eob: int) {
    0 < |list| && 2 <= eob <= |list| + 1 && forall k :: 0 <= k < |syms| ==> 0 <= syms[k] <= eob
  }

  /** What the decoder makes of syms when k digits of a run are behind it that add up to es: None
      when it gives up, otherwise the list elements it puts in the block. It gives up on a run of
      more than 21 digits, on more than room elements, and when the symbols end without EOB. */
  ghost function Decode(syms: seq<int>, list: seq<int>, es: int, k: nat, room: int, eob: int): (r: Option<seq<int>>)
    requires Known(syms, list, eob)
    decreases |syms|
  {
    if |syms| == 0 then None
    else if IsDigit(syms[0]) then
      if k > 20 then None else Decode(syms[1..], list, es + (syms[0] + 1) * Pow2(k), k + 1, room, eob)
    else if es > room then None
    else if syms[0] == eob then Some(Repeat(list[0], es))
    else if room - es <= 0 then None
    else
      Then(Repeat(list[0], es) + [list[syms[0] - 1]],
           Decode(syms[1..], ToFront(list, syms[0] - 1), 0, 0, room - es - 1, eob))
  }

  ghost function Then(out: seq<int>, rest: Option<seq<int>>): Option<seq<int>> {
    if rest.None? then None else Some(out + rest.value)
  }

  lemma OneDigit(d: int, syms: seq<int>, list: seq<int>, es: int, k: nat, room: int, eob: int)
    requires Known(syms, list, eob) && IsDigit(d) && k <= 20
    ensures Known([d] + syms, list, eob)
    ensures Decode([d] + syms, list, es, k, room, eob) == Decode(syms, list, es + (d + 1) * Pow2(k), k + 1, room, eob)
  {
    assert ([d] + syms)[1..] == syms;
  }

  /** Digits are summed up before whatever follows them is looked at. */
  lemma {:induction false} DigitsRead(z: nat, tail: seq<int>, list: seq<int>, es: int, k: nat, room: int, eob: int)
    requires Known(tail, list, eob) && k + |RunDigits(z)| <= 21
    ensures Known(RunDigits(z) + tail, list, eob)
    ensures Decode(RunDigits(z) + tail, list, es, k, room, eob)
         == Decode(tail, list, es + z * Pow2(k), k + |RunDigits(z)|, room, eob)
    decreases z
  {
    hide Decode;
    if z == 0 {
      assert RunDigits(z) + tail == tail;
    } else {
      var z', d, p := (z - 1) / 2, (z - 1) % 2, Pow2(k);
      DigitsRead(z', tail, list, es + (d + 1) * p, k + 1, room, eob);
      OneDigit(d, RunDigits(z') + tail, list, es, k, room, eob);
      assert RunDigits(z) + tail == [d] + (RunDigits(z') + tail);
      DigitWeight(d + 1, z', p);
    }
  }

  lemma DigitWeight(d: int, z: int, p: int)
    ensures d * p + z * (2 * p) == (d + 2 * z) * p
  {
  }

  lemma ToFrontOfPrefix(list: seq<int>, rest: seq<int>, j: int)
    requires 0 <= j < |list|
    ensures ToFront(list + rest, j) == ToFront(list, j) + rest
  {
  }

  lemma AllStay(col: seq<int>, list: seq<int>, j: int)
    requires 0 <= j < |list| && forall k :: 0 <= k < |col| ==> col[k] in list
    ensures forall k :: 0 <= k < |col| ==> col[k] in ToFront(list, j)
  {
    forall k | 0 <= k < |col| ensures col[k] in ToFront(list, j) { ToFrontKeepsElements(list, j, col[k]); }
  }

  lemma Pow2Of21()
    ensures Pow2(21) == 0x20_0000
  {
    assert Pow2(7) == 128 && Pow2(14) == 0x4000;
  }

  /** At most 21 digits for a run that fits a block. */
  lemma DigitsFit(z: nat)
    requires z < 0x20_0000
    ensures |RunDigits(z)| <= 21
  {
    Pow2Of21();
    if |RunDigits(z)| > 21 { RunDigitsShort(z, 21); }
  }

  /** A run and the symbol after it are read back. */
  lemma RunAndSymbol(z: nat, s: int, more: seq<int>, list: seq<int>, room: int, eob: int)
    requires Known(more, list, eob) && 2 <= s < eob && z < 0x20_0000 && z < room
    ensures Known(RunDigits(z) + ([s] + more), list, eob) && Known(more, ToFront(list, s - 1), eob)
    ensures Decode(RunDigits(z) + ([s] + more), list, 0, 0, room, eob)
         == Then(Repeat(list[0], z) + [list[s - 1]], Decode(more, ToFront(list, s - 1), 0, 0, room - z - 1, eob))
  {
    DigitsFit(z);
    DigitsRead(z, [s] + more, list, 0, 0, room, eob);
    assert ([s] + more)[1..] == more;
  }

  lemma RunAndEob(z: nat, list: seq<int>, room: int, eob: int)
    requires Known([eob], list, eob) && z < 0x20_0000 && z <= room
    ensures Known(RunDigits(z) + [eob], list, eob)
    ensures Decode(RunDigits(z) + [eob], list, 0, 0, room, eob) == Some(Repeat(list[0], z))
  {
    DigitsFit(z);
    DigitsRead(z, [eob], list, 0, 0, room, eob);
  }

  lemma SymbolCase(col: seq<int>, i: int, list: seq<int>, list': seq<int>, rest: seq<int>, z: nat, room: int,
        more: seq<int>)
    requires 0 <= i < |col| && |list| > 0 && list[0] != col[i] && col[i] in list
    requires list' == ToFront(list, IndexIn(list, col[i]))
    requires z + |col| - i <= room && z + |col| - i < 0x20_0000
    requires Known(more, list' + rest, |list| + 1)
    requires Decode(more, list' + rest, 0, 0, room - z - 1, |list| + 1) == Some(col[i + 1..])
    ensures var syms := RunDigits(z) + [IndexIn(list, col[i]) + 1] + more;
      && Known(syms, list + rest, |list| + 1)
      && Decode(syms, list + rest, 0, 0, room, |list| + 1) == Some(Repeat(list[0], z) + col[i..])
  {
    var j := IndexIn(list, col[i]);
    ToFrontOfPrefix(list, rest, j);
    assert Known(more, list + rest, |list| + 1);
    RunAndSymbol(z, j + 1, more, list + rest, room, |list| + 1);
    assert RunDigits(z) + [j + 1] + more == RunDigits(z) + ([j + 1] + more);
    assert Repeat(list[0], z) + [col[i]] + col[i + 1..] == Repeat(list[0], z) + col[i..];
  }

  lemma RepeatGrows(x: int, z: nat, col: seq<int>, i: int)
    requires 0 <= i < |col| && col[i] == x
    ensures Repeat(x, z + 1) + col[i + 1..] == Repeat(x, z) + col[i..]
  {
  }

  /** The round trip of the stage. The decoder's list may have further elements behind the
      encoder's: it always starts from all 256 bytes. */
  lemma {:induction false} MtfRoundTrip(col: seq<int>, i: int, list: seq<int>, rest: seq<int>, z: nat, room: int)
    requires 0 <= i <= |col| && |list| > 0
    requires forall k :: 0 <= k < |col| ==> col[k] in list
    requires z + |col| - i <= room && z + |col| - i < 0x20_0000
    ensures Known(Encode(col, i, list, z, |list| + 1), list + rest, |list| + 1)
    ensures Decode(Encode(col, i, list, z, |list| + 1), list + rest, 0, 0, room, |list| + 1)
         == Some(Repeat(list[0], z) + col[i..])
    decreases |col| - i
  {
    hide Decode, RunDigits, IndexIn;
    if i == |col| {
      RunAndEob(z, list + rest, room, |list| + 1);
      assert Repeat(list[0], z) + col[i..] == Repeat(list[0], z);
    } else if list[0] == col[i] {
      MtfRoundTrip(col, i + 1, list, rest, z + 1, room);
      RepeatGrows(list[0], z, col, i);
    } else {
      var list' := ToFront(list, IndexIn(list, col[i]));
      AllStay(col, list, IndexIn(list, col[i]));
      MtfRoundTrip(col, i + 1, list', rest, 0, room - z - 1);
      assert Repeat(list'[0], 0) + col[i + 1..] == col[i + 1..];
      SymbolCase(col, i, list, list', rest, z, room, Encode(col, i + 1, list', 0, |list| + 1));
    }
  }

  /** The number of symbols never exceeds the number of bytes by more than the final EOB. */
  lemma {:induction false} EncodeLength(col: seq<int>, i: int, list: seq<int>, z: nat, eob: int)
    requires 0 <= i <= |col| && |list| > 0
    requires forall k :: 0 <= k < |col| ==> col[k] in list
    ensures 1 <= |Encode(col, i, list, z, eob)| <= z + |col| - i + 1
    decreases |col| - i
  {
    if i < |col| {
      if list[0] == col[i] {
        EncodeLength(col, i + 1, list, z + 1, eob);
      } else {
        var j := IndexIn(list, col[i]);
        AllStay(col, list, j);
        EncodeLength(col, i + 1, ToFront(list, j), 0, eob);
      }
    }
  }

  /** Symbols after those that decode are not looked at. */
  lemma {:induction false} DecodeStops(syms: seq<int>, more: seq<int>, list: seq<int>, es: int, k: nat, room: int,
        eob: int)
    requires Known(syms + more, list, eob) && Known(syms, list, eob) && Decode(syms, list, es, k, room, eob).Some?
    ensures Decode(syms + more, list, es, k, room, eob) == Decode(syms, list, es, k, room, eob)
    decreases |syms|
  {
    var all := syms + more;
    assert all[0] == syms[0] && all[1..] == syms[1..] + more;
    if IsDigit(syms[0]) {
      DecodeStops(syms[1..], more, list, es + (syms[0] + 1) * Pow2(k), k + 1, room, eob);
    } else if syms[0] != eob {
      DecodeStops(syms[1..], more, ToFront(list, syms[0] - 1), 0, 0, room - es - 1, eob);
    }
  }

  /** The symbols end with their first EOB. */
  ghost predicate UpToEob(syms: seq<int>, eob: int) {
    |syms| > 0 && syms[|syms| - 1] == eob && forall i :: 0 <= i < |syms| - 1 ==> syms[i] != eob
  }

  lemma {:induction false} EncodeEndsWithEob(col: seq<int>, i: int, list: seq<int>, z: nat)
    requires 0 <= i <= |col| && |list| > 0
    requires forall k :: 0 <= k < |col| ==> col[k] in list
    ensures UpToEob(Encode(col, i, list, z, |list| + 1), |list| + 1)
    decreases |col| - i
  {
    if i < |col| {
      if list[0] == col[i] {
        EncodeEndsWithEob(col, i + 1, list, z + 1);
      } else {
        var j := IndexIn(list, col[i]);
        AllStay(col, list, j);
        EncodeEndsWithEob(col, i + 1, ToFront(list, j), 0);
        var front, rest := RunDigits(z) + [j + 1], Encode(col, i + 1, ToFront(list, j), 0, |list| + 1);
        EobAtEnd(front, rest, |list| + 1);
      }
    } else {
      EobAtEnd(RunDigits(z), [|list| + 1], |list| + 1);
    }
  }

  lemma EobAtEnd(front: seq<int>, rest: seq<int>, eob: int)
    requires UpToEob(rest, eob) && forall k :: 0 <= k < |front| ==> front[k] != eob
    ensures UpToEob(front + rest, eob)
  {
  }

  /** Two sequences that end with their first EOB are the same if they start another one. */
  lemma SameEob(a: seq<int>, b: seq<int>, all: seq<int>, eob: int)
    requires UpToEob(a, eob) && UpToEob(b, eob) && a <= all && b <= all
    ensures a == b
  {
    var i := (if |a| <= |b| then |a| else |b|) - 1;
    assert a[i] == all[i] == b[i];
  }
}
