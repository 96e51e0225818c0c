/** The coding tables: every code length is sent as the steps from the one before it. */
module CodeTables {
  import opened Bytes
  import opened BitStrings
  import opened BitIo

  /** Steps from length c to length l, two bits each. */
  ghost function Steps(c: int, l: int): seq<bit>
    decreases if c < l then l - c else c - l
  {
    if c < l then [1, 0] + Steps(c + 1, l) else if c > l then [1, 1] + Steps(c - 1, l) else []
  }

  /** The lengths from symbol i on, when the last one sent is c. */
  ghost function LengthBits(len: seq<int>, i: int, c: int): seq<bit>
    requires 0 <= i <= |len|
    decreases |len| - i
  {
    if i == |len| then [] else Steps(c, len[i]) + ([0] + LengthBits(len, i + 1, len[i]))
  }

  ghost predicate LengthsOk(len: seq<int>) {
    |len| > 0 && forall i :: 0 <= i < |len| ==> 1 <= len[i] <= 20
  }

  /** One table: its first length in five bits, then the steps. */
  ghost function TableBits(len: seq<int>): seq<bit>
    requires LengthsOk(len)
  {
    Bits(len[0], 5) + LengthBits(len, 0, len[0])
  }

  /** The tables from t on. */
  ghost function TablesBits(lens: seq<seq<int>>, t: int): seq<bit>
    requires 0 <= t <= |lens| && forall k :: 0 <= k < |lens| ==> LengthsOk(lens[k])
    decreases |lens| - t
  {
    if t == |lens| then [] else TableBits(lens[t]) + TablesBits(lens, t + 1)
  }

  lemma LengthStep(len: seq<int>, i: int, c: int)
    requires 0 <= i <= |len|
    ensures i == |len| ==> LengthBits(len, i, c) == []
    ensures i < |len| ==> LengthBits(len, i, c) == Steps(c, len[i]) + ([0] + LengthBits(len, i + 1, len[i]))
  {
  }

  lemma TwoBits()
    ensures Bits(2, 2) == [1, 0] && Bits(3, 2) == [1, 1] && Pow2(2) == 4
  {
    assert Bits(1, 1) == [1] by { OneBit(1); }
    assert Bits(2, 2) == Bits(1, 1) + [0];
    assert Bits(3, 2) == Bits(1, 1) + [1];
  }

  /** Send the steps from curr to l. */
  method SendSteps(w: BitWriter, curr0: int, l: int)
    requires w.Valid()
    modifies w
    ensures w.Valid() && w.sent == old(w.sent) && w.Written() == old(w.Written()) + Steps(curr0, l)
  {
    hide BitWriter.Valid, BitWriter.Written, Bits;
    TwoBits();
    ghost var goal := w.Written() + Steps(curr0, l);
    var curr := curr0;
    while curr < l
      invariant w.Valid() && w.sent == old(w.sent) && w.Written() + Steps(curr, l) == goal && (curr0 <= l ==> curr <= l)
      invariant (curr0 > l ==> curr == curr0)
      decreases l - curr
    {
      Associative(w.Written(), [1, 0], Steps(curr + 1, l));
      w.BsW(2, 2);
      curr := curr + 1;
    }
    while curr > l
      invariant w.Valid() && w.sent == old(w.sent) && w.Written() + Steps(curr, l) == goal && l <= curr
      decreases curr - l
    {
      Associative(w.Written(), [1, 1], Steps(curr - 1, l));
      w.BsW(2, 3);
      curr := curr - 1;
    }
    assert w.Written() + [] == w.Written();
  }

  /** Transmit one coding table. */
  method SendTable(w: BitWriter, len: seq<int>)
    requires w.Valid() && LengthsOk(len)
    modifies w
    ensures w.Valid() && w.sent == old(w.sent) && w.Written() == old(w.Written()) + TableBits(len)
  {
    hide BitWriter.Valid, BitWriter.Written, Bits, Steps, LengthBits;
    Pow2Of5();
    var curr := len[0];
    ghost var was := w.Written();
    w.BsW(5, curr);
    ghost var goal := w.Written() + LengthBits(len, 0, curr);
    for i := 0 to |len|
      invariant w.Valid() && w.sent == old(w.sent) && w.Written() + LengthBits(len, i, curr) == goal
    {
      LengthStep(len, i, curr);
      Associative(w.Written(), Steps(curr, len[i]), [0] + LengthBits(len, i + 1, len[i]));
      Associative(w.Written() + Steps(curr, len[i]), [0], LengthBits(len, i + 1, len[i]));
      SendSteps(w, curr, len[i]);
      curr := len[i];
      w.PutBit(0);
    }
    LengthStep(len, |len|, curr);
    assert w.Written() + [] == w.Written();
    Associative(was, Bits(len[0], 5), LengthBits(len, 0, len[0]));
  }

  lemma Pow2Of5()
    ensures Pow2(5) == 32
  {
    assert Pow2(3) == 8;
  }

  /** Transmit all coding tables. */
  method Send(w: BitWriter, lens: seq<seq<int>>)
    requires w.Valid() && forall k :: 0 <= k < |lens| ==> LengthsOk(lens[k])
    modifies w
    ensures w.Valid() && w.sent == old(w.sent) && w.Written() == old(w.Written()) + TablesBits(lens, 0)
  {
    hide BitWriter.Valid, BitWriter.Written, TableBits, LengthsOk;
    ghost var goal := w.Written() + TablesBits(lens, 0);
    for t := 0 to |lens|
      invariant w.Valid() && w.sent == old(w.sent) && w.Written() + TablesBits(lens, t) == goal
    {
      Associative(w.Written(), TableBits(lens[t]), TablesBits(lens, t + 1));
      SendTable(w, lens[t]);
    }
    assert w.Written() + [] == w.Written();
  }

  /** Follow the steps from curr0; every length on the way must be in 1..20. */
  method ReceiveSteps(r: BitReader, curr0: int, ghost l: int, ghost more: seq<bit>) returns (ok: bool, curr: int)
    requires r.Valid()
    modifies r
    ensures r.Valid() && (ok ==> 1 <= curr <= 20)
    ensures r.Onward()
    ensures 1 <= curr0 <= 20 && 1 <= l <= 20 && old(r.Remaining()) == Steps(curr0, l) + ([0] + more)
            ==> ok && curr == l && r.Remaining() == more
  {
    hide BitReader.Valid, BitReader.Remaining, BitReader.Delivered;
    ghost var good := 1 <= curr0 <= 20 && 1 <= l <= 20 && r.Remaining() == Steps(curr0, l) + ([0] + more);
    curr := curr0;
    while true
      invariant r.Valid() && r.Onward() && (good ==> 1 <= curr <= 20 && r.Remaining() == Steps(curr, l) + ([0] + more))
      decreases |r.Remaining()|
    {
      if curr < 1 || curr > 20 { return false, curr; }
      ghost var tail := if curr < l then [0] + (Steps(curr + 1, l) + ([0] + more))
                        else if curr > l then [1] + (Steps(curr - 1, l) + ([0] + more)) else more;
      StepBits(curr, l, more);
      var uc;
      ok, uc := NextBit(r, if curr == l then 0 else 1, tail);
      if !ok { return; }
      if uc == 0 { break; }
      ok, uc := NextBit(r, if curr < l then 0 else 1, if curr < l then Steps(curr + 1, l) +
                        ([0] + more) else Steps(curr - 1, l) + ([0] + more));
      if !ok { return; }
      if uc == 0 { curr := curr + 1; } else { curr := curr - 1; }
    }
    ok := true;
  }

  lemma StepBits(curr: int, l: int, more: seq<bit>)
    ensures curr < l ==> Steps(curr, l) + ([0] + more) == [1] + ([0] + (Steps(curr + 1, l) + ([0] + more)))
    ensures curr > l ==> Steps(curr, l) + ([0] + more) == [1] + ([1] + (Steps(curr - 1, l) + ([0] + more)))
    ensures curr == l ==> Steps(curr, l) + ([0] + more) == [0] + more
  {
  }

  /** Receive one coding table. */
  method ReceiveTable(r: BitReader, alphaSize: int, ghost len: seq<int>, ghost rest: seq<bit>)
      returns (ok: bool, got: seq<int>)
    requires r.Valid() && alphaSize > 0 && LengthsOk(len)
    modifies r
    ensures r.Valid() && (ok ==> |got| == alphaSize && LengthsOk(got))
    ensures r.Onward()
    ensures |len| == alphaSize && old(r.Remaining()) == TableBits(len) + rest ==>
          ok && got == len && r.Remaining() == rest
  {
    hide BitReader.Valid, BitReader.Remaining, BitReader.Delivered, Bits, Steps, LengthBits;
    Pow2Of5();
    ghost var good := |len| == alphaSize && r.Remaining() == TableBits(len) + rest;
    Associative(Bits(len[0], 5), LengthBits(len, 0, len[0]), rest);
    var curr;
    got := [];
    ok, curr := NextBits(r, 5, len[0], LengthBits(len, 0, len[0]) + rest);
    if !ok { return; }
    for i := 0 to alphaSize
      invariant r.Valid() && r.Onward() && |got| == i && forall k :: 0 <= k < i ==> 1 <= got[k] <= 20
      invariant good ==> 1 <= curr <= 20 && got == len[..i] && r.Remaining() == LengthBits(len, i, curr) + rest
    {
      ghost var l, more := 0, [];
      if good {
        l, more := len[i], LengthBits(len, i + 1, len[i]) + rest;
        LengthStep(len, i, curr);
        Associative([0], LengthBits(len, i + 1, l), rest);
        Associative(Steps(curr, l), [0] + LengthBits(len, i + 1, l), rest);
      }
      ok, curr := ReceiveSteps(r, curr, l, more);
      if !ok { return; }
      got := got + [curr];
    }
    if good { LengthStep(len, alphaSize, curr); assert [] + rest == rest; }
    ok := true;
  }

  /** Receive nGroups coding tables. */
  method Receive(r: BitReader, nGroups: int, alphaSize: int, ghost lens: seq<seq<int>>, ghost rest: seq<bit>)
    returns (ok: bool, got: seq<seq<int>>)
    requires r.Valid() && alphaSize > 0 && nGroups >= 0
    requires forall k :: 0 <= k < |lens| ==> LengthsOk(lens[k]) && |lens[k]| == alphaSize
    modifies r
    ensures r.Valid()
    ensures r.Onward()
    ensures ok ==> |got| == nGroups && forall t :: 0 <= t < nGroups ==> LengthsOk(got[t]) && |got[t]| == alphaSize
    ensures |lens| == nGroups && old(r.Remaining()) == TablesBits(lens, 0) + rest ==>
          ok && got == lens && r.Remaining() == rest
  {
    hide BitReader.Valid, BitReader.Remaining, BitReader.Delivered, TableBits, TablesBits;
    ghost var good := |lens| == nGroups && r.Remaining() == TablesBits(lens, 0) + rest;
    got := [];
    for t := 0 to nGroups
      invariant r.Valid() && r.Onward() && |got| == t && forall k :: 0 <= k < t ==>
            LengthsOk(got[k]) && |got[k]| == alphaSize
      invariant good ==> got == lens[..t] && r.Remaining() == TablesBits(lens, t) + rest
    {
      ghost var len, more := [1], [];
      if good {
        len, more := lens[t], TablesBits(lens, t + 1) + rest;
        TablesStep(lens, t);
        Associative(TableBits(len), TablesBits(lens, t + 1), rest);
      }
      var one;
      ok, one := ReceiveTable(r, alphaSize, len, more);
      if !ok { return; }
      got := got + [one];
    }
    if good { TablesStep(lens, nGroups); assert [] + rest == rest; }
    ok := true;
  }

  lemma TablesStep(lens: seq<seq<int>>, t: int)
    requires 0 <= t <= |lens| && forall k :: 0 <= k < |lens| ==> LengthsOk(lens[k])
    ensures t == |lens| ==> TablesBits(lens, t) == []
    ensures t < |lens| ==> TablesBits(lens, t) == TableBits(lens[t]) + TablesBits(lens, t + 1)
  {
  }
}
