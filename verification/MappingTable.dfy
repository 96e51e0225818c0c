/** The mapping table: which bytes are in use, as 16 flags and 16 more for every flag that is set. */
module MappingTable {
  import opened Bytes
  import opened BitStrings
  import opened BitIo

  ghost function Flag(b: bool): bit {
    if b then 1 else 0
  }

  /** Some byte of the i-th sixteen is in use. */
  ghost predicate GroupInUse(inUse: seq<bool>, i: int)
    requires |inUse| == 256 && 0 <= i < 16
  {
    exists k :: i * 16 <= k < i * 16 + 16 && inUse[k]
  }

  ghost function FlagBits(inUse: seq<bool>, i: int): seq<bit>
    requires |inUse| == 256 && 0 <= i <= 16
    decreases 16 - i
  {
    if i == 16 then [] else [Flag(GroupInUse(inUse, i))] + FlagBits(inUse, i + 1)
  }

  ghost function ByteBits(inUse: seq<bool>, i: int, j: int): seq<bit>
    requires |inUse| == 256 && 0 <= i <= 16 && 0 <= j <= 16
    decreases 16 - i, 16 - j
  {
    if i == 16 then []
    else if j == 16 || !GroupInUse(inUse, i) then ByteBits(inUse, i + 1, 0)
    else [Flag(inUse[i * 16 + j])] + ByteBits(inUse, i, j + 1)
  }

  ghost function MappingBits(inUse: seq<bool>): seq<bit>
    requires |inUse| == 256
  {
    FlagBits(inUse, 0) + ByteBits(inUse, 0, 0)
  }

  /** Which groups have bytes in use. */
  method FindGroups(inUse: array<bool>) returns (inUse16: array<bool>)
    requires inUse.Length == 256
    ensures fresh(inUse16) && inUse16.Length == 16
    ensures forall i :: 0 <= i < 16 ==> inUse16[i] == GroupInUse(inUse[..], i)
  {
    inUse16 := new bool[16];
    for i := 0 to 16
      invariant forall k :: 0 <= k < i ==> inUse16[k] == GroupInUse(inUse[..], k)
    {
      inUse16[i] := false;
      for j := 0 to 16
        invariant forall k :: 0 <= k < i ==> inUse16[k] == GroupInUse(inUse[..], k)
        invariant inUse16[i] <==> exists k :: i * 16 <= k < i * 16 + j && inUse[k]
      {
        if inUse[i * 16 + j] { inUse16[i] := true; }
      }
    }
  }

  lemma FlagStep(u: seq<bool>, i: int)
    requires |u| == 256 && 0 <= i <= 16
    ensures i < 16 ==> FlagBits(u, i) == [Flag(GroupInUse(u, i))] + FlagBits(u, i + 1)
    ensures i == 16 ==> FlagBits(u, i) == []
  {
  }

  lemma ByteStep(u: seq<bool>, i: int, j: int)
    requires |u| == 256 && 0 <= i <= 16 && 0 <= j <= 16
    ensures i < 16 && j < 16 && GroupInUse(u, i) ==> ByteBits(u, i, j) == [Flag(u[i * 16 + j])] + ByteBits(u, i, j + 1)
    ensures i < 16 && (j == 16 || !GroupInUse(u, i)) ==> ByteBits(u, i, j) == ByteBits(u, i + 1, 0)
    ensures i == 16 ==> ByteBits(u, i, j) == []
  {
  }

  /** Transmit the mapping table. */
  method Send(w: BitWriter, inUse: array<bool>)
    requires w.Valid() && inUse.Length == 256
    modifies w
    ensures w.Valid() && w.sent == old(w.sent) && w.Written() == old(w.Written()) + MappingBits(inUse[..])
  {
    hide GroupInUse, FlagBits, ByteBits, BitWriter.Valid, BitWriter.Written;
    ghost var u, was := inUse[..], w.Written();
    var inUse16 := FindGroups(inUse);
    assert was + FlagBits(u, 0) == was + FlagBits(u, 0);
    for i := 0 to 16
      invariant w.Valid() && w.sent == old(w.sent) && inUse[..] == u
      invariant forall k :: 0 <= k < 16 ==> inUse16[k] == GroupInUse(u, k)
      invariant w.Written() + FlagBits(u, i) == was + FlagBits(u, 0)
    {
      FlagStep(u, i);
      Associative(w.Written(), [Flag(inUse16[i])], FlagBits(u, i + 1));
      if inUse16[i] { w.PutBit(1); } else { w.PutBit(0); }
    }
    FlagStep(u, 16);
    assert w.Written() + [] == w.Written();
    ghost var flagged := w.Written();
    for i := 0 to 16
      invariant w.Valid() && w.sent == old(w.sent) && inUse[..] == u
      invariant forall k :: 0 <= k < 16 ==> inUse16[k] == GroupInUse(u, k)
      invariant w.Written() + ByteBits(u, i, 0) == flagged + ByteBits(u, 0, 0)
    {
      ByteStep(u, i, 0);
      if inUse16[i] { SendGroup(w, inUse, i, flagged + ByteBits(u, 0, 0)); }
    }
    ByteStep(u, 16, 0);
    assert w.Written() + [] == w.Written();
    assert was + FlagBits(u, 0) + ByteBits(u, 0, 0) == was + MappingBits(u);
  }

  method SendGroup(w: BitWriter, inUse: array<bool>, i: int, ghost goal: seq<bit>)
    requires w.Valid() && inUse.Length == 256 && 0 <= i < 16 && GroupInUse(inUse[..], i)
    requires w.Written() + ByteBits(inUse[..], i, 0) == goal
    modifies w
    ensures w.Valid() && w.sent == old(w.sent) && w.Written() + ByteBits(inUse[..], i + 1, 0) == goal
  {
    hide GroupInUse, FlagBits, ByteBits, BitWriter.Valid, BitWriter.Written;
    ghost var u := inUse[..];
    for j := 0 to 16
      invariant w.Valid() && w.sent == old(w.sent) && inUse[..] == u && w.Written() + ByteBits(u, i, j) == goal
    {
      ByteStep(u, i, j);
      Associative(w.Written(), [Flag(inUse[i * 16 + j])], ByteBits(u, i, j + 1));
      if inUse[i * 16 + j] { w.PutBit(1); } else { w.PutBit(0); }
    }
    ByteStep(u, i, 16);
  }

  /** The two halves of receiving, for an input that starts with the table for u. */
  method ReceiveFlags(r: BitReader, ghost u: seq<bool>, ghost rest: seq<bit>) returns (ok: bool, inUse16: seq<bool>)
    requires r.Valid() && |u| == 256
    modifies r
    ensures r.Valid() && (ok ==> |inUse16| == 16)
    ensures r.Onward()
    ensures old(r.Remaining()) == FlagBits(u, 0) + rest
            ==> ok && r.Remaining() == rest && forall k :: 0 <= k < 16 ==> inUse16[k] == GroupInUse(u, k)
  {
    hide GroupInUse, FlagBits, ByteBits, BitReader.Valid, BitReader.Remaining, BitReader.Delivered;
    ghost var good := r.Remaining() == FlagBits(u, 0) + rest;
    inUse16 := [];
    for i := 0 to 16
      invariant r.Valid() && r.Onward() && |inUse16| == i && (good ==> r.Remaining() == FlagBits(u, i) + rest)
      invariant good ==> forall k :: 0 <= k < i ==> inUse16[k] == GroupInUse(u, k)
    {
      FlagStep(u, i);
      Associative([Flag(GroupInUse(u, i))], FlagBits(u, i + 1), rest);
      var uc;
      ok, uc := NextBit(r, Flag(GroupInUse(u, i)), FlagBits(u, i + 1) + rest);
      if !ok { return; }
      inUse16 := inUse16 + [uc == 1];
    }
    FlagStep(u, 16);
    assert [] + rest == rest;
    ok := true;
  }

  /** The first n entries are those of u, the others are still clear. */
  ghost predicate Received(inUse: seq<bool>, u: seq<bool>, n: int, good: bool) {
    && |inUse| == |u| == 256
    && (good ==> forall k :: 0 <= k < n && k < 256 ==> inUse[k] == u[k])
    && forall k :: n <= k < 256 && 0 <= k ==> !inUse[k]
  }

  lemma NotInUse(inUse: seq<bool>, u: seq<bool>, i: int, good: bool)
    requires |u| == 256 && 0 <= i < 16 && Received(inUse, u, i * 16, good) && (good ==> !GroupInUse(u, i))
    ensures Received(inUse, u, i * 16 + 16, good)
    ensures good ==> ByteBits(u, i, 0) == ByteBits(u, i + 1, 0)
  {
  }

  method ReceiveGroup(r: BitReader, inUse: array<bool>, i: int, ghost u: seq<bool>, ghost rest: seq<bit>,
        ghost good: bool)
    returns (ok: bool)
    requires r.Valid() && inUse.Length == 256 && |u| == 256 && 0 <= i < 16 && Received(inUse[..], u, i * 16, good)
    requires good ==> GroupInUse(u, i) && r.Remaining() == ByteBits(u, i, 0) + rest
    modifies r, inUse
    ensures r.Valid() && (good ==> ok && r.Remaining() == ByteBits(u, i + 1, 0) + rest)
    ensures r.Onward()
    ensures ok ==> Received(inUse[..], u, i * 16 + 16, good)
  {
    hide GroupInUse, FlagBits, ByteBits, BitReader.Valid, BitReader.Remaining, BitReader.Delivered;
    for j := 0 to 16
      invariant r.Valid() && r.Onward() && (good ==> r.Remaining() == ByteBits(u, i, j) + rest)
      invariant Received(inUse[..], u, i * 16 + j, good)
    {
      if good { ByteStep(u, i, j); }
      Associative([Flag(u[i * 16 + j])], ByteBits(u, i, j + 1), rest);
      var uc;
      ok, uc := NextBit(r, Flag(u[i * 16 + j]), ByteBits(u, i, j + 1) + rest);
      if !ok { return; }
      if uc == 1 { inUse[i * 16 + j] := true; }
    }
    ByteStep(u, i, 16);
    ok := true;
  }

  /** Receive the mapping table. If the input starts with the table for u, that is what is received
      and the input goes on after it. */
  method Receive(r: BitReader, inUse: array<bool>, ghost u: seq<bool>, ghost rest: seq<bit>) returns (ok: bool)
    requires r.Valid() && inUse.Length == 256 && |u| == 256
    modifies r, inUse
    ensures r.Valid()
    ensures r.Onward()
    ensures old(r.Remaining()) == MappingBits(u) + rest ==> ok && inUse[..] == u && r.Remaining() == rest
  {
    hide GroupInUse, FlagBits, ByteBits, BitReader.Valid, BitReader.Remaining, BitReader.Delivered;
    ghost var good := r.Remaining() == MappingBits(u) + rest;
    assert FlagBits(u, 0) + ByteBits(u, 0, 0) + rest == FlagBits(u, 0) + (ByteBits(u, 0, 0) + rest);
    var inUse16;
    ok, inUse16 := ReceiveFlags(r, u, ByteBits(u, 0, 0) + rest);
    if !ok { return; }
    for i := 0 to 256
      invariant r.Valid() && r.Onward() && (good ==> r.Remaining() == ByteBits(u, 0, 0) + rest)
      invariant forall k :: 0 <= k < i ==> !inUse[k]
    {
      inUse[i] := false;
    }
    for i := 0 to 16
      invariant r.Valid() && r.Onward() && (good ==> r.Remaining() == ByteBits(u, i, 0) + rest)
      invariant Received(inUse[..], u, i * 16, good)
    {
      if inUse16[i] {
        ok := ReceiveGroup(r, inUse, i, u, rest, good);
        if !ok { return; }
      } else {
        NotInUse(inUse[..], u, i, good);
      }
    }
    ByteStep(u, 16, 0);
    assert [] + rest == rest;
    ok := true;
  }
}
