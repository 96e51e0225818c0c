/** The maps between bytes and their indices among the bytes in use, on both sides. */
module ByteMaps {
  import opened Bytes

  /** How many bytes below c are in use: the index of c when it is in use itself. */
  ghost function Rank(inUse: seq<bool>, c: int): (r: nat)
    requires 0 <= c <= |inUse|
    ensures r <= c
    decreases c
  {
    if c == 0 then 0 else Rank(inUse, c - 1) + (if inUse[c - 1] then 1 else 0)
  }

  lemma NoRank(inUse: seq<bool>)
    ensures Rank(inUse, 0) == 0
  {
  }

  lemma NextRank(inUse: seq<bool>, c: int)
    requires 0 <= c < |inUse|
    ensures Rank(inUse, c + 1) == Rank(inUse, c) + (if inUse[c] then 1 else 0)
  {
  }

  lemma {:induction false} RankMonotone(inUse: seq<bool>, c: int, d: int)
    requires 0 <= c <= d <= |inUse|
    ensures Rank(inUse, c) <= Rank(inUse, d)
    ensures c < d && inUse[c] ==> Rank(inUse, c) < Rank(inUse, d)
    decreases d
  {
    if c < d { RankMonotone(inUse, c, d - 1); }
  }

  /** makeMaps_e: a byte in use gets the next index. */
  method MakeMapsE(inUse: array<bool>, unseqToSeq: array<int>) returns (nInUse: int)
    requires inUse.Length == 256 && unseqToSeq.Length == 256
    modifies unseqToSeq
    ensures nInUse == Rank(inUse[..], 256)
    ensures forall c :: 0 <= c < 256 && inUse[c] ==> unseqToSeq[c] == Rank(inUse[..], c)
  {
    nInUse := 0;
    for i := 0 to 256
      invariant nInUse == Rank(inUse[..], i)
      invariant forall c :: 0 <= c < i && inUse[c] ==> unseqToSeq[c] == Rank(inUse[..], c)
    {
      if inUse[i] {
        unseqToSeq[i] := nInUse;
        nInUse := nInUse + 1;
      }
    }
  }

  /** Every byte of the block is marked as being in use. */
  ghost predicate Covers(inUse: seq<bool>, b: seq<byte>) {
    |inUse| == 256 && forall i :: 0 <= i < |b| ==> inUse[b[i]]
  }

  /** makeMaps_d: the way back. */
  method MakeMapsD(inUse: array<bool>, seqToUnseq: array<byte>) returns (nInUse: int)
    requires inUse.Length == 256 && seqToUnseq.Length == 256 && inUse as object != seqToUnseq as object
    modifies seqToUnseq
    ensures nInUse == Rank(inUse[..], 256)
    ensures MapsBack(inUse[..], seqToUnseq[..])
  {
    hide Rank;
    nInUse := 0;
    NoRank(inUse[..]);
    for i := 0 to 256
      invariant nInUse == Rank(inUse[..], i)
      invariant forall c :: 0 <= c < i && inUse[c] ==> Rank(inUse[..], c) < nInUse
      invariant forall c :: 0 <= c < i && inUse[c] ==> seqToUnseq[Rank(inUse[..], c)] == c
    {
      NextRank(inUse[..], i);
      if inUse[i] {
        seqToUnseq[nInUse] := i;
        nInUse := nInUse + 1;
      }
    }
  }

  /** The decoder's map undoes the encoder's. */
  ghost predicate MapsBack(inUse: seq<bool>, seqToUnseq: seq<byte>) {
    && |inUse| == |seqToUnseq| == 256
    && forall c :: 0 <= c < 256 && inUse[c] ==> seqToUnseq[Rank(inUse, c)] == c
  }
}
