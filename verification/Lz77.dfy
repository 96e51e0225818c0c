/** Literals and matches, and what they expand to: section 3.2.3 of RFC 1951. */
module Lz77 {
  import opened Bytes

  type uch = bv8

  const MIN_MATCH := 3
  const MAX_MATCH := 258

  datatype Token = Literal(c: uch) | Match(dist: nat, len: nat)

  /** n more bytes, each the one that is dist bytes back, so that a copy may read what it has written. */
  function Copy(out: seq<uch>, dist: nat, n: nat): (r: seq<uch>)
    requires 1 <= dist <= |out|
    ensures |r| == |out| + n
  {
    if n == 0 then out
    else
      var o := Copy(out, dist, n - 1); o + [o[|o| - dist]]
  }

  /** What the tokens stand for, unless a distance goes back too far. */
  function Expand(tokens: seq<Token>): Option<seq<uch>> {
    if |tokens| == 0 then Some([])
    else
      match (Expand(tokens[..|tokens| - 1]), tokens[|tokens| - 1])
      case (Some(out), Literal(c)) => Some(out + [c])
      case (Some(out), Match(dist, len)) => if 1 <= dist <= |out| then Some(Copy(out, dist, len)) else None
      case (None, _) => None
  }

  ghost predicate InRange(tokens: seq<Token>, maxDist: int) {
    forall i :: 0 <= i < |tokens| && tokens[i].Match? ==>
      MIN_MATCH <= tokens[i].len <= MAX_MATCH && 1 <= tokens[i].dist <= maxDist
  }

  /** The n bytes from p on are also to be found dist bytes before. */
  ghost predicate Repeats(data: seq<uch>, p: nat, dist: nat, n: nat) {
    1 <= dist <= p && p + n <= |data| && forall k :: p <= k < p + n ==> data[k] == data[k - dist]
  }

  lemma {:induction false} CopyIsData(data: seq<uch>, p: nat, dist: nat, n: nat)
    requires Repeats(data, p, dist, n)
    ensures Copy(data[..p], dist, n) == data[..p + n]
  {
    if n > 0 {
      CopyIsData(data, p, dist, n - 1);
    }
  }

  lemma ExpandLiteral(tokens: seq<Token>, data: seq<uch>, p: nat)
    requires p < |data| && Expand(tokens) == Some(data[..p])
    ensures Expand(tokens + [Literal(data[p])]) == Some(data[..p + 1])
  {
    var more := tokens + [Literal(data[p])];
    assert more[..|more| - 1] == tokens && more[|more| - 1] == Literal(data[p]);
    assert Expand(more) == Some(data[..p] + [data[p]]);
    assert data[..p] + [data[p]] == data[..p + 1];
  }

  lemma ExpandMatch(tokens: seq<Token>, data: seq<uch>, p: nat, dist: nat, len: nat)
    requires Repeats(data, p, dist, len) && Expand(tokens) == Some(data[..p])
    ensures Expand(tokens + [Match(dist, len)]) == Some(data[..p + len])
  {
    var more := tokens + [Match(dist, len)];
    assert more[..|more| - 1] == tokens && more[|more| - 1] == Match(dist, len);
    CopyIsData(data, p, dist, len);
  }

  lemma RepeatsInMore(data: seq<uch>, more: seq<uch>, p: nat, dist: nat, n: nat)
    requires Repeats(data, p, dist, n)
    ensures Repeats(data + more, p, dist, n)
  {
  }
}
