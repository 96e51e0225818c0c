/** Counting bytes: what the ftab, unzftab and cftab tables of both sides hold. */
module Counting {
  import opened Bytes

  /** How often c occurs among the first i bytes of the column. */
  ghost function Count(col: seq<byte>, c: int, i: int): (r: nat)
    requires 0 <= i <= |col|
    decreases i
  {
    if i == 0 then 0 else Count(col, c, i - 1) + (if col[i - 1] == c then 1 else 0)
  }

  /** How many bytes of the column are below c. */
  ghost function Below(col: seq<byte>, c: nat): (r: nat)
    decreases c
  {
    if c == 0 then 0 else Below(col, c - 1) + Count(col, c - 1, |col|)
  }

  lemma CountStarts(col: seq<byte>, c: int)
    ensures Count(col, c, 0) == 0
  {
  }

  lemma CountStep(col: seq<byte>, c: int, i: int)
    requires 0 <= i < |col|
    ensures Count(col, c, i + 1) == Count(col, c, i) + (if col[i] == c then 1 else 0)
  {
  }

  lemma BelowStarts(col: seq<byte>)
    ensures Below(col, 0) == 0
  {
  }

  lemma BelowStep(col: seq<byte>, c: nat)
    ensures Below(col, c + 1) == Below(col, c) + Count(col, c, |col|)
  {
  }

  lemma {:induction false} CountMonotone(col: seq<byte>, c: int, i: int, j: int)
    requires 0 <= i <= j <= |col|
    ensures Count(col, c, i) <= Count(col, c, j)
    ensures i < j && col[i] == c ==> Count(col, c, i) < Count(col, c, j)
    decreases j
  {
    if i < j { CountMonotone(col, c, i, j - 1); }
  }

  lemma {:induction false} BelowMonotone(col: seq<byte>, c: nat, d: nat)
    requires c < d
    ensures Below(col, c) + Count(col, c, |col|) <= Below(col, d)
    decreases d
  {
    if c < d - 1 { BelowMonotone(col, c, d - 1); }
  }

  /** Every byte is below 256, so the 256 counters account for the whole column. */
  lemma {:induction false} BelowTotal(col: seq<byte>, c: nat)
    ensures |col| > 0 ==>
      Below(col, c) == Below(col[..|col| - 1], c) + (if col[|col| - 1] < c then 1 else 0)
    decreases c
  {
    if |col| > 0 && c > 0 {
      BelowTotal(col, c - 1);
      CountPrefix(col, c - 1, |col| - 1);
    }
  }

  lemma {:induction false} CountPrefix(col: seq<byte>, c: int, i: int)
    requires 0 <= i <= |col|
    ensures Count(col, c, i) == Count(col[..i], c, i)
    decreases i
  {
    CountOfPrefix(col, c, i, i);
  }

  lemma {:induction false} CountOfPrefix(col: seq<byte>, c: int, i: int, j: int)
    requires 0 <= j <= i <= |col|
    ensures Count(col, c, j) == Count(col[..i], c, j)
    decreases j
  {
    if j > 0 { CountOfPrefix(col, c, i, j - 1); }
  }

  lemma {:induction false} BelowAll(col: seq<byte>)
    ensures Below(col, 256) == |col|
    decreases |col|
  {
    if |col| == 0 {
      BelowEmpty(col, 256);
    } else {
      BelowTotal(col, 256);
      BelowAll(col[..|col| - 1]);
    }
  }

  lemma {:induction false} BelowEmpty(col: seq<byte>, c: nat)
    requires |col| == 0
    ensures Below(col, c) == 0
    decreases c
  {
    if c > 0 { BelowEmpty(col, c - 1); }
  }

  lemma {:induction false} CountAtMost(col: seq<byte>, c: int, i: int)
    requires 0 <= i <= |col|
    ensures Count(col, c, i) <= i
    decreases i
  {
    if i > 0 { CountAtMost(col, c, i - 1); }
  }
}
