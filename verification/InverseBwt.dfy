/** Undoing the block sort with the vector T^(-1) kept in the upper bits of tt (the FAST decoder). */
module InverseBwt {
  import opened Bytes
  import opened Permutations
  import opened Rotations
  import opened Counting

  /** Row of the sorted matrix whose first byte is the i-th byte of the last column. */
  ghost function FirstColumnRow(col: seq<byte>, i: int): int
    requires 0 <= i < |col|
  {
    Below(col, col[i]) + Count(col, col[i], i)
  }

  /** Rows are handed out by byte value first and by position second. */
  lemma FirstColumnRowOrder(col: seq<byte>, i: int, j: int)
    requires 0 <= i < |col| && 0 <= j < |col|
    ensures col[i] < col[j] || (col[i] == col[j] && i < j) ==> FirstColumnRow(col, i) < FirstColumnRow(col, j)
    ensures 0 <= FirstColumnRow(col, i) < |col|
  {
    CountMonotone(col, col[i], i, |col|);
    BelowMonotone(col, col[i], 256);
    BelowAll(col);
    if col[i] < col[j] {
      BelowMonotone(col, col[i], col[j]);
    } else if col[i] == col[j] && i < j {
      CountMonotone(col, col[i], i, j);
    }
  }

  ghost function FirstColumnRows(col: seq<byte>): (r: seq<int>)
    ensures |r| == |col| && Permutation(r)
    ensures forall i :: 0 <= i < |col| ==> r[i] == FirstColumnRow(col, i)
  {
    var r := seq(|col|, i requires 0 <= i < |col| => FirstColumnRow(col, i));
    assert Permutation(r) by {
      forall i | 0 <= i < |r| ensures 0 <= r[i] < |r| { FirstColumnRowOrder(col, i, i); }
      forall i, j | 0 <= i < j < |r| ensures r[i] != r[j] {
        FirstColumnRowOrder(col, i, j);
        FirstColumnRowOrder(col, j, i);
      }
    }
    r
  }

  /** The vector T^(-1): from a row to the row of the next rotation. */
  ghost function NextRow(col: seq<byte>): (t: seq<int>)
    ensures |t| == |col| && Permutation(t)
    ensures forall i :: 0 <= i < |col| ==> t[FirstColumnRows(col)[i]] == i
    ensures forall p :: 0 <= p < |col| ==> 0 <= t[p] < |col| && FirstColumnRows(col)[t[p]] == p
  {
    Inverse(FirstColumnRows(col))
  }

  /** The stable order of the rows: by last-column byte, then by row number. */
  lemma NextRowStable(col: seq<byte>, p: int, q: int)
    requires 0 <= p < q < |col|
    ensures var t := NextRow(col); col[t[p]] < col[t[q]] || (col[t[p]] == col[t[q]] && t[p] < t[q])
  {
    var t := NextRow(col);
    assert t[p] != t[q];
    FirstColumnRowOrder(col, t[q], t[p]);
  }

  /** Row p holds rotation order[p]; row NextRow[p] holds a rotation equal to the one that starts
      one place later. In a periodic block several rotations are equal and the two rows need not
      list the same position, so equality of rotations is all that can be said. */
  lemma NextRowHoldsNextRotation(b: seq<byte>, order: seq<int>, p: int)
    requires SortedOrder(b, order)
    requires 0 <= p < |b|
    ensures var q := NextRow(LastColumn(b, order))[p];
      Rotation(b, order[q]) == Rotation(b, Next(|b|, order[p]))
  {
    var n, col := |b|, LastColumn(b, order);
    var t := NextRow(col);
    var where := Inverse(order);
    var rows := seq(n, k requires 0 <= k < n => Rotation(b, order[k]));
    var cols := seq(n, k requires 0 <= k < n => Rotation(b, Prev(n, order[t[k]])));
    var sigma := seq(n, k requires 0 <= k < n => where[Prev(n, order[t[k]])]);
    forall j, k | 0 <= j < k < n ensures sigma[j] != sigma[k] {
      assert order[sigma[j]] == Prev(n, order[t[j]]) && order[sigma[k]] == Prev(n, order[t[k]]);
      assert order[t[j]] != order[t[k]] by { assert t[j] != t[k]; }
      assert Next(n, Prev(n, order[t[j]])) == order[t[j]] && Next(n, Prev(n, order[t[k]])) == order[t[k]];
    }
    forall j, k | 0 <= j <= k < n ensures LexLe(cols[j], cols[k]) {
      if j < k { ColumnsSorted(b, order, j, k); }
    }
    hide LexLe, LexLt, NextRow, LastColumn;
    LexLeIsTotalPreorder();
    SortedRearrangementsAgree(rows, cols, sigma, (x, y) => LexLe(x, y), p);
    LexTotal(rows[p], cols[p]);
    EqualRotationsNext(b, order[p], Prev(n, order[t[p]]));
  }

  lemma LexLeIsTotalPreorder()
    ensures forall x, y :: LexLe(x, y) || LexLe(y, x)
    ensures forall x, y, z :: LexLe(x, y) && LexLe(y, z) ==> LexLe(x, z)
  {
    forall x, y ensures LexLe(x, y) || LexLe(y, x) { LexTotal(x, y); }
    forall x, y, z | LexLe(x, y) && LexLe(y, z) ensures LexLe(x, z) {
      if LexLt(x, y) && LexLt(y, z) { LexTransitive(x, y, z); }
    }
  }

  /** Prefixing every rotation with its last byte and stable-sorting by that byte keeps order. */
  lemma ColumnsSorted(b: seq<byte>, order: seq<int>, j: int, k: int)
    requires SortedOrder(b, order)
    requires 0 <= j < k < |b|
    ensures var t := NextRow(LastColumn(b, order));
      LexLe(Rotation(b, Prev(|b|, order[t[j]])), Rotation(b, Prev(|b|, order[t[k]])))
  {
    var col := LastColumn(b, order);
    var t := NextRow(col);
    NextRowStable(col, j, k);
    RotationOrderByNext(b, Prev(|b|, order[t[j]]), Prev(|b|, order[t[k]]));
  }

  /** t maps rows to rows. */
  ghost predicate RowMap(col: seq<byte>, t: seq<int>) {
    |t| == |col| && forall p :: 0 <= p < |t| ==> 0 <= t[p] < |t|
  }

  /** The k bytes read by walking t from row q: a row's last-column byte, then on to the next row. */
  ghost function Walk(col: seq<byte>, t: seq<int>, q: int, k: nat): (r: seq<byte>)
    requires RowMap(col, t) && 0 <= q < |col|
    ensures |r| == k
    decreases k
  {
    if k == 0 then [] else [col[q]] + Walk(col, t, t[q], k - 1)
  }

  /** tPos is where a reader stands that has fetched the first `used` bytes of chars. */
  ghost predicate StandsAt(col: seq<byte>, t: seq<int>, tPos: int, chars: seq<byte>, used: int) {
    && RowMap(col, t) && 0 <= tPos < |col|
    && 0 <= used <= |chars|
    && Walk(col, t, tPos, |chars| - used) == chars[used..]
  }

  lemma ReadNext(col: seq<byte>, t: seq<int>, tPos: int, chars: seq<byte>, used: int)
    requires StandsAt(col, t, tPos, chars, used) && used < |chars|
    ensures chars[used] == col[tPos] && StandsAt(col, t, t[tPos], chars, used + 1)
  {
    assert chars[used..] == [col[tPos]] + Walk(col, t, t[tPos], |chars| - used - 1);
    assert chars[used + 1..] == chars[used..][1..];
  }

  /** From a row that holds (a rotation equal to) the rotation after i, the walk reads the block
      cyclically from i. */
  lemma {:induction false} WalkReadsCyclically(b: seq<byte>, order: seq<int>, q: int, i: int, k: nat)
    requires SortedOrder(b, order)
    requires 0 <= q < |b| && 0 <= i < |b|
    requires Rotation(b, order[q]) == Rotation(b, Next(|b|, i))
    ensures var col := LastColumn(b, order); Walk(col, NextRow(col), q, k) == Cyclic(b, i, k)
    decreases k
  {
    if k > 0 {
      var n, col := |b|, LastColumn(b, order);
      RotationNext(b, i);
      RotationNext(b, Prev(n, order[q]));
      NextRowHoldsNextRotation(b, order, q);
      EqualRotationsNext(b, order[q], Next(n, i));
      WalkReadsCyclically(b, order, NextRow(col)[q], Next(n, i), k - 1);
    }
  }

  /** The inverse transform: last column and origPtr give back the block, whatever sorted order
      of its rotations the encoder chose, and reading on starts the block again. */
  lemma InverseBwtRestoresBlock(b: seq<byte>, order: seq<int>, origPtr: int)
    requires |b| > 0 && SortedOrder(b, order)
    requires 0 <= origPtr < |b| && order[origPtr] == 0
    ensures var col := LastColumn(b, order); var t := NextRow(col);
      Walk(col, t, t[origPtr], |b|) == b && Walk(col, t, t[origPtr], |b| + 1) == b + [b[0]]
  {
    var q := NextRow(LastColumn(b, order))[origPtr];
    NextRowHoldsNextRotation(b, order, origPtr);
    WalkReadsCyclically(b, order, q, 0, |b|);
    WalkReadsCyclically(b, order, q, 0, |b| + 1);
    RotationIsCyclic(b, 0);
    assert Rotation(b, 0) == b;
    CyclicSplit(b, 0, |b|, 1);
    assert Cyclic(b, 0, 1) == [b[0]];
  }

  /** Actually generate cftab: running sums of the counts. */
  method SumCounts(unzftab: array<int>, cftab: array<int>, ghost col: seq<byte>)
    requires unzftab.Length == 256 && cftab.Length == 257 && unzftab != cftab
    requires forall c :: 0 <= c < 256 ==> unzftab[c] == Count(col, c, |col|)
    modifies cftab
    ensures forall c :: 0 <= c <= 256 ==> cftab[c] == Below(col, c)
  {
    hide Count, Below;
    cftab[0] := 0;
    BelowStarts(col);
    for i := 1 to 257
      invariant cftab[0] == 0
      invariant forall c :: 1 <= c < i ==> cftab[c] == Count(col, c - 1, |col|)
    {
      cftab[i] := unzftab[i - 1];
    }
    for i := 1 to 257
      invariant forall c :: 0 <= c < i ==> cftab[c] == Below(col, c)
      invariant forall c :: i <= c <= 256 ==> cftab[c] == Count(col, c - 1, |col|)
    {
      BelowStep(col, i - 1);
      cftab[i] := cftab[i] + cftab[i - 1];
    }
  }

  /** cftab from the byte counts: every check of the decoder passes and cftab[c] is the number of
      bytes below c. */
  method BuildCftab(unzftab: array<int>, nblock: int, cftab: array<int>, ghost col: seq<byte>) returns (ok: bool)
    requires unzftab.Length == 256 && cftab.Length == 257 && unzftab != cftab
    requires nblock == |col|
    requires forall c :: 0 <= c < 256 ==> unzftab[c] == Count(col, c, |col|)
    modifies cftab
    ensures ok
    ensures forall c :: 0 <= c <= 256 ==> cftab[c] == Below(col, c)
  {
    hide Count, Below;
    for i := 0 to 256 {
      CountAtMost(col, i, |col|);
      if unzftab[i] < 0 || unzftab[i] > nblock { return false; }
    }
    SumCounts(unzftab, cftab, col);
    BelowAll(col);
    for i := 0 to 257
      invariant forall c :: 0 <= c <= 256 ==> cftab[c] == Below(col, c)
    {
      if i < 256 { BelowMonotone(col, i, 256); }
      if cftab[i] < 0 || cftab[i] > nblock { return false; }
    }
    for i := 1 to 257
      invariant forall c :: 0 <= c <= 256 ==> cftab[c] == Below(col, c)
    {
      BelowMonotone(col, i - 1, i);
      if cftab[i - 1] > cftab[i] { return false; }
    }
    return true;
  }

  /** A cell of tt after the first i rows have been threaded: c is its byte, t its next row. */
  ghost function Cell(t: int, c: byte, i: int): int {
    if t < i then t * 256 + c else c
  }

  lemma CellParts(t: int, c: byte, i: int)
    ensures Cell(t, c, i) % 256 == c
    ensures t < i ==> Cell(t, c, i) / 256 == t
  {
  }

  /** tt while the rows below i have been threaded. */
  ghost predicate Threaded(tt: seq<uint32>, t: seq<int>, col: seq<byte>, i: int) {
    |t| == |col| <= |tt| && forall p :: 0 <= p < |col| ==> tt[p] == Cell(t[p], col[p], i)
  }

  /** t undoes FirstColumnRow: what the threading loop needs to know of NextRow. */
  ghost predicate UndoesRows(t: seq<int>, col: seq<byte>) {
    && |t| == |col|
    && (forall i :: 0 <= i < |col| ==> 0 <= FirstColumnRow(col, i) < |col| && t[FirstColumnRow(col, i)] == i)
    && Permutation(t)
  }

  lemma NextRowUndoesRows(col: seq<byte>)
    ensures UndoesRows(NextRow(col), col)
  {
    forall i | 0 <= i < |col|
      ensures 0 <= FirstColumnRow(col, i) < |col| && NextRow(col)[FirstColumnRow(col, i)] == i
    {
      assert FirstColumnRows(col)[i] == FirstColumnRow(col, i);
    }
  }

  lemma ThreadedStep(tt: seq<uint32>, t: seq<int>, col: seq<byte>, i: int, row: int)
    requires Threaded(tt, t, col, i) && 0 <= i < |col| <= 0x100_0000
    requires 0 <= row < |col| && t[row] == i
    requires Permutation(t)
    ensures tt[i] % 256 == col[i]
    ensures tt[row] < 256
    ensures Threaded(tt[row := tt[row] + i * 256], t, col, i + 1)
  {
    CellParts(t[i], col[i], i);
    var tt' := tt[row := tt[row] + i * 256];
    forall p | 0 <= p < |col| ensures tt'[p] == Cell(t[p], col[p], i + 1) {
      if p != row { assert t[p] != i; }
    }
  }

  /** tt[row] |= i << 8, for a cell whose upper bits are still zero. */
  method OrUpper(tt: array<uint32>, row: int, i: int)
    requires 0 <= row < tt.Length && tt[row] < 256 && 0 <= i < 0x100_0000
    modifies tt
    ensures tt[..] == old(tt[..])[row := old(tt[row]) + i * 256]
  {
    tt[row] := tt[row] + i * 256;
  }

  /** Threads the rows through tt: the low byte of a cell stays the last-column byte, the upper
      24 bits receive the next row. A cell's upper bits are zero until its one update, so the OR
      of the original adds. */
  method BuildNextRow(tt: array<uint32>, nblock: int, cftab: array<int>, ghost col: seq<byte>, ghost t: seq<int>)
    requires nblock == |col| <= tt.Length && |col| <= 0x100_0000
    requires cftab.Length == 257
    requires forall i :: 0 <= i < nblock ==> tt[i] == col[i]
    requires forall c :: 0 <= c < 256 ==> cftab[c] == Below(col, c)
    requires UndoesRows(t, col)
    modifies tt, cftab
    ensures Threaded(tt[..], t, col, nblock)
  {
    assert Threaded(tt[..], t, col, 0);
    for i := 0 to nblock
      invariant forall c :: 0 <= c < 256 ==> cftab[c] == Below(col, c) + Count(col, c, i)
      invariant Threaded(tt[..], t, col, i)
    {
      ThreadRow(tt, cftab, i, col, t);
    }
  }

  /** One row. */
  method ThreadRow(tt: array<uint32>, cftab: array<int>, i: int, ghost col: seq<byte>, ghost t: seq<int>)
    requires 0 <= i < |col| <= tt.Length && |col| <= 0x100_0000 && cftab.Length == 257
    requires forall c :: 0 <= c < 256 ==> cftab[c] == Below(col, c) + Count(col, c, i)
    requires Threaded(tt[..], t, col, i) && UndoesRows(t, col)
    modifies tt, cftab
    ensures forall c :: 0 <= c < 256 ==> cftab[c] == Below(col, c) + Count(col, c, i + 1)
    ensures Threaded(tt[..], t, col, i + 1)
  {
    ghost var at := FirstColumnRow(col, i);
    ThreadedStep(tt[..], t, col, i, at);
    assert at == Below(col, col[i]) + Count(col, col[i], i);
    hide Threaded, UndoesRows, Permutation, Cell, Below;
    var uc := tt[i] % 256;
    var row := cftab[uc];
    assert row == at;
    OrUpper(tt, row, i);
    cftab[uc] := row + 1;
  }
}
