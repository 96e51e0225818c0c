/** Undoing the block sort in 2.5 bytes a position (the SMALL decoder): 20-bit cells, T turned
    into T^(-1) by pointer reversal along the one cycle that is read, and the first column
    recovered from the byte counts. */
module SmallDecode {
  import opened Bytes
  import opened Counting
  import opened InverseBwt

  /** The 4-bit part of cell i, kept in half a byte. */
  ghost function Nibble(ll4: seq<byte>, i: int): (r: int)
    requires 0 <= i && i / 2 < |ll4|
    ensures 0 <= r < 16
  {
    if i % 2 == 0 then ll4[i / 2] % 16 else ll4[i / 2] / 16
  }

  ghost function CellAt(ll16: seq<uint16>, ll4: seq<byte>, i: int): (r: int)
    requires 0 <= i < |ll16| && i / 2 < |ll4|
    ensures 0 <= r < 0x10_0000
  {
    ll16[i] + Nibble(ll4, i) * 0x1_0000
  }

  /** The low or the high half of a byte replaced. */
  function WithNibble(old4: byte, high: bool, nib: int): (r: byte)
    requires 0 <= nib < 16
    ensures r / 16 == (if high then nib else old4 / 16) && r % 16 == (if high then old4 % 16 else nib)
  {
    var o: int := old4;
    if high then o % 16 + nib * 16 else o / 16 * 16 + nib
  }

  lemma NibbleSet(ll4: seq<byte>, i: int, nib: int, k: int)
    requires 0 <= i && i / 2 < |ll4| && 0 <= k && k / 2 < |ll4| && 0 <= nib < 16
    ensures Nibble(ll4[i / 2 := WithNibble(ll4[i / 2], i % 2 == 1, nib)], k) == if k == i then nib else Nibble(ll4, k)
  {
    hide WithNibble;
    if k / 2 == i / 2 && k != i { assert k % 2 != i % 2; }
  }

  lemma CellSet(ll16: seq<uint16>, ll4: seq<byte>, i: int, v: int, k: int)
    requires 0 <= i < |ll16| && i / 2 < |ll4| && 0 <= k < |ll16| && k / 2 < |ll4| && 0 <= v < 0x10_0000
    ensures var low: uint16 := v % 0x1_0000;
      CellAt(ll16[i := low], ll4[i / 2 := WithNibble(ll4[i / 2], i % 2 == 1, v / 0x1_0000)], k)
      == if k == i then v else CellAt(ll16, ll4, k)
  {
    NibbleSet(ll4, i, v / 0x1_0000, k);
    hide Nibble, WithNibble;
  }

  class SmallCells {
    const ll16: array<uint16>
    const ll4: array<byte>

    constructor (size: nat)
      ensures Valid(size) && fresh(ll16) && fresh(ll4)
    {
      ll16 := new uint16[size](_ => 0);
      ll4 := new byte[(1 + size) / 2](_ => 0);
    }

    ghost predicate Valid(size: int) {
      0 <= size <= ll16.Length && size <= 2 * ll4.Length
    }

    /** The first n cells. */
    ghost function Cells(n: nat): (r: seq<int>)
      requires Valid(n)
      reads ll16, ll4
      ensures |r| == n
    {
      seq(n, i requires 0 <= i < n reads ll16, ll4 => CellAt(ll16[..], ll4[..], i))
    }

    /** GET_LL */
    method Get(i: int, ghost n: nat) returns (v: int)
      requires Valid(n) && 0 <= i < n
      ensures v == Cells(n)[i]
    {
      var nibble: int := if i % 2 == 0 then ll4[i / 2] % 16 else ll4[i / 2] / 16;
      v := ll16[i] + nibble * 0x1_0000;
    }

    /** SET_LL: a 20-bit value is kept whole and no other cell is disturbed. */
    method Set(i: int, v: int, ghost n: nat)
      requires Valid(n) && 0 <= i < n && 0 <= v < 0x10_0000
      modifies ll16, ll4
      ensures Cells(n) == old(Cells(n))[i := v]
      ensures forall k :: 0 <= k < n && k != i ==> ll16[k] == old(ll16[k])
    {
      hide CellAt, WithNibble;
      ghost var a16, a4 := ll16[..], ll4[..];
      var low: uint16 := v % 0x1_0000;
      ll16[i] := low;
      ll4[i / 2] := WithNibble(ll4[i / 2], i % 2 == 1, v / 0x1_0000);
      assert ll16[..] == a16[i := low] && ll4[..] == a4[i / 2 := WithNibble(a4[i / 2], i % 2 == 1, v / 0x1_0000)];
      forall k | 0 <= k < n
        ensures Cells(n)[k] == if k == i then v else CellAt(a16, a4, k) { CellSet(a16, a4, i, v, k); }
    }
  }

  /** T and the counters when the first i positions have been placed. */
  ghost predicate Placed(cells: seq<int>, copy: seq<int>, col: seq<byte>, i: int)
    requires 0 <= i <= |col|
  {
    && |cells| == |col| && |copy| == 257
    && (forall c :: 0 <= c < 256 ==> copy[c] == Below(col, c) + Count(col, c, i))
    && forall k :: 0 <= k < i ==> cells[k] == FirstColumnRow(col, k)
  }

  method PlaceOne(cells: SmallCells, i: int, uc: byte, copy: array<int>, ghost col: seq<byte>)
    requires 0 <= i < |col| < 0x10_0000 && cells.Valid(|col|) && uc == col[i]
    requires Placed(cells.Cells(|col|), copy[..], col, i)
    modifies cells.ll16, cells.ll4, copy
    ensures Placed(cells.Cells(|col|), copy[..], col, i + 1)
    ensures forall k :: 0 <= k < |col| && k != i ==> cells.ll16[k] == old(cells.ll16[k])
  {
    FirstColumnRowOrder(col, i, i);
    cells.Set(i, copy[uc], |col|);
    copy[uc] := copy[uc] + 1;
  }

  /** The T vector: each position of the last column gets the row its byte heads. */
  method BuildT(cells: SmallCells, nblock: int, cftab: array<int>, cftabCopy: array<int>, ghost col: seq<byte>)
    requires nblock == |col| < 0x10_0000 && cells.Valid(nblock)
    requires cftab.Length == cftabCopy.Length == 257 && cftab != cftabCopy
    requires forall i :: 0 <= i < nblock ==> cells.ll16[i] == col[i]
    requires forall c :: 0 <= c < 256 ==> cftab[c] == Below(col, c)
    modifies cells.ll16, cells.ll4, cftabCopy
    ensures Placed(cells.Cells(nblock), cftabCopy[..], col, nblock)
  {
    for i := 0 to 257
      invariant forall c :: 0 <= c < i ==> cftabCopy[c] == cftab[c]
      invariant forall k :: 0 <= k < nblock ==> cells.ll16[k] == col[k]
    {
      cftabCopy[i] := cftab[i];
    }
    for i := 0 to nblock
      invariant Placed(cells.Cells(nblock), cftabCopy[..], col, i)
      invariant forall k :: i <= k < nblock ==> cells.ll16[k] == col[k]
    {
      PlaceOne(cells, i, cells.ll16[i], cftabCopy, col);
    }
  }

  /** The cells while pointers are being reversed along the cycle of start: a visited row holds
      its T^(-1) value, every other row still holds T. */
  ghost predicate PartlyReversed(cells: seq<int>, rows: seq<int>, t: seq<int>, visited: set<int>) {
    && |cells| == |rows| == |t|
    && (forall p :: p in visited ==> 0 <= p < |rows|)
    && forall p :: 0 <= p < |rows| ==> cells[p] == if p in visited then t[p] else rows[p]
  }

  /** rows and t are inverse permutations. */
  ghost predicate MutuallyInverse(rows: seq<int>, t: seq<int>) {
    && |rows| == |t|
    && (forall p :: 0 <= p < |t| ==> 0 <= t[p] < |t| && rows[t[p]] == p)
    && (forall i :: 0 <= i < |t| ==> 0 <= rows[i] < |t| && t[rows[i]] == i)
  }

  /** What visiting the cycle of start in order keeps: i is the row reached, and t leads from any
      visited row to another one or to start. */
  ghost predicate OnCycle(t: seq<int>, visited: set<int>, start: int, i: int) {
    && 0 <= i < |t| && 0 <= start < |t|
    && (forall p :: p in visited ==> 0 <= p < |t|)
    && (i == start || i in visited)
    && (start in visited ==> i == start)
    && (forall p {:trigger t[p]} :: p in visited ==> t[p] in visited || t[p] == start)
    && (visited != {} && i == start ==> start in visited)
    && (start !in visited ==> forall p {:trigger t[p]} :: p in visited ==> t[p] != i)
  }

  lemma VisitNext(rows: seq<int>, t: seq<int>, visited: set<int>, start: int, i: int)
    requires MutuallyInverse(rows, t) && OnCycle(t, visited, start, i) && start !in visited
    ensures rows[i] !in visited
    ensures OnCycle(t, visited + {rows[i]}, start, rows[i])
  {
    var j := rows[i];
    assert t[j] == i;
    if j != start {
      forall p | p in visited + {j} ensures t[p] != j {
        assert p in visited ==> t[p] in visited || t[p] == start;
      }
    }
  }

  /** One turn of the loop: row j, which T reaches from i, is pointed back at i. */
  method ReverseOne(cells: SmallCells, i: int, j: int, start: int,
                    ghost rows: seq<int>, ghost t: seq<int>, ghost cycle: set<int>)
    returns (tmp: int)
    requires |rows| < 0x10_0000 && cells.Valid(|rows|) && MutuallyInverse(rows, t)
    requires OnCycle(t, cycle, start, i) && start !in cycle && j == rows[i]
    requires PartlyReversed(cells.Cells(|rows|), rows, t, cycle)
    modifies cells.ll16, cells.ll4
    ensures tmp == rows[j] && j !in cycle
    ensures OnCycle(t, cycle + {j}, start, j)
    ensures PartlyReversed(cells.Cells(|rows|), rows, t, cycle + {j})
  {
    VisitNext(rows, t, cycle, start, i);
    tmp := cells.Get(j, |rows|);
    cells.Set(j, i, |rows|);
  }

  /** Pointer reversal: after one turn round the cycle of start, T^(-1) is stored on the cycle,
      and the cycle is closed under it. */
  method ReversePointers(cells: SmallCells, start: int, ghost rows: seq<int>, ghost t: seq<int>)
    returns (ghost cycle: set<int>)
    requires |rows| < 0x10_0000 && cells.Valid(|rows|) && 0 <= start < |rows|
    requires MutuallyInverse(rows, t)
    requires cells.Cells(|rows|) == rows
    modifies cells.ll16, cells.ll4
    ensures PartlyReversed(cells.Cells(|rows|), rows, t, cycle)
    ensures start in cycle && forall p {:trigger t[p]} :: p in cycle ==> t[p] in cycle
  {
    ghost var n := |rows|;
    ghost var all := set p | p in rows;
    var i := start;
    var j := cells.Get(i, n);
    cycle := {};
    var first := true;
    while first || i != start
      invariant PartlyReversed(cells.Cells(n), rows, t, cycle)
      invariant OnCycle(t, cycle, start, i)
      invariant first <==> cycle == {}
      invariant j == rows[i]
      decreases all - cycle
    {
      first := false;
      var tmp := ReverseOne(cells, i, j, start, rows, t, cycle);
      assert j in all - cycle;
      cycle := cycle + {j};
      i := j;
      j := tmp;
    }
  }

  /** BZ2_indexIntoF: the byte whose bucket of the first column holds row indx. */
  method IndexIntoF(indx: int, cftab: array<int>) returns (nb: int)
    requires cftab.Length == 257
    requires cftab[0] <= indx < cftab[256]
    ensures 0 <= nb < 256 && cftab[nb] <= indx < cftab[nb + 1]
  {
    nb := 0;
    var na := 256;
    while na - nb != 1
      invariant 0 <= nb < na <= 256
      invariant cftab[nb] <= indx < cftab[na]
      decreases na - nb
    {
      var mid := (nb + na) / 2;
      if indx >= cftab[mid] { nb := mid; } else { na := mid; }
    }
  }

  /** What reading needs of the reversed cells: on the cycle each row leads, inside the cycle, to
      the next row, and lies in the first-column bucket of the next row's last-column byte. */
  ghost predicate ReadyToRead(cells: seq<int>, col: seq<byte>, t: seq<int>, cycle: set<int>) {
    && |cells| == |col| == |t|
    && forall p {:trigger t[p]} :: p in cycle ==>
      && 0 <= p < |col| && t[p] in cycle && 0 <= t[p] < |col| && cells[p] == t[p]
      && Below(col, col[t[p]]) <= p < Below(col, (col[t[p]] as int) + 1)
  }

  lemma RowInBucket(col: seq<byte>, i: int)
    requires 0 <= i < |col|
    ensures Below(col, col[i]) <= FirstColumnRow(col, i) < Below(col, (col[i] as int) + 1)
  {
    CountMonotone(col, col[i], i, |col|);
  }

  lemma ReversedIsReady(cells: seq<int>, col: seq<byte>, rows: seq<int>, t: seq<int>, cycle: set<int>)
    requires |rows| == |col| && MutuallyInverse(rows, t)
    requires forall i :: 0 <= i < |col| ==> rows[i] == FirstColumnRow(col, i)
    requires PartlyReversed(cells, rows, t, cycle)
    requires forall p {:trigger t[p]} :: p in cycle ==> t[p] in cycle
    ensures ReadyToRead(cells, col, t, cycle)
  {
    hide FirstColumnRow, Below;
    forall p | p in cycle
      ensures Below(col, col[t[p]]) <= p < Below(col, (col[t[p]] as int) + 1)
    {
      assert p == FirstColumnRow(col, t[p]);
      RowInBucket(col, t[p]);
    }
  }

  /** The buckets of the first column do not overlap. */
  lemma SameBucket(col: seq<byte>, p: int, c: nat, d: nat)
    requires Below(col, c) <= p < Below(col, c + 1)
    requires Below(col, d) <= p < Below(col, d + 1)
    ensures c == d
  {
    if c < d { BelowUpTo(col, c + 1, d); }
    if d < c { BelowUpTo(col, d + 1, c); }
  }

  lemma {:induction false} BelowUpTo(col: seq<byte>, c: nat, d: nat)
    requires c <= d
    ensures Below(col, c) <= Below(col, d)
  {
    if c < d { BelowMonotone(col, c, d); }
  }

  /** BZ_GET_SMALL reads what BZ_GET_FAST reads: standing at a row of the cycle, it yields the
      last-column byte of the next row and moves there. */
  method GetSmall(cells: SmallCells, tPos: int, cftab: array<int>, blockSize100k: int,
                  ghost col: seq<byte>, ghost t: seq<int>, ghost cycle: set<int>)
    returns (bad: bool, c: byte, tPos': int)
    requires cells.Valid(|col|) && ReadyToRead(cells.Cells(|col|), col, t, cycle)
    requires tPos in cycle && 0 <= tPos < |t| && t[tPos] in cycle
    requires cftab.Length == 257 && forall k :: 0 <= k <= 256 ==> cftab[k] == Below(col, k)
    ensures bad ==> |col| > 100000 * blockSize100k
    ensures !bad ==> tPos' == t[tPos] && 0 <= tPos' < |col| && tPos' in cycle && c == col[tPos']
  {
    if tPos >= 100000 * blockSize100k { return true, 0, tPos; }
    BelowAll(col);
    var nb := IndexIntoF(tPos, cftab);
    SameBucket(col, tPos, nb, col[t[tPos]]);
    c := nb;
    tPos' := cells.Get(tPos, |col|);
    bad := false;
  }

  lemma RowsAndNextRow(col: seq<byte>)
    ensures MutuallyInverse(FirstColumnRows(col), NextRow(col))
    ensures UndoesRows(NextRow(col), col) && RowMap(col, NextRow(col))
  {
    NextRowUndoesRows(col);
  }

  /** The bytes read by count calls of BZ_GET_SMALL from row q of a reversed cycle. */
  method ReadSmall(cells: SmallCells, q: int, count: nat, cftab: array<int>, blockSize100k: int,
                   ghost col: seq<byte>, ghost t: seq<int>, ghost cycle: set<int>)
    returns (out: seq<byte>)
    requires |col| <= 100000 * blockSize100k && RowMap(col, t)
    requires cells.Valid(|col|) && ReadyToRead(cells.Cells(|col|), col, t, cycle)
    requires q in cycle && 0 <= q < |col|
    requires cftab.Length == 257 && forall k :: 0 <= k <= 256 ==> cftab[k] == Below(col, k)
    ensures out == Walk(col, t, t[q], count)
  {
    out := [];
    var tPos := q;
    ghost var chars := Walk(col, t, t[q], count);
    for k := 0 to count
      invariant tPos in cycle && 0 <= tPos < |col|
      invariant StandsAt(col, t, t[tPos], chars, k)
      invariant out == chars[..k]
    {
      ReadNext(col, t, t[tPos], chars, k);
      var bad, c;
      bad, c, tPos := GetSmall(cells, tPos, cftab, blockSize100k, col, t, cycle);
      out := out + [c];
    }
  }

  /** T is built and the cycle of origPtr reversed. */
  method Prepare(cells: SmallCells, nblock: int, origPtr: int, cftab: array<int>, cftabCopy: array<int>,
        ghost col: seq<byte>)
    returns (ghost cycle: set<int>)
    requires 0 <= origPtr < nblock == |col| <= 900000 && cells.Valid(nblock)
    requires cftab.Length == cftabCopy.Length == 257 && cftab != cftabCopy
    requires forall i :: 0 <= i < nblock ==> cells.ll16[i] == col[i]
    requires forall c :: 0 <= c <= 256 ==> cftab[c] == Below(col, c)
    modifies cells.ll16, cells.ll4, cftabCopy
    ensures RowMap(col, NextRow(col)) && origPtr in cycle && ReadyToRead(cells.Cells(nblock), col, NextRow(col), cycle)
  {
    ghost var rows, t := FirstColumnRows(col), NextRow(col);
    RowsAndNextRow(col);
    BuildT(cells, nblock, cftab, cftabCopy, col);
    assert cells.Cells(nblock) == rows;
    cycle := ReversePointers(cells, origPtr, rows, t);
    ReversedIsReady(cells.Cells(nblock), col, rows, t, cycle);
  }

  /** The SMALL decoder refines the FAST one: for any last column whatever and any origPtr inside
      it, building T, reversing the cycle of origPtr and reading count bytes gives the bytes of
      the walk that the FAST decoder takes over tt. */
  method DecodeSmall(cells: SmallCells, nblock: int, origPtr: int, count: nat, cftab: array<int>,
                     cftabCopy: array<int>, blockSize100k: int, ghost col: seq<byte>)
    returns (out: seq<byte>)
    requires 0 <= origPtr < nblock == |col| <= 100000 * blockSize100k <= 900000 && cells.Valid(nblock)
    requires cftab.Length == cftabCopy.Length == 257 && cftab != cftabCopy
    requires forall i :: 0 <= i < nblock ==> cells.ll16[i] == col[i]
    requires forall c :: 0 <= c <= 256 ==> cftab[c] == Below(col, c)
    modifies cells.ll16, cells.ll4, cftabCopy
    ensures RowMap(col, NextRow(col)) && out == Walk(col, NextRow(col), NextRow(col)[origPtr], count)
  {
    ghost var cycle := Prepare(cells, nblock, origPtr, cftab, cftabCopy, col);
    out := ReadSmall(cells, origPtr, count, cftab, blockSize100k, col, NextRow(col), cycle);
  }
}
