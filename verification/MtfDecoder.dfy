/** The symbol loop of BZ2_decompress: MTF symbols become the last column, in tt, with a count of
    every byte in unzftab. */
module MtfDecoder {
  import opened Bytes
  import opened Counting
  import opened MtfCoding
  import opened TwoLevelMtf
  import opened CodedSymbols

  /** The bytes that list elements stand for. */
  ghost function Mapped(seqToUnseq: seq<byte>, out: seq<int>): (r: seq<byte>)
    requires |seqToUnseq| == 256 && forall i :: 0 <= i < |out| ==> 0 <= out[i] < 256
    ensures |r| == |out|
  {
    seq(|out|, i requires 0 <= i < |out| => seqToUnseq[out[i]])
  }

  ghost predicate Elements(s: seq<int>) {
    forall i :: 0 <= i < |s| ==> 0 <= s[i] < 256
  }

  lemma ThenThen(a: seq<int>, b: seq<int>, r: Option<seq<int>>)
    ensures Then(a, Then(b, r)) == Then(a + b, r)
  {
    if r.Some? { assert a + (b + r.value) == (a + b) + r.value; }
  }

  lemma {:induction false} Pow2Monotone(i: nat, j: nat)
    requires i <= j
    ensures Pow2(i) <= Pow2(j)
    decreases j
  {
    if i < j { Pow2Monotone(i, j - 1); }
  }

  ghost function AfterRunValue(syms: seq<int>, list: seq<int>, es: nat, room: int, eob: int): Option<seq<int>>
    requires Known(syms, list, eob)
  {
    if es > room then None else Then(Repeat(list[0], es), Decode(syms, list, 0, 0, room - es, eob))
  }

  /** Once the digits are behind it, a run is written and forgotten. */
  lemma AfterRun(syms: seq<int>, list: seq<int>, es: nat, k: nat, room: int, eob: int)
    requires Known(syms, list, eob) && |syms| > 0 && !IsDigit(syms[0])
    ensures Decode(syms, list, es, k, room, eob) == AfterRunValue(syms, list, es, room, eob)
  {
    var front := Repeat(list[0], es);
    assert front + [] == front;
    if syms[0] != eob && es < room {
      var one, rest := [list[syms[0] - 1]], Decode(syms[1..], ToFront(list, syms[0] - 1), 0, 0, room - es - 1, eob);
      assert Repeat(list[0], 0) + one == one;
      ThenThen(front, one, rest);
    }
  }

  /** N stays below the decoder's limit for as long as another digit is allowed. */
  lemma DigitLimit(k: nat, N: int)
    requires k <= 21 && (k == 0 || N == Pow2(k))
    ensures N == Pow2(k) ==> (N >= 0x20_0000 <==> k > 20) && 1 <= N <= 0x20_0000 && Pow2(k + 1) == 2 * N
    ensures Pow2(0) == 1
  {
    Pow2Of21();
    if k <= 20 { Pow2Monotone(k + 1, 21); }
  }

  lemma KnownSuffix(syms: seq<int>, list: seq<int>, eob: int, p: int)
    requires Known(syms, list, eob) && 0 <= p <= |syms|
    ensures Known(syms[p..], list, eob)
  {
  }

  lemma DigitRead(syms: seq<int>, p: int, list: seq<int>, es: int, k: nat, room: int, eob: int)
    requires Known(syms, list, eob) && 0 <= p < |syms| && IsDigit(syms[p])
    ensures Known(syms[p..], list, eob) && Known(syms[p + 1..], list, eob)
    ensures Decode(syms[p..], list, es, k, room, eob)
         == if k > 20 then None else Decode(syms[p + 1..], list, es + (syms[p] + 1) * Pow2(k), k + 1, room, eob)
  {
    assert syms[p..][1..] == syms[p + 1..];
  }

  /** syms are all symbols of the reader; it stands at number p, which it has just delivered. */
  ghost predicate Reading(sr: SymbolReader, syms: seq<int>, p: int, nextSym: int)
    reads sr, sr.r
  {
    sr.Valid() && sr.All() == syms && 0 <= p < |syms| && |sr.read| == p + 1 && nextSym == syms[p]
  }

  /** Fetching the next symbol moves on by one among all symbols, or there is no next one. */
  method Fetch(sr: SymbolReader, ghost syms: seq<int>, ghost p: int, ghost sym: int) returns (ok: bool, nextSym: int)
    requires Reading(sr, syms, p, sym) || (sr.Valid() && sr.All() == syms && sr.read == [] && p == -1)
    modifies sr, sr.r
    ensures ok ==> Reading(sr, syms, p + 1, nextSym) && p + 1 < |syms| && nextSym == syms[p + 1]
    ensures !ok ==> |syms| == p + 1
  {
    hide SymbolsIn, SymbolBits, Codable;
    ghost var read := sr.read;
    ok, nextSym := sr.GetMtfVal();
    if ok { assert syms[|read|] == sr.read[|read|]; }
  }

  /** The do-while loop: the digits from nextSym on, up to the symbol after them. */
  method ReadRun(sr: SymbolReader, sym0: int, ghost syms: seq<int>, ghost start: int, ghost list: seq<int>,
                 ghost room: int, ghost eob: int)
    returns (ok: bool, es: int, nextSym: int, ghost p: int)
    requires Reading(sr, syms, start, sym0) && 0 <= start < |syms| && sym0 == syms[start]
    requires IsDigit(sym0) && Known(syms, list, eob)
    modifies sr, sr.r
    ensures Known(syms[start..], list, eob)
    ensures !ok ==> Decode(syms[start..], list, 0, 0, room, eob).None?
    ensures ok ==> Reading(sr, syms, p, nextSym) && start < p < |syms| && nextSym == syms[p] && !IsDigit(nextSym)
    ensures ok ==> 0 <= es < 0x8000_0000 && Known(syms[p..], list, eob)
    ensures ok ==> Decode(syms[start..], list, 0, 0, room, eob) == AfterRunValue(syms[p..], list, es, room, eob)
    ensures ok ==> forall i :: start <= i < p ==> IsDigit(syms[i])
  {
    hide Decode, Known, Reading, SymbolReader.Valid, SymbolReader.All, AfterRunValue, Pow2;
    p := start;
    KnownSuffix(syms, list, eob, start);
    DigitLimit(0, 1);
    nextSym, es := sym0, -1;
    var N := 1;
    ghost var k := 0;
    while true
      invariant Reading(sr, syms, p, nextSym)
      invariant start <= p < |syms| && nextSym == syms[p] && IsDigit(nextSym) && k <= 21 && N == Pow2(k)
      invariant -1 <= es <= 2 * N - 3
      invariant forall i :: start <= i <= p ==> IsDigit(syms[i])
      invariant Known(syms[p..], list, eob)
      invariant Decode(syms[start..], list, 0, 0, room, eob) == Decode(syms[p..], list, es + 1, k, room, eob)
      decreases |syms| - p
    {
      DigitRead(syms, p, list, es + 1, k, room, eob);
      DigitLimit(k, N);
      if N >= 2 * 1024 * 1024 { return false, es, nextSym, p; }
      if nextSym == RUNA { es := es + (0 + 1) * N; } else if nextSym == RUNB { es := es + (1 + 1) * N; }
      N := N * 2;
      k := k + 1;
      ok, nextSym := Fetch(sr, syms, p, nextSym);
      p := p + 1;
      if !ok { NoSymbols(syms, p, list, es + 1, k, room, eob); return; }
      if nextSym != RUNA && nextSym != RUNB { break; }
    }
    es := es + 1;
    KnownSuffix(syms, list, eob, p);
    AfterRun(syms[p..], list, es, k, room, eob);
    ok := true;
  }

  lemma NoSymbols(syms: seq<int>, p: int, list: seq<int>, es: int, k: nat, room: int, eob: int)
    requires p == |syms| && Known(syms[p..], list, eob)
    ensures Decode(syms[p..], list, es, k, room, eob).None?
  {
  }

  /** What has been decoded: out is the list elements, of which tt holds the bytes. */
  ghost predicate Decoded(tt: seq<uint32>, unzftab: seq<int>, seqToUnseq: seq<byte>, out: seq<int>, nblock: int) {
    && |seqToUnseq| == 256 && |unzftab| == 256 && Elements(out) && nblock == |out| <= |tt|
    && (forall i :: 0 <= i < nblock ==> tt[i] == seqToUnseq[out[i]])
    && (forall c :: 0 <= c < 256 ==> unzftab[c] == Count(Mapped(seqToUnseq, out), c, nblock))
  }

  lemma CountsExtended(seqToUnseq: seq<byte>, out: seq<int>, x: int, c: int)
    requires |seqToUnseq| == 256 && Elements(out + [x]) && Elements(out) && 0 <= x < 256
    ensures Count(Mapped(seqToUnseq, out + [x]), c, |out| + 1)
         == Count(Mapped(seqToUnseq, out), c, |out|) + if seqToUnseq[x] == c then 1 else 0
  {
    CountPrefix(Mapped(seqToUnseq, out + [x]), c, |out|);
    assert Mapped(seqToUnseq, out + [x])[..|out|] == Mapped(seqToUnseq, out);
  }

  lemma {:induction false} CountsRepeated(seqToUnseq: seq<byte>, out: seq<int>, x: int, n: nat, c: int)
    requires |seqToUnseq| == 256 && Elements(out + Repeat(x, n)) && Elements(out) && 0 <= x < 256
    ensures Count(Mapped(seqToUnseq, out + Repeat(x, n)), c, |out| + n)
         == Count(Mapped(seqToUnseq, out), c, |out|) + if seqToUnseq[x] == c then n else 0
    decreases n
  {
    if n == 0 {
      assert out + Repeat(x, 0) == out;
    } else {
      assert out + Repeat(x, n) == (out + Repeat(x, n - 1)) + [x];
      var shorter := out + Repeat(x, n - 1);
      forall i | 0 <= i < |shorter| ensures 0 <= shorter[i] < 256 {
        assert shorter[i] == (out + Repeat(x, n))[i];
      }
      CountsRepeated(seqToUnseq, out, x, n - 1, c);
      CountsExtended(seqToUnseq, out + Repeat(x, n - 1), x, c);
    }
  }

  /** es copies of the byte of x, as many as there is room for. */
  method WriteRun(tt: array<uint32>, unzftab: array<int>, nblock0: int, nblockMAX: int, x: int, uc: byte, es0: nat,
                  ghost seqToUnseq: seq<byte>, ghost out: seq<int>)
    returns (ok: bool, nblock: int)
    requires tt as object != unzftab as object && nblock0 <= nblockMAX <= tt.Length
    requires Decoded(tt[..], unzftab[..], seqToUnseq, out, nblock0)
    requires 0 <= x < 256 && uc == seqToUnseq[x]
    modifies tt, unzftab
    ensures ok <==> es0 <= nblockMAX - nblock0
    ensures ok ==> nblock == nblock0 + es0
    ensures ok ==> Decoded(tt[..], unzftab[..], seqToUnseq, out + Repeat(x, es0), nblock)
  {
    ghost var tab := unzftab[..];
    unzftab[uc] := unzftab[uc] + es0;
    ghost var tab' := unzftab[..];
    var es := es0;
    nblock := nblock0;
    while es > 0
      invariant 0 <= es <= es0 && nblock == nblock0 + es0 - es && nblock <= nblockMAX
      invariant unzftab[..] == tab'
      invariant forall i :: 0 <= i < nblock0 ==> tt[i] == seqToUnseq[out[i]]
      invariant forall i :: nblock0 <= i < nblock ==> tt[i] == uc
    {
      if nblock >= nblockMAX { return false, nblock; }
      tt[nblock] := uc;
      nblock := nblock + 1;
      es := es - 1;
    }
    ok := true;
    ghost var out' := out + Repeat(x, es0);
    forall c | 0 <= c < 256 ensures tab'[c] == Count(Mapped(seqToUnseq, out'), c, nblock) {
      CountsRepeated(seqToUnseq, out, x, es0, c);
    }
  }

  /** One byte that is not a repeat. */
  method WriteByte(tt: array<uint32>, unzftab: array<int>, nblock: int, x: int, uc: byte,
                   ghost seqToUnseq: seq<byte>, ghost out: seq<int>)
    requires tt as object != unzftab as object && nblock < tt.Length
    requires Decoded(tt[..], unzftab[..], seqToUnseq, out, nblock)
    requires 0 <= x < 256 && uc == seqToUnseq[x]
    modifies tt, unzftab
    ensures Decoded(tt[..], unzftab[..], seqToUnseq, out + [x], nblock + 1)
  {
    unzftab[uc] := unzftab[uc] + 1;
    tt[nblock] := uc;
    forall c | 0 <= c < 256 ensures unzftab[c] == Count(Mapped(seqToUnseq, out + [x]), c, nblock + 1) {
      CountsExtended(seqToUnseq, out, x, c);
    }
  }

  lemma SymbolRead(syms: seq<int>, p: int, list: seq<int>, room: int, eob: int)
    requires Known(syms, list, eob) && 0 <= p < |syms| && !IsDigit(syms[p]) && syms[p] != eob
    ensures Known(syms[p..], list, eob) && 0 <= syms[p] - 1 < |list| && Known(syms, ToFront(list, syms[p] - 1), eob)
    ensures Known(syms[p + 1..], ToFront(list, syms[p] - 1), eob)
    ensures Decode(syms[p..], list, 0, 0, room, eob)
         == if room <= 0 then None
            else Then([list[syms[p] - 1]], Decode(syms[p + 1..], ToFront(list, syms[p] - 1), 0, 0, room - 1, eob))
  {
    assert syms[p..][1..] == syms[p + 1..];
    assert Repeat(list[0], 0) + [list[syms[p] - 1]] == [list[syms[p] - 1]];
  }

  /** The state of the loop at symbol p: whatever goal is, it is what has been decoded followed by
      what the rest will give. */
  ghost predicate At(goal: Option<seq<int>>, out: seq<int>, syms: seq<int>, p: int, list: seq<int>, room: int,
        eob: int) {
    && 0 <= p <= |syms| && Known(syms, list, eob) && Known(syms[p..], list, eob) && |list| == 256 && Elements(list)
    && goal == Then(out, Decode(syms[p..], list, 0, 0, room, eob))
  }

  /** A run: its digits and its bytes. */
  method ExpandRun(sr: SymbolReader, sym0: int, tt: array<uint32>, unzftab: array<int>, mtf: MtfList,
        seqToUnseq: seq<byte>, nblock0: int, nblockMAX: int, ghost syms: seq<int>, ghost start: int, ghost eob: int,
          ghost goal: Option<seq<int>>, ghost out: seq<int>)
    returns (ok: bool, nextSym: int, nblock: int, ghost p: int, ghost out': seq<int>)
    requires tt as object != unzftab as object && nblock0 <= nblockMAX <= tt.Length && mtf.Valid()
    requires mtf.mtfa as object != tt as object && mtf.mtfbase as object != tt as object
    requires mtf.mtfa != unzftab && mtf.mtfbase != unzftab
    requires Reading(sr, syms, start, sym0) && 0 <= start < |syms| && sym0 == syms[start] && IsDigit(sym0)
    requires At(goal, out, syms, start, mtf.list, nblockMAX - nblock0, eob)
    requires Decoded(tt[..], unzftab[..], seqToUnseq, out, nblock0)
    modifies tt, unzftab, sr, sr.r
    ensures !ok ==> goal.None?
    ensures ok ==> Reading(sr, syms, p, nextSym) && start < p < |syms| && nextSym == syms[p] && nblock <= nblockMAX
    ensures ok ==> forall i :: start <= i < p ==> IsDigit(syms[i])
    ensures ok ==> At(goal, out', syms, p, mtf.list, nblockMAX - nblock, eob)
    ensures ok ==> Decoded(tt[..], unzftab[..], seqToUnseq, out', nblock)
  {
    hide Decode, Decoded, Holds, Count, Mapped, Known, Reading, SymbolReader.Valid, SymbolReader.All;
    var es;
    nblock, out' := nblock0, out;
    ok, es, nextSym, p := ReadRun(sr, sym0, syms, start, mtf.list, nblockMAX - nblock0, eob);
    if !ok { return; }
    var x := mtf.Front();
    ListElement(mtf.list, 0);
    DecodedMap(tt[..], unzftab[..], seqToUnseq, out, nblock0);
    ok, nblock := WriteRun(tt, unzftab, nblock0, nblockMAX, x, seqToUnseq[x], es, seqToUnseq, out);
    if !ok { return; }
    out' := out + Repeat(x, es);
    ThenThen(out, Repeat(x, es), Decode(syms[p..], mtf.list, 0, 0, nblockMAX - nblock, eob));
  }

  lemma ListElement(list: seq<int>, i: int)
    requires Elements(list) && 0 <= i < |list|
    ensures 0 <= list[i] < 256
  {
  }

  lemma DecodedMap(tt: seq<uint32>, unzftab: seq<int>, seqToUnseq: seq<byte>, out: seq<int>, nblock: int)
    requires Decoded(tt, unzftab, seqToUnseq, out, nblock)
    ensures |seqToUnseq| == 256
  {
  }

  lemma ToFrontElements(list: seq<int>, j: int)
    requires Elements(list) && 0 <= j < |list|
    ensures Elements(ToFront(list, j))
  {
  }

  /** Any other symbol but EOB. */
  method ExpandByte(sym: int, tt: array<uint32>, unzftab: array<int>, mtf: MtfList, seqToUnseq: seq<byte>,
                    nblock: int, nblockMAX: int, ghost syms: seq<int>, ghost p: int, ghost eob: int,
                    ghost goal: Option<seq<int>>, ghost out: seq<int>)
    returns (ok: bool, ghost out': seq<int>)
    requires tt as object != unzftab as object && nblock <= nblockMAX <= tt.Length && mtf.Valid()
    requires mtf.mtfa as object != tt as object && mtf.mtfbase as object != tt as object
    requires mtf.mtfa != unzftab && mtf.mtfbase != unzftab
    requires 0 <= p < |syms| && sym == syms[p] && !IsDigit(sym) && sym != eob
    requires At(goal, out, syms, p, mtf.list, nblockMAX - nblock, eob)
    requires Decoded(tt[..], unzftab[..], seqToUnseq, out, nblock)
    modifies tt, unzftab, mtf, mtf.mtfa, mtf.mtfbase
    ensures mtf.Valid()
    ensures !ok ==> goal.None?
    ensures ok ==> nblock < nblockMAX && At(goal, out', syms, p + 1, mtf.list, nblockMAX - nblock - 1, eob)
    ensures ok ==> Decoded(tt[..], unzftab[..], seqToUnseq, out', nblock + 1)
  {
    hide Decode, Decoded, Holds, Known, ToFront;
    out' := out;
    ghost var list := mtf.list;
    SymbolRead(syms, p, list, nblockMAX - nblock, eob);
    if nblock >= nblockMAX { return false, out; }
    var nn := sym - 1;
    var x := mtf.Move(nn);
    ListElement(list, nn);
    ToFrontElements(list, nn);
    DecodedMap(tt[..], unzftab[..], seqToUnseq, out, nblock);
    WriteByte(tt, unzftab, nblock, x, seqToUnseq[x], seqToUnseq, out);
    ok, out' := true, out + [x];
    ThenThen(out, [x], Decode(syms[p + 1..], mtf.list, 0, 0, nblockMAX - nblock - 1, eob));
  }

  lemma EobEnds(syms: seq<int>, p: int, list: seq<int>, room: int, eob: int)
    requires 0 <= p < |syms| && Known(syms[p..], list, eob) && syms[p] == eob && room >= 0
    ensures Decode(syms[p..], list, 0, 0, room, eob) == Some([])
  {
  }

  lemma PrefixUpToEob(read: seq<int>, ahead: seq<int>, eob: int)
    requires |read| > 0 && (read + ahead)[|read| - 1] == eob
    requires forall i :: 0 <= i < |read| - 1 ==> (read + ahead)[i] != eob
    ensures UpToEob(read, eob) && read <= read + ahead
  {
    forall i | 0 <= i < |read| - 1 ensures read[i] != eob { assert read[i] == (read + ahead)[i]; }
  }

  /** The symbol loop: it succeeds exactly when the symbols in the bits decode, in time, within
      nblockMAX bytes, and then tt and unzftab hold the decoded bytes and their counts. It stops
      reading right after the first EOB. */
  method ExpandSymbols(sr: SymbolReader, nInUse: int, seqToUnseq: seq<byte>, nblockMAX: int,
                       tt: array<uint32>, unzftab: array<int>, ghost syms: seq<int>)
    returns (ok: bool, nblock: int, ghost out: seq<int>)
    requires |seqToUnseq| == 256 && unzftab.Length == 256 && tt as object != unzftab as object
    requires 1 <= nInUse <= 256 && 0 <= nblockMAX <= tt.Length
    requires sr.Valid() && sr.read == [] && sr.All() == syms && Known(syms, Identity(256), nInUse + 1)
    modifies tt, unzftab, sr, sr.r
    ensures Decode(syms, Identity(256), 0, 0, nblockMAX, nInUse + 1) == if ok then Some(out) else None
    ensures ok ==> nblock <= nblockMAX && Decoded(tt[..], unzftab[..], seqToUnseq, out, nblock)
    ensures ok ==> sr.Valid() && UpToEob(sr.read, nInUse + 1) && sr.read <= syms
  {
    hide Decode, Count, Holds, Decoded, Known, Reading, SymbolReader.Valid, SymbolReader.All;
    var eob := nInUse + 1;
    ClearCounts(unzftab, tt, seqToUnseq);
    var mtf := new MtfList();
    ghost var goal := Decode(syms, Identity(256), 0, 0, nblockMAX, eob);
    var nextSym;
    nblock, out := 0, [];
    assert syms[0..] == syms && mtf.list == Identity(256);
    StartsAt(goal, syms, mtf.list, nblockMAX, eob);
    ok, nextSym := Fetch(sr, syms, -1, 0);
    if !ok { NoSymbols(syms, 0, mtf.list, 0, 0, nblockMAX, eob); return; }
    ghost var p := 0;
    while true
      invariant ok && nblock <= nblockMAX && mtf.Valid() && fresh(mtf) && fresh(mtf.mtfa) && fresh(mtf.mtfbase)
      invariant Reading(sr, syms, p, nextSym) && 0 <= p < |syms| && nextSym == syms[p]
      invariant At(goal, out, syms, p, mtf.list, nblockMAX - nblock, eob)
      invariant Decoded(tt[..], unzftab[..], seqToUnseq, out, nblock)
      invariant forall i :: 0 <= i < p ==> syms[i] != eob
      decreases |syms| - p
    {
      if nextSym == eob { break; }
      if nextSym == RUNA || nextSym == RUNB {
        ok, nextSym, nblock, p, out :=
          ExpandRun(sr, nextSym, tt, unzftab, mtf, seqToUnseq, nblock, nblockMAX, syms, p, eob, goal, out);
        if !ok { return; }
      } else {
        ok, out := ExpandByte(nextSym, tt, unzftab, mtf, seqToUnseq, nblock, nblockMAX, syms, p, eob, goal, out);
        if !ok { return; }
        nblock := nblock + 1;
        ok, nextSym := Fetch(sr, syms, p, nextSym);
        p := p + 1;
        if !ok { NoSymbols(syms, p, mtf.list, 0, 0, nblockMAX - nblock, eob); return; }
      }
    }
    EobEnds(syms, p, mtf.list, nblockMAX - nblock, eob);
    StopsAtEob(sr, syms, p, nextSym, eob);
    assert out + [] == out;
  }

  lemma StopsAtEob(sr: SymbolReader, syms: seq<int>, p: int, nextSym: int, eob: int)
    requires Reading(sr, syms, p, nextSym) && nextSym == eob && forall i :: 0 <= i < p ==> syms[i] != eob
    ensures sr.Valid() && UpToEob(sr.read, eob) && sr.read <= syms
  {
    PrefixUpToEob(sr.read, sr.Ahead(), eob);
  }

  lemma StartsAt(goal: Option<seq<int>>, syms: seq<int>, list: seq<int>, room: int, eob: int)
    requires |list| == 256 && Elements(list) && Known(syms, list, eob)
    requires goal == Decode(syms, list, 0, 0, room, eob)
    ensures At(goal, [], syms, 0, list, room, eob)
  {
    assert syms[0..] == syms;
    if goal.Some? { assert [] + goal.value == goal.value; }
  }

  method ClearCounts(unzftab: array<int>, ghost tt: array<uint32>, ghost seqToUnseq: seq<byte>)
    requires unzftab.Length == 256 && |seqToUnseq| == 256 && tt as object != unzftab as object
    modifies unzftab
    ensures Decoded(tt[..], unzftab[..], seqToUnseq, [], 0)
  {
    for i := 0 to 256
      invariant forall c :: 0 <= c < i ==> unzftab[c] == 0
    {
      unzftab[i] := 0;
    }
  }
}
