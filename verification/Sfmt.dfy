/** SFMT.c: the generator as one linear recurrence over 128-bit words, generated in place, in bulk,
    or a number at a time. */
module Sfmt {
  import C = Certification
  import opened SfmtLinear
  import opened SfmtWords

  /** The state and the next m words of the recurrence. */
  ghost function Stream(p: Params, st: seq<W128>, m: nat): (r: seq<W128>)
    requires Proper(p) && |st| == p.n
    ensures |r| == p.n + m
  {
    if m == 0 then st
    else
      var s := Stream(p, st, m - 1);
      s + [DoRecursion(p, s[m - 1], s[m - 1 + p.pos1], s[p.n + m - 3], s[p.n + m - 2])]
  }

  lemma {:induction false} StreamPrefix(p: Params, st: seq<W128>, m: nat, k: nat)
    requires Proper(p) && |st| == p.n && k <= m
    ensures Stream(p, st, m)[..p.n + k] == Stream(p, st, k)
    decreases m
  {
    hide DoRecursion;
    if k < m { StreamPrefix(p, st, m - 1, k); }
  }

  lemma StreamStarts(p: Params, st: seq<W128>, m: nat)
    requires Proper(p) && |st| == p.n
    ensures Stream(p, st, m)[..p.n] == st
  {
    StreamPrefix(p, st, m, 0);
  }

  /** The recurrence itself. */
  lemma StreamNext(p: Params, st: seq<W128>, m: nat, i: nat)
    requires Proper(p) && |st| == p.n && i < m
    ensures var s := Stream(p, st, m); s[p.n + i] == DoRecursion(p, s[i], s[i + p.pos1], s[p.n + i - 2], s[p.n + i - 1])
  {
    hide DoRecursion;
    StreamPrefix(p, st, m, i + 1);
    StreamPrefix(p, st, m, i);
    var s := Stream(p, st, m);
    assert s[p.n + i] == s[..p.n + (i + 1)][p.n + i];
    assert forall k :: 0 <= k < p.n + i ==> s[k] == s[..p.n + i][k];
  }

  /** The recurrence on the numbers that the words are. */
  lemma StreamRecurs(p: Params, st: seq<W128>, m: nat, i: nat)
    requires Proper(p) && |st| == p.n && i < m
    ensures var s := Stream(p, st, m); IsNext(p, s[i], s[i + p.pos1], s[p.n + i - 2], s[p.n + i - 1], s[p.n + i])
  {
    hide DoRecursion, IsNext, Stream, ProperShifts;
    StreamNext(p, st, m, i);
    var s := Stream(p, st, m);
    RecursionIsNext(p, s[i], s[i + p.pos1], s[p.n + i - 2], s[p.n + i - 1]);
  }

  /** The sums of the words of two states. */
  ghost function PlusAll(s: seq<W128>, t: seq<W128>): (r: seq<W128>)
    requires |s| == |t|
    ensures |r| == |s| && forall k :: 0 <= k < |s| ==> r[k] == Plus(s[k], t[k])
  {
    seq(|s|, k requires 0 <= k < |s| => Plus(s[k], t[k]))
  }

  /** The generator is linear: the stream from the sum of two states is the sum of their streams. */
  lemma {:induction false} StreamAdds(p: Params, st: seq<W128>, st': seq<W128>, m: nat)
    requires Proper(p) && |st| == |st'| == p.n
    ensures Stream(p, PlusAll(st, st'), m) == PlusAll(Stream(p, st, m), Stream(p, st', m))
    decreases m
  {
    hide DoRecursion, Plus, ProperShifts;
    if m > 0 {
      StreamAdds(p, st, st', m - 1);
      var s, t := Stream(p, st, m - 1), Stream(p, st', m - 1);
      var a, b, c, d := m - 1, m - 1 + p.pos1, p.n + m - 3, p.n + m - 2;
      RecursionAdds(p, s[a], s[b], s[c], s[d], t[a], t[b], t[c], t[d]);
      assert Stream(p, PlusAll(st, st'), m - 1) == PlusAll(s, t);
    }
  }

  /** Going on from the last n words goes on with the stream. */
  lemma {:induction false} StreamResumes(p: Params, st: seq<W128>, m: nat, k: nat)
    requires Proper(p) && |st| == p.n
    ensures Stream(p, Stream(p, st, m)[m..], k) == Stream(p, st, m + k)[m..]
    decreases k
  {
    hide DoRecursion;
    if k > 0 {
      StreamResumes(p, st, m, k - 1);
      var s, t := Stream(p, st, m + (k - 1)), Stream(p, Stream(p, st, m)[m..], k - 1);
      assert t == s[m..];
      assert t[k - 1] == s[m + (k - 1)] && t[k - 1 + p.pos1] == s[m + (k - 1) + p.pos1];
      assert t[p.n + k - 3] == s[p.n + m + k - 3] && t[p.n + k - 2] == s[p.n + m + k - 2];
    }
  }

  /** Words made from the window of a stream are the next words of that stream. */
  lemma GoesOn(p: Params, start: seq<W128>, made: nat, st: seq<W128>, k: nat)
    requires Proper(p) && |start| == p.n && st == Stream(p, start, made)[made..]
    ensures Stream(p, st, k)[p.n..] == Stream(p, start, made + k)[made + p.n..]
    ensures Stream(p, st, k)[k..] == Stream(p, start, made + k)[made + k..]
  {
    hide Stream;
    StreamResumes(p, start, made, k);
    var s, t := Stream(p, st, k), Stream(p, start, made + k);
    assert s == t[made..];
    assert s[p.n..] == t[made + p.n..];
    assert s[k..] == t[made + k..];
  }

  /** The state when i of its n words have been replaced by later ones. */
  ghost function Window(s: seq<W128>, n: nat, i: nat): (w: seq<W128>)
    requires i <= n && n + i <= |s|
    ensures |w| == n
  {
    s[n..n + i] + s[i..n]
  }

  lemma WindowStarts(p: Params, st: seq<W128>)
    requires Proper(p) && |st| == p.n
    ensures Window(Stream(p, st, p.n), p.n, 0) == st
  {
    StreamStarts(p, st, p.n);
  }

  lemma WindowEnds(s: seq<W128>, n: nat)
    requires |s| == 2 * n
    ensures Window(s, n, n) == s[n..]
  {
  }

  /** The place, in the window at i, of the word k places before the one that is made next. */
  ghost function Before(p: Params, i: nat, k: nat): int {
    if i < k then p.n + i - k else i - k
  }

  lemma WindowAt(s: seq<W128>, n: nat, i: nat, k: nat)
    requires i <= n && n + i <= |s| && k < n
    ensures Window(s, n, i)[k] == s[if k < i then n + k else k]
  {
  }

  lemma WindowMoves(s: seq<W128>, n: nat, i: nat)
    requires i < n && n + i < |s|
    ensures Window(s, n, i + 1) == Window(s, n, i)[i := s[n + i]]
  {
  }

  /** What replacing word i reads and writes. */
  lemma NextInPlace(p: Params, st: seq<W128>, i: nat)
    requires Proper(p) && |st| == p.n && i < p.n
    ensures var s := Stream(p, st, p.n);
            var w := Window(s, p.n, i);
            var b := w[if i < p.n - p.pos1 then i + p.pos1 else i + p.pos1 - p.n];
            Window(s, p.n, i + 1) == w[i := DoRecursion(p, w[i], b, w[Before(p, i, 2)], w[Before(p, i, 1)])]
  {
    hide DoRecursion, Stream, ProperShifts, Window;
    var s := Stream(p, st, p.n);
    StreamNext(p, st, p.n, i);
    WindowMoves(s, p.n, i);
    WindowAt(s, p.n, i, i);
    WindowAt(s, p.n, i, if i < p.n - p.pos1 then i + p.pos1 else i + p.pos1 - p.n);
    WindowAt(s, p.n, i, Before(p, i, 2));
    WindowAt(s, p.n, i, Before(p, i, 1));
  }

  /** What the array holds when the first i of its words have been made. */
  ghost predicate Holds(array_: array<W128>, i: nat, s: seq<W128>, n: nat)
    reads array_
  {
    i <= array_.Length && n + i <= |s| && forall k :: 0 <= k < i ==> array_[k] == s[n + k]
  }

  lemma FirstOnes(p: Params, st: seq<W128>, m: nat)
    requires Proper(p) && |st| == p.n
    ensures forall k :: 0 <= k < p.n ==> Stream(p, st, m)[k] == st[k]
  {
    hide Stream;
    StreamStarts(p, st, m);
    var s := Stream(p, st, m);
    assert forall k :: 0 <= k < p.n ==> s[..p.n][k] == s[k];
  }

  /** A number of the sequence: word k of the 32-bit numbers that the state st stands in front of. */
  ghost function Number(p: Params, st: seq<W128>, k: nat): bv32
    requires Proper(p) && |st| == p.n
  {
    Stream(p, st, k / 4 + 1)[k / 4].U(k % 4)
  }

  lemma NumberIn(p: Params, st: seq<W128>, m: nat, k: nat)
    requires Proper(p) && |st| == p.n && k / 4 < p.n + m
    ensures Number(p, st, k) == Stream(p, st, m)[k / 4].U(k % 4)
  {
    var j := k / 4 + 1;
    if j <= m {
      StreamPrefix(p, st, m, j);
      assert Stream(p, st, m)[k / 4] == Stream(p, st, m)[..p.n + j][k / 4];
    } else {
      StreamPrefix(p, st, j, m);
      assert Stream(p, st, j)[k / 4] == Stream(p, st, j)[..p.n + m][k / 4];
    }
  }

  lemma NumberInWindow(p: Params, start: seq<W128>, made: nat, idx: nat)
    requires Proper(p) && |start| == p.n && idx < 4 * p.n
    ensures Number(p, start, 4 * made + idx) == Stream(p, start, made)[made..][idx / 4].U(idx % 4)
  {
    hide Stream, Number;
    assert (4 * made + idx) / 4 == made + idx / 4 && (4 * made + idx) % 4 == idx % 4;
    NumberIn(p, start, made, 4 * made + idx);
  }

  lemma SameWord(idx: nat)
    requires idx % 2 == 0
    ensures (idx + 1) / 4 == idx / 4 && (idx + 1) % 4 == idx % 4 + 1 && (idx % 4 == 0 || idx % 4 == 2)
  {
  }

  /** One word of the array from earlier words of the array. */
  method NextInArray(p: Params, array_: array<W128>, ghost s: seq<W128>, ghost st: seq<W128>, i: nat, r1: W128,
        r2: W128)
      returns (r2': W128, r: W128)
    requires Proper(p) && |st| == p.n <= i < array_.Length && s == Stream(p, st, array_.Length)
    requires Holds(array_, i, s, p.n) && r1 == s[p.n + i - 2] && r2 == s[p.n + i - 1]
    modifies array_
    ensures Holds(array_, i + 1, s, p.n) && r2' == r2 && r == array_[i] == s[p.n + i]
  {
    hide DoRecursion, Stream, ProperShifts;
    StreamNext(p, st, array_.Length, i);
    array_[i] := DoRecursion(p, array_[i - p.n], array_[i + p.pos1 - p.n], r1, r2);
    r2', r := r2, array_[i];
  }

  class Generator {
    const p: Params
    const state: array<W128>
    var idx: nat
    ghost var start: seq<W128>
    ghost var made: nat

    /** The state is the window behind the first made words of the stream from start. */
    ghost predicate Valid()
      reads this, state
    {
      Proper(p) && state.Length == |start| == p.n && idx <= 4 * p.n && state[..] == Stream(p, start, made)[made..]
    }

    /** How many 32-bit numbers of the sequence have been passed. */
    ghost function Position(): nat
      reads this
    {
      4 * made + idx
    }

    /** A state that has been initialised, with all its words used. */
    constructor (p: Params, words: seq<W128>)
      requires Proper(p) && |words| == p.n
      ensures Valid() && this.p == p && start == words && made == 0 && idx == 4 * p.n && fresh(state)
    {
      this.p := p;
      state := new W128[p.n](i requires 0 <= i < p.n => if i < |words| then words[i] else words[0]);
      idx, start, made := 4 * p.n, words, 0;
      new;
      assert state[..] == words;
    }

    /** period_certification, before anything has been generated. */
    method PeriodCertification()
      requires Valid() && made == 0
      modifies this`start, state
      ensures Valid() && start[1..] == old(start[1..])
      ensures C.Inner(start[0], p.parity) <==> old(C.Inner(start[0], p.parity)) || p.parity != W128(0, 0, 0, 0)
      ensures start[0] == old(start[0]) || C.OneBitTurned(old(start[0]), start[0])
      ensures old(C.Inner(start[0], p.parity)) ==> start == old(start)
    {
      hide C.Inner, C.OneBitTurned, DoRecursion, ProperShifts;
      assert state[..] == start;
      state[0] := C.Certify(state[0], p.parity);
      start := state[..];
    }

    /** sfmt_gen_rand_all: the next n words, in place. */
    method GenRandAll()
      requires Valid()
      modifies this`made, state
      ensures Valid() && made == old(made) + p.n
    {
      hide DoRecursion, Stream, ProperShifts;
      ghost var st := state[..];
      NextWords(st);
      GoesOn(p, start, made, st, p.n);
      made := made + p.n;
    }

    /** The two loops of sfmt_gen_rand_all; r1 and r2 are the places of the two words made before. */
    method NextWords(ghost st: seq<W128>)
      requires Proper(p) && state.Length == p.n && state[..] == st
      modifies state
      ensures |st| == p.n && state[..] == Stream(p, st, p.n)[p.n..]
    {
      hide DoRecursion, Stream, ProperShifts, Window;
      ghost var s := Stream(p, st, p.n);
      WindowStarts(p, st);
      var r1, r2 := p.n - 2, p.n - 1;
      for i := 0 to p.n - p.pos1
        invariant state[..] == Window(s, p.n, i) && r1 == Before(p, i, 2) && r2 == Before(p, i, 1)
      {
        NextInPlace(p, st, i);
        state[i] := DoRecursion(p, state[i], state[i + p.pos1], state[r1], state[r2]);
        r1, r2 := r2, i;
      }
      for i := p.n - p.pos1 to p.n
        invariant state[..] == Window(s, p.n, i) && r1 == Before(p, i, 2) && r2 == Before(p, i, 1)
      {
        NextInPlace(p, st, i);
        state[i] := DoRecursion(p, state[i], state[i + p.pos1 - p.n], state[r1], state[r2]);
        r1, r2 := r2, i;
      }
      WindowEnds(s, p.n);
    }

    /** gen_rand_array: fills the array with the next words and leaves the last n of them as the
        state, whether or not the array is as long as two states. */
    method GenRandArray(array_: array<W128>)
      requires Valid() && array_ != state && p.n <= array_.Length
      modifies this`made, state, array_
      ensures Valid() && made == old(made) + array_.Length
      ensures array_[..] == Stream(p, start, old(made) + array_.Length)[old(made) + p.n..]
    {
      hide DoRecursion, Stream, ProperShifts;
      ghost var st := state[..];
      ghost var s := Stream(p, st, array_.Length);
      var r1, r2 := FirstWords(array_, s, st);
      var i;
      i, r1, r2 := MiddleWords(array_, s, st, r1, r2);
      var j := CopyTail(array_, s, i);
      LastWords(array_, s, st, i, j, r1, r2);
      GoesOn(p, start, made, st, array_.Length);
      made := made + array_.Length;
    }

    /** The first n words, which still need words of the state; r1 and r2 are the two words before. */
    method FirstWords(array_: array<W128>, ghost s: seq<W128>, ghost st: seq<W128>) returns (r1: W128, r2: W128)
      requires Proper(p) && state.Length == |st| == p.n <= array_.Length && array_ != state
      requires state[..] == st && s == Stream(p, st, array_.Length)
      modifies array_
      ensures Holds(array_, p.n, s, p.n) && r1 == s[2 * p.n - 2] && r2 == s[2 * p.n - 1]
    {
      hide DoRecursion, Stream, ProperShifts;
      r1, r2 := state[p.n - 2], state[p.n - 1];
      FirstOnes(p, st, array_.Length);
      for i := 0 to p.n - p.pos1
        invariant Holds(array_, i, s, p.n) && r1 == s[p.n + i - 2] && r2 == s[p.n + i - 1]
      {
        StreamNext(p, st, array_.Length, i);
        array_[i] := DoRecursion(p, state[i], state[i + p.pos1], r1, r2);
        r1, r2 := r2, array_[i];
      }
      r1, r2 := RestOfFirstWords(array_, s, st, r1, r2);
    }

    method RestOfFirstWords(array_: array<W128>, ghost s: seq<W128>, ghost st: seq<W128>, a: W128, b: W128)
        returns (r1: W128, r2: W128)
      requires Proper(p) && state.Length == |st| == p.n <= array_.Length && array_ != state
      requires state[..] == st && s == Stream(p, st, array_.Length) && Holds(array_, p.n - p.pos1, s, p.n)
      requires a == s[2 * p.n - p.pos1 - 2] && b == s[2 * p.n - p.pos1 - 1]
      modifies array_
      ensures Holds(array_, p.n, s, p.n) && r1 == s[2 * p.n - 2] && r2 == s[2 * p.n - 1]
    {
      hide DoRecursion, Stream, ProperShifts;
      r1, r2 := a, b;
      FirstOnes(p, st, array_.Length);
      for i := p.n - p.pos1 to p.n
        invariant Holds(array_, i, s, p.n) && r1 == s[p.n + i - 2] && r2 == s[p.n + i - 1]
      {
        StreamNext(p, st, array_.Length, i);
        assert array_[i + p.pos1 - p.n] == s[i + p.pos1];
        array_[i] := DoRecursion(p, state[i], array_[i + p.pos1 - p.n], r1, r2);
        r1, r2 := r2, array_[i];
      }
    }

    /** The words that are too early to be in the last n, if there are more of them than the first n. */
    method MiddleWords(array_: array<W128>, ghost s: seq<W128>, ghost st: seq<W128>, a: W128, b: W128)
        returns (i: nat, r1: W128, r2: W128)
      requires Proper(p) && |st| == p.n <= array_.Length && s == Stream(p, st, array_.Length)
      requires Holds(array_, p.n, s, p.n) && a == s[2 * p.n - 2] && b == s[2 * p.n - 1]
      modifies array_
      ensures i == if array_.Length < 2 * p.n then p.n else array_.Length - p.n
      ensures Holds(array_, i, s, p.n) && r1 == s[p.n + i - 2] && r2 == s[p.n + i - 1]
    {
      hide DoRecursion, Stream, ProperShifts;
      i, r1, r2 := p.n, a, b;
      while i < array_.Length - p.n
        invariant p.n <= i <= array_.Length && (i > p.n ==> i <= array_.Length - p.n)
        invariant Holds(array_, i, s, p.n) && r1 == s[p.n + i - 2] && r2 == s[p.n + i - 1]
      {
        r1, r2 := NextInArray(p, array_, s, st, i, r1, r2);
        i := i + 1;
      }
    }

    /** The words that stay in the state already, if the array is shorter than two states. */
    method CopyTail(array_: array<W128>, ghost s: seq<W128>, i: nat) returns (j: nat)
      requires Proper(p) && state.Length == p.n <= array_.Length && array_ != state && |s| == p.n + array_.Length
      requires p.n <= i <= array_.Length && Holds(array_, i, s, p.n)
      requires i == if array_.Length < 2 * p.n then p.n else array_.Length - p.n
      modifies state
      ensures i - j == array_.Length - p.n && j <= p.n && Holds(state, j, s, array_.Length)
    {
      hide Stream, DoRecursion, ProperShifts;
      var size := array_.Length;
      j := 0;
      while j < 2 * p.n - size
        invariant 0 <= j && (j > 0 ==> j <= 2 * p.n - size) && Holds(state, j, s, size)
      {
        state[j] := array_[j + size - p.n];
        j := j + 1;
      }
    }

    /** The rest, each copied to the state. */
    method LastWords(array_: array<W128>, ghost s: seq<W128>, ghost st: seq<W128>, from: nat, to: nat, a: W128, b: W128)
      requires Proper(p) && state.Length == |st| == p.n <= array_.Length && array_ != state
      requires s == Stream(p, st, array_.Length)
      requires p.n <= from <= array_.Length && from - to == array_.Length - p.n
      requires Holds(array_, from, s, p.n) && Holds(state, to, s, array_.Length)
      requires a == s[p.n + from - 2] && b == s[p.n + from - 1]
      modifies state, array_
      ensures array_[..] == s[p.n..] && state[..] == s[array_.Length..]
    {
      hide DoRecursion, Stream, ProperShifts;
      var i, j, r1, r2 := from, to, a, b;
      while i < array_.Length
        invariant p.n <= i <= array_.Length && i - j == array_.Length - p.n
        invariant Holds(array_, i, s, p.n) && Holds(state, j, s, array_.Length)
        invariant r1 == s[p.n + i - 2] && r2 == s[p.n + i - 1]
      {
        r1, r2 := NextInArray(p, array_, s, st, i, r1, r2);
        state[j] := array_[i];
        i, j := i + 1, j + 1;
      }
    }

    /** sfmt_genrand_uint32: the next number of the sequence. */
    method GenrandUint32() returns (r: bv32)
      requires Valid()
      modifies this`idx, this`made, state
      ensures Valid() && Position() == old(Position()) + 1 && start == old(start)
      ensures r == Number(p, start, old(Position()))
    {
      hide Stream, DoRecursion, ProperShifts, Number;
      if idx >= 4 * p.n {
        GenRandAll();
        idx := 0;
      }
      NumberInWindow(p, start, made, idx);
      r := state[idx / 4].U(idx % 4);
      idx := idx + 1;
    }

    /** sfmt_genrand_uint64: the next two 32-bit numbers, the first in the lower half. */
    method GenrandUint64() returns (r: bv64)
      requires Valid() && idx % 2 == 0
      modifies this`idx, this`made, state
      ensures Valid() && idx % 2 == 0 && Position() == old(Position()) + 2 && start == old(start)
      ensures r == Join(Number(p, start, old(Position()) + 1), Number(p, start, old(Position())))
    {
      hide Stream, DoRecursion, ProperShifts, Number, Join;
      if idx >= 4 * p.n {
        GenRandAll();
        idx := 0;
      }
      NumberInWindow(p, start, made, idx);
      NumberInWindow(p, start, made, idx + 1);
      SameWord(idx);
      var w := state[idx / 4];
      r := if idx % 4 == 0 then Join(w.u1, w.u0) else Join(w.u3, w.u2);
      idx := idx + 2;
    }

    /** sfmt_fill_array32: the same numbers that as many calls of sfmt_genrand_uint32 would give. */
    method FillArray32(array_: array<W128>)
      requires Valid() && idx == 4 * p.n && array_ != state && p.n <= array_.Length
      modifies this`idx, this`made, state, array_
      ensures Valid() && Position() == old(Position()) + 4 * array_.Length && start == old(start)
      ensures forall k :: 0 <= k < 4 * array_.Length ==> array_[k / 4].U(k % 4) == Number(p, start, old(Position()) + k)
    {
      hide Stream, DoRecursion, ProperShifts, Number;
      ghost var at, was := Position(), made;
      GenRandArray(array_);
      idx := 4 * p.n;
      forall k | 0 <= k < 4 * array_.Length ensures array_[k / 4].U(k % 4) == Number(p, start, at + k) {
        assert (at + k) / 4 == was + p.n + k / 4 && (at + k) % 4 == k % 4;
        NumberIn(p, start, made, at + k);
        assert array_[..][k / 4] == Stream(p, start, made)[was + p.n..][k / 4];
      }
    }
  }
}
