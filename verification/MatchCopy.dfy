/** inffast.c: the copying of one match out of the window and the output. */
module MatchCopy {
  import opened Lz77

  /** The bytes of the window, oldest first. */
  function History(window: seq<uch>, whave: nat, wnext: nat): seq<uch>
    requires wnext <= |window| && whave <= |window|
  {
    if whave == |window| then window[wnext..] + window[..wnext] else window[..whave]
  }

  /** A window that has been written from its start, and around its end once it is full. */
  ghost predicate ProperWindow(window: seq<uch>, whave: nat, wnext: nat) {
    wnext <= |window| && whave <= |window| && (whave == |window| || wnext == whave)
  }

  /** The byte at place i of the output, or of the history for places before its start. */
  function Back(hist: seq<uch>, out: seq<uch>, i: int): uch
    requires -|hist| <= i < |out|
  {
    if i >= 0 then out[i] else hist[|hist| + i]
  }

  /** The n bytes of the output from pos on are those dist places before them. */
  ghost predicate Filled(hist: seq<uch>, out: seq<uch>, pos: nat, dist: nat, n: nat) {
    1 <= dist <= |hist| + pos && pos + n <= |out| && forall k :: pos <= k < pos + n ==>
      out[k] == Back(hist, out, k - dist)
  }

  /** Filling byte by byte is the copy of LZ77. */
  lemma FilledIsCopy(hist: seq<uch>, out: seq<uch>, pos: nat, dist: nat, n: nat)
    requires Filled(hist, out, pos, dist, n)
    ensures hist + out[..pos + n] == Copy(hist + out[..pos], dist, n)
  {
    var all, p := hist + out[..pos + n], |hist| + pos;
    forall k | p <= k < p + n ensures all[k] == all[k - dist] {
      assert out[k - |hist|] == Back(hist, out, k - |hist| - dist);
    }
    CopyIsData(all, p, dist, n);
    assert all[..p] == hist + out[..pos];
    assert all[..p + n] == all;
  }

  /** The loops that copy byte by byte; src is the window or the output itself. */
  method CopyBytes(src: array<uch>, from: nat, out: array<uch>, pos: nat, n: nat)
    requires pos + n <= out.Length && from + n <= src.Length && (src == out ==> from < pos)
    modifies out
    ensures forall i :: 0 <= i < pos ==> out[i] == old(out[i])
    ensures forall k :: pos <= k < pos + n ==> out[k] == src[from + (k - pos)]
  {
    for i := 0 to n
      invariant forall j :: 0 <= j < pos ==> out[j] == old(out[j])
      invariant forall k :: pos <= k < pos + i ==> out[k] == src[from + (k - pos)]
    {
      out[pos + i] := src[from + i];
    }
  }

  /** The same three bytes at a time. */
  method CopyThrees(src: array<uch>, from: nat, out: array<uch>, pos: nat, n: nat)
    requires pos + n <= out.Length && from + n <= src.Length && (src == out ==> from < pos)
    modifies out
    ensures forall i :: 0 <= i < pos ==> out[i] == old(out[i])
    ensures forall k :: pos <= k < pos + n ==> out[k] == src[from + (k - pos)]
  {
    var i, len := 0, n;
    while len > 2
      invariant 0 <= i && i + len == n
      invariant forall j :: 0 <= j < pos ==> out[j] == old(out[j])
      invariant forall k :: pos <= k < pos + i ==> out[k] == src[from + (k - pos)]
    {
      CopyBytes(src, from + i, out, pos + i, 3);
      i, len := i + 3, len - 3;
    }
    CopyBytes(src, from + i, out, pos + i, len);
  }

  // What the parts of a copy contribute

  /** Bytes of the window are bytes of the history. */
  lemma WindowByte(window: seq<uch>, whave: nat, wnext: nat, op: nat)
    requires ProperWindow(window, whave, wnext) && 1 <= op <= whave
    ensures var f := if wnext < op then |window| + wnext - op else wnext - op;
            var hist := History(window, whave, wnext);
            |hist| == whave && f < |window| && window[f] == hist[whave - op]
  {
  }

  /** Places p to p + n of the output repeat what is dist before them. */
  ghost predicate Part(hist: seq<uch>, out: seq<uch>, dist: nat, p: nat, n: nat) {
    dist <= |hist| + p && p + n <= |out| && forall k :: p <= k < p + n && k - dist < |out| ==>
      out[k] == Back(hist, out, k - dist)
  }

  /** Where in the window the byte is that is op places back. */
  function At(wsize: nat, wnext: nat, op: nat): int {
    if wnext < op then wsize + wnext - op else wnext - op
  }

  /** A stretch of the window that does not pass its end. */
  lemma WindowPart(window: seq<uch>, whave: nat, wnext: nat, out: seq<uch>, dist: nat, p: nat, n: nat)
    requires ProperWindow(window, whave, wnext) && p < dist <= p + whave && p + n <= |out|
    requires n <= dist - p && (wnext < dist - p ==> n <= dist - p - wnext)
    requires var f := At(|window|, wnext, dist - p);
             0 <= f && f + n <= |window| && forall k :: p <= k < p + n ==> out[k] == window[f + (k - p)]
    ensures Part(History(window, whave, wnext), out, dist, p, n)
  {
    var f, hist := At(|window|, wnext, dist - p), History(window, whave, wnext);
    forall k | p <= k < p + n ensures out[k] == Back(hist, out, k - dist) {
      assert out[k] == window[f + (k - p)];
      WindowByte(window, whave, wnext, dist - k);
    }
  }

  lemma OutputPart(hist: seq<uch>, out: seq<uch>, dist: nat, p: nat, n: nat)
    requires 1 <= dist <= p && p + n <= |out| && forall k :: p <= k < p + n ==> out[k] == out[p - dist + (k - p)]
    ensures Part(hist, out, dist, p, n)
  {
  }

  /** Later writes leave a part as it is. */
  lemma PartKept(hist: seq<uch>, out: seq<uch>, out': seq<uch>, dist: nat, p: nat, n: nat)
    requires 1 <= dist && Part(hist, out, dist, p, n) && |out'| == |out| && out'[..p + n] == out[..p + n]
    ensures Part(hist, out', dist, p, n)
  {
    forall k | p <= k < p + n ensures out'[k] == Back(hist, out', k - dist) {
      assert out'[k] == out'[..p + n][k] == out[k] == Back(hist, out, k - dist);
      if k - dist >= 0 {
        assert out'[k - dist] == out'[..p + n][k - dist] == out[k - dist];
      }
    }
  }

  lemma PartsJoin(hist: seq<uch>, out: seq<uch>, dist: nat, p: nat, n: nat, n': nat)
    requires 1 <= dist && Part(hist, out, dist, p, n) && Part(hist, out, dist, p + n, n')
    ensures Part(hist, out, dist, p, n + n')
  {
  }

  lemma PartIsFilled(hist: seq<uch>, out: seq<uch>, dist: nat, p: nat, n: nat)
    requires 1 <= dist && Part(hist, out, dist, p, n)
    ensures Filled(hist, out, p, dist, n)
  {
  }

  /** One stretch from the window, then the rest from the output. */
  method WindowThenOutput(window: array<uch>, whave: nat, wnext: nat, out: array<uch>, pos: nat, dist: nat, len: nat)
    requires window != out && ProperWindow(window[..], whave, wnext) && pos < dist <= pos + whave
    requires pos + len <= out.Length
    requires wnext >= dist - pos || wnext == 0
    modifies out
    ensures out[..pos] == old(out[..pos])
    ensures Part(History(window[..], whave, wnext), out[..], dist, pos, len)
  {
    hide History, Part;
    WindowRange(window[..], whave, wnext, dist - pos);
    var from, op := At(window.Length, wnext, dist - pos), dist - pos;
    if op < len {
      CopyBytes(window, from, out, pos, op);
      WindowPart(window[..], whave, wnext, out[..], dist, pos, op);
      ghost var was := out[..];
      CopyThrees(out, pos + op - dist, out, pos + op, len - op);
      OutputPart(History(window[..], whave, wnext), out[..], dist, pos + op, len - op);
      assert out[..pos + op] == was[..pos + op];
      PartKept(History(window[..], whave, wnext), was, out[..], dist, pos, op);
      PartsJoin(History(window[..], whave, wnext), out[..], dist, pos, op, len - op);
    } else {
      CopyThrees(window, from, out, pos, len);
      WindowPart(window[..], whave, wnext, out[..], dist, pos, len);
    }
  }

  lemma WindowRange(window: seq<uch>, whave: nat, wnext: nat, op: nat)
    requires ProperWindow(window, whave, wnext) && 1 <= op <= whave
    ensures var f := At(|window|, wnext, op);
            0 <= f < |window| && f + (if wnext < op then op - wnext else op) <= |window|
    ensures wnext < op ==> whave == |window| && wnext + op <= |window| + wnext
  {
  }

  /** Some from the end of the window, then on from its start. */
  method WrapAround(window: array<uch>, whave: nat, wnext: nat, out: array<uch>, pos: nat, dist: nat, len: nat)
    requires window != out && ProperWindow(window[..], whave, wnext) && pos < dist <= pos + whave
    requires pos + len <= out.Length
    requires 0 < wnext < dist - pos
    modifies out
    ensures out[..pos] == old(out[..pos])
    ensures Part(History(window[..], whave, wnext), out[..], dist, pos, len)
  {
    hide History, Part;
    WindowRange(window[..], whave, wnext, dist - pos);
    var from, op := window.Length + wnext - (dist - pos), dist - pos - wnext;
    if op < len {
      CopyBytes(window, from, out, pos, op);
      WindowPart(window[..], whave, wnext, out[..], dist, pos, op);
      ghost var was := out[..];
      WindowThenOutput(window, whave, wnext, out, pos + op, dist, len - op);
      assert out[..pos + op] == was[..pos + op];
      PartKept(History(window[..], whave, wnext), was, out[..], dist, pos, op);
      PartsJoin(History(window[..], whave, wnext), out[..], dist, pos, op, len - op);
    } else {
      CopyThrees(window, from, out, pos, len);
      WindowPart(window[..], whave, wnext, out[..], dist, pos, len);
    }
  }

  /** The copy of a match whose distance reaches into the output or, if it is not more than what the
      window has, into the window. */
  method CopyMatch(window: array<uch>, whave: nat, wnext: nat, out: array<uch>, pos: nat, dist: nat, len: nat)
    requires window != out && ProperWindow(window[..], whave, wnext)
    requires 1 <= dist <= pos + whave && pos + len <= out.Length
    modifies out
    ensures out[..pos] == old(out[..pos])
    ensures var hist := History(window[..], whave, wnext);
            |hist| == whave && hist + out[..pos + len] == Copy(hist + old(out[..pos]), dist, len)
  {
    hide History, Part;
    HistoryLength(window[..], whave, wnext);
    if dist > pos {
      if wnext == 0 || dist - pos <= wnext {
        WindowThenOutput(window, whave, wnext, out, pos, dist, len);
      } else {
        WrapAround(window, whave, wnext, out, pos, dist, len);
      }
    } else {
      CopyThrees(out, pos - dist, out, pos, len);
      OutputPart(History(window[..], whave, wnext), out[..], dist, pos, len);
    }
    PartIsFilled(History(window[..], whave, wnext), out[..], dist, pos, len);
    FilledIsCopy(History(window[..], whave, wnext), out[..], pos, dist, len);
  }

  lemma HistoryLength(window: seq<uch>, whave: nat, wnext: nat)
    requires ProperWindow(window, whave, wnext)
    ensures |History(window, whave, wnext)| == whave
  {
  }
}
