/** The initial run-length stage: what a block of run-length coded bytes stands for. */
module RunLength {
  import opened Bytes

  ghost function Rep(ch: byte, n: nat): (r: seq<byte>)
    ensures |r| == n
  {
    seq(n, _ => ch)
  }

  /** What the decoder makes of a stretch of the block: the bytes written, and whether it then
      reports corruption. */
  datatype Expansion = Expansion(bytes: seq<byte>, corrupt: bool)

  ghost function Then(out: seq<byte>, rest: Expansion): Expansion {
    Expansion(out + rest.bytes, rest.corrupt)
  }

  /** s is the unread part of a block followed by one byte of read-ahead, which is fetched but
      belongs to no run. Four equal bytes are followed by a count; a block that ends between the
      two is corrupt. */
  ghost function Expand(s: seq<byte>): Expansion
    requires |s| > 0
    decreases |s|
  {
    var ch := s[0];
    var count: int := if |s| >= 5 then s[4] else 0;
    if |s| == 1 then Expansion([], false)
    else if |s| == 2 || s[1] != ch then Then(Rep(ch, 1), Expand(s[1..]))
    else if |s| == 3 || s[2] != ch then Then(Rep(ch, 2), Expand(s[2..]))
    else if |s| == 4 || s[3] != ch then Then(Rep(ch, 3), Expand(s[3..]))
    else if |s| == 5 then Expansion(Rep(ch, count + 4), true)
    else Then(Rep(ch, count + 4), Expand(s[5..]))
  }

  /** A run of length 1..255 as add_pair_to_block writes it. */
  datatype Run = Run(ch: byte, len: int)

  ghost function EncodeRun(r: Run): seq<byte>
    requires 1 <= r.len <= 255
  {
    if r.len < 4 then Rep(r.ch, r.len) else Rep(r.ch, 4) + [r.len - 4]
  }

  /** The runs of a block: two neighbours share a byte only when the first one was cut off at
      255. */
  ghost predicate RunsOk(runs: seq<Run>) {
    && (forall i :: 0 <= i < |runs| ==> 1 <= runs[i].len <= 255)
    && (forall i :: 0 < i < |runs| ==> runs[i - 1].ch != runs[i].ch || runs[i - 1].len == 255)
  }

  ghost function EncodeRuns(runs: seq<Run>): seq<byte>
    requires RunsOk(runs)
  {
    if |runs| == 0 then [] else EncodeRuns(runs[..|runs| - 1]) + EncodeRun(runs[|runs| - 1])
  }

  ghost function ExpandRuns(runs: seq<Run>): seq<byte>
    requires RunsOk(runs)
  {
    if |runs| == 0 then [] else ExpandRuns(runs[..|runs| - 1]) + Rep(runs[|runs| - 1].ch, runs[|runs| - 1].len)
  }

  /** One coded run in front of anything that does not continue it expands to the run. */
  lemma ExpandRun(r: Run, rest: seq<byte>)
    requires 1 <= r.len <= 255 && |rest| > 0
    requires r.len < 4 && |rest| > 1 ==> rest[0] != r.ch
    ensures Expand(EncodeRun(r) + rest) == Then(Rep(r.ch, r.len), Expand(rest))
  {
    var s := EncodeRun(r) + rest;
    if r.len == 1 {
      assert s[1..] == rest;
    } else if r.len == 2 {
      assert s[1] == r.ch && s[2..] == rest;
    } else if r.len == 3 {
      assert s[1] == r.ch && s[2] == r.ch && s[3..] == rest;
    } else {
      assert s[1] == s[2] == s[3] == r.ch && s[4] == r.len - 4 && s[5..] == rest;
    }
  }

  lemma {:induction false} ExpandEncodedRuns(runs: seq<Run>, rest: seq<byte>)
    requires RunsOk(runs) && |rest| > 0
    requires |runs| > 0 && runs[|runs| - 1].len < 4 && |rest| > 1 ==> rest[0] != runs[|runs| - 1].ch
    ensures Expand(EncodeRuns(runs) + rest) == Then(ExpandRuns(runs), Expand(rest))
    decreases |runs|
  {
    if |runs| == 0 {
      assert EncodeRuns(runs) + rest == rest;
      assert ExpandRuns(runs) + Expand(rest).bytes == Expand(rest).bytes;
    } else {
      var r := runs[|runs| - 1];
      var init := runs[..|runs| - 1];
      var tail := EncodeRun(r) + rest;
      assert tail[0] == r.ch;
      assert |init| > 0 ==> init[|init| - 1] == runs[|runs| - 2];
      ExpandRun(r, rest);
      ExpandEncodedRuns(init, tail);
      assert EncodeRuns(runs) + rest == EncodeRuns(init) + tail by {
        ConcatAssociative(EncodeRuns(init), EncodeRun(r), rest);
      }
      ConcatAssociative(ExpandRuns(init), Rep(r.ch, r.len), Expand(rest).bytes);
    }
  }

  lemma ConcatAssociative(a: seq<byte>, b: seq<byte>, c: seq<byte>)
    ensures (a + b) + c == a + (b + c)
  {
  }

  /** Round trip of the stage on one block, whatever byte the decoder reads ahead. */
  lemma RunLengthRoundTrip(runs: seq<Run>, ahead: byte)
    requires RunsOk(runs)
    ensures Expand(EncodeRuns(runs) + [ahead]) == Expansion(ExpandRuns(runs), false)
  {
    ExpandEncodedRuns(runs, [ahead]);
    assert ExpandRuns(runs) + [] == ExpandRuns(runs);
  }
}
