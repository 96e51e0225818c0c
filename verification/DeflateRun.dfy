/** Whole runs of the LZ77 engine at one level: the part of deflate that calls deflate_fast or
    deflate_slow, and any sequence of calls of it. */
module DeflateRun {
  import opened Bytes
  import opened DeflateState
  import opened FastDeflate
  import opened HashChains
  import opened HashKeys
  import opened Lz77
  import opened SlowDeflate

  /** More input, the flush mode, whether history is to be forgotten (Z_FULL_FLUSH), and what avail_out
      will turn out to be. */
  datatype Call = Call(input: seq<uch>, flush: Flush, full: bool, noRoom: seq<bool>)

  ghost predicate Engine(s: Deflate, lazy: bool)
    reads s, s.window, s.prev, s.head
  {
    s.symNext < s.c.symEnd && if lazy then SlowSteady(s) else FastSteady(s)
  }

  /** The tokens stand for the data, less the lookahead and at most one byte that is held back. */
  lemma EngineTallied(s: Deflate, lazy: bool)
    requires Engine(s, lazy)
    ensures InRange(s.tokens, MaxDist(s.c))
    ensures exists p :: 0 <= p <= |s.data| <= p + s.lookahead + 1 && Expand(s.tokens) == Some(s.data[..p])
  {
    hide InRange, Expand, Chains, Holds;
    if lazy {
      assert s.Tallied(Done(s));
    } else {
      assert s.Tallied(s.At());
    }
  }

  method ClearHash(head: array<nat>)
    modifies head
    ensures forall i :: 0 <= i < head.Length ==> head[i] == 0
  {
    for i := 0 to head.Length
      invariant forall j :: 0 <= j < i ==> head[j] == 0
    {
      head[i] := 0;
    }
  }

  lemma NoChains(k: Hash, head: seq<nat>, prev: seq<nat>, data: seq<uch>, base: nat)
    requires |head| == Size(k) && |prev| > 0 && forall i :: 0 <= i < |head| ==> head[i] == 0
    ensures Chains(k, head, prev, data, base, {}, 0)
  {
  }

  lemma NothingHeld(window: seq<uch>, data: seq<uch>)
    ensures Holds(window, data, |data|, 0)
  {
  }

  /** What deflate does after a full flush, when all input has been used: CLEAR_HASH, and the window
      starts again. */
  method ForgetHistory(s: Deflate, ghost lazy: bool)
    requires Engine(s, lazy) && s.lookahead == 0 && (lazy ==> !s.matchAvailable)
    modifies s`strstart, s`insert, s`base, s`ins, s`top, s.head
    ensures Engine(s, lazy)
  {
    hide Expand, InRange, Repeats, Chains, Holds, ReadyIn, ProperHash;
    ClearHash(s.head);
    NoChains(s.c.hash, s.head[..], s.prev[..], s.data, s.base + s.strstart);
    NothingHeld(s.window[..], s.data);
    s.base, s.ins, s.top := s.base + s.strstart, {}, 0;
    s.strstart, s.insert := 0, 0;
  }

  /** What a call has done that is not held up by a lack of room for output. */
  ghost predicate Prompt(flush: Flush, finished: bool, tokens: seq<Token>, data: seq<uch>, left: nat) {
    match flush
    case NoFlush => left < MIN_LOOKAHEAD
    case SyncFlush => Expand(tokens) == Some(data)
    case Finish => finished
  }

  /** One call of deflate; finished says that it has entered the finish state. */
  method OneCall(s: Deflate, lazy: bool, call: Call) returns (finished: bool)
    requires Engine(s, lazy)
    modifies s, s.window, s.prev, s.head
    ensures Engine(s, lazy) && s.data + s.nextIn == old(s.data + s.nextIn) + call.input
    ensures finished ==> call.flush == Finish && s.nextIn == [] && s.lookahead == 0 && Expand(s.tokens) == Some(s.data)
    ensures call.noRoom == [] ==> s.lookahead < MIN_LOOKAHEAD
    ensures call.noRoom == [] ==> s.nextIn == [] && Prompt(call.flush, finished, s.tokens, s.data, s.lookahead)
  {
    hide SlowSteady, FastSteady, Expand;
    ghost var given := s.data + s.nextIn + call.input;
    TakeInput(s, lazy, call);
    assert s.data + s.nextIn == given;
    var r;
    if lazy {
      r := DeflateSlow(s, call.flush);
    } else {
      r := DeflateFast(s, call.flush);
    }
    if r == BlockDone && call.full {
      ForgetHistory(s, lazy);
    }
    finished := r == FinishStarted || r == FinishDone;
  }

  method TakeInput(s: Deflate, ghost lazy: bool, call: Call)
    requires Engine(s, lazy)
    modifies s`nextIn, s`noRoom
    ensures Engine(s, lazy) && s.nextIn == old(s.nextIn) + call.input && s.noRoom == call.noRoom
  {
    hide Expand, InRange, Repeats, Chains, Holds, ReadyIn;
    s.nextIn := s.nextIn + call.input;
    s.noRoom := call.noRoom;
  }

  ghost function Given(calls: seq<Call>): seq<uch> {
    if |calls| == 0 then [] else Given(calls[..|calls| - 1]) + calls[|calls| - 1].input
  }

  /** The last call that was made had room for all its output. */
  ghost predicate LastHadRoom(calls: seq<Call>, made: nat) {
    0 < made <= |calls| && calls[made - 1].noRoom == []
  }

  /** Any sequence of calls, up to the one that finishes: the tokens tallied always expand to a prefix of
      the input given, with lengths and distances in range, and to all of it when the last call has
      finished. If the last call has had room for its output, it has finished if it should, the tokens
      stand for all input if it was to flush, and for all but the lookahead otherwise. */
  method AnyRun(c: Config, lazy: bool, calls: seq<Call>) returns (tokens: seq<Token>, made: nat, finished: bool)
    requires ProperConfig(c)
    ensures made <= |calls| && InRange(tokens, MaxDist(c)) && (!finished ==> made == |calls|)
    ensures exists p :: 0 <= p <= |Given(calls[..made])| && Expand(tokens) == Some(Given(calls[..made])[..p])
              && (LastHadRoom(calls, made) ==> |Given(calls[..made])| <= p + MIN_LOOKAHEAD)
    ensures finished ==> Expand(tokens) == Some(Given(calls[..made]))
    ensures LastHadRoom(calls, made) && calls[made - 1].flush == Finish ==> finished
    ensures LastHadRoom(calls, made) && calls[made - 1].flush == SyncFlush ==>
          Expand(tokens) == Some(Given(calls[..made]))
  {
    hide Expand, InRange, Engine;
    var s := new Deflate(c);
    Starts(s, lazy);
    made, finished := 0, false;
    while made < |calls| && !finished
      invariant s.c == c && Engine(s, lazy) && fresh(s) && fresh(s.window) && fresh(s.prev) && fresh(s.head)
      invariant made <= |calls| && s.data + s.nextIn == Given(calls[..made])
      invariant finished ==> s.nextIn == [] && Expand(s.tokens) == Some(s.data) && s.lookahead == 0
      invariant LastHadRoom(calls, made) ==>
            s.nextIn == [] && Prompt(calls[made - 1].flush, finished, s.tokens, s.data, s.lookahead)
      invariant LastHadRoom(calls, made) ==> s.lookahead < MIN_LOOKAHEAD
      decreases |calls| - made, !finished
    {
      finished := OneCall(s, lazy, calls[made]);
      assert calls[..made + 1][..made] == calls[..made];
      made := made + 1;
    }
    tokens := s.tokens;
    EngineTallied(s, lazy);
    ghost var p :| 0 <= p <= |s.data| <= p + s.lookahead + 1 && Expand(s.tokens) == Some(s.data[..p]);
    assert Given(calls[..made])[..p] == s.data[..p];
    assert s.nextIn == [] ==> s.data == s.data + s.nextIn;
  }

  lemma Starts(s: Deflate, lazy: bool)
    requires s.Steady() && s.Tallied(0) && s.symNext == 0 && s.base == 0 && s.strstart == 0 && ProperConfig(s.c)
    requires s.matchLength == s.prevLength == MIN_MATCH - 1 && !s.matchAvailable
    ensures Engine(s, lazy)
  {
    hide Expand, InRange, Repeats, Chains, Holds, ReadyIn;
  }
}
