/** deflate.c: deflate_slow, which puts off the decision about a match until the next string has been
    looked at. */
module SlowDeflate {
  import opened Bytes
  import opened DeflateState
  import opened HashChains
  import opened HashKeys
  import opened Lz77
  import opened MatchSearch
  import opened WindowFill

  const TOO_FAR := 4096

  /** The place up to which the tokens stand for the data: one byte is held back while a decision is pending. */
  ghost function Done(s: Deflate): int
    reads s
  {
    s.At() - (if s.matchAvailable then 1 else 0)
  }

  /** The match of length len at the index m may be used in place of the bytes from index i on. */
  ghost predicate Usable(s: Deflate, i: int, m: int, len: nat)
    reads s
  {
    0 <= i && m < i && i - m <= MaxDist(s.c) && Repeats(s.data, s.base + i, i - m, len)
  }

  /** The state between the steps; a match found at the last step is still waiting. */
  ghost predicate SlowSteady(s: Deflate)
    reads s, s.window, s.prev, s.head
  {
    && s.Steady() && 0 <= Done(s) && s.Tallied(Done(s)) && MIN_MATCH - 1 <= s.matchLength <= MAX_MATCH
    && (s.matchAvailable ==> 1 <= s.strstart)
    && (s.matchLength >= MIN_MATCH ==> s.matchAvailable && Usable(s, s.strstart - 1, s.matchStart, s.matchLength))
  }

  /** The match of the last step. */
  ghost predicate Waiting(s: Deflate)
    reads s
  {
    && 0 <= Done(s) && s.Tallied(Done(s)) && (s.matchAvailable ==> 1 <= s.strstart)
    && MIN_MATCH - 1 <= s.prevLength <= MAX_MATCH
    && (s.prevLength >= MIN_MATCH ==> s.matchAvailable && Usable(s, s.strstart - 1, s.prevMatch, s.prevLength))
  }

  /** After the search: the match of the last step, and one at the current string if it is better. */
  ghost predicate Compared(s: Deflate)
    reads s, s.window, s.prev, s.head
  {
    && s.Shape() && s.WindowHolds() && s.ChainsHold() && s.InsertPending() && s.top <= s.At() + 1
    && (s.lookahead >= MIN_MATCH ==> s.ReadyAt(s.strstart + 1))
    && MIN_MATCH - 1 <= s.matchLength <= MAX_MATCH && Waiting(s)
    && (s.matchLength > s.prevLength ==> Usable(s, s.strstart, s.matchStart, s.matchLength))
  }

  /** The current string has been put on its chain; hashHead is the link to the string before. */
  ghost predicate OnItsChain(s: Deflate, hashHead: nat)
    reads s, s.window, s.prev, s.head
  {
    && s.Shape() && s.WindowHolds() && s.ChainsHold() && s.InsertPending() && s.top <= s.At() + 1
    && (s.lookahead >= MIN_MATCH ==> s.ReadyAt(s.strstart + 1))
    && (hashHead != 0 ==> s.lookahead >= MIN_MATCH && s.top == s.At() + 1 &&
                          Leads(s.c.hash, hashHead, s.data, s.base, s.ins, s.At()))
  }

  method PutCurrent(s: Deflate) returns (hashHead: nat)
    requires s.Steady()
    modifies s`insH, s`ins, s`top, s.prev, s.head
    ensures OnItsChain(s, hashHead)
    ensures s.ins == old(s.ins) + if s.lookahead >= MIN_MATCH then {s.At()} else {}
    ensures s.lookahead >= MIN_MATCH ==>
          s.top == s.At() + 1 && Leads(s.c.hash, hashHead, s.data, s.base, s.ins, s.At())
  {
    hide Chains, Holds, ReadyIn, ProperConfig, Leads;
    hashHead := 0;
    if s.lookahead >= MIN_MATCH {
      hashHead := InsertString(s, s.strstart);
    }
  }

  /** The length found, or none if a short match is not worth it. */
  ghost function Worth(c: Config, found: nat, dist: int): nat {
    if found <= 5 && (c.filtered || (found == MIN_MATCH && dist > TOO_FAR)) then MIN_MATCH - 1 else found
  }

  /** len and matchStart are what the search at strstart comes to when a match of length prevLength is waiting. */
  ghost predicate Searched(c: Config, data: seq<uch>, base: nat, ins: set<nat>, strstart: nat, prevLength: nat,
        matchStart: int, len: nat)
  {
    if base + strstart + 2 < |data| && prevLength < c.maxLazy then
      exists found: nat ::
        && IsLongest(c, data, base, ins, strstart, prevLength, found)
        && (found > prevLength ==>
              NoneRepeats(c, data, base, ins, strstart, Depth(c, prevLength), base + matchStart, found))
        && len == Worth(c, found, strstart - matchStart)
    else len == MIN_MATCH - 1
  }

  /** A match longer than prev_length, unless it is not worth it. */
  method SearchBetter(s: Deflate, hashHead: nat)
    requires OnItsChain(s, hashHead) && s.strstart + MIN_LOOKAHEAD <= 2 * s.c.wsize
    requires s.lookahead >= MIN_MATCH ==>
          s.top == s.At() + 1 && Leads(s.c.hash, hashHead, s.data, s.base, s.ins, s.At())
    requires Waiting(s) && s.matchLength == MIN_MATCH - 1
    modifies s`matchStart, s`matchLength
    ensures Waiting(s) && OnItsChain(s, hashHead) && MIN_MATCH - 1 <= s.matchLength <= MAX_MATCH
    ensures s.matchLength > s.prevLength ==> Usable(s, s.strstart, s.matchStart, s.matchLength)
    ensures Searched(s.c, s.data, s.base, s.ins, s.strstart, s.prevLength, s.matchStart, s.matchLength)
  {
    hide Chains, Holds, ReadyIn, ProperHash, Repeats, Leads, Near, IsLongest, NoneRepeats, Expand, InRange;
    if hashHead != 0 && s.prevLength < s.c.maxLazy && s.strstart - hashHead <= MaxDist(s.c) {
      s.matchLength := LongestMatch(s, hashHead);
      ghost var found := s.matchLength;
      if s.matchLength <= 5 && (s.c.filtered || (s.matchLength == MIN_MATCH && s.strstart - s.matchStart > TOO_FAR)) {
        s.matchLength := MIN_MATCH - 1;
      }
      assert s.matchLength == Worth(s.c, found, s.strstart - s.matchStart);
    } else if s.lookahead >= MIN_MATCH && s.prevLength < s.c.maxLazy {
      NothingNear(s.c, s.data, s.base, s.ins, s.strstart, hashHead);
      LongestOfNone(s.c, s.data, s.base, s.ins, s.strstart, s.prevLength, MIN_MATCH - 1);
    }
  }

  /** The current string, with what has been found for it. */
  ghost predicate Current(s: Deflate)
    reads s, s.window, s.prev, s.head
  {
    && s.Shape() && s.WindowHolds() && s.ChainsHold() && s.InsertPending() && s.top <= s.At() + 1
    && (s.lookahead >= MIN_MATCH ==> s.ReadyAt(s.strstart + 1)) && MIN_MATCH - 1 <= s.matchLength <= MAX_MATCH
    && (s.matchLength >= MIN_MATCH ==> Usable(s, s.strstart, s.matchStart, s.matchLength))
  }

  lemma SearchedInserted(c: Config, data: seq<uch>, base: nat, ins: set<nat>, strstart: nat, prevLength: nat,
        matchStart: int, len: nat)
    requires Searched(c, data, base, ins + {base + strstart}, strstart, prevLength, matchStart, len)
    ensures Searched(c, data, base, ins, strstart, prevLength, matchStart, len)
  {
    hide Near, Repeats, NoneRepeats;
    if base + strstart + 2 < |data| && prevLength < c.maxLazy {
      var ins' := ins + {base + strstart};
      var found: nat :|
        && IsLongest(c, data, base, ins', strstart, prevLength, found)
        && (found > prevLength ==>
              NoneRepeats(c, data, base, ins', strstart, Depth(c, prevLength), base + matchStart, found))
        && len == Worth(c, found, strstart - matchStart);
      SameNear(c, data, base, ins, strstart, Depth(c, prevLength), base + matchStart, found);
      SameNear(c, data, base, ins, strstart, Depth(c, prevLength), -1, found + 1);
      assert IsLongest(c, data, base, ins, strstart, prevLength, found);
    }
  }

  lemma SameNear(c: Config, data: seq<uch>, base: nat, ins: set<nat>, strstart: nat, n: nat, low: int, len: nat)
    requires base + strstart + 2 < |data|
    ensures NoneRepeats(c, data, base, ins + {base + strstart}, strstart, n, low, len)
            <==> NoneRepeats(c, data, base, ins, strstart, n, low, len)
  {
    hide Near, Repeats;
    NearInserted(c, data, base, ins, strstart);
  }

  /** Puts the current string on its chain and looks for a match that is better than the last one. */
  method FindBetter(s: Deflate)
    requires SlowSteady(s) && s.strstart + MIN_LOOKAHEAD <= 2 * s.c.wsize
    modifies s`insH, s`ins, s`top, s`matchStart, s`matchLength, s`prevLength, s`prevMatch, s.prev, s.head
    ensures Compared(s) && s.prevLength == old(s.matchLength) && s.prevMatch == old(s.matchStart)
    ensures s.ins == old(s.ins) + if s.lookahead >= MIN_MATCH then {s.At()} else {}
    ensures Searched(s.c, s.data, s.base, old(s.ins), s.strstart, s.prevLength, s.matchStart, s.matchLength)
  {
    hide Chains, Holds, ReadyIn, ProperConfig, Repeats, Expand, InRange, Leads, Searched;
    var hashHead := PutCurrent(s);
    s.prevLength, s.prevMatch := s.matchLength, s.matchStart;
    s.matchLength := MIN_MATCH - 1;
    assert Waiting(s);
    hide Waiting;
    SearchBetter(s, hashHead);
    if s.lookahead >= MIN_MATCH {
      SearchedInserted(s.c, s.data, s.base, old(s.ins), s.strstart, s.prevLength, s.matchStart, s.matchLength);
    } else {
      assert s.ins == old(s.ins);
    }
  }

  /** The strings inside the last match go on their chains, except those too near the end; the counters
      are brought up to date afterwards. */
  method InsertUpTo(s: Deflate, n: nat)
    requires s.Shape() && s.WindowHolds() && s.ChainsHold() && s.InsertPending() && s.top <= s.At() + 1
    requires (s.lookahead >= MIN_MATCH ==> s.ReadyAt(s.strstart + 1)) && 2 <= n <= s.lookahead
    modifies s`insH, s`ins, s`top, s`strstart, s`lookahead, s.prev, s.head
    ensures s.Steady() && s.strstart == old(s.strstart) + n && s.lookahead == old(s.lookahead) - n
    ensures old(s.ins) <= s.ins && forall q :: old(s.At()) < q < s.At() && q + 2 < |s.data| ==> q in s.ins
  {
    hide Chains, Holds, ReadyIn, ProperConfig;
    var maxInsert := s.strstart + s.lookahead - MIN_MATCH;
    for str: nat := s.strstart + 1 to s.strstart + n
      invariant old(s.ins) <= s.ins && forall q :: s.At() < q < s.base + str && q + 2 < |s.data| ==> q in s.ins
      invariant s.strstart == old(s.strstart) && s.lookahead == old(s.lookahead) && s.Shape()
      invariant s.WindowHolds() && s.ChainsHold() && s.top <= s.base + str
      invariant s.lookahead >= MIN_MATCH && str <= maxInsert + 1 ==> s.ReadyAt(str)
    {
      if str <= maxInsert {
        var _ := InsertString(s, str);
      }
    }
    s.strstart, s.lookahead := s.strstart + n, s.lookahead - n;
  }

  /** Nothing is waiting. */
  method StartAgain(s: Deflate)
    requires s.Steady() && s.Tallied(s.At())
    modifies s`matchLength, s`matchAvailable, s`prevLength
    ensures SlowSteady(s) && s.matchLength == MIN_MATCH - 1 && !s.matchAvailable
  {
    hide Chains, Holds, ReadyIn, ProperConfig, Expand, InRange, Repeats;
    s.prevLength := 0;
    s.matchAvailable := false;
    s.matchLength := MIN_MATCH - 1;
  }

  /** The last match is used. */
  method EmitLast(s: Deflate) returns (bflush: bool)
    requires Compared(s) && s.prevLength >= MIN_MATCH && s.symNext < s.c.symEnd
    modifies s`insH, s`ins, s`top, s`matchLength, s`matchAvailable, s`prevLength, s`strstart, s`lookahead
    modifies s`tokens, s`symNext, s.prev, s.head
    ensures SlowSteady(s) && s.At() + s.lookahead == old(s.At() + s.lookahead) && s.lookahead < old(s.lookahead)
    ensures s.symNext == old(s.symNext) + 1 <= s.c.symEnd && bflush == (s.symNext == s.c.symEnd)
    ensures old(s.prevMatch) < old(s.strstart) &&
      s.tokens == old(s.tokens) + [Match(old(s.strstart) - 1 - old(s.prevMatch), old(s.prevLength))]
    ensures s.At() == old(s.At()) + old(s.prevLength) - 1 && s.matchLength == MIN_MATCH - 1 && !s.matchAvailable
    ensures old(s.ins) <= s.ins && forall q :: old(s.At()) < q < s.At() && q + 2 < |s.data| ==> q in s.ins
  {
    hide Chains, Holds, ReadyIn, ProperConfig, Expand, InRange, Repeats, SlowSteady;
    bflush := TallyDist(s, s.strstart - 1 - s.prevMatch, s.prevLength, s.At() - 1);
    InsertUpTo(s, s.prevLength - 1);
    StartAgain(s);
  }

  /** The byte before the current one is given up as a literal. */
  method EmitHeldBack(s: Deflate) returns (bflush: bool)
    requires s.WindowHolds() && 1 <= s.strstart && s.Tallied(s.At() - 1) && s.symNext < s.c.symEnd
    modifies s`tokens, s`symNext
    ensures s.Tallied(s.At()) && s.symNext == old(s.symNext) + 1 <= s.c.symEnd
    ensures bflush == (s.symNext == s.c.symEnd)
    ensures s.At() - 1 < |s.data| && s.tokens == old(s.tokens) + [Literal(s.data[s.At() - 1])]
  {
    hide Holds, Expand, InRange;
    HeldByte(s.window[..], s.data, s.base, s.strstart + s.lookahead, s.strstart - 1);
    bflush := TallyLit(s, s.window[s.strstart - 1], s.At() - 1);
  }

  /** On to the next string, with the current one waiting. */
  method Wait(s: Deflate)
    requires Current(s) && 0 < s.lookahead && s.Tallied(s.At())
    modifies s`matchAvailable, s`strstart, s`lookahead
    ensures SlowSteady(s) && s.matchAvailable && s.strstart == old(s.strstart) + 1
    ensures s.lookahead == old(s.lookahead) - 1
  {
    hide Chains, Holds, ReadyIn, ProperConfig, Expand, InRange, Repeats;
    s.matchAvailable := true;
    s.strstart, s.lookahead := s.strstart + 1, s.lookahead - 1;
  }

  /** What one step does when m and len are what the search has come to: it uses the match that was waiting if
      nothing better has been found, and otherwise goes on by one, after the byte that was held back. */
  twostate predicate Decided(s: Deflate, m: int, len: nat)
    reads s
  {
    if old(s.matchLength) >= MIN_MATCH && len <= old(s.matchLength) then
      && old(s.matchStart) < old(s.strstart) && s.matchLength == MIN_MATCH - 1 && !s.matchAvailable
      && s.tokens == old(s.tokens) + [Match(old(s.strstart) - 1 - old(s.matchStart), old(s.matchLength))]
      && s.At() == old(s.At()) + old(s.matchLength) - 1
      && forall q :: old(s.At()) < q < s.At() && q + 2 < |s.data| ==> q in s.ins
    else
      && s.At() == old(s.At()) + 1 && s.matchLength == len && s.matchStart == m && s.matchAvailable
      && if old(s.matchAvailable) then
           1 <= old(s.At()) <= |s.data| && s.tokens == old(s.tokens) + [Literal(s.data[old(s.At()) - 1])]
         else s.tokens == old(s.tokens)
  }

  /** Whether a step asks for room: after a literal, or when a match has filled the symbol buffer. */
  twostate predicate Asks(s: Deflate)
    reads s
  {
    && |old(s.tokens)| < |s.tokens|
    && (s.tokens[|old(s.tokens)|].Literal? || old(s.symNext) + 1 == s.c.symEnd)
  }

  lemma NothingWaits(s: Deflate)
    requires Compared(s) && !s.matchAvailable
    ensures Current(s) && s.Tallied(s.At())
  {
    hide Chains, Holds, ReadyIn, ProperConfig, Expand, InRange, Repeats;
  }

  /** One step: the last match, a literal, or only a string to wait for. stop says whether it ended with
      no room for output. */
  method SlowStep(s: Deflate) returns (stop: bool)
    requires SlowSteady(s) && 0 < s.lookahead && s.strstart + MIN_LOOKAHEAD <= 2 * s.c.wsize && s.symNext < s.c.symEnd
    modifies s`insH, s`ins, s`top, s`matchStart, s`matchLength, s`matchAvailable, s`prevLength, s`prevMatch
    modifies s`strstart, s`lookahead, s`tokens, s`symNext, s`noRoom, s.prev, s.head
    ensures SlowSteady(s) && s.symNext < s.c.symEnd && s.lookahead < old(s.lookahead)
    ensures |s.noRoom| <= |old(s.noRoom)| && (stop ==> |s.noRoom| < |old(s.noRoom)|)
    ensures stop <==> Asks(s) && NextFull(old(s.noRoom))
    ensures old(s.ins) <= s.ins && (old(s.lookahead) >= MIN_MATCH ==> old(s.At()) in s.ins)
    ensures exists m, len ::
          && Searched(s.c, s.data, s.base, old(s.ins), old(s.strstart), old(s.matchLength), m, len)
          && Decided(s, m, len)
  {
    hide SlowSteady, Compared, Current, Searched;
    FindBetter(s);
    ghost var m, len := s.matchStart, s.matchLength;
    stop := false;
    if s.prevLength >= MIN_MATCH && s.matchLength <= s.prevLength {
      var bflush := EmitLast(s);
      if bflush {
        stop := FlushSlow(s);
      }
    } else if s.matchAvailable {
      GiveUp(s);
      stop := AskRoom(s);
    } else {
      NothingWaits(s);
      Wait(s);
    }
    assert Decided(s, m, len);
  }

  /** FLUSH_BLOCK */
  method FlushSlow(s: Deflate) returns (full: bool)
    requires SlowSteady(s)
    modifies s`symNext, s`noRoom
    ensures SlowSteady(s) && s.symNext < s.c.symEnd && full == NextFull(old(s.noRoom))
    ensures |s.noRoom| <= |old(s.noRoom)| && (full ==> |s.noRoom| < |old(s.noRoom)|)
  {
    hide Chains, Holds, ReadyIn, Expand, InRange, Repeats;
    FlushBlockOnly(s);
    full := NoRoom(s);
  }

  /** The byte that was held back becomes a literal, and the current string waits instead. */
  method GiveUp(s: Deflate)
    requires Compared(s) && (s.prevLength < MIN_MATCH || s.matchLength > s.prevLength) && 0 < s.lookahead
    requires s.matchAvailable && s.symNext < s.c.symEnd
    modifies s`tokens, s`symNext, s`matchAvailable, s`strstart, s`lookahead
    ensures SlowSteady(s) && s.symNext < s.c.symEnd && s.lookahead < old(s.lookahead)
    ensures s.At() == old(s.At()) + 1 && s.matchAvailable
    ensures 1 <= old(s.At()) <= |s.data| && s.tokens == old(s.tokens) + [Literal(s.data[old(s.At()) - 1])]
  {
    hide Chains, Holds, ReadyIn, ProperHash, Expand, InRange, Repeats, SlowSteady;
    var bflush := EmitHeldBack(s);
    if bflush {
      FlushBlockOnly(s);
    }
    Wait(s);
  }

  method AskRoom(s: Deflate) returns (full: bool)
    requires SlowSteady(s)
    modifies s`noRoom
    ensures SlowSteady(s) && full == NextFull(old(s.noRoom))
    ensures |s.noRoom| <= |old(s.noRoom)| && (full ==> |s.noRoom| < |old(s.noRoom)|)
  {
    hide Chains, Holds, ReadyIn, Expand, InRange, Repeats;
    full := NoRoom(s);
  }

  /** FillWindow between the steps. */
  method Refill(s: Deflate)
    requires SlowSteady(s) && s.lookahead < MIN_LOOKAHEAD
    modifies s`strstart, s`lookahead, s`insert, s`insH, s`matchStart, s`nextIn
    modifies s`data, s`base, s`ins, s`top, s.window, s.head, s.prev
    ensures SlowSteady(s) && s.data + s.nextIn == old(s.data + s.nextIn)
    ensures s.strstart + MIN_LOOKAHEAD <= 2 * s.c.wsize && (s.lookahead < MIN_LOOKAHEAD ==> s.nextIn == [])
    ensures s.lookahead + |s.nextIn| == old(s.lookahead + |s.nextIn|)
  {
    hide Chains, Holds, ReadyIn, ProperHash, Expand, InRange, Repeats;
    ghost var data, nextIn := s.data, s.nextIn;
    ghost var dist := s.strstart - 1 - s.matchStart;
    FillWindow(s, Done(s));
    assert |s.data| + |s.nextIn| == |data| + |nextIn|;
    assert s.data == data + s.data[|data|..];
    if s.matchLength >= MIN_MATCH {
      RepeatsInMore(data, s.data[|data|..], s.At() - 1, dist, s.matchLength);
    }
  }

  lemma RoomAhead(s: Deflate)
    requires SlowSteady(s) && s.lookahead >= MIN_LOOKAHEAD
    ensures s.strstart + MIN_LOOKAHEAD <= 2 * s.c.wsize
  {
  }

  method EndSlow(s: Deflate, flush: Flush) returns (r: BlockState)
    requires SlowSteady(s) && s.symNext < s.c.symEnd && flush != NoFlush && s.lookahead == 0
    modifies s`tokens, s`matchAvailable, s`insert, s`symNext, s`noRoom
    ensures SlowSteady(s) && s.symNext == 0 && s.lookahead == 0 && !s.matchAvailable && Expand(s.tokens) == Some(s.data)
    ensures r != NeedMore ==> (r == BlockDone <==> flush != Finish)
    ensures r == NeedMore ==> |s.noRoom| < |old(s.noRoom)|
    ensures s.insert == ToInsert(s.strstart)
  {
    hide Chains, Holds, ReadyIn, ProperConfig, Expand, InRange;
    if s.matchAvailable {
      var _ := EmitHeldBack(s);
      s.matchAvailable := false;
    }
    r := EndBlock(s, flush);
    assert s.data[..|s.data|] == s.data;
  }

  /** deflate_slow. Between calls the tokens stand for all data before the current string, less the byte
      that may be held back; when it returns anything but NeedMore, for all input. */
  method DeflateSlow(s: Deflate, flush: Flush) returns (r: BlockState)
    requires SlowSteady(s) && s.symNext < s.c.symEnd
    modifies s`strstart, s`lookahead, s`insert, s`insH, s`matchStart, s`matchLength, s`matchAvailable, s`nextIn,
      s`noRoom
    modifies s`prevLength, s`prevMatch, s`data, s`base, s`ins, s`top, s`tokens, s`symNext, s.window, s.head, s.prev
    ensures SlowSteady(s) && s.symNext < s.c.symEnd && s.data + s.nextIn == old(s.data + s.nextIn)
    ensures r != NeedMore ==>
          s.nextIn == [] && s.lookahead == 0 && !s.matchAvailable && Expand(s.tokens) == Some(s.data)
    ensures r != NeedMore ==> (r == BlockDone <==> flush != Finish) && s.insert == ToInsert(s.strstart)
    ensures r == NeedMore ==>
          (flush == NoFlush && s.nextIn == [] && s.lookahead < MIN_LOOKAHEAD) || |s.noRoom| < |old(s.noRoom)|
  {
    hide SlowSteady, ProperConfig, Expand;
    while true
      invariant SlowSteady(s) && s.symNext < s.c.symEnd && s.data + s.nextIn == old(s.data + s.nextIn)
      invariant |s.noRoom| <= |old(s.noRoom)|
      decreases s.lookahead + |s.nextIn|
    {
      if s.lookahead < MIN_LOOKAHEAD {
        Refill(s);
        if s.lookahead < MIN_LOOKAHEAD && flush == NoFlush {
          return NeedMore;
        }
        if s.lookahead == 0 {
          break;
        }
      } else {
        RoomAhead(s);
      }
      var stop := SlowStep(s);
      if stop {
        return NeedMore;
      }
    }
    r := EndSlow(s, flush);
  }
}
