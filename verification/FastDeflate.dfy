/** deflate.c: deflate_fast. */
module FastDeflate {
  import opened Bytes
  import opened DeflateState
  import opened HashChains
  import opened HashKeys
  import opened Lz77
  import opened MatchSearch
  import opened WindowFill

  /** The state between the steps: the tokens stand for all data before the current string. */
  ghost predicate FastSteady(s: Deflate)
    reads s, s.window, s.prev, s.head
  {
    s.Steady() && s.Tallied(s.At()) && s.matchLength < MIN_MATCH && s.prevLength == MIN_MATCH - 1
  }

  /** The match found may be used in place of the bytes from the current one on. */
  ghost predicate Found(s: Deflate)
    reads s
  {
    && s.matchStart < s.strstart && s.strstart - s.matchStart <= MaxDist(s.c)
    && Repeats(s.data, s.At(), s.strstart - s.matchStart, s.matchLength)
  }

  /** t is the token for the string at strstart: a match as long as any among the strings that are looked at
      and closer than the others of its length, or a literal if there is none. */
  ghost predicate Greedy(c: Config, data: seq<uch>, base: nat, ins: set<nat>, strstart: nat, t: Token)
    requires base + strstart + 2 < |data|
  {
    match t
    case Literal(_) => IsLongest(c, data, base, ins, strstart, MIN_MATCH - 1, MIN_MATCH - 1)
    case Match(dist, len) =>
      && IsLongest(c, data, base, ins, strstart, MIN_MATCH - 1, len)
      && NoneRepeats(c, data, base, ins, strstart, Depth(c, MIN_MATCH - 1), base + strstart - dist, len)
  }

  /** The token that the result of the search leads to. */
  ghost function Choice(s: Deflate): Token
    reads s
  {
    if s.matchLength >= MIN_MATCH && s.matchStart <= s.strstart then Match(s.strstart - s.matchStart, s.matchLength)
    else Literal(0)
  }

  /** Puts the current string on its chain and looks for a match. */
  method FindMatch(s: Deflate)
    requires FastSteady(s) && 0 < s.lookahead && s.strstart + MIN_LOOKAHEAD <= 2 * s.c.wsize
    modifies s`insH, s`ins, s`top, s`matchStart, s`matchLength, s.prev, s.head
    ensures Searched(s) && (s.matchLength >= MIN_MATCH ==> s.matchStart <= s.strstart)
    ensures s.ins == old(s.ins) + if s.lookahead >= MIN_MATCH then {s.At()} else {}
    ensures s.lookahead >= MIN_MATCH ==> s.At() + 2 < |s.data|
    ensures s.lookahead >= MIN_MATCH ==> Greedy(s.c, s.data, s.base, old(s.ins), s.strstart, Choice(s))
  {
    hide Chains, Holds, ReadyIn, ProperHash, Repeats, Expand, InRange, Leads, Near;
    if s.lookahead < MIN_MATCH { return; }
    var hashHead := InsertString(s, s.strstart);
    NearInserted(s.c, s.data, s.base, old(s.ins), s.strstart);
    if hashHead != 0 && s.strstart - hashHead <= MaxDist(s.c) {
      s.matchLength := LongestMatch(s, hashHead);
    } else {
      NothingNear(s.c, s.data, s.base, s.ins, s.strstart, hashHead);
    }
  }

  /** The strings inside the match go on their chains; the counters are brought up to date afterwards. */
  method InsertMatched(s: Deflate, len: nat)
    requires s.Shape() && s.WindowHolds() && s.ChainsHold() && s.InsertPending() && s.top <= s.At() + 1
    requires 1 <= len && len + MIN_MATCH <= s.lookahead && s.ReadyAt(s.strstart + 1)
    modifies s`insH, s`ins, s`top, s`strstart, s`lookahead, s.prev, s.head
    ensures s.Steady() && s.strstart == old(s.strstart) + len && s.lookahead == old(s.lookahead) - len
    ensures old(s.ins) <= s.ins && forall q :: old(s.At()) < q < s.At() ==> q in s.ins
  {
    hide Chains, Holds, ReadyIn, ProperConfig;
    for str: nat := s.strstart + 1 to s.strstart + len
      invariant old(s.ins) <= s.ins && forall q :: s.At() < q < s.base + str ==> q in s.ins
      invariant s.strstart == old(s.strstart) && s.lookahead == old(s.lookahead) && s.Shape() && s.WindowHolds()
      invariant s.ChainsHold()
      invariant s.top <= s.base + str && s.ReadyAt(str)
    {
      var _ := InsertString(s, str);
    }
    s.strstart, s.lookahead := s.strstart + len, s.lookahead - len;
  }

  /** A match too long for its strings to be inserted, or too near the end. */
  method SkipMatched(s: Deflate, len: nat)
    requires s.Shape() && s.WindowHolds() && s.ChainsHold() && s.InsertPending() && s.top <= s.At() + 1
    requires 1 <= len <= s.lookahead && s.strstart + len + 1 < 2 * s.c.wsize
    modifies s`insH, s`strstart, s`lookahead
    ensures s.Steady() && s.strstart == old(s.strstart) + len && s.lookahead == old(s.lookahead) - len
  {
    hide Chains, Holds, ReadyIn, ProperConfig;
    s.strstart, s.lookahead := s.strstart + len, s.lookahead - len;
    s.insH := Mix(s.c.hash, s.window[s.strstart] as bv32, s.window[s.strstart + 1] as bv32);
    Starts(s.c.hash, s.window[..], s.strstart);
  }

  /** What FindMatch leaves behind. */
  ghost predicate Searched(s: Deflate)
    reads s, s.window, s.prev, s.head
  {
    && s.Shape() && s.WindowHolds() && s.ChainsHold() && s.InsertPending() && s.top <= s.At() + 1
    && (s.lookahead >= MIN_MATCH ==> s.ReadyAt(s.strstart + 1))
    && s.Tallied(s.At()) && s.prevLength == MIN_MATCH - 1
    && (s.matchLength >= MIN_MATCH ==> s.matchLength <= s.lookahead && s.matchLength <= MAX_MATCH && Found(s))
  }

  method EmitMatch(s: Deflate) returns (bflush: bool)
    requires Searched(s) && s.matchLength >= MIN_MATCH && s.strstart + MIN_LOOKAHEAD <= 2 * s.c.wsize
    requires s.symNext < s.c.symEnd
    modifies s`insH, s`ins, s`top, s`matchLength, s`strstart, s`lookahead, s`tokens, s`symNext, s.prev, s.head
    ensures FastSteady(s) && s.At() + s.lookahead == old(s.At() + s.lookahead) && s.lookahead < old(s.lookahead)
    ensures s.symNext == old(s.symNext) + 1 <= s.c.symEnd && bflush == (s.symNext == s.c.symEnd)
    ensures s.tokens == old(s.tokens) + [old(Choice(s))] && s.At() == old(s.At() + s.matchLength)
    ensures old(s.ins) <= s.ins
    ensures old(s.matchLength) <= s.c.maxLazy && s.lookahead >= MIN_MATCH ==>
          forall q :: old(s.At()) < q < s.At() ==> q in s.ins
  {
    hide Chains, Holds, ReadyIn, ProperConfig, Repeats, Expand, InRange;
    var len := s.matchLength;
    bflush := TallyDist(s, s.strstart - s.matchStart, len, s.At());
    s.matchLength := 0;
    if len <= s.c.maxLazy && s.lookahead - len >= MIN_MATCH {
      InsertMatched(s, len);
    } else {
      SkipMatched(s, len);
    }
  }

  method EmitLiteral(s: Deflate) returns (bflush: bool)
    requires Searched(s) && s.matchLength < MIN_MATCH && 0 < s.lookahead && s.symNext < s.c.symEnd
    modifies s`strstart, s`lookahead, s`tokens, s`symNext
    ensures FastSteady(s) && s.At() + s.lookahead == old(s.At() + s.lookahead) && s.lookahead < old(s.lookahead)
    ensures s.symNext == old(s.symNext) + 1 <= s.c.symEnd && bflush == (s.symNext == s.c.symEnd)
    ensures old(s.At()) < |s.data| && s.tokens == old(s.tokens) + [Literal(s.data[old(s.At())])]
    ensures s.At() == old(s.At()) + 1
  {
    hide Chains, Holds, ReadyIn, ProperConfig, Expand, InRange;
    HeldByte(s.window[..], s.data, s.base, s.strstart + s.lookahead, s.strstart);
    bflush := TallyLit(s, s.window[s.strstart], s.At());
    s.lookahead, s.strstart := s.lookahead - 1, s.strstart + 1;
  }

  /** The length of what a token stands for. */
  ghost function Span(t: Token): nat {
    if t.Match? then t.len else 1
  }

  /** One literal or match, which is the greedy choice. The current string goes on its chain, and so do those
      inside a match that is not too long and has enough data behind it. */
  method FastStep(s: Deflate) returns (bflush: bool)
    requires FastSteady(s) && 0 < s.lookahead && s.strstart + MIN_LOOKAHEAD <= 2 * s.c.wsize && s.symNext < s.c.symEnd
    modifies s`insH, s`ins, s`top, s`matchStart, s`matchLength, s`strstart, s`lookahead, s`tokens, s`symNext
    modifies s.prev, s.head
    ensures FastSteady(s) && s.At() + s.lookahead == old(s.At() + s.lookahead) && s.lookahead < old(s.lookahead)
    ensures s.symNext == old(s.symNext) + 1 <= s.c.symEnd && bflush == (s.symNext == s.c.symEnd)
    ensures old(s.lookahead) >= MIN_MATCH ==> old(s.At()) + 2 < |s.data| && old(s.At()) in s.ins
    ensures |s.tokens| > 0 && s.tokens == old(s.tokens) + [Last(s)] && s.At() == old(s.At()) + Span(Last(s))
    ensures old(s.lookahead) >= MIN_MATCH ==> Greedy(s.c, s.data, s.base, old(s.ins), old(s.strstart), Last(s))
    ensures old(s.ins) <= s.ins
    ensures Last(s).Match? && Last(s).len <= s.c.maxLazy && s.lookahead >= MIN_MATCH ==>
          forall q :: old(s.At()) < q < s.At() ==> q in s.ins
  {
    hide FastSteady, Searched, IsLongest, NoneRepeats;
    FindMatch(s);
    if s.matchLength >= MIN_MATCH {
      bflush := EmitMatch(s);
    } else {
      bflush := EmitLiteral(s);
    }
  }

  ghost function Last(s: Deflate): Token
    reads s
    requires |s.tokens| > 0
  {
    s.tokens[|s.tokens| - 1]
  }

  /** FillWindow between the steps. */
  method Refill(s: Deflate)
    requires FastSteady(s) && s.lookahead < MIN_LOOKAHEAD
    modifies s`strstart, s`lookahead, s`insert, s`insH, s`matchStart, s`nextIn
    modifies s`data, s`base, s`ins, s`top, s.window, s.head, s.prev
    ensures FastSteady(s) && s.data + s.nextIn == old(s.data + s.nextIn)
    ensures s.strstart + MIN_LOOKAHEAD <= 2 * s.c.wsize && (s.lookahead < MIN_LOOKAHEAD ==> s.nextIn == [])
    ensures s.lookahead + |s.nextIn| == old(s.lookahead + |s.nextIn|)
  {
    hide Chains, Holds, ReadyIn, ProperConfig, Expand, InRange;
    ghost var data, nextIn := s.data, s.nextIn;
    FillWindow(s, s.At());
    assert |s.data| + |s.nextIn| == |data| + |nextIn|;
  }

  lemma RoomAhead(s: Deflate)
    requires FastSteady(s) && s.lookahead >= MIN_LOOKAHEAD
    ensures s.strstart + MIN_LOOKAHEAD <= 2 * s.c.wsize
  {
  }

  method EndFast(s: Deflate, flush: Flush) returns (r: BlockState)
    requires FastSteady(s) && s.symNext < s.c.symEnd && flush != NoFlush && s.lookahead == 0
    modifies s`insert, s`symNext, s`noRoom
    ensures FastSteady(s) && s.symNext == 0 && s.lookahead == 0 && Expand(s.tokens) == Some(s.data)
    ensures r != NeedMore ==> (r == BlockDone <==> flush != Finish)
    ensures r == NeedMore ==> |s.noRoom| < |old(s.noRoom)|
    ensures s.insert == ToInsert(s.strstart)
  {
    hide Chains, Holds, ReadyIn, ProperConfig, Expand, InRange;
    r := EndBlock(s, flush);
    assert s.data[..|s.data|] == s.data;
  }

  /** FLUSH_BLOCK */
  method FlushFast(s: Deflate) returns (full: bool)
    requires FastSteady(s)
    modifies s`symNext, s`noRoom
    ensures FastSteady(s) && s.symNext < s.c.symEnd && full == NextFull(old(s.noRoom))
    ensures |s.noRoom| <= |old(s.noRoom)| && (full ==> |s.noRoom| < |old(s.noRoom)|)
  {
    hide Chains, Holds, ReadyIn, Expand, InRange;
    FlushBlockOnly(s);
    full := NoRoom(s);
  }

  /** deflate_fast. When it returns anything but NeedMore, all input has been read and the tokens expand
      to exactly the data. */
  method DeflateFast(s: Deflate, flush: Flush) returns (r: BlockState)
    requires FastSteady(s) && s.symNext < s.c.symEnd
    modifies s`strstart, s`lookahead, s`insert, s`insH, s`matchStart, s`matchLength, s`nextIn, s`noRoom
    modifies s`data, s`base, s`ins, s`top, s`tokens, s`symNext, s.window, s.head, s.prev
    ensures FastSteady(s) && s.symNext < s.c.symEnd && s.data + s.nextIn == old(s.data + s.nextIn)
    ensures r != NeedMore ==> s.nextIn == [] && s.lookahead == 0 && Expand(s.tokens) == Some(s.data)
    ensures r != NeedMore ==> s.insert == ToInsert(s.strstart)
    ensures r != NeedMore ==> (r == BlockDone <==> flush != Finish)
    ensures r == NeedMore ==>
          (flush == NoFlush && s.nextIn == [] && s.lookahead < MIN_LOOKAHEAD) || |s.noRoom| < |old(s.noRoom)|
  {
    hide FastSteady, ProperConfig, Expand;
    while true
      invariant FastSteady(s) && s.symNext < s.c.symEnd && s.data + s.nextIn == old(s.data + s.nextIn)
      invariant |s.noRoom| <= |old(s.noRoom)|
      decreases s.lookahead + |s.nextIn|
    {
      if s.lookahead < MIN_LOOKAHEAD {
        Refill(s);
        if s.lookahead < MIN_LOOKAHEAD && flush == NoFlush {
          return NeedMore;
        }
        if s.lookahead == 0 {
          break;
        }
      } else {
        RoomAhead(s);
      }
      var bflush := FastStep(s);
      if bflush {
        var full := FlushFast(s);
        if full {
          return NeedMore;
        }
      }
    }
    r := EndFast(s, flush);
  }
}
