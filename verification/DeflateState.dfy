/** deflate.c and deflate.h: the state of the LZ77 engine, its window and its dictionary. */
module DeflateState {
  import opened Bytes
  import opened HashChains
  import opened HashKeys
  import opened Lz77

  const MIN_LOOKAHEAD := MAX_MATCH + MIN_MATCH + 1

  /** What configuration_table and deflateInit2 choose. */
  datatype Config = Config(wsize: nat, hash: Hash, maxLazy: nat, goodMatch: nat, niceMatch: nat, maxChain: nat,
                           filtered: bool, symEnd: nat)

  function MaxDist(c: Config): int {
    c.wsize - MIN_LOOKAHEAD
  }

  ghost predicate ProperConfig(c: Config) {
    512 <= c.wsize <= 0x8000 && ProperHash(c.hash) && MIN_MATCH <= c.maxLazy <= MAX_MATCH && 4 <= c.maxChain &&
      1 <= c.symEnd
  }

  ghost predicate ReadyIn(k: Hash, h: bv32, window: seq<uch>, i: nat) {
    i + 1 < |window| && Ready(k, h, window[i], window[i + 1])
  }

  /** The first n bytes of the window are the data from base on. */
  ghost predicate Holds(window: seq<uch>, data: seq<uch>, base: nat, n: nat) {
    n <= |window| && base + n == |data| && forall i :: 0 <= i < n ==> window[i] == data[base + i]
  }

  lemma HeldByte(window: seq<uch>, data: seq<uch>, base: nat, n: nat, i: nat)
    requires Holds(window, data, base, n) && i < n
    ensures i < |window| && base + i < |data| && window[i] == data[base + i]
  {
  }

  /** deflate_state, with the part of z_stream that holds the input. */
  class Deflate {
    const c: Config
    const window: array<uch>
    const prev: array<nat>
    const head: array<nat>
    var insH: bv32
    var strstart: nat
    var lookahead: nat
    var insert: nat
    var matchStart: int
    var matchLength: nat
    var matchAvailable: bool
    var prevLength: nat
    var prevMatch: int
    var tokens: seq<Token>
    var symNext: nat
    var nextIn: seq<uch>
    /** Whether avail_out is 0 the next times that this is asked. */
    var noRoom: seq<bool>
    /** All input that has been read, the place of the window in it, the strings on hash chains, and the
        place behind the last of them. */
    ghost var data: seq<uch>
    ghost var base: nat
    ghost var ins: set<nat>
    ghost var top: nat

    /** The place of the current string in the data. */
    ghost function At(): nat
      reads this
    {
      base + strstart
    }

    ghost predicate Shape()
      reads this
    {
      && ProperConfig(c) && window.Length == 2 * c.wsize && prev.Length == c.wsize && head.Length == Size(c.hash)
      && prev != head && window as object != prev && window as object != head && strstart + lookahead <= 2 * c.wsize &&
         At() + lookahead == |data|
    }

    /** The window holds the data read, from base on. */
    ghost predicate WindowHolds()
      reads this, window
    {
      Holds(window[..], data, base, strstart + lookahead)
    }

    ghost predicate ChainsHold()
      reads this, prev, head
    {
      (top == 0 || top + 2 <= |data|) && Chains(c.hash, head[..], prev[..], data, base, ins, top)
    }

    /** ins_h is ready for the string at index i. */
    ghost predicate ReadyAt(i: nat)
      reads this, window
    {
      ReadyIn(c.hash, insH, window[..], i)
    }

    /** The strings before the current one that still have to be inserted. */
    ghost predicate InsertPending()
      reads this
    {
      insert == 0 || (insert + lookahead < MIN_MATCH && insert <= strstart)
    }

    /** What holds between the steps of the engine. */
    ghost predicate Steady()
      reads this, window, prev, head
    {
      && Shape() && WindowHolds() && ChainsHold() && top <= At() && InsertPending()
      && (lookahead >= MIN_MATCH ==> ReadyAt(strstart))
    }

    /** The tokens stand for the data up to p. */
    ghost predicate Tallied(p: nat)
      reads this
    {
      p <= |data| && Expand(tokens) == Some(data[..p]) && InRange(tokens, MaxDist(c))
    }

    /** lm_init */
    constructor (c: Config)
      requires ProperConfig(c)
      ensures this.c == c && fresh(window) && fresh(prev) && fresh(head)
      ensures Steady() && Tallied(0) && symNext == 0 && data == [] && nextIn == [] && base == 0 && strstart == 0
      ensures tokens == []
      ensures matchLength == prevLength == MIN_MATCH - 1 && !matchAvailable
    {
      this.c := c;
      window := new uch[2 * c.wsize];
      prev := new nat[c.wsize];
      head := new nat[Size(c.hash)](_ => 0);
      insH, strstart, lookahead, insert := 0, 0, 0, 0;
      matchStart, matchLength, matchAvailable, prevLength, prevMatch := 0, MIN_MATCH - 1, false, MIN_MATCH - 1, 0;
      tokens, symNext, nextIn, noRoom := [], 0, [], [];
      data, base, ins, top := [], 0, {}, 0;
      new;
      assert head[..] == seq(Size(c.hash), _ => 0);
    }
  }

  /** What mixing in the third byte of the string at str gives. */
  lemma NextKey(k: Hash, h: bv32, window: seq<uch>, data: seq<uch>, base: nat, n: nat, str: nat)
    requires ProperHash(k) && ReadyIn(k, h, window, str) && Holds(window, data, base, n) && str + 2 < n
    ensures ReadyIn(k, Mix(k, h, window[str + 2] as bv32), window, str + 1)
    ensures Slot(Mix(k, h, window[str + 2] as bv32)) == ChainAt(k, data, base + str) < Size(k)
  {
    hide Mix, Slot, Chain, Ready;
    MixGivesChain(k, h, window[str], window[str + 1], window[str + 2]);
  }

  /** What INSERT_STRING makes of the hash and the chains. */
  lemma Inserted(k: Hash, h: bv32, h': bv32, window: seq<uch>, data: seq<uch>, base: nat, n: nat, str: nat, i: nat,
        head: seq<nat>, prev: seq<nat>, ins: set<nat>, top: nat)
    requires ProperHash(k) && ReadyIn(k, h, window, str) && Holds(window, data, base, n) && str + 2 < n
    requires Chains(k, head, prev, data, base, ins, top) && top <= base + str
    requires h' == Mix(k, h, window[str + 2] as bv32) && i == Slot(h')
    ensures ReadyIn(k, h', window, str + 1) && i < |head| == Size(k) && 0 < |prev|
    ensures Chains(k, head[i := str], prev[str % |prev| := head[i]], data, base, ins + {base + str}, base + str + 1)
    ensures Leads(k, head[i], data, base, ins + {base + str}, base + str)
  {
    hide Mix, Slot, ReadyIn, ProperHash, Leads, Chain;
    NextKey(k, h, window, data, base, n, str);
    ChainsInserted(k, head, prev, data, base, ins, top, str, i);
    LeadsInserted(k, head[i], data, base, ins, base + str, base + str);
  }

  method PutOnChain(head: array<nat>, prev: array<nat>, str: nat, i: nat) returns (matchHead: nat)
    requires head != prev && i < head.Length && 0 < prev.Length
    modifies head, prev
    ensures matchHead == old(head[i]) && head[..] == old(head[..])[i := str]
    ensures prev[..] == old(prev[..])[str % prev.Length := matchHead]
  {
    matchHead := head[i];
    prev[str % prev.Length] := matchHead;
    head[i] := str;
  }

  /** INSERT_STRING at the index str; match_head is the link to the string before. */
  method InsertString(s: Deflate, str: nat) returns (matchHead: nat)
    requires s.Shape() && s.WindowHolds() && s.ChainsHold() && s.ReadyAt(str)
    requires s.top <= s.base + str && str + 2 < s.strstart + s.lookahead
    modifies s`insH, s`ins, s`top, s.prev, s.head
    ensures s.Shape() && s.WindowHolds() && s.ChainsHold() && s.ReadyAt(str + 1) && s.top == s.base + str + 1
    ensures s.ins == old(s.ins) + {s.base + str} && Leads(s.c.hash, matchHead, s.data, s.base, s.ins, s.base + str)
  {
    hide Mix, Chains, Slot, ReadyIn, Holds, ProperHash, Leads;
    ghost var h := s.insH;
    s.insH := Mix(s.c.hash, s.insH, s.window[str + 2] as bv32);
    var i := Slot(s.insH);
    Inserted(s.c.hash, h, s.insH, s.window[..], s.data, s.base, s.strstart +
             s.lookahead, str, i, s.head[..], s.prev[..],
             s.ins, s.top);
    matchHead := PutOnChain(s.head, s.prev, str, i);
    s.ins, s.top := s.ins + {s.base + str}, s.base + str + 1;
  }

  // The tally macros and the output side

  lemma InRangeMore(tokens: seq<Token>, token: Token, maxDist: int)
    requires InRange(tokens, maxDist)
    requires token.Match? ==> MIN_MATCH <= token.len <= MAX_MATCH && 1 <= token.dist <= maxDist
    ensures InRange(tokens + [token], maxDist)
  {
  }

  method TallyLit(s: Deflate, c: uch, ghost p: nat) returns (bflush: bool)
    requires s.Tallied(p) && p < |s.data| && c == s.data[p] && s.symNext < s.c.symEnd
    modifies s`tokens, s`symNext
    ensures s.tokens == old(s.tokens) + [Literal(c)] && s.symNext == old(s.symNext) + 1
    ensures s.Tallied(p + 1) && s.symNext <= s.c.symEnd && bflush == (s.symNext == s.c.symEnd)
  {
    hide Expand, InRange;
    ExpandLiteral(s.tokens, s.data, p);
    InRangeMore(s.tokens, Literal(c), MaxDist(s.c));
    s.tokens := s.tokens + [Literal(c)];
    s.symNext := s.symNext + 1;
    bflush := s.symNext == s.c.symEnd;
  }

  method TallyDist(s: Deflate, dist: nat, len: nat, ghost p: nat) returns (bflush: bool)
    requires s.Tallied(p) && Repeats(s.data, p, dist, len) && s.symNext < s.c.symEnd
    requires MIN_MATCH <= len <= MAX_MATCH && dist <= MaxDist(s.c)
    modifies s`tokens, s`symNext
    ensures s.tokens == old(s.tokens) + [Match(dist, len)] && s.symNext == old(s.symNext) + 1
    ensures s.Tallied(p + len) && s.symNext <= s.c.symEnd && bflush == (s.symNext == s.c.symEnd)
  {
    hide Expand, InRange;
    ExpandMatch(s.tokens, s.data, p, dist, len);
    InRangeMore(s.tokens, Match(dist, len), MaxDist(s.c));
    s.tokens := s.tokens + [Match(dist, len)];
    s.symNext := s.symNext + 1;
    bflush := s.symNext == s.c.symEnd;
  }

  /** Whether avail_out is 0 when it is asked next. */
  ghost predicate NextFull(noRoom: seq<bool>) {
    |noRoom| > 0 && noRoom[0]
  }

  /** strm->avail_out == 0 */
  method NoRoom(s: Deflate) returns (full: bool)
    modifies s`noRoom
    ensures full == NextFull(old(s.noRoom))
    ensures |s.noRoom| <= |old(s.noRoom)| && (full ==> |s.noRoom| < |old(s.noRoom)|)
  {
    full := |s.noRoom| > 0 && s.noRoom[0];
    if |s.noRoom| > 0 {
      s.noRoom := s.noRoom[1..];
    }
  }

  /** FLUSH_BLOCK_ONLY, as far as the symbol buffer is concerned. */
  method FlushBlockOnly(s: Deflate)
    modifies s`symNext
    ensures s.symNext == 0
  {
    s.symNext := 0;
  }

  datatype Flush = NoFlush | SyncFlush | Finish

  datatype BlockState = NeedMore | BlockDone | FinishStarted | FinishDone

  /** How many strings at the end cannot be inserted yet. */
  ghost function ToInsert(strstart: nat): nat {
    if strstart < 2 then strstart else 2
  }

  /** The end of deflate_fast and deflate_slow, when the input has been used up. */
  method EndBlock(s: Deflate, flush: Flush) returns (r: BlockState)
    requires flush != NoFlush && s.Steady() && s.lookahead == 0 && s.Tallied(s.At()) && s.symNext <= s.c.symEnd
    modifies s`insert, s`symNext, s`noRoom
    ensures s.Steady() && s.Tallied(s.At()) && s.symNext == 0 && s.insert == ToInsert(s.strstart)
    ensures flush == Finish ==> r == FinishDone || r == FinishStarted
    ensures flush == SyncFlush ==> r == BlockDone || (r == NeedMore && |s.noRoom| < |old(s.noRoom)|)
  {
    hide Expand, InRange, Chains, Holds, ReadyIn, ProperConfig;
    s.insert := if s.strstart < MIN_MATCH - 1 then s.strstart else MIN_MATCH - 1;
    if flush == Finish {
      FlushBlockOnly(s);
      var full := NoRoom(s);
      return if full then FinishStarted else FinishDone;
    }
    if s.symNext != 0 {
      FlushBlockOnly(s);
      var full := NoRoom(s);
      if full {
        return NeedMore;
      }
    }
    r := BlockDone;
  }
}
