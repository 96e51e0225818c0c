/** deflate.c: longest_match. */
module MatchSearch {
  import opened DeflateState
  import opened HashChains
  import opened HashKeys
  import opened Lz77

  /** The n bytes of the window at scan and at match are equal. */
  ghost predicate Equal(window: seq<uch>, scan: int, match_: int, n: nat) {
    0 <= match_ && 0 <= scan && match_ + n <= |window| && scan + n <= |window| &&
    forall k :: scan <= k < scan + n ==> window[k] == window[match_ + (k - scan)]
  }

  /** The comparison of up to MAX_MATCH bytes, the first three being equal; the end is only looked for
      after every eighth byte. */
  method Compare(window: array<uch>, scan: nat, match_: nat) returns (len: nat)
    requires match_ < scan && scan + MAX_MATCH < window.Length && Equal(window[..], scan, match_, MIN_MATCH)
    ensures MIN_MATCH <= len <= MAX_MATCH && Equal(window[..], scan, match_, len)
    ensures len < MAX_MATCH ==> window[scan + len] != window[match_ + len]
  {
    len := MIN_MATCH - 1;
    ghost var groups := 0;
    while true
      invariant len == 2 + 8 * groups && len < MAX_MATCH && Equal(window[..], scan, match_, len + 1)
      decreases MAX_MATCH - len
    {
      for j := 0 to 8
        invariant len == 2 + 8 * groups + j && len <= MAX_MATCH && Equal(window[..], scan, match_, len + 1)
      {
        len := len + 1;
        if window[scan + len] != window[match_ + len] {
          return;
        }
      }
      if len >= MAX_MATCH {
        return;
      }
      groups := groups + 1;
    }
  }

  /** cur is the window index of an earlier string on the chain of the current one, not too far back. */
  ghost predicate Candidate(c: Config, data: seq<uch>, base: nat, ins: set<nat>, strstart: nat, cur: nat) {
    && 0 < cur < strstart && strstart - cur <= MaxDist(c) && base + strstart + 2 < |data|
    && OnChain(c.hash, data, ins, base + cur, ChainAt(c.hash, data, base + strstart))
  }

  lemma LinkIsCandidate(c: Config, data: seq<uch>, base: nat, ins: set<nat>, strstart: nat, v: nat)
    requires Leads(c.hash, v, data, base, ins, base + strstart) && v != 0 && strstart - v <= MaxDist(c)
    ensures Candidate(c, data, base, ins, strstart, v)
  {
    hide Chain;
  }

  /** The next one on the chain, if it is not below the limit. */
  lemma NextCandidate(c: Config, head: seq<nat>, prev: seq<nat>, data: seq<uch>, base: nat, ins: set<nat>,
        strstart: nat, cur: nat, v: nat)
    requires ProperConfig(c) && |prev| == c.wsize && Chains(c.hash, head, prev, data, base, ins, base + strstart + 1)
    requires Candidate(c, data, base, ins, strstart, cur) && v == prev[cur % c.wsize]
    ensures IsLast(c.hash, v, data, base, ins, ChainAt(c.hash, data, base + strstart), base + cur) && v < cur
    ensures v != 0 && strstart - v <= MaxDist(c) ==> Candidate(c, data, base, ins, strstart, v)
  {
    hide Chain, PrevsLead, HeadsLead, AllBefore, NoneBetween;
    Follow(c.hash, prev, data, base, ins, base + strstart + 1, cur);
  }

  // The candidates that are tried

  /** Strings farther back than this are not followed. */
  function Limit(c: Config, strstart: nat): (limit: nat)
    ensures limit == 0 || limit == strstart - MaxDist(c)
  {
    if strstart > MaxDist(c) then strstart - MaxDist(c) else 0
  }

  /** How many candidates are tried at most. */
  function Depth(c: Config, prevLength: nat): nat {
    if prevLength >= c.goodMatch then c.maxChain / 4 else c.maxChain
  }

  /** cur and the strings behind it on its chain, n at most. */
  ghost function Visited(prev: seq<nat>, limit: nat, cur: nat, n: nat): seq<nat>
    requires |prev| > 0
    decreases n
  {
    if n == 0 then []
    else
      var v := prev[cur % |prev|];
      [cur] + if v <= limit then [] else Visited(prev, limit, v, n - 1)
  }

  /** Equal keys and two equal bytes make the third byte equal. */
  lemma ThirdByteEqual(c: Config, window: seq<uch>, data: seq<uch>, base: nat, ins: set<nat>, n: nat, strstart: nat,
        cur: nat)
    requires ProperConfig(c) && Holds(window, data, base, n) && Candidate(c, data, base, ins, strstart, cur)
    requires strstart + 2 < n
    requires window[cur] == window[strstart] && window[cur + 1] == window[strstart + 1]
    ensures Equal(window, strstart, cur, MIN_MATCH)
  {
    hide Chain, ProperHash;
    ThirdByte(c.hash, data[base + cur], data[base + cur + 1], data[base + cur + 2], data[base + strstart + 2]);
  }

  /** Equal bytes of the window that are data are a repetition in the data. */
  lemma EqualRepeats(window: seq<uch>, data: seq<uch>, base: nat, strstart: nat, lookahead: nat, match_: nat, n: nat,
        len: nat)
    requires Holds(window, data, base, strstart + lookahead) && Equal(window, strstart, match_, n) && match_ < strstart
    requires len <= n && len <= lookahead
    ensures Repeats(data, base + strstart, strstart - match_, len)
  {
    forall k | base + strstart <= k < base + strstart + len ensures data[k] == data[k - (strstart - match_)] {
      var i := k - base;
      assert window[i] == window[match_ + (i - strstart)];
    }
  }

  /** The best match so far. */
  ghost predicate Best(window: seq<uch>, c: Config, strstart: nat, matchStart: int, best: nat) {
    0 < matchStart < strstart && strstart - matchStart <= MaxDist(c) && Equal(window, strstart, matchStart, best)
  }

  lemma CandidateBounds(c: Config, data: seq<uch>, base: nat, ins: set<nat>, strstart: nat, cur: nat)
    requires Candidate(c, data, base, ins, strstart, cur)
    ensures 0 < cur < strstart && strstart - cur <= MaxDist(c) && base + strstart + 2 < |data|
  {
  }

  /** One candidate: the length of its match, or 0 if a look at four bytes shows that it is no better. */
  method TryCandidate(window: array<uch>, ghost c: Config, ghost data: seq<uch>, ghost base: nat, ghost ins: set<nat>,
        ghost n: nat, strstart: nat, cur: nat, best: nat, scanEnd1: uch, scanEnd: uch) returns (len: nat)
    requires ProperConfig(c) && Holds(window[..], data, base, n) && Candidate(c, data, base, ins, strstart, cur)
    requires strstart + 2 < n && strstart + MAX_MATCH < window.Length && 1 <= best <= MAX_MATCH
    requires scanEnd1 == window[strstart + best - 1] && scanEnd == window[strstart + best]
    ensures len <= MAX_MATCH && (len > 0 ==> Best(window[..], c, strstart, cur, len))
    ensures len <= best < MAX_MATCH ==> !Equal(window[..], strstart, cur, best + 1)
    ensures 0 < len < MAX_MATCH ==> !Equal(window[..], strstart, cur, len + 1)
  {
    hide Holds, Candidate;
    CandidateBounds(c, data, base, ins, strstart, cur);
    if window[cur + best] != scanEnd || window[cur + best - 1] != scanEnd1 || window[cur] != window[strstart] ||
       window[cur + 1] != window[strstart + 1]
    {
      return 0;
    }
    ThirdByteEqual(c, window[..], data, base, ins, n, strstart, cur);
    len := Compare(window, strstart, cur);
  }

  /** Everything on the list of candidates is an earlier string, and cur is the last of them. */
  lemma {:induction false} VisitedDescends(c: Config, head: seq<nat>, prev: seq<nat>, data: seq<uch>, base: nat,
        ins: set<nat>, strstart: nat, cur: nat, n: nat)
    requires ProperConfig(c) && |prev| == c.wsize && Chains(c.hash, head, prev, data, base, ins, base + strstart + 1)
    requires Candidate(c, data, base, ins, strstart, cur)
    ensures forall j :: 0 <= j < |Visited(prev, Limit(c, strstart), cur, n)| ==>
              Visited(prev, Limit(c, strstart), cur, n)[j] <= cur
    decreases n
  {
    hide Candidate, Chains, ProperHash, IsLast;
    if n > 0 {
      var v := prev[cur % |prev|];
      NextCandidate(c, head, prev, data, base, ins, strstart, cur, v);
      if v > Limit(c, strstart) {
        VisitedDescends(c, head, prev, data, base, ins, strstart, v, n - 1);
      }
    }
  }

  ghost predicate AgreeAt(all: seq<nat>, recent: seq<nat>, base: nat, j: int) {
    0 <= j < |recent| ==> j < |all| && base + all[j] == recent[j]
  }

  /** The first n of recent, which are counted from the start of the data, are those of all. */
  ghost predicate Agree(all: seq<nat>, recent: seq<nat>, base: nat, n: nat) {
    forall j :: j < n ==> AgreeAt(all, recent, base, j)
  }

  lemma OneMoreAgrees(all: seq<nat>, recent: seq<nat>, base: nat, cur: nat, n: nat)
    requires n > 0 && Agree(all, recent, base, n - 1)
    ensures Agree([cur] + all, [base + cur] + recent, base, n)
  {
    var all', recent' := [cur] + all, [base + cur] + recent;
    forall j | j < n ensures AgreeAt(all', recent', base, j) {
      assert j > 0 ==> AgreeAt(all, recent, base, j - 1);
    }
  }

  lemma NoneAgree(base: nat, n: nat)
    ensures Agree([], [], base, n)
  {
  }

  lemma NoneCounted(all: seq<nat>, recent: seq<nat>, base: nat)
    ensures Agree(all, recent, base, 0)
  {
  }

  /** The candidates are the last strings that have been put on the chain. */
  lemma {:induction false} VisitedIsRecent(c: Config, head: seq<nat>, prev: seq<nat>, data: seq<uch>, base: nat,
        ins: set<nat>, strstart: nat, cur: nat, n: nat)
    requires ProperConfig(c) && |prev| == c.wsize && Chains(c.hash, head, prev, data, base, ins, base + strstart + 1)
    requires Candidate(c, data, base, ins, strstart, cur)
    ensures var i := ChainAt(c.hash, data, base + strstart);
            var all := Visited(prev, Limit(c, strstart), cur, n);
            Agree(all, [base + cur] + Recent(c.hash, data, ins, i, base + cur, base + Limit(c, strstart)), base, n)
    decreases n
  {
    hide Agree, AgreeAt, Candidate, Chains, ProperHash, IsLast, Chain, Recent;
    CandidateBounds(c, data, base, ins, strstart, cur);
    if n > 0 {
      var i, limit := ChainAt(c.hash, data, base + strstart), Limit(c, strstart);
      var v := prev[cur % |prev|];
      NextCandidate(c, head, prev, data, base, ins, strstart, cur, v);
      RecentOfLast(c.hash, v, data, base, ins, i, base + cur, base + limit);
      VisitedFirst(prev, limit, cur, n);
      var all, recent: seq<nat> := [], [];
      if v > limit {
        VisitedIsRecent(c, head, prev, data, base, ins, strstart, v, n - 1);
        all := Visited(prev, limit, v, n - 1);
        recent := [base + v] + Recent(c.hash, data, ins, i, base + v, base + limit);
      } else {
        NoneAgree(base, n - 1);
      }
      OneMoreAgrees(all, recent, base, cur, n);
    } else {
      var i, limit := ChainAt(c.hash, data, base + strstart), Limit(c, strstart);
      NoneCounted(Visited(prev, limit, cur, n), [base + cur] + Recent(c.hash, data, ins, i, base + cur, base + limit),
                  base);
    }
  }

  ghost predicate NoneEqual(window: seq<uch>, strstart: int, seen: seq<nat>, n: nat) {
    forall j :: 0 <= j < |seen| ==> !Equal(window, strstart, seen[j], n)
  }

  /** No string tried before the one at matchStart is equal for n bytes. */
  ghost predicate NoneCloser(window: seq<uch>, strstart: int, seen: seq<nat>, matchStart: int, n: nat) {
    forall j :: 0 <= j < |seen| && seen[j] > matchStart ==> !Equal(window, strstart, seen[j], n)
  }

  function Least(x: nat, y: nat): nat {
    if x <= y then x else y
  }

  lemma NoneEqualMore(window: seq<uch>, strstart: int, seen: seq<nat>, n: nat, n': nat)
    requires NoneEqual(window, strstart, seen, n) && n <= n'
    ensures NoneEqual(window, strstart, seen, n')
  {
  }

  /** What the search has found when it has seen some of the candidates, nice being at most the lookahead. */
  ghost predicate BestOf(s: Deflate, nice: nat, seen: seq<nat>, best: nat, matchStart: int)
    reads s, s.window
  {
    && s.prevLength <= best <= MAX_MATCH
    && (best < MAX_MATCH && (best < nice || best == s.prevLength) ==>
          NoneEqual(s.window[..], s.strstart, seen, best + 1))
    && (best > s.prevLength ==>
          Best(s.window[..], s.c, s.strstart, matchStart, best) &&
          (s.prevLength < s.lookahead ==>
             NoneCloser(s.window[..], s.strstart, seen, matchStart, Least(best, s.lookahead))))
  }

  /** One more candidate, which is no better. */
  lemma BestStays(s: Deflate, nice: nat, seen: seq<nat>, cur: nat, best: nat, matchStart: int)
    requires BestOf(s, nice, seen, best, matchStart) && (best > s.prevLength ==> cur <= matchStart)
    requires best < MAX_MATCH ==> !Equal(s.window[..], s.strstart, cur, best + 1)
    ensures BestOf(s, nice, seen + [cur], best, matchStart)
  {
    hide Equal, Best;
  }

  /** One more candidate, which is better than all before it. */
  lemma BestImproves(s: Deflate, nice: nat, seen: seq<nat>, cur: nat, best: nat, matchStart: int, len: nat)
    requires BestOf(s, nice, seen, best, matchStart) && nice <= s.lookahead && (best < nice || best == s.prevLength)
    requires best < len <= MAX_MATCH && Best(s.window[..], s.c, s.strstart, cur, len)
    requires len < MAX_MATCH ==> !Equal(s.window[..], s.strstart, cur, len + 1)
    ensures BestOf(s, nice, seen + [cur], len, cur)
  {
    hide Equal, Best;
    if len < MAX_MATCH { NoneEqualMore(s.window[..], s.strstart, seen, best + 1, len + 1); }
    if s.prevLength < s.lookahead {
      NoneEqualMore(s.window[..], s.strstart, seen, best + 1, Least(len, s.lookahead));
    }
  }

  /** The candidates after the best one cannot be closer. */
  lemma RestIsBehind(s: Deflate, nice: nat, seen: seq<nat>, rest: seq<nat>, best: nat, matchStart: int)
    requires BestOf(s, nice, seen, best, matchStart) && best >= nice && best > s.prevLength
    requires forall j :: 0 <= j < |rest| ==> rest[j] <= matchStart
    ensures BestOf(s, nice, seen + rest, best, matchStart)
  {
    hide Equal, Best;
  }

  lemma NiceEnough(s: Deflate, nice: nat, cur: nat, seen: seq<nat>, rest: seq<nat>, chain: nat, best: nat)
    requires s.Shape() && s.ChainsHold() && s.top == s.At() + 1 && s.prev.Length > 0
    requires Candidate(s.c, s.data, s.base, s.ins, s.strstart, cur)
    requires BestOf(s, nice, seen, best, cur) && best >= nice && best > s.prevLength
    requires [cur] + rest == Visited(s.prev[..], Limit(s.c, s.strstart), cur, chain)
    ensures BestOf(s, nice, seen + rest, best, cur)
  {
    hide Candidate, Chains, ProperHash, Visited, BestOf;
    VisitedDescends(s.c, s.head[..], s.prev[..], s.data, s.base, s.ins, s.strstart, cur, chain);
    assert forall j :: 0 <= j < |rest| ==> rest[j] == ([cur] + rest)[j + 1];
    RestIsBehind(s, nice, seen, rest, best, cur);
  }

  /** One candidate. */
  method Consider(s: Deflate, nice: nat, cur: nat, best: nat, matchStart: int, scanEnd1: uch, scanEnd: uch,
        ghost seen: seq<nat>) returns (best': nat, matchStart': int)
    requires s.Shape() && s.WindowHolds() && nice <= s.lookahead && (best < nice || best == s.prevLength)
    requires s.strstart + MIN_LOOKAHEAD <= 2 * s.c.wsize && MIN_MATCH <= s.lookahead && 1 <= s.prevLength
    requires Candidate(s.c, s.data, s.base, s.ins, s.strstart, cur) && BestOf(s, nice, seen, best, matchStart)
    requires 1 <= best <= MAX_MATCH && (best > s.prevLength ==> cur <= matchStart)
    requires scanEnd1 == s.window[s.strstart + best - 1] && scanEnd == s.window[s.strstart + best]
    ensures BestOf(s, nice, seen + [cur], best', matchStart') && best <= best' <= MAX_MATCH
    ensures best' == best ==> matchStart' == matchStart
    ensures best' > best ==> matchStart' == cur
  {
    hide Holds, Candidate, Best, ProperConfig, BestOf, Equal;
    ShapeBounds(s);
    var len := TryCandidate(s.window, s.c, s.data, s.base, s.ins, s.strstart + s.lookahead, s.strstart, cur, best,
                            scanEnd1, scanEnd);
    if len > best {
      BestImproves(s, nice, seen, cur, best, matchStart, len);
      return len, cur;
    }
    BestStays(s, nice, seen, cur, best, matchStart);
    return best, matchStart;
  }

  lemma ShapeBounds(s: Deflate)
    requires s.Shape()
    ensures ProperConfig(s.c) && s.window.Length == 2 * s.c.wsize && s.prev.Length == s.c.wsize > 0
    ensures s.c.maxChain / 4 > 0
  {
  }

  /** The loop along the chain. */
  method SearchChain(s: Deflate, curMatch: nat, nice: nat) returns (best: nat, matchStart: int)
    requires s.Shape() && s.WindowHolds() && s.ChainsHold() && s.top == s.At() + 1 && nice <= s.lookahead
    requires s.strstart + MIN_LOOKAHEAD <= 2 * s.c.wsize && MIN_MATCH <= s.lookahead && 1 <= s.prevLength <= MAX_MATCH
    requires Candidate(s.c, s.data, s.base, s.ins, s.strstart, curMatch)
    ensures s.prev.Length > 0
    ensures var all := Visited(s.prev[..], Limit(s.c, s.strstart), curMatch, Depth(s.c, s.prevLength));
            BestOf(s, nice, all, best, matchStart)
  {
    hide Holds, Candidate, Chains, Best, ProperConfig, BestOf, Equal, IsLast, Visited;
    var strstart := s.strstart;
    var chain := if s.prevLength >= s.c.goodMatch then s.c.maxChain / 4 else s.c.maxChain;
    var limit := if strstart > MaxDist(s.c) then strstart - MaxDist(s.c) else 0;
    assert limit == Limit(s.c, strstart) && chain == Depth(s.c, s.prevLength);
    best, matchStart := s.prevLength, s.matchStart;
    ShapeBounds(s);
    var scanEnd1, scanEnd := s.window[strstart + best - 1], s.window[strstart + best];
    var cur: nat := curMatch;
    ghost var all, seen: seq<nat> := Visited(s.prev[..], limit, cur, chain), [];
    NothingSeen(s, nice);
    while true
      invariant chain > 0 && s.prevLength <= best <= MAX_MATCH && (best < nice || best == s.prevLength)
      invariant scanEnd1 == s.window[strstart + best - 1] && scanEnd == s.window[strstart + best]
      invariant Candidate(s.c, s.data, s.base, s.ins, strstart, cur)
      invariant all == seen + Visited(s.prev[..], limit, cur, chain) && BestOf(s, nice, seen, best, matchStart)
      invariant best > s.prevLength ==> cur <= matchStart
      decreases chain
    {
      var len, start := Consider(s, nice, cur, best, matchStart, scanEnd1, scanEnd, seen);
      ghost var rest := Rest(s.prev[..], limit, cur, chain, seen, all);
      seen := seen + [cur];
      if len > best {
        best, matchStart := len, start;
        if len >= nice {
          NiceEnough(s, nice, cur, seen, rest, chain, best);
          break;
        }
        scanEnd1, scanEnd := s.window[strstart + best - 1], s.window[strstart + best];
      }
      NextCandidate(s.c, s.head[..], s.prev[..], s.data, s.base, s.ins, strstart, cur, s.prev[cur % s.c.wsize]);
      cur := s.prev[cur % s.c.wsize];
      if cur <= limit {
        break;
      }
      chain := chain - 1;
      if chain == 0 {
        break;
      }
    }
  }

  /** The candidates behind the current one. */
  lemma Rest(prev: seq<nat>, limit: nat, cur: nat, n: nat, seen: seq<nat>, all: seq<nat>) returns (rest: seq<nat>)
    requires |prev| > 0 && n > 0 && all == seen + Visited(prev, limit, cur, n)
    ensures Visited(prev, limit, cur, n) == [cur] + rest && all == (seen + [cur]) + rest
    ensures var v := prev[cur % |prev|];
            if v <= limit || n == 1 then rest == [] && all == seen + [cur] else rest == Visited(prev, limit, v, n - 1)
  {
    var v := prev[cur % |prev|];
    rest := if v <= limit then [] else Visited(prev, limit, v, n - 1);
  }

  lemma VisitedFirst(prev: seq<nat>, limit: nat, cur: nat, n: nat)
    requires |prev| > 0 && n > 0
    ensures var v := prev[cur % |prev|];
            Visited(prev, limit, cur, n) == [cur] + if v <= limit then [] else Visited(prev, limit, v, n - 1)
  {
  }

  lemma NothingSeen(s: Deflate, nice: nat)
    requires s.prevLength <= MAX_MATCH
    ensures BestOf(s, nice, [], s.prevLength, s.matchStart)
  {
  }

  // What the search means for the data

  /** How far back: the window less the longest match, the shortest, and one byte. */
  ghost function Reach(c: Config): int {
    c.wsize - (MAX_MATCH + MIN_MATCH + 1)
  }

  /** The strings of the same key before the one at strstart that are less than Reach away, the last one first. */
  ghost function Near(c: Config, data: seq<uch>, base: nat, ins: set<nat>, strstart: nat): (r: seq<nat>)
    requires base + strstart + 2 < |data|
    ensures forall j :: 0 <= j < |r| ==> base < r[j] < base + strstart
  {
    Recent(c.hash, data, ins, ChainAt(c.hash, data, base + strstart), base + strstart,
           base + if strstart > Reach(c) then strstart - Reach(c) else 0)
  }

  /** None of the first n of these strings behind the position low repeats for len bytes. */
  ghost predicate NoneRepeats(c: Config, data: seq<uch>, base: nat, ins: set<nat>, strstart: nat, n: nat, low: int,
        len: nat)
    requires base + strstart + 2 < |data|
  {
    var near := Near(c, data, base, ins, strstart);
    forall j :: 0 <= j < |near| && j < n && near[j] > low ==>
      !Repeats(data, base + strstart, base + strstart - near[j], len)
  }

  lemma RepeatsEqual(window: seq<uch>, data: seq<uch>, base: nat, strstart: nat, lookahead: nat, match_: nat, len: nat)
    requires Holds(window, data, base, strstart + lookahead) && match_ < strstart
    requires Repeats(data, base + strstart, strstart - match_, len)
    ensures Equal(window, strstart, match_, len)
  {
    forall k | strstart <= k < strstart + len ensures window[k] == window[match_ + (k - strstart)] {
      assert data[base + k] == data[base + k - (strstart - match_)];
    }
  }

  /** What holds of the candidates holds of the strings near the current one. */
  lemma NoneOfNear(c: Config, window: seq<uch>, data: seq<uch>, base: nat, ins: set<nat>, strstart: nat,
        lookahead: nat, all: seq<nat>, n: nat, low: int, len: nat)
    requires base + strstart + 2 < |data| && Holds(window, data, base, strstart + lookahead)
    requires Agree(all, Near(c, data, base, ins, strstart), base, n) && NoneCloser(window, strstart, all, low, len)
    ensures NoneRepeats(c, data, base, ins, strstart, n, base + low, len)
  {
    hide Near, Holds, Equal, Repeats;
    var near := Near(c, data, base, ins, strstart);
    forall j | 0 <= j < |near| && j < n && near[j] > base + low
      ensures !Repeats(data, base + strstart, base + strstart - near[j], len)
    {
      assert AgreeAt(all, near, base, j);
      if Repeats(data, base + strstart, base + strstart - near[j], len) {
        RepeatsEqual(window, data, base, strstart, lookahead, all[j], len);
      }
    }
  }

  lemma VisitedIsNear(c: Config, head: seq<nat>, prev: seq<nat>, data: seq<uch>, base: nat, ins: set<nat>,
        strstart: nat, cur: nat, n: nat)
    requires ProperConfig(c) && |prev| == c.wsize && Chains(c.hash, head, prev, data, base, ins, base + strstart + 1)
    requires Leads(c.hash, cur, data, base, ins, base + strstart) && cur != 0 && strstart - cur <= MaxDist(c)
    ensures Agree(Visited(prev, Limit(c, strstart), cur, n), Near(c, data, base, ins, strstart), base, n)
  {
    hide Chains, ProperHash, Recent, Visited, Agree, IsLast, Candidate, Chain;
    LinkIsCandidate(c, data, base, ins, strstart, cur);
    LinkIsEarlier(c, data, base, ins, strstart, cur);
    var i, limit := ChainAt(c.hash, data, base + strstart), Limit(c, strstart);
    RecentOfLast(c.hash, cur, data, base, ins, i, base + strstart, base + limit);
    if cur > limit {
      VisitedIsRecent(c, head, prev, data, base, ins, strstart, cur, n);
    } else {
      NoneNear(Visited(prev, limit, cur, n), base, n);
    }
  }

  lemma NothingBefore(k: Hash, data: seq<uch>, ins: set<nat>, i: nat, p: nat, low: nat)
    requires p <= low
    ensures Recent(k, data, ins, i, p, low) == []
  {
  }

  lemma LinkIsEarlier(c: Config, data: seq<uch>, base: nat, ins: set<nat>, strstart: nat, cur: nat)
    requires Leads(c.hash, cur, data, base, ins, base + strstart) && cur != 0
    ensures base + cur < base + strstart
  {
  }

  lemma NoneNear(all: seq<nat>, base: nat, n: nat)
    ensures Agree(all, [], base, n)
  {
  }

  /** No string to start from means that there is none near enough. */
  lemma NothingNear(c: Config, data: seq<uch>, base: nat, ins: set<nat>, strstart: nat, cur: nat)
    requires ProperConfig(c) && Leads(c.hash, cur, data, base, ins, base + strstart)
    requires cur == 0 || strstart - cur > MaxDist(c)
    ensures Near(c, data, base, ins, strstart) == []
  {
    hide Chain, ProperHash, IsLast, Recent;
    var i := ChainAt(c.hash, data, base + strstart);
    if strstart == 0 {
      NothingBefore(c.hash, data, ins, i, base + strstart, base + Limit(c, strstart));
    } else {
      if cur != 0 { LinkIsEarlier(c, data, base, ins, strstart, cur); }
      RecentOfLast(c.hash, cur, data, base, ins, i, base + strstart, base + Limit(c, strstart));
    }
  }

  /** The current string itself is not one of those before it. */
  lemma NearInserted(c: Config, data: seq<uch>, base: nat, ins: set<nat>, strstart: nat)
    requires base + strstart + 2 < |data|
    ensures Near(c, data, base, ins + {base + strstart}, strstart) == Near(c, data, base, ins, strstart)
  {
    hide Recent, Chain;
    var p := base + strstart;
    RecentInserted(c.hash, data, ins, ChainAt(c.hash, data, p), p, p, base + Limit(c, strstart));
  }

  /** None of the strings that are looked at when a match of length prevLength is known repeats for more than
      len bytes, unless len stops the search. */
  ghost predicate IsLongest(c: Config, data: seq<uch>, base: nat, ins: set<nat>, strstart: nat, prevLength: nat,
        len: nat)
    requires base + strstart + 2 < |data|
  {
    base + strstart + len < |data| && len < MAX_MATCH && (len < c.niceMatch || len <= prevLength) ==>
      NoneRepeats(c, data, base, ins, strstart, Depth(c, prevLength), -1, len + 1)
  }

  lemma LongestOfNone(c: Config, data: seq<uch>, base: nat, ins: set<nat>, strstart: nat, prevLength: nat, len: nat)
    requires base + strstart + 2 < |data| && Near(c, data, base, ins, strstart) == []
    ensures IsLongest(c, data, base, ins, strstart, prevLength, len)
  {
    hide Near;
  }

  /** A match longer than prev_length, if there is one among the candidates; the length returned is never
      more than the lookahead. If it is not long enough to stop the search, none of the candidates is
      longer; and none of those that are closer is as long. */
  method LongestMatch(s: Deflate, curMatch: nat) returns (len: nat)
    requires s.Shape() && s.WindowHolds() && s.ChainsHold() && s.top == s.At() + 1
    requires s.strstart + MIN_LOOKAHEAD <= 2 * s.c.wsize && MIN_MATCH <= s.lookahead && 1 <= s.prevLength <= MAX_MATCH
    requires Leads(s.c.hash, curMatch, s.data, s.base, s.ins, s.At())
    requires curMatch != 0 && s.strstart - curMatch <= MaxDist(s.c)
    modifies s`matchStart
    ensures len <= s.lookahead && len <= MAX_MATCH && (len >= s.prevLength || len == s.lookahead)
    ensures len > s.prevLength ==> 0 < s.matchStart < s.strstart && s.strstart - s.matchStart <= MaxDist(s.c) &&
                                   Repeats(s.data, s.At(), s.strstart - s.matchStart, len)
    ensures s.At() + 2 < |s.data|
    ensures IsLongest(s.c, s.data, s.base, s.ins, s.strstart, s.prevLength, len)
    ensures len > s.prevLength ==>
          NoneRepeats(s.c, s.data, s.base, s.ins, s.strstart, Depth(s.c, s.prevLength), s.base + s.matchStart, len)
  {
    hide Holds, Candidate, Chains, Equal, Repeats, ProperHash, IsLast, Near, Agree, NoneRepeats, Visited;
    var nice := if s.c.niceMatch > s.lookahead then s.lookahead else s.c.niceMatch;
    LinkIsCandidate(s.c, s.data, s.base, s.ins, s.strstart, curMatch);
    var best, matchStart := SearchChain(s, curMatch, nice);
    s.matchStart := matchStart;
    len := if best <= s.lookahead then best else s.lookahead;
    ghost var n := Depth(s.c, s.prevLength);
    ghost var all := Visited(s.prev[..], Limit(s.c, s.strstart), curMatch, n);
    VisitedIsNear(s.c, s.head[..], s.prev[..], s.data, s.base, s.ins, s.strstart, curMatch, n);
    if len > s.prevLength {
      EqualRepeats(s.window[..], s.data, s.base, s.strstart, s.lookahead, matchStart, best, len);
      NoneOfNear(s.c, s.window[..], s.data, s.base, s.ins, s.strstart, s.lookahead, all, n, matchStart, len);
    }
    if len < s.lookahead && len < MAX_MATCH && (len < s.c.niceMatch || len <= s.prevLength) {
      NoneOfNear(s.c, s.window[..], s.data, s.base, s.ins, s.strstart, s.lookahead, all, n, -1 - s.base, len + 1);
    }
  }
}
