/** deflate.c: fill_window, read_buf and slide_hash. */
module WindowFill {
  import opened DeflateState
  import opened HashChains
  import opened HashKeys
  import opened Lz77

  /** One table of slide_hash, from its end to its start. */
  method SlideTable(table: array<nat>, wsize: nat)
    modifies table
    ensures table[..] == AllSlid(old(table[..]), wsize)
  {
    var n := table.Length;
    while n != 0
      invariant 0 <= n <= table.Length
      invariant forall i :: n <= i < table.Length ==> table[i] == Slid(old(table[i]), wsize)
      invariant forall i :: 0 <= i < n ==> table[i] == old(table[i])
    {
      n := n - 1;
      var m := table[n];
      table[n] := if m >= wsize then m - wsize else 0;
    }
  }

  method SlideHash(s: Deflate)
    requires s.prev.Length == s.c.wsize && s.prev != s.head && s.ChainsHold()
    modifies s.head, s.prev, s`base
    ensures s.base == old(s.base) + s.c.wsize && s.ChainsHold()
  {
    hide Chains, ProperConfig;
    ChainsSlid(s.c.hash, s.head[..], s.prev[..], s.data, s.base, s.ins, s.top);
    SlideTable(s.head, s.c.wsize);
    SlideTable(s.prev, s.c.wsize);
    s.base := s.base + s.c.wsize;
  }

  /** The upper half of the window becomes the lower one; n is what the upper half holds. */
  method MoveWindow(window: array<uch>, wsize: nat, n: nat)
    requires wsize + n <= window.Length && n <= wsize
    modifies window
    ensures forall i :: 0 <= i < n ==> window[i] == old(window[wsize + i])
  {
    for i := 0 to n
      invariant forall j :: 0 <= j < i ==> window[j] == old(window[wsize + j])
      invariant forall j :: i <= j < window.Length ==> window[j] == old(window[j])
    {
      window[i] := window[wsize + i];
    }
  }

  /** ins_h is as ready for bytes that have moved. */
  lemma ReadyMoves(k: Hash, h: bv32, window: seq<uch>, window': seq<uch>, data: seq<uch>, base: nat, n: nat, i: nat,
        off: nat)
    requires off <= i && i + 1 < n
    requires ReadyIn(k, h, window, i) && Holds(window, data, base, n) && Holds(window', data, base + off, n - off)
    ensures ReadyIn(k, h, window', i - off)
  {
    hide Ready;
    assert window'[i - off] == data[base + i] == window[i];
    assert window'[i - off + 1] == data[base + i + 1] == window[i + 1];
  }

  lemma MovedHolds(window: seq<uch>, window': seq<uch>, data: seq<uch>, base: nat, n: nat, off: nat)
    requires Holds(window, data, base, n) && off <= n && |window'| == |window|
    requires forall i :: 0 <= i < n - off ==> window'[i] == window[off + i]
    ensures Holds(window', data, base + off, n - off)
  {
  }

  /** The source also cuts insert down to strstart, which is never less. */
  method SlideWindow(s: Deflate)
    requires s.Steady() && s.strstart >= s.c.wsize + MaxDist(s.c)
    modifies s`strstart, s`matchStart, s`base, s.window, s.head, s.prev
    ensures s.Steady() && s.strstart == old(s.strstart) - s.c.wsize && s.base == old(s.base) + s.c.wsize
    ensures s.matchStart == old(s.matchStart) - s.c.wsize
  {
    hide Chains, ProperHash, ReadyIn, Holds;
    ghost var window := s.window[..];
    var more := 2 * s.c.wsize - s.lookahead - s.strstart;
    MoveWindow(s.window, s.c.wsize, s.c.wsize - more);
    MovedHolds(window, s.window[..], s.data, s.base, s.strstart + s.lookahead, s.c.wsize);
    s.matchStart := s.matchStart - s.c.wsize;
    s.strstart := s.strstart - s.c.wsize;
    assert s.insert <= s.strstart;
    SlideHash(s);
    if s.lookahead >= MIN_MATCH {
      ReadyMoves(s.c.hash, s.insH, window, s.window[..], s.data, old(s.base), old(s.strstart) + s.lookahead,
                 old(s.strstart), s.c.wsize);
    }
  }

  method CopyIn(window: array<uch>, at: nat, bytes: seq<uch>)
    requires at + |bytes| <= window.Length
    modifies window
    ensures forall j :: 0 <= j < at ==> window[j] == old(window[j])
    ensures forall j :: at <= j < at + |bytes| ==> window[j] == bytes[j - at]
  {
    for i := 0 to |bytes|
      invariant forall j :: 0 <= j < at ==> window[j] == old(window[j])
      invariant forall j :: at <= j < at + i ==> window[j] == bytes[j - at]
    {
      window[at + i] := bytes[i];
    }
  }

  /** read_buf, into the free space behind the lookahead. */
  method ReadBuf(s: Deflate, more: nat)
    requires s.Shape() && s.WindowHolds() && s.ChainsHold() && s.strstart + s.lookahead + more == 2 * s.c.wsize
    modifies s`lookahead, s`nextIn, s`data, s.window
    ensures s.Shape() && s.WindowHolds() && s.ChainsHold()
    ensures s.data + s.nextIn == old(s.data + s.nextIn) && old(s.data) <= s.data
    ensures s.lookahead >= old(s.lookahead) && (old(s.nextIn) != [] && more > 0 ==> |s.nextIn| < |old(s.nextIn)|)
  {
    hide Chains, ProperConfig;
    var n := if |s.nextIn| < more then |s.nextIn| else more;
    var at := s.strstart + s.lookahead;
    CopyIn(s.window, at, s.nextIn[..n]);
    ChainsMore(s.c.hash, s.head[..], s.prev[..], s.data, s.nextIn[..n], s.base, s.ins, s.top);
    s.data := s.data + s.nextIn[..n];
    s.lookahead := s.lookahead + n;
    s.nextIn := s.nextIn[n..];
  }

  ghost predicate AllIn(ins: set<nat>, from: int, to: int) {
    forall q :: from <= q < to ==> q in ins
  }

  lemma NoneIn(ins: set<nat>, x: int)
    ensures AllIn(ins, x, x)
  {
  }

  lemma AllInJoins(ins: set<nat>, ins': set<nat>, x: int, y: int, z: int)
    requires AllIn(ins, x, y) && AllIn(ins', y, z) && ins <= ins'
    ensures AllIn(ins', x, z)
  {
  }

  /** The strings that could not be inserted for want of the bytes that follow them. */
  method InsertRest(s: Deflate)
    requires s.Shape() && s.WindowHolds() && s.ChainsHold() && s.insert <= s.strstart && s.top <= s.At() - s.insert
    modifies s`insH, s`ins, s`top, s`insert, s.prev, s.head
    ensures s.Shape() && s.WindowHolds() && s.ChainsHold() && s.InsertPending() && s.top <= s.At()
    ensures s.lookahead >= MIN_MATCH ==> s.ReadyAt(s.strstart)
    ensures old(s.ins) <= s.ins && s.insert <= old(s.insert)
    ensures AllIn(s.ins, s.At() - old(s.insert), s.At() - s.insert)
  {
    hide Chains, Holds, ReadyIn, ProperHash, Mix;
    if s.lookahead + s.insert >= MIN_MATCH {
      var str := s.strstart - s.insert;
      s.insH := Mix(s.c.hash, s.window[str] as bv32, s.window[str + 1] as bv32);
      Starts(s.c.hash, s.window[..], str);
      while s.insert != 0
        invariant s.Shape() && s.WindowHolds() && s.ChainsHold() && s.ReadyAt(str) && s.insert <= s.strstart
        invariant old(s.ins) <= s.ins && s.insert <= old(s.insert)
        invariant AllIn(s.ins, s.At() - old(s.insert), s.base + str)
        invariant str == s.strstart - s.insert && s.top <= s.base + str && s.lookahead + s.insert >= MIN_MATCH
        decreases s.insert
      {
        var _ := InsertString(s, str);
        str := str + 1;
        s.insert := s.insert - 1;
        if s.lookahead + s.insert < MIN_MATCH {
          break;
        }
      }
    }
  }

  lemma Starts(k: Hash, window: seq<uch>, str: nat)
    requires str + 1 < |window|
    ensures ReadyIn(k, Mix(k, window[str] as bv32, window[str + 1] as bv32), window, str)
  {
    hide Mix;
    ReadyStarts(k, window[str], window[str + 1]);
  }

  /** One turn of fill_window. */
  method FillTurn(s: Deflate) returns (more: bool)
    requires s.Steady() && s.lookahead < MIN_LOOKAHEAD
    modifies s`strstart, s`lookahead, s`insert, s`insH, s`matchStart, s`nextIn
    modifies s`data, s`base, s`ins, s`top, s.window, s.head, s.prev
    ensures s.Steady() && s.At() == old(s.At()) && s.base + s.matchStart == old(s.base + s.matchStart)
    ensures s.data + s.nextIn == old(s.data + s.nextIn) && old(s.data) <= s.data && s.lookahead >= old(s.lookahead)
    ensures old(s.strstart) >= 1 ==> s.strstart >= 1
    ensures more ==> s.lookahead < MIN_LOOKAHEAD && |s.nextIn| < |old(s.nextIn)|
    ensures !more ==>
          s.strstart + MIN_LOOKAHEAD <= 2 * s.c.wsize && (s.nextIn == [] || s.lookahead >= MIN_LOOKAHEAD)
    ensures old(s.ins) <= s.ins && s.insert <= old(s.insert)
    ensures AllIn(s.ins, s.At() - old(s.insert), s.At() - s.insert)
  {
    hide Chains, ProperHash, ReadyIn, Holds, AllIn;
    if s.strstart >= s.c.wsize + MaxDist(s.c) {
      SlideWindow(s);
    }
    if s.nextIn == [] {
      NoneIn(s.ins, s.At() - s.insert);
      return false;
    }
    var room := 2 * s.c.wsize - s.lookahead - s.strstart;
    assert room >= 2;
    ReadBuf(s, room);
    InsertRest(s);
    more := s.lookahead < MIN_LOOKAHEAD && s.nextIn != [];
  }

  /** fill_window: reads on until there is enough lookahead or no more input, and moves the window before
      there is no room left. */
  method FillWindow(s: Deflate, ghost p: nat)
    requires s.Steady() && s.lookahead < MIN_LOOKAHEAD && s.Tallied(p)
    modifies s`strstart, s`lookahead, s`insert, s`insH, s`matchStart, s`nextIn
    modifies s`data, s`base, s`ins, s`top, s.window, s.head, s.prev
    ensures s.Steady() && s.At() == old(s.At()) && s.base + s.matchStart == old(s.base + s.matchStart)
    ensures s.data + s.nextIn == old(s.data + s.nextIn) && old(s.data) <= s.data
    ensures s.strstart + MIN_LOOKAHEAD <= 2 * s.c.wsize && s.lookahead >= old(s.lookahead)
    ensures s.lookahead < MIN_LOOKAHEAD ==> s.nextIn == []
    ensures s.Tallied(p) && (old(s.strstart) >= 1 ==> s.strstart >= 1)
    ensures old(s.ins) <= s.ins && AllIn(s.ins, old(s.At() - s.insert), s.At() - s.insert)
  {
    hide Chains, ProperConfig, ReadyIn, Holds, Expand, InRange, AllIn;
    var more := true;
    NoneIn(s.ins, s.At() - s.insert);
    while more
      invariant s.Steady() && s.At() == old(s.At()) && s.base + s.matchStart == old(s.base + s.matchStart)
      invariant s.data + s.nextIn == old(s.data + s.nextIn) && old(s.data) <= s.data
      invariant s.lookahead >= old(s.lookahead) && (more ==> s.lookahead < MIN_LOOKAHEAD)
      invariant old(s.strstart) >= 1 ==> s.strstart >= 1
      invariant !more ==>
            s.strstart + MIN_LOOKAHEAD <= 2 * s.c.wsize && (s.nextIn == [] || s.lookahead >= MIN_LOOKAHEAD)
      invariant old(s.ins) <= s.ins && AllIn(s.ins, s.At() - old(s.insert), s.At() - s.insert)
      decreases more, |s.nextIn|
    {
      ghost var ins, from := s.ins, s.At() - s.insert;
      more := FillTurn(s);
      AllInJoins(ins, s.ins, s.At() - old(s.insert), from, s.At() - s.insert);
    }
    assert s.data[..p] == old(s.data)[..p];
  }
}
