/** inffast.c: inflate_fast. Shifts and masks of hold are divisions and remainders by powers of two. */
module InflateFast {
  import opened BitSlices
  import opened Bytes
  import opened InflateTables
  import opened Lz77
  import opened MatchCopy

  /** The locals in, hold and bits. */
  datatype Reader = Reader(pos: nat, hold: nat, bits: nat)

  /** The number that holds all bits: those in hold on entry, and those of the input after them. */
  ghost function Total(hold: nat, bits: nat, input: seq<byte>): nat {
    hold + Pow2(bits) * Number(input)
  }

  ghost function Number(s: seq<byte>): nat {
    if |s| == 0 then 0 else s[0] + 256 * Number(s[1..])
  }

  /** Byte i of the input is at its place in x. */
  ghost predicate Source(x: nat, bits: nat, input: seq<byte>) {
    forall i :: 0 <= i < |input| ==> Slice(x, bits + 8 * i, 8) == input[i]
  }

  /** hold has the bits from bit c on, up to those of the next byte of the input. */
  ghost predicate Buffered(x: nat, bits0: nat, c: nat, r: Reader) {
    r.hold == Slice(x, c, r.bits) && c + r.bits == bits0 + 8 * r.pos
  }

  lemma {:induction false} NumberBytes(s: seq<byte>, i: nat)
    requires i < |s|
    ensures Slice(Number(s), 8 * i, 8) == s[i]
    decreases i
  {
    hide Pow2;
    Eight();
    QuotientIs(Number(s), 256, Number(s[1..]), s[0]);
    if i == 0 {
      PowZero();
    } else {
      NumberBytes(s[1..], i - 1);
      PowersMultiply(8, 8 * (i - 1));
      Product(Pow2(8), Pow2(8 * (i - 1)));
      PowPositive(8 * (i - 1));
      DivideTwice(Number(s), 256, Pow2(8 * (i - 1)));
    }
  }

  lemma Eight()
    ensures Pow2(8) == 256
  {
    assert Pow2(4) == 16;
  }

  lemma PowZero()
    ensures Pow2(0) == 1
  {
  }

  lemma PowPositive(n: nat)
    ensures Pow2(n) > 0
  {
  }

  lemma ByteOfTotal(hold: nat, bits: nat, input: seq<byte>, i: nat)
    requires hold < Pow2(bits) && i < |input|
    ensures Slice(Total(hold, bits, input), bits + 8 * i, 8) == input[i]
  {
    hide Pow2, Number;
    var x := Total(hold, bits, input);
    QuotientIs(x, Pow2(bits), Number(input), hold);
    NumberBytes(input, i);
    PowersMultiply(bits, 8 * i);
    PowPositive(8 * i);
    DivideTwice(x, Pow2(bits), Pow2(8 * i));
  }

  lemma HoldOfTotal(hold: nat, bits: nat, input: seq<byte>)
    requires hold < Pow2(bits)
    ensures Slice(Total(hold, bits, input), 0, bits) == hold
  {
    hide Pow2, Number;
    PowZero();
    QuotientIs(Total(hold, bits, input), Pow2(bits), Number(input), hold);
  }

  lemma TotalIsSource(hold: nat, bits: nat, input: seq<byte>)
    requires hold < Pow2(bits)
    ensures Source(Total(hold, bits, input), bits, input)
    ensures Buffered(Total(hold, bits, input), bits, 0, Reader(0, hold, bits))
  {
    hide Slice, Total;
    HoldOfTotal(hold, bits, input);
    forall i | 0 <= i < |input| ensures Slice(Total(hold, bits, input), bits + 8 * i, 8) == input[i] {
      ByteOfTotal(hold, bits, input, i);
    }
  }

  /** hold += (unsigned long)(*in++) << bits; bits += 8 */
  method Pull(input: seq<byte>, r: Reader, ghost x: nat, ghost bits0: nat, ghost c: nat) returns (r': Reader)
    requires Source(x, bits0, input) && Buffered(x, bits0, c, r) && r.pos < |input|
    ensures Buffered(x, bits0, c, r') && r'.pos == r.pos + 1 && r'.bits == r.bits + 8
  {
    hide Slice, Pow2;
    SliceJoins(x, c, r.bits, 8);
    r' := Reader(r.pos + 1, r.hold + input[r.pos] * Pow2(r.bits), r.bits + 8);
  }

  /** hold >>= n; bits -= n */
  method Drop(r: Reader, n: nat, ghost x: nat, ghost bits0: nat, ghost c: nat) returns (r': Reader)
    requires Buffered(x, bits0, c, r) && n <= r.bits
    ensures Buffered(x, bits0, c + n, r') && r'.pos == r.pos && r'.bits == r.bits - n
  {
    hide Slice, Pow2;
    SliceSplits(x, c, n, r.bits - n);
    PowPositive(n);
    r' := Reader(r.pos, r.hold / Pow2(n), r.bits - n);
  }

  /** hold & ((1 << n) - 1) */
  method Low(r: Reader, n: nat, ghost x: nat, ghost bits0: nat, ghost c: nat) returns (v: nat)
    requires Buffered(x, bits0, c, r) && n <= r.bits
    ensures v == Slice(x, c, n)
  {
    hide Slice, Pow2;
    SliceSplits(x, c, n, r.bits - n);
    PowPositive(n);
    v := r.hold % Pow2(n);
  }

  /** At least 15 bits. */
  method Need15(input: seq<byte>, r: Reader, ghost x: nat, ghost bits0: nat, ghost c: nat) returns (r': Reader)
    requires Source(x, bits0, input) && Buffered(x, bits0, c, r) && (r.bits < 15 ==> r.pos + 2 <= |input|)
    ensures Buffered(x, bits0, c, r') && 15 <= r'.bits && r.pos <= r'.pos <= r.pos + 2
    ensures if r.bits >= 15 then r' == r else r'.bits <= 30
  {
    hide Source, Buffered;
    r' := r;
    if r'.bits < 15 {
      r' := Pull(input, r', x, bits0, c);
      r' := Pull(input, r', x, bits0, c);
    }
  }

  /** From dolen or dodist to the entry that is no link. */
  method DecodeCode(t: seq<Code>, root: nat, r: Reader, ghost x: nat, ghost bits0: nat, ghost c: nat, ghost least: nat,
        ghost maxExtra: nat, ghost most: nat) returns (e: Code, r': Reader, ghost c': nat)
    requires ProperTable(t, root, least, maxExtra, most) && Buffered(x, bits0, c, r) && 15 <= r.bits
    ensures (e, c') == Decode(t, root, x, c, least, maxExtra, most) && Leaf(e, 15, least, maxExtra, most)
    ensures Buffered(x, bits0, c', r') && c <= c' <= c + 15 && r'.pos == r.pos && r'.bits <= r.bits
  {
    hide Slice, Pow2, Buffered;
    var i := Low(r, root, x, bits0, c);
    e := t[i];
    assert Entry(t, e, least, maxExtra, most);
    r' := Drop(r, e.bits, x, bits0, c);
    c' := c + e.bits;
    if IsLink(e) {
      var j := Low(r', e.op, x, bits0, c');
      e := t[e.val + j];
      r' := Drop(r', e.bits, x, bits0, c');
      c' := c' + e.bits;
    }
  }

  /** Base and extra bits of a length; one more byte is read if it is needed. */
  method ReadLength(input: seq<byte>, e: Code, r: Reader, ghost x: nat, ghost bits0: nat, ghost c: nat)
      returns (len: nat, r': Reader)
    requires Source(x, bits0, input) && Buffered(x, bits0, c, r) && Extra(e) <= 5
    requires r.bits < Extra(e) ==> r.pos < |input|
    ensures len == e.val + Slice(x, c, Extra(e)) && Buffered(x, bits0, c + Extra(e), r')
    ensures r.pos <= r'.pos && (r'.pos > r.pos ==> r'.pos == r.pos + 1 && r.bits < Extra(e))
    ensures r.bits <= 30 ==> r'.bits <= 30
  {
    hide Slice, Pow2, Source, Buffered;
    len, r' := e.val, r;
    if Extra(e) != 0 {
      if r'.bits < Extra(e) {
        r' := Pull(input, r', x, bits0, c);
      }
      var low := Low(r', Extra(e), x, bits0, c);
      len := len + low;
      r' := Drop(r', Extra(e), x, bits0, c);
    } else {
      NoBits(x, c);
    }
  }

  lemma NoBits(x: nat, c: nat)
    ensures Slice(x, c, 0) == 0
  {
    PowZero();
  }

  /** Base and extra bits of a distance; up to two more bytes are read. */
  method ReadDistance(input: seq<byte>, e: Code, r: Reader, ghost x: nat, ghost bits0: nat, ghost c: nat)
      returns (dist: nat, r': Reader)
    requires Source(x, bits0, input) && Buffered(x, bits0, c, r) && Extra(e) <= 13
    requires r.bits < Extra(e) ==> r.pos < |input|
    requires r.bits + 8 < Extra(e) ==> r.pos + 1 < |input|
    ensures dist == e.val + Slice(x, c, Extra(e)) && Buffered(x, bits0, c + Extra(e), r')
    ensures r.pos <= r'.pos && (r'.pos > r.pos ==> r.bits + 8 * (r'.pos - r.pos - 1) < Extra(e))
    ensures r.bits <= 30 ==> r'.bits <= 30
  {
    hide Slice, Pow2, Source, Buffered;
    r' := r;
    if r'.bits < Extra(e) {
      r' := Pull(input, r', x, bits0, c);
      if r'.bits < Extra(e) {
        r' := Pull(input, r', x, bits0, c);
      }
    }
    var low := Low(r', Extra(e), x, bits0, c);
    dist := e.val + low;
    r' := Drop(r', Extra(e), x, bits0, c);
  }

  datatype Mode = LEN | TYPE | BAD

  /** How a step of inflate_fast stands to a step of the specification. */
  ghost predicate Agrees(mode: Mode, c: nat, all: seq<uch>, o: Outcome) {
    match mode
    case LEN => o == Going(c, all)
    case TYPE => o == Ended(c, all)
    case BAD => o == Bad(c, all)
  }

  /** The second half of a match, and its copy. start is where the input was when the step began. */
  method DoMatch(t: Tables, window: array<uch>, whave: nat, wnext: nat, input: seq<byte>, r: Reader, out: array<uch>,
        pos: nat, len: nat, ghost x: nat, ghost bits0: nat, ghost c: nat, ghost start: nat)
      returns (mode: Mode, r': Reader, pos': nat, ghost c': nat)
    requires ProperTables(t) && window != out && ProperWindow(window[..], whave, wnext)
    requires Source(x, bits0, input) && Buffered(x, bits0, c, r) && c <= bits0 + 8 * start + 20
    requires start + 6 <= |input| && r.pos <= start + 6 && 1 <= len <= MAX_MATCH && pos + MAX_MATCH <= out.Length
    requires r.bits <= 30
    modifies out
    ensures out[..pos] == old(out[..pos]) && pos <= pos' <= pos + MAX_MATCH
    ensures var hist := History(window[..], whave, wnext);
            Agrees(mode, c', hist + out[..pos'], Distance(t, x, c, hist + old(out[..pos]), len))
    ensures Buffered(x, bits0, c', r') && r'.pos <= start + 6 && r'.bits <= 30 && (mode == LEN ==> pos' > pos)
  {
    hide Slice, Pow2, Source, History, Decode, Copy;
    ghost var hist := History(window[..], whave, wnext);
    HistoryLength(window[..], whave, wnext);
    r' := Need15(input, r, x, bits0, c);
    var d;
    d, r', c' := DecodeCode(t.dcode, t.distbits, r', x, bits0, c, 1, 13, 0x8000);
    pos' := pos;
    if !IsBase(d) {
      return BAD, r', pos', c';
    }
    var dist;
    dist, r' := ReadDistance(input, d, r', x, bits0, c');
    c' := c' + Extra(d);
    if dist > pos + whave {
      return BAD, r', pos', c';
    }
    CopyMatch(window, whave, wnext, out, pos, dist, len);
    pos' := pos + len;
    mode := LEN;
  }

  /** One step: at most six bytes are read and at most 258 are written, and hold stays below 2^31. */
  method DoSymbol(t: Tables, window: array<uch>, whave: nat, wnext: nat, input: seq<byte>, r: Reader, out: array<uch>,
        pos: nat, ghost x: nat, ghost bits0: nat, ghost c: nat)
      returns (mode: Mode, r': Reader, pos': nat, ghost c': nat)
    requires ProperTables(t) && window != out && ProperWindow(window[..], whave, wnext)
    requires Source(x, bits0, input) && Buffered(x, bits0, c, r)
    requires r.pos + 6 <= |input| && pos + MAX_MATCH <= out.Length && r.bits <= 30
    modifies out
    ensures out[..pos] == old(out[..pos]) && pos <= pos' <= pos + MAX_MATCH
    ensures var hist := History(window[..], whave, wnext);
            Agrees(mode, c', hist + out[..pos'], Step(t, x, c, hist + old(out[..pos])))
    ensures Buffered(x, bits0, c', r') && r'.pos <= r.pos + 6 && r'.bits <= 30 && (mode == LEN ==> pos' > pos)
  {
    hide Slice, Pow2, Source, History, Decode, Distance;
    ghost var hist := History(window[..], whave, wnext);
    var e;
    r' := Need15(input, r, x, bits0, c);
    e, r', c' := DecodeCode(t.lcode, t.lenbits, r', x, bits0, c, MIN_MATCH, 5, MAX_MATCH);
    pos' := pos;
    if IsLiteral(e) {
      out[pos] := ToByte(e.val);
      pos' := pos + 1;
      assert hist + out[..pos'] == hist + old(out[..pos]) + [ToByte(e.val)];
      mode := LEN;
    } else if IsBase(e) {
      var len;
      len, r' := ReadLength(input, e, r', x, bits0, c');
      c' := c' + Extra(e);
      ExtraSmall(x, c' - Extra(e), Extra(e));
      mode, r', pos', c' := DoMatch(t, window, whave, wnext, input, r', out, pos, len, x, bits0, c', r.pos);
    } else if IsEnd(e) {
      mode := TYPE;
    } else {
      mode := BAD;
    }
  }

  lemma ExtraSmall(x: nat, c: nat, n: nat)
    ensures Slice(x, c, n) <= Pow2(n) - 1
  {
  }

  /** Whole bytes that are left over go back to the input. */
  method GiveBack(r: Reader, ghost x: nat, ghost bits0: nat, ghost c: nat) returns (r': Reader)
    requires Buffered(x, bits0, c, r) && bits0 < 8
    ensures Buffered(x, bits0, c, r') && r'.bits < 8 && r'.pos <= r.pos
    ensures r'.bits + 8 * (r.pos - r'.pos) == r.bits
  {
    hide Slice, Pow2;
    var len := r.bits / 8;
    var bits := r.bits - 8 * len;
    SliceSplits(x, c, bits, 8 * len);
    PowPositive(bits);
    r' := Reader(r.pos - len, r.hold % Pow2(bits), bits);
  }

  /** inflate_fast, with the output from the start of inflate's call on in out. It makes at least one step
      of the specification and ends as that does; what has not been used of the input, with the bits in
      hold before it, begins exactly where the last step ended. */
  method InflateFast(t: Tables, window: array<uch>, whave: nat, wnext: nat, input: seq<byte>, hold: nat, bits: nat,
        out: array<uch>, pos: nat) returns (mode: Mode, r: Reader, pos': nat, ghost n: nat, ghost c: nat)
    requires ProperTables(t) && window != out && ProperWindow(window[..], whave, wnext)
    requires bits < 8 && hold < Pow2(bits) && 6 <= |input| && pos + MAX_MATCH <= out.Length
    modifies out
    ensures out[..pos] == old(out[..pos]) && pos <= pos' <= out.Length && n >= 1
    ensures var hist := History(window[..], whave, wnext);
            Agrees(mode, c, hist + out[..pos'],
                   Steps(t, Total(hold, bits, input), 0, hist + old(out[..pos]), n))
    ensures r.bits < 8 && r.pos <= |input| && c + r.bits == bits + 8 * r.pos
    ensures r.hold == Slice(Total(hold, bits, input), c, r.bits)
    ensures mode == LEN ==> 8 * (|input| - r.pos) + r.bits <= 70 || out.Length - pos' < MAX_MATCH
  {
    hide Slice, Pow2, Source, History, Step, Total, ProperTables;
    ghost var x := Total(hold, bits, input);
    ghost var hist := History(window[..], whave, wnext);
    ghost var all := hist + out[..pos];
    TotalIsSource(hold, bits, input);
    r, pos', c, n, mode := Reader(0, hold, bits), pos, 0, 0, LEN;
    while true
      invariant mode == LEN && r.pos + 6 <= |input| && pos' + MAX_MATCH <= out.Length && pos <= pos'
      invariant Buffered(x, bits, c, r) && r.bits <= 30 && out[..pos] == old(out[..pos])
      invariant Steps(t, x, 0, all, n) == Going(c, hist + out[..pos'])
      decreases out.Length - pos'
    {
      mode, r, pos', c := DoSymbol(t, window, whave, wnext, input, r, out, pos', x, bits, c);
      n := n + 1;
      if mode != LEN || r.pos >= |input| - 5 || pos' >= out.Length - 257 {
        break;
      }
    }
    r := GiveBack(r, x, bits, c);
  }
}
