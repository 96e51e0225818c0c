/** inftrees.h and inffast.c: decoding tables by their meaning, and what one code after another stands
    for. Bits are numbered from the first one of the input, in a number that holds all of them. */
module InflateTables {
  import opened BitSlices
  import opened Bytes
  import opened Lz77

  /** An entry of a decoding table. */
  datatype Code = Code(op: nat, bits: nat, val: nat)

  predicate IsLiteral(e: Code) {
    e.op == 0
  }

  /** (op & 16) != 0: a base length or distance; the low four bits of op are the number of extra bits. */
  predicate IsBase(e: Code) {
    (e.op / 16) % 2 == 1
  }

  /** Neither of these, and (op & 64) == 0: a link to a second table, op its number of index bits. */
  predicate IsLink(e: Code) {
    e.op != 0 && (e.op / 16) % 2 == 0 && (e.op / 64) % 2 == 0
  }

  /** (op & 32) != 0 */
  predicate IsEnd(e: Code) {
    (e.op / 32) % 2 == 1
  }

  function Extra(e: Code): nat {
    e.op % 16
  }

  /** An entry that is no link: a code of at most budget bits, and a base with its range. */
  ghost predicate Leaf(e: Code, budget: nat, least: nat, maxExtra: nat, most: nat) {
    !IsLink(e) && e.bits <= budget &&
    (IsBase(e) ==> Extra(e) <= maxExtra && least <= e.val && e.val + Pow2(Extra(e)) - 1 <= most)
  }

  /** An entry of the first table. */
  ghost predicate Entry(t: seq<Code>, e: Code, least: nat, maxExtra: nat, most: nat) {
    if IsLink(e) then
      && e.bits + e.op <= 15 && e.val + Pow2(e.op) <= |t|
      && forall j :: e.val <= j < e.val + Pow2(e.op) ==> Leaf(t[j], 15 - e.bits, least, maxExtra, most)
    else Leaf(e, 15, least, maxExtra, most)
  }

  /** A table whose codes take at most 15 bits, the first root of them its index. */
  ghost predicate ProperTable(t: seq<Code>, root: nat, least: nat, maxExtra: nat, most: nat) {
    root <= 15 && Pow2(root) <= |t| && forall i :: 0 <= i < Pow2(root) ==> Entry(t, t[i], least, maxExtra, most)
  }

  datatype Tables = Tables(lcode: seq<Code>, lenbits: nat, dcode: seq<Code>, distbits: nat)

  /** Lengths of 3 to 258 with at most 5 extra bits, and distances with at most 13; a distance table has
      no literals. */
  ghost predicate ProperTables(t: Tables) {
    ProperTable(t.lcode, t.lenbits, MIN_MATCH, 5, MAX_MATCH) && ProperTable(t.dcode, t.distbits, 1, 13, 0x8000)
    && forall i :: 0 <= i < |t.dcode| ==> !IsLiteral(t.dcode[i])
  }

  /** The entry for the code that begins at bit c, and where it ends. */
  ghost function Decode(t: seq<Code>, root: nat, x: nat, c: nat, least: nat, maxExtra: nat, most: nat): (r: (Code, nat))
    requires ProperTable(t, root, least, maxExtra, most)
    ensures Leaf(r.0, 15, least, maxExtra, most) && c <= r.1 <= c + 15
  {
    var e := t[Slice(x, c, root)];
    assert Entry(t, e, least, maxExtra, most);
    if IsLink(e) then
      var e' := t[e.val + Slice(x, c + e.bits, e.op)];
      (e', c + e.bits + e'.bits)
    else (e, c + e.bits)
  }

  /** What has been decoded up to bit c, and whether the block is at its end or the data are bad. */
  datatype Outcome = Going(c: nat, all: seq<uch>) | Ended(c: nat, all: seq<uch>) | Bad(c: nat, all: seq<uch>)

  function Narrow(i: nat): uch
    requires i < 256
  {
    i as bv8
  }

  /** (unsigned char)val */
  function ToByte(val: nat): uch {
    Narrow(val % 256)
  }

  /** One literal, one match, or the end: section 3.2.3 of RFC 1951. */
  ghost function Step(t: Tables, x: nat, c: nat, all: seq<uch>): Outcome
    requires ProperTables(t)
  {
    var (e, c1) := Decode(t.lcode, t.lenbits, x, c, MIN_MATCH, 5, MAX_MATCH);
    if IsLiteral(e) then Going(c1, all + [ToByte(e.val)])
    else if IsBase(e) then Distance(t, x, c1 + Extra(e), all, e.val + Slice(x, c1, Extra(e)))
    else if IsEnd(e) then Ended(c1, all)
    else Bad(c1, all)
  }

  /** The second half of a match. */
  ghost function Distance(t: Tables, x: nat, c: nat, all: seq<uch>, len: nat): Outcome
    requires ProperTables(t)
  {
    var (d, c1) := Decode(t.dcode, t.distbits, x, c, 1, 13, 0x8000);
    if IsBase(d) then
      var dist := d.val + Slice(x, c1, Extra(d));
      if dist <= |all| then Going(c1 + Extra(d), Copy(all, dist, len)) else Bad(c1 + Extra(d), all)
    else Bad(c1, all)
  }

  /** n steps, if so many can be made. */
  ghost function Steps(t: Tables, x: nat, c: nat, all: seq<uch>, n: nat): Outcome
    requires ProperTables(t)
  {
    if n == 0 then Going(c, all)
    else
      match Steps(t, x, c, all, n - 1)
      case Going(c', all') => Step(t, x, c', all')
      case other => other
  }
}
