/** The selectors: move-to-front indices, sent in unary. */
module Selectors {
  import opened Bytes
  import opened BitStrings
  import opened BitIo
  import opened MtfCoding

  /** All of list is below n, and everything below n is in it. */
  ghost predicate Choices(list: seq<int>, n: int) {
    && |list| == n
    && (forall i :: 0 <= i < n ==> 0 <= list[i] < n)
    && forall v :: 0 <= v < n ==> v in list
  }

  lemma ChoicesMoved(list: seq<int>, n: int, j: int)
    requires Choices(list, n) && 0 <= j < n
    ensures Choices(ToFront(list, j), n)
  {
    forall v | 0 <= v < n ensures v in ToFront(list, j) { ToFrontKeepsElements(list, j, v); }
  }

  lemma ChoicesAtStart(n: int)
    requires n >= 0
    ensures Choices(Identity(n), n)
  {
    forall v | 0 <= v < n ensures v in Identity(n) { assert Identity(n)[v] == v; }
  }

  /** The indices of sel[i..] in a list that is moved to front. */
  ghost function Indices(sel: seq<int>, i: int, pos: seq<int>): (r: seq<int>)
    requires 0 <= i <= |sel| && Choices(pos, |pos|) && forall k :: 0 <= k < |sel| ==> 0 <= sel[k] < |pos|
    ensures |r| == |sel| - i && forall k :: 0 <= k < |r| ==> 0 <= r[k] < |pos|
    decreases |sel| - i
  {
    if i == |sel| then []
    else
      var j := IndexIn(pos, sel[i]);
      ChoicesMoved(pos, |pos|, j);
      [j] + Indices(sel, i + 1, ToFront(pos, j))
  }

  /** The way back. */
  ghost function Chosen(mtf: seq<int>, i: int, pos: seq<int>): (r: seq<int>)
    requires 0 <= i <= |mtf| && forall k :: 0 <= k < |mtf| ==> 0 <= mtf[k] < |pos|
    ensures |r| == |mtf| - i
    decreases |mtf| - i
  {
    if i == |mtf| then [] else [pos[mtf[i]]] + Chosen(mtf, i + 1, ToFront(pos, mtf[i]))
  }

  /** The selectors come back. */
  lemma {:induction false} SelectorRoundTrip(sel: seq<int>, i: int, pos: seq<int>, mtf: seq<int>, k: int)
    requires 0 <= i <= |sel| && Choices(pos, |pos|) && forall k :: 0 <= k < |sel| ==> 0 <= sel[k] < |pos|
    requires 0 <= k <= |mtf| && mtf[k..] == Indices(sel, i, pos) && forall q :: 0 <= q < |mtf| ==> 0 <= mtf[q] < |pos|
    ensures Chosen(mtf, k, pos) == sel[i..]
    decreases |sel| - i
  {
    if i < |sel| {
      var j := IndexIn(pos, sel[i]);
      ChoicesMoved(pos, |pos|, j);
      assert mtf[k] == mtf[k..][0] == j;
      assert mtf[k + 1..] == mtf[k..][1..] == Indices(sel, i + 1, ToFront(pos, j));
      SelectorRoundTrip(sel, i + 1, ToFront(pos, j), mtf, k + 1);
      assert sel[i..] == [sel[i]] + sel[i + 1..];
    }
  }

  /** Find a selector in the list and move it to the front. */
  method FindSelector(pos: array<int>, nGroups: int, ll: int) returns (j: int)
    requires 0 < nGroups <= pos.Length && ll in pos[..nGroups]
    modifies pos
    ensures j == IndexIn(old(pos[..nGroups]), ll)
    ensures pos[..nGroups] == ToFront(old(pos[..nGroups]), j)
  {
    ghost var list := pos[..nGroups];
    ghost var at := IndexIn(list, ll);
    j := 0;
    var tmp := pos[j];
    while ll != tmp
      invariant 0 <= j <= at && tmp == list[j]
      invariant forall k :: 1 <= k <= j ==> pos[k] == list[k - 1]
      invariant forall k :: j < k < nGroups ==> pos[k] == list[k]
      decreases at - j
    {
      j := j + 1;
      var tmp2 := tmp;
      tmp := pos[j];
      pos[j] := tmp2;
    }
    pos[0] := tmp;
    MovedToFront(list, pos[..nGroups], j);
  }

  lemma MovedToFront(list: seq<int>, now: seq<int>, j: int)
    requires 0 <= j < |list| == |now| && now[0] == list[j]
    requires (forall k :: 1 <= k <= j ==> now[k] == list[k - 1]) && forall k :: j < k < |list| ==> now[k] == list[k]
    ensures now == ToFront(list, j)
  {
  }

  /** Compute the MTF values for the selectors. */
  method ComputeMtf(selector: seq<int>, nGroups: int) returns (selectorMtf: seq<int>)
    requires 0 < nGroups <= 6 && forall k :: 0 <= k < |selector| ==> 0 <= selector[k] < nGroups
    ensures Choices(Identity(nGroups), nGroups) && selectorMtf == Indices(selector, 0, Identity(nGroups))
  {
    hide Indices;
    ChoicesAtStart(nGroups);
    var pos := new int[6](i => i);
    assert pos[..nGroups] == Identity(nGroups);
    selectorMtf := [];
    ghost var goal := Indices(selector, 0, Identity(nGroups));
    assert [] + goal == goal;
    for i := 0 to |selector|
      invariant Choices(pos[..nGroups], nGroups)
      invariant selectorMtf + Indices(selector, i, pos[..nGroups]) == goal
    {
      ghost var list := pos[..nGroups];
      IndicesStep(selector, i, list);
      var j := FindSelector(pos, nGroups, selector[i]);
      ChoicesMoved(list, nGroups, j);
      Associative(selectorMtf, [j], Indices(selector, i + 1, pos[..nGroups]));
      selectorMtf := selectorMtf + [j];
    }
    IndicesStep(selector, |selector|, pos[..nGroups]);
    assert selectorMtf + [] == selectorMtf;
  }

  lemma IndicesStep(sel: seq<int>, i: int, pos: seq<int>)
    requires 0 <= i <= |sel| && Choices(pos, |pos|) && forall k :: 0 <= k < |sel| ==> 0 <= sel[k] < |pos|
    ensures i == |sel| ==> Indices(sel, i, pos) == []
    ensures i < |sel| ==> Choices(ToFront(pos, IndexIn(pos, sel[i])), |pos|)
    ensures i < |sel| ==>
          Indices(sel, i, pos) == [IndexIn(pos, sel[i])] + Indices(sel, i + 1, ToFront(pos, IndexIn(pos, sel[i])))
  {
    if i < |sel| { ChoicesMoved(pos, |pos|, IndexIn(pos, sel[i])); }
  }

  /** BZ_MAX_SELECTORS: the size of both selector arrays of the decoder. */
  const MAX_SELECTORS := 2 + 900000 / 50

  /** Undo the MTF values for the selectors. */
  method UndoMtf(selectorMtf: array<byte>, selector: array<byte>, nSelectors: int, nGroups: int)
    requires selectorMtf != selector && 0 <= nSelectors <= selectorMtf.Length && nSelectors <= selector.Length
    requires 0 < nGroups <= 6 && forall k :: 0 <= k < nSelectors ==> 0 <= selectorMtf[k] < nGroups
    modifies selector
    ensures selector[..nSelectors] == Chosen(selectorMtf[..nSelectors], 0, Identity(nGroups))
    ensures forall k :: 0 <= k < nSelectors ==> 0 <= selector[k] < nGroups
  {
    hide Chosen;
    var pos := new int[6](i => i);
    assert pos[..nGroups] == Identity(nGroups);
    ghost var mtf := selectorMtf[..nSelectors];
    ghost var goal := Chosen(mtf, 0, Identity(nGroups));
    assert selector[..0] + goal == goal;
    for i := 0 to nSelectors
      invariant forall k :: 0 <= k < nGroups ==> 0 <= pos[k] < nGroups
      invariant forall k :: 0 <= k < i ==> 0 <= selector[k] < nGroups
      invariant selector[..i] + Chosen(mtf, i, pos[..nGroups]) == goal
    {
      ghost var list, front := pos[..nGroups], selector[..i];
      ChosenStep(mtf, i, list);
      var tmp := BringToFront(pos, nGroups, selectorMtf[i]);
      Associative(front, [tmp], Chosen(mtf, i + 1, pos[..nGroups]));
      selector[i] := tmp;
      assert selector[..i + 1] == front + [tmp];
    }
    ChosenStep(mtf, nSelectors, pos[..nGroups]);
    assert selector[..nSelectors] + [] == selector[..nSelectors];
  }

  lemma ChosenStep(mtf: seq<int>, i: int, pos: seq<int>)
    requires 0 <= i <= |mtf| && forall k :: 0 <= k < |mtf| ==> 0 <= mtf[k] < |pos|
    ensures i == |mtf| ==> Chosen(mtf, i, pos) == []
    ensures i < |mtf| ==> Chosen(mtf, i, pos) == [pos[mtf[i]]] + Chosen(mtf, i + 1, ToFront(pos, mtf[i]))
  {
  }

  method BringToFront(pos: array<int>, nGroups: int, v0: int) returns (tmp: int)
    requires 0 <= v0 < nGroups <= pos.Length && forall k :: 0 <= k < nGroups ==> 0 <= pos[k] < nGroups
    modifies pos
    ensures tmp == old(pos[v0]) && pos[..nGroups] == ToFront(old(pos[..nGroups]), v0)
    ensures forall k :: 0 <= k < nGroups ==> 0 <= pos[k] < nGroups
  {
    ghost var list := pos[..nGroups];
    var v := v0;
    tmp := pos[v];
    while v > 0
      invariant 0 <= v <= v0
      invariant forall k :: v < k <= v0 ==> pos[k] == list[k - 1]
      invariant forall k :: 0 <= k <= v || v0 < k < nGroups ==> pos[k] == list[k]
    {
      pos[v] := pos[v - 1];
      v := v - 1;
    }
    pos[0] := tmp;
    assert pos[..nGroups] == ToFront(list, v0);
  }

  ghost function Ones(n: nat): (r: seq<bit>)
    ensures |r| == n
  {
    if n == 0 then [] else [1] + Ones(n - 1)
  }

  /** mtf[i..] in unary. */
  ghost function UnaryBits(mtf: seq<int>, i: int): seq<bit>
    requires 0 <= i <= |mtf| && forall k :: 0 <= k < |mtf| ==> mtf[k] >= 0
    decreases |mtf| - i
  {
    if i == |mtf| then [] else Ones(mtf[i]) + ([0] + UnaryBits(mtf, i + 1))
  }

  lemma UnaryStep(mtf: seq<int>, i: int)
    requires 0 <= i <= |mtf| && forall k :: 0 <= k < |mtf| ==> mtf[k] >= 0
    ensures i == |mtf| ==> UnaryBits(mtf, i) == []
    ensures i < |mtf| ==> UnaryBits(mtf, i) == Ones(mtf[i]) + ([0] + UnaryBits(mtf, i + 1))
  {
  }

  /** j ones, and the rest of the bits. */
  method SendOnes(w: BitWriter, n: nat)
    requires w.Valid()
    modifies w
    ensures w.Valid() && w.sent == old(w.sent) && w.Written() == old(w.Written()) + Ones(n)
  {
    hide BitWriter.Valid, BitWriter.Written;
    ghost var was := w.Written();
    for j := 0 to n
      invariant w.Valid() && w.sent == old(w.sent) && w.Written() + Ones(n - j) == was + Ones(n)
    {
      Associative(w.Written(), [1], Ones(n - j - 1));
      w.PutBit(1);
    }
    assert w.Written() + [] == w.Written();
  }

  /** Transmit the selectors. */
  method Send(w: BitWriter, selectorMtf: seq<int>)
    requires w.Valid() && forall k :: 0 <= k < |selectorMtf| ==> selectorMtf[k] >= 0
    modifies w
    ensures w.Valid() && w.sent == old(w.sent) && w.Written() == old(w.Written()) + UnaryBits(selectorMtf, 0)
  {
    hide BitWriter.Valid, BitWriter.Written, UnaryBits, Ones;
    ghost var goal := w.Written() + UnaryBits(selectorMtf, 0);
    for i := 0 to |selectorMtf|
      invariant w.Valid() && w.sent == old(w.sent) && w.Written() + UnaryBits(selectorMtf, i) == goal
    {
      UnaryStep(selectorMtf, i);
      Associative(w.Written(), Ones(selectorMtf[i]), [0] + UnaryBits(selectorMtf, i + 1));
      Associative(w.Written() + Ones(selectorMtf[i]), [0], UnaryBits(selectorMtf, i + 1));
      SendOnes(w, selectorMtf[i]);
      w.PutBit(0);
    }
    UnaryStep(selectorMtf, |selectorMtf|);
    assert w.Written() + [] == w.Written();
  }

  /** One value in unary, below nGroups. */
  method ReceiveOne(r: BitReader, nGroups: int, ghost n: nat, ghost more: seq<bit>) returns (ok: bool, j: int)
    requires r.Valid() && nGroups > 0
    modifies r
    ensures r.Valid() && (ok ==> 0 <= j < nGroups)
    ensures r.Onward()
    ensures n < nGroups && old(r.Remaining()) == Ones(n) + ([0] + more) ==> ok && j == n && r.Remaining() == more
  {
    hide BitReader.Valid, BitReader.Remaining, BitReader.Delivered;
    ghost var good := n < nGroups && r.Remaining() == Ones(n) + ([0] + more);
    j := 0;
    while true
      invariant r.Valid() && r.Onward() && 0 <= j < nGroups
      invariant (good ==> j <= n && r.Remaining() == Ones(n - j) + ([0] + more))
      decreases |r.Remaining()|
    {
      ghost var b: bit := if j < n then 1 else 0;
      ghost var left := if j < n then Ones(n - j - 1) + ([0] + more) else more;
      if j < n { Associative([1], Ones(n - j - 1), [0] + more); } else { assert [] + ([0] + more) == [0] + more; }
      var uc;
      ok, uc := NextBit(r, b, left);
      if !ok { return; }
      if uc == 0 { break; }
      j := j + 1;
      if j >= nGroups { return false, j; }
    }
    ok := true;
  }

  /** Receive nSelectors values in unary. The number is not checked against the size of the array:
      inBounds is false from where the source would write past it. An input that has that many
      values keeps it in bounds if and only if there are at most MAX_SELECTORS. */
  method Receive(r: BitReader, selectorMtf: array<byte>, nSelectors: int, nGroups: int, ghost mtf: seq<int>,
        ghost rest: seq<bit>)
    returns (ok: bool, inBounds: bool)
    requires r.Valid() && 0 < nGroups <= 6 && nSelectors >= 0 && selectorMtf.Length == MAX_SELECTORS
    requires forall k :: 0 <= k < |mtf| ==> 0 <= mtf[k] < nGroups
    modifies r, selectorMtf
    ensures r.Valid() && r.Onward() && (ok ==> inBounds)
    ensures ok ==> nSelectors <= MAX_SELECTORS && forall k :: 0 <= k < nSelectors ==> 0 <= selectorMtf[k] < nGroups
    ensures !inBounds ==> nSelectors > MAX_SELECTORS
    ensures |mtf| == nSelectors && old(r.Remaining()) == UnaryBits(mtf, 0) + rest
            ==> (inBounds <==> nSelectors <= MAX_SELECTORS)
                && (inBounds ==> ok && selectorMtf[..nSelectors] == mtf && r.Remaining() == rest)
  {
    hide BitReader.Valid, BitReader.Remaining, BitReader.Delivered, UnaryBits, Ones;
    ghost var good := |mtf| == nSelectors && r.Remaining() == UnaryBits(mtf, 0) + rest;
    inBounds := true;
    for i := 0 to nSelectors
      invariant r.Valid() && r.Onward()
      invariant i <= MAX_SELECTORS && forall k :: 0 <= k < i ==> 0 <= selectorMtf[k] < nGroups
      invariant good ==> selectorMtf[..i] == mtf[..i] && r.Remaining() == UnaryBits(mtf, i) + rest
    {
      ghost var n, more := 0, [];
      if good {
        n, more := mtf[i], UnaryBits(mtf, i + 1) + rest;
        UnaryStep(mtf, i);
        Associative([0], UnaryBits(mtf, i + 1), rest);
        Associative(Ones(mtf[i]), [0] + UnaryBits(mtf, i + 1), rest);
      }
      var j;
      ok, j := ReceiveOne(r, nGroups, n, more);
      if !ok { return; }
      if i == MAX_SELECTORS { return false, false; }
      ghost var front := selectorMtf[..i];
      selectorMtf[i] := j;
      assert selectorMtf[..i + 1] == front + [j];
    }
    if good { UnaryStep(mtf, nSelectors); assert [] + rest == rest; }
    ok := true;
  }

  /** Too many selectors can be asked for: 18003 of them, all the first table, in an input that is
      otherwise in order. */
  lemma TooManySelectors() returns (mtf: seq<int>)
    ensures MAX_SELECTORS < |mtf| < 32768 && forall k :: 0 <= k < |mtf| ==> 0 <= mtf[k] < 2
    ensures UnaryBits(mtf, 0) == seq(18003, _ => 0)
  {
    mtf := seq(18003, _ => 0);
    AllZero(mtf, 0);
  }

  lemma {:induction false} AllZero(mtf: seq<int>, i: int)
    requires 0 <= i <= |mtf| && forall k :: 0 <= k < |mtf| ==> mtf[k] == 0
    ensures UnaryBits(mtf, i) == seq(|mtf| - i, _ => 0)
    decreases |mtf| - i
  {
    if i < |mtf| { AllZero(mtf, i + 1); }
  }
}
