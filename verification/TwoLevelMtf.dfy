/** The decoder's move-to-front list of 256 bytes: 16 segments of 16 in an array of 4096, each
    starting at its own base, so that moving an element costs one shift per segment. */
module TwoLevelMtf {
  import opened MtfCoding

  /** The segments lie in the array one behind the other, possibly with gaps. */
  ghost predicate Layout(base: seq<int>) {
    && |base| == 16
    && (forall s :: 0 <= s < 16 ==> 0 <= base[s] <= 4080)
    && (forall s, t :: 0 <= s < t < 16 ==> base[s] + 16 <= base[t])
  }

  /** The segment that starts at p holds the elements of the list that belong in segment s. */
  ghost predicate Part(a: seq<int>, p: int, list: seq<int>, s: int) {
    && |a| == 4096 && |list| == 256 && 0 <= s < 16 && 0 <= p <= 4080
    && a[p..p + 16] == list[16 * s..16 * s + 16]
  }

  ghost predicate PartButFirst(a: seq<int>, p: int, list: seq<int>, s: int) {
    && |a| == 4096 && |list| == 256 && 0 <= s < 16 && 0 <= p <= 4080
    && forall k :: p < k < p + 16 ==> a[k] == list[16 * s + (k - p)]
  }

  ghost predicate Holds(a: seq<int>, base: seq<int>, list: seq<int>) {
    && |a| == 4096 && |list| == 256 && Layout(base)
    && forall s :: 0 <= s < 16 ==> Part(a, base[s], list, s)
  }

  lemma PartAt(a: seq<int>, p: int, list: seq<int>, s: int, i: int)
    requires Part(a, p, list, s) && 0 <= i < 16
    ensures a[p + i] == list[16 * s + i]
  {
    assert a[p..p + 16][i] == list[16 * s..16 * s + 16][i];
  }

  lemma PartFrom(a: seq<int>, p: int, list: seq<int>, s: int)
    requires |a| == 4096 && |list| == 256 && 0 <= s < 16 && 0 <= p <= 4080
    requires forall i :: p <= i < p + 16 ==> a[i] == list[16 * s + (i - p)]
    ensures Part(a, p, list, s)
  {
  }

  /** A write outside a segment leaves it alone. */
  lemma PartKept(a: seq<int>, p: int, list: seq<int>, s: int, a': seq<int>)
    requires Part(a, p, list, s) && |a'| == |a|
    requires forall i :: p <= i < p + 16 ==> a'[i] == a[i]
    ensures Part(a', p, list, s)
  {
    assert a'[p..p + 16] == a[p..p + 16];
  }

  /** Segments may be as high as their place in a contiguous list at the top, not higher. */
  lemma {:induction false} LayoutHigh(base: seq<int>, s: int)
    requires Layout(base) && 0 <= s < 16
    ensures base[s] <= 3840 + 16 * s
    decreases 16 - s
  {
    if s < 15 { LayoutHigh(base, s + 1); }
  }

  /** How far segment s has been moved when the carry of an element from l0 has come down to l. */
  ghost function Moved(s: int, l: int, l0: int): int {
    if s == l && l == l0 then 1 else if l < s < l0 then -1 else 0
  }

  /** The carry: segments above l hold the new list, those below still the old one. */
  ghost predicate Carrying(a: seq<int>, base: seq<int>, base0: seq<int>, list: seq<int>, new_: seq<int>, l: int,
        l0: int) {
    && |a| == 4096 && |base| == 16 && Layout(base0) && base0[0] > 0 && |list| == |new_| == 256 && 0 <= l <= l0 < 16
    && (forall s :: 0 <= s < 16 ==> base[s] == base0[s] + Moved(s, l, l0))
    && (forall s :: 0 <= s <= l && s < l0 ==> Part(a, base0[s], list, s))
    && (l == l0 ==> PartButFirst(a, base0[l], new_, l))
    && (forall s :: l < s < 16 ==> Part(a, base[s], new_, s))
  }

  /** One turn of the carry: segment l takes over the last element of the segment below. */
  lemma CarryStep(a: seq<int>, base: seq<int>, base0: seq<int>, list: seq<int>, nn: int, l: int,
                  base': seq<int>, a': seq<int>)
    requires |list| == 256 && 16 <= nn < 256 && 0 < l <= nn / 16
    requires Carrying(a, base, base0, list, ToFront(list, nn), l, nn / 16)
    requires base' == base[l := base[l] - 1]
    requires 0 <= base'[l] < 4096 && 0 <= base[l - 1] < 4080 && a' == a[base'[l] := a[base[l - 1] + 15]]
    ensures Carrying(a', base', base0, list, ToFront(list, nn), l - 1, nn / 16)
  {
    var l0, nl, w := nn / 16, ToFront(list, nn), base'[l];
    hide ToFront;
    assert base[l - 1] == base0[l - 1] && base0[l - 1] + 16 <= base0[l];
    PartAt(a, base0[l - 1], list, l - 1, 15);
    assert a'[w] == list[16 * l - 1];
    forall s | 0 <= s <= l - 1 && s < l0 ensures Part(a', base0[s], list, s) {
      assert s < l - 1 ==> base0[s] + 16 <= base0[l - 1];
      PartKept(a, base0[s], list, s, a');
    }
    forall s | l < s < 16 ensures Part(a', base'[s], nl, s) {
      assert base0[l] + 16 <= base0[s];
      PartKept(a, base'[s], nl, s, a');
    }
    CarriedSegment(a, a', base0[l], list, nn, l, w);
  }

  /** Segment l is complete once its first element has been put in place. */
  lemma CarriedSegment(a: seq<int>, a': seq<int>, p: int, list: seq<int>, nn: int, l: int, w: int)
    requires |a| == |a'| == 4096 && |list| == 256 && 16 <= nn < 256 && 0 < l <= nn / 16 && 0 <= p <= 4080
    requires w == (if l == nn / 16 then p else p - 1) && 0 <= w
    requires forall k :: 0 <= k < 4096 && k != w ==> a'[k] == a[k]
    requires a'[w] == list[16 * l - 1]
    requires l == nn / 16 ==> PartButFirst(a, p, ToFront(list, nn), l)
    requires l < nn / 16 ==> Part(a, p, list, l)
    ensures Part(a', w, ToFront(list, nn), l)
  {
    forall k | w <= k < w + 16 ensures a'[k] == ToFront(list, nn)[16 * l + (k - w)] {
      if l < nn / 16 && k > w { PartAt(a, p, list, l, k - p); }
    }
    PartFrom(a', w, ToFront(list, nn), l);
  }

  /** The end of the carry: the element itself goes in front of segment 0. */
  lemma CarryEnds(a: seq<int>, base: seq<int>, base0: seq<int>, list: seq<int>, nn: int, base': seq<int>, a': seq<int>)
    requires |list| == 256 && 16 <= nn < 256
    requires Carrying(a, base, base0, list, ToFront(list, nn), 0, nn / 16)
    requires base' == base[0 := base[0] - 1]
    requires 0 <= base'[0] < 4096 && a' == a[base'[0] := list[nn]]
    ensures Holds(a', base', ToFront(list, nn))
  {
    var nl := ToFront(list, nn);
    assert Part(a, base0[0], list, 0);
    forall k | base'[0] <= k < base'[0] + 16 ensures a'[k] == nl[k - base'[0]] {
      if k > base'[0] { PartAt(a, base0[0], list, 0, k - base0[0]); }
    }
    PartFrom(a', base'[0], nl, 0);
    forall s | 0 < s < 16 ensures Part(a', base'[s], nl, s) {
      assert base0[0] + 16 <= base0[s];
      PartKept(a, base'[s], nl, s, a');
    }
    forall s, t | 0 <= s < t < 16 ensures base'[s] + 16 <= base'[t] {
      assert base0[s] + 16 <= base0[t];
    }
  }

  /** The shift that makes room at p, within a segment or up to the element taken out of it. */
  ghost predicate ShiftedUp(a: seq<int>, a': seq<int>, p: int, off: int) {
    && |a| == |a'| == 4096 && 0 <= p && 0 <= off < 16 && p + off < 4096
    && (forall k :: 0 <= k <= p || p + off < k < 4096 ==> a'[k] == a[k])
    && (forall k :: p < k <= p + off ==> a'[k] == a[k - 1])
  }

  /** An element of segment 0 needs no carry. */
  lemma FirstSegmentMoved(a: seq<int>, base: seq<int>, list: seq<int>, nn: int, a': seq<int>)
    requires Holds(a, base, list) && 0 <= nn < 16
    requires ShiftedUp(a, a', base[0], nn)
    ensures Holds(a'[base[0] := list[nn]], base, ToFront(list, nn))
  {
    var p, nl, b := base[0], ToFront(list, nn), a'[base[0] := list[nn]];
    assert Part(a, p, list, 0);
    forall k | p <= k < p + 16 ensures b[k] == nl[k - p] {
      PartAt(a, p, list, 0, k - p);
      if k > p { PartAt(a, p, list, 0, k - p - 1); }
    }
    PartFrom(b, p, nl, 0);
    forall s | 0 < s < 16 ensures Part(b, base[s], nl, s) {
      assert base[0] + 16 <= base[s] && Part(a, base[s], list, s);
      PartKept(a, base[s], list, s, b);
      assert nl[16 * s..16 * s + 16] == list[16 * s..16 * s + 16];
    }
  }

  /** Taking an element out of segment l0 > 0 starts the carry. */
  lemma CarryStarts(a: seq<int>, base: seq<int>, list: seq<int>, nn: int, a': seq<int>)
    requires Holds(a, base, list) && 16 <= nn < 256 && base[0] > 0
    requires ShiftedUp(a, a', base[nn / 16], nn % 16)
    ensures var l0 := nn / 16; Carrying(a', base[l0 := base[l0] + 1], base, list, ToFront(list, nn), l0, l0)
  {
    var l0, off, nl := nn / 16, nn % 16, ToFront(list, nn);
    var p := base[l0];
    assert Part(a, p, list, l0);
    forall k | p < k < p + 16 ensures a'[k] == nl[16 * l0 + (k - p)] {
      PartAt(a, p, list, l0, k - p);
      PartAt(a, p, list, l0, k - p - 1);
    }
    forall s | 0 <= s < l0 ensures Part(a', base[s], list, s) {
      assert base[s] + 16 <= base[l0] && Part(a, base[s], list, s);
      PartKept(a, base[s], list, s, a');
    }
    forall s | l0 < s < 16 ensures Part(a', base[s], nl, s) {
      assert base[l0] + 16 <= base[s] && Part(a, base[s], list, s);
      PartKept(a, base[s], list, s, a');
      assert nl[16 * s..16 * s + 16] == list[16 * s..16 * s + 16];
    }
  }

  /** Segments above ii have been laid out contiguously at the top. */
  ghost predicate LaidOut(a: seq<int>, base: seq<int>, base0: seq<int>, list: seq<int>, ii: int) {
    && |a| == 4096 && |base| == 16 && |list| == 256 && Layout(base0) && -1 <= ii < 16
    && (forall s :: 0 <= s <= ii ==> base[s] == base0[s] && Part(a, base[s], list, s))
    && (forall s :: ii < s < 16 ==> base[s] == 3840 + 16 * s && Part(a, base[s], list, s))
  }

  lemma LaidOutStep(a: seq<int>, base: seq<int>, base0: seq<int>, list: seq<int>, ii: int, a': seq<int>)
    requires LaidOut(a, base, base0, list, ii) && 0 <= ii && |a'| == 4096
    requires var q := 3840 + 16 * ii;
      && a'[q..q + 16] == a[base[ii]..base[ii] + 16]
      && forall k :: 0 <= k < q || q + 16 <= k < 4096 ==> a'[k] == a[k]
    ensures LaidOut(a', base[ii := 3840 + 16 * ii], base0, list, ii - 1)
  {
    var q := 3840 + 16 * ii;
    LayoutHigh(base0, ii);
    forall s | 0 <= s < ii ensures Part(a', base0[s], list, s) {
      assert base0[s] + 16 <= base0[ii];
      PartKept(a, base0[s], list, s, a');
    }
    forall s | ii < s < 16 ensures Part(a', 3840 + 16 * s, list, s) {
      assert base[s] == 3840 + 16 * s;
      PartKept(a, base[s], list, s, a');
    }
  }

  /** mtfa and mtfbase. The ghost field is the list they stand for. */
  class MtfList {
    const mtfa: array<int>
    const mtfbase: array<int>
    ghost var list: seq<int>

    ghost predicate Valid()
      reads this, mtfa, mtfbase
    {
      mtfa != mtfbase && mtfa.Length == 4096 && mtfbase.Length == 16
      && Holds(mtfa[..], mtfbase[..], list) && mtfbase[0] > 0
    }

    /** The list starts as 0, 1, ..., 255. */
    constructor ()
      ensures Valid() && list == Identity(256) && fresh(mtfa) && fresh(mtfbase)
    {
      mtfa, mtfbase := new int[4096], new int[16];
      new;
      var kk := 4095;
      var ii := 15;
      while ii >= 0
        invariant -1 <= ii <= 15 && kk == 3840 + 16 * ii + 15
        invariant forall s :: ii < s < 16 ==> mtfbase[s] == 3840 + 16 * s
        invariant forall k :: kk < k < 4096 ==> mtfa[k] == k - 3840
      {
        var jj := 15;
        while jj >= 0
          invariant -1 <= jj <= 15 && kk == 3840 + 16 * ii + jj
          invariant forall s :: ii < s < 16 ==> mtfbase[s] == 3840 + 16 * s
          invariant forall k :: kk < k < 4096 ==> mtfa[k] == k - 3840
        {
          assert 0 <= kk;
          mtfa[kk] := ii * 16 + jj;
          kk := kk - 1;
          jj := jj - 1;
        }
        mtfbase[ii] := kk + 1;
        ii := ii - 1;
      }
      list := Identity(256);
      forall s | 0 <= s < 16 ensures Part(mtfa[..], mtfbase[s], list, s) {
        PartFrom(mtfa[..], mtfbase[s], list, s);
      }
    }

    /** The element in front, as the run-length branch reads it. */
    method Front() returns (uc: int)
      requires Valid()
      ensures uc == list[0]
    {
      uc := mtfa[mtfbase[0]];
      PartAt(mtfa[..], mtfbase[0], list, 0, 0);
    }

    /** Shift mtfa[p .. p+off-1] up by one, four at a time while more than three are left. */
    method ShiftByFours(p: int, off: int)
      requires mtfa.Length == 4096 && 0 <= p && 0 <= off < 16 && p + off < 4096
      modifies mtfa
      ensures ShiftedUp(old(mtfa[..]), mtfa[..], p, off)
    {
      ghost var a := mtfa[..];
      var nn := off;
      while nn > 3
        invariant 0 <= nn <= off
        invariant forall k :: 0 <= k <= p + nn || p + off < k < 4096 ==> mtfa[k] == a[k]
        invariant forall k :: p + nn < k <= p + off ==> mtfa[k] == a[k - 1]
      {
        var z := p + nn;
        mtfa[z] := mtfa[z - 1];
        mtfa[z - 1] := mtfa[z - 2];
        mtfa[z - 2] := mtfa[z - 3];
        mtfa[z - 3] := mtfa[z - 4];
        nn := nn - 4;
      }
      while nn > 0
        invariant 0 <= nn <= off
        invariant forall k :: 0 <= k <= p + nn || p + off < k < 4096 ==> mtfa[k] == a[k]
        invariant forall k :: p + nn < k <= p + off ==> mtfa[k] == a[k - 1]
      {
        mtfa[p + nn] := mtfa[p + nn - 1];
        nn := nn - 1;
      }
    }

    /** The same one by one, down to the base of the segment. */
    method ShiftToBase(lno: int, off: int)
      requires mtfa.Length == 4096 && mtfbase.Length == 16 && mtfa != mtfbase && 0 <= lno < 16
      requires 0 <= mtfbase[lno] && 0 <= off < 16 && mtfbase[lno] + off < 4096
      modifies mtfa
      ensures ShiftedUp(old(mtfa[..]), mtfa[..], mtfbase[lno], off)
    {
      ghost var a := mtfa[..];
      var pp := mtfbase[lno] + off;
      while pp > mtfbase[lno]
        invariant mtfbase[lno] <= pp <= mtfbase[lno] + off
        invariant forall k :: 0 <= k <= pp || mtfbase[lno] + off < k < 4096 ==> mtfa[k] == a[k]
        invariant forall k :: pp < k <= mtfbase[lno] + off ==> mtfa[k] == a[k - 1]
      {
        mtfa[pp] := mtfa[pp - 1];
        pp := pp - 1;
      }
    }

    /** Carry the last element of every segment below into the next one. */
    method CarryDown(lno0: int, nn: int, ghost base0: seq<int>)
      requires mtfa != mtfbase && mtfa.Length == 4096 && mtfbase.Length == 16
      requires |list| == 256 && 16 <= nn < 256 && lno0 == nn / 16
      requires Carrying(mtfa[..], mtfbase[..], base0, list, ToFront(list, nn), lno0, lno0)
      modifies mtfa, mtfbase
      ensures Carrying(mtfa[..], mtfbase[..], base0, list, ToFront(list, nn), 0, lno0)
    {
      hide ToFront, Part, PartButFirst;
      var lno := lno0;
      while lno > 0
        invariant 0 <= lno <= lno0
        invariant Carrying(mtfa[..], mtfbase[..], base0, list, ToFront(list, nn), lno, lno0)
      {
        ghost var a, base := mtfa[..], mtfbase[..];
        assert base0[lno - 1] + 16 <= base0[lno];
        mtfbase[lno] := mtfbase[lno] - 1;
        mtfa[mtfbase[lno]] := mtfa[mtfbase[lno - 1] + 15];
        CarryStep(a, base, base0, list, nn, lno, mtfbase[..], mtfa[..]);
        lno := lno - 1;
      }
    }

    /** Move segment ii up to q, its last element first. */
    method MoveSegment(p: int, q: int)
      requires mtfa.Length == 4096 && 0 <= p <= q <= 4080
      modifies mtfa
      ensures mtfa[q..q + 16] == old(mtfa[p..p + 16])
      ensures forall k :: 0 <= k < q || q + 16 <= k < 4096 ==> mtfa[k] == old(mtfa[k])
    {
      ghost var a := mtfa[..];
      var kk, jj := q + 15, 15;
      while jj >= 0
        invariant -1 <= jj <= 15 && kk == q + jj
        invariant forall k :: 0 <= k <= kk || q + 16 <= k < 4096 ==> mtfa[k] == a[k]
        invariant forall k :: kk < k < q + 16 ==> mtfa[k] == a[p + (k - q)]
      {
        mtfa[kk] := mtfa[p + jj];
        kk := kk - 1;
        jj := jj - 1;
      }
      assert mtfa[q..q + 16] == a[p..p + 16] by {
        var now, was := mtfa[q..q + 16], a[p..p + 16];
        forall i | 0 <= i < 16 ensures now[i] == was[i] {
          assert mtfa[q + i] == a[p + (q + i - q)];
        }
      }
    }

    /** When the bottom of the array has been reached, all segments move back to the top. */
    method LayOutAgain()
      requires mtfa != mtfbase && mtfa.Length == 4096 && mtfbase.Length == 16
      requires Holds(mtfa[..], mtfbase[..], list)
      modifies mtfa, mtfbase
      ensures Valid()
    {
      hide Part;
      ghost var base0 := mtfbase[..];
      var ii := 15;
      while ii >= 0
        invariant -1 <= ii <= 15
        invariant LaidOut(mtfa[..], mtfbase[..], base0, list, ii)
      {
        ghost var a, base := mtfa[..], mtfbase[..];
        LayoutHigh(base0, ii);
        MoveSegment(mtfbase[ii], 3840 + 16 * ii);
        LaidOutStep(a, base, base0, list, ii, mtfa[..]);
        mtfbase[ii] := 3840 + 16 * ii;
        ii := ii - 1;
      }
    }

    /** uc = MTF(nn): the element at nn is returned and moved to the front. */
    method Move(nn: int) returns (uc: int)
      requires Valid() && 0 <= nn < 256
      modifies this, mtfa, mtfbase
      ensures Valid() && uc == old(list[nn]) && list == ToFront(old(list), nn)
    {
      if nn < 16 {
        uc := MoveInFirst(nn);
      } else {
        uc := MoveAcross(nn);
        if mtfbase[0] == 0 { LayOutAgain(); }
      }
    }

    method MoveInFirst(nn: int) returns (uc: int)
      requires Valid() && 0 <= nn < 16
      modifies this, mtfa, mtfbase
      ensures Valid() && uc == old(list[nn]) && list == ToFront(old(list), nn)
    {
      ghost var a := mtfa[..];
      var pp := mtfbase[0];
      uc := mtfa[pp + nn];
      PartAt(a, pp, list, 0, nn);
      ShiftByFours(pp, nn);
      FirstSegmentMoved(a, mtfbase[..], list, nn, mtfa[..]);
      mtfa[pp] := uc;
      list := ToFront(list, nn);
    }

    method MoveAcross(nn: int) returns (uc: int)
      requires Valid() && 16 <= nn < 256
      modifies this, mtfa, mtfbase
      ensures mtfa != mtfbase && mtfa.Length == 4096 && mtfbase.Length == 16
      ensures Holds(mtfa[..], mtfbase[..], list)
      ensures uc == old(list[nn]) && list == ToFront(old(list), nn)
    {
      hide Part;
      ghost var a, base0 := mtfa[..], mtfbase[..];
      var lno, off := nn / 16, nn % 16;
      var pp := mtfbase[lno] + off;
      uc := mtfa[pp];
      PartAt(a, base0[lno], list, lno, off);
      ShiftToBase(lno, off);
      CarryStarts(a, base0, list, nn, mtfa[..]);
      mtfbase[lno] := mtfbase[lno] + 1;
      CarryDown(lno, nn, base0);
      ghost var a1, base1 := mtfa[..], mtfbase[..];
      mtfbase[0] := mtfbase[0] - 1;
      mtfa[mtfbase[0]] := uc;
      CarryEnds(a1, base1, base0, list, nn, mtfbase[..], mtfa[..]);
      list := ToFront(list, nn);
    }
  }
}
