/** How scanning a sorted big bucket yields the sorted order of the small buckets that lead into it:
    the argument behind Step 2 of mainSort, on lists. */
module BucketScan {
  import opened Bytes
  import opened Rotations

  ghost predicate Le(b: seq<byte>, p: int, q: int)
    requires 0 <= p < |b| && 0 <= q < |b|
  {
    LexLe(Rotation(b, p), Rotation(b, q))
  }

  /** The two bytes that select a small bucket. */
  function Key(b: seq<byte>, p: int): (r: int)
    requires 0 <= p < |b|
    ensures 0 <= r < 65536
  {
    var x: int, y: int := b[p], b[Next(|b|, p)];
    256 * x + y
  }

  ghost function Bucket(b: seq<byte>, key: int): set<int> {
    set p | 0 <= p < |b| && Key(b, p) == key
  }

  /** Where a bucket starts: the number of positions with smaller keys. */
  ghost function At(b: seq<byte>, key: int): nat {
    |set p | 0 <= p < |b| && Key(b, p) < key|
  }

  lemma AtNext(b: seq<byte>, key: int)
    ensures At(b, key + 1) == At(b, key) + |Bucket(b, key)|
  {
    var s := set p | 0 <= p < |b| && Key(b, p) < key;
    var t := Bucket(b, key);
    assert (set p | 0 <= p < |b| && Key(b, p) < key + 1) == s + t && s !! t;
  }

  lemma {:induction false} AtMonotone(b: seq<byte>, key: int, key': int)
    requires key <= key'
    ensures At(b, key) <= At(b, key')
    decreases key' - key
  {
    if key < key' {
      AtMonotone(b, key, key' - 1);
      AtNext(b, key' - 1);
    }
  }

  ghost function Elems(s: seq<int>): set<int> {
    set x | x in s
  }

  /** s lists the set, every element once. */
  ghost predicate Lists(s: seq<int>, S: set<int>) {
    (forall i, j :: 0 <= i < j < |s| ==> s[i] != s[j]) && Elems(s) == S
  }

  lemma {:induction false} ListsSize(s: seq<int>, S: set<int>)
    requires Lists(s, S)
    ensures |s| == |S|
    decreases |s|
  {
    if |s| == 0 {
      assert S == {};
    } else {
      var init, x := s[..|s| - 1], s[|s| - 1];
      assert s == init + [x];
      assert Elems(s) == Elems(init) + {x};
      assert x !in init;
      ListsSize(init, Elems(init));
    }
  }

  lemma ListsAppend(s: seq<int>, S: set<int>, x: int)
    requires Lists(s, S) && x !in S
    ensures Lists(s + [x], S + {x})
  {
    assert forall i :: 0 <= i < |s| ==> s[i] in Elems(s);
    assert Elems(s + [x]) == Elems(s) + {x};
  }

  lemma ListsJoin(s: seq<int>, S: set<int>, t: seq<int>, T: set<int>)
    requires Lists(s, S) && Lists(t, T) && S !! T
    ensures Lists(s + t, S + T)
  {
    assert forall i :: 0 <= i < |s| ==> s[i] in S;
    assert forall i :: 0 <= i < |t| ==> t[i] in T;
    assert Elems(s + t) == Elems(s) + Elems(t);
  }

  ghost function Reversed(s: seq<int>): (r: seq<int>)
    ensures |r| == |s|
  {
    seq(|s|, i requires 0 <= i < |s| => s[|s| - 1 - i])
  }

  lemma ListsReversed(s: seq<int>, S: set<int>)
    requires Lists(s, S)
    ensures Lists(Reversed(s), S)
  {
    var r := Reversed(s);
    forall x ensures x in r <==> x in s {
      if x in s { var i :| 0 <= i < |s| && s[i] == x; assert r[|s| - 1 - i] == x; }
    }
  }

  ghost predicate Positions(b: seq<byte>, s: seq<int>) {
    forall i :: 0 <= i < |s| ==> 0 <= s[i] < |b|
  }

  /** s is in rotation order: ascending when up, descending otherwise. */
  ghost predicate Ordered(b: seq<byte>, s: seq<int>, up: bool) {
    Positions(b, s) && forall i, j :: 0 <= i < j < |s| ==> if up then Le(b, s[i], s[j]) else Le(b, s[j], s[i])
  }

  /** On the side that the scan comes from: below ss when up, above it otherwise. */
  predicate Beyond(c: int, ss: int, up: bool) {
    if up then c < ss else c > ss
  }

  /** The small buckets [ss,j] that the scan starts with. */
  ghost function Starts(b: seq<byte>, ss: byte, up: bool): set<int> {
    set p | 0 <= p < |b| && b[p] == ss && Beyond(b[Next(|b|, p)], ss, up)
  }

  /** The positions of bucket [t,ss] whose successors are in V. */
  ghost function Leading(b: seq<byte>, t: byte, ss: byte, V: set<int>): set<int> {
    set p | 0 <= p < |b| && b[p] == t && b[Next(|b|, p)] == ss && Next(|b|, p) in V
  }

  /** The first byte that is not ss, from p on; z is a place where there is one. */
  ghost function Gap(b: seq<byte>, p: int, z: int): nat
    requires 0 <= p < |b| && 0 <= z < |b|
  {
    if p <= z then z - p else z - p + |b|
  }

  ghost function After(b: seq<byte>, ss: byte, p: int, z: int): (c: byte)
    requires 0 <= p < |b| && 0 <= z < |b| && b[z] != ss
    ensures c != ss
    decreases Gap(b, p, z)
  {
    if b[p] != ss then b[p] else After(b, ss, Next(|b|, p), z)
  }

  /** The positions of big bucket ss whose run of ss is followed by something on the scan's side. */
  ghost function Side(b: seq<byte>, ss: byte, z: int, up: bool): set<int>
    requires 0 <= z < |b| && b[z] != ss
  {
    set p | 0 <= p < |b| && b[p] == ss && Beyond(After(b, ss, p, z), ss, up)
  }

  /** The first j entries of scan = start + fronts[ss] have been looked at: every list holds what
      leads into them, in order. */
  ghost predicate Scanned(b: seq<byte>, ss: byte, done: seq<bool>, up: bool, start: seq<int>, fronts: seq<seq<int>>,
        j: nat) {
    && |done| == |fronts| == 256 && !done[ss]
    && Lists(start, Starts(b, ss, up)) && Ordered(b, start + fronts[ss], up)
    && j <= |start| + |fronts[ss]|
    && forall t: byte :: !done[t] ==> FrontOk(b, ss, up, fronts[t], t, Elems((start + fronts[ss])[..j]))
  }

  ghost predicate FrontOk(b: seq<byte>, ss: byte, up: bool, front: seq<int>, t: byte, V: set<int>) {
    Lists(front, Leading(b, t, ss, V)) && Ordered(b, front, up)
  }

  lemma LeByNext(b: seq<byte>, p: int, q: int)
    requires 0 <= p < |b| && 0 <= q < |b|
    ensures b[p] < b[q] ==> Le(b, p, q)
    ensures b[p] == b[q] && Le(b, Next(|b|, p), Next(|b|, q)) ==> Le(b, p, q)
  {
    RotationOrderByNext(b, p, q);
  }

  lemma LeTransitive(b: seq<byte>, p: int, q: int, r: int)
    requires 0 <= p < |b| && 0 <= q < |b| && 0 <= r < |b| && Le(b, p, q) && Le(b, q, r)
    ensures Le(b, p, r)
  {
    if LexLt(Rotation(b, p), Rotation(b, q)) && LexLt(Rotation(b, q), Rotation(b, r)) {
      LexTransitive(Rotation(b, p), Rotation(b, q), Rotation(b, r));
    }
  }

  /** The scan list itself has no repetitions. */
  lemma ScanDistinct(b: seq<byte>, ss: byte, done: seq<bool>, up: bool, start: seq<int>, fronts: seq<seq<int>>, j: nat)
    requires Scanned(b, ss, done, up, start, fronts, j)
    ensures Lists(start + fronts[ss], Starts(b, ss, up) + Leading(b, ss, ss, Elems((start + fronts[ss])[..j])))
  {
    var V := Elems((start + fronts[ss])[..j]);
    assert FrontOk(b, ss, up, fronts[ss], ss, V);
    ListsJoin(start, Starts(b, ss, up), fronts[ss], Leading(b, ss, ss, V));
  }

  /** What looking at one more entry adds to the sets. */
  lemma LeadingGrows(b: seq<byte>, ss: byte, t: byte, V: set<int>, x: int)
    requires 0 <= x < |b| && b[x] == ss
    ensures b[Prev(|b|, x)] == t ==> Leading(b, t, ss, V + {x}) == Leading(b, t, ss, V) + {Prev(|b|, x)}
    ensures b[Prev(|b|, x)] != t ==> Leading(b, t, ss, V + {x}) == Leading(b, t, ss, V)
  {
    forall p | 0 <= p < |b| && Next(|b|, p) == x ensures p == Prev(|b|, x) { }
  }

  lemma ElemsOfMore(scan: seq<int>, j: nat)
    requires j < |scan|
    ensures Elems(scan[..j + 1]) == Elems(scan[..j]) + {scan[j]}
  {
    assert scan[..j + 1] == scan[..j] + [scan[j]];
  }

  /** An entry that leads into the one being looked at comes after everything listed before. */
  lemma ComesAfter(b: seq<byte>, ss: byte, up: bool, scan: seq<int>, j: nat, front: seq<int>, k: int)
    requires Ordered(b, scan, up) && j < |scan| && b[scan[j]] == ss && k == Prev(|b|, scan[j])
    requires FrontOk(b, ss, up, front, b[k], Elems(scan[..j]))
    ensures Ordered(b, front + [k], up)
  {
    forall i | 0 <= i < |front| ensures if up then Le(b, front[i], k) else Le(b, k, front[i]) {
      assert front[i] in Elems(front);
      var x := Next(|b|, front[i]);
      var i' :| 0 <= i' < j && scan[..j][i'] == x;
      assert scan[i'] == x;
      LeByNext(b, front[i], k);
      LeByNext(b, k, front[i]);
    }
  }

  /** An entry of [ss,ss] also comes after the start list. */
  lemma ComesAfterStart(b: seq<byte>, ss: byte, up: bool, start: seq<int>, front: seq<int>, k: int)
    requires Lists(start, Starts(b, ss, up)) && Ordered(b, start + front, up) && Ordered(b, front + [k], up)
    requires 0 <= k < |b| && b[k] == ss && b[Next(|b|, k)] == ss
    ensures Ordered(b, start + (front + [k]), up)
  {
    var s := start + (front + [k]);
    forall i | 0 <= i < |s| ensures 0 <= s[i] < |b| {
      if i < |start| + |front| { assert s[i] == (start + front)[i]; }
    }
    forall i, j | 0 <= i < j < |s| ensures if up then Le(b, s[i], s[j]) else Le(b, s[j], s[i]) {
      if j < |start| + |front| {
        assert s[i] == (start + front)[i] && s[j] == (start + front)[j];
      } else if i < |start| {
        assert start[i] in Elems(start);
        LeByNext(b, start[i], k);
        LeByNext(b, k, start[i]);
        LeByNext(b, Next(|b|, start[i]), Next(|b|, k));
        LeByNext(b, Next(|b|, k), Next(|b|, start[i]));
      } else {
        assert s[i] == (front + [k])[i - |start|] && s[j] == (front + [k])[j - |start|];
      }
    }
  }

  lemma ScanEntry(b: seq<byte>, ss: byte, done: seq<bool>, up: bool, start: seq<int>, fronts: seq<seq<int>>, j: nat)
    requires Scanned(b, ss, done, up, start, fronts, j) && j < |start| + |fronts[ss]|
    ensures var x := (start + fronts[ss])[j]; 0 <= x < |b| && b[x] == ss && x !in Elems((start + fronts[ss])[..j])
  {
    var scan := start + fronts[ss];
    ScanDistinct(b, ss, done, up, start, fronts, j);
    assert scan[j] in Elems(scan);
  }

  /** Looking at one more entry. */
  lemma ScanStep(b: seq<byte>, ss: byte, done: seq<bool>, up: bool, start: seq<int>, fronts: seq<seq<int>>, j: nat)
    requires Scanned(b, ss, done, up, start, fronts, j) && j < |start| + |fronts[ss]|
    requires var x := (start + fronts[ss])[j]; 0 <= x < |b| && b[x] == ss
    ensures var k := Prev(|b|, (start + fronts[ss])[j]); var c := b[k];
      Scanned(b, ss, done, up, start, if done[c] then fronts else fronts[c := fronts[c] + [k]], j + 1)
  {
    hide Ordered, Lists, Leading, Starts, Elems;
    var scan := start + fronts[ss];
    var x := scan[j];
    var k := Prev(|b|, x);
    var c, V := b[k], Elems(scan[..j]);
    var fronts' := if done[c] then fronts else fronts[c := fronts[c] + [k]];
    ScanEntry(b, ss, done, up, start, fronts, j);
    ElemsOfMore(scan, j);
    if !done[c] {
      assert FrontOk(b, ss, up, fronts[c], c, V);
      ComesAfter(b, ss, up, scan, j, fronts[c], k);
      NotYetLeading(b, ss, c, V, k);
      ListsAppend(fronts[c], Leading(b, c, ss, V), k);
      if c == ss { ComesAfterStart(b, ss, up, start, fronts[ss], k); }
    }
    var scan' := start + fronts'[ss];
    assert scan'[..j + 1] == scan[..j + 1];
    forall t: byte | !done[t] ensures FrontOk(b, ss, up, fronts'[t], t, V + {x}) {
      assert FrontOk(b, ss, up, fronts[t], t, V);
      LeadingGrows(b, ss, t, V, x);
    }
  }

  lemma NotYetLeading(b: seq<byte>, ss: byte, t: byte, V: set<int>, k: int)
    requires 0 <= k < |b| && Next(|b|, k) !in V
    ensures k !in Leading(b, t, ss, V)
  {
  }

  lemma AfterStep(b: seq<byte>, ss: byte, p: int, z: int)
    requires 0 <= z < |b| && b[z] != ss && 0 <= p < |b| && b[p] == ss
    ensures After(b, ss, p, z) == After(b, ss, Next(|b|, p), z)
    ensures b[Next(|b|, p)] != ss ==> After(b, ss, p, z) == b[Next(|b|, p)]
    ensures Gap(b, Next(|b|, p), z) < Gap(b, p, z)
  {
  }

  /** Nothing that is looked at is on the other side. */
  lemma {:induction false} ScanOnSide(b: seq<byte>, ss: byte, done: seq<bool>, up: bool, start: seq<int>,
        fronts: seq<seq<int>>, j: nat, z: int, p: int)
    requires |fronts| == 256 && Scanned(b, ss, done, up, start, fronts, j) && p in Elems(start + fronts[ss])
    requires 0 <= z < |b| && b[z] != ss
    ensures 0 <= p < |b| && b[p] == ss && p in Side(b, ss, z, up)
    decreases if 0 <= p < |b| then Gap(b, p, z) else 0
  {
    var scan := start + fronts[ss];
    assert FrontOk(b, ss, up, fronts[ss], ss, Elems(scan[..j]));
    assert Elems(scan) == Starts(b, ss, up) + Leading(b, ss, ss, Elems(scan[..j]));
    assert 0 <= p < |b| && b[p] == ss;
    var q := Next(|b|, p);
    AfterStep(b, ss, p, z);
    if b[q] == ss {
      assert q in Elems(scan[..j]) && q in Elems(scan);
      ScanOnSide(b, ss, done, up, start, fronts, j, z, q);
    }
  }

  /** Everything has been looked at: that is exactly one side of the big bucket. */
  lemma {:induction false} ScanCovers(b: seq<byte>, ss: byte, done: seq<bool>, up: bool, start: seq<int>,
        fronts: seq<seq<int>>, z: int, p: int)
    requires |fronts| == 256 && Scanned(b, ss, done, up, start, fronts, |start| + |fronts[ss]|)
    requires 0 <= z < |b| && b[z] != ss && 0 <= p < |b| && b[p] == ss
    ensures p in Elems(start + fronts[ss]) <==> p in Side(b, ss, z, up)
    decreases Gap(b, p, z)
  {
    var scan, q := start + fronts[ss], Next(|b|, p);
    assert scan[..|scan|] == scan;
    assert FrontOk(b, ss, up, fronts[ss], ss, Elems(scan));
    assert Elems(scan) == Starts(b, ss, up) + Leading(b, ss, ss, Elems(scan));
    AfterStep(b, ss, p, z);
    if b[q] == ss { ScanCovers(b, ss, done, up, start, fronts, z, q); }
  }

  lemma ScanComplete(b: seq<byte>, ss: byte, done: seq<bool>, up: bool, start: seq<int>, fronts: seq<seq<int>>, z: int)
    requires |fronts| == 256 && Scanned(b, ss, done, up, start, fronts, |start| + |fronts[ss]|) && 0 <= z < |b|
    requires b[z] != ss
    ensures Elems((start + fronts[ss])[..|start| + |fronts[ss]|]) == Side(b, ss, z, up)
  {
    var scan := start + fronts[ss];
    assert scan[..|scan|] == scan;
    forall p ensures p in Elems(scan) <==> p in Side(b, ss, z, up) {
      if p in scan {
        var j :| 0 <= j < |scan| && scan[j] == p;
        assert FrontOk(b, ss, up, fronts[ss], ss, Elems(scan));
        if j < |start| {
          assert start[j] in Elems(start);
        } else {
          assert fronts[ss][j - |start|] in Elems(fronts[ss]);
        }
      }
      if 0 <= p < |b| && b[p] == ss { ScanCovers(b, ss, done, up, start, fronts, z, p); }
    }
  }

  /** What comes from below is before what comes from above. */
  lemma {:induction false} SidesOrdered(b: seq<byte>, ss: byte, z: int, p: int, q: int)
    requires 0 <= z < |b| && b[z] != ss && p in Side(b, ss, z, true) && q in Side(b, ss, z, false)
    ensures Le(b, p, q)
    decreases Gap(b, p, z)
  {
    var p', q' := Next(|b|, p), Next(|b|, q);
    LeByNext(b, p', q');
    LeByNext(b, p, q);
    AfterStep(b, ss, p, z);
    AfterStep(b, ss, q, z);
    hide After, Le;
    if b[p'] == ss && b[q'] == ss {
      SidesOrdered(b, ss, z, p', q');
    } else {
      assert b[p'] < b[q'];
    }
  }

  /** Every position of the big bucket is on one of the sides. */
  lemma SidesCover(b: seq<byte>, ss: byte, z: int, t: byte)
    requires 0 <= z < |b| && b[z] != ss
    ensures Side(b, ss, z, true) !! Side(b, ss, z, false)
    ensures Leading(b, t, ss, Side(b, ss, z, true)) + Leading(b, t, ss, Side(b, ss, z, false)) ==
      Bucket(b, 256 * (t as int) + ss)
    ensures Leading(b, t, ss, Side(b, ss, z, true)) !! Leading(b, t, ss, Side(b, ss, z, false))
  {
    var K := 256 * (t as int) + ss;
    forall p | 0 <= p < |b| ensures Key(b, p) == K <==> b[p] == t && b[Next(|b|, p)] == ss { }
  }

  /** What leads into the lower side, and then what leads into the upper side, from the back, is
      the whole small bucket in order. */
  lemma TwoEnds(b: seq<byte>, ss: byte, z: int, t: byte, front: seq<int>, back: seq<int>)
    requires 0 <= z < |b| && b[z] != ss
    requires FrontOk(b, ss, true, front, t, Side(b, ss, z, true))
    requires FrontOk(b, ss, false, back, t, Side(b, ss, z, false))
    ensures Lists(front + Reversed(back), Bucket(b, 256 * (t as int) + ss)) && Ordered(b, front + Reversed(back), true)
  {
    SidesCover(b, ss, z, t);
    ListsReversed(back, Leading(b, t, ss, Side(b, ss, z, false)));
    ListsJoin(front, Leading(b, t, ss, Side(b, ss, z, true)), Reversed(back), Leading(b, t, ss, Side(b, ss, z, false)));
    var r := Reversed(back);
    var s := front + r;
    forall i, j | 0 <= i < j < |s| ensures Le(b, s[i], s[j]) {
      if i < |front| <= j {
        assert s[i] in Elems(front) && r[j - |front|] in Elems(r);
        SidesOrdered(b, ss, z, Next(|b|, s[i]), Next(|b|, s[j]));
        LeByNext(b, s[i], s[j]);
      }
    }
  }

  /** In a block of one byte all rotations are equal. */
  lemma OneByteOrdered(b: seq<byte>, ss: byte, s: seq<int>, up: bool)
    requires (forall i :: 0 <= i < |b| ==> b[i] == ss) && Positions(b, s)
    ensures Ordered(b, s, up)
  {
    forall i, j | 0 <= i < |b| && 0 <= j < |b| ensures Rotation(b, i) == Rotation(b, j) {
      assert forall k :: 0 <= k < |b| ==> Rotation(b, i)[k] == ss && Rotation(b, j)[k] == ss;
    }
  }
}
