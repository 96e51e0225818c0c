/** Step 2 of mainSort: the copy phase over a big bucket. */
module MainScan {
  import opened Bytes
  import opened Rotations
  import opened BucketScan

  const SETMASK := 0x20_0000

  /** ftab[sb] & CLEARMASK */
  function Clear(x: int): int {
    x % SETMASK
  }

  /** ftab[sb] & SETMASK */
  predicate Marked(x: int) {
    x / SETMASK % 2 == 1
  }

  /** ftab[sb] | SETMASK */
  function WithMask(x: int): int {
    if Marked(x) then x else x + SETMASK
  }

  /** ftab holds the starts of the small buckets, some of them marked. */
  ghost predicate Starting(ftab: seq<int>, b: seq<byte>) {
    && |ftab| == 65537 && |b| < SETMASK
    && forall key :: 0 <= key <= 65536 ==> 0 <= ftab[key] < 2 * SETMASK && Clear(ftab[key]) == At(b, key)
  }

  /** A small bucket's slots hold its positions. */
  ghost predicate Holds(ptr: seq<int>, b: seq<byte>, key: int) {
    0 <= At(b, key) <= At(b, key + 1) <= |ptr| && Lists(ptr[At(b, key)..At(b, key + 1)], Bucket(b, key))
  }

  /** ... and in rotation order. */
  ghost predicate InOrder(ptr: seq<int>, b: seq<byte>, key: int) {
    Holds(ptr, b, key) && Ordered(b, ptr[At(b, key)..At(b, key + 1)], true)
  }

  function KeyOf(x: int, y: int): int {
    256 * x + y
  }

  /** All positions have keys below 65536. */
  lemma AtEnds(b: seq<byte>)
    ensures At(b, 0) == 0 && At(b, 65536) == |b|
  {
    assert (set p | 0 <= p < |b| && Key(b, p) < 0) == {};
    var all := set p | 0 <= p < |b| && Key(b, p) < 65536;
    var s := seq(|b|, i => i);
    forall x ensures x in all <==> x in s { if x in all { assert s[x] == x; } }
    assert Lists(s, all);
    ListsSize(s, all);
  }

  lemma AtBound(b: seq<byte>, key: int)
    requires 0 <= key <= 65536
    ensures 0 <= At(b, key) <= |b|
  {
    AtEnds(b);
    AtMonotone(b, key, 65536);
  }

  /** The slots of different buckets do not meet. */
  lemma SlotsApart(b: seq<byte>, key: int, key': int)
    requires key < key'
    ensures At(b, key + 1) <= At(b, key')
  {
    AtMonotone(b, key + 1, key');
  }

  lemma SliceJoin(s: seq<int>, lo: int, mid: int, hi: int)
    requires 0 <= lo <= mid <= hi <= |s|
    ensures s[lo..hi] == s[lo..mid] + s[mid..hi]
  {
  }

  /** The small buckets [ss,0..y-1], one behind the other. */
  lemma {:induction false} Below(ptr: seq<int>, b: seq<byte>, ss: byte, y: int)
    requires 0 <= y <= 256 && At(b, KeyOf(ss, 0)) <= At(b, KeyOf(ss, y)) <= |ptr|
    requires forall j :: 0 <= j < y ==> InOrder(ptr, b, KeyOf(ss, j))
    ensures var s := ptr[At(b, KeyOf(ss, 0))..At(b, KeyOf(ss, y))];
      Lists(s, set p | 0 <= p < |b| && b[p] == ss && b[Next(|b|, p)] < y) && Ordered(b, s, true)
    decreases y
  {
    var lo := At(b, KeyOf(ss, 0));
    if y > 0 {
      var j := y - 1;
      assert InOrder(ptr, b, KeyOf(ss, j));
      hide Lists, Ordered, At, Bucket;
      var mid, hi := At(b, KeyOf(ss, y - 1)), At(b, KeyOf(ss, y));
      AtMonotone(b, KeyOf(ss, 0), KeyOf(ss, y - 1));
      AtMonotone(b, KeyOf(ss, y - 1), KeyOf(ss, y));
      Below(ptr, b, ss, y - 1);
      JoinBuckets(b, ss, y - 1, ptr[lo..mid], ptr[mid..hi]);
      SliceJoin(ptr, lo, mid, hi);
    } else {
      assert (set p | 0 <= p < |b| && b[p] == ss && b[Next(|b|, p)] < 0) == {};
    }
  }

  lemma JoinBuckets(b: seq<byte>, ss: byte, y: int, s: seq<int>, t: seq<int>)
    requires 0 <= y < 256 && Ordered(b, s, true) && Ordered(b, t, true)
    requires Lists(s, set p | 0 <= p < |b| && b[p] == ss && b[Next(|b|, p)] < y) && Lists(t, Bucket(b, KeyOf(ss, y)))
    ensures Lists(s + t, set p | 0 <= p < |b| && b[p] == ss && b[Next(|b|, p)] < y + 1) && Ordered(b, s + t, true)
  {
    var S := set p | 0 <= p < |b| && b[p] == ss && b[Next(|b|, p)] < y;
    var T := Bucket(b, KeyOf(ss, y));
    InBucket(b, ss, y);
    ListsJoin(s, S, t, T);
    assert S + T == set p | 0 <= p < |b| && b[p] == ss && b[Next(|b|, p)] < y + 1;
    var u := s + t;
    forall i, j | 0 <= i < j < |u| ensures Le(b, u[i], u[j]) {
      if i < |s| <= j {
        assert s[i] in Elems(s) && t[j - |s|] in Elems(t);
        LeByNext(b, Next(|b|, u[i]), Next(|b|, u[j]));
        LeByNext(b, u[i], u[j]);
      }
    }
  }

  lemma InBucket(b: seq<byte>, x: int, y: int)
    requires 0 <= x < 256 && 0 <= y < 256
    ensures forall p :: 0 <= p < |b| ==> (p in Bucket(b, KeyOf(x, y)) <==> b[p] == x && b[Next(|b|, p)] == y)
  {
  }

  /** The small buckets [ss,y..255], one behind the other. */
  lemma {:induction false} Above(ptr: seq<int>, b: seq<byte>, ss: byte, y: int)
    requires 0 <= y <= 256 && At(b, KeyOf(ss, y)) <= At(b, KeyOf(ss, 256)) <= |ptr|
    requires forall j :: y <= j < 256 ==> InOrder(ptr, b, KeyOf(ss, j))
    ensures var s := ptr[At(b, KeyOf(ss, y))..At(b, KeyOf(ss, 256))];
      Lists(s, set p | 0 <= p < |b| && b[p] == ss && b[Next(|b|, p)] >= y) && Ordered(b, s, true)
    decreases 256 - y
  {
    var hi := At(b, KeyOf(ss, 256));
    if y < 256 {
      assert InOrder(ptr, b, KeyOf(ss, y));
      hide Lists, Ordered, At, Bucket;
      var lo, mid := At(b, KeyOf(ss, y)), At(b, KeyOf(ss, y + 1));
      AtMonotone(b, KeyOf(ss, y + 1), KeyOf(ss, 256));
      AtMonotone(b, KeyOf(ss, y), KeyOf(ss, y + 1));
      Above(ptr, b, ss, y + 1);
      JoinBucketsAbove(b, ss, y, ptr[lo..mid], ptr[mid..hi]);
      SliceJoin(ptr, lo, mid, hi);
    } else {
      assert (set p | 0 <= p < |b| && b[p] == ss && b[Next(|b|, p)] >= 256) == {};
    }
  }

  lemma JoinBucketsAbove(b: seq<byte>, ss: byte, y: int, t: seq<int>, s: seq<int>)
    requires 0 <= y < 256 && Ordered(b, s, true) && Ordered(b, t, true)
    requires Lists(s, set p | 0 <= p < |b| && b[p] == ss && b[Next(|b|, p)] >= y + 1)
    requires Lists(t, Bucket(b, KeyOf(ss, y)))
    ensures Lists(t + s, set p | 0 <= p < |b| && b[p] == ss && b[Next(|b|, p)] >= y) && Ordered(b, t + s, true)
  {
    var S := set p | 0 <= p < |b| && b[p] == ss && b[Next(|b|, p)] >= y + 1;
    var T := Bucket(b, KeyOf(ss, y));
    InBucket(b, ss, y);
    ListsJoin(t, T, s, S);
    assert T + S == set p | 0 <= p < |b| && b[p] == ss && b[Next(|b|, p)] >= y;
    var u := t + s;
    forall i, j | 0 <= i < j < |u| ensures Le(b, u[i], u[j]) {
      if i < |t| <= j {
        assert t[i] in Elems(t) && s[j - |t|] in Elems(s);
        LeByNext(b, Next(|b|, u[i]), Next(|b|, u[j]));
        LeByNext(b, u[i], u[j]);
      }
    }
  }

  /** From the other end, ascending becomes descending. */
  lemma ReversedOrder(b: seq<byte>, s: seq<int>)
    requires Ordered(b, s, true)
    ensures Ordered(b, Reversed(s), false)
  {
  }

  /** The part of a bucket that has been filled from its front, and where it ends. */
  ghost predicate FrontAt(ptr: seq<int>, b: seq<byte>, key: int, front: seq<int>, c: int) {
    0 <= At(b, key) <= c == At(b, key) + |front| <= At(b, key + 1) <= |ptr| && ptr[At(b, key)..c] == front
  }

  ghost predicate Fronts(ptr: seq<int>, b: seq<byte>, ss: byte, done: seq<bool>, fronts: seq<seq<int>>,
        copyStart: seq<int>) {
    && |fronts| == |done| == |copyStart| == 256
    && forall t: byte :: !done[t] ==> FrontAt(ptr, b, KeyOf(t, ss), fronts[t], copyStart[t])
  }

  /** The part that has been filled from the back: the first one filled is the last one listed. */
  ghost predicate BackAt(ptr: seq<int>, b: seq<byte>, key: int, back: seq<int>, c: int) {
    && 0 <= At(b, key) <= c + 1 == At(b, key + 1) - |back| && At(b, key + 1) <= |ptr|
    && ptr[c + 1..At(b, key + 1)] == Reversed(back)
  }

  ghost predicate Backs(ptr: seq<int>, b: seq<byte>, ss: byte, done: seq<bool>, backs: seq<seq<int>>,
        copyEnd: seq<int>) {
    && |backs| == |done| == |copyEnd| == 256
    && forall t: byte :: !done[t] ==> BackAt(ptr, b, KeyOf(t, ss), backs[t], copyEnd[t])
  }

  /** Slot i belongs to one of the buckets to be filled. */
  ghost predicate IsTarget(b: seq<byte>, ss: byte, done: seq<bool>, i: int)
    requires |done| == 256
  {
    exists t: byte :: !done[t] && At(b, KeyOf(t, ss)) <= i < At(b, KeyOf(t, ss) + 1)
  }

  ghost predicate Untouched(b: seq<byte>, ss: byte, done: seq<bool>, p: seq<int>, q: seq<int>)
    requires |done| == 256
  {
    |p| == |q| && forall i :: 0 <= i < |p| && !IsTarget(b, ss, done, i) ==> p[i] == q[i]
  }

  /** The slots of other buckets of the same big bucket are not targets. */
  lemma NotTarget(b: seq<byte>, ss: byte, done: seq<bool>, lo: int, hi: int, i: int)
    requires |done| == 256 && (KeyOf(ss, 0) <= lo <= hi <= KeyOf(ss, ss) || KeyOf(ss, ss) < lo <= hi <= KeyOf(ss, 256))
    requires At(b, lo) <= i < At(b, hi)
    ensures !IsTarget(b, ss, done, i)
  {
    forall t: byte ensures !(At(b, KeyOf(t, ss)) <= i < At(b, KeyOf(t, ss) + 1)) {
      if KeyOf(t, ss) < lo { AtMonotone(b, KeyOf(t, ss) + 1, lo); } else { AtMonotone(b, hi, KeyOf(t, ss)); }
    }
  }

  lemma SliceUntouched(b: seq<byte>, ss: byte, done: seq<bool>, lo: int, hi: int, p: seq<int>, q: seq<int>)
    requires |done| == 256 && Untouched(b, ss, done, p, q)
    requires KeyOf(ss, 0) <= lo <= hi <= KeyOf(ss, ss) || KeyOf(ss, ss) < lo <= hi <= KeyOf(ss, 256)
    requires At(b, lo) <= At(b, hi) <= |p|
    ensures p[At(b, lo)..At(b, hi)] == q[At(b, lo)..At(b, hi)]
  {
    forall i | At(b, lo) <= i < At(b, hi) ensures p[i] == q[i] { NotTarget(b, ss, done, lo, hi, i); }
  }

  /** Filling slot copyStart[c]. */
  lemma PutFront(ptr: seq<int>, b: seq<byte>, ss: byte, done: seq<bool>, fronts: seq<seq<int>>, copyStart: seq<int>,
        c: byte, k: int)
    requires Fronts(ptr, b, ss, done, fronts, copyStart) && !done[c] && |fronts[c]| < |Bucket(b, KeyOf(c, ss))|
    ensures 0 <= copyStart[c] < |ptr| && IsTarget(b, ss, done, copyStart[c])
    ensures Fronts(ptr[copyStart[c] := k], b, ss, done, fronts[c := fronts[c] + [k]], copyStart[c := copyStart[c] + 1])
  {
    AtNext(b, KeyOf(c, ss));
    assert FrontAt(ptr, b, KeyOf(c, ss), fronts[c], copyStart[c]);
    hide At, Bucket;
    var ptr' := ptr[copyStart[c] := k];
    forall t: byte | !done[t] && t != c ensures FrontAt(ptr', b, KeyOf(t, ss), fronts[t], copyStart[t]) {
      assert FrontAt(ptr, b, KeyOf(t, ss), fronts[t], copyStart[t]);
      if t < c { SlotsApart(b, KeyOf(t, ss), KeyOf(c, ss)); } else { SlotsApart(b, KeyOf(c, ss), KeyOf(t, ss)); }
    }
  }

  /** Filling slot copyEnd[c]. */
  lemma PutBack(ptr: seq<int>, b: seq<byte>, ss: byte, done: seq<bool>, fronts: seq<seq<int>>, copyStart: seq<int>,
                backs: seq<seq<int>>, copyEnd: seq<int>, c: byte, k: int)
    requires Fronts(ptr, b, ss, done, fronts, copyStart) && Backs(ptr, b, ss, done, backs, copyEnd) && !done[c]
    requires |fronts[c]| + |backs[c]| < |Bucket(b, KeyOf(c, ss))|
    ensures 0 <= copyEnd[c] < |ptr| && IsTarget(b, ss, done, copyEnd[c])
    ensures Fronts(ptr[copyEnd[c] := k], b, ss, done, fronts, copyStart)
    ensures Backs(ptr[copyEnd[c] := k], b, ss, done, backs[c := backs[c] + [k]], copyEnd[c := copyEnd[c] - 1])
  {
    AtNext(b, KeyOf(c, ss));
    var key, i := KeyOf(c, ss), copyEnd[c];
    assert FrontAt(ptr, b, key, fronts[c], copyStart[c]) && BackAt(ptr, b, key, backs[c], i);
    hide At, Bucket, Reversed;
    OneMoreBack(ptr, b, key, fronts[c], copyStart[c], backs[c], i, k);
    forall t: byte | !done[t] && t != c
      ensures FrontAt(ptr[i := k], b, KeyOf(t, ss), fronts[t], copyStart[t])
      ensures BackAt(ptr[i := k], b, KeyOf(t, ss), backs[t], copyEnd[t])
    {
      assert FrontAt(ptr, b, KeyOf(t, ss), fronts[t], copyStart[t]) &&
        BackAt(ptr, b, KeyOf(t, ss), backs[t], copyEnd[t]);
      if t < c { SlotsApart(b, KeyOf(t, ss), key); } else { SlotsApart(b, key, KeyOf(t, ss)); }
    }
  }

  lemma OneMoreBack(ptr: seq<int>, b: seq<byte>, key: int, front: seq<int>, c: int, back: seq<int>, i: int, k: int)
    requires FrontAt(ptr, b, key, front, c) && BackAt(ptr, b, key, back, i)
    requires |front| + |back| < At(b, key + 1) - At(b, key)
    ensures 0 <= i < |ptr| && At(b, key) <= i < At(b, key + 1) && FrontAt(ptr[i := k], b, key, front, c)
    ensures BackAt(ptr[i := k], b, key, back + [k], i - 1)
  {
    assert Reversed(back + [k]) == [k] + Reversed(back);
    assert ptr[i := k][i..At(b, key + 1)] == [k] + ptr[i + 1..At(b, key + 1)];
  }

  /** A list of what leads into part of the big bucket is shorter than the bucket if something is
      missing. */
  lemma RoomLeft(b: seq<byte>, ss: byte, t: byte, V: set<int>, W: set<int>, front: seq<int>, back: seq<int>, k: int)
    requires Lists(front, Leading(b, t, ss, V)) && Lists(back, Leading(b, t, ss, W)) && V !! W
    requires 0 <= k < |b| && b[k] == t && b[Next(|b|, k)] == ss && Next(|b|, k) !in V && Next(|b|, k) !in W
    ensures |front| + |back| < |Bucket(b, KeyOf(t, ss))|
  {
    var F, G, B := Leading(b, t, ss, V), Leading(b, t, ss, W), Bucket(b, KeyOf(t, ss));
    ListsSize(front, F);
    ListsSize(back, G);
    InBucket(b, t, ss);
    assert F !! G && F + G <= B - {k} && k in B;
    Subset(F + G, B - {k});
    assert |F + G| == |F| + |G|;
  }

  lemma Subset(s: set<int>, t: set<int>)
    requires s <= t
    ensures |s| <= |t|
  {
    assert t == s + (t - s) && s !! t - s;
  }

  ghost function Empty(): (r: seq<seq<int>>)
    ensures |r| == 256
  {
    seq(256, _ => [])
  }

  lemma NothingScanned(b: seq<byte>, ss: byte, done: seq<bool>, up: bool, start: seq<int>)
    requires |done| == 256 && !done[ss] && Lists(start, Starts(b, ss, up)) && Ordered(b, start, up)
    ensures Scanned(b, ss, done, up, start, Empty(), 0)
  {
    assert start + Empty()[ss] == start;
    assert (start + [])[..0] == [];
  }

  /** Starts and ends of the buckets to be filled. */
  method CopyBounds(ftab: array<uint32>, ss: byte, ghost b: seq<byte>, ghost ptr: seq<int>, ghost done: seq<bool>)
    returns (copyStart: array<int>, copyEnd: array<int>)
    requires Starting(ftab[..], b) && |ptr| == |b| && |done| == 256
    ensures fresh(copyStart) && fresh(copyEnd) && copyStart != copyEnd && copyStart.Length == copyEnd.Length == 256
    ensures forall j :: 0 <= j < 256 ==>
          copyStart[j] == At(b, KeyOf(j, ss)) && copyEnd[j] == At(b, KeyOf(j, ss) + 1) - 1
    ensures Fronts(ptr, b, ss, done, Empty(), copyStart[..]) && Backs(ptr, b, ss, done, Empty(), copyEnd[..])
  {
    hide At;
    copyStart, copyEnd := new int[256], new int[256];
    for j := 0 to 256
      invariant forall t :: 0 <= t < j ==>
            copyStart[t] == At(b, KeyOf(t, ss)) && copyEnd[t] == At(b, KeyOf(t, ss) + 1) - 1
    {
      copyStart[j] := Clear(ftab[j * 256 + ss]);
      copyEnd[j] := Clear(ftab[j * 256 + ss + 1]) - 1;
    }
    forall t: byte ensures FrontAt(ptr, b, KeyOf(t, ss), [], copyStart[t]) &&
      BackAt(ptr, b, KeyOf(t, ss), [], copyEnd[t]) {
      AtMonotone(b, KeyOf(t, ss), KeyOf(t, ss) + 1);
      AtBound(b, KeyOf(t, ss) + 1);
    }
  }

  /** What the forward scan keeps when it stands at slot j. */
  ghost predicate Forward(b: seq<byte>, ss: byte, done: seq<bool>, ptr0: seq<int>, ptr: seq<int>, start: seq<int>,
        fronts: seq<seq<int>>, copyStart: seq<int>, j: int)
  {
    && |done| == 256 && |ptr| == |b| && Fronts(ptr, b, ss, done, fronts, copyStart) && Untouched(b, ss, done, ptr0, ptr)
    && At(b, KeyOf(ss, 0)) <= j && Scanned(b, ss, done, true, start, fronts, j - At(b, KeyOf(ss, 0)))
    && |start| == At(b, KeyOf(ss, ss)) - At(b, KeyOf(ss, 0)) && start == ptr0[At(b, KeyOf(ss, 0))..At(b, KeyOf(ss, ss))]
    && (|start| == 0 ==> ptr == ptr0 && fronts == Empty() && j == At(b, KeyOf(ss, 0)))
  }

  /** Where the forward scan stands in its list. */
  lemma ForwardAt(b: seq<byte>, ss: byte, done: seq<bool>, ptr0: seq<int>, ptr: seq<int>, start: seq<int>,
        fronts: seq<seq<int>>, copyStart: seq<int>, j: int)
    requires |ptr0| == |b| && |fronts| == |copyStart| == 256
    requires Forward(b, ss, done, ptr0, ptr, start, fronts, copyStart, j)
    ensures copyStart[ss] - At(b, KeyOf(ss, 0)) == |start| + |fronts[ss]|
    ensures j < copyStart[ss] ==> j < |ptr| && 0 <= ptr[j] < |b| && b[ptr[j]] == ss
    ensures j < copyStart[ss] ==> ptr[j] == (start + fronts[ss])[j - At(b, KeyOf(ss, 0))]
    ensures j < copyStart[ss] ==> ptr[j] !in Elems((start + fronts[ss])[..j - At(b, KeyOf(ss, 0))])
  {
    hide Scanned, Untouched, At;
    var lo, mid := At(b, KeyOf(ss, 0)), At(b, KeyOf(ss, ss));
    AtMonotone(b, KeyOf(ss, 0), KeyOf(ss, ss));
    AtBound(b, KeyOf(ss, ss));
    NotDone(b, ss, done, true, start, fronts, j - lo);
    assert FrontAt(ptr, b, KeyOf(ss, ss), fronts[ss], copyStart[ss]);
    SliceUntouched(b, ss, done, KeyOf(ss, 0), KeyOf(ss, ss), ptr0, ptr);
    if j < copyStart[ss] {
      if j < mid { assert ptr[j] == ptr[lo..mid][j - lo]; } else { assert ptr[j] == ptr[mid..copyStart[ss]][j - mid]; }
      ScanEntry(b, ss, done, true, start, fronts, j - lo);
    }
  }

  lemma NotDone(b: seq<byte>, ss: byte, done: seq<bool>, up: bool, start: seq<int>, fronts: seq<seq<int>>, j: nat)
    requires Scanned(b, ss, done, up, start, fronts, j)
    ensures |done| == |fronts| == 256 && !done[ss]
  {
  }

  /** One turn of the forward scan. */
  lemma ForwardStep(b: seq<byte>, ss: byte, done: seq<bool>, ptr0: seq<int>, ptr: seq<int>, start: seq<int>,
        fronts: seq<seq<int>>, copyStart: seq<int>, j: int, k: int)
    requires |ptr0| == |b| && |done| == |fronts| == |copyStart| == 256
    requires Forward(b, ss, done, ptr0, ptr, start, fronts, copyStart, j) && j < copyStart[ss] && 0 <= j < |ptr|
    requires 0 <= ptr[j] < |b| && k == Prev(|b|, ptr[j])
    ensures done[b[k]] ==> Forward(b, ss, done, ptr0, ptr, start, fronts, copyStart, j + 1)
    ensures !done[b[k]] ==> 0 <= copyStart[b[k]] < |ptr|
    ensures !done[b[k]] ==>
          Forward(b, ss, done, ptr0, ptr[copyStart[b[k]] := k], start, fronts[b[k] := fronts[b[k]] + [k]],
                                    copyStart[b[k] := copyStart[b[k]] + 1], j + 1)
  {
    hide Fronts, At, Starts, Lists, Ordered, IsTarget;
    ForwardAt(b, ss, done, ptr0, ptr, start, fronts, copyStart, j);
    var lo, c := At(b, KeyOf(ss, 0)), b[k];
    ScanStep(b, ss, done, true, start, fronts, j - lo);
    if !done[c] {
      var V := Elems((start + fronts[ss])[..j - lo]);
      assert FrontOk(b, ss, true, fronts[c], c, V);
      EmptyLists(b, c, ss);
      RoomLeft(b, ss, c, V, {}, fronts[c], [], k);
      PutFront(ptr, b, ss, done, fronts, copyStart, c, k);
    }
  }

  lemma EmptyLists(b: seq<byte>, t: byte, ss: byte)
    ensures Lists([], Leading(b, t, ss, {}))
  {
  }

  /** The forward scan of Step 2. */
  method ScanForward(ptr: array<int>, b: seq<byte>, bigDone: seq<bool>, ss: byte, nblock: int, first: int,
        copyStart: array<int>, ghost start: seq<int>)
    returns (ghost fronts: seq<seq<int>>)
    requires ptr != copyStart && copyStart.Length == |bigDone| == 256 && nblock == |b| == ptr.Length
    requires first == At(b, KeyOf(ss, 0))
    requires Forward(b, ss, bigDone, ptr[..], ptr[..], start, Empty(), copyStart[..], first)
    modifies ptr, copyStart
    ensures |fronts| == 256
    ensures Forward(b, ss, bigDone, old(ptr[..]), ptr[..], start, fronts, copyStart[..], first + |start| + |fronts[ss]|)
  {
    hide Forward;
    ghost var ptr0 := ptr[..];
    var j := first;
    fronts := Empty();
    ForwardAt(b, ss, bigDone, ptr0, ptr[..], start, fronts, copyStart[..], j);
    ForwardLimit(b, ss, bigDone, ptr0, ptr[..], start, fronts, copyStart[..], j);
    while j < copyStart[ss]
      invariant first <= j && |fronts| == 256 && Forward(b, ss, bigDone, ptr0, ptr[..], start, fronts, copyStart[..], j)
      invariant j <= first + |start| + |fronts[ss]| == copyStart[ss] <= nblock
      decreases nblock - j
    {
      ForwardAt(b, ss, bigDone, ptr0, ptr[..], start, fronts, copyStart[..], j);
      var k := ptr[j] - 1;
      if k < 0 { k := k + nblock; }
      assert k == Prev(nblock, ptr[j]);
      var c1 := b[k];
      ForwardStep(b, ss, bigDone, ptr0, ptr[..], start, fronts, copyStart[..], j, k);
      if !bigDone[c1] {
        ghost var was, bounds := ptr[..], copyStart[..];
        ptr[copyStart[c1]] := k;
        copyStart[c1] := copyStart[c1] + 1;
        assert ptr[..] == was[bounds[c1] := k] && copyStart[..] == bounds[c1 := bounds[c1] + 1];
        fronts := fronts[c1 := fronts[c1] + [k]];
      }
      j := j + 1;
      ForwardAt(b, ss, bigDone, ptr0, ptr[..], start, fronts, copyStart[..], j);
      ForwardLimit(b, ss, bigDone, ptr0, ptr[..], start, fronts, copyStart[..], j);
    }
  }

  lemma ForwardLimit(b: seq<byte>, ss: byte, done: seq<bool>, ptr0: seq<int>, ptr: seq<int>, start: seq<int>,
        fronts: seq<seq<int>>, copyStart: seq<int>, j: int)
    requires |copyStart| == |fronts| == 256 && Forward(b, ss, done, ptr0, ptr, start, fronts, copyStart, j)
    ensures copyStart[ss] <= |b| && j <= At(b, KeyOf(ss, 0)) + |start| + |fronts[ss]|
  {
    NotDone(b, ss, done, true, start, fronts, j - At(b, KeyOf(ss, 0)));
    assert FrontAt(ptr, b, KeyOf(ss, ss), fronts[ss], copyStart[ss]);
    AtBound(b, KeyOf(ss, ss) + 1);
  }

  /** What the backward scan keeps when it has looked at i entries, from the back: the fronts stay. */
  ghost predicate Backward(b: seq<byte>, ss: byte, done: seq<bool>, ptr0: seq<int>, ptr: seq<int>,
        fronts: seq<seq<int>>, copyStart: seq<int>, V: set<int>, start: seq<int>, backs: seq<seq<int>>,
          copyEnd: seq<int>, i: nat)
  {
    && |done| == 256 && |ptr| == |b| && Untouched(b, ss, done, ptr0, ptr)
    && Fronts(ptr, b, ss, done, fronts, copyStart) && Backs(ptr, b, ss, done, backs, copyEnd)
    && (forall t: byte :: !done[t] ==> FrontOk(b, ss, true, fronts[t], t, V))
    && Scanned(b, ss, done, false, start, backs, i)
    && |start| == At(b, KeyOf(ss, 256)) - At(b, KeyOf(ss, ss) + 1) && At(b, KeyOf(ss, 256)) <= |ptr0|
    && start == Reversed(ptr0[At(b, KeyOf(ss, ss) + 1)..At(b, KeyOf(ss, 256))])
    && (|start| == 0 ==> ptr == ptr0 && backs == Empty() && i == 0)
  }

  lemma BackwardAt(b: seq<byte>, ss: byte, done: seq<bool>, ptr0: seq<int>, ptr: seq<int>, fronts: seq<seq<int>>,
        copyStart: seq<int>, V: set<int>, start: seq<int>, backs: seq<seq<int>>, copyEnd: seq<int>, i: nat)
    requires |ptr0| == |b| && |backs| == |copyEnd| == 256
    requires Backward(b, ss, done, ptr0, ptr, fronts, copyStart, V, start, backs, copyEnd, i)
    ensures At(b, KeyOf(ss, 256)) - 1 - copyEnd[ss] == |start| + |backs[ss]| && copyEnd[ss] >= -1
    ensures i <= |start| + |backs[ss]|
    ensures var j := At(b, KeyOf(ss, 256)) - 1 - i;
      j > copyEnd[ss] ==>
        0 <= j < |ptr| && ptr[j] == (start + backs[ss])[i] && 0 <= ptr[j] < |b| && b[ptr[j]] == ss &&
        ptr[j] !in Elems((start + backs[ss])[..i])
  {
    hide Scanned, Untouched, At, Fronts;
    var key, end := KeyOf(ss, ss), At(b, KeyOf(ss, 256));
    var top := At(b, key + 1);
    AtMonotone(b, key + 1, KeyOf(ss, 256));
    AtBound(b, KeyOf(ss, 256));
    NotDone(b, ss, done, false, start, backs, i);
    ScanLimit(b, ss, done, false, start, backs, i);
    assert BackAt(ptr, b, key, backs[ss], copyEnd[ss]);
    SliceUntouched(b, ss, done, key + 1, KeyOf(ss, 256), ptr0, ptr);
    var j := end - 1 - i;
    if j > copyEnd[ss] {
      if i < |start| {
        assert start[i] == ptr[top..end][|start| - 1 - i];
      } else {
        assert ptr[j] == ptr[copyEnd[ss] + 1..top][j - copyEnd[ss] - 1];
      }
      ScanEntry(b, ss, done, false, start, backs, i);
    }
  }

  lemma ScanLimit(b: seq<byte>, ss: byte, done: seq<bool>, up: bool, start: seq<int>, fronts: seq<seq<int>>, j: nat)
    requires |fronts| == 256 && Scanned(b, ss, done, up, start, fronts, j)
    ensures j <= |start| + |fronts[ss]|
  {
  }

  /** One turn of the backward scan; V is what the forward scan has looked at. */
  lemma BackwardStep(b: seq<byte>, ss: byte, done: seq<bool>, ptr0: seq<int>, ptr: seq<int>, fronts: seq<seq<int>>,
        copyStart: seq<int>, V: set<int>, start: seq<int>, backs: seq<seq<int>>, copyEnd: seq<int>, i: nat, x: int,
          k: int)
    requires |ptr0| == |b| && |done| == |backs| == |copyEnd| == 256
    requires Backward(b, ss, done, ptr0, ptr, fronts, copyStart, V, start, backs, copyEnd, i)
    requires i < |start| + |backs[ss]|
    requires x == (start + backs[ss])[i] && 0 <= x < |b| && b[x] == ss && k == Prev(|b|, x)
    requires V !! Elems((start + backs[ss])[..i]) && x !in V
    ensures done[b[k]] ==> Backward(b, ss, done, ptr0, ptr, fronts, copyStart, V, start, backs, copyEnd, i + 1)
    ensures !done[b[k]] ==> 0 <= copyEnd[b[k]] < |ptr|
    ensures !done[b[k]] ==> Backward(b, ss, done, ptr0, ptr[copyEnd[b[k]] := k], fronts, copyStart, V, start,
                                     backs[b[k] := backs[b[k]] + [k]], copyEnd[b[k] := copyEnd[b[k]] - 1], i + 1)
  {
    hide Fronts, Backs, At, Starts, Lists, Ordered, IsTarget;
    var c := b[k];
    ScanEntry(b, ss, done, false, start, backs, i);
    ScanStep(b, ss, done, false, start, backs, i);
    if !done[c] {
      var W := Elems((start + backs[ss])[..i]);
      FrontsSize(ptr, b, ss, done, fronts, copyStart);
      assert FrontOk(b, ss, false, backs[c], c, W) && FrontOk(b, ss, true, fronts[c], c, V);
      RoomLeft(b, ss, c, V, W, fronts[c], backs[c], k);
      PutBack(ptr, b, ss, done, fronts, copyStart, backs, copyEnd, c, k);
    }
  }

  lemma FrontsSize(ptr: seq<int>, b: seq<byte>, ss: byte, done: seq<bool>, fronts: seq<seq<int>>, copyStart: seq<int>)
    requires Fronts(ptr, b, ss, done, fronts, copyStart)
    ensures |fronts| == 256
  {
  }

  /** The backward scan of Step 2. */
  method ScanBackward(ptr: array<int>, b: seq<byte>, bigDone: seq<bool>, ss: byte, nblock: int, end: int,
        copyEnd: array<int>, ghost fronts: seq<seq<int>>, ghost copyStart: seq<int>, ghost V: set<int>, ghost z: int,
          ghost start: seq<int>)
    returns (ghost backs: seq<seq<int>>)
    requires ptr != copyEnd && copyEnd.Length == |bigDone| == 256 && nblock == |b| == ptr.Length
    requires end == At(b, KeyOf(ss, 256))
    requires Backward(b, ss, bigDone, ptr[..], ptr[..], fronts, copyStart, V, start, Empty(), copyEnd[..], 0)
    requires |start| > 0 ==> 0 <= z < |b| && b[z] != ss && V == Side(b, ss, z, true)
    modifies ptr, copyEnd
    ensures |backs| == 256
    ensures Backward(b, ss, bigDone, old(ptr[..]), ptr[..], fronts, copyStart, V, start, backs, copyEnd[..], |start| +
                     |backs[ss]|)
  {
    hide Backward;
    ghost var ptr0 := ptr[..];
    var j := end - 1;
    backs := Empty();
    BackwardAt(b, ss, bigDone, ptr0, ptr[..], fronts, copyStart, V, start, backs, copyEnd[..], 0);
    NothingToScan(b, ss, bigDone, ptr0, ptr[..], fronts, copyStart, V, start, backs, copyEnd[..], 0);
    while j > copyEnd[ss]
      invariant |backs| == 256 && copyEnd[ss] >= -1 && 0 <= end - 1 - j
      invariant Backward(b, ss, bigDone, ptr0, ptr[..], fronts, copyStart, V, start, backs, copyEnd[..], end - 1 - j)
      invariant end - 1 - copyEnd[ss] == |start| + |backs[ss]| && end - 1 - j <= |start| + |backs[ss]|
      invariant |start| == 0 ==> |backs[ss]| == 0
      decreases j
    {
      ghost var i := end - 1 - j;
      BackwardAt(b, ss, bigDone, ptr0, ptr[..], fronts, copyStart, V, start, backs, copyEnd[..], i);
      BackwardApart(b, ss, bigDone, ptr0, ptr[..], fronts, copyStart, V, start, backs, copyEnd[..], i, z);
      var k := ptr[j] - 1;
      if k < 0 { k := k + nblock; }
      assert k == Prev(nblock, ptr[j]);
      var c1 := b[k];
      BackwardStep(b, ss, bigDone, ptr0, ptr[..], fronts, copyStart, V, start, backs, copyEnd[..], i, ptr[j], k);
      if !bigDone[c1] {
        ghost var was, bounds := ptr[..], copyEnd[..];
        ptr[copyEnd[c1]] := k;
        copyEnd[c1] := copyEnd[c1] - 1;
        assert ptr[..] == was[bounds[c1] := k] && copyEnd[..] == bounds[c1 := bounds[c1] - 1];
        backs := backs[c1 := backs[c1] + [k]];
      }
      j := j - 1;
      BackwardAt(b, ss, bigDone, ptr0, ptr[..], fronts, copyStart, V, start, backs, copyEnd[..], i + 1);
    }
  }

  lemma NothingToScan(b: seq<byte>, ss: byte, done: seq<bool>, ptr0: seq<int>, ptr: seq<int>, fronts: seq<seq<int>>,
        copyStart: seq<int>, V: set<int>, start: seq<int>, backs: seq<seq<int>>, copyEnd: seq<int>, i: nat)
    requires |backs| == 256 && Backward(b, ss, done, ptr0, ptr, fronts, copyStart, V, start, backs, copyEnd, i)
    ensures |start| == 0 ==> |backs[ss]| == 0
  {
  }

  /** What the two scans look at has nothing in common. */
  lemma BackwardApart(b: seq<byte>, ss: byte, done: seq<bool>, ptr0: seq<int>, ptr: seq<int>, fronts: seq<seq<int>>,
        copyStart: seq<int>, V: set<int>, start: seq<int>, backs: seq<seq<int>>, copyEnd: seq<int>, i: nat, z: int)
    requires |backs| == 256 && Backward(b, ss, done, ptr0, ptr, fronts, copyStart, V, start, backs, copyEnd, i)
    requires 0 <= z < |b| && b[z] != ss && V == Side(b, ss, z, true)
    ensures V !! Elems(start + backs[ss]) && i <= |start| + |backs[ss]| && V !! Elems((start + backs[ss])[..i])
    ensures forall q :: 0 <= q < |start| + |backs[ss]| ==> (start + backs[ss])[q] !in V
  {
    hide Fronts, Backs, Untouched;
    var scan := start + backs[ss];
    forall q | 0 <= q < |scan| ensures scan[q] !in V {
      ScanOnSide(b, ss, done, false, start, backs, i, z, scan[q]);
    }
    assert forall x :: x in Elems(scan[..i]) ==> x in Elems(scan);
  }

  /** A bucket that has been filled from both ends is complete and in order. */
  lemma Filled(ptr: seq<int>, b: seq<byte>, ss: byte, z: int, t: byte, front: seq<int>, c: int, back: seq<int>, e: int)
    requires FrontAt(ptr, b, KeyOf(t, ss), front, c) && BackAt(ptr, b, KeyOf(t, ss), back, e)
    requires 0 <= z < |b| && b[z] != ss
    requires FrontOk(b, ss, true, front, t, Side(b, ss, z, true))
    requires FrontOk(b, ss, false, back, t, Side(b, ss, z, false))
    ensures InOrder(ptr, b, KeyOf(t, ss)) && c - 1 == e
  {
    var key := KeyOf(t, ss);
    TwoEnds(b, ss, z, t, front, back);
    ListsSize(front + Reversed(back), Bucket(b, key));
    AtNext(b, key);
    assert ptr[At(b, key)..At(b, key + 1)] == front + Reversed(back);
  }

  /** The lists that the scans start with. */
  lemma StartLists(ptr0: seq<int>, b: seq<byte>, ss: byte)
    requires |ptr0| == |b| && forall y :: 0 <= y < 256 && y != ss ==> InOrder(ptr0, b, KeyOf(ss, y))
    ensures 0 <= At(b, KeyOf(ss, 0)) <= At(b, KeyOf(ss, ss)) <= At(b, KeyOf(ss, ss) + 1)
    ensures At(b, KeyOf(ss, ss) + 1) <= At(b, KeyOf(ss, 256)) <= |ptr0|
    ensures var s := ptr0[At(b, KeyOf(ss, 0))..At(b, KeyOf(ss, ss))];
            Lists(s, Starts(b, ss, true)) && Ordered(b, s, true)
    ensures var s := Reversed(ptr0[At(b, KeyOf(ss, ss) + 1)..At(b, KeyOf(ss, 256))]);
            Lists(s, Starts(b, ss, false)) && Ordered(b, s, false)
  {
    AtMonotone(b, KeyOf(ss, 0), KeyOf(ss, ss));
    AtMonotone(b, KeyOf(ss, ss), KeyOf(ss, ss) + 1);
    AtMonotone(b, KeyOf(ss, ss) + 1, KeyOf(ss, 256));
    AtBound(b, KeyOf(ss, 256));
    Below(ptr0, b, ss, ss);
    Above(ptr0, b, ss, ss + 1);
    var low := set p | 0 <= p < |b| && b[p] == ss && b[Next(|b|, p)] < ss;
    var high := set p | 0 <= p < |b| && b[p] == ss && b[Next(|b|, p)] >= ss + 1;
    assert low == Starts(b, ss, true) && high == Starts(b, ss, false);
    var s := ptr0[At(b, KeyOf(ss, ss) + 1)..At(b, KeyOf(ss, 256))];
    ListsReversed(s, high);
    ReversedOrder(b, s);
  }

  /** In a block of one byte there is nothing to scan, and the order of the bucket does not matter. */
  lemma OneByteBlock(ptr: seq<int>, b: seq<byte>, ss: byte)
    requires |ptr| == |b| && (forall i :: 0 <= i < |b| ==> b[i] == ss) && forall key :: 0 <= key < 65536 ==>
          Holds(ptr, b, key)
    ensures Starts(b, ss, true) == {} && Starts(b, ss, false) == {}
    ensures At(b, KeyOf(ss, ss)) == 0 && At(b, KeyOf(ss, ss) + 1) == |b|
    ensures forall t: byte :: InOrder(ptr, b, KeyOf(t, ss))
  {
    assert forall p :: 0 <= p < |b| ==> Key(b, p) == KeyOf(ss, ss);
    assert (set p | 0 <= p < |b| && Key(b, p) < KeyOf(ss, ss)) == {};
    assert (set p | 0 <= p < |b| && Key(b, p) < KeyOf(ss, ss) + 1) == set p | 0 <= p < |b| && Key(b, p) < 65536;
    AtEnds(b);
    forall t: byte ensures InOrder(ptr, b, KeyOf(t, ss)) {
      var key := KeyOf(t, ss);
      assert Holds(ptr, b, key);
      var s := ptr[At(b, key)..At(b, key + 1)];
      forall i | 0 <= i < |s| ensures 0 <= s[i] < |b| { assert s[i] in Elems(s); }
      OneByteOrdered(b, ss, s, true);
    }
  }

  /** The state in front of the backward scan. */
  lemma TurnAround(b: seq<byte>, ss: byte, done: seq<bool>, ptr0: seq<int>, ptr: seq<int>, start: seq<int>,
        fronts: seq<seq<int>>, copyStart: seq<int>, copyEnd: seq<int>)
    requires |ptr0| == |b| && |done| == |fronts| == 256 && !done[ss] && forall y :: 0 <= y < 256 && y != ss ==>
          InOrder(ptr0, b, KeyOf(ss, y))
    requires Forward(b, ss, done, ptr0, ptr, start, fronts, copyStart, At(b, KeyOf(ss, 0)) + |start| + |fronts[ss]|)
    requires |ptr| == |b| && Backs(ptr, b, ss, done, Empty(), copyEnd)
    ensures 0 <= At(b, KeyOf(ss, ss) + 1) <= At(b, KeyOf(ss, 256)) <= |ptr|
    ensures Backward(b, ss, done, ptr, ptr, fronts, copyStart, Elems((start + fronts[ss])[..|start| + |fronts[ss]|]),
                     Reversed(ptr[At(b, KeyOf(ss, ss) + 1)..At(b, KeyOf(ss, 256))]), Empty(), copyEnd, 0)
    ensures Reversed(ptr[At(b, KeyOf(ss, ss) + 1)..At(b, KeyOf(ss, 256))])
         == Reversed(ptr0[At(b, KeyOf(ss, ss) + 1)..At(b, KeyOf(ss, 256))])
  {
    hide Fronts, Backs, Reversed, Ordered, Lists, At;
    StartLists(ptr0, b, ss);
    SliceUntouched(b, ss, done, KeyOf(ss, ss) + 1, KeyOf(ss, 256), ptr0, ptr);
    NothingScanned(b, ss, done, false, Reversed(ptr[At(b, KeyOf(ss, ss) + 1)..At(b, KeyOf(ss, 256))]));
  }

  lemma BacksOfSame(b: seq<byte>, ss: byte, done: seq<bool>, p: seq<int>, q: seq<int>, copyEnd: seq<int>)
    requires Backs(p, b, ss, done, Empty(), copyEnd) && |q| == |p|
    ensures Backs(q, b, ss, done, Empty(), copyEnd)
  {
    forall t: byte | !done[t] ensures BackAt(q, b, KeyOf(t, ss), Empty()[t], copyEnd[t]) {
      assert BackAt(p, b, KeyOf(t, ss), Empty()[t], copyEnd[t]);
    }
  }

  /** Untouched twice. */
  lemma UntouchedTwice(b: seq<byte>, ss: byte, done: seq<bool>, p: seq<int>, q: seq<int>, r: seq<int>)
    requires |done| == 256 && Untouched(b, ss, done, p, q) && Untouched(b, ss, done, q, r)
    ensures Untouched(b, ss, done, p, r)
  {
  }

  /** After both scans. */
  lemma ScansDone(b: seq<byte>, ss: byte, done: seq<bool>, ptr: seq<int>, start: seq<int>, fronts: seq<seq<int>>,
        copyStart: seq<int>, ptr1: seq<int>, start2: seq<int>, backs: seq<seq<int>>, copyEnd: seq<int>, z: int)
    requires |fronts| == |backs| == |copyStart| == |copyEnd| == 256 && 0 <= z < |b| && b[z] != ss
    requires Scanned(b, ss, done, true, start, fronts, |start| + |fronts[ss]|)
    requires Backward(b, ss, done, ptr1, ptr, fronts, copyStart, Elems((start + fronts[ss])[..|start| + |fronts[ss]|]),
                      start2, backs, copyEnd,
                      |start2| + |backs[ss]|)
    ensures copyStart[ss] - 1 == copyEnd[ss]
    ensures forall t: byte :: !done[t] ==> InOrder(ptr, b, KeyOf(t, ss))
  {
    ScanComplete(b, ss, done, true, start, fronts, z);
    ScanComplete(b, ss, done, false, start2, backs, z);
    forall t: byte | !done[t] ensures InOrder(ptr, b, KeyOf(t, ss)) && copyStart[t] - 1 == copyEnd[t] {
      assert FrontAt(ptr, b, KeyOf(t, ss), fronts[t], copyStart[t]) &&
        BackAt(ptr, b, KeyOf(t, ss), backs[t], copyEnd[t]);
      assert FrontOk(b, ss, true, fronts[t], t, Side(b, ss, z, true)) &&
        FrontOk(b, ss, false, backs[t], t, Side(b, ss, z, false));
      Filled(ptr, b, ss, z, t, fronts[t], copyStart[t], backs[t], copyEnd[t]);
    }
  }

  /** Step 2. The small buckets [ss,y] for y != ss are in order; then the two scans put all small
      buckets [t,ss] of big buckets that are not done in order, [ss,ss] among them. No other slot
      changes, and assertion 1007 cannot fail. */
  method CopyPhase(ptr: array<int>, b: seq<byte>, ftab: array<uint32>, bigDone: seq<bool>, ss: byte, nblock: int)
    requires nblock == |b| == ptr.Length && |bigDone| == 256 && !bigDone[ss] && Starting(ftab[..], b)
    requires forall key :: 0 <= key < 65536 ==> Holds(ptr[..], b, key)
    requires forall y :: 0 <= y < 256 && y != ss ==> InOrder(ptr[..], b, KeyOf(ss, y))
    modifies ptr, ftab
    ensures forall t: byte :: !bigDone[t] ==> InOrder(ptr[..], b, KeyOf(t, ss))
    ensures Untouched(b, ss, bigDone, old(ptr[..]), ptr[..])
    ensures Starting(ftab[..], b) && forall key :: 0 <= key < 65536 ==>
          (Marked(ftab[key]) <==> Marked(old(ftab[key])) || key % 256 == ss)
  {
    hide At, Holds, InOrder, Lists, Ordered, Starts, Forward, Backward, Fronts, Backs, Untouched, Scanned;
    ghost var ptr0 := ptr[..];
    StartLists(ptr0, b, ss);
    ghost var lo, mid := At(b, KeyOf(ss, 0)), At(b, KeyOf(ss, ss));
    ghost var start := ptr0[lo..mid];
    var copyStart, copyEnd := CopyBounds(ftab, ss, b, ptr0, bigDone);
    BeginForward(b, ss, bigDone, ptr0, start, copyStart[..]);
    var first, end := Clear(ftab[ss * 256]), Clear(ftab[(ss + 1) * 256]);
    ghost var fronts := ScanForward(ptr, b, bigDone, ss, nblock, first, copyStart, start);
    ghost var ptr1 := ptr[..];
    BacksOfSame(b, ss, bigDone, ptr0, ptr1, copyEnd[..]);
    TurnAround(b, ss, bigDone, ptr0, ptr1, start, fronts, copyStart[..], copyEnd[..]);
    ghost var start2 := Reversed(ptr1[At(b, KeyOf(ss, ss) + 1)..At(b, KeyOf(ss, 256))]);
    ghost var V := Elems((start + fronts[ss])[..|start| + |fronts[ss]|]);
    ghost var z := FindOther(b, ss);
    ForwardScanned(b, ss, bigDone, ptr0, ptr1, start, fronts, copyStart[..]);
    if z < |b| {
      ScanComplete(b, ss, bigDone, true, start, fronts, z);
    } else {
      OneByteBlock(ptr0, b, ss);
      NothingListed(start);
      NothingListed(start2);
    }
    ghost var backs := ScanBackward(ptr, b, bigDone, ss, nblock, end, copyEnd, fronts, copyStart[..], V, z, start2);
    BackwardUntouched(b, ss, bigDone, ptr1, ptr[..], fronts, copyStart[..], V, start2, backs, copyEnd[..]);
    UntouchedTwice(b, ss, bigDone, ptr0, ptr1, ptr[..]);
    if z < |b| {
      ScansDone(b, ss, bigDone, ptr[..], start, fronts, copyStart[..], ptr1, start2, backs, copyEnd[..], z);
    } else {
      NothingMoved(b, ss, bigDone, ptr0, ptr1, ptr[..], start, fronts, copyStart[..], V, start2, backs, copyEnd[..]);
    }
    assert copyStart[ss] - 1 == copyEnd[ss] || (copyStart[ss] == 0 && copyEnd[ss] == nblock - 1);
    MarkDone(ftab, ss, b);
  }

  /** A position with another byte than ss, or |b| if there is none. */
  lemma FindOther(b: seq<byte>, ss: byte) returns (z: int)
    ensures 0 <= z <= |b| && (z < |b| ==> b[z] != ss) && (z == |b| ==> forall i :: 0 <= i < |b| ==> b[i] == ss)
  {
    if i :| 0 <= i < |b| && b[i] != ss { z := i; } else { z := |b|; }
  }

  lemma NothingListed(s: seq<int>)
    requires Lists(s, {})
    ensures |s| == 0
  {
    ListsSize(s, {});
  }

  lemma BeginForward(b: seq<byte>, ss: byte, done: seq<bool>, ptr0: seq<int>, start: seq<int>, copyStart: seq<int>)
    requires |ptr0| == |b| && |done| == 256 && !done[ss] && Fronts(ptr0, b, ss, done, Empty(), copyStart)
    requires 0 <= At(b, KeyOf(ss, 0)) <= At(b, KeyOf(ss, ss)) <= |ptr0|
    requires start == ptr0[At(b, KeyOf(ss, 0))..At(b, KeyOf(ss, ss))]
    requires Lists(start, Starts(b, ss, true)) && Ordered(b, start, true)
    ensures Forward(b, ss, done, ptr0, ptr0, start, Empty(), copyStart, At(b, KeyOf(ss, 0)))
  {
    hide At, Fronts, Lists, Ordered;
    NothingScanned(b, ss, done, true, start);
  }

  lemma ForwardScanned(b: seq<byte>, ss: byte, done: seq<bool>, ptr0: seq<int>, ptr: seq<int>, start: seq<int>,
        fronts: seq<seq<int>>, copyStart: seq<int>)
    requires |fronts| == 256
    requires Forward(b, ss, done, ptr0, ptr, start, fronts, copyStart, At(b, KeyOf(ss, 0)) + |start| + |fronts[ss]|)
    ensures Scanned(b, ss, done, true, start, fronts, |start| + |fronts[ss]|) && |done| == 256
    ensures Untouched(b, ss, done, ptr0, ptr)
  {
  }

  lemma BackwardUntouched(b: seq<byte>, ss: byte, done: seq<bool>, ptr0: seq<int>, ptr: seq<int>, fronts: seq<seq<int>>,
        copyStart: seq<int>, V: set<int>, start: seq<int>, backs: seq<seq<int>>, copyEnd: seq<int>)
    requires |backs| == 256
    requires Backward(b, ss, done, ptr0, ptr, fronts, copyStart, V, start, backs, copyEnd, |start| + |backs[ss]|)
    ensures |done| == 256 && Untouched(b, ss, done, ptr0, ptr)
  {
  }

  /** When there is nothing to scan, nothing moves. */
  lemma NothingMoved(b: seq<byte>, ss: byte, done: seq<bool>, ptr0: seq<int>, ptr1: seq<int>, ptr: seq<int>,
        start: seq<int>, fronts: seq<seq<int>>, copyStart: seq<int>, V: set<int>, start2: seq<int>,
          backs: seq<seq<int>>, copyEnd: seq<int>)
    requires |ptr0| == |b| && |fronts| == |backs| == |copyStart| == |copyEnd| == 256 && |start| == |start2| == 0
    requires |done| == 256 && !done[ss]
    requires Forward(b, ss, done, ptr0, ptr1, start, fronts, copyStart, At(b, KeyOf(ss, 0)) + |start| + |fronts[ss]|)
    requires Backward(b, ss, done, ptr1, ptr, fronts, copyStart, V, start2, backs, copyEnd, |start2| + |backs[ss]|)
    ensures ptr == ptr0 && copyStart[ss] == At(b, KeyOf(ss, ss)) && copyEnd[ss] == At(b, KeyOf(ss, ss) + 1) - 1
  {
    assert FrontAt(ptr, b, KeyOf(ss, ss), fronts[ss], copyStart[ss]) &&
      BackAt(ptr, b, KeyOf(ss, ss), backs[ss], copyEnd[ss]);
  }

  /** ftab[(j << 8) + ss] |= SETMASK for all j. */
  method MarkDone(ftab: array<uint32>, ss: byte, ghost b: seq<byte>)
    requires Starting(ftab[..], b)
    modifies ftab
    ensures Starting(ftab[..], b) && forall key :: 0 <= key < 65536 ==>
          (Marked(ftab[key]) <==> Marked(old(ftab[key])) || key % 256 == ss)
  {
    hide At;
    for j := 0 to 256
      invariant Starting(ftab[..], b)
      invariant forall key :: 0 <= key < 65536 ==>
            (Marked(ftab[key]) <==> Marked(old(ftab[key])) || (key % 256 == ss && key / 256 < j))
    {
      MaskKeeps(ftab[j * 256 + ss]);
      ftab[j * 256 + ss] := WithMask(ftab[j * 256 + ss]);
    }
  }

  lemma MaskKeeps(x: int)
    requires 0 <= x < 2 * SETMASK
    ensures 0 <= WithMask(x) < 2 * SETMASK && Clear(WithMask(x)) == Clear(x) && Marked(WithMask(x))
  {
  }
}
