/** Why merging the two lightest roots gives the shortest code: for every node t from the last one down,
    no lengths that satisfy Kraft for the roots of that time cost less than their paths. */
module HuffmanOptimal {
  import opened BitSlices
  import opened Bytes
  import opened HuffmanForest

  /** The weight of those of the first i nodes that have node t as their parent. */
  ghost function KidWeight(w: seq<int>, p: seq<int>, t: int, i: int): int
    requires 0 <= i < |w| == |p|
    decreases i
  {
    if i == 0 then 0 else KidWeight(w, p, t, i - 1) + (if p[i] == t then Weight(w[i]) else 0)
  }

  /** Node t was made of two nodes that no other root of that time was lighter than, and weighs what they do. */
  ghost predicate GreedyAt(w: seq<int>, p: seq<int>, t: int)
    requires 1 <= t < |w| == |p|
  {
    && KidWeight(w, p, t, t - 1) == Weight(w[t])
    && forall c, k :: 1 <= c < t && 1 <= k < t && p[c] == t && (p[k] == -1 || p[k] > t) ==> Weight(w[c]) <= Weight(w[k])
  }

  ghost predicate Greedy(w: seq<int>, p: seq<int>, a: int, n: int) {
    0 <= a <= n < |w| == |p| && forall t :: a < t <= n ==> GreedyAt(w, p, t)
  }

  // What a merge keeps

  lemma {:induction false} KidWeightSame(w: seq<int>, p: seq<int>, w': seq<int>, p': seq<int>, t: int, i: int)
    requires 0 <= i < |w| == |p| == |w'| == |p'|
    requires forall k :: 1 <= k <= i ==> w[k] == w'[k] && (p[k] == t <==> p'[k] == t)
    ensures KidWeight(w, p, t, i) == KidWeight(w', p', t, i)
    decreases i
  {
    if i > 0 { KidWeightSame(w, p, w', p', t, i - 1); }
  }

  lemma {:induction false} NoKidWeight(w: seq<int>, p: seq<int>, t: int, i: int)
    requires 0 <= i < |w| == |p| && forall k :: 1 <= k <= i ==> p[k] != t
    ensures KidWeight(w, p, t, i) == 0
    decreases i
  {
    if i > 0 { NoKidWeight(w, p, t, i - 1); }
  }

  lemma {:induction false} KidWeightAdded(w: seq<int>, p: seq<int>, t: int, c: int, i: int)
    requires 0 <= i < |w| == |p| && 1 <= c < |p| && p[c] != t
    ensures KidWeight(w, p[c := t], t, i) == KidWeight(w, p, t, i) + if c <= i then Weight(w[c]) else 0
    decreases i
  {
    if i > 0 { KidWeightAdded(w, p, t, c, i - 1); }
  }

  lemma MergeKeepsGreedy(w: seq<int>, p: seq<int>, a: int, n: int, m: int, n1: int, n2: int, z: int)
    requires 0 <= a <= n < |w| - 1 && Forest(w, p, a, n, m) && Mergeable(w, p, n, n1, n2) && Greedy(w, p, a, n)
    requires Depth(w[n1]) < 255 && Depth(w[n2]) < 255 && z == AddWeights(w[n1], w[n2])
    ensures Greedy(w[n + 1 := z], Joined(p, n1, n2, n + 1), a, n + 1)
  {
    hide Forest, Weight, Depth, KidWeight;
    var s, w', p' := n + 1, w[n + 1 := z], Joined(p, n1, n2, n + 1);
    forall k | 1 <= k <= n ensures p[k] <= n { ParentBelow(w, p, a, n, m, k); }
    forall t | a < t <= n ensures GreedyAt(w', p', t) {
      assert GreedyAt(w, p, t);
      KidWeightSame(w, p, w', p', t, t - 1);
    }
    NoKidWeight(w, p, s, n);
    KidWeightAdded(w, p, s, n1, n);
    KidWeightAdded(w, p[n1 := s], s, n2, n);
    KidWeightSame(w, p[n1 := s][n2 := s], w', p', s, n);
    forall c, k | 1 <= c < s && 1 <= k < s && p'[c] == s && (p'[k] == -1 || p'[k] > s)
      ensures Weight(w'[c]) <= Weight(w'[k])
    {
      WeightMonotone(w[n1], w[n2]);
      WeightMonotone(w[n2], w[k]);
    }
  }

  // Lengths for the roots that there were when the last node was t

  ghost predicate Open(p: seq<int>, n: int, t: int, i: int)
    requires 0 <= i < |p|
  {
    i == n || p[i] > t
  }

  ghost predicate Bounded(p: seq<int>, n: int, t: int, len: seq<int>, M: nat, i: int)
    requires 0 <= i < |p| == |len|
  {
    forall j :: 1 <= j <= i && Open(p, n, t, j) ==> 0 <= len[j] <= M
  }

  /** Kraft's sum, in units of 2^-M. */
  ghost function Room(p: seq<int>, n: int, t: int, len: seq<int>, M: nat, i: int): nat
    requires 0 <= i < |p| == |len|
    decreases i
  {
    if i == 0 then 0
    else Room(p, n, t, len, M, i - 1) + (if Open(p, n, t, i) && 0 <= len[i] <= M then Pow2(M - len[i]) else 0)
  }

  ghost function Cost(w: seq<int>, p: seq<int>, n: int, t: int, len: seq<int>, i: int): int
    requires 0 <= i < |w| == |p| == |len|
    decreases i
  {
    if i == 0 then 0 else Cost(w, p, n, t, len, i - 1) + (if Open(p, n, t, i) then Weight(w[i]) * len[i] else 0)
  }

  lemma {:induction false} RoomUpdated(p: seq<int>, n: int, t: int, len: seq<int>, M: nat, k: int, v: nat, i: int)
    requires 0 <= i < |p| == |len| && 1 <= k < |p| && Open(p, n, t, k) && 0 <= len[k] <= M && v <= M
    ensures Room(p, n, t, len[k := v], M, i)
            == Room(p, n, t, len, M, i) + if k <= i then Pow2(M - v) - Pow2(M - len[k]) else 0
    decreases i
  {
    hide Pow2;
    if i > 0 { RoomUpdated(p, n, t, len, M, k, v, i - 1); }
  }

  lemma {:induction false} CostUpdated(w: seq<int>, p: seq<int>, n: int, t: int, len: seq<int>, k: int, v: int, i: int)
    requires 0 <= i < |w| == |p| == |len| && 1 <= k < |p| && Open(p, n, t, k)
    ensures Cost(w, p, n, t, len[k := v], i)
            == Cost(w, p, n, t, len, i) + if k <= i then Weight(w[k]) * v - Weight(w[k]) * len[k] else 0
    decreases i
  {
    hide Weight;
    if i > 0 { CostUpdated(w, p, n, t, len, k, v, i - 1); }
  }

  /** The lengths of two roots change places. */
  ghost function Exchanged(len: seq<int>, c: int, k: int): seq<int>
    requires 0 <= c < |len| && 0 <= k < |len|
  {
    len[c := len[k]][k := len[c]]
  }

  lemma ExchangePays(x: int, y: int, l: int, m: int)
    requires x <= y && l <= m
    ensures x * m + y * l <= x * l + y * m
  {
    Grows((m - l) as nat, y, x);
    Distributes(m - l, y, -x);
  }

  /** Giving the longer length to the lighter root costs no more. */
  lemma ExchangeKeeps(w: seq<int>, p: seq<int>, n: int, t: int, len: seq<int>, M: nat, c: int, k: int)
    requires 0 <= t < |w| == |p| == |len| && 1 <= c <= t && 1 <= k <= t && c != k
    requires Open(p, n, t, c) && Open(p, n, t, k) && Bounded(p, n, t, len, M, t)
    requires Weight(w[c]) <= Weight(w[k]) && len[c] <= len[k]
    ensures var len' := Exchanged(len, c, k);
            && |len'| == |len| && Bounded(p, n, t, len', M, t) && Room(p, n, t, len', M, t) == Room(p, n, t, len, M, t)
            && Cost(w, p, n, t, len', t) <= Cost(w, p, n, t, len, t)
  {
    hide Weight, Pow2, Room, Cost;
    var x, y, l, m := Weight(w[c]), Weight(w[k]), len[c], len[k];
    RoomUpdated(p, n, t, len, M, c, m, t);
    RoomUpdated(p, n, t, len[c := m], M, k, l, t);
    CostUpdated(w, p, n, t, len, c, m, t);
    CostUpdated(w, p, n, t, len[c := m], k, l, t);
    ExchangePays(x, y, l, m);
  }

  /** The longest of the first i that are still roots after node s has been made, if there is one. */
  lemma {:induction false} Longest(p: seq<int>, n: int, s: int, len: seq<int>, i: int) returns (k: int)
    requires 0 <= i < |p| == |len|
    ensures 0 <= k <= i && (k > 0 ==> Open(p, n, s, k))
    ensures forall j :: 1 <= j <= i && Open(p, n, s, j) ==> k > 0 && len[j] <= len[k]
    decreases i
  {
    if i == 0 {
      k := 0;
    } else {
      k := Longest(p, n, s, len, i - 1);
      if Open(p, n, s, i) && (k == 0 || len[k] < len[i]) { k := i; }
    }
  }

  /** c is as long as all that stay roots when node s is made. */
  ghost predicate Tops(p: seq<int>, n: int, s: int, len: seq<int>, c: int)
    requires 1 <= s <= |p| == |len| && 0 <= c < |p|
  {
    forall j :: 1 <= j < s && Open(p, n, s, j) ==> len[j] <= len[c]
  }

  /** Kraft and cost of new lengths. */
  ghost predicate NoWorse(w: seq<int>, p: seq<int>, n: int, t: int, len: seq<int>, len': seq<int>, M: nat)
    requires 0 <= t < |w| == |p| == |len|
  {
    && |len'| == |len| && Bounded(p, n, t, len', M, t) && Room(p, n, t, len', M, t) <= Room(p, n, t, len, M, t)
    && Cost(w, p, n, t, len', t) <= Cost(w, p, n, t, len, t)
  }

  /** A kid of s can be made as long as all that stay roots. */
  lemma Raise(w: seq<int>, p: seq<int>, n: int, s: int, len: seq<int>, M: nat, c: int, d: int) returns (len': seq<int>)
    requires 1 < s <= n < |w| == |p| == |len| && GreedyAt(w, p, s) && Bounded(p, n, s - 1, len, M, s - 1)
    requires 1 <= c < s && 1 <= d < s && p[c] == s && p[d] == s && c != d
    ensures NoWorse(w, p, n, s - 1, len, len', M) && Tops(p, n, s, len', c) && len'[d] == len[d]
    ensures Tops(p, n, s, len, d) ==> Tops(p, n, s, len', d)
  {
    hide Weight, Room, Cost;
    var k := Longest(p, n, s, len, s - 1);
    if k > 0 && len[k] > len[c] {
      len' := Exchanged(len, c, k);
      ExchangeKeeps(w, p, n, s - 1, len, M, c, k);
    } else {
      len' := len;
    }
  }

  // The longer kid is cut down to the shorter one

  lemma {:induction false} OneKid(p: seq<int>, t: int, i: int) returns (c: int)
    requires 0 <= i < |p| && Kids(p, t, i) == 1
    ensures 1 <= c <= i && p[c] == t && forall j :: 1 <= j <= i && p[j] == t ==> j == c
    decreases i
  {
    if p[i] == t {
      c := i;
      forall j | 1 <= j < i ensures p[j] != t { OtherwiseKid(p, t, j, i - 1); }
    } else {
      c := OneKid(p, t, i - 1);
    }
  }

  lemma {:induction false} OtherwiseKid(p: seq<int>, t: int, j: int, i: int)
    requires 1 <= j <= i < |p|
    ensures p[j] == t ==> Kids(p, t, i) > 0
    decreases i
  {
    if j < i { OtherwiseKid(p, t, j, i - 1); }
  }

  lemma {:induction false} TwoKids(p: seq<int>, t: int, i: int) returns (c: int, d: int)
    requires 0 <= i < |p| && Kids(p, t, i) == 2
    ensures 1 <= c < d <= i && p[c] == t && p[d] == t && forall j :: 1 <= j <= i && p[j] == t ==> j == c || j == d
    decreases i
  {
    if p[i] == t {
      d := i;
      c := OneKid(p, t, i - 1);
    } else {
      c, d := TwoKids(p, t, i - 1);
    }
  }

  /** When no length is above m, Kraft's sum is a multiple of the share of a length of m. */
  lemma {:induction false} RoomIsMultiple(p: seq<int>, n: int, t: int, len: seq<int>, M: nat, m: nat, i: int)
      returns (q: nat)
    requires 0 <= i < |p| == |len| && m <= M && Bounded(p, n, t, len, m, i)
    ensures Room(p, n, t, len, M, i) == Pow2(M - m) * q
    decreases i
  {
    hide Pow2;
    if i == 0 {
      q := 0;
    } else {
      q := RoomIsMultiple(p, n, t, len, M, m, i - 1);
      if Open(p, n, t, i) {
        PowersMultiply(M - m, m - len[i]);
        Distributes(Pow2(M - m), q, Pow2(m - len[i]));
        q := q + Pow2(m - len[i]);
      }
    }
  }

  /** A multiple of u that is less than u above v, itself a multiple, is at most v. */
  lemma NextMultiple(u: nat, q: nat, v: nat)
    requires u * q < u * v + u
    ensures u * q <= u * v
  {
    if q >= v + 1 {
      Grows(u, q, v + 1);
      Distributes(u, v, 1);
    } else {
      Grows(u, v, q);
    }
  }

  lemma Cut(w: seq<int>, p: seq<int>, n: int, s: int, len: seq<int>, M: nat, x: int, y: int)
    requires 1 < s <= n < |w| == |p| == |len| && Bounded(p, n, s - 1, len, M, s - 1)
    requires 1 <= x < s && 1 <= y < s && x != y && Room(p, n, s - 1, len, M, s - 1) <= Pow2(M) && Weight(w[y]) >= 0
    requires p[x] == s && p[y] == s && len[x] <= len[y]
    requires Tops(p, n, s, len, x) && forall j :: 1 <= j < s && p[j] == s ==> j == x || j == y
    ensures var len' := len[y := len[x]];
            && Bounded(p, n, s - 1, len', M, s - 1) && Room(p, n, s - 1, len', M, s - 1) <= Pow2(M)
            && Cost(w, p, n, s - 1, len', s - 1) <= Cost(w, p, n, s - 1, len, s - 1)
  {
    hide Weight, Pow2, Room, Cost;
    var t, m, len' := s - 1, len[x], len[y := len[x]];
    RoomUpdated(p, n, t, len, M, y, m, t);
    CostUpdated(w, p, n, t, len, y, m, t);
    Grows(Weight(w[y]), len[y], m);
    var q := RoomIsMultiple(p, n, t, len', M, m, t);
    PowersMultiply(M - m, m);
    NextMultiple(Pow2(M - m), q, Pow2(m));
  }

  // One node instead of its two kids

  lemma {:induction false} RoomHandedDown(p: seq<int>, n: int, s: int, len: seq<int>, M: nat, m: nat, i: int)
    requires 1 <= s <= n < |p| == |len| && 0 <= i < s && m <= M
    requires forall j :: 1 <= j <= i && p[j] == s ==> len[j] == m
    ensures Room(p, n, s - 1, len, M, i) == Room(p, n, s, len, M, i) + Kids(p, s, i) * Pow2(M - m)
    decreases i
  {
    hide Pow2;
    if i > 0 {
      RoomHandedDown(p, n, s, len, M, m, i - 1);
      OneMore(Kids(p, s, i - 1), Pow2(M - m));
    }
  }

  lemma OneMore(k: nat, x: int)
    ensures (k + 1) * x == k * x + x
  {
  }

  lemma {:induction false} CostHandedDown(w: seq<int>, p: seq<int>, n: int, s: int, len: seq<int>, m: int, i: int)
    requires 1 <= s <= n < |w| == |p| == |len| && 0 <= i < s
    requires forall j :: 1 <= j <= i && p[j] == s ==> len[j] == m
    ensures Cost(w, p, n, s - 1, len, i) == Cost(w, p, n, s, len, i) + KidWeight(w, p, s, i) * m
    decreases i
  {
    hide Weight;
    if i > 0 {
      CostHandedDown(w, p, n, s, len, m, i - 1);
      Distributes(m, KidWeight(w, p, s, i - 1), Weight(w[i]));
    }
  }

  lemma {:induction false} LateLength(w: seq<int>, p: seq<int>, n: int, t: int, len: seq<int>, M: nat, k: int, v: int,
        i: int)
    requires 0 <= i < k < |w| == |p| == |len|
    ensures Room(p, n, t, len[k := v], M, i) == Room(p, n, t, len, M, i)
    ensures Cost(w, p, n, t, len[k := v], i) == Cost(w, p, n, t, len, i)
    decreases i
  {
    hide Weight, Pow2;
    if i > 0 { LateLength(w, p, n, t, len, M, k, v, i - 1); }
  }

  /** The two kids of s, of the same length m, give way to s with a length of m - 1. */
  lemma Contract(w: seq<int>, p: seq<int>, n: int, s: int, len: seq<int>, M: nat, m: nat)
    requires 1 < s <= n < |w| == |p| == |len| && (s == n || p[s] > s) && Kids(p, s, s - 1) == 2
    requires KidWeight(w, p, s, s - 1) == Weight(w[s]) && m <= M
    requires Bounded(p, n, s - 1, len, M, s - 1) && Room(p, n, s - 1, len, M, s - 1) <= Pow2(M)
    requires forall j :: 1 <= j < s && p[j] == s ==> len[j] == m
    ensures m > 0
    ensures var len' := len[s := m - 1];
            && Bounded(p, n, s, len', M, s) && Room(p, n, s, len', M, s) <= Pow2(M)
            && Cost(w, p, n, s, len', s) + Weight(w[s]) == Cost(w, p, n, s - 1, len, s - 1)
  {
    hide Weight, Kids, KidWeight;
    var t, len' := s - 1, len[s := m - 1];
    RoomHandedDown(p, n, s, len, M, m, t);
    assert 2 * Pow2(M - m) <= Pow2(M);
    CostHandedDown(w, p, n, s, len, m, t);
    LateLength(w, p, n, s, len, M, s, m - 1, t);
    assert Pow2(M - (m - 1)) == 2 * Pow2(M - m);
    Distributes(Weight(w[s]), m, -1);
  }

  /** One step back: what is best after s has been made is best before, with the kids of s one longer. */
  lemma Combine(w: seq<int>, p: seq<int>, a: int, n: int, s: int, len: seq<int>, M: nat) returns (len': seq<int>)
    requires Tree(p, a, n) && |w| == |p| == |len| && Greedy(w, p, a, n) && a < s <= n
    requires forall k :: 1 <= k <= n ==> Weight(w[k]) >= 0
    requires Bounded(p, n, s - 1, len, M, s - 1) && Room(p, n, s - 1, len, M, s - 1) <= Pow2(M)
    ensures |len'| == |len| && Bounded(p, n, s, len', M, s) && Room(p, n, s, len', M, s) <= Pow2(M)
    ensures Cost(w, p, n, s, len', s) + Weight(w[s]) <= Cost(w, p, n, s - 1, len, s - 1)
  {
    hide Weight, Kids, KidWeight, Room, Cost, Pow2;
    assert GreedyAt(w, p, s);
    LateKids(p, a, n, s, n);
    var c, d := TwoKids(p, s, s - 1);
    var l1 := Raise(w, p, n, s, len, M, c, d);
    var l2 := Raise(w, p, n, s, l1, M, d, c);
    var x, y := if l2[c] <= l2[d] then c else d, if l2[c] <= l2[d] then d else c;
    Cut(w, p, n, s, l2, M, x, y);
    var l3 := l2[y := l2[x]];
    Contract(w, p, n, s, l3, M, l3[x]);
    len' := l3[s := l3[x] - 1];
  }

  // The paths of the tree

  ghost function Paths(p: seq<int>, a: int, n: int): (r: seq<int>)
    requires Tree(p, a, n)
    ensures |r| == |p| && forall k :: 1 <= k <= n ==> r[k] == PathLength(p, a, n, k)
  {
    seq(|p|, k requires 0 <= k < |p| => if 1 <= k <= n then PathLength(p, a, n, k) else 0)
  }

  lemma {:induction false} NothingOpen(w: seq<int>, p: seq<int>, a: int, n: int, len: seq<int>, i: int)
    requires Tree(p, a, n) && |w| == |p| == |len| && 0 <= i < n
    ensures Cost(w, p, n, n, len, i) == 0
    decreases i
  {
    if i > 0 { NothingOpen(w, p, a, n, len, i - 1); }
  }

  /** No lengths within Kraft's sum cost less than the paths of the tree: for the roots that there were when the
      last node was t. */
  lemma {:induction false} PathsAreBest(w: seq<int>, p: seq<int>, a: int, n: int, t: int, len: seq<int>, M: nat)
    requires Tree(p, a, n) && |w| == |p| == |len| && Greedy(w, p, a, n) && a <= t <= n
    requires forall k :: 1 <= k <= n ==> Weight(w[k]) >= 0
    requires Bounded(p, n, t, len, M, t) && Room(p, n, t, len, M, t) <= Pow2(M)
    ensures Cost(w, p, n, t, Paths(p, a, n), t) <= Cost(w, p, n, t, len, t)
    decreases n - t
  {
    hide Weight, Kids, KidWeight, Room, Pow2, PathLength;
    var r := Paths(p, a, n);
    if t == n {
      NothingOpen(w, p, a, n, r, n - 1);
      NothingOpen(w, p, a, n, len, n - 1);
      RootPath(p, a, n);
      Grows(Weight(w[n]), len[n], 0);
    } else {
      hide Cost;
      var s := t + 1;
      var len' := Combine(w, p, a, n, s, len, M);
      PathsAreBest(w, p, a, n, s, len', M);
      PathsHandedDown(w, p, a, n, s);
    }
  }

  lemma RootPath(p: seq<int>, a: int, n: int)
    requires Tree(p, a, n)
    ensures PathLength(p, a, n, n) == 0
  {
  }

  lemma PathsHandedDown(w: seq<int>, p: seq<int>, a: int, n: int, s: int)
    requires Tree(p, a, n) && |w| == |p| && Greedy(w, p, a, n) && a < s <= n
    ensures var r := Paths(p, a, n); Cost(w, p, n, s - 1, r, s - 1) == Cost(w, p, n, s, r, s) + Weight(w[s])
  {
    hide Weight, KidWeight;
    var r := Paths(p, a, n);
    assert GreedyAt(w, p, s);
    CostHandedDown(w, p, n, s, r, r[s] + 1, s - 1);
    Distributes(Weight(w[s]), r[s], 1);
  }
}
