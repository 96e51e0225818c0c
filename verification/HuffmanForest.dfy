/** The forest that BZ2_hbMakeCodeLengths builds in weight and parent: what one merge keeps, why
    light trees are low, and why the depths of the leaves satisfy Kraft's equality. */
module HuffmanForest {
  import opened Bytes

  /** The two parts of a packed weight: WEIGHTOF (shifted down) and DEPTHOF. */
  function Weight(z: int): int {
    z / 256
  }

  function Depth(z: int): (d: int)
    ensures 0 <= d < 256
  {
    z % 256
  }

  /** ADDWEIGHTS. The low byte of the sum is zero, so the OR of the original adds; the depth must
      not reach into the weight. */
  function AddWeights(zw1: nat, zw2: nat): (r: nat)
    requires Depth(zw1) < 255 && Depth(zw2) < 255
    ensures Weight(r) == Weight(zw1) + Weight(zw2)
    ensures Depth(r) == 1 + if Depth(zw1) > Depth(zw2) then Depth(zw1) else Depth(zw2)
  {
    (zw1 - zw1 % 256) + (zw2 - zw2 % 256) + (1 + if zw1 % 256 > zw2 % 256 then zw1 % 256 else zw2 % 256)
  }

  /** The least weight of a tree of depth d: Fibonacci numbers. */
  ghost function Least(d: nat): (r: nat)
    ensures r >= 1
  {
    if d == 0 then 1 else if d == 1 then 2 else Least(d - 1) + Least(d - 2)
  }

  lemma {:induction false} LeastMonotone(d: nat, e: nat)
    requires d <= e
    ensures Least(d) <= Least(e)
    decreases e
  {
    if d < e { LeastMonotone(d, e - 1); }
  }

  lemma LeastValues()
    ensures Least(18) == 6765 && Least(29) == 1346269
  {
    assert Least(2) == 3 && Least(3) == 5;
    assert Least(4) == 8 && Least(5) == 13;
    assert Least(6) == 21 && Least(7) == 34;
    assert Least(8) == 55 && Least(9) == 89;
    assert Least(10) == 144 && Least(11) == 233;
    assert Least(12) == 377 && Least(13) == 610;
    assert Least(14) == 987 && Least(15) == 1597;
    assert Least(16) == 2584 && Least(17) == 4181;
    assert Least(18) == 6765 && Least(19) == 10946;
    assert Least(20) == 17711 && Least(21) == 28657;
    assert Least(22) == 46368 && Least(23) == 75025;
    assert Least(24) == 121393 && Least(25) == 196418;
    assert Least(26) == 317811 && Least(27) == 514229;
    assert Least(28) == 832040;
  }

  /** Weights that occur cannot give depths that matter to the packing. */
  lemma LightIsLow(d: nat, weight: int)
    requires Least(d) <= weight
    ensures weight < 1346269 ==> d < 29
    ensures weight < 6765 ==> d < 18
  {
    hide Least;
    LeastValues();
    if d >= 29 { LeastMonotone(29, d); }
    if d >= 18 { LeastMonotone(18, d); }
  }

  /** What holds of node k when nodes 1..n exist, the first a of them leaves, and m is the weight
      of the heavier node of the last merge. */
  ghost predicate NodeOk(w: seq<int>, p: seq<int>, a: int, n: int, m: int, k: int)
    requires 1 <= k <= n < |w| == |p|
  {
    && w[k] >= 256 && Weight(w[k]) >= Least(Depth(w[k]))
    && (k <= a ==> Depth(w[k]) == 0)
    && (Depth(w[k]) >= 1 ==> Least(Depth(w[k]) - 1) <= m)
    && (p[k] == -1 ==> Weight(w[k]) >= m)
    && (p[k] != -1 ==> k < p[k] <= n && a < p[k] && Depth(w[p[k]]) > Depth(w[k]))
  }

  /** How many of the first i nodes have node t as their parent. */
  ghost function Kids(p: seq<int>, t: int, i: int): (r: nat)
    requires 0 <= i < |p|
    decreases i
  {
    if i == 0 then 0 else Kids(p, t, i - 1) + (if p[i] == t then 1 else 0)
  }

  ghost predicate Forest(w: seq<int>, p: seq<int>, a: int, n: int, m: int) {
    && 0 <= n < |w| == |p| && w[0] == 0 && p[0] == -2 && m >= 1
    && (forall k :: 1 <= k <= n ==> NodeOk(w, p, a, n, m, k))
    && (forall t :: a < t <= n ==> Kids(p, t, n) == 2)
  }

  /** The total weight of the roots. */
  ghost function RootSum(w: seq<int>, p: seq<int>, i: int): int
    requires 0 <= i < |w| == |p|
    decreases i
  {
    if i == 0 then 0 else RootSum(w, p, i - 1) + (if p[i] == -1 then Weight(w[i]) else 0)
  }

  ghost function Roots(p: seq<int>, n: int): set<int>
    requires n < |p|
  {
    set k | 1 <= k <= n && p[k] == -1
  }

  lemma {:induction false} KidsSame(p: seq<int>, p': seq<int>, t: int, i: int)
    requires 0 <= i < |p| == |p'|
    requires forall k :: 1 <= k <= i ==> (p[k] == t <==> p'[k] == t)
    ensures Kids(p, t, i) == Kids(p', t, i)
    decreases i
  {
    if i > 0 { KidsSame(p, p', t, i - 1); }
  }

  lemma {:induction false} NoKids(p: seq<int>, t: int, i: int)
    requires 0 <= i < |p| && forall k :: 1 <= k <= i ==> p[k] != t
    ensures Kids(p, t, i) == 0
    decreases i
  {
    if i > 0 { NoKids(p, t, i - 1); }
  }

  /** One more child. */
  lemma {:induction false} KidAdded(p: seq<int>, t: int, c: int, i: int)
    requires 0 <= i < |p| && 1 <= c < |p| && p[c] != t
    ensures Kids(p[c := t], t, i) == Kids(p, t, i) + if c <= i then 1 else 0
    decreases i
  {
    if i > 0 { KidAdded(p, t, c, i - 1); }
  }

  lemma {:induction false} RootSumSame(w: seq<int>, p: seq<int>, w': seq<int>, p': seq<int>, i: int)
    requires 0 <= i < |w| == |p| == |w'| == |p'|
    requires forall k :: 1 <= k <= i ==> w[k] == w'[k] && (p[k] == -1 <==> p'[k] == -1)
    ensures RootSum(w, p, i) == RootSum(w', p', i)
    decreases i
  {
    if i > 0 { RootSumSame(w, p, w', p', i - 1); }
  }

  lemma {:induction false} RootGone(w: seq<int>, p: seq<int>, c: int, t: int, i: int)
    requires 0 <= i < |w| == |p| && 1 <= c < |p| && p[c] == -1 && t != -1
    ensures RootSum(w, p[c := t], i) == RootSum(w, p, i) - if c <= i then Weight(w[c]) else 0
    decreases i
  {
    if i > 0 { RootGone(w, p, c, t, i - 1); }
  }

  /** No root weighs more than all of them. */
  lemma {:induction false} RootAtMost(w: seq<int>, p: seq<int>, k: int, i: int)
    requires 0 <= i < |w| == |p| && forall j :: 1 <= j <= i ==> Weight(w[j]) >= 0
    ensures 0 <= RootSum(w, p, i)
    ensures 1 <= k <= i && p[k] == -1 ==> Weight(w[k]) <= RootSum(w, p, i)
    decreases i
  {
    if i > 0 { RootAtMost(w, p, k, i - 1); }
  }

  lemma {:induction false} TwoRootsAtMost(w: seq<int>, p: seq<int>, j: int, k: int, i: int)
    requires 0 <= i < |w| == |p| && forall j :: 1 <= j <= i ==> Weight(w[j]) >= 0
    requires 1 <= j <= i && 1 <= k <= i && j != k && p[j] == -1 && p[k] == -1
    ensures Weight(w[j]) + Weight(w[k]) <= RootSum(w, p, i)
    decreases i
  {
    if i == j {
      RootAtMost(w, p, k, i - 1);
    } else if i == k {
      RootAtMost(w, p, j, i - 1);
    } else {
      TwoRootsAtMost(w, p, j, k, i - 1);
    }
  }

  /** parent after the merge of n1 and n2 into node t. */
  ghost function Joined(p: seq<int>, n1: int, n2: int, t: int): (r: seq<int>)
    requires 1 <= n1 < t && 1 <= n2 < t < |p|
    ensures |r| == |p|
  {
    p[n1 := t][n2 := t][t := -1]
  }

  /** The two lightest roots may be merged. */
  ghost predicate Mergeable(w: seq<int>, p: seq<int>, n: int, n1: int, n2: int)
    requires n < |w| == |p|
  {
    && 1 <= n1 <= n && 1 <= n2 <= n && n1 != n2 && p[n1] == -1 && p[n2] == -1
    && 0 <= w[n1] <= w[n2]
    && forall k :: 1 <= k <= n && p[k] == -1 && k != n1 ==> w[n2] <= w[k]
  }

  lemma WeightMonotone(x: int, y: int)
    requires x <= y
    ensures Weight(x) <= Weight(y)
  {
  }

  /** The new root is at least as heavy as its depth demands. */
  lemma MergedWeight(w: seq<int>, p: seq<int>, a: int, n: int, m: int, n1: int, n2: int, z: int)
    requires Forest(w, p, a, n, m) && Mergeable(w, p, n, n1, n2)
    requires Depth(w[n1]) < 255 && Depth(w[n2]) < 255 && z == AddWeights(w[n1], w[n2])
    ensures Weight(z) >= Least(Depth(z)) && Least(Depth(z) - 1) <= Weight(w[n2]) && m <= Weight(w[n2])
    ensures z >= 256 && Weight(w[n1]) <= Weight(w[n2]) <= Weight(z)
    ensures Depth(z) > Depth(w[n1]) && Depth(z) > Depth(w[n2])
  {
    assert NodeOk(w, p, a, n, m, n1) && NodeOk(w, p, a, n, m, n2);
    WeightMonotone(w[n1], w[n2]);
  }

  lemma MergeKeepsNode(w: seq<int>, p: seq<int>, a: int, n: int, m: int, n1: int, n2: int, z: int, k: int)
    requires 0 <= a <= n < |w| - 1 && Forest(w, p, a, n, m) && Mergeable(w, p, n, n1, n2)
    requires Depth(w[n1]) < 255 && Depth(w[n2]) < 255 && z == AddWeights(w[n1], w[n2])
    requires 1 <= k <= n + 1
    ensures NodeOk(w[n + 1 := z], Joined(p, n1, n2, n + 1), a, n + 1, Weight(w[n2]), k)
  {
    hide Least, Kids, Weight, Depth;
    MergedWeight(w, p, a, n, m, n1, n2, z);
    if k <= n {
      assert NodeOk(w, p, a, n, m, k);
      if p[k] == -1 && k != n1 { WeightMonotone(w[n2], w[k]); }
    }
  }

  /** A merge keeps the forest; the weights of all roots are now at least that of n2. */
  lemma MergeKeepsForest(w: seq<int>, p: seq<int>, a: int, n: int, m: int, n1: int, n2: int, z: int)
    requires 0 <= a <= n < |w| - 1 && Forest(w, p, a, n, m) && Mergeable(w, p, n, n1, n2)
    requires Depth(w[n1]) < 255 && Depth(w[n2]) < 255 && z == AddWeights(w[n1], w[n2])
    ensures Forest(w[n + 1 := z], Joined(p, n1, n2, n + 1), a, n + 1, Weight(w[n2]))
    ensures RootSum(w[n + 1 := z], Joined(p, n1, n2, n + 1), n + 1) == RootSum(w, p, n)
  {
    hide Least, NodeOk, Depth;
    var t, w', p' := n + 1, w[n + 1 := z], Joined(p, n1, n2, n + 1);
    forall k | 1 <= k <= t ensures NodeOk(w', p', a, t, Weight(w[n2]), k) {
      MergeKeepsNode(w, p, a, n, m, n1, n2, z, k);
    }
    MergedWeight(w, p, a, n, m, n1, n2, z);
    forall k | 1 <= k <= n ensures p[k] <= n { ParentBelow(w, p, a, n, m, k); }
    forall s | a < s <= t ensures Kids(p', s, t) == 2 {
      if s <= n {
        KidsSame(p, p', s, n);
      } else {
        NoKids(p, t, n);
        KidAdded(p, t, n1, n);
        KidAdded(p[n1 := t], t, n2, n);
        KidsSame(p[n1 := t][n2 := t], p', t, n);
      }
    }
    RootGone(w, p, n1, t, n);
    RootGone(w, p[n1 := t], n2, t, n);
    RootSumSame(w, p[n1 := t][n2 := t], w', p', n);
  }

  lemma ParentBelow(w: seq<int>, p: seq<int>, a: int, n: int, m: int, k: int)
    requires Forest(w, p, a, n, m) && 1 <= k <= n
    ensures p[k] <= n
  {
    assert NodeOk(w, p, a, n, m, k);
  }

  /** Parents come later, and only the last node has none. */
  ghost predicate Tree(p: seq<int>, a: int, n: int) {
    && 1 <= a < n < |p| && p[n] == -1
    && (forall k :: 1 <= k < n ==> k < p[k] <= n && a < p[k])
    && (forall t :: a < t <= n ==> Kids(p, t, n) == 2)
  }

  /** The length of the path to the root: what the counting loop computes. */
  ghost function PathLength(p: seq<int>, a: int, n: int, k: int): (r: nat)
    requires Tree(p, a, n) && 1 <= k <= n
    decreases n - k
  {
    if k == n then 0 else 1 + PathLength(p, a, n, p[k])
  }

  /** The packed depth of the root bounds every path. */
  lemma {:induction false} PathAtMostDepth(w: seq<int>, p: seq<int>, a: int, n: int, m: int, k: int)
    requires Tree(p, a, n) && Forest(w, p, a, n, m) && 1 <= k <= n
    ensures PathLength(p, a, n, k) + Depth(w[k]) <= Depth(w[n])
    decreases n - k
  {
    if k < n {
      assert NodeOk(w, p, a, n, m, k);
      PathAtMostDepth(w, p, a, n, m, p[k]);
    }
  }

  /** The shares of the first i nodes that are cut off when everything above t is removed. */
  ghost function Share(p: seq<int>, a: int, n: int, M: nat, t: int, i: int): nat
    requires Tree(p, a, n) && 0 <= i <= n
    decreases i
  {
    if i == 0 then 0
    else Share(p, a, n, M, t, i - 1)
         + (if i == n || p[i] > t then Part(p, a, n, M, i) else 0)
  }

  ghost function Part(p: seq<int>, a: int, n: int, M: nat, k: int): nat
    requires Tree(p, a, n) && 1 <= k <= n
  {
    if PathLength(p, a, n, k) <= M then Pow2(M - PathLength(p, a, n, k)) else 0
  }

  lemma {:induction false} ShareOfRoot(p: seq<int>, a: int, n: int, M: nat, i: int)
    requires Tree(p, a, n) && 0 <= i < n
    ensures Share(p, a, n, M, n, i) == 0
    decreases i
  {
    if i > 0 { ShareOfRoot(p, a, n, M, i - 1); }
  }

  lemma PartOfKid(p: seq<int>, a: int, n: int, M: nat, t: int, i: int)
    requires Tree(p, a, n) && 1 <= i < n && p[i] == t && PathLength(p, a, n, t) < M
    ensures Part(p, a, n, M, i) == Pow2(M - PathLength(p, a, n, t) - 1)
  {
  }

  /** Removing t hands its share to its children, each of which gets half of it. */
  lemma {:induction false} ShareHandedDown(p: seq<int>, a: int, n: int, M: nat, t: int, i: int)
    requires Tree(p, a, n) && a < t <= n && 0 <= i < t && PathLength(p, a, n, t) < M
    ensures Share(p, a, n, M, t - 1, i)
         == Share(p, a, n, M, t, i) + Kids(p, t, i) * Pow2(M - PathLength(p, a, n, t) - 1)
    decreases i
  {
    if i > 0 {
      ShareHandedDown(p, a, n, M, t, i - 1);
      var x, c := Pow2(M - PathLength(p, a, n, t) - 1), Kids(p, t, i - 1);
      if p[i] == t { PartOfKid(p, a, n, M, t, i); }
      hide Part, PathLength, Pow2;
      assert (c + 1) * x == c * x + x;
    }
  }

  lemma {:induction false} LateKids(p: seq<int>, a: int, n: int, t: int, i: int)
    requires Tree(p, a, n) && a < t <= n && t - 1 <= i <= n
    ensures Kids(p, t, i) == Kids(p, t, t - 1)
    decreases i
  {
    if i > t - 1 { LateKids(p, a, n, t, i - 1); }
  }

  /** A node with children is higher than they are. */
  lemma {:induction false} HasKid(p: seq<int>, t: int, i: int) returns (c: int)
    requires 0 <= i < |p| && Kids(p, t, i) > 0
    ensures 1 <= c <= i && p[c] == t
    decreases i
  {
    if p[i] == t { c := i; } else { c := HasKid(p, t, i - 1); }
  }

  lemma {:induction false} SharesAddUp(p: seq<int>, a: int, n: int, M: nat, t: int)
    requires Tree(p, a, n) && a <= t <= n
    requires forall k :: 1 <= k <= n ==> PathLength(p, a, n, k) <= M
    ensures Share(p, a, n, M, t, t) == Pow2(M)
    decreases n - t
  {
    if t == n {
      ShareOfRoot(p, a, n, M, n - 1);
    } else {
      var s := t + 1;
      SharesAddUp(p, a, n, M, s);
      var c := HasKid(p, s, n);
      assert PathLength(p, a, n, c) == 1 + PathLength(p, a, n, s);
      ShareHandedDown(p, a, n, M, s, t);
      LateKids(p, a, n, s, n);
    }
  }

  /** Kraft's equality for the leaves. */
  ghost function LeafSum(p: seq<int>, a: int, n: int, M: nat, i: int): nat
    requires Tree(p, a, n) && 0 <= i <= a
    decreases i
  {
    if i == 0 then 0 else LeafSum(p, a, n, M, i - 1) + Part(p, a, n, M, i)
  }

  lemma {:induction false} LeavesShare(p: seq<int>, a: int, n: int, M: nat, i: int)
    requires Tree(p, a, n) && 0 <= i <= a
    ensures Share(p, a, n, M, a, i) == LeafSum(p, a, n, M, i)
    decreases i
  {
    if i > 0 { LeavesShare(p, a, n, M, i - 1); }
  }

  lemma KraftOfLeaves(p: seq<int>, a: int, n: int, M: nat)
    requires Tree(p, a, n) && forall k :: 1 <= k <= n ==> PathLength(p, a, n, k) <= M
    ensures LeafSum(p, a, n, M, a) == Pow2(M)
  {
    SharesAddUp(p, a, n, M, a);
    LeavesShare(p, a, n, M, a);
  }
}
