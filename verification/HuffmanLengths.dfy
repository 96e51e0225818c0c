/** BZ2_hbMakeCodeLengths: code lengths of at most maxLen bits for any frequencies. */
module HuffmanLengths {
  import opened Bytes
  import opened HuffmanForest
  import opened HuffmanHeap
  import opened HuffmanOptimal
  import HuffmanCodes

  const NODES := 516
  const ENTRIES := 260

  /** The heap holds the roots of the forest, every root once. */
  ghost predicate HoldsRoots(heap: seq<int>, n: int, p: seq<int>, nodes: int)
    requires 0 <= n < |heap| && nodes < |p|
  {
    multiset(heap[1..n + 1]) == multiset(Roots(p, nodes))
  }

  /** What the building of the tree keeps. */
  ghost predicate Building(heap: seq<int>, w: seq<int>, p: seq<int>, a: int, nodes: int, nHeap: int, m: int) {
    && |heap| == ENTRIES && |w| == |p| == NODES && 0 <= nHeap < ENTRIES && 0 <= nodes < NODES
    && Forest(w, p, a, nodes, m) && IsHeap(heap, w, nHeap) && HoldsRoots(heap, nHeap, p, nodes)
    && RootSum(w, p, nodes) < 1346269
  }

  /** Entries of the heap are roots. */
  lemma EntryIsRoot(heap: seq<int>, n: int, p: seq<int>, nodes: int, z: int)
    requires 0 <= n < |heap| && nodes < |p| && HoldsRoots(heap, n, p, nodes) && 1 <= z <= n
    ensures heap[z] in Roots(p, nodes)
  {
    assert heap[1..n + 1][z - 1] == heap[z];
    assert heap[z] in multiset(heap[1..n + 1]);
  }

  /** Roots are entries of the heap. */
  lemma RootIsEntry(heap: seq<int>, n: int, p: seq<int>, nodes: int, k: int) returns (z: int)
    requires 0 <= n < |heap| && nodes < |p| && HoldsRoots(heap, n, p, nodes) && k in Roots(p, nodes)
    ensures 1 <= z <= n && heap[z] == k
  {
    assert k in multiset(Roots(p, nodes));
    assert k in heap[1..n + 1];
    var i :| 0 <= i < n && heap[1..n + 1][i] == k;
    z := i + 1;
  }

  /** Take the top entry out of the heap: it is one of the lightest, and the rest is a heap. */
  method PopMin(heap: array<int>, weight: array<int>, nHeap: int) returns (top: int)
    requires heap != weight && nHeap >= 1 && IsHeap(heap[..], weight[..], nHeap)
    modifies heap
    ensures 0 < top < weight.Length && top == old(heap[1])
    ensures IsHeap(heap[..], weight[..], nHeap - 1)
    ensures multiset(heap[1..nHeap]) == multiset(old(heap[1..nHeap + 1])) - multiset{top}
    ensures forall z :: 1 <= z <= nHeap ==> 0 < old(heap[z]) < weight.Length && weight[top] <= weight[old(heap[z])]
  {
    ghost var h, w := heap[..], weight[..];
    forall z | 1 <= z <= nHeap ensures w[h[1]] <= w[h[z]] { TopIsLightest(h, w, nHeap, z); }
    top := heap[1];
    heap[1] := heap[nHeap];
    ghost var h1 := heap[..];
    TopReplaced(h, w, nHeap);
    DownHeap(heap, weight, nHeap - 1);
    assert h1[1..nHeap] == heap[1..nHeap] || multiset(h1[1..nHeap]) == multiset(heap[1..nHeap]);
  }

  lemma TopReplaced(h: seq<int>, w: seq<int>, n: int)
    requires IsHeap(h, w, n) && n >= 1
    ensures var h1 := h[1 := h[n]];
      && Nodes(h1, w, n - 1)
      && (forall z :: 2 <= z <= n - 1 && z / 2 != 1 ==> InOrder(h1, w, z))
      && multiset(h1[1..n]) == multiset(h[1..n + 1]) - multiset{h[1]}
  {
    var h1 := h[1 := h[n]];
    forall z | 2 <= z <= n - 1 && z / 2 != 1 ensures InOrder(h1, w, z) {
      assert InOrder(h, w, z);
    }
    TopGone(h, n);
  }

  lemma TopGone(h: seq<int>, n: int)
    requires 1 <= n < |h|
    ensures multiset(h[1 := h[n]][1..n]) == multiset(h[1..n + 1]) - multiset{h[1]}
  {
    var h1 := h[1 := h[n]];
    if n == 1 {
      assert h[1..2] == [h[1]] && h1[1..1] == [];
    } else {
      var mid := h[2..n];
      assert h[1..n + 1] == [h[1]] + mid + [h[n]];
      assert h1[1..n] == [h[n]] + mid;
    }
  }

  /** Put node nd, whose weight has been set, into the heap. */
  method Insert(heap: array<int>, weight: array<int>, nHeap: int, nd: int)
    requires heap != weight && nHeap >= 1 && nHeap < heap.Length && IsHeap(heap[..], weight[..], nHeap - 1)
    requires 0 < nd < weight.Length && weight[nd] > 0
    modifies heap
    ensures IsHeap(heap[..], weight[..], nHeap)
    ensures multiset(heap[1..nHeap + 1]) == multiset(old(heap[1..nHeap])) + multiset{nd}
  {
    ghost var h, w := heap[..], weight[..];
    heap[nHeap] := nd;
    ghost var h1 := heap[..];
    assert h1 == h[nHeap := nd];
    Appended(h, w, nHeap, nd);
    UpHeap(heap, weight, nHeap);
    assert multiset(h1[1..nHeap + 1]) == multiset(heap[1..nHeap + 1]);
  }

  lemma Appended(h: seq<int>, w: seq<int>, n: int, nd: int)
    requires 1 <= n < |h| && IsHeap(h, w, n - 1) && 0 < nd < |w| && w[nd] > 0
    ensures var h1 := h[n := nd];
      Nodes(h1, w, n) && IsHeap(h1, w, n - 1) && multiset(h1[1..n + 1]) == multiset(h[1..n]) + multiset{nd}
  {
    var h1 := h[n := nd];
    forall z | 2 <= z <= n - 1 ensures InOrder(h1, w, z) { assert InOrder(h, w, z); }
    assert h1[1..n + 1] == h[1..n] + [nd];
  }

  /** A node that is not in the heap may get a weight. */
  lemma OtherWeight(h: seq<int>, w: seq<int>, n: int, nd: int, z: int)
    requires IsHeap(h, w, n) && 0 < nd < |w| && forall k :: 1 <= k <= n ==> h[k] != nd
    ensures IsHeap(h, w[nd := z], n)
  {
    var w' := w[nd := z];
    forall k | 2 <= k <= n ensures InOrder(h, w', k) { assert InOrder(h, w, k); }
  }

  /** The frequencies become weights; none of them is zero. */
  ghost function FreqSum(freq: seq<int>, i: int): int
    requires 0 <= i <= |freq|
    decreases i
  {
    if i == 0 then 0 else FreqSum(freq, i - 1) + freq[i - 1]
  }

  /** The weight of a symbol of frequency f when all weights have been halved so many times. */
  ghost function Scaled(f: int, times: nat): (r: int)
    requires f >= 0
    ensures r >= 1
  {
    if times == 0 then (if f == 0 then 1 else f) else 1 + Scaled(f, times - 1) / 2
  }

  ghost predicate NonNegative(freq: seq<int>) {
    forall i :: 0 <= i < |freq| ==> freq[i] >= 0
  }

  /** The sum of all weights times the lengths. */
  ghost function CodedSize(freq: seq<int>, times: nat, len: seq<int>, i: int): int
    requires 0 <= i <= |freq| == |len| && NonNegative(freq)
    decreases i
  {
    if i == 0 then 0 else CodedSize(freq, times, len, i - 1) + Scaled(freq[i - 1], times) * len[i - 1]
  }

  ghost function ScaledSum(freq: seq<int>, times: nat, i: int): int
    requires 0 <= i <= |freq| && NonNegative(freq)
    decreases i
  {
    if i == 0 then 0 else ScaledSum(freq, times, i - 1) + Scaled(freq[i - 1], times)
  }

  /** Lengths of at most M bits that a prefix code can have. */
  ghost predicate Feasible(len: seq<int>, M: nat) {
    (forall i :: 0 <= i < |len| ==> 0 <= len[i] <= M) && HuffmanCodes.KraftSum(len, M, |len|) <= Pow2(M)
  }

  /** No lengths that a prefix code can have make the coded symbols shorter. */
  ghost predicate Shortest(freq: seq<int>, times: nat, len: seq<int>)
    requires |len| == |freq| && NonNegative(freq)
  {
    forall other: seq<int>, M: nat :: |other| == |freq| && Feasible(other, M) ==>
      CodedSize(freq, times, len, |freq|) <= CodedSize(freq, times, other, |freq|)
  }

  /** The weights of the leaves are those of the frequencies. */
  ghost predicate WeightsOf(w: seq<int>, freq: seq<int>, times: nat) {
    |freq| < |w| && NonNegative(freq) && forall k :: 1 <= k <= |freq| ==> Weight(w[k]) == Scaled(freq[k - 1], times)
  }

  /** The total weight of the leaves. */
  ghost function LeafWeights(w: seq<int>, i: int): int
    requires 0 <= i < |w|
    decreases i
  {
    if i == 0 then 0 else LeafWeights(w, i - 1) + Weight(w[i])
  }

  /** Leaves 1..a have weights, of depth zero and not too heavy together. */
  ghost predicate Leaves(w: seq<int>, a: int) {
    && |w| == NODES && 2 <= a <= 258
    && (forall k :: 1 <= k <= a ==> w[k] >= 256 && Depth(w[k]) == 0)
    && LeafWeights(w, a) < 1346269
  }

  /** The packed words of nodes 1..n are positive 32-bit numbers. */
  ghost predicate WordsFit(w: seq<int>, n: int) {
    0 <= n < |w| && forall k :: 1 <= k <= n ==> 0 < w[k] < 0x8000_0000
  }

  /** No leaf is heavier than all of them. */
  lemma {:induction false} LeafWeightFits(w: seq<int>, a: int, k: int)
    requires 1 <= k <= a < |w| && (forall j :: 1 <= j <= a ==> w[j] >= 256) && LeafWeights(w, a) < 1346269
    ensures 0 < w[k] < 0x8000_0000
    decreases a
  {
    if k < a { LeafWeightFits(w, a - 1, k); } else { PartialLeafWeights(w, 0, a - 1); }
  }

  lemma LeavesFit(w: seq<int>, a: int)
    requires Leaves(w, a)
    ensures WordsFit(w, a)
  {
    forall k | 1 <= k <= a ensures 0 < w[k] < 0x8000_0000 { LeafWeightFits(w, a, k); }
  }

  method SetWeights(weight: array<int>, freq: seq<int>, alphaSize: int)
    requires weight.Length == NODES && 2 <= alphaSize == |freq| <= 258
    requires (forall i :: 0 <= i < |freq| ==> freq[i] >= 0) && FreqSum(freq, |freq|) <= 900000
    modifies weight
    ensures Leaves(weight[..], alphaSize) && WordsFit(weight[..], alphaSize) && WeightsOf(weight[..], freq, 0)
  {
    for i := 0 to alphaSize
      invariant forall k :: 1 <= k <= i ==> Weight(weight[k]) == Scaled(freq[k - 1], 0)
      invariant forall k :: 1 <= k <= i ==> weight[k] >= 256 && Depth(weight[k]) == 0
      invariant LeafWeights(weight[..], i) <= FreqSum(freq, i) + i
    {
      ghost var w := weight[..];
      weight[i + 1] := (if freq[i] == 0 then 1 else freq[i]) * 256;
      LeafWeightsSame(w, weight[..], i);
    }
    LeavesFit(weight[..], alphaSize);
  }

  lemma {:induction false} LeafWeightsSame(w: seq<int>, w': seq<int>, i: int)
    requires 0 <= i < |w| == |w'| && forall k :: 1 <= k <= i ==> w[k] == w'[k]
    ensures LeafWeights(w, i) == LeafWeights(w', i)
    decreases i
  {
    if i > 0 { LeafWeightsSame(w, w', i - 1); }
  }

  lemma LeafAdded(h: seq<int>, w: seq<int>, p: seq<int>, a: int, i: int)
    requires Building(h, w, p, a, i - 1, i - 1, 1) && Leaves(w, a) && 1 <= i <= a
    requires RootSum(w, p, i - 1) == LeafWeights(w, i - 1)
    ensures Forest(w, p[i := -1], a, i, 1) && Roots(p[i := -1], i) == Roots(p, i - 1) + {i} && i !in Roots(p, i - 1)
    ensures RootSum(w, p[i := -1], i) == LeafWeights(w, i)
  {
    var p' := p[i := -1];
    forall k | 1 <= k <= i ensures NodeOk(w, p', a, i, 1, k) {
      if k < i { assert NodeOk(w, p, a, i - 1, 1, k); }
    }
    RootSumSame(w, p, w, p', i - 1);
  }

  lemma {:induction false} PartialLeafWeights(w: seq<int>, i: int, a: int)
    requires 0 <= i <= a < |w| && forall k :: 1 <= k <= a ==> w[k] >= 256
    ensures LeafWeights(w, i) <= LeafWeights(w, a)
    decreases a
  {
    if i < a { PartialLeafWeights(w, i, a - 1); }
  }

  /** The leaves go into the heap. */
  method PlantLeaves(heap: array<int>, weight: array<int>, parent: array<int>, alphaSize: int) returns (nHeap: int)
    requires heap != weight && heap != parent && weight != parent
    requires heap.Length == ENTRIES && parent.Length == NODES && Leaves(weight[..], alphaSize)
    modifies heap, weight, parent
    ensures nHeap == alphaSize && Building(heap[..], weight[..], parent[..], alphaSize, alphaSize, nHeap, 1)
    ensures forall k :: 1 <= k < NODES ==> weight[k] == old(weight[k])
    ensures RootSum(weight[..], parent[..], alphaSize) == LeafWeights(weight[..], alphaSize)
  {
    ghost var w0 := weight[..];
    nHeap := 0;
    heap[0] := 0;
    weight[0] := 0;
    parent[0] := -2;
    LeafWeightsSame(w0, weight[..], alphaSize);
    ghost var w := weight[..];
    assert Roots(parent[..], 0) == {};
    assert heap[1..1] == [];
    for i := 1 to alphaSize + 1
      invariant nHeap == i - 1 && weight[..] == w
      invariant Building(heap[..], w, parent[..], alphaSize, i - 1, nHeap, 1)
      invariant RootSum(w, parent[..], i - 1) == LeafWeights(w, i - 1)
    {
      nHeap := PlantLeaf(heap, weight, parent, alphaSize, nHeap, i);
    }
  }

  lemma OneMoreElement(s: set<int>, x: int)
    requires x !in s
    ensures multiset(s + {x}) == multiset(s) + multiset{x}
  {
  }

  method PlantLeaf(heap: array<int>, weight: array<int>, parent: array<int>, ghost alphaSize: int, nHeap0: int, i: int)
    returns (nHeap: int)
    requires heap != weight && heap != parent && weight != parent
    requires Leaves(weight[..], alphaSize) && 1 <= i <= alphaSize && nHeap0 == i - 1
    requires Building(heap[..], weight[..], parent[..], alphaSize, i - 1, nHeap0, 1)
    requires RootSum(weight[..], parent[..], i - 1) == LeafWeights(weight[..], i - 1)
    modifies heap, parent
    ensures nHeap == i && Building(heap[..], weight[..], parent[..], alphaSize, i, nHeap, 1)
    ensures RootSum(weight[..], parent[..], i) == LeafWeights(weight[..], i)
  {
    hide Forest, RootSum, IsHeap, Nodes, LeafWeights, Roots;
    ghost var w, p := weight[..], parent[..];
    LeafAdded(heap[..], w, p, alphaSize, i);
    PartialLeafWeights(w, i, alphaSize);
    parent[i] := -1;
    assert parent[..] == p[i := -1];
    nHeap := nHeap0 + 1;
    Insert(heap, weight, nHeap, i);
    NotRootYet(p, i - 1);
    OneMoreElement(Roots(p, i - 1), i);
  }

  /** What two pops from the heap of roots give. */
  lemma PoppedTwo(h0: seq<int>, h1: seq<int>, h2: seq<int>, w: seq<int>, p: seq<int>, a: int, nodes: int, nHeap: int,
        m: int)
    requires Building(h0, w, p, a, nodes, nHeap, m) && nHeap > 1 && |h1| == |h2| == ENTRIES
    requires multiset(h1[1..nHeap]) == multiset(h0[1..nHeap + 1]) - multiset{h0[1]}
    requires forall z :: 1 <= z <= nHeap ==> 0 < h0[z] < |w| && w[h0[1]] <= w[h0[z]]
    requires multiset(h2[1..nHeap - 1]) == multiset(h1[1..nHeap]) - multiset{h1[1]}
    requires 0 < h1[1] < |w| && forall z :: 1 <= z <= nHeap - 1 ==> 0 < h1[z] < |w| && w[h1[1]] <= w[h1[z]]
    ensures Mergeable(w, p, nodes, h0[1], h1[1])
    ensures multiset(h2[1..nHeap - 1]) == multiset(Roots(p, nodes) - {h0[1], h1[1]})
  {
    hide Forest, IsHeap, RootSum;
    var n1, n2, roots := h0[1], h1[1], Roots(p, nodes);
    EntryIsRoot(h0, nHeap, p, nodes, 1);
    assert h1[1..nHeap][0] == n2;
    assert n2 in multiset(h1[1..nHeap]);
    assert multiset(h1[1..nHeap]) == multiset(roots - {n1});
    assert n2 in multiset(roots - {n1});
    assert multiset(roots - {n1}) - multiset{n2} == multiset(roots - {n1, n2});
    var z := RootIsEntry(h0, nHeap, p, nodes, n2);
    RootWeight(w, p, a, nodes, m, n1, h0, nHeap);
    forall k | 1 <= k <= nodes && p[k] == -1 && k != n1 ensures w[n2] <= w[k] {
      assert k in multiset(roots - {n1});
      assert k in h1[1..nHeap];
      var i :| 0 <= i < nHeap - 1 && h1[1..nHeap][i] == k;
      assert h1[i + 1] == k;
    }
  }

  lemma RootWeight(w: seq<int>, p: seq<int>, a: int, nodes: int, m: int, k: int, h: seq<int>, nHeap: int)
    requires Building(h, w, p, a, nodes, nHeap, m) && k in Roots(p, nodes)
    ensures w[k] >= 256
  {
    assert NodeOk(w, p, a, nodes, m, k);
  }

  /** Depths stay far below the 255 that would reach into the weight. */
  lemma DepthsAreLow(h: seq<int>, w: seq<int>, p: seq<int>, a: int, nodes: int, nHeap: int, m: int, k: int)
    requires Building(h, w, p, a, nodes, nHeap, m) && k in Roots(p, nodes)
    ensures Depth(w[k]) < 29 && Weight(w[k]) <= RootSum(w, p, nodes)
  {
    assert NodeOk(w, p, a, nodes, m, k);
    forall j | 1 <= j <= nodes ensures Weight(w[j]) >= 0 { assert NodeOk(w, p, a, nodes, m, j); }
    RootAtMost(w, p, k, nodes);
    LightIsLow(Depth(w[k]), Weight(w[k]));
  }

  /** The roots and the heap after a merge. */
  lemma MergedRoots(h2: seq<int>, w: seq<int>, p: seq<int>, a: int, nodes: int, nHeap: int, n1: int, n2: int, z: int)
    requires |h2| == ENTRIES && |w| == |p| == NODES && 1 < nHeap <= ENTRIES && 0 <= nodes < NODES - 1
    requires IsHeap(h2, w, nHeap - 2) && Mergeable(w, p, nodes, n1, n2)
    requires multiset(h2[1..nHeap - 1]) == multiset(Roots(p, nodes) - {n1, n2})
    ensures IsHeap(h2, w[nodes + 1 := z], nHeap - 2)
    ensures Roots(Joined(p, n1, n2, nodes + 1), nodes + 1) == Roots(p, nodes) - {n1, n2} + {nodes + 1}
  {
    var t := nodes + 1;
    forall k | 1 <= k <= nHeap - 2 ensures h2[k] != t {
      assert h2[1..nHeap - 1][k - 1] == h2[k];
      assert h2[k] in multiset(h2[1..nHeap - 1]);
    }
    OtherWeight(h2, w, nHeap - 2, t, z);
    var p' := Joined(p, n1, n2, t);
    assert Roots(p', t) == Roots(p, nodes) - {n1, n2} + {t};
  }

  /** The first half of a turn of the merging loop: the two lightest roots leave the heap. */
  method PopTwo(heap: array<int>, weight: array<int>, nHeap0: int, ghost p: seq<int>, ghost a: int, ghost nodes: int,
        ghost m: int)
    returns (n1: int, n2: int, nHeap: int)
    requires heap != weight && nHeap0 > 1 && Building(heap[..], weight[..], p, a, nodes, nHeap0, m)
    modifies heap
    ensures nHeap == nHeap0 - 2 && Mergeable(weight[..], p, nodes, n1, n2) && IsHeap(heap[..], weight[..], nHeap)
    ensures multiset(heap[1..nHeap + 1]) == multiset(Roots(p, nodes) - {n1, n2})
    ensures Depth(weight[n1]) < 29 && Depth(weight[n2]) < 29
  {
    hide Forest, RootSum, IsHeap, Nodes, InOrder, Roots, Depth, Weight;
    ghost var h0, w := heap[..], weight[..];
    nHeap := nHeap0;
    n1 := PopMin(heap, weight, nHeap);
    nHeap := nHeap - 1;
    ghost var h1 := heap[..];
    n2 := PopMin(heap, weight, nHeap);
    nHeap := nHeap - 1;
    PoppedTwo(h0, h1, heap[..], w, p, a, nodes, nHeap0, m);
    MergeRoots(p, nodes, n1, n2, w);
    DepthsAreLow(h0, w, p, a, nodes, nHeap0, m, n1);
    DepthsAreLow(h0, w, p, a, nodes, nHeap0, m, n2);
  }

  lemma MergedBuilding(h2: seq<int>, w: seq<int>, p: seq<int>, a: int, nodes: int, nHeap: int, m: int, n1: int, n2: int,
        z: int, h3: seq<int>)
    requires |h2| == |h3| == ENTRIES && |w| == |p| == NODES && 1 <= nHeap < ENTRIES && 1 <= a <= nodes < NODES - 1
    requires Forest(w, p, a, nodes, m) && RootSum(w, p, nodes) < 1346269
    requires Mergeable(w, p, nodes, n1, n2) && Depth(w[n1]) < 29 && Depth(w[n2]) < 29 && z == AddWeights(w[n1], w[n2])
    requires multiset(h2[1..nHeap]) == multiset(Roots(p, nodes) - {n1, n2})
    requires IsHeap(h2, w, nHeap - 1)
    ensures 0 < z < 0x8000_0000 && IsHeap(h2, w[nodes + 1 := z], nHeap - 1)
    ensures IsHeap(h3, w[nodes + 1 := z], nHeap)
            && multiset(h3[1..nHeap + 1]) == multiset(h2[1..nHeap]) + multiset{nodes + 1}
            ==> Building(h3, w[nodes + 1 := z], Joined(p, n1, n2, nodes + 1), a, nodes + 1, nHeap, Weight(w[n2]))
                && RootSum(w[nodes + 1 := z], Joined(p, n1, n2, nodes + 1), nodes + 1) == RootSum(w, p, nodes)
  {
    hide Forest, RootSum, IsHeap, Nodes, InOrder, Depth, Weight;
    MergedRoots(h2, w, p, a, nodes, nHeap + 1, n1, n2, z);
    MergeKeepsForest(w, p, a, nodes, m, n1, n2, z);
    NewWeight(w, p, a, nodes, m, n1, n2, z);
    var rest, t := Roots(p, nodes) - {n1, n2}, nodes + 1;
    NotRootYet(p, nodes);
    assert multiset(rest + {t}) == multiset(rest) + multiset{t};
  }

  /** One turn of the merging loop. */
  method MergeTwo(heap: array<int>, weight: array<int>, parent: array<int>, ghost a: int, nNodes0: int, nHeap0: int,
                  ghost m: int)
    returns (nNodes: int, nHeap: int, ghost m': int)
    requires heap != weight && heap != parent && weight != parent && 1 <= a <= nNodes0 && nHeap0 > 1
    requires nNodes0 < NODES - 1 && Greedy(weight[..], parent[..], a, nNodes0)
    requires Building(heap[..], weight[..], parent[..], a, nNodes0, nHeap0, m)
    modifies heap, weight, parent
    ensures nNodes == nNodes0 + 1 && nHeap == nHeap0 - 1 && Greedy(weight[..], parent[..], a, nNodes)
    ensures Building(heap[..], weight[..], parent[..], a, nNodes, nHeap, m')
    ensures RootSum(weight[..], parent[..], nNodes) == old(RootSum(weight[..], parent[..], nNodes0))
    ensures 0 < weight[nNodes] < 0x8000_0000
    ensures parent[nNodes] == -1 && forall k :: 0 <= k <= nNodes0 ==> weight[k] == old(weight[k])
  {
    hide Forest, RootSum, IsHeap, Nodes, InOrder, Roots, Depth, Weight, Greedy;
    ghost var w, p := weight[..], parent[..];
    var n1, n2;
    n1, n2, nHeap := PopTwo(heap, weight, nHeap0, p, a, nNodes0, m);
    ghost var h2 := heap[..];
    nNodes := nNodes0 + 1;
    parent[n1] := nNodes;
    parent[n2] := nNodes;
    weight[nNodes] := AddWeights(weight[n1], weight[n2]);
    parent[nNodes] := -1;
    ghost var z := weight[nNodes];
    assert weight[..] == w[nNodes := z] && parent[..] == Joined(p, n1, n2, nNodes);
    MergeKeepsGreedy(w, p, a, nNodes0, m, n1, n2, z);
    nHeap := nHeap + 1;
    MergedBuilding(h2, w, p, a, nNodes0, nHeap, m, n1, n2, z, h2);
    Insert(heap, weight, nHeap, nNodes);
    MergedBuilding(h2, w, p, a, nNodes0, nHeap, m, n1, n2, z, heap[..]);
    m' := Weight(w[n2]);
  }

  lemma NotRootYet(p: seq<int>, n: int)
    requires 0 <= n < |p|
    ensures n + 1 !in Roots(p, n)
  {
  }

  lemma MergeRoots(p: seq<int>, n: int, n1: int, n2: int, w: seq<int>)
    requires n < |w| == |p| && Mergeable(w, p, n, n1, n2)
    ensures n1 in Roots(p, n) && n2 in Roots(p, n)
  {
  }

  /** The packed weight of the new node is a positive 32-bit number. */
  lemma NewWeight(w: seq<int>, p: seq<int>, a: int, n: int, m: int, n1: int, n2: int, z: int)
    requires Forest(w, p, a, n, m) && Mergeable(w, p, n, n1, n2) && RootSum(w, p, n) < 1346269
    requires Depth(w[n1]) < 255 && Depth(w[n2]) < 255 && z == AddWeights(w[n1], w[n2])
    ensures 0 < z < 0x8000_0000
  {
    MergedWeight(w, p, a, n, m, n1, n2, z);
    forall j | 1 <= j <= n ensures Weight(w[j]) >= 0 { assert NodeOk(w, p, a, n, m, j); }
    TwoRootsAtMost(w, p, n1, n2, n);
  }

  /** When one root is left, it is the last node. */
  lemma OneRootLeft(h: seq<int>, w: seq<int>, p: seq<int>, a: int, n: int, m: int)
    requires Building(h, w, p, a, n, 1, m) && 1 <= a < n
    ensures Tree(p, a, n) && Depth(w[n]) < 29 && Weight(w[n]) <= RootSum(w, p, n)
  {
    assert NodeOk(w, p, a, n, m, n);
    assert h[1..2] == [h[1]];
    forall k | 1 <= k < n ensures p[k] != -1 {
      if p[k] == -1 {
        var y := RootIsEntry(h, 1, p, n, k);
        var z := RootIsEntry(h, 1, p, n, n);
      }
    }
    forall k | 1 <= k < n ensures k < p[k] <= n && a < p[k] { assert NodeOk(w, p, a, n, m, k); }
    DepthsAreLow(h, w, p, a, n, 1, m, n);
  }

  /** The tree for the given weights: its root is the last node, no path is longer than the
      depth of the root, and that depth is limited by the total weight. */
  method BuildTree(heap: array<int>, weight: array<int>, parent: array<int>, alphaSize: int) returns (nNodes: int)
    requires heap != weight && heap != parent && weight != parent
    requires heap.Length == ENTRIES && parent.Length == NODES && Leaves(weight[..], alphaSize)
    modifies heap, weight, parent
    ensures alphaSize < nNodes < NODES && Tree(parent[..], alphaSize, nNodes)
    ensures forall k :: 1 <= k <= nNodes ==> PathLength(parent[..], alphaSize, nNodes, k) < 29
    ensures old(LeafWeights(weight[..], alphaSize)) < 6765
            ==> forall k :: 1 <= k <= nNodes ==> PathLength(parent[..], alphaSize, nNodes, k) < 18
    ensures WordsFit(weight[..], nNodes) && forall k :: 1 <= k <= alphaSize ==> weight[k] == old(weight[k])
    ensures Greedy(weight[..], parent[..], alphaSize, nNodes)
  {
    hide Forest, IsHeap, HoldsRoots, RootSum, Tree, PathLength, GreedyAt;
    ghost var w0 := weight[..];
    LeavesFit(w0, alphaSize);
    nNodes := alphaSize;
    var nHeap := PlantLeaves(heap, weight, parent, alphaSize);
    LeafWeightsSame(w0, weight[..], alphaSize);
    ghost var m := 1;
    while nHeap > 1
      invariant 1 <= nHeap && alphaSize <= nNodes && nNodes + nHeap == 2 * alphaSize
      invariant Building(heap[..], weight[..], parent[..], alphaSize, nNodes, nHeap, m)
      invariant RootSum(weight[..], parent[..], nNodes) == LeafWeights(w0, alphaSize)
      invariant WordsFit(weight[..], nNodes) && forall k :: 1 <= k <= alphaSize ==> weight[k] == w0[k]
      invariant Greedy(weight[..], parent[..], alphaSize, nNodes)
    {
      nNodes, nHeap, m := MergeTwo(heap, weight, parent, alphaSize, nNodes, nHeap, m);
    }
    ghost var w, p := weight[..], parent[..];
    OneRootLeft(heap[..], w, p, alphaSize, nNodes, m);
    PathsAreShort(heap[..], w, p, alphaSize, nNodes, m);
  }

  lemma PathsAreShort(h: seq<int>, w: seq<int>, p: seq<int>, a: int, n: int, m: int)
    requires Building(h, w, p, a, n, 1, m) && Tree(p, a, n)
    requires Depth(w[n]) < 29 && Weight(w[n]) <= RootSum(w, p, n)
    ensures forall k :: 1 <= k <= n ==> PathLength(p, a, n, k) < 29
    ensures RootSum(w, p, n) < 6765 ==> forall k :: 1 <= k <= n ==> PathLength(p, a, n, k) < 18
  {
    assert NodeOk(w, p, a, n, m, n);
    LightIsLow(Depth(w[n]), Weight(w[n]));
    forall k | 1 <= k <= n ensures PathLength(p, a, n, k) <= Depth(w[n]) { PathAtMostDepth(w, p, a, n, m, k); }
  }

  /** Count the steps from every leaf to the root. */
  method SetLengths(len: array<byte>, parent: array<int>, alphaSize: int, ghost nNodes: int, maxLen: int)
      returns (tooLong: bool)
    requires len as object != parent as object && len.Length >= alphaSize && Tree(parent[..], alphaSize, nNodes)
    requires forall k :: 1 <= k <= nNodes ==> PathLength(parent[..], alphaSize, nNodes, k) < 29
    modifies len
    ensures PathsCounted(len[..], parent[..], alphaSize, nNodes, alphaSize)
    ensures tooLong <==> exists i :: 0 <= i < alphaSize && len[i] > maxLen
  {
    hide PathLength;
    tooLong := false;
    ghost var p := parent[..];
    for i := 1 to alphaSize + 1
      invariant PathsCounted(len[..], p, alphaSize, nNodes, i - 1)
      invariant tooLong <==> exists q :: 0 <= q < i - 1 && len[q] > maxLen
    {
      ghost var was := len[..];
      var j := StepsToRoot(parent, alphaSize, nNodes, i);
      len[i - 1] := j;
      assert forall q :: 0 <= q < i - 1 ==> len[q] == was[q];
      assert len[i - 1] == j;
      if j > maxLen { tooLong := true; }
    }
  }

  ghost predicate PathsCounted(len: seq<byte>, p: seq<int>, a: int, n: int, i: int)
    requires Tree(p, a, n)
  {
    0 <= i <= a && i <= |len| && forall q :: 0 <= q < i ==> len[q] == PathLength(p, a, n, q + 1)
  }

  method StepsToRoot(parent: array<int>, ghost alphaSize: int, ghost nNodes: int, i: int) returns (j: int)
    requires Tree(parent[..], alphaSize, nNodes) && 1 <= i <= nNodes
    ensures j == PathLength(parent[..], alphaSize, nNodes, i)
  {
    j := 0;
    var k := i;
    while parent[k] >= 0
      invariant 1 <= k <= nNodes
      invariant j + PathLength(parent[..], alphaSize, nNodes, k) == PathLength(parent[..], alphaSize, nNodes, i)
      decreases nNodes - k
    {
      k := parent[k];
      j := j + 1;
    }
  }

  lemma NoLeafWeights(w: seq<int>)
    requires |w| > 0
    ensures LeafWeights(w, 0) == 0
  {
  }

  lemma NextLeafWeight(w: seq<int>, i: int)
    requires 0 < i < |w|
    ensures LeafWeights(w, i) == LeafWeights(w, i - 1) + w[i] / 256
  {
  }

  /** Halve the weights; what is above 2 gets lighter. */
  method Rescale(weight: array<int>, alphaSize: int)
    requires Leaves(weight[..], alphaSize)
    modifies weight
    ensures Leaves(weight[..], alphaSize) && WordsFit(weight[..], alphaSize)
    ensures old(LeafWeights(weight[..], alphaSize)) >= 6765
            ==> LeafWeights(weight[..], alphaSize) < old(LeafWeights(weight[..], alphaSize))
    ensures forall k :: 1 <= k <= alphaSize ==> Weight(weight[k]) == 1 + Weight(old(weight[k])) / 2
  {
    hide LeafWeights;
    ghost var w := weight[..];
    NoLeafWeights(w);
    for i := 1 to alphaSize + 1
      invariant forall k :: 1 <= k < i ==> weight[k] >= 256 && Depth(weight[k]) == 0
      invariant forall k :: 1 <= k < i ==> Weight(weight[k]) == 1 + Weight(w[k]) / 2
      invariant forall k :: i <= k <= alphaSize ==> weight[k] == w[k]
      invariant LeafWeights(weight[..], i - 1) <= LeafWeights(w, i - 1)
      invariant LeafWeights(w, i - 1) > 2 * (i - 1) ==> LeafWeights(weight[..], i - 1) < LeafWeights(w, i - 1)
    {
      ghost var before := weight[..];
      var j := weight[i] / 256;
      j := 1 + j / 2;
      weight[i] := j * 256;
      LeafWeightsSame(before, weight[..], i - 1);
      NextLeafWeight(w, i);
      NextLeafWeight(weight[..], i);
    }
    LeavesFit(weight[..], alphaSize);
  }

  lemma {:induction false} InnerPaths(p: seq<int>, a: int, n: int, M: int, k: int, len: seq<byte>)
    requires Tree(p, a, n) && 1 <= k <= n && PathsCounted(len, p, a, n, a)
    requires forall i :: 0 <= i < a ==> len[i] <= M
    ensures PathLength(p, a, n, k) <= M
    decreases k
  {
    if k > a {
      var c := HasKid(p, k, n);
      InnerPaths(p, a, n, M, c, len);
    } else {
      assert len[k - 1] == PathLength(p, a, n, k - 1 + 1);
    }
  }

  lemma {:induction false} LeafSumIsKraftSum(p: seq<int>, a: int, n: int, M: nat, len: seq<byte>, i: int)
    requires Tree(p, a, n) && 0 <= i <= a && PathsCounted(len, p, a, n, a)
    requires forall i :: 0 <= i < a ==> len[i] <= M
    ensures LeafSum(p, a, n, M, i) == HuffmanCodes.KraftSum(len, M, i)
    decreases i
  {
    if i > 0 {
      assert len[i - 1] == PathLength(p, a, n, i - 1 + 1);
      LeafSumIsKraftSum(p, a, n, M, len, i - 1);
    }
  }

  lemma LengthsAreComplete(p: seq<int>, a: int, n: int, M: nat, len: seq<byte>)
    requires Tree(p, a, n) && PathsCounted(len, p, a, n, a)
    requires forall i :: 0 <= i < a ==> len[i] <= M
    ensures HuffmanCodes.KraftSum(len, M, a) == Pow2(M)
    ensures forall i :: 0 <= i < a ==> 1 <= len[i] <= M
  {
    forall k | 1 <= k <= n ensures PathLength(p, a, n, k) <= M { InnerPaths(p, a, n, M, k, len); }
    KraftOfLeaves(p, a, n, M);
    LeafSumIsKraftSum(p, a, n, M, len, a);
    forall i | 0 <= i < a ensures 1 <= len[i] { assert len[i] == PathLength(p, a, n, i + 1); }
  }

  /** Short paths are not too long. */
  lemma NotTooLong(p: seq<int>, a: int, n: int, len: seq<byte>)
    requires Tree(p, a, n) && PathsCounted(len, p, a, n, a)
    requires forall k :: 1 <= k <= n ==> PathLength(p, a, n, k) < 18
    ensures forall i :: 0 <= i < a ==> len[i] < 18
  {
    forall i | 0 <= i < a ensures len[i] < 18 { assert len[i] == PathLength(p, a, n, i + 1); }
  }

  // The lengths are the best for the last weights

  /** A table of lengths, by node. */
  ghost function ByNode(len: seq<int>, n: nat): (r: seq<int>)
    requires |len| < n
    ensures |r| == n && forall k :: 1 <= k <= |len| ==> r[k] == len[k - 1]
  {
    [0] + len + seq(n - |len| - 1, _ => 0)
  }

  lemma {:induction false} RoomOfLeaves(p: seq<int>, a: int, n: int, len: seq<int>, M: nat, r: seq<int>, i: int)
    requires Tree(p, a, n) && 0 <= i <= a == |len| && |r| == |p| && forall k :: 1 <= k <= a ==> r[k] == len[k - 1]
    ensures Room(p, n, a, r, M, i) == HuffmanCodes.KraftSum(len, M, i)
    decreases i
  {
    hide Pow2;
    if i > 0 { RoomOfLeaves(p, a, n, len, M, r, i - 1); }
  }

  lemma {:induction false} CostOfLeaves(w: seq<int>, p: seq<int>, a: int, n: int, freq: seq<int>, times: nat,
        len: seq<int>, r: seq<int>, i: int)
    requires Tree(p, a, n) && 0 <= i <= a == |len| == |freq| && |r| == |w| == |p| && WeightsOf(w, freq, times)
    requires forall k :: 1 <= k <= a ==> r[k] == len[k - 1]
    ensures Cost(w, p, n, a, r, i) == CodedSize(freq, times, len, i)
    decreases i
  {
    hide Weight, Scaled;
    if i > 0 { CostOfLeaves(w, p, a, n, freq, times, len, r, i - 1); }
  }

  /** The paths of the tree are the shortest code for the weights of its leaves. */
  lemma TreeIsShortest(w: seq<int>, p: seq<int>, a: int, n: int, freq: seq<int>, times: nat, len: seq<byte>)
    requires Tree(p, a, n) && |w| == |p| && Greedy(w, p, a, n) && WordsFit(w, n)
    requires a == |len| == |freq| && WeightsOf(w, freq, times)
    requires PathsCounted(len, p, a, n, a)
    ensures Shortest(freq, times, len)
  {
    hide PathLength, Room, Cost, Greedy, CodedSize, HuffmanCodes.KraftSum, Scaled, Pow2, ByNode, Kids;
    CostOfLeaves(w, p, a, n, freq, times, len, Paths(p, a, n), a);
    forall other: seq<int>, M: nat | |other| == |freq| && Feasible(other, M)
      ensures CodedSize(freq, times, len, a) <= CodedSize(freq, times, other, a)
    {
      var r := ByNode(other, |p|);
      RoomOfLeaves(p, a, n, other, M, r, a);
      CostOfLeaves(w, p, a, n, freq, times, other, r, a);
      PathsAreBest(w, p, a, n, a, r, M);
    }
  }

  lemma {:induction false} LeavesAreScaled(w: seq<int>, freq: seq<int>, times: nat, i: int)
    requires WeightsOf(w, freq, times) && 0 <= i <= |freq|
    ensures LeafWeights(w, i) == ScaledSum(freq, times, i)
    decreases i
  {
    hide Weight, Scaled;
    if i > 0 { LeavesAreScaled(w, freq, times, i - 1); }
  }

  lemma WeightsHalved(w: seq<int>, w': seq<int>, freq: seq<int>, times: nat)
    requires WeightsOf(w, freq, times) && |w'| == |w|
    requires forall k :: 1 <= k <= |freq| ==> Weight(w'[k]) == 1 + Weight(w[k]) / 2
    ensures WeightsOf(w', freq, times + 1)
  {
    hide Weight;
  }

  /** The shortest code for the weights halved so many times, each time because they were 6765 or more. */
  ghost predicate BestAfter(freq: seq<int>, times: nat, len: seq<int>) {
    && |len| == |freq| && NonNegative(freq) && Shortest(freq, times, len)
    && forall j :: 0 <= j < times ==> ScaledSum(freq, j, |freq|) >= 6765
  }

  lemma {:induction false} KraftUpdated(len: seq<int>, M: nat, k: int, v: int, i: int)
    requires 0 <= i <= |len| && 0 <= k < |len| && 0 <= len[k] <= M && 0 <= v <= M
    ensures HuffmanCodes.KraftSum(len[k := v], M, i)
            == HuffmanCodes.KraftSum(len, M, i) + if k < i then Pow2(M - v) - Pow2(M - len[k]) else 0
    decreases i
  {
    hide Pow2;
    if i > 0 { KraftUpdated(len, M, k, v, i - 1); }
  }

  lemma {:induction false} SizeUpdated(freq: seq<int>, times: nat, len: seq<int>, k: int, v: int, i: int)
    requires 0 <= i <= |freq| == |len| && NonNegative(freq) && 0 <= k < |len|
    ensures CodedSize(freq, times, len[k := v], i) == CodedSize(freq, times, len, i)
              + if k < i then Scaled(freq[k], times) * v - Scaled(freq[k], times) * len[k] else 0
    decreases i
  {
    hide Scaled;
    if i > 0 { SizeUpdated(freq, times, len, k, v, i - 1); }
  }

  lemma ExchangeGains(x: int, y: int, l: int, m: int)
    requires x < y && l < m
    ensures x * m + y * l < x * l + y * m
  {
    assert (y - x) * (m - l) > 0;
    assert (y - x) * (m - l) == y * m - y * l - x * m + x * l;
  }

  /** In a shortest code, a heavier symbol never has a longer code. */
  lemma HeavierNotLonger(freq: seq<int>, times: nat, len: seq<int>, M: nat, i: int, j: int)
    requires |len| == |freq| && NonNegative(freq) && Shortest(freq, times, len) && Feasible(len, M)
    requires 0 <= i < |freq| && 0 <= j < |freq| && Scaled(freq[i], times) > Scaled(freq[j], times)
    ensures len[i] <= len[j]
  {
    hide CodedSize, HuffmanCodes.KraftSum, Scaled, Pow2;
    if len[i] > len[j] {
      var n, once, other := |freq|, len[i := len[j]], len[i := len[j]][j := len[i]];
      KraftUpdated(len, M, i, len[j], n);
      KraftUpdated(once, M, j, len[i], n);
      assert Feasible(other, M);
      SizeUpdated(freq, times, len, i, len[j], n);
      SizeUpdated(freq, times, once, j, len[i], n);
      ExchangeGains(Scaled(freq[j], times), Scaled(freq[i], times), len[j], len[i]);
    }
  }

  /** BZ2_hbMakeCodeLengths, as called with 17 bits: it terminates, and the lengths are those of a
      complete code of at most maxLen bits. It is the shortest code for the frequencies, a zero counting
      as one, unless they are 6765 or more together; then it is the shortest for the weights that come
      from halving them, as long as they are so many. */
  method MakeCodeLengths(len: array<byte>, freq: seq<int>, alphaSize: int, maxLen: int)
    requires 2 <= alphaSize == |freq| <= 258 && alphaSize <= len.Length && maxLen >= 17
    requires (forall i :: 0 <= i < |freq| ==> freq[i] >= 0) && FreqSum(freq, |freq|) <= 900000
    modifies len
    ensures forall i :: 0 <= i < alphaSize ==> 1 <= len[i] <= maxLen
    ensures HuffmanCodes.KraftSum(len[..alphaSize], maxLen, alphaSize) == Pow2(maxLen)
    ensures exists times :: BestAfter(freq, times, len[..alphaSize])
  {
    hide Tree, PathLength, PathsCounted, Leaves, LeafWeights, HuffmanCodes.KraftSum, Greedy, Scaled, Shortest, Pow2;
    var heap, weight, parent := new int[ENTRIES], new int[NODES], new int[NODES];
    SetWeights(weight, freq, alphaSize);
    ghost var times: nat := 0;
    while true
      invariant Leaves(weight[..], alphaSize) && WeightsOf(weight[..], freq, times)
      invariant forall j :: 0 <= j < times ==> ScaledSum(freq, j, |freq|) >= 6765
      decreases LeafSumNow(weight[..], alphaSize)
    {
      ghost var w := weight[..];
      LeavesAreScaled(w, freq, times, alphaSize);
      var nNodes := BuildTree(heap, weight, parent, alphaSize);
      SameLeaves(w, weight[..], alphaSize);
      var tooLong := SetLengths(len, parent, alphaSize, nNodes, maxLen);
      if !tooLong {
        CountedPrefix(len[..], parent[..], alphaSize, nNodes);
        LengthsAreComplete(parent[..], alphaSize, nNodes, maxLen, len[..alphaSize]);
        TreeIsShortest(weight[..], parent[..], alphaSize, nNodes, freq, times, len[..alphaSize]);
        break;
      }
      if LeafWeights(w, alphaSize) < 6765 { NotTooLong(parent[..], alphaSize, nNodes, len[..]); }
      ghost var w' := weight[..];
      Rescale(weight, alphaSize);
      WeightsHalved(w', weight[..], freq, times);
      times := times + 1;
    }
    assert BestAfter(freq, times, len[..alphaSize]);
  }

  lemma CountedPrefix(len: seq<byte>, p: seq<int>, a: int, n: int)
    requires Tree(p, a, n) && PathsCounted(len, p, a, n, a)
    ensures PathsCounted(len[..a], p, a, n, a)
  {
  }

  ghost function LeafSumNow(w: seq<int>, a: int): int {
    if 0 <= a < |w| then LeafWeights(w, a) else 0
  }

  lemma SameLeaves(w: seq<int>, w': seq<int>, a: int)
    requires Leaves(w, a) && |w'| == NODES && forall k :: 1 <= k <= a ==> w'[k] == w[k]
    ensures Leaves(w', a) && LeafWeights(w', a) == LeafWeights(w, a)
  {
    LeafWeightsSame(w, w', a);
  }
}
