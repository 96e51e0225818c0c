/** The binary heap of BZ2_hbMakeCodeLengths: heap[1..n] holds nodes, ordered by weight; entry 0 is
    a sentinel of weight 0. */
module HuffmanHeap {
  import opened Rearranging

  /** Entries name nodes, and only the sentinel weighs nothing. */
  ghost predicate Nodes(heap: seq<int>, weight: seq<int>, n: int) {
    && 0 <= n < |heap| && |weight| > 0 && heap[0] == 0 && weight[0] == 0
    && forall z :: 1 <= z <= n ==> 0 < heap[z] < |weight| && weight[heap[z]] > 0
  }

  ghost predicate InOrder(heap: seq<int>, weight: seq<int>, z: int)
    requires 0 <= z / 2 <= z < |heap| && 0 <= heap[z / 2] < |weight| && 0 <= heap[z] < |weight|
  {
    weight[heap[z / 2]] <= weight[heap[z]]
  }

  ghost predicate IsHeap(heap: seq<int>, weight: seq<int>, n: int) {
    && Nodes(heap, weight, n)
    && forall z :: 2 <= z <= n ==> InOrder(heap, weight, z)
  }

  /** The top entry is one of the lightest. */
  lemma {:induction false} TopIsLightest(heap: seq<int>, weight: seq<int>, n: int, z: int)
    requires IsHeap(heap, weight, n) && 1 <= z <= n
    ensures weight[heap[1]] <= weight[heap[z]]
    decreases z
  {
    if z > 1 {
      assert InOrder(heap, weight, z);
      TopIsLightest(heap, weight, n, z / 2);
    }
  }

  /** The heap while tmp is on its way: it belongs at zz, where order may be violated towards the
      entry above, but the entry above and the entries below are in order. */
  ghost predicate Rising(heap: seq<int>, weight: seq<int>, n: int, zz: int) {
    && Nodes(heap, weight, n) && 1 <= zz <= n
    && (forall z :: 2 <= z <= n && z != zz ==> InOrder(heap, weight, z))
    && (forall z :: 2 <= z <= n && z / 2 == zz && zz >= 2 ==> weight[heap[zz / 2]] <= weight[heap[z]])
  }

  lemma RisingStep(heap: seq<int>, weight: seq<int>, n: int, zz: int)
    requires Rising(heap, weight, n, zz) && 2 <= zz && weight[heap[zz]] < weight[heap[zz / 2]]
    ensures Rising(Swapped(heap, zz, zz / 2), weight, n, zz / 2)
  {
    var h := Swapped(heap, zz, zz / 2);
    forall z | 2 <= z <= n && z != zz / 2 ensures InOrder(h, weight, z) {
      if z != zz { assert InOrder(heap, weight, z); }
    }
    forall z | 2 <= z <= n && z / 2 == zz / 2 && zz / 2 >= 2 ensures weight[h[zz / 2 / 2]] <= weight[h[z]] {
      assert InOrder(heap, weight, zz / 2);
      if z != zz { assert InOrder(heap, weight, z); }
    }
  }

  lemma Risen(heap: seq<int>, weight: seq<int>, n: int, zz: int)
    requires Rising(heap, weight, n, zz) && weight[heap[zz / 2]] <= weight[heap[zz]]
    ensures IsHeap(heap, weight, n)
  {
    if zz >= 2 { assert InOrder(heap, weight, zz); }
  }

  /** The loop of UPHEAP: now is the array, in which the entry at zz is out of date. */
  ghost predicate UpLoop(a: seq<int>, now: seq<int>, weight: seq<int>, n: int, zz: int, tmp: int) {
    && 1 <= zz <= n < |now| == |a|
    && Rising(now[zz := tmp], weight, n, zz) && Rearranged(a, now[zz := tmp], 1, n)
  }

  lemma UpStarts(a: seq<int>, weight: seq<int>, n: int)
    requires n >= 1 && Nodes(a, weight, n) && IsHeap(a, weight, n - 1)
    ensures UpLoop(a, a, weight, n, n, a[n])
  {
    assert a[n := a[n]] == a;
  }

  lemma UpReads(a: seq<int>, now: seq<int>, weight: seq<int>, n: int, zz: int, tmp: int)
    requires UpLoop(a, now, weight, n, zz, tmp)
    ensures 1 <= zz <= n < |now| && 0 < tmp < |weight| && 0 <= now[zz / 2] < |weight|
  {
    var h := now[zz := tmp];
    assert h[zz] == tmp && h[zz / 2] == now[zz / 2];
  }

  lemma UpSwap(now: seq<int>, zz: int, tmp: int)
    requires 1 < zz < |now|
    ensures Swapped(now[zz := tmp], zz, zz / 2) == now[zz := now[zz / 2]][zz / 2 := tmp]
  {
    assert zz / 2 != zz;
  }

  lemma UpStep(a: seq<int>, now: seq<int>, weight: seq<int>, n: int, zz: int, tmp: int)
    requires UpLoop(a, now, weight, n, zz, tmp)
    requires 0 < tmp < |weight| && 0 <= now[zz / 2] < |weight| && weight[tmp] < weight[now[zz / 2]]
    ensures UpLoop(a, now[zz := now[zz / 2]], weight, n, zz / 2, tmp)
  {
    var h := now[zz := tmp];
    assert h[zz] == tmp && h[zz / 2] == now[zz / 2];
    UpSwap(now, zz, tmp);
    hide Rearranged, InOrder, Rising, Swapped;
    RisingStep(h, weight, n, zz);
    SwapRearranges(h, zz, zz / 2, 1, n);
    RearrangedTwice(a, h, Swapped(h, zz, zz / 2), 1, n);
  }

  lemma UpEnds(a: seq<int>, now: seq<int>, weight: seq<int>, n: int, zz: int, tmp: int)
    requires UpLoop(a, now, weight, n, zz, tmp)
    requires 0 < tmp < |weight| && 0 <= now[zz / 2] < |weight| && weight[tmp] >= weight[now[zz / 2]]
    ensures IsHeap(now[zz := tmp], weight, n) && Rearranged(a, now[zz := tmp], 1, n)
  {
    hide Rearranged;
    Risen(now[zz := tmp], weight, n, zz);
  }

  /** UPHEAP(n): the entry put at n moves up to its place. */
  method UpHeap(heap: array<int>, weight: array<int>, n: int)
    requires heap != weight && n >= 1 && Nodes(heap[..], weight[..], n) && IsHeap(heap[..], weight[..], n - 1)
    modifies heap
    ensures IsHeap(heap[..], weight[..], n) && Rearranged(old(heap[..]), heap[..], 1, n)
  {
    hide Nodes, IsHeap, UpLoop, Rearranged;
    ghost var a, w := heap[..], weight[..];
    UpStarts(a, w, n);
    UpReads(a, a, w, n, n, a[n]);
    var zz, tmp := n, heap[n];
    while weight[tmp] < weight[heap[zz / 2]]
      invariant UpLoop(a, heap[..], w, n, zz, tmp) && weight[..] == w
      invariant 1 <= zz <= n < heap.Length && 0 < tmp < weight.Length && 0 <= heap[zz / 2] < weight.Length
      decreases zz
    {
      UpStep(a, heap[..], w, n, zz, tmp);
      ghost var was := heap[..];
      heap[zz] := heap[zz / 2];
      assert heap[..] == was[zz := was[zz / 2]];
      zz := zz / 2;
      UpReads(a, heap[..], w, n, zz, tmp);
    }
    UpEnds(a, heap[..], w, n, zz, tmp);
    heap[zz] := tmp;
  }

  /** The heap while tmp sinks from zz: order may be violated towards the entries below zz only. */
  ghost predicate Sinking(heap: seq<int>, weight: seq<int>, n: int, zz: int) {
    && Nodes(heap, weight, n) && 1 <= zz && zz <= n
    && (forall z :: 2 <= z <= n && z / 2 != zz ==> InOrder(heap, weight, z))
    && (forall z :: 2 <= z <= n && z / 2 == zz && zz >= 2 ==> weight[heap[zz / 2]] <= weight[heap[z]])
  }

  lemma SinkingStep(heap: seq<int>, weight: seq<int>, n: int, zz: int, yy: int)
    requires Sinking(heap, weight, n, zz) && 2 <= yy <= n && yy / 2 == zz
    requires weight[heap[yy]] <= weight[heap[2 * zz]]
    requires 2 * zz < n ==> weight[heap[yy]] <= weight[heap[2 * zz + 1]]
    requires weight[heap[yy]] <= weight[heap[zz]]
    ensures Sinking(Swapped(heap, zz, yy), weight, n, yy)
  {
    var h := Swapped(heap, zz, yy);
    forall z | 2 <= z <= n && z / 2 != yy ensures InOrder(h, weight, z) {
      if z / 2 != zz { assert InOrder(heap, weight, z); } else { assert z == 2 * zz || z == 2 * zz + 1; }
    }
    forall z | 2 <= z <= n && z / 2 == yy ensures weight[h[yy / 2]] <= weight[h[z]] {
      assert InOrder(heap, weight, z);
    }
  }

  lemma Sunk(heap: seq<int>, weight: seq<int>, n: int, zz: int)
    requires Sinking(heap, weight, n, zz)
    requires 2 * zz <= n ==> weight[heap[zz]] <= weight[heap[2 * zz]]
    requires 2 * zz < n ==> weight[heap[zz]] <= weight[heap[2 * zz + 1]]
    ensures IsHeap(heap, weight, n)
  {
    forall z | 2 <= z <= n ensures InOrder(heap, weight, z) {
      if z / 2 == zz { assert z == 2 * zz || z == 2 * zz + 1; }
    }
  }

  /** The loop of DOWNHEAP. */
  ghost predicate DownLoop(a: seq<int>, now: seq<int>, weight: seq<int>, n: int, zz: int, tmp: int) {
    && 1 <= zz && n < |now| == |a| && zz < |now|
    && (if n <= 0 then n == 0 && zz == 1 && now[1 := tmp] == a && Nodes(a, weight, 0)
        else Sinking(now[zz := tmp], weight, n, zz) && Rearranged(a, now[zz := tmp], 1, n))
  }

  lemma DownStarts(a: seq<int>, weight: seq<int>, n: int)
    requires Nodes(a, weight, n) && 1 < |a|
    requires forall z :: 2 <= z <= n && z / 2 != 1 ==> InOrder(a, weight, z)
    ensures DownLoop(a, a, weight, n, 1, a[1])
  {
    assert a[1 := a[1]] == a;
  }

  /** The entries that a turn of the loop looks at are nodes. */
  lemma DownReads(a: seq<int>, now: seq<int>, weight: seq<int>, n: int, zz: int, tmp: int)
    requires DownLoop(a, now, weight, n, zz, tmp) && zz * 2 <= n
    ensures n < |now| && 0 < tmp < |weight| && 0 < now[2 * zz] < |weight|
    ensures (2 * zz < n ==> 0 < now[2 * zz + 1] < |weight|)
  {
    var h := now[zz := tmp];
    assert h[2 * zz] == now[2 * zz] && h[zz] == tmp;
    if 2 * zz < n { assert h[2 * zz + 1] == now[2 * zz + 1]; }
  }

  lemma DownStep(a: seq<int>, now: seq<int>, weight: seq<int>, n: int, zz: int, tmp: int, yy: int)
    requires DownLoop(a, now, weight, n, zz, tmp) && zz * 2 <= n && yy / 2 == zz && 2 <= yy <= n
    requires 0 < tmp < |weight| && 0 < now[2 * zz] < |weight| && 0 < now[yy] < |weight|
    requires weight[now[yy]] <= weight[now[2 * zz]]
    requires 2 * zz < n ==> 0 < now[2 * zz + 1] < |weight| && weight[now[yy]] <= weight[now[2 * zz + 1]]
    requires weight[tmp] >= weight[now[yy]]
    ensures DownLoop(a, now[zz := now[yy]], weight, n, yy, tmp)
  {
    hide Rearranged, InOrder;
    var h := now[zz := tmp];
    assert h[2 * zz] == now[2 * zz] && h[yy] == now[yy] && (2 * zz < n ==> h[2 * zz + 1] == now[2 * zz + 1]);
    SinkingStep(h, weight, n, zz, yy);
    SwapRearranges(h, zz, yy, 1, n);
    RearrangedTwice(a, h, Swapped(h, zz, yy), 1, n);
    assert Swapped(h, zz, yy) == now[zz := now[yy]][yy := tmp];
  }

  lemma DownStops(a: seq<int>, now: seq<int>, weight: seq<int>, n: int, zz: int, tmp: int, yy: int)
    requires DownLoop(a, now, weight, n, zz, tmp) && zz * 2 <= n && yy / 2 == zz && 2 <= yy <= n
    requires 0 < tmp < |weight| && 0 < now[2 * zz] < |weight| && 0 < now[yy] < |weight|
    requires weight[now[yy]] <= weight[now[2 * zz]]
    requires 2 * zz < n ==> 0 < now[2 * zz + 1] < |weight| && weight[now[yy]] <= weight[now[2 * zz + 1]]
    requires weight[tmp] < weight[now[yy]]
    ensures IsHeap(now[zz := tmp], weight, n) && Rearranged(a, now[zz := tmp], 1, n)
  {
    hide Rearranged;
    var h := now[zz := tmp];
    assert h[2 * zz] == now[2 * zz] && h[yy] == now[yy] && (2 * zz < n ==> h[2 * zz + 1] == now[2 * zz + 1]);
    Sunk(h, weight, n, zz);
  }

  lemma DownEnds(a: seq<int>, now: seq<int>, weight: seq<int>, n: int, zz: int, tmp: int)
    requires DownLoop(a, now, weight, n, zz, tmp) && zz * 2 > n
    ensures zz < |now| && n >= 0 && IsHeap(now[zz := tmp], weight, n) && Rearranged(a, now[zz := tmp], 1, n)
  {
    var h := now[zz := tmp];
    if n > 0 { Sunk(h, weight, n, zz); }
  }

  /** The lighter of the two entries below zz. */
  method Lighter(heap: array<int>, weight: array<int>, n: int, zz: int) returns (yy: int)
    requires 1 <= zz && 2 * zz <= n < heap.Length && 0 < heap[2 * zz] < weight.Length
    requires 2 * zz < n ==> 0 < heap[2 * zz + 1] < weight.Length
    ensures 2 <= yy <= n && yy / 2 == zz && 0 < heap[yy] < weight.Length
    ensures weight[heap[yy]] <= weight[heap[2 * zz]]
    ensures 2 * zz < n ==> weight[heap[yy]] <= weight[heap[2 * zz + 1]]
  {
    yy := zz * 2;
    if yy < n && weight[heap[yy + 1]] < weight[heap[yy]] { yy := yy + 1; }
  }

  /** DOWNHEAP(1): the entry put at the top moves down to its place. */
  method DownHeap(heap: array<int>, weight: array<int>, n: int)
    requires heap != weight && Nodes(heap[..], weight[..], n) && 1 < heap.Length
    requires forall z :: 2 <= z <= n && z / 2 != 1 ==> InOrder(heap[..], weight[..], z)
    modifies heap
    ensures n >= 0 && IsHeap(heap[..], weight[..], n) && Rearranged(old(heap[..]), heap[..], 1, n)
  {
    ghost var a, w := heap[..], weight[..];
    DownStarts(a, w, n);
    hide Nodes, IsHeap, InOrder, DownLoop, Rearranged;
    var zz, tmp := 1, heap[1];
    while zz * 2 <= n
      invariant DownLoop(a, heap[..], w, n, zz, tmp) && weight[..] == w && 1 <= zz < heap.Length
      decreases n - zz
    {
      DownReads(a, heap[..], w, n, zz, tmp);
      var yy := Lighter(heap, weight, n, zz);
      if weight[tmp] < weight[heap[yy]] {
        DownStops(a, heap[..], w, n, zz, tmp, yy);
        heap[zz] := tmp;
        return;
      }
      DownStep(a, heap[..], w, n, zz, tmp, yy);
      ghost var was := heap[..];
      heap[zz] := heap[yy];
      assert heap[..] == was[zz := was[yy]];
      zz := yy;
    }
    DownEnds(a, heap[..], w, n, zz, tmp);
    heap[zz] := tmp;
  }
}
