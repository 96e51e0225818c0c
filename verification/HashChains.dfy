/** deflate.c: the hash chains. Positions are counted from the start of the data; the tables hold
    window indices, base less, with 0 for the end of a chain. */
module HashChains {
  import opened HashKeys
  import opened Lz77

  /** The chain of the string at p. */
  ghost function ChainAt(k: Hash, data: seq<uch>, p: nat): nat
    requires p + 2 < |data|
  {
    Chain(k, data[p], data[p + 1], data[p + 2])
  }

  /** Position p has been put on chain i. */
  ghost predicate OnChain(k: Hash, data: seq<uch>, ins: set<nat>, p: nat, i: nat) {
    p in ins && p + 2 < |data| && ChainAt(k, data, p) == i
  }

  /** No position of chain i between low and high. */
  ghost predicate NoneBetween(k: Hash, data: seq<uch>, ins: set<nat>, i: nat, low: nat, high: nat) {
    forall q :: low < q < high ==> !OnChain(k, data, ins, q, i)
  }

  /** v is the last position of chain i before p, or 0 if there is none in the window behind its start. */
  ghost predicate IsLast(k: Hash, v: nat, data: seq<uch>, base: nat, ins: set<nat>, i: nat, p: nat) {
    && (v == 0 || (base + v < p && OnChain(k, data, ins, base + v, i)))
    && NoneBetween(k, data, ins, i, base + v, p)
  }

  /** The heads of the chains, of which all positions are before top. */
  ghost predicate HeadsLead(k: Hash, head: seq<nat>, data: seq<uch>, base: nat, ins: set<nat>, top: nat) {
    |head| == Size(k) && forall i :: 0 <= i < |head| ==> IsLast(k, head[i], data, base, ins, i, top)
  }

  /** v leads from p to the position before it on its chain. */
  ghost predicate Leads(k: Hash, v: nat, data: seq<uch>, base: nat, ins: set<nat>, p: nat) {
    p + 2 < |data| && IsLast(k, v, data, base, ins, ChainAt(k, data, p), p)
  }

  /** The links of all positions whose slot has not been used again by the positions before top. */
  ghost predicate PrevsLead(k: Hash, prev: seq<nat>, data: seq<uch>, base: nat, ins: set<nat>, top: nat) {
    |prev| > 0 && forall p :: p in ins && base <= p && top <= p + |prev| ==>
      Leads(k, prev[(p - base) % |prev|], data, base, ins, p)
  }

  ghost predicate AllBefore(data: seq<uch>, ins: set<nat>, top: nat) {
    forall p :: p in ins ==> p < top && p + 2 < |data|
  }

  ghost predicate Chains(k: Hash, head: seq<nat>, prev: seq<nat>, data: seq<uch>, base: nat, ins: set<nat>, top: nat) {
    AllBefore(data, ins, top) && HeadsLead(k, head, data, base, ins, top) && PrevsLead(k, prev, data, base, ins, top)
  }

  // More data

  lemma OnChainMore(k: Hash, data: seq<uch>, more: seq<uch>, ins: set<nat>, top: nat, p: nat, i: nat)
    requires AllBefore(data, ins, top)
    ensures OnChain(k, data + more, ins, p, i) <==> OnChain(k, data, ins, p, i)
  {
    hide Chain;
  }

  lemma IsLastMore(k: Hash, v: nat, data: seq<uch>, more: seq<uch>, base: nat, ins: set<nat>, top: nat, i: nat, p: nat)
    requires AllBefore(data, ins, top) && IsLast(k, v, data, base, ins, i, p)
    ensures IsLast(k, v, data + more, base, ins, i, p)
  {
    hide Chain, OnChain, AllBefore;
    OnChainMore(k, data, more, ins, top, base + v, i);
    forall q | base + v < q < p ensures !OnChain(k, data + more, ins, q, i) {
      OnChainMore(k, data, more, ins, top, q, i);
    }
  }

  lemma ChainsMore(k: Hash, head: seq<nat>, prev: seq<nat>, data: seq<uch>, more: seq<uch>, base: nat, ins: set<nat>,
        top: nat)
    requires Chains(k, head, prev, data, base, ins, top)
    ensures Chains(k, head, prev, data + more, base, ins, top)
  {
    hide Chain, OnChain, IsLast;
    forall i | 0 <= i < |head| ensures IsLast(k, head[i], data + more, base, ins, i, top) {
      IsLastMore(k, head[i], data, more, base, ins, top, i, top);
    }
    forall p | p in ins && base <= p && top <= p + |prev|
      ensures Leads(k, prev[(p - base) % |prev|], data + more, base, ins, p)
    {
      var v := prev[(p - base) % |prev|];
      assert Leads(k, v, data, base, ins, p);
      IsLastMore(k, v, data, more, base, ins, top, ChainAt(k, data, p), p);
    }
  }

  // INSERT_STRING

  lemma OnChainInserted(k: Hash, data: seq<uch>, ins: set<nat>, q: nat, p: nat, i: nat)
    requires p != q || (q + 2 < |data| && ChainAt(k, data, q) != i)
    ensures OnChain(k, data, ins + {q}, p, i) <==> OnChain(k, data, ins, p, i)
  {
  }

  lemma JustInserted(k: Hash, data: seq<uch>, ins: set<nat>, q: nat)
    requires q + 2 < |data|
    ensures OnChain(k, data, ins + {q}, q, ChainAt(k, data, q))
  {
  }

  /** A position that is not before p, or not on chain i, changes nothing. */
  lemma IsLastInserted(k: Hash, v: nat, data: seq<uch>, base: nat, ins: set<nat>, q: nat, i: nat, p: nat)
    requires IsLast(k, v, data, base, ins, i, p) && q + 2 < |data| && (p <= q || ChainAt(k, data, q) != i)
    ensures IsLast(k, v, data, base, ins + {q}, i, p)
  {
    hide OnChain, Chain;
    if v != 0 { OnChainInserted(k, data, ins, q, base + v, i); }
    forall r | base + v < r < p ensures !OnChain(k, data, ins + {q}, r, i) {
      OnChainInserted(k, data, ins, q, r, i);
    }
  }

  lemma NotYet(k: Hash, data: seq<uch>, ins: set<nat>, top: nat, q: nat, i: nat)
    requires AllBefore(data, ins, top) && top <= q
    ensures !OnChain(k, data, ins, q, i)
  {
  }

  lemma IsLastLater(k: Hash, v: nat, data: seq<uch>, base: nat, ins: set<nat>, i: nat, top: nat, p: nat)
    requires AllBefore(data, ins, top) && IsLast(k, v, data, base, ins, i, top) && top <= p
    ensures IsLast(k, v, data, base, ins, i, p)
  {
    hide OnChain, AllBefore;
    forall q | base + v < q < p ensures !OnChain(k, data, ins, q, i) {
      if top <= q { NotYet(k, data, ins, top, q, i); }
    }
  }

  lemma HeadsInserted(k: Hash, head: seq<nat>, data: seq<uch>, base: nat, ins: set<nat>, top: nat, str: nat, i: nat)
    requires HeadsLead(k, head, data, base, ins, top) && AllBefore(data, ins, top) && top <= base + str
    requires base + str + 2 < |data| && i == ChainAt(k, data, base + str) < |head|
    ensures HeadsLead(k, head[i := str], data, base, ins + {base + str}, base + str + 1)
  {
    hide OnChain, Chain, IsLast, AllBefore;
    var head', q := head[i := str], base + str;
    forall j | 0 <= j < |head'| ensures IsLast(k, head'[j], data, base, ins + {q}, j, q + 1) {
      if j == i {
        IsLastItself(k, data, base, ins, str);
      } else {
        IsLastLater(k, head[j], data, base, ins, j, top, q + 1);
        IsLastInserted(k, head[j], data, base, ins, q, j, q + 1);
      }
    }
  }

  lemma IsLastItself(k: Hash, data: seq<uch>, base: nat, ins: set<nat>, str: nat)
    requires base + str + 2 < |data|
    ensures var q := base + str; IsLast(k, str, data, base, ins + {q}, ChainAt(k, data, q), q + 1)
  {
    hide OnChain, Chain;
    JustInserted(k, data, ins, base + str);
  }

  lemma LeadsInserted(k: Hash, v: nat, data: seq<uch>, base: nat, ins: set<nat>, q: nat, p: nat)
    requires Leads(k, v, data, base, ins, p) && p <= q && q + 2 < |data|
    ensures Leads(k, v, data, base, ins + {q}, p)
  {
    hide OnChain, Chain, IsLast;
    IsLastInserted(k, v, data, base, ins, q, ChainAt(k, data, p), p);
  }

  /** Nearby positions have different slots. */
  lemma OtherSlot(p: nat, q: nat, n: nat)
    requires p < q < p + n
    ensures p % n != q % n
  {
    var a, b := p / n, q / n;
    assert p == n * a + p % n && q == n * b + q % n;
    if p % n == q % n {
      assert q - p == n * (b - a);
      if b - a >= 1 {
        Product(n, b - a, 1);
      } else {
        Product(n, 0, b - a);
      }
    }
  }

  lemma Product(n: nat, x: int, y: int)
    requires x >= y
    ensures n * x >= n * y
  {
  }

  lemma PrevsInserted(k: Hash, prev: seq<nat>, data: seq<uch>, base: nat, ins: set<nat>, top: nat, str: nat, v: nat)
    requires PrevsLead(k, prev, data, base, ins, top) && AllBefore(data, ins, top) && top <= base + str
    requires Leads(k, v, data, base, ins, base + str) && base + str + 2 < |data|
    ensures PrevsLead(k, prev[str % |prev| := v], data, base, ins + {base + str}, base + str + 1)
  {
    hide Leads;
    var n, q, prev' := |prev|, base + str, prev[str % |prev| := v];
    forall p | p in ins + {q} && base <= p && q + 1 <= p + n
      ensures Leads(k, prev'[(p - base) % n], data, base, ins + {q}, p)
    {
      if p == q {
        LeadsInserted(k, v, data, base, ins, q, q);
      } else {
        OtherSlot(p - base, str, n);
        LeadsInserted(k, prev[(p - base) % n], data, base, ins, q, p);
      }
    }
  }

  /** Putting the string at str on its chain: its link is the old head, and it is the new one. */
  lemma ChainsInserted(k: Hash, head: seq<nat>, prev: seq<nat>, data: seq<uch>, base: nat, ins: set<nat>, top: nat,
        str: nat, i: nat)
    requires Chains(k, head, prev, data, base, ins, top) && top <= base + str
    requires base + str + 2 < |data| && i == ChainAt(k, data, base + str) < |head|
    ensures var q := base + str;
            Chains(k, head[i := str], prev[str % |prev| := head[i]], data, base, ins + {q}, q + 1)
    ensures Leads(k, head[i], data, base, ins, base + str)
  {
    hide HeadsLead, PrevsLead, Chain;
    HeadLeads(k, head, data, base, ins, top, str, i);
    HeadsInserted(k, head, data, base, ins, top, str, i);
    PrevsInserted(k, prev, data, base, ins, top, str, head[i]);
  }

  lemma HeadLeads(k: Hash, head: seq<nat>, data: seq<uch>, base: nat, ins: set<nat>, top: nat, str: nat, i: nat)
    requires HeadsLead(k, head, data, base, ins, top) && AllBefore(data, ins, top) && top <= base + str
    requires base + str + 2 < |data| && i == ChainAt(k, data, base + str) < |head|
    ensures Leads(k, head[i], data, base, ins, base + str)
  {
    hide Chain, OnChain, IsLast, AllBefore;
    IsLastLater(k, head[i], data, base, ins, i, top, base + str);
  }

  // slide_hash

  lemma SameSlot(x: nat, n: nat)
    requires n > 0
    ensures (x + n) % n == x % n
  {
    var d, r := x / n, x % n;
    assert x == n * d + r;
    assert x + n == n * (d + 1) + r;
    Remainder(x + n, n, d + 1, r);
  }

  function Slid(v: nat, wsize: nat): nat {
    if v >= wsize then v - wsize else 0
  }

  function AllSlid(s: seq<nat>, wsize: nat): (r: seq<nat>)
    ensures |r| == |s| && forall i :: 0 <= i < |s| ==> r[i] == Slid(s[i], wsize)
  {
    seq(|s|, i requires 0 <= i < |s| => Slid(s[i], wsize))
  }

  lemma IsLastSlid(k: Hash, v: nat, data: seq<uch>, base: nat, ins: set<nat>, i: nat, p: nat, wsize: nat)
    requires IsLast(k, v, data, base, ins, i, p)
    ensures IsLast(k, Slid(v, wsize), data, base + wsize, ins, i, p)
  {
    hide OnChain;
    if v >= wsize {
      assert base + wsize + Slid(v, wsize) == base + v;
    }
  }

  lemma HeadsSlid(k: Hash, head: seq<nat>, data: seq<uch>, base: nat, ins: set<nat>, top: nat, wsize: nat)
    requires HeadsLead(k, head, data, base, ins, top)
    ensures HeadsLead(k, AllSlid(head, wsize), data, base + wsize, ins, top)
  {
    hide IsLast, AllSlid;
    forall i | 0 <= i < |head| ensures IsLast(k, Slid(head[i], wsize), data, base + wsize, ins, i, top) {
      IsLastSlid(k, head[i], data, base, ins, i, top, wsize);
    }
  }

  lemma PrevsSlid(k: Hash, prev: seq<nat>, data: seq<uch>, base: nat, ins: set<nat>, top: nat)
    requires PrevsLead(k, prev, data, base, ins, top)
    ensures PrevsLead(k, AllSlid(prev, |prev|), data, base + |prev|, ins, top)
  {
    hide IsLast, AllSlid, Chain;
    var n := |prev|;
    var prev' := AllSlid(prev, n);
    forall p | p in ins && base + n <= p && top <= p + n
      ensures Leads(k, prev'[(p - (base + n)) % n], data, base + n, ins, p)
    {
      SameSlot(p - (base + n), n);
      var j := (p - base) % n;
      assert Leads(k, prev[j], data, base, ins, p);
      IsLastSlid(k, prev[j], data, base, ins, ChainAt(k, data, p), p, n);
    }
  }

  /** Moving the window by its size moves the chains with it. */
  lemma ChainsSlid(k: Hash, head: seq<nat>, prev: seq<nat>, data: seq<uch>, base: nat, ins: set<nat>, top: nat)
    requires Chains(k, head, prev, data, base, ins, top)
    ensures Chains(k, AllSlid(head, |prev|), AllSlid(prev, |prev|), data, base + |prev|, ins, top)
  {
    hide HeadsLead, PrevsLead;
    HeadsSlid(k, head, data, base, ins, top, |prev|);
    PrevsSlid(k, prev, data, base, ins, top);
  }

  // Following a chain

  lemma Remainder(x: nat, n: nat, q: int, r: nat)
    requires r < n && x == n * q + r
    ensures x % n == r
  {
    var a := x / n;
    assert x == n * a + x % n;
    assert n * (a - q) == r - x % n;
    if a > q {
      Product(n, a - q, 1);
    } else if a < q {
      Product(n, -1, a - q);
    }
  }

  /** A position that is not too far back has a link to follow. */
  lemma Follow(k: Hash, prev: seq<nat>, data: seq<uch>, base: nat, ins: set<nat>, top: nat, cur: nat)
    requires PrevsLead(k, prev, data, base, ins, top)
    requires base + cur in ins && top <= base + cur + |prev|
    ensures Leads(k, prev[cur % |prev|], data, base, ins, base + cur)
  {
    hide Leads;
  }

  /** The positions of chain i before p and behind low, the last one first. */
  ghost function Recent(k: Hash, data: seq<uch>, ins: set<nat>, i: nat, p: nat, low: nat): (r: seq<nat>)
    ensures forall j :: 0 <= j < |r| ==> low < r[j] < p
  {
    if p <= low + 1 then []
    else (if OnChain(k, data, ins, p - 1, i) then [(p - 1) as nat] else []) + Recent(k, data, ins, i, p - 1, low)
  }

  lemma {:induction false} RecentSkips(k: Hash, data: seq<uch>, ins: set<nat>, i: nat, q: nat, p: nat, low: nat)
    requires NoneBetween(k, data, ins, i, q, p) && q < p
    ensures Recent(k, data, ins, i, p, low) == if low <= q then Recent(k, data, ins, i, q + 1, low) else []
    decreases p
  {
    hide OnChain;
    if q + 1 < p {
      RecentSkips(k, data, ins, i, q, p - 1, low);
    }
  }

  /** What has been put on its chain last comes first. */
  lemma RecentOfLast(k: Hash, v: nat, data: seq<uch>, base: nat, ins: set<nat>, i: nat, p: nat, low: nat)
    requires IsLast(k, v, data, base, ins, i, p) && base + v < p && base <= low
    ensures Recent(k, data, ins, i, p, low)
            == if base + v <= low then [] else [base + v] + Recent(k, data, ins, i, base + v, low)
  {
    hide OnChain;
    RecentSkips(k, data, ins, i, base + v, p, low);
  }

  /** A position that is not before p changes nothing. */
  lemma {:induction false} RecentInserted(k: Hash, data: seq<uch>, ins: set<nat>, i: nat, q: nat, p: nat, low: nat)
    requires p <= q
    ensures Recent(k, data, ins + {q}, i, p, low) == Recent(k, data, ins, i, p, low)
    decreases p
  {
    hide OnChain, Chain;
    if p > low + 1 {
      RecentInserted(k, data, ins, i, q, p - 1, low);
      SameBefore(k, data, ins, q, p - 1, i);
    }
  }

  lemma SameBefore(k: Hash, data: seq<uch>, ins: set<nat>, q: nat, p: nat, i: nat)
    requires p != q
    ensures OnChain(k, data, ins + {q}, p, i) <==> OnChain(k, data, ins, p, i)
  {
  }
}
