/** The ranges that a quicksort with an explicit stack still has to sort. */
module SortStack {
  import opened Rearranging
  import opened Partitioning

  /** s times 2^k. */
  ghost function Doubled(s: int, k: nat): int {
    if k == 0 then s else 2 * Doubled(s, k - 1)
  }

  lemma {:induction false} DoubledMonotone(s: int, t: int, k: nat)
    requires s <= t
    ensures Doubled(s, k) <= Doubled(t, k)
    ensures 0 <= s ==> s <= Doubled(s, k)
    ensures Doubled(s, k + 1) == Doubled(2 * s, k)
    decreases k
  {
    if k > 0 { DoubledMonotone(s, t, k - 1); }
  }

  lemma {:induction false} DoubledDeeper(s: int, j: nat, k: nat)
    requires 0 <= s && j <= k
    ensures Doubled(s, j) <= Doubled(s, k)
    decreases k
  {
    if j < k {
      DoubledDeeper(s, j, k - 1);
      DoubledMonotone(s, s, k - 1);
    }
  }

  type Range = (int, int)

  ghost function Size(r: Range): int {
    r.1 - r.0 + 1
  }

  ghost predicate Disjoint(r: Range, s: Range) {
    r.1 < s.0 || s.1 < r.0
  }

  ghost predicate Holds(r: Range, p: int, q: int) {
    r.0 <= p && q <= r.1
  }

  /** The ranges still to be sorted lie inside lo..hi, apart from one another. */
  ghost predicate Waiting(stack: seq<Range>, lo: int, hi: int) {
    && (forall i :: 0 <= i < |stack| ==> lo <= stack[i].0 <= stack[i].1 + 1 && stack[i].1 <= hi)
    && (forall i, j :: 0 <= i < j < |stack| ==> Disjoint(stack[i], stack[j]))
  }

  /** Two entries are in order unless one waiting range holds them both. */
  ghost predicate OrderedOutside(f: seq<int>, e: seq<int>, lo: int, hi: int, stack: seq<Range>)
    requires 0 <= lo <= hi + 1 <= |f| && HaveClasses(f, e, lo, hi)
  {
    forall p, q :: lo <= p < q <= hi ==>
      e[f[p]] <= e[f[q]] || exists i :: 0 <= i < |stack| && Holds(stack[i], p, q)
  }

  /** The popped range is replaced by parts: what was rearranged inside it is in order except
      within a part, so the whole is in order except within what is now waiting. */
  lemma PopAndSplit(f: seq<int>, g: seq<int>, e: seq<int>, lo: int, hi: int,
                    rest: seq<Range>, r: Range, parts: seq<Range>)
    requires 0 <= lo <= hi + 1 <= |f| == |g| && HaveClasses(f, e, lo, hi) && HaveClasses(g, e, lo, hi)
    requires lo <= r.0 <= r.1 + 1 && r.1 <= hi
    requires Waiting(rest + [r], lo, hi) && OrderedOutside(f, e, lo, hi, rest + [r])
    requires Rearranged(f, g, r.0, r.1)
    requires forall p, q :: r.0 <= p < q <= r.1 ==>
      e[g[p]] <= e[g[q]] || exists i :: 0 <= i < |parts| && Holds(parts[i], p, q)
    ensures OrderedOutside(g, e, lo, hi, rest + parts)
  {
    forall p, q | lo <= p < q <= hi
      ensures e[g[p]] <= e[g[q]] || exists i :: 0 <= i < |rest + parts| && Holds((rest + parts)[i], p, q)
    {
      if r.0 <= p && q <= r.1 {
        if e[g[p]] > e[g[q]] {
          var i :| 0 <= i < |parts| && Holds(parts[i], p, q);
          assert (rest + parts)[|rest| + i] == parts[i];
        }
      } else {
        var p', q' := p, q;
        if r.0 <= p <= r.1 { p' := RearrangedInside(f, g, r.0, r.1, p); } else { RearrangedOutside(f, g, r.0, r.1, p); }
        if r.0 <= q <= r.1 { q' := RearrangedInside(f, g, r.0, r.1, q); } else { RearrangedOutside(f, g, r.0, r.1, q); }
        assert p' < q';
        if e[g[p]] > e[g[q]] {
          var i :| 0 <= i < |rest + [r]| && Holds((rest + [r])[i], p', q');
          assert i < |rest| && Disjoint((rest + [r])[i], (rest + [r])[|rest|]);
          assert (rest + parts)[i] == (rest + [r])[i];
          assert Holds((rest + parts)[i], p, q);
        }
      }
    }
  }

  lemma WaitingParts(rest: seq<Range>, r: Range, parts: seq<Range>, lo: int, hi: int)
    requires Waiting(rest + [r], lo, hi) && Waiting(parts, r.0, r.1)
    ensures Waiting(rest + parts, lo, hi)
  {
    var s, t := rest + [r], rest + parts;
    assert s[|rest|] == r;
    forall i | 0 <= i < |t| ensures lo <= t[i].0 <= t[i].1 + 1 && t[i].1 <= hi {
      if i < |rest| { assert t[i] == s[i]; } else { assert t[i] == parts[i - |rest|]; }
    }
    forall i, j | 0 <= i < j < |t| ensures Disjoint(t[i], t[j]) {
      if j < |rest| {
        assert Disjoint(s[i], s[j]);
      } else if i < |rest| {
        assert Disjoint(s[i], s[|rest|]) && t[j] == parts[j - |rest|];
      } else {
        assert Disjoint(parts[i - |rest|], parts[j - |rest|]);
      }
    }
  }
}
