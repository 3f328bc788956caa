/** `select_subsets` as scripts/phase2.py writes it: the random count is
    computed from the whole sorted list, before the pool is cut off. */
module Phase2 {
  import opened Results
  import opened Lists
  import opened Subsets
  import opened Scores
  import opened Selection

  /** `min(int(r * n_subsets), len(prev_subsets) - n_subsets)`: negative
      exactly when fewer than `n_subsets` previous subsets exist or
      `int(r * n_subsets)` is negative, and never above the pool's size once
      the list is long enough. */
  function RandomCount(total: nat, nSubsets: nat, r: real): (c: int)
    ensures c < 0 <==> Trunc(r * nSubsets as real) < 0 || total < nSubsets
    ensures c <= Trunc(r * nSubsets as real)
    ensures nSubsets <= total ==> c <= PoolSize(total, nSubsets)
    ensures c == Trunc(r * nSubsets as real) || c == total - nSubsets
  {
    var wanted := Trunc(r * nSubsets as real);
    var left := total - nSubsets;
    if wanted <= left then wanted else left
  }

  /** The whole of `select_subsets`. The caller's list is left sorted by
      score, descending and stable, whether or not the sample raises; the
      sample raises exactly when the random count is negative; otherwise
      the result lists, each once, the sorted one-gene extensions of the
      chosen bases. */
  method SelectSubsets(prev: array<Scored>, genes: seq<Gene>, nSubsets: nat, r: real, draw: seq<nat>)
    returns (res: Result<seq<Subset>>, ghost bases: seq<Subset>)
    requires IsDrawOrder(draw, PoolSize(prev.Length, nSubsets))
    modifies prev
    ensures prev[..] == SortDesc(old(prev[..]))
    ensures res.Ok? <==> 0 <= Trunc(r * nSubsets as real) && nSubsets <= prev.Length
    ensures res.Err? ==> res.error == SampleOutOfRange
    ensures res.Ok? ==> Bases(Ranked(prev[..]), nSubsets, RandomCount(prev.Length, nSubsets, r), draw) == Ok(bases)
    ensures res.Ok? ==> NoDup(res.value) && forall c :: c in res.value <==> c in Candidates(bases, genes)
  {
    SortByScore(prev);
    var ranked := Ranked(prev[..]);
    var selected := Bases(ranked, nSubsets, RandomCount(prev.Length, nSubsets, r), draw);
    if selected.Err? {
      return Err(selected.error), [];
    }
    bases := selected.value;
    var subsets := Extend(selected.value, genes);
    res := Ok(subsets);
  }

  /** With the defaults and 120 previous subsets, the bases are the best 50
      followed by 25 drawn from the other 70. */
  lemma DefaultBases(ranked: seq<Subset>, draw: seq<nat>)
    requires |ranked| == 120
    requires IsDrawOrder(draw, PoolSize(|ranked|, DefaultSubsets))
    ensures RandomCount(|ranked|, DefaultSubsets, DefaultRatio) == 25
    ensures Bases(ranked, DefaultSubsets, RandomCount(|ranked|, DefaultSubsets, DefaultRatio), draw).Ok?
    ensures |Bases(ranked, DefaultSubsets, RandomCount(|ranked|, DefaultSubsets, DefaultRatio), draw).value| == 75
  {
    assert DefaultRatio * DefaultSubsets as real == 25.0;
  }

  /** With the defaults, a previous iteration of fewer than 50 subsets makes
      the sample raise: the count `min(25, len - 50)` is negative. */
  lemma ShortRecordRaises(ranked: seq<Subset>, draw: seq<nat>)
    requires |ranked| < DefaultSubsets
    requires IsDrawOrder(draw, PoolSize(|ranked|, DefaultSubsets))
    ensures Bases(ranked, DefaultSubsets, RandomCount(|ranked|, DefaultSubsets, DefaultRatio), draw)
      == Err(SampleOutOfRange)
  {
  }

  /** A gene set of six or seven genes runs the heuristic at k = 4 on the
      C(n, 3) subsets of k = 3, which are 20 or 35: fewer than 50, so
      `select_subsets` raises there. */
  lemma SmallGeneSetsRaise(n: nat)
    requires 6 <= n <= 7
    ensures Exhaustive(3, n) && !Exhaustive(4, n)
    ensures Binom(n, 3) < DefaultSubsets
    ensures RandomCount(Binom(n, 3), DefaultSubsets, DefaultRatio) < 0
  {
    SmallBinoms();
    if n == 6 {
      assert Binom(n, 3) == 20;
    } else {
      assert Binom(n, 3) == 35;
    }
  }
}
