/** `select_subsets` as scripts/phase2-evaluate.py writes it: the pool is cut
    off first and the random count is bounded by the pool's size. */
module Phase2Evaluate {
  import opened Results
  import opened Lists
  import opened Subsets
  import opened Scores
  import opened Selection
  import Phase2

  /** `min(int(r * n_subsets), len(prev_subsets))` after
      `prev_subsets = prev_subsets[n_subsets:]`: never above the pool's
      size, and negative only when `int(r * n_subsets)` is. */
  function RandomCount(total: nat, nSubsets: nat, r: real): (c: int)
    ensures c <= PoolSize(total, nSubsets) && c <= Trunc(r * nSubsets as real)
    ensures c < 0 <==> Trunc(r * nSubsets as real) < 0
    ensures 0.0 <= r ==> 0 <= c
    ensures c == Trunc(r * nSubsets as real) || c == PoolSize(total, nSubsets)
  {
    var wanted := Trunc(r * nSubsets as real);
    var pool := PoolSize(total, nSubsets);
    assert 0.0 <= r ==> 0.0 <= r * nSubsets as real;
    if wanted <= pool then wanted else pool
  }

  /** The whole of `select_subsets`: the caller's list is left sorted by
      score, descending and stable; the sample raises only for a negative
      ratio; the result lists, each once, the sorted one-gene extensions of
      the chosen bases. */
  method SelectSubsets(prev: array<Scored>, genes: seq<Gene>, nSubsets: nat, r: real, draw: seq<nat>)
    returns (res: Result<seq<Subset>>, ghost bases: seq<Subset>)
    requires IsDrawOrder(draw, PoolSize(prev.Length, nSubsets))
    modifies prev
    ensures prev[..] == SortDesc(old(prev[..]))
    ensures res.Ok? <==> 0 <= Trunc(r * nSubsets as real)
    ensures res.Err? ==> res.error == SampleOutOfRange
    ensures res.Ok? ==> Bases(Ranked(prev[..]), nSubsets, RandomCount(prev.Length, nSubsets, r), draw) == Ok(bases)
    ensures res.Ok? ==> NoDup(res.value) && forall c :: c in res.value <==> c in Candidates(bases, genes)
  {
    SortByScore(prev);
    var ranked := Ranked(prev[..]);
    var selected := Bases(ranked, nSubsets, RandomCount(prev.Length, nSubsets, r), draw);
    if selected.Err? {
      return Err(selected.error), [];
    }
    bases := selected.value;
    var subsets := Extend(selected.value, genes);
    res := Ok(subsets);
  }

  /** With the defaults and 60 previous subsets, the bases are the best 50
      followed by all 10 others, where the copy in scripts/phase2.py would
      have drawn 10 as well. */
  lemma ShortPoolBases(ranked: seq<Subset>, draw: seq<nat>)
    requires |ranked| == 60
    requires IsDrawOrder(draw, PoolSize(|ranked|, DefaultSubsets))
    ensures RandomCount(|ranked|, DefaultSubsets, DefaultRatio) == 10
    ensures Bases(ranked, DefaultSubsets, RandomCount(|ranked|, DefaultSubsets, DefaultRatio), draw).Ok?
    ensures |Bases(ranked, DefaultSubsets, RandomCount(|ranked|, DefaultSubsets, DefaultRatio), draw).value| == 60
  {
    assert DefaultRatio * DefaultSubsets as real == 25.0;
  }

  /** With a ratio that is not negative the sample never raises, however
      short the previous iteration was. */
  lemma NeverRaises(ranked: seq<Subset>, nSubsets: nat, r: real, draw: seq<nat>)
    requires 0.0 <= r
    requires IsDrawOrder(draw, PoolSize(|ranked|, nSubsets))
    ensures Bases(ranked, nSubsets, RandomCount(|ranked|, nSubsets, r), draw).Ok?
  {
  }

  /** When the previous iteration has at least `n_subsets` subsets both
      copies draw the same number, so they select the same bases. */
  lemma AgreesWithPhase2(ranked: seq<Subset>, nSubsets: nat, r: real, draw: seq<nat>)
    requires nSubsets <= |ranked|
    requires IsDrawOrder(draw, PoolSize(|ranked|, nSubsets))
    ensures RandomCount(|ranked|, nSubsets, r) == Phase2.RandomCount(|ranked|, nSubsets, r)
    ensures Bases(ranked, nSubsets, RandomCount(|ranked|, nSubsets, r), draw)
      == Bases(ranked, nSubsets, Phase2.RandomCount(|ranked|, nSubsets, r), draw)
  {
  }
}
