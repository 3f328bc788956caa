/** What the two copies of `select_subsets` share: the subsets of the sorted
    list, the seeds taken from its top and the random sample taken from the
    rest. Only the number of random subsets differs between the copies. */
module Selection {
  import opened Results
  import opened Lists
  import opened Subsets
  import opened Scores

  /** The defaults of `select_subsets(prev_subsets, genes, n_subsets=50, r=0.5)`,
      which is always called with them. */
  const DefaultSubsets: nat := 50
  const DefaultRatio: real := 0.5

  /** `[s[0] for s in prev_subsets]`. */
  function Ranked(rows: seq<Scored>): (r: seq<Subset>)
    ensures |r| == |rows| && forall i :: 0 <= i < |rows| ==> r[i] == rows[i].subset
  {
    seq(|rows|, i requires 0 <= i < |rows| => rows[i].subset)
  }

  /** `len(prev_subsets[n_subsets:])`. */
  function PoolSize(total: nat, nSubsets: nat): nat {
    if nSubsets <= total then total - nSubsets else 0
  }

  /** `seed_subsets = prev_subsets[0:n_subsets]` followed by
      `seed_subsets += random.sample(prev_subsets[n_subsets:], count)`. The
      seeds are the first `min(n_subsets, len)` subsets of the ranked list,
      the sample raises unless `0 <= count <= len(pool)`, and the sampled
      subsets come from the pool only, none twice. */
  function Bases(ranked: seq<Subset>, nSubsets: nat, count: int, draw: seq<nat>): (r: Result<seq<Subset>>)
    requires IsDrawOrder(draw, PoolSize(|ranked|, nSubsets))
    ensures r.Ok? <==> 0 <= count <= PoolSize(|ranked|, nSubsets)
    ensures r.Err? ==> r.error == SampleOutOfRange
    ensures r.Ok? ==> |r.value| == |Head(ranked, nSubsets)| + count
    ensures r.Ok? ==> r.value[..|Head(ranked, nSubsets)|] == Head(ranked, nSubsets)
    ensures r.Ok? ==> multiset(r.value[|Head(ranked, nSubsets)|..]) <= multiset(Tail(ranked, nSubsets))
  {
    match Sample(Tail(ranked, nSubsets), count, draw)
    case Err(e) => Err(e)
    case Ok(extra) =>
      var seeds := Head(ranked, nSubsets);
      assert (seeds + extra)[|seeds|..] == extra;
      Ok(seeds + extra)
  }

  /** No position of the ranked list is used twice: the bases, seeds and
      sample together, are a sub-multiset of the ranked subsets. */
  lemma BasesFromRanked(ranked: seq<Subset>, nSubsets: nat, count: int, draw: seq<nat>)
    requires IsDrawOrder(draw, PoolSize(|ranked|, nSubsets))
    requires Bases(ranked, nSubsets, count, draw).Ok?
    ensures multiset(Bases(ranked, nSubsets, count, draw).value) <= multiset(ranked)
  {
    var b := Bases(ranked, nSubsets, count, draw).value;
    var h := |Head(ranked, nSubsets)|;
    assert b == b[..h] + b[h..];
    assert ranked == Head(ranked, nSubsets) + Tail(ranked, nSubsets);
  }

  /** The seeds are the best-scoring subsets: once the rows are sorted, each
      seed scores at least as much as every subset of the pool. */
  lemma SeedsOutscorePool(rows: seq<Scored>, nSubsets: nat, i: nat, j: nat)
    requires i < nSubsets <= j < |rows|
    ensures SortDesc(rows)[i].score >= SortDesc(rows)[j].score
  {
    SortDescSorted(rows);
  }

  /** Sorting only reorders: every subset of the sorted list is a subset of
      the list before sorting. */
  lemma RankedSorted(rows: seq<Scored>, c: Subset)
    requires c in Ranked(SortDesc(rows))
    ensures c in Ranked(rows)
  {
    SortDescPermutes(rows);
    var sorted := SortDesc(rows);
    var i :| 0 <= i < |sorted| && Ranked(sorted)[i] == c;
    assert sorted[i] in multiset(rows);
    var j :| 0 <= j < |rows| && rows[j] == sorted[i];
    assert Ranked(rows)[j] == c;
  }
}
