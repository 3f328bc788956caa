/** The search run for one gene set: iterations k = 1 .. n, each choosing
    its subsets (every k-combination, or the heuristic fed with the previous
    iteration's file), scoring them and writing the iteration's file. */
module Search {
  import opened Results
  import opened Lists
  import opened Subsets
  import opened Scores
  import opened Checkpoint
  import opened Selection
  import Phase2
  import Phase2Evaluate

  /** Which script's copy of `select_subsets` the run calls. */
  datatype Copy = InPhase2 | InPhase2Evaluate

  predicate CleanGenes(genes: seq<Gene>) {
    forall i :: 0 <= i < |genes| ==> CleanGene(genes[i])
  }

  /** Every subset has `k` genes, all from the gene set. */
  predicate AllFit(subsets: seq<Subset>, k: nat, genes: seq<Gene>) {
    forall c :: c in subsets ==> |c| == k && forall x :: x in c ==> x in genes
  }

  /** No subset is listed twice and none repeats a gene. */
  predicate Distinct(subsets: seq<Subset>) {
    NoDup(subsets) && forall c :: c in subsets ==> NoDup(c)
  }

  /** What the file of iteration `k` holds: every k-combination in an
      exhaustive iteration; with clean gene names, subsets of k genes of the
      set; with no gene listed twice as well, no subset twice and none
      repeating a gene. */
  predicate Written(genes: seq<Gene>, k: nat, rows: seq<Scored>) {
    && (Exhaustive(k, |genes|) ==> Ranked(rows) == Combinations(genes, k))
    && (CleanGenes(genes) ==> AllFit(Ranked(rows), k, genes))
    && (CleanGenes(genes) && NoDup(genes) ==> Distinct(Ranked(rows)))
  }

  /** `min(int(r * n_subsets), ...)` with the defaults, as the given copy
      of `select_subsets` computes it for `total` previous subsets. */
  function SampleCount(copy: Copy, total: nat): int {
    if copy == InPhase2 then Phase2.RandomCount(total, DefaultSubsets, DefaultRatio)
    else Phase2Evaluate.RandomCount(total, DefaultSubsets, DefaultRatio)
  }

  /** How a heuristic iteration chooses its subsets from the rows of the
      previous one: the bases are the best 50 of the stably sorted rows
      followed by the copy's sample of the rest (taken in the order `draw`),
      and the subsets are each sorted one-gene extension of a base, once. */
  ghost predicate Chosen(genes: seq<Gene>, copy: Copy, earlier: seq<Scored>, subsets: seq<Subset>,
                   draw: seq<nat>, bases: seq<Subset>)
  {
    && IsDrawOrder(draw, PoolSize(|earlier|, DefaultSubsets))
    && Bases(Ranked(SortDesc(earlier)), DefaultSubsets, SampleCount(copy, |earlier|), draw) == Ok(bases)
    && NoDup(subsets) && forall c :: c in subsets <==> c in Candidates(bases, genes)
  }

  /** Lines 190-203 of scripts/phase2.py and 148-161 of
      scripts/phase2-evaluate.py: the subsets of iteration `k`. Every
      k-combination in exhaustive mode; otherwise the previous iteration's
      file is read back, the rows go into a fresh list that
      `select_subsets` sorts in place, and the result lists each sorted
      one-gene extension of the chosen bases once. */
  method Generate(genes: seq<Gene>, k: nat, copy: Copy, previous: string)
    returns (res: Result<seq<Subset>>, ghost draw: seq<nat>, ghost bases: seq<Subset>)
    requires 1 <= k <= |genes|
    ensures Exhaustive(k, |genes|) ==> res == Ok(Combinations(genes, k))
    ensures !Exhaustive(k, |genes|) && LoadRecord(previous).Err? ==> res == Err(LoadRecord(previous).error)
    ensures !Exhaustive(k, |genes|) && LoadRecord(previous).Ok? ==>
      (res.Ok? <==> copy == InPhase2Evaluate || DefaultSubsets <= |LoadRecord(previous).value|)
    ensures LoadRecord(previous).Ok? && res.Err? ==> res.error == SampleOutOfRange
    ensures !Exhaustive(k, |genes|) && res.Ok? ==>
      LoadRecord(previous).Ok? && Chosen(genes, copy, LoadRecord(previous).value, res.value, draw, bases)
  {
    if Exhaustive(k, |genes|) {
      return Ok(Combinations(genes, k)), [], [];
    }
    var loaded := LoadRecord(previous);
    if loaded.Err? {
      return Err(loaded.error), [], [];
    }
    var rows := loaded.value;
    var prev := new Scored[|rows|](i requires 0 <= i < |rows| => rows[i]);
    assert prev[..] == rows;
    var pool := PoolSize(prev.Length, DefaultSubsets);
    IdentityDraw(pool);
    var order :| IsDrawOrder(order, pool);
    draw := order;
    if copy == InPhase2 {
      res, bases := Phase2.SelectSubsets(prev, genes, DefaultSubsets, DefaultRatio, order);
    } else {
      res, bases := Phase2Evaluate.SelectSubsets(prev, genes, DefaultSubsets, DefaultRatio, order);
    }
  }

  /** The bases chosen from the sorted rows are subsets of the rows. */
  lemma BasesMembers(rows: seq<Scored>, count: int, draw: seq<nat>, bases: seq<Subset>)
    requires IsDrawOrder(draw, PoolSize(|SortDesc(rows)|, DefaultSubsets))
    requires Bases(Ranked(SortDesc(rows)), DefaultSubsets, count, draw) == Ok(bases)
    ensures forall b :: b in bases ==> b in Ranked(rows)
  {
    BasesFromRanked(Ranked(SortDesc(rows)), DefaultSubsets, count, draw);
    forall b | b in bases ensures b in Ranked(rows) {
      assert b in multiset(bases);
      RankedSorted(rows, b);
    }
  }

  /** Lines 208-216 of scripts/phase2.py and 166-174 of
      scripts/phase2-evaluate.py: each subset in turn is scored (the
      classifier's accuracy, in thousandths) and its line appended to the
      iteration's file. */
  method ScoreAll(subsets: seq<Subset>) returns (rows: seq<Scored>, content: string)
    ensures Ranked(rows) == subsets
    ensures forall i :: 0 <= i < |rows| ==> rows[i].score <= 1000
    ensures content == Record(rows)
  {
    rows := [];
    content := "";
    for i := 0 to |subsets|
      invariant |rows| == i
      invariant forall j :: 0 <= j < i ==> rows[j].subset == subsets[j] && rows[j].score <= 1000
      invariant content == Record(rows)
    {
      var score: nat :| score <= 1000;
      var row := Scored(subsets[i], score);
      RecordSnoc(rows, row);
      rows := rows + [row];
      content := content + EncodeLine(row);
    }
  }

  /** Every k-combination has k genes of the set; with no gene listed
      twice, no combination is listed twice or repeats a gene. */
  lemma ExhaustiveFits(genes: seq<Gene>, k: nat)
    ensures AllFit(Combinations(genes, k), k, genes)
    ensures NoDup(genes) ==> Distinct(Combinations(genes, k))
  {
    CombinationsShape(genes, k);
    forall c | c in Combinations(genes, k) ensures forall x :: x in c ==> x in genes {
      EmbedsMembers(c, genes);
    }
    if NoDup(genes) {
      CombinationsDistinct(genes, k);
      CombinationsNoRepeats(genes, k);
    }
  }

  /** Extensions of bases taken from an iteration whose subsets have k - 1
      genes of the set have k genes of the set, and repeat none when the
      bases repeat none. */
  lemma HeuristicFits(previous: seq<Subset>, bases: seq<Subset>, subsets: seq<Subset>, genes: seq<Gene>, k: nat)
    requires 1 <= k && AllFit(previous, k - 1, genes)
    requires forall b :: b in bases ==> b in previous
    requires NoDup(subsets) && forall c :: c in subsets <==> c in Candidates(bases, genes)
    ensures AllFit(subsets, k, genes)
    ensures Distinct(previous) ==> Distinct(subsets)
  {
    forall c | c in subsets ensures |c| == k && forall x :: x in c ==> x in genes {
      CandidatesSound(bases, genes, c);
      var i, g :| 0 <= i < |bases| && g in genes && g !in bases[i] && c == Canon(bases[i] + [g]);
      assert bases[i] in previous;
      CanonKeeps(bases[i] + [g]);
    }
    if Distinct(previous) {
      forall c | c in subsets ensures NoDup(c) {
        forall i | 0 <= i < |bases| ensures |bases[i]| == k - 1 && NoDup(bases[i]) {
          assert bases[i] in previous;
        }
        CandidateShape(bases, genes, k - 1, c);
      }
    }
  }

  /** A file written for subsets of at least one clean gene each reads back
      as the rows written. */
  lemma ReadBack(rows: seq<Scored>, k: nat, genes: seq<Gene>)
    requires CleanGenes(genes) && 1 <= k && AllFit(Ranked(rows), k, genes)
    ensures LoadRecord(Record(rows)) == Ok(rows)
  {
    forall j | 0 <= j < |rows| ensures CleanRow(rows[j]) {
      var c := rows[j].subset;
      assert c == Ranked(rows)[j];
      forall i | 0 <= i < |c| ensures CleanGene(c[i]) {
        assert c[i] in c;
        var t :| 0 <= t < |genes| && genes[t] == c[i];
      }
    }
    RecordRoundTrip(rows);
  }

  /** One iteration k of lines 185-216 of scripts/phase2.py and 143-174 of
      scripts/phase2-evaluate.py: generate the subsets, score them, write
      the file. `earlier` is what iteration k - 1 wrote to `previous`. */
  method Iteration(genes: seq<Gene>, k: nat, copy: Copy, previous: string, ghost earlier: seq<Scored>)
    returns (res: Result<string>, ghost rows: seq<Scored>, ghost draw: seq<nat>, ghost bases: seq<Subset>)
    requires 1 <= k <= |genes|
    requires !Exhaustive(k, |genes|) ==> previous == Record(earlier) && Written(genes, k - 1, earlier)
    ensures res.Ok? ==> res.value == Record(rows) && Written(genes, k, rows)
    ensures res.Ok? && !Exhaustive(k, |genes|) && CleanGenes(genes) ==>
      Chosen(genes, copy, earlier, Ranked(rows), draw, bases)
    ensures Exhaustive(k, |genes|) ==> res.Ok?
    ensures !Exhaustive(k, |genes|) && CleanGenes(genes) ==>
      (res.Ok? <==> copy == InPhase2Evaluate || DefaultSubsets <= |earlier|)
    ensures CleanGenes(genes) && res.Err? ==> res.error == SampleOutOfRange
  {
    if !Exhaustive(k, |genes|) && CleanGenes(genes) {
      ReadBack(earlier, k - 1, genes);
    }
    var generated;
    generated, draw, bases := Generate(genes, k, copy, previous);
    if generated.Err? {
      return Err(generated.error), [], draw, bases;
    }
    var content;
    rows, content := ScoreAll(generated.value);
    if Exhaustive(k, |genes|) {
      ExhaustiveFits(genes, k);
    } else if CleanGenes(genes) {
      BasesMembers(earlier, SampleCount(copy, |earlier|), draw, bases);
      HeuristicFits(Ranked(earlier), bases, generated.value, genes, k);
    }
    res := Ok(content);
  }

  lemma AppendWritten(files: seq<string>, records: seq<seq<Scored>>, file: string, rows: seq<Scored>, genes: seq<Gene>)
    requires |files| == |records|
    requires forall i :: 0 <= i < |files| ==> files[i] == Record(records[i])
    requires forall i :: 0 <= i < |records| ==> Written(genes, i + 1, records[i])
    requires file == Record(rows) && Written(genes, |records| + 1, rows)
    ensures forall i :: 0 <= i < |files| + 1 ==> (files + [file])[i] == Record((records + [rows])[i])
    ensures forall i :: 0 <= i < |records| + 1 ==> Written(genes, i + 1, (records + [rows])[i])
  {
  }

  /** Every heuristic iteration after the first chose its subsets from the
      rows of the one before: `draws[i]` and `chosen[i]` are the draw order
      and the bases of iteration i + 1. */
  ghost predicate History(genes: seq<Gene>, copy: Copy, records: seq<seq<Scored>>,
                          draws: seq<seq<nat>>, chosen: seq<seq<Subset>>)
  {
    && |records| == |draws| == |chosen|
    && forall i :: 1 <= i < |records| && !Exhaustive(i + 1, |genes|) ==>
         Chosen(genes, copy, records[i - 1], Ranked(records[i]), draws[i], chosen[i])
  }

  lemma AppendChosen(genes: seq<Gene>, copy: Copy, records: seq<seq<Scored>>, draws: seq<seq<nat>>,
                     chosen: seq<seq<Subset>>, rows: seq<Scored>, draw: seq<nat>, bases: seq<Subset>)
    requires History(genes, copy, records, draws, chosen)
    requires 1 <= |records| && !Exhaustive(|records| + 1, |genes|) ==>
      Chosen(genes, copy, records[|records| - 1], Ranked(rows), draw, bases)
    ensures History(genes, copy, records + [rows], draws + [draw], chosen + [bases])
  {
    var records', draws', chosen' := records + [rows], draws + [draw], chosen + [bases];
    forall i | 1 <= i < |records'| && !Exhaustive(i + 1, |genes|)
      ensures Chosen(genes, copy, records'[i - 1], Ranked(records'[i]), draws'[i], chosen'[i])
    {
      if i < |records| {
        assert records'[i - 1] == records[i - 1] && records'[i] == records[i];
        assert draws'[i] == draws[i] && chosen'[i] == chosen[i];
      }
    }
  }

  /** What a run has produced after some iterations: `files[i]` holds the
      lines of `records[i]`, each record satisfies `Written`, and with clean
      gene names each heuristic iteration chose its subsets from the record
      before it. */
  ghost predicate Run(genes: seq<Gene>, copy: Copy, files: seq<string>, records: seq<seq<Scored>>,
                      draws: seq<seq<nat>>, chosen: seq<seq<Subset>>)
  {
    && |files| == |records|
    && (forall i :: 0 <= i < |files| ==> files[i] == Record(records[i]))
    && (forall i :: 0 <= i < |records| ==> Written(genes, i + 1, records[i]))
    && |draws| == |chosen| == |records|
    && (CleanGenes(genes) ==> History(genes, copy, records, draws, chosen))
  }

  lemma AppendRun(genes: seq<Gene>, copy: Copy, files: seq<string>, records: seq<seq<Scored>>,
                  draws: seq<seq<nat>>, chosen: seq<seq<Subset>>,
                  file: string, rows: seq<Scored>, draw: seq<nat>, bases: seq<Subset>)
    requires Run(genes, copy, files, records, draws, chosen)
    requires file == Record(rows) && Written(genes, |records| + 1, rows)
    requires CleanGenes(genes) && 1 <= |records| && !Exhaustive(|records| + 1, |genes|) ==>
      Chosen(genes, copy, records[|records| - 1], Ranked(rows), draw, bases)
    ensures Run(genes, copy, files + [file], records + [rows], draws + [draw], chosen + [bases])
  {
    AppendWritten(files, records, file, rows, genes);
    if CleanGenes(genes) {
      AppendChosen(genes, copy, records, draws, chosen, rows, draw, bases);
    }
  }

  /** Iteration k of a run that has written `files` so far: the run after it
      still satisfies `Run`, and with clean gene names it fails only with
      the sample's ValueError, only in the copy in scripts/phase2.py, and for
      six or seven genes exactly at k = 4. */
  method Step(genes: seq<Gene>, copy: Copy, k: nat, files: seq<string>, ghost records: seq<seq<Scored>>,
              ghost draws: seq<seq<nat>>, ghost chosen: seq<seq<Subset>>)
    returns (res: Result<string>, ghost rows: seq<Scored>, ghost draw: seq<nat>, ghost bases: seq<Subset>)
    requires 1 <= k <= |genes| && |files| == k - 1
    requires Run(genes, copy, files, records, draws, chosen)
    requires CleanGenes(genes) && copy == InPhase2 && 6 <= |genes| <= 7 ==> k <= 4
    ensures res.Ok? ==> Run(genes, copy, files + [res.value], records + [rows], draws + [draw], chosen + [bases])
    ensures Exhaustive(k, |genes|) ==> res.Ok?
    ensures CleanGenes(genes) ==> res.Ok? || res == Err(SampleOutOfRange)
    ensures CleanGenes(genes) && copy == InPhase2Evaluate ==> res.Ok?
    ensures CleanGenes(genes) && copy == InPhase2 && 6 <= |genes| <= 7 && k == 4 ==> res == Err(SampleOutOfRange)
  {
    var n := |genes|;
    var previous := if k >= 2 then files[k - 2] else "";
    ghost var earlier := if k >= 2 then records[k - 2] else [];
    if CleanGenes(genes) && copy == InPhase2 && 6 <= n <= 7 && k == 4 {
      Phase2.SmallGeneSetsRaise(n);
      assert Written(genes, 3, earlier);
    }
    res, rows, draw, bases := Iteration(genes, k, copy, previous, earlier);
    if res.Ok? {
      AppendRun(genes, copy, files, records, draws, chosen, res.value, rows, draw, bases);
    }
  }

  /** Lines 185-216 of scripts/phase2.py and 143-174 of
      scripts/phase2-evaluate.py for one gene set. `files[k - 1]` is the
      file `scores_k.txt`, holding the lines of `records[k - 1]`.
      - Exhaustive iterations score every k-combination of the genes.
      - With clean gene names, iteration k scores subsets of k genes of
        the set, and with no gene listed twice none is scored twice or
        repeats a gene.
      - With clean gene names the copy in scripts/phase2-evaluate.py runs
        every iteration; the copy in scripts/phase2.py can stop only with
        the sample's ValueError, and for a set of six or seven genes it
        does, at k = 4, after writing three files. */
  method Decompose(genes: seq<Gene>, copy: Copy)
    returns (files: seq<string>, ghost records: seq<seq<Scored>>,
             ghost draws: seq<seq<nat>>, ghost chosen: seq<seq<Subset>>, outcome: Result<()>)
    ensures |files| == |records| <= |genes|
    ensures |draws| == |chosen| == |records|
    ensures forall i :: 0 <= i < |files| ==> files[i] == Record(records[i])
    ensures outcome.Ok? ==> |files| == |genes|
    ensures forall i :: 0 <= i < |records| ==> Written(genes, i + 1, records[i])
    ensures CleanGenes(genes) ==> History(genes, copy, records, draws, chosen)
    ensures CleanGenes(genes) ==> outcome.Ok? || outcome == Err(SampleOutOfRange)
    ensures CleanGenes(genes) && copy == InPhase2Evaluate ==> outcome.Ok?
    ensures CleanGenes(genes) && copy == InPhase2 && 6 <= |genes| <= 7 ==>
      outcome == Err(SampleOutOfRange) && |files| == 3
  {
    var n := |genes|;
    files := [];
    records, draws, chosen := [], [], [];
    for k := 1 to n + 1
      invariant |files| == k - 1
      invariant Run(genes, copy, files, records, draws, chosen)
      invariant CleanGenes(genes) && copy == InPhase2 && 6 <= n <= 7 ==> k <= 4
    {
      var written, rows, draw, bases := Step(genes, copy, k, files, records, draws, chosen);
      if written.Err? {
        outcome := Err(written.error);
        return;
      }
      files := files + [written.value];
      records, draws, chosen := records + [rows], draws + [draw], chosen + [bases];
    }
    outcome := Ok(());
  }
}
