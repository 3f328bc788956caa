# Gene-set decomposition: subset generation, verified in Dafny

This project models the subset-generation step of the DeepGTEx gene-set
decomposition search, as written in `scripts/phase2.py` and in its near-copy
`scripts/phase2-evaluate.py`, and proves properties of that model.

For every gene set, the search runs iterations k = 1 .. n over the set's n
genes:

- An iteration is exhaustive when `k <= 3 or n - k <= 1`: it scores every
  k-combination of the genes, in `itertools.combinations` order.
- Otherwise it runs the heuristic `select_subsets` on the previous
  iteration's checkpoint file `scores_(k-1).txt`:
  - it sorts the (subset, score) pairs in place, stably, by descending score;
  - it keeps the best 50 as seeds;
  - it adds a random sample of the rest;
  - it extends every chosen subset by each gene it lacks;
  - it sorts each extension and drops duplicates.
- Each scored subset is written as one line `genes<TAB>score`. The genes are
  comma-joined and the score is printed with three decimals.
- Gene sets come from a tab-separated file: each line is a name followed by
  genes. Genes the dataset lacks are filtered out first.

How the model is laid out:

| file | module | models |
|---|---|---|
| `results.dfy` | `Results` | the exceptions the code raises (`ValueError` from `random.sample`, `IndexError` and `ValueError` while reading a line) |
| `text.dfy` | `Text` | Python's `str.split`, `str.join`, `str.strip`, code-point string order, and iteration over a file's lines |
| `lists.dfy` | `Lists` | slices `s[:n]` and `s[n:]`, `int()` on a real, `random.sample` as an oracle, and `list(set(...))` |
| `subsets.dfy` | `Subsets` | `sorted(subset)`, the mode test, `itertools.combinations`, and the one-gene extension with de-duplication (a method with a loop) |
| `scores.dfy` | `Scores` | the stable descending sort: a specification function and an in-place insertion sort over an `array` |
| `checkpoint.dfy` | `Checkpoint` | the checkpoint line format and file round trip |
| `genesets.dfy` | `GeneSets` | `load_gene_sets` and the gene filtering |
| `selection.dfy` | `Selection` | what the two copies of `select_subsets` share: the seeds and the random sample |
| `phase2.dfy` | `Phase2` | `select_subsets` as written in `scripts/phase2.py` |
| `phase2_evaluate.dfy` | `Phase2Evaluate` | `select_subsets` as written in `scripts/phase2-evaluate.py` |
| `search.dfy` | `Search` | the iteration loop for one gene set |

How the inputs are modelled:

- Scores are whole thousandths (`nat`), which is what the `%0.3f` file keeps.
- The ratio `r` is a `real`.
- The random source is a parameter: `draw` is an order of all positions of
  the pool, and the sample is the items at its first `count` positions.
- The iteration order of a Python set is any order: `:|` choice in
  `Lists.ListSet`.
- The classifier's score for each subset is any value from 0 to 1000
  thousandths.

Where the code and the design description of the system differ, the model
follows the code:

- The design describes a resumable run with atomic checkpoint writes and a
  `MissingCheckpoint` error. The code has none of these. A bad previous line
  raises `IndexError` or `ValueError` (`Results.Error`);
  `Checkpoint.DecodeLineCases` says which, and when.
- The design states that subset lines list genes in sorted order. In the code,
  exhaustive iterations write combinations in the gene list's order; only
  heuristic extensions are sorted.
- The design promises subsets of k distinct genes. The code guarantees this
  only with clean gene names (`Checkpoint.CleanGene`) and no repeated gene in
  the list: a name holding a comma, for instance, reads back as two genes.
  `Search.Decompose` proves it under exactly these two conditions.
- The design sizes the exploration sample as
  `min(floor(r * n_subsets), remaining)`. `scripts/phase2.py` does not; see
  Findings.

## Model

| member | source | states |
|---|---|---|
| Text.Join | scripts/phase2.py:216 | `sep.join(xs)` of at least one piece is as long as the pieces together plus one separator between each two neighbours |
| Text.Split | scripts/phase2.py:202 | `split(sep)` yields at least one piece, and no piece contains the separator |
| Text.SplitSeveral | scripts/phase2.py:199 | `split(sep)` yields a second piece exactly when the separator occurs |
| Text.JoinSplit | scripts/phase2.py:202 | re-joining the pieces of a split with the separator gives back the original text |
| Text.SplitJoin | scripts/phase2.py:202 | splitting a join of at least one separator-free piece gives back exactly those pieces |
| Text.Strip | scripts/phase2.py:198 | `strip()` returns the contiguous middle part of the text that is left after dropping whitespace, and only whitespace, at both ends; the result neither begins nor ends with whitespace |
| Text.StripTerminated | scripts/phase2.py:198 | stripping a line read with its line feed gives the written text when that text has no whitespace at its ends |
| Text.Newlines | scripts/phase2.py:198 | reading in text mode turns `\r\n` and a lone `\r` into `\n`, so no carriage return is left |
| Text.NewlinesPlain | scripts/phase2.py:198 | text without a carriage return is read exactly as written |
| Text.NewlinesPrefix | scripts/phase2.py:198 | a carriage-return-free start of the text is read unchanged ahead of the rest |
| Text.CarriageReturnEndsLine | scripts/phase2.py:198 | a lone `\r` ends a line as a line feed does |
| Text.CarriageReturnLineFeedEndsLine | scripts/phase2.py:198 | `\r\n` ends a line as a single line feed |
| Text.SplitLines | scripts/phase2.py:198 | the lines laid end to end give back the text; each ends with a line feed except possibly the last, and none holds one anywhere else |
| Text.Lines | scripts/phase2.py:198 | iterating over a file opened in text mode yields lines that, laid end to end, give back the file's text after newline translation, so no character is lost, including a last line without a line feed; each line ends with a line feed except possibly the last, no line holds one anywhere else, and none holds a carriage return |
| Text.LinesOfTerminated | scripts/phase2.py:198 | iterating over a file written as line-feed-terminated lines that hold neither a line feed nor a carriage return yields exactly those lines, each with its line feed |
| Text.Less | scripts/phase2.py:57 | `a < b` on strings holds exactly when `a` is a proper prefix of `b` or, at the first position where they differ, `a` has the smaller code point |
| Text.LessIrreflexive | scripts/phase2.py:57 | no gene name sorts before itself |
| Text.LessTransitive | scripts/phase2.py:57 | the string order `sorted` uses is transitive |
| Text.LessTotal | scripts/phase2.py:57 | any two different gene names are ordered one way or the other |
| Text.LessAsymmetric | scripts/phase2.py:57 | two names never sort before each other |
| Text.LessEqTotalOrder | scripts/phase2.py:57 | the non-strict order is reflexive, antisymmetric, transitive and total |
| Lists.Head | scripts/phase2.py:40 | `prev[0:n]` has `min(n, len)` items and is a prefix of the list |
| Lists.Tail | scripts/phase2.py:44 | `prev[n:]` has `len - n` items (none past the end) and completes the prefix to the whole list |
| Lists.Trunc | scripts/phase2.py:43 | `int(x)` truncates toward zero: within one of `x`, on the side of zero |
| Lists.PickWithoutReplacement | scripts/phase2.py:44 | items taken at distinct positions form a sub-multiset of the pool |
| Lists.Sample | scripts/phase2.py:44 | `random.sample(pool, count)` succeeds exactly when `0 <= count <= len(pool)` and otherwise raises `ValueError`; a success has `count` items drawn without replacement |
| Lists.ListSet | scripts/phase2.py:51 | `list(set(...))` lists every member once and nothing else |
| Subsets.Canon | scripts/phase2.py:57 | `sorted(subset)` is a sorted rearrangement of the same genes |
| Subsets.SortedUnique | scripts/phase2.py:57 | two sorted arrangements of the same genes are equal |
| Subsets.CanonOrderIndependent | scripts/phase2.py:57-58 | two candidates get the same sorted tuple exactly when they hold the same genes, so the set of tuples merges exactly the duplicates |
| Subsets.CanonIdempotent | scripts/phase2.py:57 | sorting a sorted subset changes nothing |
| Subsets.CanonNoDup | scripts/phase2.py:57 | sorting keeps a repeat-free subset repeat-free |
| Subsets.Exhaustive | scripts/phase2.py:191 | for 1 <= k <= n, the heuristic runs exactly when n >= 6 and 4 <= k <= n - 2; for n <= 5 every iteration is exhaustive |
| Subsets.Combinations | scripts/phase2.py:192 | `itertools.combinations(genes, k)` yields C(n, k) lists, with C given by Pascal's rule |
| Subsets.CombinationsShape | scripts/phase2.py:192 | each combination has k genes, in their order in the gene list |
| Subsets.CombinationsComplete | scripts/phase2.py:192 | every order-preserving selection of k genes is yielded |
| Subsets.CombinationsInOrder | scripts/phase2.py:192 | over the positions of the gene list, the combinations come in strictly increasing lexicographic order, which decides ties in the later stable sort |
| Subsets.CombinationsDistinct | scripts/phase2.py:192 | from a repeat-free gene list, no combination is yielded twice |
| Subsets.CombinationsNoRepeats | scripts/phase2.py:192 | from a repeat-free gene list, no combination repeats a gene |
| Subsets.Candidates | scripts/phase2.py:57-58 | the set of tuples holds only sorted subsets |
| Subsets.CandidatesSound | scripts/phase2.py:49-58 | every candidate is the sorted `base + [g]` for some base and some gene `g` of the list that is not in that base |
| Subsets.CandidatesComplete | scripts/phase2.py:49-58 | every such sorted one-gene extension of every base is a candidate |
| Subsets.CandidateShape | scripts/phase2.py:49-57 | from repeat-free bases of m genes, each candidate is sorted, has m + 1 genes and no repeats |
| Subsets.CandidateGenes | scripts/phase2.py:49-57 | candidates hold only genes of the bases and of the gene list |
| Subsets.CandidatesBoundByGenes | scripts/phase2.py:49-58 | there are at most `len(bases) * len(set(genes))` candidates |
| Subsets.CandidatesBoundBySize | scripts/phase2.py:49-58 | from repeat-free bases of m listed genes, there are at most `len(bases) * (len(set(genes)) - m)` candidates |
| Subsets.Extend | scripts/phase2.py:47-58 | the extension loop followed by de-duplication returns each candidate exactly once and nothing else |
| Scores.SortDesc | scripts/phase2.py:36 | the sort keeps the list's length; its order, permutation and stability are the three lemmas below |
| Scores.SortDescSorted | scripts/phase2.py:36 | after the sort, scores never increase along the list |
| Scores.SortDescPermutes | scripts/phase2.py:36 | the sort neither drops nor adds pairs |
| Scores.SortDescStable | scripts/phase2.py:36 | pairs with equal scores keep their relative order (the sort is stable) |
| Scores.SortByScore | scripts/phase2.py:36 | the in-place sort leaves the caller's array holding the stable descending order of its old contents |
| Scores.InsertInto | scripts/phase2.py:36 | one insertion step places the next pair after every pair scoring at least as much and leaves the rest of the array unchanged |
| Checkpoint.FormatScore | scripts/phase2.py:216 | `%0.3f` writes digits, a point and exactly three decimals |
| Checkpoint.ParseScore | scripts/phase2.py:202 | `float()` accepts exactly the `digits.ddd` form; the whole part gives the thousands and the three decimals the remainder; anything else is `BadScore` |
| Checkpoint.ScoreRoundTrip | scripts/phase2.py:202 | `float()` of a written score gives the same score back |
| Checkpoint.DecodeLine | scripts/phase2.py:198-202 | a line that decodes has a non-empty subset |
| Checkpoint.DecodeLineCases | scripts/phase2.py:198-202 | reading a line raises `IndexError` exactly when the stripped line holds no tab; otherwise it raises `ValueError` exactly when the second field is not a written score, and succeeds in every other case |
| Checkpoint.DecodeLines | scripts/phase2.py:198-202 | reading a file succeeds exactly when every line decodes, so a single bad line makes it raise; on success there is one pair per line, and each pair is its own line's decoding |
| Checkpoint.EncodeLine | scripts/phase2.py:216 | each written line ends with a line feed; for clean gene names no line feed or carriage return occurs before that end |
| Checkpoint.LineTextPlain | scripts/phase2.py:216 | a line of clean gene names and a formatted score holds no line feed and no carriage return |
| Checkpoint.LoadRecord | scripts/phase2.py:197-202 | a previous file that reads back gives one pair per line, each with a non-empty subset |
| Checkpoint.LineRoundTrip | scripts/phase2.py:198-202 | a line written at line 216 for a non-empty subset of clean gene names decodes to the same subset and score |
| Checkpoint.RecordRoundTrip | scripts/phase2.py:197-202 | the file written by one iteration reads back as the same pairs in the same order when gene names are clean (the same format is read at `scripts/phase2-evaluate.py:155-160`) |
| GeneSets.ParseGeneSetLine | scripts/phase2.py:24-28 | a gene-set line becomes a name and genes that lose nothing but the surrounding whitespace, and no field holds a tab |
| GeneSets.LoadGeneSets | scripts/phase2.py:22-30 | one gene set per line of the file |
| GeneSets.GeneSetLineRoundTrip | scripts/phase2.py:24-28 | a line of clean tab-separated fields parses back to its name and genes |
| GeneSets.LoadGeneSetsRoundTrip | scripts/phase2.py:22-30 | a file of clean gene-set lines loads back as the same gene sets |
| GeneSets.Filter | scripts/phase2.py:134 | a list comprehension with a condition keeps, in order, exactly the items that pass, each as often as it occurs |
| GeneSets.KeepPresent | scripts/phase2.py:134 | a filtered gene set is no longer than the set and holds only dataset columns |
| GeneSets.KeepPresentMembers | scripts/phase2.py:134 | a filtered gene set keeps its order and holds exactly its genes that are dataset columns |
| GeneSets.FilterGeneSets | scripts/phase2.py:134 | each gene set keeps its name and position, and exactly its genes that are dataset columns, in order and with multiplicity (also `scripts/phase2-evaluate.py:92`) |
| GeneSets.Concat | scripts/phase2.py:131 | `sum([...], [])` contains every gene set's genes, with multiplicity |
| GeneSets.ConcatMembers | scripts/phase2.py:131 | `sum([...], [])` holds exactly the genes that some gene set names |
| GeneSets.MissingGenes | scripts/phase2.py:131-132 | `genes` lists each gene named by some gene set once; `missing_genes` lists, once each, exactly those not among the dataset columns, in `genes`' order (also `scripts/phase2-evaluate.py:89-90`) |
| Selection.Ranked | scripts/phase2.py:37 | the subsets of the sorted pairs, one per pair, in the sorted order |
| Selection.Bases | scripts/phase2.py:40-44 | the seeds are the first `min(n_subsets, len)` subsets of the sorted list; the sample raises unless its count fits the rest; sampled subsets come only from the rest |
| Selection.BasesFromRanked | scripts/phase2-evaluate.py:23-28 | seeds and sample together use no position of the sorted list twice |
| Selection.SeedsOutscorePool | scripts/phase2.py:36-40 | every seed scores at least as much as every subset left for the sample |
| Selection.RankedSorted | scripts/phase2.py:36-37 | sorting only reorders: each subset of the sorted list was in the list before |
| Phase2.RandomCount | scripts/phase2.py:43 | the random count is `int(r * n_subsets)` or `len(prev) - n_subsets`, whichever is smaller; it is negative exactly when fewer than `n_subsets` previous subsets exist (or `int(r * n_subsets)` is negative), and it never exceeds the pool otherwise |
| Phase2.DefaultBases | scripts/phase2.py:40-44 | with the defaults and 120 previous subsets, the count is 25 and the bases are 50 seeds and 25 sampled subsets |
| Phase2.SelectSubsets | scripts/phase2.py:34-60 | leaves the caller's list sorted (stable, descending) even when it raises; raises `ValueError` exactly when `int(r * n_subsets) < 0` or `len(prev) < n_subsets`; otherwise returns each sorted one-gene extension of the chosen bases once |
| Phase2.ShortRecordRaises | scripts/phase2.py:43-44 | with the defaults, fewer than 50 previous subsets make `select_subsets` raise |
| Phase2.SmallGeneSetsRaise | scripts/phase2.py:185-203 | for 6 or 7 genes, iteration 4 is heuristic and reads the C(n, 3) = 20 or 35 subsets of iteration 3, so the random count is negative |
| Phase2Evaluate.RandomCount | scripts/phase2-evaluate.py:24-27 | the random count is `int(r * n_subsets)` or the size of the rest of the list, whichever is smaller, so it never exceeds the rest; it is negative only when `int(r * n_subsets)` is |
| Phase2Evaluate.ShortPoolBases | scripts/phase2-evaluate.py:23-28 | with the defaults and 60 previous subsets, the count is capped at the 10 left after the seeds, and the bases are all 60 subsets |
| Phase2Evaluate.SelectSubsets | scripts/phase2-evaluate.py:17-44 | leaves the caller's list sorted (stable, descending); raises only when `int(r * n_subsets) < 0`; otherwise returns each sorted one-gene extension of the chosen bases once |
| Phase2Evaluate.NeverRaises | scripts/phase2-evaluate.py:27-28 | with a ratio that is not negative, the sample never raises, however short the previous iteration |
| Phase2Evaluate.AgreesWithPhase2 | scripts/phase2-evaluate.py:23-28 | with at least `n_subsets` previous subsets, both copies choose the same bases |
| Search.Generate | scripts/phase2.py:190-203 | exhaustive iterations yield every k-combination. Heuristic ones propagate a read error and raise exactly when the first script's copy sees fewer than 50 previous subsets. Otherwise they satisfy `Chosen`: the bases are the best 50 of the previous file's rows, stably sorted, followed by the copy's sample of the rest, and each sorted one-gene extension of a base is yielded once |
| Search.ScoreAll | scripts/phase2.py:208-216 | the file written holds one line per subset, in order, each with a score from 0 to 1000 thousandths |
| Search.ExhaustiveFits | scripts/phase2.py:191-192 | exhaustive subsets have k genes of the set; from a repeat-free gene list none is listed twice or repeats a gene |
| Search.HeuristicFits | scripts/phase2.py:197-203 | extensions of bases from an iteration of (k-1)-gene subsets have k genes of the set, and no repeats when the bases have none |
| Search.ReadBack | scripts/phase2.py:197-202 | an iteration's file, written for subsets of clean gene names, reads back as the pairs written |
| Search.Iteration | scripts/phase2.py:188-216 | one iteration keeps the file invariant (`Written`); with clean gene names a heuristic iteration scores exactly the subsets `Chosen` from the previous iteration's rows; it fails only in the heuristic, in the first script's copy, on a previous file of fewer than 50 lines |
| Search.Step | scripts/phase2.py:185-216 | one pass of the loop over k keeps `Run`; with clean gene names it fails only with the sample's `ValueError`, never in the second script's copy, and for 6 or 7 genes in the first script's copy exactly at k = 4 |
| Search.Decompose | scripts/phase2.py:185-216 | every file written satisfies `Written`. With clean gene names (`Checkpoint.CleanGene`): every heuristic iteration scores the subsets `Chosen` from the iteration before (`History`); the run fails only with the sample's `ValueError`; for 6 or 7 genes it does so at k = 4 after three files; the copy in `scripts/phase2-evaluate.py:143-174` runs every iteration to the end |

`Search.Written(genes, k, rows)` says three things:

- in an exhaustive iteration the file holds every k-combination, in order;
- with clean gene names every subset has k genes of the set;
- when, in addition, the gene list has no repeats, no subset appears twice
  and none repeats a gene.

`Search.Chosen(genes, copy, earlier, subsets, draw, bases)` says how a
heuristic iteration picks its subsets from the previous iteration's rows
`earlier`:

- `bases` is `Selection.Bases` applied to the stably sorted rows, with the
  copy's random count and the draw order `draw`;
- `subsets` lists each sorted one-gene extension of a base once, and nothing
  else.

`Search.History` says that every heuristic iteration of a run after the first
satisfies `Chosen` with respect to the record before it.

A gene name is clean (`Checkpoint.CleanGene`) when it is not empty, has no
whitespace at either end, and contains no comma, tab, carriage return or line
feed. The line format carries such names intact. A carriage return is excluded
because reading a file in text mode ends a line at it (`Text.Newlines`), so a
name holding one would be split across two lines. Gene-set fields
(`GeneSets.CleanField`) are clean on the same terms, with the comma allowed.

## Left out

- The classifier is not modelled: `evaluate`, `utils.evaluate_gene_set`, scaling, the train/test split, fitting and scoring (`scripts/phase2.py:64-78`) are outside the model. `Search.ScoreAll` takes any score from 0 to 1000 thousandths.
- Classifier construction, the JSON model configuration, argument parsing, and loading the dataset and labels are not modelled.
- Creating the log directory and writing `genes.txt` are not modelled. Files are strings that `Search.Decompose` returns.
- The outer loop over gene sets (`scripts/phase2.py:168`) is not modelled. `Search.Decompose` runs one gene set.
- Random gene-set generation (`scripts/phase2.py:144-165`) is not modelled. This includes its `sys.exit` branch, which would raise `NameError` because `sys` is never imported.
- The percentage report at `scripts/phase2.py:136-139` is not modelled. It divides by `len(genes)` and raises `ZeroDivisionError` when no gene set names any gene.
- `utils.load_gene_sets`, used by `scripts/phase2-evaluate.py:84`, is not part of this model. `GeneSets.LoadGeneSets` models the copy in `scripts/phase2.py`.
- Checkpoint.FormatScore: the score is already whole thousandths. Rounding a float classifier score to three decimals is not modelled.
- Checkpoint.ParseScore: only the `digits.ddd` form that `%0.3f` writes is accepted. Other texts `float()` accepts (signs, exponents, surrounding whitespace, `nan`) are reported as `BadScore`.
- Lists.Trunc: `r * n_subsets` is exact real arithmetic, not a binary float product. `n_subsets` is a natural number.
- Lists.Sample: which positions are drawn is a parameter. The uniform distribution of `random.sample` is not modelled.
- Search.Decompose: the previous file is read back exactly as written. In the source this relies on CPython closing, and so flushing, the score file when `logfile` is rebound (`scripts/phase2.py:197, 208`).
- The sets the code iterates over (`set(genes) - set(base)` and the set of tuples) are visited in an arbitrary order. The model proves membership and the absence of duplicates, not a particular order.

## Findings

| source | as written | input that shows it | evidently intended | confidence | as-written member | corrected member |
|---|---|---|---|---|---|---|
| scripts/phase2.py:43 | The random count is capped by `len(prev_subsets) - n_subsets`. That is negative whenever fewer than `n_subsets` (50) previous subsets exist, and `random.sample` then raises `ValueError`. | A gene set of 6 or 7 clean, distinct genes. Iteration 4 is heuristic and reads the C(6,3) = 20 or C(7,3) = 35 subsets of iteration 3. The count is `min(25, -30)` or `min(25, -15)`, and the run stops after writing three files. | Cap the count by the size of the remainder `prev_subsets[n_subsets:]`, as `scripts/phase2-evaluate.py:24-27` does. The count is then never negative and the sample never raises. | high (proved on the model; not executed) | Phase2.SmallGeneSetsRaise | Phase2Evaluate.NeverRaises |
