/** Gene-set files and the removal of genes the dataset lacks:
    `load_gene_sets` and the list comprehensions that follow it. */
module GeneSets {
  import opened Text
  import opened Lists
  import opened Subsets

  /** A named gene set: the first tab-separated field of its line, then the
      remaining fields. */
  datatype NamedSet = NamedSet(name: string, genes: seq<Gene>)

  /** `line.strip().split("\t")` mapped to `(line[0], line[1:])`: nothing is
      lost but the whitespace around the line, and no field holds a tab. */
  function ParseGeneSetLine(line: string): (r: NamedSet)
    ensures Join([r.name] + r.genes, '\t') == Strip(line)
    ensures '\t' !in r.name && forall i :: 0 <= i < |r.genes| ==> '\t' !in r.genes[i]
  {
    var fields := Split(Strip(line), '\t');
    JoinSplit(Strip(line), '\t');
    assert fields == [fields[0]] + fields[1..];
    NamedSet(fields[0], fields[1..])
  }

  /** `load_gene_sets(filename)` on the file's text: one gene set per line. */
  function LoadGeneSets(content: string): (r: seq<NamedSet>)
    ensures |r| == |Lines(content)|
  {
    var lines := Lines(content);
    seq(|lines|, i requires 0 <= i < |lines| => ParseGeneSetLine(lines[i]))
  }

  /** A field the format carries intact: not empty, no tab, line feed or
      carriage return, no whitespace at either end. */
  predicate CleanField(f: string) {
    |f| > 0 && !IsSpace(f[0]) && !IsSpace(f[|f| - 1])
    && '\t' !in f && '\n' !in f && '\r' !in f
  }

  predicate CleanSet(gs: NamedSet) {
    CleanField(gs.name) && forall i :: 0 <= i < |gs.genes| ==> CleanField(gs.genes[i])
  }

  /** The line a gene-set file holds for `gs`: name and genes, tab-separated. */
  function GeneSetLine(gs: NamedSet): string {
    Join([gs.name] + gs.genes, '\t')
  }

  function GeneSetLines(sets: seq<NamedSet>): (r: seq<string>)
    ensures |r| == |sets| && forall i :: 0 <= i < |sets| ==> r[i] == GeneSetLine(sets[i])
  {
    if |sets| == 0 then [] else GeneSetLines(sets[..|sets| - 1]) + [GeneSetLine(sets[|sets| - 1])]
  }

  lemma GeneSetLineRoundTrip(gs: NamedSet)
    requires CleanSet(gs)
    ensures '\n' !in GeneSetLine(gs) && '\r' !in GeneSetLine(gs)
    ensures ParseGeneSetLine(GeneSetLine(gs) + "\n") == gs
  {
    var fields := [gs.name] + gs.genes;
    forall i | 0 <= i < |fields| ensures CleanField(fields[i]) {
      if i > 0 { assert fields[i] == gs.genes[i - 1]; }
    }
    var line := GeneSetLine(gs);
    JoinAvoids(fields, '\t', '\n');
    JoinAvoids(fields, '\t', '\r');
    JoinStarts(fields, '\t');
    JoinEnds(fields, '\t');
    StripTerminated(line, "\n");
    SplitJoin(fields, '\t');
  }

  /** Reading a file written one clean gene set per line gives the sets back. */
  lemma LoadGeneSetsRoundTrip(sets: seq<NamedSet>)
    requires forall i :: 0 <= i < |sets| ==> CleanSet(sets[i])
    ensures LoadGeneSets(Terminated(GeneSetLines(sets))) == sets
  {
    var ls := GeneSetLines(sets);
    forall i | 0 <= i < |ls| ensures '\n' !in ls[i] && '\r' !in ls[i] { GeneSetLineRoundTrip(sets[i]); }
    LinesOfTerminated(ls);
    var r := LoadGeneSets(Terminated(ls));
    forall i | 0 <= i < |sets| ensures r[i] == sets[i] { GeneSetLineRoundTrip(sets[i]); }
  }

  /** `[x for x in s if keep(x)]`. */
  function Filter<T(!new)>(s: seq<T>, keep: T -> bool): (r: seq<T>)
    ensures Embeds(r, s)
    ensures forall x :: multiset(r)[x] == if keep(x) then multiset(s)[x] else 0
  {
    if |s| == 0 then []
    else
      var rest := Filter(s[1..], keep);
      assert s == [s[0]] + s[1..];
      if keep(s[0]) then
        assert ([s[0]] + rest)[1..] == rest;
        [s[0]] + rest
      else
        rest
  }

  /** `[g for g in genes if g in df_genes]`: the genes of the set that are
      columns of the dataset, in their original order, each as often as it
      occurs in the set. */
  function KeepPresent(genes: seq<Gene>, columns: set<Gene>): (r: seq<Gene>)
    ensures |r| <= |genes|
    ensures forall i :: 0 <= i < |r| ==> r[i] in columns
  {
    var r := Filter(genes, g => g in columns);
    EmbedsMembers(r, genes);
    assert forall i :: 0 <= i < |r| ==> multiset(r)[r[i]] > 0;
    r
  }

  lemma KeepPresentMembers(genes: seq<Gene>, columns: set<Gene>)
    ensures Embeds(KeepPresent(genes, columns), genes)
    ensures forall g :: g in KeepPresent(genes, columns) <==> g in genes && g in columns
  {
    var r := KeepPresent(genes, columns);
    forall g ensures g in r <==> g in genes && g in columns {
      assert g in r <==> g in multiset(r);
      assert g in genes <==> g in multiset(genes);
    }
  }

  /** The list comprehension that filters every gene set: names and the
      order of sets are kept, each set keeps exactly its genes that are
      dataset columns, in order. */
  function FilterGeneSets(sets: seq<NamedSet>, columns: set<Gene>): (r: seq<NamedSet>)
    ensures |r| == |sets|
    ensures forall i :: 0 <= i < |sets| ==> r[i].name == sets[i].name
    ensures forall i :: 0 <= i < |sets| ==> Embeds(r[i].genes, sets[i].genes)
    ensures forall i, g :: 0 <= i < |sets| ==>
      multiset(r[i].genes)[g] == if g in columns then multiset(sets[i].genes)[g] else 0
  {
    seq(|sets|, i requires 0 <= i < |sets| => NamedSet(sets[i].name, KeepPresent(sets[i].genes, columns)))
  }

  /** `sum([genes for (name, genes) in gene_sets], [])`: every set's genes,
      with multiplicity. */
  function Concat(sets: seq<NamedSet>): (r: seq<Gene>)
    ensures forall i :: 0 <= i < |sets| ==> multiset(sets[i].genes) <= multiset(r)
  {
    if |sets| == 0 then [] else Concat(sets[..|sets| - 1]) + sets[|sets| - 1].genes
  }

  lemma {:induction false} ConcatMembers(sets: seq<NamedSet>, g: Gene)
    ensures g in Concat(sets) <==> exists i :: 0 <= i < |sets| && g in sets[i].genes
  {
    if |sets| > 0 {
      var n := |sets| - 1;
      ConcatMembers(sets[..n], g);
      if exists i :: 0 <= i < |sets| && g in sets[i].genes {
        var i :| 0 <= i < |sets| && g in sets[i].genes;
        if i < n { assert sets[..n][i] == sets[i]; }
      }
    }
  }

  /** Lines 131-132: `genes` lists every gene named by any set once, in set
      order, and `missing_genes` those of them that are not dataset columns. */
  method MissingGenes(sets: seq<NamedSet>, columns: set<Gene>) returns (genes: seq<Gene>, missing: seq<Gene>)
    ensures NoDup(genes)
    ensures forall g :: g in genes <==> exists i :: 0 <= i < |sets| && g in sets[i].genes
    ensures NoDup(missing) && Embeds(missing, genes)
    ensures forall g :: g in missing <==> g in genes && g !in columns
  {
    var all := Concat(sets);
    genes := ListSet(set g | g in all);
    forall g ensures g in genes <==> exists i :: 0 <= i < |sets| && g in sets[i].genes {
      ConcatMembers(sets, g);
    }
    missing := Filter(genes, g => g !in columns);
    EmbedsNoDup(missing, genes);
    forall g ensures g in missing <==> g in genes && g !in columns {
      assert g in missing <==> g in multiset(missing);
      assert g in genes <==> g in multiset(genes);
    }
  }
}
