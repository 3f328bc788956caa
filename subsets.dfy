/** Gene subsets: canonical (sorted) form, exhaustive enumeration with
    `itertools.combinations`, the exhaustive/heuristic mode test, and the
    heuristic's extension of base subsets by one gene with de-duplication. */
module Subsets {
  import opened Text
  import opened Lists

  type Gene = string
  type Subset = seq<Gene>

  predicate Sorted(s: Subset) {
    forall i, j :: 0 <= i < j < |s| ==> LessEq(s[i], s[j])
  }

  /** Place `x` before the first element it does not exceed. */
  function Insert(x: Gene, s: Subset): (r: Subset)
    ensures multiset(r) == multiset{x} + multiset(s)
  {
    if |s| == 0 then [x]
    else if LessEq(x, s[0]) then [x] + s
    else
      assert s == [s[0]] + s[1..];
      [s[0]] + Insert(x, s[1..])
  }

  lemma {:induction false} InsertSorted(x: Gene, s: Subset)
    requires Sorted(s)
    ensures Sorted(Insert(x, s))
  {
    if |s| > 0 {
      if LessEq(x, s[0]) {
        forall m | 0 <= m < |s| ensures LessEq(x, s[m]) {
          if m > 0 { LessEqTotalOrder(x, s[0], s[m]); }
        }
        ConsSorted(x, s);
      } else {
        InsertSorted(x, s[1..]);
        var t := Insert(x, s[1..]);
        LessEqTotalOrder(x, s[0], s[0]);
        forall m | 0 <= m < |t| ensures LessEq(s[0], t[m]) {
          LeastOfInsert(x, s, t[m]);
        }
        SortedTail(s);
        ConsSorted(s[0], t);
      }
    }
  }

  /** A gene no greater than any gene of a sorted subset can go in front. */
  lemma ConsSorted(y: Gene, t: Subset)
    requires Sorted(t) && forall m :: 0 <= m < |t| ==> LessEq(y, t[m])
    ensures Sorted([y] + t)
  {
    var r := [y] + t;
    forall i, j | 0 <= i < j < |r| ensures LessEq(r[i], r[j]) {
      if i == 0 { assert r[j] == t[j - 1]; }
      else { assert r[i] == t[i - 1] && r[j] == t[j - 1]; }
    }
  }

  lemma LeastOfInsert(x: Gene, s: Subset, y: Gene)
    requires Sorted(s) && |s| > 0 && LessEq(s[0], x)
    requires y in multiset(Insert(x, s[1..]))
    ensures LessEq(s[0], y)
  {
    if y != x {
      assert y in multiset(s[1..]);
      var m :| 0 <= m < |s[1..]| && s[1..][m] == y;
      assert s[m + 1] == y;
    }
  }

  /** `sorted(subset)`: the same genes in ascending code-point order. */
  function Canon(s: Subset): (r: Subset)
    ensures multiset(r) == multiset(s)
    ensures Sorted(r)
  {
    if |s| == 0 then []
    else
      var t := Canon(s[1..]);
      InsertSorted(s[0], t);
      assert s == [s[0]] + s[1..];
      Insert(s[0], t)
  }

  lemma SortedHeadLeast(s: Subset, y: Gene)
    requires Sorted(s) && y in s
    ensures LessEq(s[0], y)
  {
    var i :| 0 <= i < |s| && s[i] == y;
    if i > 0 { assert LessEq(s[0], s[i]); }
  }

  lemma SortedTail(s: Subset)
    requires Sorted(s) && |s| > 0
    ensures Sorted(s[1..])
  {
    forall i, j | 0 <= i < j < |s| - 1 ensures LessEq(s[1..][i], s[1..][j]) {
      assert s[1..][i] == s[i + 1] && s[1..][j] == s[j + 1];
    }
  }

  /** Two sorted arrangements of the same genes are equal. */
  lemma {:induction false} SortedUnique(a: Subset, b: Subset)
    requires Sorted(a) && Sorted(b) && multiset(a) == multiset(b)
    ensures a == b
  {
    assert |a| == |multiset(a)| == |multiset(b)| == |b|;
    if |a| > 0 {
      assert a[0] in multiset(b) && b[0] in multiset(a);
      SortedHeadLeast(b, a[0]);
      SortedHeadLeast(a, b[0]);
      LessEqTotalOrder(a[0], b[0], a[0]);
      assert a[0] == b[0];
      TailMultiset(a);
      TailMultiset(b);
      SortedTail(a);
      SortedTail(b);
      SortedUnique(a[1..], b[1..]);
    }
  }

  /** Canonical form depends only on which genes occur (and how often), not
      on the order they were generated in. */
  lemma CanonOrderIndependent(s: Subset, t: Subset)
    ensures Canon(s) == Canon(t) <==> multiset(s) == multiset(t)
  {
    if multiset(s) == multiset(t) { SortedUnique(Canon(s), Canon(t)); }
  }

  /** Canonicalising twice is canonicalising once. */
  lemma CanonIdempotent(s: Subset)
    ensures Canon(Canon(s)) == Canon(s)
  {
    SortedUnique(Canon(Canon(s)), Canon(s));
  }

  lemma {:induction false} NoDupMultiset<T>(s: seq<T>)
    ensures NoDup(s) <==> forall x :: multiset(s)[x] <= 1
  {
    if |s| > 0 {
      var t := s[1..];
      NoDupMultiset(t);
      assert s == [s[0]] + t;
      assert multiset(s) == multiset{s[0]} + multiset(t);
      if NoDup(s) {
        NoDupTail(s);
      } else if forall x :: multiset(s)[x] <= 1 {
        assert multiset(s)[s[0]] <= 1;
        assert multiset(t)[s[0]] == 0;
        assert NoDup(t) by {
          forall x ensures multiset(t)[x] <= 1 { assert multiset(s)[x] == multiset(t)[x] + (if x == s[0] then 1 else 0); }
        }
        forall i, j | 0 <= i < j < |s| ensures s[i] != s[j] {
          if i == 0 { assert s[j] == t[j - 1]; assert s[j] in multiset(t); }
          else { assert s[i] == t[i - 1] && s[j] == t[j - 1]; }
        }
      }
    }
  }

  /** Canonicalisation keeps a duplicate-free subset duplicate-free. */
  lemma CanonNoDup(s: Subset)
    requires NoDup(s)
    ensures NoDup(Canon(s))
  {
    NoDupMultiset(s);
    NoDupMultiset(Canon(s));
  }

  // ---------------------------------------------------------------------
  // Exhaustive mode

  /** Mode test of the iteration loop: at iteration `k` over `n` genes every
      k-combination is enumerated when `k <= 3 or n - k <= 1`; otherwise the
      heuristic runs, which can happen only from six genes up, for
      `4 <= k <= n - 2`. */
  function Exhaustive(k: int, n: int): (b: bool)
    ensures 1 <= k <= n ==> (!b <==> 6 <= n && 4 <= k <= n - 2)
    ensures 1 <= n <= 5 && 1 <= k <= n ==> b
  {
    k <= 3 || n - k <= 1
  }

  /** The binomial coefficient C(n, k), by Pascal's rule. */
  function Binom(n: nat, k: nat): nat {
    if k == 0 then 1
    else if n == 0 then 0
    else Binom(n - 1, k - 1) + Binom(n - 1, k)
  }

  /** C(6, 3) and C(7, 3), step by step along Pascal's triangle. */
  lemma SmallBinoms()
    ensures Binom(6, 3) == 20 && Binom(7, 3) == 35
  {
    SmallerBinoms();
    assert Binom(5, 2) == 10 && Binom(5, 3) == 10;
    assert Binom(6, 2) == 15 && Binom(6, 3) == 20;
    assert Binom(7, 3) == 35;
  }

  lemma SmallerBinoms()
    ensures Binom(4, 2) == 6 && Binom(4, 3) == 4
  {
    assert Binom(1, 1) == 1 && Binom(1, 2) == 0 && Binom(1, 3) == 0;
    assert Binom(2, 1) == 2 && Binom(2, 2) == 1 && Binom(2, 3) == 0;
    assert Binom(3, 1) == 3 && Binom(3, 2) == 3 && Binom(3, 3) == 1;
  }

  function Prepend<T>(x: T, cs: seq<seq<T>>): (r: seq<seq<T>>)
    ensures |r| == |cs|
    ensures forall i :: 0 <= i < |r| ==> r[i] == [x] + cs[i]
  {
    seq(|cs|, i requires 0 <= i < |cs| => [x] + cs[i])
  }

  /** `itertools.combinations(s, k)`: the k-element selections of `s` by
      position, those using the first element first; there are C(n, k). */
  function Combinations<T>(s: seq<T>, k: nat): (r: seq<seq<T>>)
    ensures |r| == Binom(|s|, k)
    decreases |s|
  {
    if k == 0 then [[]]
    else if |s| == 0 then []
    else Prepend(s[0], Combinations(s[1..], k - 1)) + Combinations(s[1..], k)
  }

  /** Every combination has `k` elements, taken from `s` in their order. */
  lemma {:induction false} CombinationsShape<T>(s: seq<T>, k: nat)
    ensures forall c :: c in Combinations(s, k) ==> |c| == k && Embeds(c, s)
    decreases |s|
  {
    if k > 0 && |s| > 0 {
      CombinationsShape(s[1..], k - 1);
      CombinationsShape(s[1..], k);
      var p := Prepend(s[0], Combinations(s[1..], k - 1));
      forall c | c in Combinations(s, k) ensures |c| == k && Embeds(c, s) {
        if c in p {
          var i :| 0 <= i < |p| && p[i] == c;
          var d := Combinations(s[1..], k - 1)[i];
          assert c == [s[0]] + d && c[1..] == d;
        }
      }
    }
  }

  /** Every k-element order-preserving selection from `s` is enumerated. */
  lemma {:induction false} CombinationsComplete<T>(s: seq<T>, c: seq<T>)
    requires Embeds(c, s)
    ensures c in Combinations(s, |c|)
    decreases |s|
  {
    if |c| > 0 {
      if c[0] == s[0] && Embeds(c[1..], s[1..]) {
        CombinationsComplete(s[1..], c[1..]);
        PrependMember(s[0], Combinations(s[1..], |c| - 1), c[1..]);
        FirstSplit(c);
      } else {
        CombinationsComplete(s[1..], c);
      }
    }
  }

  lemma PrependMember<T>(x: T, cs: seq<seq<T>>, d: seq<T>)
    requires d in cs
    ensures [x] + d in Prepend(x, cs)
  {
    var i :| 0 <= i < |cs| && cs[i] == d;
    assert Prepend(x, cs)[i] == [x] + d;
  }

  lemma NoDupTail<T>(s: seq<T>)
    requires NoDup(s) && |s| > 0
    ensures NoDup(s[1..]) && s[0] !in s[1..]
  {
    var t := s[1..];
    forall i, j | 0 <= i < j < |t| ensures t[i] != t[j] { assert s[i + 1] != s[j + 1]; }
  }

  lemma NoDupConcat<T>(p: seq<T>, q: seq<T>)
    requires NoDup(p) && NoDup(q)
    requires forall i, j :: 0 <= i < |p| && 0 <= j < |q| ==> p[i] != q[j]
    ensures NoDup(p + q)
  {
    var all := p + q;
    forall i, j | 0 <= i < j < |all| ensures all[i] != all[j] {
      if j < |p| { assert all[i] == p[i] && all[j] == p[j]; }
      else if i >= |p| { assert all[i] == q[i - |p|] && all[j] == q[j - |p|]; }
      else { assert all[i] == p[i] && all[j] == q[j - |p|]; }
    }
  }

  lemma PrependDistinct<T>(x: T, cs: seq<seq<T>>)
    requires NoDup(cs)
    ensures NoDup(Prepend(x, cs))
  {
    var p := Prepend(x, cs);
    forall i, j | 0 <= i < j < |p| ensures p[i] != p[j] {
      assert p[i][1..] == cs[i] && p[j][1..] == cs[j];
    }
  }

  /** From duplicate-free genes, the combinations are pairwise distinct. */
  lemma {:induction false} CombinationsDistinct<T>(s: seq<T>, k: nat)
    requires NoDup(s)
    ensures NoDup(Combinations(s, k))
    decreases |s|
  {
    if k > 0 && |s| > 0 {
      var t := s[1..];
      NoDupTail(s);
      CombinationsDistinct(t, k - 1);
      CombinationsDistinct(t, k);
      PrependDistinct(s[0], Combinations(t, k - 1));
      WithoutFirst(s[0], t, k);
      PrependApart(s[0], Combinations(t, k - 1), Combinations(t, k));
      NoDupConcat(Prepend(s[0], Combinations(t, k - 1)), Combinations(t, k));
    }
  }

  /** No k-combination of `t`, for `k > 0`, starts with an element absent
      from `t`. */
  lemma WithoutFirst<T>(x: T, t: seq<T>, k: nat)
    requires x !in t && k > 0
    ensures forall j :: 0 <= j < |Combinations(t, k)| ==>
      |Combinations(t, k)[j]| > 0 && Combinations(t, k)[j][0] != x
  {
    CombinationsShape(t, k);
    var q := Combinations(t, k);
    forall j | 0 <= j < |q| ensures |q[j]| > 0 && q[j][0] != x {
      assert q[j] in q;
      EmbedsMembers(q[j], t);
      assert q[j][0] in q[j];
    }
  }

  lemma PrependApart<T>(x: T, cs: seq<seq<T>>, q: seq<seq<T>>)
    requires forall j :: 0 <= j < |q| ==> |q[j]| > 0 && q[j][0] != x
    ensures forall i, j :: 0 <= i < |cs| && 0 <= j < |q| ==> Prepend(x, cs)[i] != q[j]
  {
    forall i, j | 0 <= i < |cs| && 0 <= j < |q| ensures Prepend(x, cs)[i] != q[j] {
      assert Prepend(x, cs)[i][0] == x;
    }
  }

  /** From duplicate-free genes, every combination is duplicate-free. */
  lemma CombinationsNoRepeats<T>(s: seq<T>, k: nat)
    requires NoDup(s)
    ensures forall c :: c in Combinations(s, k) ==> NoDup(c)
  {
    CombinationsShape(s, k);
    forall c | c in Combinations(s, k) ensures NoDup(c) { EmbedsNoDup(c, s); }
  }

  /** Strictly increasing, as the positions `0, 1, ..., n - 1` of a list. */
  predicate Increasing(s: seq<int>) {
    forall i, j :: 0 <= i < j < |s| ==> s[i] < s[j]
  }

  /** Lexicographic order: the first position where two sequences differ
      decides. */
  predicate LexLess(a: seq<int>, b: seq<int>) {
    |a| > 0 && |b| > 0 && (a[0] < b[0] || (a[0] == b[0] && LexLess(a[1..], b[1..])))
  }

  predicate LexSorted(cs: seq<seq<int>>) {
    forall i :: 0 <= i < |cs| - 1 ==> LexLess(cs[i], cs[i + 1])
  }

  /** `itertools.combinations` emits in lexicographic order: over the
      positions of the gene list, each combination comes strictly after the
      one before it. */
  lemma {:induction false} CombinationsInOrder(s: seq<int>, k: nat)
    requires Increasing(s)
    ensures LexSorted(Combinations(s, k))
    decreases |s|
  {
    if k > 0 && |s| > 0 {
      var t := s[1..];
      assert Increasing(t) by {
        forall i, j | 0 <= i < j < |t| ensures t[i] < t[j] { assert t[i] == s[i + 1] && t[j] == s[j + 1]; }
      }
      CombinationsInOrder(t, k - 1);
      CombinationsInOrder(t, k);
      var first := Prepend(s[0], Combinations(t, k - 1));
      var second := Combinations(t, k);
      PrependInOrder(s[0], Combinations(t, k - 1));
      if |first| > 0 && |second| > 0 {
        var c := second[0];
        CombinationsShape(t, k);
        assert c in second;
        EmbedsMembers(c, t);
        assert c[0] in t;
        var j :| 0 <= j < |t| && t[j] == c[0];
        assert s[0] < s[j + 1];
      }
      ConcatInOrder(first, second);
    }
  }

  lemma PrependInOrder(x: int, cs: seq<seq<int>>)
    requires LexSorted(cs)
    ensures LexSorted(Prepend(x, cs))
  {
    var p := Prepend(x, cs);
    forall i | 0 <= i < |p| - 1 ensures LexLess(p[i], p[i + 1]) {
      assert p[i][1..] == cs[i] && p[i + 1][1..] == cs[i + 1];
    }
  }

  lemma ConcatInOrder(p: seq<seq<int>>, q: seq<seq<int>>)
    requires LexSorted(p) && LexSorted(q)
    requires |p| > 0 && |q| > 0 ==> LexLess(p[|p| - 1], q[0])
    ensures LexSorted(p + q)
  {
    var all := p + q;
    forall i | 0 <= i < |all| - 1 ensures LexLess(all[i], all[i + 1]) {
      if i + 1 < |p| { assert all[i] == p[i] && all[i + 1] == p[i + 1]; }
      else if i >= |p| { assert all[i] == q[i - |p|] && all[i + 1] == q[i + 1 - |p|]; }
    }
  }

  // ---------------------------------------------------------------------
  // Heuristic mode: extension by one gene

  /** `base + [g]` for every gene `g` of `set(genes) - set(base)`. */
  function OneExt(base: Subset, genes: seq<Gene>): set<Subset> {
    set g | g in genes && g !in base :: base + [g]
  }

  /** The uncanonicalised extensions of all bases. */
  function RawExt(bases: seq<Subset>, genes: seq<Gene>): set<Subset> {
    if |bases| == 0 then {}
    else RawExt(bases[..|bases| - 1], genes) + OneExt(bases[|bases| - 1], genes)
  }

  /** The set of tuples the heuristic de-duplicates through: every extension,
      canonicalised, so every candidate is sorted. */
  function Candidates(bases: seq<Subset>, genes: seq<Gene>): (r: set<Subset>)
    ensures forall c :: c in r ==> Sorted(c)
  {
    Image(RawExt(bases, genes), Canon)
  }

  function Image<A, B>(s: set<A>, f: A -> B): set<B> {
    set x | x in s :: f(x)
  }

  lemma {:induction false} RawExtMembers(bases: seq<Subset>, genes: seq<Gene>, c: Subset)
    ensures c in RawExt(bases, genes) <==>
      exists i, g :: 0 <= i < |bases| && g in genes && g !in bases[i] && c == bases[i] + [g]
  {
    if |bases| > 0 {
      var n := |bases| - 1;
      RawExtMembers(bases[..n], genes, c);
      if exists i, g :: 0 <= i < |bases| && g in genes && g !in bases[i] && c == bases[i] + [g] {
        var i, g :| 0 <= i < |bases| && g in genes && g !in bases[i] && c == bases[i] + [g];
        if i < n { assert bases[..n][i] == bases[i]; }
      }
    }
  }

  /** Every candidate is the sorted form of some base extended by a gene of
      the gene list that the base lacks. */
  lemma CandidatesSound(bases: seq<Subset>, genes: seq<Gene>, c: Subset)
    requires c in Candidates(bases, genes)
    ensures exists i, g :: 0 <= i < |bases| && g in genes && g !in bases[i] && c == Canon(bases[i] + [g])
  {
    var raw :| raw in RawExt(bases, genes) && c == Canon(raw);
    RawExtMembers(bases, genes, raw);
  }

  /** Every sorted one-gene extension of every base is a candidate. */
  lemma CandidatesComplete(bases: seq<Subset>, genes: seq<Gene>, i: nat, g: Gene)
    requires i < |bases| && g in genes && g !in bases[i]
    ensures Canon(bases[i] + [g]) in Candidates(bases, genes)
  {
    RawExtMembers(bases, genes, bases[i] + [g]);
  }

  lemma AppendNoDup(b: Subset, g: Gene)
    requires NoDup(b) && g !in b
    ensures NoDup(b + [g])
  {
    var r := b + [g];
    forall p, q | 0 <= p < q < |r| ensures r[p] != r[q] {
      if q == |b| { assert r[p] == b[p]; } else { assert r[p] == b[p] && r[q] == b[q]; }
    }
  }

  /** Canonicalisation keeps the length and the genes. */
  lemma CanonKeeps(s: Subset)
    ensures |Canon(s)| == |s|
    ensures forall x :: x in Canon(s) <==> x in s
  {
    assert |Canon(s)| == |multiset(Canon(s))| == |multiset(s)| == |s|;
    forall x ensures x in Canon(s) <==> x in s {
      assert x in Canon(s) <==> x in multiset(Canon(s));
      assert x in s <==> x in multiset(s);
    }
  }

  /** A candidate grown from duplicate-free bases of `m` genes is sorted, has
      `m + 1` genes and no repeats. */
  lemma CandidateShape(bases: seq<Subset>, genes: seq<Gene>, m: nat, c: Subset)
    requires forall i :: 0 <= i < |bases| ==> |bases[i]| == m && NoDup(bases[i])
    requires c in Candidates(bases, genes)
    ensures Sorted(c) && |c| == m + 1 && NoDup(c)
  {
    CandidatesSound(bases, genes, c);
    var i, g :| 0 <= i < |bases| && g in genes && g !in bases[i] && c == Canon(bases[i] + [g]);
    AppendNoDup(bases[i], g);
    CanonKeeps(bases[i] + [g]);
    CanonNoDup(bases[i] + [g]);
  }

  /** A candidate holds only genes of the list when every base does. */
  lemma CandidateGenes(bases: seq<Subset>, genes: seq<Gene>, c: Subset)
    requires forall i, x :: 0 <= i < |bases| && x in bases[i] ==> x in genes
    requires c in Candidates(bases, genes)
    ensures forall x :: x in c ==> x in genes
  {
    CandidatesSound(bases, genes, c);
    var i, g :| 0 <= i < |bases| && g in genes && g !in bases[i] && c == Canon(bases[i] + [g]);
    CanonKeeps(bases[i] + [g]);
  }

  /** `set(genes)`. */
  function Universe(genes: seq<Gene>): set<Gene> {
    set g | g in genes
  }

  /** `set(genes) - set(base)`: the genes the heuristic may add to `base`. */
  function ExtraGenes(base: Subset, genes: seq<Gene>): set<Gene> {
    set g | g in genes && g !in base
  }

  lemma {:induction false} ImageBound<A, B>(s: set<A>, f: A -> B)
    ensures |Image(s, f)| <= |s|
    decreases |s|
  {
    if s != {} {
      var y :| y in s;
      ImageBound(s - {y}, f);
      assert Image(s, f) == Image(s - {y}, f) + {f(y)};
    }
  }

  lemma OneExtBound(base: Subset, genes: seq<Gene>)
    ensures |OneExt(base, genes)| <= |ExtraGenes(base, genes)|
  {
    var f := (g: Gene) => base + [g];
    ImageBound(ExtraGenes(base, genes), f);
    forall c | c in OneExt(base, genes) ensures c in Image(ExtraGenes(base, genes), f) {
      var g :| g in genes && g !in base && c == base + [g];
      assert g in ExtraGenes(base, genes) && f(g) == c;
    }
    SubsetCard(OneExt(base, genes), Image(ExtraGenes(base, genes), f));
  }

  lemma {:induction false} RawExtBound(bases: seq<Subset>, genes: seq<Gene>, width: nat)
    requires forall i :: 0 <= i < |bases| ==> |ExtraGenes(bases[i], genes)| <= width
    ensures |RawExt(bases, genes)| <= |bases| * width
  {
    if |bases| > 0 {
      var n := |bases| - 1;
      var front, last := RawExt(bases[..n], genes), OneExt(bases[n], genes);
      assert forall i :: 0 <= i < n ==> bases[..n][i] == bases[i];
      RawExtBound(bases[..n], genes, width);
      OneExtBound(bases[n], genes);
      assert RawExt(bases, genes) == front + last;
      assert |front + last| <= |front| + |last|;
      MulSucc(n, width);
    }
  }

  lemma MulSucc(n: nat, w: nat)
    ensures (n + 1) * w == n * w + w
  {
  }

  /** Candidates are counted by bases and extra genes: at most `width` of
      them per base when no base lacks more than `width` genes of the list. */
  lemma CandidatesBound(bases: seq<Subset>, genes: seq<Gene>, width: nat)
    requires forall i :: 0 <= i < |bases| ==> |ExtraGenes(bases[i], genes)| <= width
    ensures |Candidates(bases, genes)| <= |bases| * width
  {
    RawExtBound(bases, genes, width);
    ImageBound(RawExt(bases, genes), Canon);
  }

  /** There are never more candidates than bases times distinct genes. */
  lemma CandidatesBoundByGenes(bases: seq<Subset>, genes: seq<Gene>)
    ensures |Candidates(bases, genes)| <= |bases| * |Universe(genes)|
  {
    forall i | 0 <= i < |bases| ensures |ExtraGenes(bases[i], genes)| <= |Universe(genes)| {
      SubsetCard(ExtraGenes(bases[i], genes), Universe(genes));
    }
    CandidatesBound(bases, genes, |Universe(genes)|);
  }

  lemma SubsetCard<T>(a: set<T>, b: set<T>)
    requires a <= b
    ensures |a| <= |b|
  {
    assert b == a + (b - a);
    assert a * (b - a) == {};
  }

  lemma {:induction false} NoDupCard<T>(s: seq<T>)
    requires NoDup(s)
    ensures |set x | x in s| == |s|
  {
    if |s| > 0 {
      NoDupTail(s);
      NoDupCard(s[1..]);
      assert (set x | x in s) == (set x | x in s[1..]) + {s[0]};
    }
  }

  /** A base of distinct genes of the list can grow by any of the others. */
  lemma ExtraGenesCount(b: Subset, genes: seq<Gene>)
    requires NoDup(b) && forall x :: x in b ==> x in genes
    ensures |b| <= |Universe(genes)|
    ensures |ExtraGenes(b, genes)| == |Universe(genes)| - |b|
  {
    var members := set x | x in b;
    NoDupCard(b);
    SubsetCard(members, Universe(genes));
    assert ExtraGenes(b, genes) == Universe(genes) - members;
  }

  /** For bases of `m` distinct genes of the list, each base can grow by one
      of `|set(genes)| - m` genes, which bounds the candidates; at iteration
      `k` (bases of size `k - 1`) this is `|bases| * (N - k + 1)`. */
  lemma CandidatesBoundBySize(bases: seq<Subset>, genes: seq<Gene>, m: nat)
    requires forall i :: 0 <= i < |bases| ==> |bases[i]| == m && NoDup(bases[i])
    requires forall i, x :: 0 <= i < |bases| && x in bases[i] ==> x in genes
    ensures |Candidates(bases, genes)| <= |bases| * (|Universe(genes)| - m)
  {
    if |bases| == 0 {
      assert RawExt(bases, genes) == {};
    } else {
      ExtraGenesCount(bases[0], genes);
      forall i | 0 <= i < |bases| ensures |ExtraGenes(bases[i], genes)| == |Universe(genes)| - m {
        ExtraGenesCount(bases[i], genes);
      }
      CandidatesBound(bases, genes, |Universe(genes)| - m);
    }
  }

  /** Lines 46-58 of `select_subsets`: extend every base by each gene of
      `set(genes) - set(base)` (listed in set order), sort each result and
      keep one copy of each through a set of tuples, listed in set order. */
  method Extend(bases: seq<Subset>, genes: seq<Gene>) returns (subsets: seq<Subset>)
    ensures NoDup(subsets)
    ensures forall c :: c in subsets <==> c in Candidates(bases, genes)
  {
    var raw: seq<Subset> := [];
    for i := 0 to |bases|
      invariant forall c :: c in raw <==> c in RawExt(bases[..i], genes)
    {
      var base := bases[i];
      var extra := ListSet(Universe(genes) - set g | g in base);
      var grown := seq(|extra|, j requires 0 <= j < |extra| => base + [extra[j]]);
      forall c ensures c in grown <==> c in OneExt(base, genes) {
        if c in OneExt(base, genes) {
          var g :| g in genes && g !in base && c == base + [g];
          assert g in Universe(genes) - set g | g in base;
          var j :| 0 <= j < |extra| && extra[j] == g;
          assert grown[j] == c;
        }
        if c in grown {
          var j :| 0 <= j < |grown| && grown[j] == c;
          assert extra[j] in Universe(genes) - set g | g in base;
        }
      }
      assert bases[..i + 1][..i] == bases[..i];
      raw := raw + grown;
    }
    assert bases[..|bases|] == bases;
    var sorted := seq(|raw|, j requires 0 <= j < |raw| => Canon(raw[j]));
    forall c ensures c in sorted <==> c in Candidates(bases, genes) {
      if c in Candidates(bases, genes) {
        var x :| x in RawExt(bases, genes) && c == Canon(x);
        var j :| 0 <= j < |raw| && raw[j] == x;
        assert sorted[j] == c;
      }
    }
    subsets := ListSet(set c | c in sorted);
  }
}
