/** Scored subsets and the in-place, stable, score-descending sort that
    `prev_subsets.sort(key=operator.itemgetter(1), reverse=True)` performs. */
module Scores {
  import opened Subsets
  import opened Lists

  /** A subset with its score; scores are the thousandths the checkpoint
      file keeps (`%0.3f`). */
  datatype Scored = Scored(subset: Subset, score: nat)

  predicate SortedDesc(s: seq<Scored>) {
    forall i, j :: 0 <= i < j < |s| ==> s[i].score >= s[j].score
  }

  /** Place `x` after every element scoring at least as much as it does:
      moving left only past elements that score strictly less keeps equal
      scores in arrival order. */
  function InsertDesc(t: seq<Scored>, x: Scored): (r: seq<Scored>)
    ensures |r| == |t| + 1
  {
    if |t| == 0 then [x]
    else if t[|t| - 1].score >= x.score then t + [x]
    else InsertDesc(t[..|t| - 1], x) + [t[|t| - 1]]
  }

  /** The order the stable descending sort produces. */
  function SortDesc(s: seq<Scored>): (r: seq<Scored>)
    ensures |r| == |s|
  {
    if |s| == 0 then [] else InsertDesc(SortDesc(s[..|s| - 1]), s[|s| - 1])
  }

  /** The elements of `s` with score `v`, in their order in `s`. */
  function WithScore(s: seq<Scored>, v: int): seq<Scored>
  {
    if |s| == 0 then []
    else WithScore(s[..|s| - 1], v) + (if s[|s| - 1].score == v then [s[|s| - 1]] else [])
  }

  lemma {:induction false} WithScoreConcat(a: seq<Scored>, b: seq<Scored>, v: int)
    ensures WithScore(a + b, v) == WithScore(a, v) + WithScore(b, v)
  {
    if |b| > 0 {
      var n := |b| - 1;
      assert (a + b)[..|a + b| - 1] == a + b[..n];
      WithScoreConcat(a, b[..n], v);
    } else {
      assert a + b == a;
    }
  }

  lemma WithScoreOne(y: Scored, v: int)
    ensures WithScore([y], v) == if y.score == v then [y] else []
  {
    assert [y][..0] == [];
  }

  lemma {:induction false} InsertDescPermutes(t: seq<Scored>, x: Scored)
    ensures multiset(InsertDesc(t, x)) == multiset(t) + multiset{x}
  {
    if |t| > 0 && t[|t| - 1].score < x.score {
      var n := |t| - 1;
      InsertDescPermutes(t[..n], x);
      LastSplit(t);
    }
  }

  lemma {:induction false} InsertDescSorted(t: seq<Scored>, x: Scored)
    requires SortedDesc(t)
    ensures SortedDesc(InsertDesc(t, x))
  {
    if |t| > 0 && t[|t| - 1].score < x.score {
      var n := |t| - 1;
      var u := InsertDesc(t[..n], x);
      InsertDescSorted(t[..n], x);
      InsertDescPermutes(t[..n], x);
      forall m | 0 <= m < |u| ensures u[m].score >= t[n].score {
        assert u[m] in multiset(u);
        if u[m] != x {
          assert u[m] in multiset(t[..n]);
          var p :| 0 <= p < n && t[..n][p] == u[m];
          assert t[p] == u[m];
        }
      }
      var r := u + [t[n]];
      forall i, j | 0 <= i < j < |r| ensures r[i].score >= r[j].score {
        if j < |u| { assert r[i] == u[i] && r[j] == u[j]; } else { assert r[i] == u[i]; }
      }
    }
  }

  /** Inserting `x` adds it after the elements of equal score and leaves the
      order among every other score as it was. */
  lemma {:induction false} InsertDescStable(t: seq<Scored>, x: Scored, v: int)
    ensures WithScore(InsertDesc(t, x), v) == WithScore(t, v) + WithScore([x], v)
  {
    if |t| == 0 {
    } else if t[|t| - 1].score >= x.score {
      WithScoreConcat(t, [x], v);
    } else {
      var n := |t| - 1;
      InsertDescStable(t[..n], x, v);
      WithScoreConcat(InsertDesc(t[..n], x), [t[n]], v);
      WithScoreConcat(t[..n], [t[n]], v);
      LastSplit(t);
      WithScoreOne(t[n], v);
      WithScoreOne(x, v);
    }
  }

  /** The sort orders by score, highest first. */
  lemma {:induction false} SortDescSorted(s: seq<Scored>)
    ensures SortedDesc(SortDesc(s))
  {
    if |s| > 0 {
      SortDescSorted(s[..|s| - 1]);
      InsertDescSorted(SortDesc(s[..|s| - 1]), s[|s| - 1]);
    }
  }

  /** The sort rearranges the list and neither drops nor adds anything. */
  lemma {:induction false} SortDescPermutes(s: seq<Scored>)
    ensures multiset(SortDesc(s)) == multiset(s)
  {
    if |s| > 0 {
      var n := |s| - 1;
      SortDescPermutes(s[..n]);
      InsertDescPermutes(SortDesc(s[..n]), s[n]);
      LastSplit(s);
    }
  }

  /** The sort is stable: pairs with equal scores keep their relative order. */
  lemma {:induction false} SortDescStable(s: seq<Scored>, v: int)
    ensures WithScore(SortDesc(s), v) == WithScore(s, v)
  {
    if |s| > 0 {
      var n := |s| - 1;
      SortDescStable(s[..n], v);
      InsertDescStable(SortDesc(s[..n]), s[n], v);
      WithScoreConcat(s[..n], [s[n]], v);
      LastSplit(s);
      WithScoreOne(s[n], v);
    }
  }

  /** `list.sort(key=itemgetter(1), reverse=True)` on the caller's list, in
      place: an insertion sort that moves each pair left past the pairs that
      score strictly less. */
  method SortByScore(a: array<Scored>)
    modifies a
    ensures a[..] == SortDesc(old(a[..]))
  {
    ghost var orig := a[..];
    var i := 0;
    while i < a.Length
      invariant 0 <= i <= a.Length
      invariant a[..i] == SortDesc(orig[..i])
      invariant a[i..] == orig[i..]
    {
      ghost var before := a[..];
      InsertInto(a, i);
      assert orig[..i + 1][..i] == orig[..i];
      assert before[i] == before[i..][0] == orig[i..][0] == orig[i];
      assert a[i + 1..] == before[i + 1..] == orig[i + 1..];
      i := i + 1;
    }
    assert a[..] == a[..a.Length];
    assert orig == orig[..a.Length];
  }

  /** One insertion step: the pair at `i` moves left into the sorted prefix
      `a[..i]`. */
  method InsertInto(a: array<Scored>, i: nat)
    requires i < a.Length
    modifies a
    ensures a[..i + 1] == InsertDesc(old(a[..i]), old(a[i]))
    ensures a[i + 1..] == old(a[i + 1..])
  {
    var x := a[i];
    ghost var t := a[..i];
    var j := OpenGap(a, i);
    a[j] := x;
    InsertDescAt(t, x, j);
    ghost var r := t[..j] + [x] + t[j..];
    forall k | 0 <= k <= i ensures a[k] == r[k] {
      if k < j { assert r[k] == t[k]; } else if k > j { assert r[k] == t[k - 1]; }
    }
    assert a[..i + 1] == r;
    assert a[i + 1..] == old(a[i + 1..]);
  }

  /** Shift right, by one place, the pairs just before `i` that score less
      than the pair at `i`; `j` is the place left free for it. */
  method OpenGap(a: array<Scored>, i: nat) returns (j: nat)
    requires i < a.Length
    modifies a
    ensures j <= i
    ensures forall k :: 0 <= k < j ==> a[k] == old(a[k])
    ensures forall k :: j < k <= i ==> a[k] == old(a[k - 1])
    ensures forall k :: i < k < a.Length ==> a[k] == old(a[k])
    ensures forall k :: j <= k < i ==> old(a[k]).score < old(a[i]).score
    ensures j == 0 || old(a[j - 1]).score >= old(a[i]).score
  {
    var x := a[i];
    j := i;
    while j > 0 && a[j - 1].score < x.score
      invariant j <= i
      invariant forall k :: 0 <= k < j ==> a[k] == old(a[k])
      invariant forall k :: j < k <= i ==> a[k] == old(a[k - 1])
      invariant forall k :: i < k < a.Length ==> a[k] == old(a[k])
      invariant forall k :: j <= k < i ==> old(a[k]).score < x.score
    {
      a[j] := a[j - 1];
      j := j - 1;
    }
  }

  /** Where `InsertDesc` puts `x`: after the last pair scoring at least as
      much, before the run of pairs that score less. */
  lemma {:induction false} InsertDescAt(t: seq<Scored>, x: Scored, j: nat)
    requires j <= |t|
    requires forall k :: j <= k < |t| ==> t[k].score < x.score
    requires j == 0 || t[j - 1].score >= x.score
    ensures InsertDesc(t, x) == t[..j] + [x] + t[j..]
  {
    if |t| > j {
      var n := |t| - 1;
      InsertDescAt(t[..n], x, j);
      assert t[..n][..j] == t[..j];
      assert t[..n][j..] + [t[n]] == t[j..];
    } else {
      assert t[..j] == t;
    }
  }
}
