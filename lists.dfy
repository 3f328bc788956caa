/** Python list behaviour the scripts rely on: slicing with a count that may
    run past the end, `int()` on a float, `random.sample`, and listing the
    members of a `set` in its (unspecified) iteration order. */
module Lists {
  import opened Results

  predicate NoDup<T(==)>(s: seq<T>) {
    forall i, j :: 0 <= i < j < |s| ==> s[i] != s[j]
  }

  /** `c` keeps some of the elements of `s`, in their relative order. */
  predicate Embeds<T(==)>(c: seq<T>, s: seq<T>)
    decreases |s|
  {
    if |c| == 0 then true
    else if |s| == 0 then false
    else (c[0] == s[0] && Embeds(c[1..], s[1..])) || Embeds(c, s[1..])
  }

  lemma {:induction false} EmbedsMembers<T>(c: seq<T>, s: seq<T>)
    requires Embeds(c, s)
    ensures |c| <= |s|
    ensures forall x :: x in c ==> x in s
    decreases |s|
  {
    if |c| > 0 {
      if c[0] == s[0] && Embeds(c[1..], s[1..]) {
        EmbedsMembers(c[1..], s[1..]);
        assert forall x :: x in c ==> x == c[0] || x in c[1..];
      } else {
        EmbedsMembers(c, s[1..]);
      }
    }
  }

  lemma {:induction false} EmbedsNoDup<T>(c: seq<T>, s: seq<T>)
    requires Embeds(c, s) && NoDup(s)
    ensures NoDup(c)
    decreases |s|
  {
    if |c| > 0 {
      if c[0] == s[0] && Embeds(c[1..], s[1..]) {
        EmbedsNoDup(c[1..], s[1..]);
        EmbedsMembers(c[1..], s[1..]);
        assert s[0] !in s[1..];
        forall i, j | 0 <= i < j < |c| ensures c[i] != c[j] {
          if i > 0 { assert c[i] == c[1..][i - 1] && c[j] == c[1..][j - 1]; }
          else { assert c[j] == c[1..][j - 1]; }
        }
      } else {
        EmbedsNoDup(c, s[1..]);
      }
    }
  }

  /** Proof helper: a non-empty sequence is its front and its last item. */
  lemma LastSplit<T>(s: seq<T>)
    requires |s| > 0
    ensures s[..|s| - 1] + [s[|s| - 1]] == s
  {
  }

  /** Proof helper: a non-empty sequence is its first item and the rest. */
  lemma FirstSplit<T>(s: seq<T>)
    requires |s| > 0
    ensures [s[0]] + s[1..] == s
  {
  }

  lemma TailMultiset<T>(s: seq<T>)
    requires |s| > 0
    ensures multiset(s[1..]) == multiset(s) - multiset{s[0]}
  {
    FirstSplit(s);
  }

  /** `s[0:n]`: Python clamps the end of the slice to the length. */
  function Head<T>(s: seq<T>, n: nat): (r: seq<T>)
    ensures |r| == if n <= |s| then n else |s|
    ensures r <= s
  {
    if n <= |s| then s[..n] else s
  }

  /** `s[n:]`: empty once `n` reaches the length. */
  function Tail<T>(s: seq<T>, n: nat): (r: seq<T>)
    ensures |r| == if n <= |s| then |s| - n else 0
    ensures Head(s, n) + r == s
  {
    if n <= |s| then s[n..] else []
  }

  /** `int(x)` on a float: truncation toward zero. */
  function Trunc(x: real): (r: int)
    ensures 0.0 <= x ==> 0 <= r && r as real <= x < r as real + 1.0
    ensures x < 0.0 ==> r <= 0 && r as real - 1.0 < x <= r as real
  {
    if x >= 0.0 then x.Floor else -((-x).Floor)
  }

  /** What the random source decides for `random.sample` over a population
      of `m` items: an order of all `m` positions, each taken once; the sample
      of size `k` is the items at the first `k` of them. Every duplicate-free
      choice of `k` positions is the start of some such order. */
  predicate IsDrawOrder(draw: seq<nat>, m: nat) {
    |draw| == m && NoDup(draw) && forall i :: 0 <= i < |draw| ==> draw[i] < m
  }

  /** Proof helper: some draw order exists for every population size, so
      the random draw can be chosen. */
  lemma IdentityDraw(m: nat)
    ensures IsDrawOrder(seq(m, i => i), m)
  {
  }

  function Pick<T>(pool: seq<T>, idx: seq<nat>): (r: seq<T>)
    requires forall i :: 0 <= i < |idx| ==> idx[i] < |pool|
    ensures |r| == |idx|
  {
    seq(|idx|, i requires 0 <= i < |idx| => pool[idx[i]])
  }

  /** Items taken at distinct positions form a sub-multiset of the pool:
      nothing is taken twice. */
  lemma {:induction false} PickWithoutReplacement<T>(pool: seq<T>, idx: seq<nat>)
    requires NoDup(idx)
    requires forall i :: 0 <= i < |idx| ==> idx[i] < |pool|
    ensures multiset(Pick(pool, idx)) <= multiset(pool)
    decreases |idx|
  {
    if |idx| > 0 {
      var n := |idx| - 1;
      var j := idx[n];
      var rest := pool[..j] + pool[j + 1..];
      var shifted := seq(n, i requires 0 <= i < n => if idx[i] < j then idx[i] else idx[i] - 1);
      forall i, i' | 0 <= i < i' < n ensures shifted[i] != shifted[i'] {
        assert idx[i] != idx[i'] && idx[i] != j && idx[i'] != j;
      }
      forall i | 0 <= i < n ensures shifted[i] < |rest| && rest[shifted[i]] == pool[idx[i]] {
        assert idx[i] != j;
      }
      PickWithoutReplacement(rest, shifted);
      assert Pick(rest, shifted) == Pick(pool, idx)[..n];
      assert Pick(pool, idx) == Pick(pool, idx)[..n] + [pool[j]];
      assert pool == pool[..j] + [pool[j]] + pool[j + 1..];
      assert multiset(pool) == multiset(rest) + multiset{pool[j]};
    }
  }

  /** `random.sample(pool, count)`: raises ValueError unless
      `0 <= count <= len(pool)`; otherwise `count` items of the pool, drawn
      without replacement in the order the random source chose. */
  function Sample<T>(pool: seq<T>, count: int, draw: seq<nat>): (r: Result<seq<T>>)
    requires IsDrawOrder(draw, |pool|)
    ensures r.Ok? <==> 0 <= count <= |pool|
    ensures r.Err? ==> r.error == SampleOutOfRange
    ensures r.Ok? ==> |r.value| == count && multiset(r.value) <= multiset(pool)
  {
    if 0 <= count <= |pool| then
      PickWithoutReplacement(pool, draw[..count]);
      Ok(Pick(pool, draw[..count]))
    else
      Err(SampleOutOfRange)
  }

  /** `list(s)` for a Python set: every member exactly once, in an order the
      language leaves unspecified (here: any order). */
  method ListSet<T>(s: set<T>) returns (xs: seq<T>)
    ensures NoDup(xs)
    ensures forall x :: x in xs <==> x in s
    ensures |xs| == |s|
  {
    xs := [];
    var rest := s;
    while rest != {}
      invariant rest <= s
      invariant forall x :: x in xs <==> x in s && x !in rest
      invariant NoDup(xs)
      invariant |xs| + |rest| == |s|
      decreases |rest|
    {
      var x :| x in rest;
      xs := xs + [x];
      rest := rest - {x};
    }
  }
}
