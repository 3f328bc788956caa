/** The Python `str` operations the scripts rely on: `split` with an explicit
    one-character separator, `sep.join`, `strip()`, and the code-point order
    that `sorted` and `<` use on strings. */
module Text {

  /** The characters Python's `str.isspace` accepts, which `strip()` removes. */
  predicate IsSpace(c: char) {
    var n := c as int;
    (0x09 <= n <= 0x0d) || (0x1c <= n <= 0x20) || n == 0x85 || n == 0xa0 || n == 0x1680
    || (0x2000 <= n <= 0x200a) || n == 0x2028 || n == 0x2029 || n == 0x202f
    || n == 0x205f || n == 0x3000
  }

  /** `s.split(sep)`: the pieces between occurrences of `sep`; never empty. */
  function Split(s: string, sep: char): (r: seq<string>)
    ensures |r| >= 1
    ensures forall i :: 0 <= i < |r| ==> sep !in r[i]
  {
    if |s| == 0 then [""]
    else
      var rest := Split(s[1..], sep);
      if s[0] == sep then [""] + rest
      else [[s[0]] + rest[0]] + rest[1..]
  }

  /** The total length of the pieces. */
  function PiecesLength(xs: seq<string>): nat {
    if |xs| == 0 then 0 else |xs[0]| + PiecesLength(xs[1..])
  }

  /** `sep.join(xs)`: the pieces with one separator between neighbours. */
  function Join(xs: seq<string>, sep: char): (r: string)
    ensures |xs| >= 1 ==> |r| == PiecesLength(xs) + |xs| - 1
  {
    if |xs| == 0 then ""
    else if |xs| == 1 then xs[0]
    else xs[0] + [sep] + Join(xs[1..], sep)
  }

  /** Joining the pieces of a split gives back the original string. */
  lemma {:induction false} JoinSplit(s: string, sep: char)
    ensures Join(Split(s, sep), sep) == s
  {
    if |s| > 0 {
      JoinSplit(s[1..], sep);
      var rest := Split(s[1..], sep);
      if s[0] == sep {
        assert Split(s, sep) == [""] + rest;
        assert ([""] + rest)[1..] == rest;
      } else if |rest| == 1 {
        assert Split(s, sep) == [[s[0]] + rest[0]];
      } else {
        var r := Split(s, sep);
        assert r == [[s[0]] + rest[0]] + rest[1..];
        assert r[1..] == rest[1..];
        assert Join(rest, sep) == rest[0] + [sep] + Join(rest[1..], sep);
      }
    }
  }

  /** A split yields a second piece exactly when the separator occurs. */
  lemma {:induction false} SplitSeveral(s: string, sep: char)
    ensures |Split(s, sep)| >= 2 <==> sep in s
  {
    if |s| > 0 {
      SplitSeveral(s[1..], sep);
      assert s == [s[0]] + s[1..];
    }
  }

  /** Splitting a piece that holds no separator, followed by the separator. */
  lemma {:induction false} SplitPiece(a: string, sep: char, t: string)
    requires sep !in a
    ensures Split(a + [sep] + t, sep) == [a] + Split(t, sep)
  {
    if |a| == 0 {
      assert a + [sep] + t == [sep] + t;
      assert ([sep] + t)[1..] == t;
    } else {
      assert (a + [sep] + t)[1..] == a[1..] + [sep] + t;
      SplitPiece(a[1..], sep, t);
      assert [a[0]] + a[1..] == a;
    }
  }

  /** A string without the separator splits into itself alone. */
  lemma {:induction false} SplitWhole(a: string, sep: char)
    requires sep !in a
    ensures Split(a, sep) == [a]
  {
    if |a| > 0 {
      SplitWhole(a[1..], sep);
      assert [a[0]] + a[1..] == a;
    }
  }

  /** Splitting a join gives back the pieces, when no piece holds the separator
      and there is at least one piece (`"".split(",")` is `[""]`, not `[]`). */
  lemma {:induction false} SplitJoin(xs: seq<string>, sep: char)
    requires |xs| >= 1
    requires forall i :: 0 <= i < |xs| ==> sep !in xs[i]
    ensures Split(Join(xs, sep), sep) == xs
  {
    if |xs| == 1 {
      SplitWhole(xs[0], sep);
    } else {
      SplitJoin(xs[1..], sep);
      SplitPiece(xs[0], sep, Join(xs[1..], sep));
      assert [xs[0]] + xs[1..] == xs;
    }
  }

  function TrimLeft(s: string): (r: string)
    ensures |r| <= |s|
    ensures |r| == 0 || !IsSpace(r[0])
    ensures r == s[|s| - |r|..]
    ensures forall i :: 0 <= i < |s| - |r| ==> IsSpace(s[i])
  {
    if |s| > 0 && IsSpace(s[0]) then TrimLeft(s[1..]) else s
  }

  function TrimRight(s: string): (r: string)
    ensures |r| <= |s|
    ensures |r| == 0 || !IsSpace(r[|r| - 1])
    ensures r == s[..|r|]
    ensures forall i :: |r| <= i < |s| ==> IsSpace(s[i])
  {
    if |s| > 0 && IsSpace(s[|s| - 1]) then TrimRight(s[..|s| - 1]) else s
  }

  predicate AllSpace(t: string) {
    forall j :: 0 <= j < |t| ==> IsSpace(t[j])
  }

  /** `s` is `r` with `i` whitespace characters before it and only
      whitespace after it. */
  predicate Padded(s: string, r: string, i: int) {
    && 0 <= i <= |s| - |r| && r == s[i..i + |r|]
    && AllSpace(s[..i]) && AllSpace(s[i + |r|..])
  }

  /** `s.strip()`: the longest middle part of `s` that neither starts nor ends
      with whitespace, obtained by dropping only whitespace. */
  function Strip(s: string): (r: string)
    ensures |r| <= |s|
    ensures |r| == 0 || (!IsSpace(r[0]) && !IsSpace(r[|r| - 1]))
    ensures Padded(s, r, |s| - |TrimLeft(s)|)
  {
    TrimBoth(s);
    TrimRight(TrimLeft(s))
  }

  /** Trimming both ends drops only whitespace around a middle part. */
  lemma TrimBoth(s: string)
    ensures Padded(s, TrimRight(TrimLeft(s)), |s| - |TrimLeft(s)|)
  {
    var left := TrimLeft(s);
    var r := TrimRight(left);
    LeftPadding(s);
    RightPadding(s);
    Middle(s, left, r);
    PaddedIntro(s, r, |s| - |left|);
  }

  lemma PaddedIntro(s: string, r: string, i: int)
    requires 0 <= i <= |s| - |r| && r == s[i..i + |r|]
    requires AllSpace(s[..i]) && AllSpace(s[i + |r|..])
    ensures Padded(s, r, i)
  {
  }

  lemma LeftPadding(s: string)
    ensures AllSpace(s[..|s| - |TrimLeft(s)|])
  {
    var before := s[..|s| - |TrimLeft(s)|];
    forall j | 0 <= j < |before| ensures IsSpace(before[j]) {
    }
  }

  lemma RightPadding(s: string)
    ensures AllSpace(s[|s| - |TrimLeft(s)| + |TrimRight(TrimLeft(s))|..])
  {
    var left := TrimLeft(s);
    SpaceAfter(s, left, TrimRight(left));
  }

  lemma SpaceAfter(s: string, left: string, r: string)
    requires |left| <= |s| && left == s[|s| - |left|..] && |r| <= |left|
    requires forall i :: |r| <= i < |left| ==> IsSpace(left[i])
    ensures AllSpace(s[|s| - |left| + |r|..])
  {
    var after := s[|s| - |left| + |r|..];
    forall j | 0 <= j < |after| ensures IsSpace(after[j]) {
      assert after[j] == left[|r| + j];
    }
  }

  lemma Middle(s: string, left: string, r: string)
    requires |left| <= |s| && left == s[|s| - |left|..]
    requires |r| <= |left| && r == left[..|r|]
    ensures r == s[|s| - |left|..|s| - |left| + |r|]
  {
    var i := |s| - |left|;
    forall j | 0 <= j < |r| ensures r[j] == s[i..i + |r|][j] {
      assert r[j] == left[j];
    }
  }

  /** A string that already neither starts nor ends with whitespace, followed
      by whitespace only (a line terminator), strips to itself. */
  lemma {:induction false} StripTerminated(s: string, tail: string)
    requires |s| > 0 && !IsSpace(s[0]) && !IsSpace(s[|s| - 1])
    requires forall i :: 0 <= i < |tail| ==> IsSpace(tail[i])
    ensures Strip(s + tail) == s
  {
    assert TrimLeft(s + tail) == s + tail;
    TrimRightSpaces(s, tail);
  }

  lemma {:induction false} TrimRightSpaces(s: string, tail: string)
    requires |s| > 0 && !IsSpace(s[|s| - 1])
    requires forall i :: 0 <= i < |tail| ==> IsSpace(tail[i])
    ensures TrimRight(s + tail) == s
    decreases |tail|
  {
    if |tail| == 0 {
      assert s + tail == s;
    } else {
      var t := tail[..|tail| - 1];
      assert (s + tail)[..|s + tail| - 1] == s + t;
      TrimRightSpaces(s, t);
    }
  }

  /** Python's `a < b` on strings: lexicographic by code point, a proper
      prefix coming first. Equivalently, `a` is a proper prefix of `b`, or
      the first position where they differ holds a smaller code point in
      `a`. */
  predicate Less(a: string, b: string)
    ensures Less(a, b) <==> ProperPrefix(a, b) || FirstDifferenceLess(a, b)
  {
    if |a| == 0 then
      assert |b| > 0 ==> b[..0] == a;
      |b| > 0
    else if |b| == 0 then false
    else
      FirstDifferenceTail(a, b);
      a[0] < b[0] || (a[0] == b[0] && Less(a[1..], b[1..]))
  }

  predicate ProperPrefix(a: string, b: string) {
    |a| < |b| && a == b[..|a|]
  }

  predicate FirstDifferenceLess(a: string, b: string) {
    exists i :: 0 <= i < |a| && i < |b| && a[..i] == b[..i] && a[i] < b[i]
  }

  /** Comparing non-empty strings after their first characters. */
  lemma FirstDifferenceTail(a: string, b: string)
    requires |a| > 0 && |b| > 0
    ensures ProperPrefix(a, b) <==> a[0] == b[0] && ProperPrefix(a[1..], b[1..])
    ensures FirstDifferenceLess(a, b) <==>
      a[0] < b[0] || (a[0] == b[0] && FirstDifferenceLess(a[1..], b[1..]))
  {
    if a[0] == b[0] {
      if |a| <= |b| {
        assert a == [a[0]] + a[1..] && b[..|a|] == [b[0]] + b[1..][..|a| - 1];
      }
      if FirstDifferenceLess(a, b) { FirstDifferenceDrop(a, b); }
      if FirstDifferenceLess(a[1..], b[1..]) { FirstDifferenceAdd(a, b); }
    } else {
      assert a[..0] == b[..0];
    }
  }

  lemma FirstDifferenceDrop(a: string, b: string)
    requires |a| > 0 && |b| > 0 && a[0] == b[0] && FirstDifferenceLess(a, b)
    ensures FirstDifferenceLess(a[1..], b[1..])
  {
    var i :| 0 <= i < |a| && i < |b| && a[..i] == b[..i] && a[i] < b[i];
    assert i > 0;
    assert a[1..][..i - 1] == a[..i][1..] && b[1..][..i - 1] == b[..i][1..];
    assert a[1..][i - 1] == a[i] && b[1..][i - 1] == b[i];
  }

  lemma FirstDifferenceAdd(a: string, b: string)
    requires |a| > 0 && |b| > 0 && a[0] == b[0] && FirstDifferenceLess(a[1..], b[1..])
    ensures FirstDifferenceLess(a, b)
  {
    var j :| 0 <= j < |a| - 1 && j < |b| - 1 && a[1..][..j] == b[1..][..j] && a[1..][j] < b[1..][j];
    assert a[..j + 1] == [a[0]] + a[1..][..j] && b[..j + 1] == [b[0]] + b[1..][..j];
    assert a[j + 1] < b[j + 1];
  }

  predicate LessEq(a: string, b: string) {
    a == b || Less(a, b)
  }

  lemma {:induction false} LessIrreflexive(a: string)
    ensures !Less(a, a)
  {
    if |a| > 0 { LessIrreflexive(a[1..]); }
  }

  lemma {:induction false} LessTransitive(a: string, b: string, c: string)
    requires Less(a, b) && Less(b, c)
    ensures Less(a, c)
  {
    if |a| > 0 && a[0] == b[0] && b[0] == c[0] {
      LessTransitive(a[1..], b[1..], c[1..]);
    }
  }

  lemma {:induction false} LessTotal(a: string, b: string)
    ensures a == b || Less(a, b) || Less(b, a)
  {
    if |a| > 0 && |b| > 0 && a[0] == b[0] {
      LessTotal(a[1..], b[1..]);
      if a[1..] == b[1..] {
        assert a == [a[0]] + a[1..] && b == [b[0]] + b[1..];
      }
    }
  }

  lemma {:induction false} LessAsymmetric(a: string, b: string)
    ensures !(Less(a, b) && Less(b, a))
  {
    if Less(a, b) && Less(b, a) {
      LessTransitive(a, b, a);
      LessIrreflexive(a);
    }
  }

  /** `LessEq` is a total order on strings. */
  lemma LessEqTotalOrder(a: string, b: string, c: string)
    ensures LessEq(a, b) || LessEq(b, a)
    ensures LessEq(a, b) && LessEq(b, a) ==> a == b
    ensures LessEq(a, b) && LessEq(b, c) ==> LessEq(a, c)
  {
    LessTotal(a, b);
    LessAsymmetric(a, b);
    if Less(a, b) && Less(b, c) { LessTransitive(a, b, c); }
  }

  /** Universal newlines, as a file opened in text mode is read: each
      `\r\n` and each lone `\r` becomes a line feed. */
  function Newlines(s: string): (r: string)
    ensures '\r' !in r
  {
    if |s| == 0 then ""
    else if s[0] == '\r' then "\n" + Newlines(if |s| > 1 && s[1] == '\n' then s[2..] else s[1..])
    else [s[0]] + Newlines(s[1..])
  }

  /** Text without a carriage return is read as written. */
  lemma {:induction false} NewlinesPlain(s: string)
    requires '\r' !in s
    ensures Newlines(s) == s
  {
    if |s| > 0 {
      assert s[0] in s;
      assert forall c :: c in s[1..] ==> c in s;
      NewlinesPlain(s[1..]);
    }
  }

  /** A lone carriage return ends a line just as a line feed does. */
  lemma CarriageReturnEndsLine(a: string, b: string)
    requires '\r' !in a && '\r' !in b && (|b| == 0 || b[0] != '\n')
    ensures Newlines(a + "\r" + b) == a + "\n" + b
  {
    var t := "\r" + b;
    assert a + "\r" + b == a + t;
    NewlinesPrefix(a, t);
    assert t[0] == '\r' && t[1..] == b;
    assert Newlines(t) == "\n" + Newlines(b);
    NewlinesPlain(b);
  }

  /** `\r\n` ends a line as one line feed. */
  lemma CarriageReturnLineFeedEndsLine(a: string, b: string)
    requires '\r' !in a && '\r' !in b
    ensures Newlines(a + "\r\n" + b) == a + "\n" + b
  {
    var t := "\r\n" + b;
    assert a + "\r\n" + b == a + t;
    NewlinesPrefix(a, t);
    assert t[0] == '\r' && t[1] == '\n' && t[2..] == b;
    assert Newlines(t) == "\n" + Newlines(b);
    NewlinesPlain(b);
  }

  /** A prefix free of carriage returns is read unchanged ahead of the rest. */
  lemma {:induction false} NewlinesPrefix(a: string, b: string)
    requires '\r' !in a
    ensures Newlines(a + b) == a + Newlines(b)
  {
    if |a| > 0 {
      assert a == [a[0]] + a[1..];
      assert '\r' !in a[1..] && a[0] != '\r';
      NewlinesPrefix(a[1..], b);
      var s := a + b;
      assert s[0] == a[0] && s[0] != '\r';
      assert s[1..] == a[1..] + b;
      assert Newlines(s) == [a[0]] + (a[1..] + Newlines(b));
      assert [a[0]] + (a[1..] + Newlines(b)) == a + Newlines(b);
    } else {
      assert a + b == b;
    }
  }

  /** The lines laid end to end. */
  function Flatten(xs: seq<string>): string {
    if |xs| == 0 then "" else xs[0] + Flatten(xs[1..])
  }

  lemma {:induction false} FlattenAppend(a: seq<string>, b: seq<string>)
    ensures Flatten(a + b) == Flatten(a) + Flatten(b)
  {
    if |a| > 0 {
      FlattenAppend(a[1..], b);
      assert (a + b)[1..] == a[1..] + b;
      assert (a + b)[0] == a[0];
    } else {
      assert a + b == b;
    }
  }

  /** Each piece followed by a line feed. */
  function Terminate(ps: seq<string>): (r: seq<string>)
    ensures |r| == |ps| && forall i :: 0 <= i < |ps| ==> r[i] == ps[i] + "\n"
  {
    seq(|ps|, i requires 0 <= i < |ps| => ps[i] + "\n")
  }

  /** Laying the terminated pieces end to end, then the last piece, is the
      join of all pieces with line feeds. */
  lemma {:induction false} FlattenTerminate(ps: seq<string>, last: string)
    ensures Flatten(Terminate(ps)) + last == Join(ps + [last], '\n')
  {
    if |ps| == 0 {
      assert ps + [last] == [last];
    } else {
      FlattenTerminate(ps[1..], last);
      assert Terminate(ps)[1..] == Terminate(ps[1..]);
      assert (ps + [last])[1..] == ps[1..] + [last];
    }
  }

  /** The pieces between line feeds, each still ending with its line feed,
      and a final piece without one unless the text ends with a line feed;
      laid end to end they give back the text. */
  function SplitLines(text: string): (r: seq<string>)
    ensures forall i :: 0 <= i < |r| ==> |r[i]| > 0 && '\n' !in r[i][..|r[i]| - 1]
    ensures forall i :: 0 <= i < |r| - 1 ==> r[i][|r[i]| - 1] == '\n'
    ensures Flatten(r) == text
  {
    var pieces := Split(text, '\n');
    var n := |pieces| - 1;
    var last := if pieces[n] == "" then [] else [pieces[n]];
    FlattenAppend(Terminate(pieces[..n]), last);
    FlattenTerminate(pieces[..n], pieces[n]);
    assert pieces[..n] + [pieces[n]] == pieces;
    JoinSplit(text, '\n');
    Terminate(pieces[..n]) + last
  }

  /** Iterating over a file opened in text mode: universal newlines, then
      one line per line feed. Every line but the last ends with a line feed,
      no line holds one anywhere else, and no line holds a carriage return. */
  function Lines(content: string): (r: seq<string>)
    ensures forall i :: 0 <= i < |r| ==> |r[i]| > 0 && '\n' !in r[i][..|r[i]| - 1]
    ensures forall i :: 0 <= i < |r| - 1 ==> r[i][|r[i]| - 1] == '\n'
    ensures forall i :: 0 <= i < |r| ==> '\r' !in r[i]
    ensures Flatten(r) == Newlines(content)
  {
    SplitLinesAvoid(Newlines(content), '\r');
    SplitLines(Newlines(content))
  }

  /** No line holds a character, other than the line feed, that the text avoids. */
  lemma SplitLinesAvoid(text: string, c: char)
    requires c != '\n' && c !in text
    ensures forall i :: 0 <= i < |SplitLines(text)| ==> c !in SplitLines(text)[i]
  {
    SplitAvoids(text, '\n', c);
  }

  /** No piece of a split holds a character the string avoids. */
  lemma {:induction false} SplitAvoids(s: string, sep: char, c: char)
    requires c !in s
    ensures forall i :: 0 <= i < |Split(s, sep)| ==> c !in Split(s, sep)[i]
  {
    if |s| > 0 {
      assert s[0] in s;
      assert forall d :: d in s[1..] ==> d in s;
      SplitAvoids(s[1..], sep, c);
    }
  }

  /** `xs` followed by one more piece, joined. */
  lemma {:induction false} JoinSnoc(xs: seq<string>, y: string, sep: char)
    requires |xs| >= 1
    ensures Join(xs + [y], sep) == Join(xs, sep) + [sep] + y
  {
    if |xs| > 1 {
      JoinSnoc(xs[1..], y, sep);
      assert (xs + [y])[1..] == xs[1..] + [y];
    }
  }

  /** A join contains no character the pieces avoid, other than the separator. */
  lemma {:induction false} JoinAvoids(xs: seq<string>, sep: char, c: char)
    requires c != sep
    requires forall i :: 0 <= i < |xs| ==> c !in xs[i]
    ensures c !in Join(xs, sep)
  {
    if |xs| > 1 { JoinAvoids(xs[1..], sep, c); }
  }

  /** A join ends with its last piece. */
  lemma {:induction false} JoinEnds(xs: seq<string>, sep: char)
    requires |xs| >= 1 && |xs[|xs| - 1]| > 0
    ensures |Join(xs, sep)| > 0
    ensures Join(xs, sep)[|Join(xs, sep)| - 1] == xs[|xs| - 1][|xs[|xs| - 1]| - 1]
  {
    if |xs| > 1 {
      JoinEnds(xs[1..], sep);
    }
  }

  /** A join begins with its first piece. */
  lemma {:induction false} JoinStarts(xs: seq<string>, sep: char)
    requires |xs| >= 1 && |xs[0]| > 0
    ensures |Join(xs, sep)| > 0 && Join(xs, sep)[0] == xs[0][0]
  {
  }

  /** The text of a file written with one `write(line + "\n")` per line. */
  function Terminated(ls: seq<string>): string {
    if |ls| == 0 then "" else Terminated(ls[..|ls| - 1]) + ls[|ls| - 1] + "\n"
  }

  lemma {:induction false} TerminatedIsJoin(ls: seq<string>)
    requires |ls| >= 1
    ensures Terminated(ls) == Join(ls + [""], '\n')
  {
    var n := |ls| - 1;
    if n == 0 {
      assert ls + [""] == [ls[0], ""];
    } else {
      var p := ls[..n];
      var jp := Join(p, '\n');
      TerminatedIsJoin(p);
      JoinSnoc(p, "", '\n');
      assert p + [ls[n]] == ls;
      JoinSnoc(p, ls[n], '\n');
      JoinSnoc(ls, "", '\n');
      assert Terminated(ls) == jp + "\n" + ls[n] + "\n";
    }
  }

  /** Writing each line followed by a line feed and iterating over the file
      gives back the lines, each with its line feed. */
  lemma LinesOfTerminated(ls: seq<string>)
    requires forall i :: 0 <= i < |ls| ==> '\n' !in ls[i] && '\r' !in ls[i]
    ensures |Lines(Terminated(ls))| == |ls|
    ensures forall i :: 0 <= i < |ls| ==> Lines(Terminated(ls))[i] == ls[i] + "\n"
  {
    if |ls| == 0 {
      assert Newlines("") == "";
      assert Split("", '\n') == [""];
    } else {
      TerminatedIsJoin(ls);
      var all := ls + [""];
      forall i | 0 <= i < |all| ensures '\n' !in all[i] && '\r' !in all[i] {
        if i < |ls| { assert all[i] == ls[i]; }
      }
      JoinAvoids(all, '\n', '\r');
      NewlinesPlain(Terminated(ls));
      SplitJoin(all, '\n');
      var pieces := Split(Join(all, '\n'), '\n');
      assert pieces == all;
      assert pieces[|pieces| - 1] == "";
    }
  }
}
