/** The per-iteration checkpoint file `scores_<k>.txt`: one line
    `",".join(subset) + "\t" + "%0.3f" % score` per evaluated subset, and the
    way the next iteration reads it back (`strip`, `split("\t")`,
    `line[0].split(",")`, `float(line[1])`). */
module Checkpoint {
  import opened Text
  import opened Results
  import opened Lists
  import opened Subsets
  import opened Scores

  predicate IsDigit(c: char) {
    '0' <= c <= '9'
  }

  predicate AllDigits(s: string) {
    forall i :: 0 <= i < |s| ==> IsDigit(s[i])
  }

  function DigitChar(d: nat): (c: char)
    requires d < 10
    ensures IsDigit(c) && c as int - '0' as int == d
  {
    ('0' as int + d) as char
  }

  /** Decimal digits of `n`, without leading zeros. */
  function Digits(n: nat): (s: string)
    ensures |s| >= 1 && AllDigits(s)
  {
    if n < 10 then [DigitChar(n)] else Digits(n / 10) + [DigitChar(n % 10)]
  }

  /** The number a string of decimal digits denotes. */
  function DigitsValue(s: string): nat
    requires AllDigits(s)
  {
    if |s| == 0 then 0
    else DigitsValue(s[..|s| - 1]) * 10 + (s[|s| - 1] as int - '0' as int)
  }

  lemma {:induction false} DigitsRoundTrip(n: nat)
    ensures DigitsValue(Digits(n)) == n
  {
    if n >= 10 {
      DigitsRoundTrip(n / 10);
      var s := Digits(n);
      assert s[..|s| - 1] == Digits(n / 10);
    }
  }

  /** `"%0.3f" % (t / 1000)` for a score of `t` thousandths: the whole part,
      a point, and exactly three decimals. */
  function FormatScore(t: nat): (s: string)
    ensures |s| >= 5 && s[|s| - 4] == '.'
    ensures AllDigits(s[..|s| - 4]) && AllDigits(s[|s| - 3..])
  {
    var f := t % 1000;
    Digits(t / 1000) + "." + [DigitChar(f / 100), DigitChar(f / 10 % 10), DigitChar(f % 10)]
  }

  /** `float(s)` in thousandths, for texts shaped as `FormatScore` writes
      them; anything else is the ValueError `float` raises. */
  function ParseScore(s: string): (r: Result<nat>)
    ensures r.Ok? <==> ScoreShape(s)
    ensures r.Ok? ==> (ScoreShape(s)
      && r.value / 1000 == DigitsValue(s[..|s| - 4])
      && r.value % 1000 == DigitsValue(s[|s| - 3..]))
    ensures r.Err? ==> r.error == BadScore
  {
    if ScoreShape(s) then
      ThreeDigitsBound(s[|s| - 3..]);
      Ok(DigitsValue(s[..|s| - 4]) * 1000 + DigitsValue(s[|s| - 3..]))
    else Err(BadScore)
  }

  /** Digits, a point and exactly three decimals, as `FormatScore` writes. */
  predicate ScoreShape(s: string) {
    |s| >= 5 && s[|s| - 4] == '.' && AllDigits(s[..|s| - 4]) && AllDigits(s[|s| - 3..])
  }

  /** Three decimal digits denote less than a thousand. */
  lemma ThreeDigitsBound(s: string)
    requires |s| == 3 && AllDigits(s)
    ensures DigitsValue(s) < 1000
  {
    assert s[..2][..1][..0] == [];
    assert DigitsValue(s[..2][..1]) < 10;
    assert DigitsValue(s[..2]) < 100;
  }

  /** A score survives formatting and parsing unchanged. */
  lemma ScoreRoundTrip(t: nat)
    ensures ParseScore(FormatScore(t)) == Ok(t)
  {
    var s := FormatScore(t);
    var f := t % 1000;
    assert s[..|s| - 4] == Digits(t / 1000);
    DigitsRoundTrip(t / 1000);
    assert s[|s| - 3..] == [DigitChar(f / 100), DigitChar(f / 10 % 10), DigitChar(f % 10)];
    ThreeDigits(f);
  }

  /** The three decimals of a fraction in thousandths read back as it. */
  lemma ThreeDigits(f: nat)
    requires f < 1000
    ensures DigitsValue([DigitChar(f / 100), DigitChar(f / 10 % 10), DigitChar(f % 10)]) == f
  {
    var d0, d1, d2 := f / 100, f / 10 % 10, f % 10;
    var frac := [DigitChar(d0), DigitChar(d1), DigitChar(d2)];
    assert frac[..2] == [frac[0], frac[1]] && frac[..2][..1] == [frac[0]];
    assert [frac[0]][..0] == [];
    assert DigitsValue([frac[0]]) == d0;
    assert DigitsValue(frac[..2]) == d0 * 10 + d1;
    assert DigitsValue(frac) == (d0 * 10 + d1) * 10 + d2;
    assert f / 100 == f / 10 / 10;
  }

  /** The formatted score holds no whitespace, tab, line feed or carriage
      return. */
  lemma ScoreTextPlain(t: nat)
    ensures var s := FormatScore(t);
      |s| > 0 && !IsSpace(s[0]) && !IsSpace(s[|s| - 1])
      && '\t' !in s && '\n' !in s && '\r' !in s
  {
    var s := FormatScore(t);
    assert s[0] == s[..|s| - 4][0];
    assert s[|s| - 1] == s[|s| - 3..][2];
    forall i | 0 <= i < |s| ensures s[i] != '\t' && s[i] != '\n' && s[i] != '\r' {
      if i < |s| - 4 { assert s[i] == s[..|s| - 4][i]; }
      else if i > |s| - 4 { assert s[i] == s[|s| - 3..][i - (|s| - 3)]; }
    }
  }

  /** One checkpoint line as written, without its line feed. */
  function LineText(row: Scored): string {
    Join(row.subset, ',') + "\t" + FormatScore(row.score)
  }

  /** `logfile.write("%s\t%0.3f\n" % (",".join(subset), score))`: for a
      subset of clean gene names, one line that a line feed ends and no
      line break interrupts. */
  function EncodeLine(row: Scored): (r: string)
    ensures |r| > 0 && r[|r| - 1] == '\n'
    ensures CleanRow(row) ==> '\n' !in r[..|r| - 1] && '\r' !in r
  {
    LineTextPlain(row);
    assert (LineText(row) + "\n")[..|LineText(row)|] == LineText(row);
    LineText(row) + "\n"
  }


  /** `(line[0].split(","), float(line[1]))` after `line.strip().split("\t")`:
      a line without a tab has no `line[1]` (IndexError). */
  function DecodeLine(line: string): (r: Result<Scored>)
    ensures r.Ok? ==> |r.value.subset| >= 1
  {
    var fields := Split(Strip(line), '\t');
    if |fields| < 2 then Err(MissingScoreField)
    else
      match ParseScore(fields[1])
      case Err(e) => Err(e)
      case Ok(v) => Ok(Scored(Split(fields[0], ','), v))
  }

  /** When decoding a line raises: `IndexError` (`MissingScoreField`)
      exactly when the stripped line holds no tab, and otherwise `ValueError`
      (`BadScore`) exactly when the second field is not a written score. */
  lemma DecodeLineCases(line: string)
    ensures DecodeLine(line) == Err(MissingScoreField) <==> '\t' !in Strip(line)
    ensures '\t' in Strip(line) ==>
      |Split(Strip(line), '\t')| >= 2
      && (DecodeLine(line).Ok? <==> ScoreShape(Split(Strip(line), '\t')[1]))
      && (DecodeLine(line).Err? ==> DecodeLine(line).error == BadScore)
  {
    SplitSeveral(Strip(line), '\t');
  }

  /** Every line of the file decodes on its own. */
  predicate AllDecode(lines: seq<string>) {
    forall i :: 0 <= i < |lines| ==> DecodeLine(lines[i]).Ok?
  }

  lemma AllDecodeSnoc(lines: seq<string>)
    requires |lines| > 0
    ensures AllDecode(lines) <==>
      AllDecode(lines[..|lines| - 1]) && DecodeLine(lines[|lines| - 1]).Ok?
  {
    var n := |lines| - 1;
    var init := lines[..n];
    if AllDecode(init) && DecodeLine(lines[n]).Ok? {
      forall i | 0 <= i < |lines| ensures DecodeLine(lines[i]).Ok? {
        if i < n { assert lines[i] == init[i]; }
      }
    }
    if AllDecode(lines) {
      forall i | 0 <= i < n ensures DecodeLine(init[i]).Ok? {
        assert init[i] == lines[i];
      }
    }
  }

  /** Each pair is the decoding of the line at its position. */
  predicate DecodedAs(lines: seq<string>, rows: seq<Scored>) {
    |rows| == |lines| && forall i :: 0 <= i < |lines| ==> DecodeLine(lines[i]) == Ok(rows[i])
  }

  lemma DecodedAsSnoc(lines: seq<string>, rows: seq<Scored>, row: Scored)
    requires |lines| > 0 && DecodedAs(lines[..|lines| - 1], rows)
    requires DecodeLine(lines[|lines| - 1]) == Ok(row)
    ensures DecodedAs(lines, rows + [row])
  {
    var n := |lines| - 1;
    forall i | 0 <= i < |lines| ensures DecodeLine(lines[i]) == Ok((rows + [row])[i]) {
      if i < n {
        assert lines[i] == lines[..n][i];
        assert (rows + [row])[i] == rows[i];
      }
    }
  }

  /** Decoding every line of the file: it succeeds exactly when every line
      decodes, each pair then being its line's decoding; otherwise the
      first bad line raises. */
  function DecodeLines(lines: seq<string>): (r: Result<seq<Scored>>)
    ensures r.Ok? ==> |r.value| == |lines|
    ensures r.Ok? ==> forall i :: 0 <= i < |lines| ==> |r.value[i].subset| >= 1
    ensures r.Ok? <==> AllDecode(lines)
    ensures r.Ok? ==> DecodedAs(lines, r.value)
  {
    if |lines| == 0 then Ok([])
    else
      var init := lines[..|lines| - 1];
      assert forall i :: 0 <= i < |init| ==> init[i] == lines[i];
      AllDecodeSnoc(lines);
      match DecodeLines(init)
      case Err(e) => Err(e)
      case Ok(rows) =>
        match DecodeLine(lines[|lines| - 1])
        case Err(e) => Err(e)
        case Ok(row) =>
          DecodedAsSnoc(lines, rows, row);
          Ok(rows + [row])
  }

  /** Reading the previous iteration's file back into `prev_subsets`: one
      pair per line of the file, each with a non-empty subset. */
  function LoadRecord(content: string): (r: Result<seq<Scored>>)
    ensures r.Ok? ==> |r.value| == |Lines(content)|
    ensures r.Ok? ==> forall i :: 0 <= i < |r.value| ==> |r.value[i].subset| >= 1
  {
    DecodeLines(Lines(content))
  }

  /** A gene name the line format carries intact: not empty, no comma, tab,
      line feed or carriage return (reading in text mode ends a line at
      either), and no whitespace at either end (which `strip` would remove
      from the first or last gene of a line). */
  predicate CleanGene(g: Gene) {
    |g| > 0 && !IsSpace(g[0]) && !IsSpace(g[|g| - 1])
    && ',' !in g && '\t' !in g && '\n' !in g && '\r' !in g
  }

  predicate CleanRow(row: Scored) {
    |row.subset| >= 1 && forall i :: 0 <= i < |row.subset| ==> CleanGene(row.subset[i])
  }

  /** A line written for a non-empty subset of clean genes reads back as the
      same subset and score. */
  lemma LineRoundTrip(row: Scored)
    requires CleanRow(row)
    ensures DecodeLine(EncodeLine(row)) == Ok(row)
  {
    LineFields(row);
    ScoreRoundTrip(row.score);
    SplitJoin(row.subset, ',');
  }

  /** Proof helper: a written line, stripped, is its text, whose two fields
      are the joined genes and the score. */
  lemma LineFields(row: Scored)
    requires CleanRow(row)
    ensures Strip(EncodeLine(row)) == LineText(row)
    ensures Split(LineText(row), '\t') == [Join(row.subset, ','), FormatScore(row.score)]
  {
    var joined := Join(row.subset, ',');
    var score := FormatScore(row.score);
    JoinAvoids(row.subset, ',', '\t');
    JoinAvoids(row.subset, ',', '\n');
    JoinStarts(row.subset, ',');
    ScoreTextPlain(row.score);
    var line := LineText(row);
    assert line[0] == joined[0];
    assert line[|line| - 1] == score[|score| - 1];
    StripTerminated(line, "\n");
    SplitJoin([joined, score], '\t');
    assert Join([joined, score], '\t') == line;
  }

  /** The texts of the lines written for `rows`, without line feeds. */
  function Texts(rows: seq<Scored>): (r: seq<string>)
    ensures |r| == |rows| && forall i :: 0 <= i < |rows| ==> r[i] == LineText(rows[i])
  {
    if |rows| == 0 then [] else Texts(rows[..|rows| - 1]) + [LineText(rows[|rows| - 1])]
  }

  /** The file after one `EncodeLine` write per row, in order. */
  function Record(rows: seq<Scored>): string {
    if |rows| == 0 then "" else Record(rows[..|rows| - 1]) + EncodeLine(rows[|rows| - 1])
  }

  /** The file is its line texts, each with its line feed. */
  lemma {:induction false} RecordTerminated(rows: seq<Scored>)
    ensures Record(rows) == Terminated(Texts(rows))
  {
    if |rows| > 0 {
      var n := |rows| - 1;
      RecordTerminated(rows[..n]);
      assert Texts(rows)[..n] == Texts(rows[..n]);
      assert Record(rows) == Record(rows[..n]) + EncodeLine(rows[n]);
      assert Terminated(Texts(rows)) == Terminated(Texts(rows[..n])) + LineText(rows[n]) + "\n";
    }
  }

  /** Appending one line to the file. */
  lemma RecordSnoc(rows: seq<Scored>, row: Scored)
    ensures Record(rows + [row]) == Record(rows) + EncodeLine(row)
  {
    assert (rows + [row])[..|rows|] == rows;
  }

  lemma {:induction false} DecodeAll(lines: seq<string>, rows: seq<Scored>)
    requires |lines| == |rows|
    requires forall i :: 0 <= i < |rows| ==> DecodeLine(lines[i]) == Ok(rows[i])
    ensures DecodeLines(lines) == Ok(rows)
  {
    if |rows| > 0 {
      var n := |rows| - 1;
      forall i | 0 <= i < n ensures DecodeLine(lines[..n][i]) == Ok(rows[..n][i]) {
        assert lines[..n][i] == lines[i] && rows[..n][i] == rows[i];
      }
      DecodeAll(lines[..n], rows[..n]);
      assert DecodeLine(lines[n]) == Ok(rows[n]);
      LastSplit(rows);
    }
  }

  /** The checkpoint round trip: the rows written for one iteration are read
      back by the next exactly, in the same order, when every subset is a
      non-empty list of clean gene names. */
  lemma RecordRoundTrip(rows: seq<Scored>)
    requires forall i :: 0 <= i < |rows| ==> CleanRow(rows[i])
    ensures LoadRecord(Record(rows)) == Ok(rows)
  {
    RecordLines(rows);
    var lines := Lines(Record(rows));
    forall i | 0 <= i < |rows| ensures DecodeLine(lines[i]) == Ok(rows[i]) {
      LineRoundTrip(rows[i]);
    }
    DecodeAll(lines, rows);
  }

  /** Iterating over the file gives back the lines written, one per row. */
  lemma RecordLines(rows: seq<Scored>)
    requires forall i :: 0 <= i < |rows| ==> CleanRow(rows[i])
    ensures |Lines(Record(rows))| == |rows|
    ensures forall i :: 0 <= i < |rows| ==> Lines(Record(rows))[i] == EncodeLine(rows[i])
  {
    var ls := Texts(rows);
    forall i | 0 <= i < |ls| ensures '\n' !in ls[i] && '\r' !in ls[i] {
      LineTextPlain(rows[i]);
    }
    LinesOfTerminated(ls);
    RecordTerminated(rows);
  }

  lemma LineTextPlain(row: Scored)
    ensures CleanRow(row) ==> '\n' !in LineText(row) && '\r' !in LineText(row)
  {
    if CleanRow(row) {
      JoinAvoids(row.subset, ',', '\n');
      JoinAvoids(row.subset, ',', '\r');
      ScoreTextPlain(row.score);
    }
  }
}
