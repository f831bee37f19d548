/**
 * The table extractor (`texto_a_dataframe`): from the OCR text of a report's
 * first page to the month's table, or `None` when no line looks like a data row.
 * A data row is a line holding a digit; its fields are separated by runs of two
 * or more whitespace characters; it needs at least two fields. The table is as
 * wide as the widest row, pads shorter rows with missing cells on the right, and
 * adds one column holding the processing timestamp.
 */
module Extractor {
  import opened Wrappers
  import opened Text
  import opened Consolidation

  // ---------------------------------------------------------------------------
  // re.split(r"\s{2,}", s)

  /** Positions `k` and `k + 1` of `s` are both whitespace. */
  predicate DoubleSpaceAt(s: string, k: int) {
    0 <= k && k + 1 < |s| && IsSpace(s[k]) && IsSpace(s[k + 1])
  }

  /** No two consecutive whitespace characters. */
  predicate NoDoubleSpace(s: string) {
    forall k :: 0 <= k < |s| ==> !DoubleSpaceAt(s, k)
  }

  lemma DoubleSpaceShift(s: string)
    requires |s| >= 1
    ensures forall m :: 1 <= m ==> (DoubleSpaceAt(s, m) <==> DoubleSpaceAt(s[1..], m - 1))
  {
    forall m | 1 <= m ensures DoubleSpaceAt(s, m) <==> DoubleSpaceAt(s[1..], m - 1) {
      if m + 1 < |s| {
        assert s[1..][m - 1] == s[m] && s[1..][m] == s[m + 1];
      }
    }
  }

  lemma NoDoubleSpacePrefix(s: string, i: nat)
    requires i <= |s|
    requires forall k :: 0 <= k < i ==> !DoubleSpaceAt(s, k)
    ensures NoDoubleSpace(s[..i])
  {
    forall k | 0 <= k < i ensures !DoubleSpaceAt(s[..i], k) {
      assert !DoubleSpaceAt(s, k);
      if k + 1 < i {
        assert s[..i][k] == s[k] && s[..i][k + 1] == s[k + 1];
      }
    }
  }

  /** The start of the leftmost run of two or more whitespace characters, or `|s|` if there is none. */
  function FirstRun(s: string): (i: nat)
    ensures i <= |s|
    ensures i < |s| ==> DoubleSpaceAt(s, i)
    ensures forall k :: 0 <= k < i ==> !DoubleSpaceAt(s, k)
    decreases |s|
  {
    if |s| < 2 then |s|
    else if DoubleSpaceAt(s, 0) then 0
    else
      DoubleSpaceShift(s);
      1 + FirstRun(s[1..])
  }

  /**
   * `re.split(r"\s{2,}", s)`: the pieces between the leftmost-longest runs of two
   * or more whitespace characters. A single whitespace character stays inside its field.
   */
  function SplitFields(s: string): (r: seq<string>)
    ensures |r| >= 1
    ensures forall k :: 0 <= k < |r| ==> NoDoubleSpace(r[k])
    decreases |s|
  {
    var i := FirstRun(s);
    if i == |s| then [s]
    else
      var j := SpanEnd(s, i);
      assert j >= i + 2;
      NoDoubleSpacePrefix(s, i);
      [s[..i]] + SplitFields(s[j..])
  }

  /** Splitting a stripped line yields stripped (so non-empty) fields. */
  lemma {:induction false} FieldsOfStripped(s: string)
    requires Stripped(s)
    ensures forall k :: 0 <= k < |SplitFields(s)| ==> Stripped(SplitFields(s)[k])
    decreases |s|
  {
    var i := FirstRun(s);
    if i < |s| {
      var j := SpanEnd(s, i);
      assert !DoubleSpaceAt(s, i - 1);
      assert j < |s|;
      FieldsOfStripped(s[j..]);
    }
  }

  /** A gap `re.split(r"\s{2,}", …)` splits at: two or more whitespace characters. */
  predicate Gap(sep: string) {
    |sep| >= 2 && AllSpace(sep)
  }

  /** The fields `fs` with the gap `seps[k]` between `fs[k]` and `fs[k + 1]`. */
  function Interleave(fs: seq<string>, seps: seq<string>): string
    requires |fs| >= 1 && |seps| == |fs| - 1
    decreases |fs|
  {
    if |fs| == 1 then fs[0] else fs[0] + seps[0] + Interleave(fs[1..], seps[1..])
  }

  lemma {:induction false} InterleaveStartsWith(fs: seq<string>, seps: seq<string>)
    requires |fs| >= 1 && |seps| == |fs| - 1
    ensures StartsWith(Interleave(fs, seps), fs[0])
  {
    if |fs| > 1 {
      assert Interleave(fs, seps) == fs[0] + (seps[0] + Interleave(fs[1..], seps[1..]));
    }
  }

  lemma {:induction false} InterleaveEndsWith(fs: seq<string>, seps: seq<string>)
    requires |fs| >= 1 && |seps| == |fs| - 1 && Last(fs) != []
    ensures Interleave(fs, seps) != [] && Last(Interleave(fs, seps)) == Last(Last(fs))
    decreases |fs|
  {
    if |fs| > 1 {
      InterleaveEndsWith(fs[1..], seps[1..]);
    }
  }

  /**
   * Fields separated by gaps of two or more whitespace characters, each gap of
   * its own width, split back into the same fields, provided each field is
   * stripped and has no double whitespace.
   */
  lemma {:induction false} SplitJoinFields(fs: seq<string>, seps: seq<string>)
    requires |fs| >= 1 && |seps| == |fs| - 1
    requires forall k :: 0 <= k < |fs| ==> Stripped(fs[k]) && NoDoubleSpace(fs[k])
    requires forall k :: 0 <= k < |seps| ==> Gap(seps[k])
    ensures SplitFields(Interleave(fs, seps)) == fs
    decreases |fs|
  {
    if |fs| > 1 {
      var f, sep, tail := fs[0], seps[0], Interleave(fs[1..], seps[1..]);
      var s := Interleave(fs, seps);
      assert s == f + sep + tail;
      assert Gap(sep);
      InterleaveStartsWith(fs[1..], seps[1..]);
      assert tail[0] == fs[1][0];
      assert DoubleSpaceAt(s, |f|);
      forall k | 0 <= k < |f| ensures !DoubleSpaceAt(s, k) {
        if k < |f| - 1 {
          assert !DoubleSpaceAt(f, k);
        }
      }
      var i := FirstRun(s);
      assert i == |f|;
      var j := SpanEnd(s, i);
      assert s[|f| + |sep|] == tail[0];
      forall k | |f| <= k < |f| + |sep| ensures IsSpace(s[k]) {
        assert s[k] == sep[k - |f|];
      }
      assert j == |f| + |sep|;
      assert s[..i] == f && s[j..] == tail;
      SplitJoinFields(fs[1..], seps[1..]);
      assert fs == [f] + fs[1..];
    }
  }

  /** Conversely, a line is its fields with the gaps the split removed put back. */
  lemma {:induction false} SplitFieldsGaps(s: string) returns (seps: seq<string>)
    ensures |seps| == |SplitFields(s)| - 1
    ensures forall k :: 0 <= k < |seps| ==> Gap(seps[k])
    ensures Interleave(SplitFields(s), seps) == s
    decreases |s|
  {
    var i := FirstRun(s);
    if i == |s| {
      seps := [];
    } else {
      var j := SpanEnd(s, i);
      var rest := SplitFieldsGaps(s[j..]);
      seps := [s[i..j]] + rest;
      var fs := SplitFields(s);
      assert fs == [s[..i]] + SplitFields(s[j..]);
      assert fs[1..] == SplitFields(s[j..]) && seps[1..] == rest;
      assert Gap(s[i..j]);
      assert s == s[..i] + s[i..j] + s[j..];
    }
  }

  // ---------------------------------------------------------------------------
  // Selecting the rows

  /** The fields of one line of text. */
  function Fields(line: string): seq<string> {
    SplitFields(Strip(line))
  }

  /** The extractor keeps a line: after stripping it holds a digit and splits into at least two fields. */
  predicate Keeps(line: string) {
    HasDigit(Strip(line)) && |Fields(line)| >= 2
  }

  /** The images under `f` of the elements of `xs` that `keep` accepts, in order. */
  function Select<T, U>(xs: seq<T>, keep: T -> bool, f: T -> U): seq<U> {
    if xs == [] then []
    else Select(xs[..|xs| - 1], keep, f) + if keep(Last(xs)) then [f(Last(xs))] else []
  }

  lemma {:induction false} SelectAppend<T, U>(a: seq<T>, b: seq<T>, keep: T -> bool, f: T -> U)
    ensures Select(a + b, keep, f) == Select(a, keep, f) + Select(b, keep, f)
    decreases |b|
  {
    if b == [] {
      assert a + b == a;
    } else {
      var b' := b[..|b| - 1];
      assert (a + b)[..|a + b| - 1] == a + b';
      assert Last(a + b) == Last(b);
      SelectAppend(a, b', keep, f);
    }
  }

  lemma {:induction false} SelectEmpty<T, U>(xs: seq<T>, keep: T -> bool, f: T -> U)
    ensures Select(xs, keep, f) == [] <==> forall i :: 0 <= i < |xs| ==> !keep(xs[i])
    decreases |xs|
  {
    if xs != [] {
      var init := xs[..|xs| - 1];
      SelectEmpty(init, keep, f);
      assert forall i :: 0 <= i < |init| ==> xs[i] == init[i];
    }
  }

  lemma {:induction false} SelectOrigin<T, U>(xs: seq<T>, keep: T -> bool, f: T -> U, k: nat)
    requires k < |Select(xs, keep, f)|
    ensures exists i :: 0 <= i < |xs| && keep(xs[i]) && Select(xs, keep, f)[k] == f(xs[i])
    decreases |xs|
  {
    var init := xs[..|xs| - 1];
    if k < |Select(init, keep, f)| {
      SelectOrigin(init, keep, f, k);
      var i :| 0 <= i < |init| && keep(init[i]) && Select(init, keep, f)[k] == f(init[i]);
      assert xs[i] == init[i];
    } else {
      assert Select(xs, keep, f)[k] == f(xs[|xs| - 1]);
    }
  }

  /** The list `datos` after the loop has seen `lines`: the fields of every kept line, in line order. */
  function KeptRows(lines: seq<string>): seq<seq<string>> {
    Select(lines, Keeps, Fields)
  }

  /** The rows of two blocks of lines are the first block's rows followed by the second's: line order is kept. */
  lemma KeptRowsAppend(a: seq<string>, b: seq<string>)
    ensures KeptRows(a + b) == KeptRows(a) + KeptRows(b)
  {
    SelectAppend(a, b, Keeps, Fields);
  }

  /** A single line gives its fields when it is kept and nothing otherwise. */
  lemma KeptRowsOfLine(line: string)
    ensures KeptRows([line]) == if Keeps(line) then [Fields(line)] else []
  {
    assert [line][..0] == [];
    assert Last([line]) == line;
    assert KeptRows([line]) == Select([], Keeps, Fields) + if Keeps(line) then [Fields(line)] else [];
  }

  /** Seeing one more line adds its fields when it is kept and nothing otherwise. */
  lemma KeptRowsSnoc(prefix: seq<string>, line: string)
    ensures KeptRows(prefix + [line]) == KeptRows(prefix) + if Keeps(line) then [Fields(line)] else []
  {
    KeptRowsAppend(prefix, [line]);
    KeptRowsOfLine(line);
  }

  /** No row survives exactly when no line is kept. */
  lemma KeptRowsEmpty(lines: seq<string>)
    ensures KeptRows(lines) == [] <==> forall i :: 0 <= i < |lines| ==> !Keeps(lines[i])
  {
    SelectEmpty(lines, Keeps, Fields);
  }

  /** Every row is the fields of some kept line. */
  lemma KeptRowsOrigin(lines: seq<string>, k: nat)
    requires k < |KeptRows(lines)|
    ensures exists i :: 0 <= i < |lines| && Keeps(lines[i]) && KeptRows(lines)[k] == Fields(lines[i])
  {
    SelectOrigin(lines, Keeps, Fields, k);
  }

  /** A kept line's row: it holds a digit, has at least two fields, each non-empty, unpadded and free of double whitespace. */
  lemma KeptLineFields(line: string)
    requires Keeps(line)
    ensures HasDigit(Strip(line)) && |Fields(line)| >= 2
    ensures forall k :: 0 <= k < |Fields(line)| ==> Stripped(Fields(line)[k]) && NoDoubleSpace(Fields(line)[k])
  {
    FieldsOfStripped(Strip(line));
  }

  /** Every row of `KeptRows(lines)` has at least two stripped fields free of double whitespace. */
  lemma RowsAreClean(lines: seq<string>)
    ensures forall k :: 0 <= k < |KeptRows(lines)| ==>
      |KeptRows(lines)[k]| >= 2
      && forall f :: 0 <= f < |KeptRows(lines)[k]| ==>
           Stripped(KeptRows(lines)[k][f]) && NoDoubleSpace(KeptRows(lines)[k][f])
  {
    forall k | 0 <= k < |KeptRows(lines)|
      ensures |KeptRows(lines)[k]| >= 2
      ensures forall f :: 0 <= f < |KeptRows(lines)[k]| ==>
                Stripped(KeptRows(lines)[k][f]) && NoDoubleSpace(KeptRows(lines)[k][f])
    {
      KeptRowsOrigin(lines, k);
      var i :| 0 <= i < |lines| && Keeps(lines[i]) && KeptRows(lines)[k] == Fields(lines[i]);
      KeptLineFields(lines[i]);
    }
  }

  // ---------------------------------------------------------------------------
  // Building the table

  /** The widest row's field count (0 for no rows). */
  function MaxWidth(rows: seq<seq<string>>): (w: nat)
    ensures forall k :: 0 <= k < |rows| ==> |rows[k]| <= w
    ensures rows != [] ==> exists k :: 0 <= k < |rows| && |rows[k]| == w
    ensures rows == [] ==> w == 0
  {
    if rows == [] then 0
    else
      var w' := MaxWidth(rows[..|rows| - 1]);
      if |Last(rows)| > w' then |Last(rows)| else
        assert rows[..|rows| - 1] != [] ==> exists k :: 0 <= k < |rows| - 1 && |rows[k]| == w';
        w'
  }

  /** A row's fields followed by missing cells up to width `w`. */
  function Pad(fields: seq<string>, w: nat): (r: Row)
    requires |fields| <= w
  {
    seq(w, j requires 0 <= j < w => if j < |fields| then Some(fields[j]) else None)
  }

  /** `pd.DataFrame(datos)` with the column `fecha_proceso` set to `stamp` on every row. */
  function Frame(rows: seq<seq<string>>, stamp: string): (t: Table)
    ensures |t| == |rows|
    ensures forall k :: 0 <= k < |t| ==> |t[k]| == MaxWidth(rows) + 1
    ensures forall k, j :: 0 <= k < |rows| && 0 <= j < |rows[k]| ==> j < |t[k]| && t[k][j] == Some(rows[k][j])
    ensures forall k, j :: 0 <= k < |rows| && |rows[k]| <= j < MaxWidth(rows) ==> t[k][j] == None
    ensures forall k :: 0 <= k < |t| ==> t[k][MaxWidth(rows)] == Some(stamp)
  {
    var w := MaxWidth(rows);
    seq(|rows|, k requires 0 <= k < |rows| => Pad(rows[k], w) + [Some(stamp)])
  }

  /** What `texto_a_dataframe(text)` returns, with `stamp` standing for `pd.Timestamp.today()`. */
  function ExtractTable(text: string, stamp: string): Option<Table> {
    var rows := KeptRows(SplitOn(text, '\n'));
    if rows == [] then None else Some(Frame(rows, stamp))
  }

  /** `texto_a_dataframe`: scan the lines once, collecting the kept rows, then build the table. */
  method TextToTable(text: string, stamp: string) returns (r: Option<Table>)
    ensures r == ExtractTable(text, stamp)
  {
    var lines := SplitOn(text, '\n');
    var data: seq<seq<string>> := [];
    for i := 0 to |lines|
      invariant data == KeptRows(lines[..i])
    {
      assert lines[..i + 1] == lines[..i] + [lines[i]];
      KeptRowsSnoc(lines[..i], lines[i]);
      var line := Strip(lines[i]);
      if HasDigit(line) {
        var parts := SplitFields(line);
        if |parts| >= 2 {
          data := data + [parts];
        }
      }
    }
    assert lines[..|lines|] == lines;
    if data == [] {
      return None;
    }
    return Some(Frame(data, stamp));
  }

  /** The extractor answers `None` exactly when no line of the text is kept. */
  lemma ExtractNoneIff(text: string, stamp: string)
    ensures ExtractTable(text, stamp).None?
        <==> forall i :: 0 <= i < |SplitOn(text, '\n')| ==> !Keeps(SplitOn(text, '\n')[i])
  {
    ExtractNoneOfRows(text, stamp);
    KeptRowsEmpty(SplitOn(text, '\n'));
  }

  lemma ExtractNoneOfRows(text: string, stamp: string)
    ensures ExtractTable(text, stamp).None? <==> KeptRows(SplitOn(text, '\n')) == []
  {
  }

  /**
   * A table the extractor returns has one row per kept line, every row as wide as
   * the widest plus the timestamp column, the row's fields first, and a final
   * timestamp cell common to all rows.
   */
  lemma ExtractShape(text: string, stamp: string)
    requires ExtractTable(text, stamp).Some?
    ensures var rows, t := KeptRows(SplitOn(text, '\n')), ExtractTable(text, stamp).value;
      && |t| == |rows| > 0
      && (exists k :: 0 <= k < |rows| && |t[k]| == |rows[k]| + 1)
      && forall k :: 0 <= k < |t| ==>
           |t[k]| >= 3 && t[k][..|rows[k]|] == Pad(rows[k], |rows[k]|) && Last(t[k]) == Some(stamp)
  {
    var rows := KeptRows(SplitOn(text, '\n'));
    var t := Frame(rows, stamp);
    RowsAreClean(SplitOn(text, '\n'));
    forall k | 0 <= k < |t| ensures t[k][..|rows[k]|] == Pad(rows[k], |rows[k]|) {
      assert forall j :: 0 <= j < |rows[k]| ==> t[k][j] == Some(rows[k][j]);
    }
  }

  // ---------------------------------------------------------------------------
  // Worked examples

  lemma NoDoubleSpaceOfNoSpace(s: string)
    requires forall k :: 0 <= k < |s| ==> !IsSpace(s[k])
    ensures NoDoubleSpace(s)
  {
  }

  /** A line of stripped fields separated by gaps of any widths gives exactly those fields. */
  lemma FieldsOfJoined(fs: seq<string>, seps: seq<string>)
    requires |fs| >= 1 && |seps| == |fs| - 1
    requires forall k :: 0 <= k < |fs| ==> Stripped(fs[k]) && NoDoubleSpace(fs[k])
    requires forall k :: 0 <= k < |seps| ==> Gap(seps[k])
    ensures Fields(Interleave(fs, seps)) == fs
  {
    InterleaveStartsWith(fs, seps);
    InterleaveEndsWith(fs, seps);
    StripStripped(Interleave(fs, seps));
    SplitJoinFields(fs, seps);
  }

  /** A line without digits is dropped whatever its layout. */
  lemma DropsDigitless(line: string)
    requires forall k :: 0 <= k < |line| ==> !IsDigit(line[k])
    ensures !Keeps(line)
  {
    var t := Strip(line);
    var a := StripOffset(line);
    forall k | 0 <= k < |t| ensures !IsDigit(t[k]) {
      assert t[k] == line[a + k];
    }
  }

  /** The example page's lines: the data row, the footer and the empty piece after the final newline. */
  lemma ExampleLines()
    ensures SplitOn("Total   100  200\nfooter\n", '\n') == ["Total   100  200", "footer", ""]
  {
    var parts := ["Total   100  200", "footer", ""];
    assert Join(parts, "\n") == "Total   100  200\nfooter\n" by {
      assert Join(parts[1..], "\n") == "footer\n" by {
        assert parts[1..][1..] == [""];
      }
    }
    SplitJoin(parts, '\n');
  }

  /** The example's data row is its three fields with gaps of three and two spaces. */
  lemma ExampleRowLayout()
    ensures Interleave(["Total", "100", "200"], ["   ", "  "]) == "Total   100  200"
  {
    var seps := ["   ", "  "];
    var fs := ["Total", "100", "200"];
    assert Interleave(fs[1..], seps[1..]) == "100  200" by {
      assert fs[1..][1..] == ["200"];
    }
  }

  /** The example's fields and gaps meet the requirements of FieldsOfJoined. */
  lemma ExampleRowParts()
    ensures forall k :: 0 <= k < 3 ==> Stripped(["Total", "100", "200"][k]) && NoDoubleSpace(["Total", "100", "200"][k])
    ensures forall k :: 0 <= k < 2 ==> Gap(["   ", "  "][k])
  {
    var fs := ["Total", "100", "200"];
    forall k | 0 <= k < |fs| ensures Stripped(fs[k]) && NoDoubleSpace(fs[k]) {
      NoDoubleSpaceOfNoSpace(fs[k]);
    }
  }

  /** The example's data row, whose gaps have different widths, is kept and splits into its three fields. */
  lemma ExampleRow()
    ensures Keeps("Total   100  200") && Fields("Total   100  200") == ["Total", "100", "200"]
  {
    var row := "Total   100  200";
    ExampleRowLayout();
    ExampleRowParts();
    FieldsOfJoined(["Total", "100", "200"], ["   ", "  "]);
    StripStripped(row);
    assert IsDigit(row[8]);
  }

  /** A footer without digits is dropped. */
  lemma ExampleFooter()
    ensures !Keeps("footer")
  {
    DropsDigitless("footer");
  }

  /** The empty piece after a final newline is dropped. */
  lemma ExampleEmptyLine()
    ensures !Keeps("")
  {
    DropsDigitless("");
  }

  /** Of the example page's lines only the data row survives. */
  lemma ExampleKept()
    ensures KeptRows(["Total   100  200", "footer", ""]) == [["Total", "100", "200"]]
  {
    ExampleRow();
    ExampleFooter();
    ExampleEmptyLine();
    KeptFirstOfThree("Total   100  200", "footer", "");
  }

  lemma KeptFirstOfThree(a: string, b: string, c: string)
    requires Keeps(a) && !Keeps(b) && !Keeps(c)
    ensures KeptRows([a, b, c]) == [Fields(a)]
  {
    SelectThree(a, b, c, Keeps, Fields);
  }

  lemma SelectThree<T, U>(a: T, b: T, c: T, keep: T -> bool, f: T -> U)
    requires keep(a) && !keep(b) && !keep(c)
    ensures Select([a, b, c], keep, f) == [f(a)]
  {
    assert [a][..0] == [];
    assert Select([a], keep, f) == [f(a)];
    assert [a, b][..1] == [a];
    assert Select([a, b], keep, f) == [f(a)];
    assert [a, b, c][..2] == [a, b];
  }

  /** One three-field row becomes one row of four cells. */
  lemma ExampleFrame(stamp: string)
    ensures Frame([["Total", "100", "200"]], stamp) == [[Some("Total"), Some("100"), Some("200"), Some(stamp)]]
  {
    var fs := ["Total", "100", "200"];
    assert MaxWidth([fs]) == 3;
    assert Frame([fs], stamp)[0] == [Some("Total"), Some("100"), Some("200"), Some(stamp)];
  }

  /**
   * A report page with one data row and a footer: the footer and the empty piece
   * after the final newline are dropped, the row's three fields are split at the
   * runs of spaces, and the timestamp closes the row.
   */
  lemma ExtractExample(stamp: string)
    ensures ExtractTable("Total   100  200\nfooter\n", stamp)
         == Some([[Some("Total"), Some("100"), Some("200"), Some(stamp)]])
  {
    ExampleLines();
    ExampleKept();
    ExampleFrame(stamp);
  }
}
