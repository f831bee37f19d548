/**
 * The two file names the script derives. A document's identity (the key of the
 * processed-set log, and the name of the saved PDF) is the part of its address
 * after the last `/`; the per-document CSV is named after it with every ".pdf"
 * turned into ".csv".
 */
module Naming {
  import opened Text

  /** `url_pdf.split("/")[-1]`. */
  function DocumentName(url: string): (r: string)
    ensures '/' !in r
    ensures |r| <= |url| && url[|url| - |r|..] == r
    ensures |r| < |url| ==> url[|url| - |r| - 1] == '/'
  {
    LastPieceIsSuffix(url, '/');
    Last(SplitOn(url, '/'))
  }

  /** A path whose last segment is `name` has `name` as its identity. */
  lemma DocumentNameOfPath(dir: string, name: string)
    requires '/' !in name
    ensures DocumentName(dir + "/" + name) == name
  {
    SplitOnConcat(dir, '/', name);
    SplitOnWithout(name, '/');
    assert dir + "/" + name == dir + ['/'] + name;
  }

  /** `nombre_pdf.replace(".pdf", ".csv")`. */
  function CsvName(pdfName: string): string {
    ReplaceAll(pdfName, ".pdf", ".csv")
  }

  /** The replacement has the same length as the pattern, so the name keeps its length. */
  lemma {:induction false} CsvNameLength(s: string)
    ensures |CsvName(s)| == |s|
    decreases |s|
  {
    if |s| > 0 {
      if StartsWith(s, ".pdf") { CsvNameLength(s[4..]); } else { CsvNameLength(s[1..]); }
    }
  }

  /** A name without ".pdf" is used unchanged for the CSV. */
  lemma {:induction false} CsvNameWithoutPdf(s: string)
    requires !Contains(s, ".pdf")
    ensures CsvName(s) == s
    decreases |s|
  {
    if |s| > 0 {
      assert !OccursAt(s, ".pdf", 0);
      NoPdfTail(s);
      CsvNameWithoutPdf(s[1..]);
    }
  }

  lemma CsvNameHead(s: string)
    requires s != []
    ensures CsvName(s) != [] && CsvName(s)[0] == if StartsWith(s, ".pdf") then '.' else s[0]
  {
  }

  /** A prefix free of '.' survives the replacement only if it was already there. */
  lemma {:induction false} CsvNamePrefix(s: string, w: string)
    requires '.' !in w
    requires StartsWith(CsvName(s), w)
    ensures StartsWith(s, w)
    decreases |s|
  {
    if w != [] && s != [] {
      CsvNameHead(s);
      if !StartsWith(s, ".pdf") {
        assert CsvName(s) == [s[0]] + CsvName(s[1..]);
        assert StartsWith(CsvName(s[1..]), w[1..]);
        CsvNamePrefix(s[1..], w[1..]);
        assert s == [s[0]] + s[1..];
      }
    }
  }

  /** Every ".pdf" is replaced and the replacement creates no new one. */
  lemma {:induction false} CsvNameHasNoPdf(s: string)
    ensures !Contains(CsvName(s), ".pdf")
    decreases |s|
  {
    var r := CsvName(s);
    if |s| > 0 {
      if StartsWith(s, ".pdf") {
        var r' := CsvName(s[4..]);
        CsvNameHasNoPdf(s[4..]);
        assert r == ".csv" + r';
        forall i | 0 <= i <= |r| - 4 ensures !OccursAt(r, ".pdf", i) {
          if i >= 4 {
            assert r[i..i + 4] == r'[i - 4..i];
            assert !OccursAt(r', ".pdf", i - 4);
          } else if i == 0 {
            assert r[1] == 'c';
          } else {
            assert r[i] != '.';
          }
        }
      } else {
        var r' := CsvName(s[1..]);
        CsvNameHasNoPdf(s[1..]);
        assert r == [s[0]] + r';
        forall i | 0 <= i <= |r| - 4 ensures !OccursAt(r, ".pdf", i) {
          if i >= 1 {
            assert r[i..i + 4] == r'[i - 1..i + 3];
            assert !OccursAt(r', ".pdf", i - 1);
          } else if OccursAt(r, ".pdf", 0) {
            assert StartsWith(r', "pdf") by { assert r'[..3] == r[1..4]; }
            CsvNamePrefix(s[1..], "pdf");
          }
        }
      }
    }
  }

  /** A text without ".pdf" keeps that property after dropping its first character. */
  lemma NoPdfTail(s: string)
    requires s != [] && !Contains(s, ".pdf")
    ensures !Contains(s[1..], ".pdf")
  {
    forall i | 0 <= i <= |s[1..]| - 4 ensures !OccursAt(s[1..], ".pdf", i) {
      assert !OccursAt(s, ".pdf", i + 1);
      assert s[1..][i..i + 4] == s[i + 1..i + 5];
    }
  }

  /**
   * The first ".pdf" becomes ".csv", the text before it is kept, and the text
   * after it is replaced on its own: ".pdf" cannot overlap itself, so no
   * occurrence straddles the join.
   */
  lemma {:induction false} CsvNameSplit(x: string, y: string)
    requires !Contains(x, ".pdf")
    ensures CsvName(x + ".pdf" + y) == x + ".csv" + CsvName(y)
    decreases |x|
  {
    var s := x + ".pdf" + y;
    if x == [] {
      assert StartsWith(s, ".pdf");
      assert s[4..] == y;
    } else {
      assert !StartsWith(s, ".pdf") by {
        if |x| >= 4 {
          assert !OccursAt(x, ".pdf", 0);
          assert s[..4] == x[..4];
        } else {
          assert s[|x|] == '.';
          assert ".pdf"[|x|] != '.';
        }
      }
      NoPdfTail(x);
      assert s[1..] == x[1..] + ".pdf" + y;
      CsvNameSplit(x[1..], y);
      assert x == [x[0]] + x[1..];
    }
  }

  /** A stem without ".pdf", followed by ".pdf", becomes the same stem followed by ".csv". */
  lemma CsvNameOfStem(stem: string)
    requires !Contains(stem, ".pdf")
    ensures CsvName(stem + ".pdf") == stem + ".csv"
  {
    CsvNameSplit(stem, []);
    assert stem + ".pdf" + [] == stem + ".pdf";
  }

  /** Without a '.' there is no ".pdf". */
  lemma NoDotNoPdf(s: string)
    requires '.' !in s
    ensures !Contains(s, ".pdf")
  {
    forall i | 0 <= i <= |s| - 4 ensures !OccursAt(s, ".pdf", i) {
      assert s[i] != '.';
    }
  }

  lemma CsvNameExample()
    ensures CsvName("informe-marzo-2024.pdf") == "informe-marzo-2024.csv"
  {
    var stem := "informe-marzo-2024";
    assert '.' !in stem;
    NoDotNoPdf(stem);
    CsvNameOfStem(stem);
    assert stem + ".pdf" == "informe-marzo-2024.pdf";
    assert stem + ".csv" == "informe-marzo-2024.csv";
  }
}
