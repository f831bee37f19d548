/**
 * Finding the document: the article locator (`obtener_articulo_espanol`) picks
 * the first Spanish-language investor article among the listing page's links,
 * and the resolver (`obtener_pdf_desde_articulo`) picks the first PDF link on
 * that article's page. The HTML itself is not modelled: each page is the
 * sequence of its `href` values in document order. `urljoin` is the parameter
 * `join`, applied as `join(BaseUrl, href)`.
 */
module Locator {
  import opened Wrappers
  import opened Text

  const BaseUrl: string := "https://vision.davivienda.com"

  /** The topical marker an investor article's address carries. */
  const Marker: string := "inversionistas-acciones"

  /** The Spanish month names; one of them in the address marks a Spanish article. */
  const Months: seq<string> := [
    "enero", "febrero", "marzo", "abril", "mayo", "junio",
    "julio", "agosto", "septiembre", "octubre",
    "noviembre", "diciembre"
  ]

  /** `any(mes in href for mes in meses_es)`. */
  predicate MentionsMonth(href: string) {
    exists k :: 0 <= k < |Months| && Contains(href, Months[k])
  }

  /** A link the locator accepts, judged on its lower-cased form. */
  predicate IsSpanishArticle(href: string) {
    var h := Lower(href);
    Contains(h, Marker) && MentionsMonth(h)
  }

  /** The address the locator keeps for an accepted link: lower-cased, and resolved unless it starts with "http". */
  function ArticleAddress(href: string, join: (string, string) -> string): string {
    var h := Lower(href);
    if StartsWith(h, "http") then h else join(BaseUrl, h)
  }

  /** `articulos_validos` after the loop has seen `hrefs`. */
  function Candidates(hrefs: seq<string>, join: (string, string) -> string): seq<string> {
    if hrefs == [] then []
    else
      var h := Last(hrefs);
      Candidates(hrefs[..|hrefs| - 1], join) + if IsSpanishArticle(h) then [ArticleAddress(h, join)] else []
  }

  /** What `obtener_articulo_espanol` returns for a listing page with these links. */
  function SpanishArticle(hrefs: seq<string>, join: (string, string) -> string): Option<string> {
    var valid := Candidates(hrefs, join);
    if valid == [] then None else Some(valid[0])
  }

  /** `i` is the first index whose link the locator accepts. */
  predicate IsFirstArticle(hrefs: seq<string>, i: int) {
    0 <= i < |hrefs| && IsSpanishArticle(hrefs[i])
    && forall j :: 0 <= j < i ==> !IsSpanishArticle(hrefs[j])
  }

  /** `obtener_articulo_espanol`, from the fetched listing links on: collect every accepted link, return the first. */
  method FindSpanishArticle(hrefs: seq<string>, join: (string, string) -> string) returns (r: Option<string>)
    ensures r == SpanishArticle(hrefs, join)
  {
    var valid: seq<string> := [];
    for i := 0 to |hrefs|
      invariant valid == Candidates(hrefs[..i], join)
    {
      var href := Lower(hrefs[i]);
      if Contains(href, Marker) {
        if MentionsMonth(href) {
          if !StartsWith(href, "http") {
            href := join(BaseUrl, href);
          }
          valid := valid + [href];
        }
      }
      assert hrefs[..i + 1][..i] == hrefs[..i];
    }
    assert hrefs[..|hrefs|] == hrefs;
    if |valid| > 0 {
      return Some(valid[0]);
    }
    return None;
  }

  /** The candidates are the accepted links' addresses, and the first of them belongs to the first accepted link. */
  lemma {:induction false} CandidatesFirst(hrefs: seq<string>, join: (string, string) -> string)
    ensures Candidates(hrefs, join) == [] <==> forall j :: 0 <= j < |hrefs| ==> !IsSpanishArticle(hrefs[j])
    ensures forall i :: IsFirstArticle(hrefs, i) ==> Candidates(hrefs, join)[0] == ArticleAddress(hrefs[i], join)
    decreases |hrefs|
  {
    if hrefs != [] {
      var init := hrefs[..|hrefs| - 1];
      CandidatesFirst(init, join);
      assert forall j :: 0 <= j < |init| ==> init[j] == hrefs[j];
      forall i | IsFirstArticle(hrefs, i)
        ensures Candidates(hrefs, join)[0] == ArticleAddress(hrefs[i], join)
      {
        if i < |init| {
          assert IsFirstArticle(init, i);
        }
      }
    }
  }

  /** The locator answers no-match exactly when no link qualifies, and otherwise the first qualifying link's address. */
  lemma SpanishArticleIsFirstMatch(hrefs: seq<string>, join: (string, string) -> string)
    ensures SpanishArticle(hrefs, join).None? <==> forall j :: 0 <= j < |hrefs| ==> !IsSpanishArticle(hrefs[j])
    ensures forall i :: IsFirstArticle(hrefs, i) ==> SpanishArticle(hrefs, join) == Some(ArticleAddress(hrefs[i], join))
  {
    CandidatesFirst(hrefs, join);
  }

  /** Links after the first accepted one never change the locator's answer. */
  lemma {:induction false} SpanishArticleIgnoresLater(hrefs: seq<string>, more: seq<string>, join: (string, string) -> string)
    requires SpanishArticle(hrefs, join).Some?
    ensures SpanishArticle(hrefs + more, join) == SpanishArticle(hrefs, join)
  {
    SpanishArticleIsFirstMatch(hrefs, join);
    var i :| 0 <= i < |hrefs| && IsSpanishArticle(hrefs[i]);
    var i0 := FirstArticleExists(hrefs, i);
    assert IsFirstArticle(hrefs + more, i0) by {
      assert forall j :: 0 <= j <= i0 ==> (hrefs + more)[j] == hrefs[j];
    }
    SpanishArticleIsFirstMatch(hrefs + more, join);
  }

  /** Whenever some link qualifies, a first one exists. */
  lemma {:induction false} FirstArticleExists(hrefs: seq<string>, i: nat) returns (i0: nat)
    requires i < |hrefs| && IsSpanishArticle(hrefs[i])
    ensures i0 <= i && IsFirstArticle(hrefs, i0)
    decreases i
  {
    if exists j :: 0 <= j < i && IsSpanishArticle(hrefs[j]) {
      var j :| 0 <= j < i && IsSpanishArticle(hrefs[j]);
      i0 := FirstArticleExists(hrefs, j);
    } else {
      i0 := i;
    }
  }

  // ---------------------------------------------------------------------------
  // The PDF resolver

  /** The file-type marker, matched case-sensitively. */
  const PdfMarker: string := ".pdf"

  /** A PDF link's address: kept as written, and resolved unless it starts with "http". */
  function PdfAddress(href: string, join: (string, string) -> string): string {
    if StartsWith(href, "http") then href else join(BaseUrl, href)
  }

  /** `i` is the first index whose link contains ".pdf". */
  predicate IsFirstPdf(hrefs: seq<string>, i: int) {
    0 <= i < |hrefs| && Contains(hrefs[i], PdfMarker)
    && forall j :: 0 <= j < i ==> !Contains(hrefs[j], PdfMarker)
  }

  /** `obtener_pdf_desde_articulo`, from the fetched article links on: the first PDF link in document order. */
  function FindPdf(hrefs: seq<string>, join: (string, string) -> string): (r: Option<string>)
    ensures r.None? <==> forall j :: 0 <= j < |hrefs| ==> !Contains(hrefs[j], PdfMarker)
    ensures forall i :: IsFirstPdf(hrefs, i) ==> r == Some(PdfAddress(hrefs[i], join))
  {
    if hrefs == [] then None
    else if Contains(hrefs[0], PdfMarker) then Some(PdfAddress(hrefs[0], join))
    else
      assert forall i :: IsFirstPdf(hrefs, i) ==> i > 0 && IsFirstPdf(hrefs[1..], i - 1);
      FindPdf(hrefs[1..], join)
  }

  /** `obtener_pdf_desde_articulo`, from the fetched article links on: scan in order, return at the first PDF link. */
  method ResolvePdf(hrefs: seq<string>, join: (string, string) -> string) returns (r: Option<string>)
    ensures r == FindPdf(hrefs, join)
  {
    var i := 0;
    while i < |hrefs|
      invariant 0 <= i <= |hrefs|
      invariant forall j :: 0 <= j < i ==> !Contains(hrefs[j], PdfMarker)
    {
      var href := hrefs[i];
      if Contains(href, PdfMarker) {
        if !StartsWith(href, "http") {
          href := join(BaseUrl, href);
        }
        assert IsFirstPdf(hrefs, i);
        return Some(href);
      }
      i := i + 1;
    }
    return None;
  }

  /** Links after the first PDF link never change the resolver's answer. */
  lemma {:induction false} FindPdfIgnoresLater(hrefs: seq<string>, more: seq<string>, join: (string, string) -> string)
    requires FindPdf(hrefs, join).Some?
    ensures FindPdf(hrefs + more, join) == FindPdf(hrefs, join)
  {
    if !Contains(hrefs[0], PdfMarker) {
      assert (hrefs + more)[1..] == hrefs[1..] + more;
      FindPdfIgnoresLater(hrefs[1..], more, join);
    }
  }

  /** Lower-casing a concatenation lower-cases each part. */
  lemma LowerAppend(a: string, b: string)
    ensures Lower(a + b) == Lower(a) + Lower(b)
  {
  }

  /** A mixed-case Spanish investor link used by the examples, written as its parts. */
  const SampleArticle: string := "/" + "Inversionistas-" + "Acciones" + "/Informe-" + "Marzo" + "-2024"

  lemma LowerPieces()
    ensures Lower("Inversionistas-") == "inversionistas-"
    ensures Lower("Acciones") == "acciones"
    ensures Lower("/Informe-") == "/informe-"
  {
    var a, b, c := "Inversionistas-", "Acciones", "/Informe-";
    forall k | 0 <= k < |a| ensures Lower(a)[k] == "inversionistas-"[k] { assert Lower(a)[k] == LowerChar(a[k]); }
    forall k | 0 <= k < |b| ensures Lower(b)[k] == "acciones"[k] { assert Lower(b)[k] == LowerChar(b[k]); }
    forall k | 0 <= k < |c| ensures Lower(c)[k] == "/informe-"[k] { assert Lower(c)[k] == LowerChar(c[k]); }
  }

  lemma LowerShortPieces()
    ensures Lower("Marzo") == Months[2] && Lower("-2024") == "-2024" && Lower("/") == "/"
  {
    var m, y := "Marzo", "-2024";
    forall k | 0 <= k < |m| ensures Lower(m)[k] == Months[2][k] { assert Lower(m)[k] == LowerChar(m[k]); }
    forall k | 0 <= k < |y| ensures Lower(y)[k] == y[k] { assert Lower(y)[k] == LowerChar(y[k]); }
    assert Lower("/")[0] == LowerChar('/');
  }

  /** The sample link lower-cased: the topical marker and the month "marzo" appear in it. */
  lemma LowerExample()
    ensures Lower(SampleArticle) == "/" + Marker + "/informe-" + Months[2] + "-2024"
  {
    LowerPieces();
    LowerShortPieces();
    LowerAppend("/", "Inversionistas-");
    LowerAppend("/" + "Inversionistas-", "Acciones");
    LowerAppend("/" + "Inversionistas-" + "Acciones", "/Informe-");
    LowerAppend("/" + "Inversionistas-" + "Acciones" + "/Informe-", "Marzo");
    LowerAppend("/" + "Inversionistas-" + "Acciones" + "/Informe-" + "Marzo", "-2024");
    assert Marker == "inversionistas-" + "acciones";
  }

  /** The sample link is accepted whatever its case, and its address is the lower-cased path joined to the base URL. */
  lemma AcceptedExample(join: (string, string) -> string)
    ensures IsSpanishArticle(SampleArticle)
    ensures ArticleAddress(SampleArticle, join) == join(BaseUrl, "/" + Marker + "/informe-" + Months[2] + "-2024")
  {
    LowerExample();
    var tail := "/informe-" + Months[2] + "-2024";
    OccursInConcat("/", Marker, tail);
    assert "/" + Marker + tail == ("/" + Marker + "/informe-") + Months[2] + "-2024";
    OccursInConcat("/" + Marker + "/informe-", Months[2], "-2024");
    assert !StartsWith(Lower(SampleArticle), "http") by { assert Lower(SampleArticle)[0] == '/'; }
  }

  /** A listing whose only investor link is a Spanish one, behind an English link: the locator picks it. */
  lemma LocatorExample(join: (string, string) -> string)
    ensures SpanishArticle(["/en/investors", SampleArticle], join)
         == Some(join(BaseUrl, "/" + Marker + "/informe-" + Months[2] + "-2024"))
  {
    var english := "/en/investors";
    AcceptedExample(join);
    assert |Lower(english)| < |Marker|;
    assert IsFirstArticle([english, SampleArticle], 1);
    SpanishArticleIsFirstMatch([english, SampleArticle], join);
  }

  /** An article page with one PDF link among others: the resolver returns its resolved address. */
  lemma ResolverExample(join: (string, string) -> string)
    ensures FindPdf(["/contacto", "/documents/report-2024-03.pdf"], join)
         == Some(join(BaseUrl, "/documents/report-2024-03.pdf"))
  {
    var other, pdf := "/contacto", "/documents/report-2024-03.pdf";
    assert !Contains(other, PdfMarker) by {
      forall i | 0 <= i <= |other| - 4 ensures !OccursAt(other, PdfMarker, i) {
        assert other[i] != '.';
      }
    }
    assert OccursAt(pdf, PdfMarker, |pdf| - 4);
    assert !StartsWith(pdf, "http") by { assert pdf[..4][0] == '/'; }
    assert IsFirstPdf([other, pdf], 1);
  }
}
