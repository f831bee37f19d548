/**
 * One run of the ingestion job (`main`): locate the first Spanish investor article, resolve
 * its PDF, download it, skip it when it was already processed, extract the
 * table, write the month's CSV, merge the table into the consolidated base and
 * finally record the document in the log.
 *
 * The files the job keeps are the `Store`. The outside world is the `Env`: the
 * links of the listing page, the links of any article page, the bytes served at
 * an address, the OCR of a PDF's first page, `urljoin` and today's timestamp.
 * What one run does is specified by `Step`, a function of the store before the
 * run and the environment, as an outcome and the list of writes in the order
 * `main` performs them; `Store.Run` is proved to leave the files as those
 * writes, applied in order, leave them.
 */
module Pipeline {
  import opened Wrappers
  import opened Text
  import opened Locator
  import opened ProcessedLog
  import opened Naming
  import opened Consolidation
  import opened Extractor

  newtype Byte = x: int | 0 <= x < 256
  type Bytes = seq<Byte>

  /** What the run depends on outside the store. */
  datatype Env = Env(
    listing: seq<string>,                  // the `href`s of the listing page, in document order
    articleLinks: string -> seq<string>,   // the `href`s of the page at an address
    fetch: string -> Bytes,                // the body served at an address
    ocr: Bytes -> string,                  // the Spanish OCR text of a PDF's first page
    join: (string, string) -> string,      // `urljoin`
    now: string)                           // `pd.Timestamp.today()`

  /** How `main` ends: each early return, or the full run. */
  datatype Outcome =
    | NoArticle            // "No se encontró artículo válido."
    | NoPdf                // "No se encontró PDF."
    | DownloadFailed       // the document's name is not a file name: opening it for writing raises
    | AlreadyProcessed     // "PDF ya procesado."
    | UnrecognizedLayout   // "No se pudo estructurar la tabla."
    | Completed            // "Proceso completo exitosamente."

  /** One write to the store. */
  datatype Effect =
    | SavePdf(name: string, content: Bytes)     // `data_raw/pdf/<name>`
    | SaveMonthly(csvName: string, table: Table) // `data_raw/csv_mensual/<csvName>`
    | MergeBase(table: Table)                    // `data_processed/base_consolidada.csv`
    | AppendLog(name: string)                    // `logs/procesados.txt`

  /** The job's files: the log and the base (`None` while absent), the saved PDFs and the monthly CSVs by file name. */
  datatype StoreState = StoreState(
    log: Option<string>,
    base: Option<Table>,
    pdfs: map<string, Bytes>,
    monthly: map<string, Table>)

  datatype RunResult = RunResult(outcome: Outcome, effects: seq<Effect>)

  /** The store after one write. */
  function Apply(s: StoreState, e: Effect): StoreState {
    match e
    case SavePdf(name, content) => s.(pdfs := s.pdfs[name := content])
    case SaveMonthly(csvName, table) => s.(monthly := s.monthly[csvName := table])
    case MergeBase(table) => s.(base := Some(Consolidate(s.base, table)))
    case AppendLog(name) => s.(log := Some(AppendLine(s.log, name)))
  }

  /**
   * Each write changes exactly one of the job's files and leaves the other three
   * as they were. A saved PDF or CSV reads back as written, next to the folder's
   * other files; the merge appends the table's rows to the base; the append ends
   * the log with the name's line and keeps it well formed.
   */
  lemma ApplyWrites(s: StoreState, e: Effect)
    ensures var r := Apply(s, e);
      && (!e.AppendLog? ==> r.log == s.log)
      && (!e.MergeBase? ==> r.base == s.base)
      && (!e.SavePdf? ==> r.pdfs == s.pdfs)
      && (!e.SaveMonthly? ==> r.monthly == s.monthly)
      && (e.SavePdf? ==> r.pdfs.Keys == s.pdfs.Keys + {e.name} && r.pdfs[e.name] == e.content
                         && forall n :: n in s.pdfs && n != e.name ==> r.pdfs[n] == s.pdfs[n])
      && (e.SaveMonthly? ==> r.monthly.Keys == s.monthly.Keys + {e.csvName} && r.monthly[e.csvName] == e.table
                             && forall n :: n in s.monthly && n != e.csvName ==> r.monthly[n] == s.monthly[n])
      && (e.MergeBase? ==> r.base == Some(Consolidate(s.base, e.table)))
      && (e.AppendLog? ==> r.log == Some(AppendLine(s.log, e.name)) && WellFormed(r.log))
      && (e.AppendLog? && WellFormed(s.log) ==> LogLines(r.log) == LogLines(s.log) + SplitOn(e.name, '\n'))
  {
    if e.AppendLog? {
      AppendLineWellFormed(s.log, e.name);
      LinesOfRecord(s.log, e.name);
    }
  }

  /** The store after the writes `es`, in order. */
  function ApplyAll(s: StoreState, es: seq<Effect>): StoreState {
    if es == [] then s else Apply(ApplyAll(s, es[..|es| - 1]), Last(es))
  }

  lemma ApplyOne(s: StoreState, e: Effect)
    ensures ApplyAll(s, [e]) == Apply(s, e)
  {
    assert [e][..0] == [];
  }

  /** A name `open(os.path.join(folder, name), "wb")` can create: not the folder itself nor a dot entry. */
  predicate Writable(name: string) {
    name != [] && name != "." && name != ".."
  }

  /** Where the first half of `main` (locating and downloading the document) ends. */
  datatype Located =
    | NoArticleFound
    | NoPdfFound
    | Unwritable(name: string)
    | Found(name: string, content: Bytes)

  /**
   * `main` up to `descargar_pdf`: the article, its PDF address, the document's
   * name and the bytes downloaded. A run stops for want of an article or of a
   * PDF address when the locator or the resolver finds none or returns an empty
   * address; otherwise the document is named after the resolved address, and the
   * bytes are those served there.
   */
  function Locate(env: Env): (r: Located)
    ensures r.NoArticleFound? <==> SpanishArticle(env.listing, env.join) in {None, Some([])}
    ensures r.NoPdfFound? <==>
      var a := SpanishArticle(env.listing, env.join);
      a.Some? && a.value != [] && FindPdf(env.articleLinks(a.value), env.join) in {None, Some([])}
    ensures (r.Found? || r.Unwritable?) ==>
      var a := SpanishArticle(env.listing, env.join);
      && a.Some? && a.value != []
      && var u := FindPdf(env.articleLinks(a.value), env.join);
         && u.Some? && u.value != []
         && r.name == DocumentName(u.value)
         && (r.Found? <==> Writable(r.name))
         && (r.Found? ==> r.content == env.fetch(u.value))
    ensures r.Found? ==> Writable(r.name) && '/' !in r.name
  {
    match SpanishArticle(env.listing, env.join)
    case None => NoArticleFound
    case Some(article) =>
      if article == [] then NoArticleFound
      else
        match FindPdf(env.articleLinks(article), env.join)
        case None => NoPdfFound
        case Some(url) =>
          if url == [] then NoPdfFound
          else
            var name := DocumentName(url);
            if !Writable(name) then Unwritable(name) else Found(name, env.fetch(url))
  }

  /**
   * `main` from `ya_procesado` on, for the document `name` just saved with bytes
   * `content`, where `table` is what the extractor makes of its first page.
   */
  function Process(s: StoreState, name: string, content: Bytes, table: Option<Table>): RunResult {
    var save := SavePdf(name, content);
    if Processed(s.log, name) then RunResult(AlreadyProcessed, [save])
    else if table.None? then RunResult(UnrecognizedLayout, [save])
    else
      var t := table.value;
      RunResult(Completed, [save, SaveMonthly(CsvName(name), t), MergeBase(t), AppendLog(name)])
  }

  /** One run of `main` on store `s`: how it ends and the writes it makes, in order. */
  function Step(s: StoreState, env: Env): RunResult {
    match Locate(env)
    case NoArticleFound => RunResult(NoArticle, [])
    case NoPdfFound => RunResult(NoPdf, [])
    case Unwritable(_) => RunResult(DownloadFailed, [])
    case Found(name, content) => Process(s, name, content, ExtractTable(env.ocr(content), env.now))
  }

  /** The store after a run of `main`. */
  function After(s: StoreState, env: Env): StoreState {
    ApplyAll(s, Step(s, env).effects)
  }

  /** The table the run extracts from the located document. */
  function Extracted(env: Env): Option<Table>
    requires Locate(env).Found?
  {
    ExtractTable(env.ocr(Locate(env).content), env.now)
  }

  // ---------------------------------------------------------------------------
  // Properties of processing a saved document

  /** The writes of a completed run, in the order `main` makes them: PDF, monthly CSV, base, log. */
  lemma ProcessCompleted(s: StoreState, name: string, content: Bytes, table: Option<Table>)
    requires Process(s, name, content, table).outcome == Completed
    ensures !Processed(s.log, name) && table.Some?
    ensures Process(s, name, content, table).effects
         == [SavePdf(name, content), SaveMonthly(CsvName(name), table.value), MergeBase(table.value), AppendLog(name)]
  {
  }

  /** The files after each prefix of a completed run's writes. */
  lemma CompletedSteps(s: StoreState, name: string, content: Bytes, t: Table)
    ensures var es := [SavePdf(name, content), SaveMonthly(CsvName(name), t), MergeBase(t), AppendLog(name)];
      && ApplyAll(s, es[..0]) == s
      && ApplyAll(s, es[..1]) == s.(pdfs := s.pdfs[name := content])
      && ApplyAll(s, es[..2]) == s.(pdfs := s.pdfs[name := content], monthly := s.monthly[CsvName(name) := t])
      && ApplyAll(s, es[..3]) == s.(pdfs := s.pdfs[name := content], monthly := s.monthly[CsvName(name) := t],
                                    base := Some(Consolidate(s.base, t)))
      && ApplyAll(s, es) == s.(pdfs := s.pdfs[name := content], monthly := s.monthly[CsvName(name) := t],
                               base := Some(Consolidate(s.base, t)), log := Some(AppendLine(s.log, name)))
  {
    var es := [SavePdf(name, content), SaveMonthly(CsvName(name), t), MergeBase(t), AppendLog(name)];
    assert es[..4] == es;
    assert es[..4][..3] == es[..3];
    assert es[..3][..2] == es[..2];
    assert es[..2][..1] == es[..1];
    assert es[..1][..0] == es[..0] == [];
  }

  /** Unless the run completes, processing only (re)writes the PDF. */
  lemma ProcessOnlySavesUnlessCompleted(s: StoreState, name: string, content: Bytes, table: Option<Table>)
    requires Process(s, name, content, table).outcome != Completed
    ensures ApplyAll(s, Process(s, name, content, table).effects) == s.(pdfs := s.pdfs[name := content])
  {
    ApplyOne(s, SavePdf(name, content));
  }

  /** Processing a document the log does not hold yet, to completion. */
  lemma ProcessComplete(s: StoreState, name: string, content: Bytes, t: Table)
    requires !Processed(s.log, name)
    ensures Process(s, name, content, Some(t)).outcome == Completed
    ensures ApplyAll(s, Process(s, name, content, Some(t)).effects)
         == s.(pdfs := s.pdfs[name := content], monthly := s.monthly[CsvName(name) := t],
               base := Some(Consolidate(s.base, t)), log := Some(AppendLine(s.log, name)))
  {
    CompletedSteps(s, name, content, t);
  }

  /** A document the log already holds: only its PDF is (re)written. */
  lemma ProcessKnown(s: StoreState, name: string, content: Bytes, table: Option<Table>)
    requires Processed(s.log, name)
    ensures Process(s, name, content, table).outcome == AlreadyProcessed
    ensures ApplyAll(s, Process(s, name, content, table).effects) == s.(pdfs := s.pdfs[name := content])
  {
    ApplyOne(s, SavePdf(name, content));
  }

  /** A document the log holds, whose PDF is already saved with the same bytes: processing changes nothing. */
  lemma ProcessKnownSaved(s: StoreState, name: string, content: Bytes, table: Option<Table>)
    requires Processed(s.log, name) && name in s.pdfs && s.pdfs[name] == content
    ensures Process(s, name, content, table).outcome == AlreadyProcessed
    ensures ApplyAll(s, Process(s, name, content, table).effects) == s
  {
    ProcessKnown(s, name, content, table);
    assert s.pdfs[name := content] == s.pdfs;
  }

  /** Processing the same document again after it completed finds it in the log and changes nothing. */
  lemma ProcessAgain(s: StoreState, name: string, content: Bytes, t: Table)
    requires !Processed(s.log, name) && WellFormed(s.log) && '\n' !in name
    ensures var s' := ApplyAll(s, Process(s, name, content, Some(t)).effects);
      && Process(s', name, content, Some(t)).outcome == AlreadyProcessed
      && ApplyAll(s', Process(s', name, content, Some(t)).effects) == s'
  {
    ProcessComplete(s, name, content, t);
    var s' := s.(pdfs := s.pdfs[name := content], monthly := s.monthly[CsvName(name) := t],
                 base := Some(Consolidate(s.base, t)), log := Some(AppendLine(s.log, name)));
    RecordedIsProcessed(s.log, name);
    ProcessKnownSaved(s', name, content, Some(t));
  }

  /** Processing again from the files left by a run cut off before its log write merges the table a second time. */
  lemma ProcessAfterCrash(s: StoreState, name: string, content: Bytes, t: Table)
    requires !Processed(s.log, name)
    ensures var crashed := ApplyAll(s, Process(s, name, content, Some(t)).effects[..3]);
      && crashed.log == s.log
      && crashed.base == Some(Consolidate(s.base, t))
      && Process(crashed, name, content, Some(t)).outcome == Completed
      && ApplyAll(crashed, Process(crashed, name, content, Some(t)).effects).base == Some(Consolidate(s.base, t + t))
  {
    CompletedSteps(s, name, content, t);
    var crashed := ApplyAll(s, Process(s, name, content, Some(t)).effects[..3]);
    ProcessComplete(crashed, name, content, t);
    MergeTwice(s.base, t, t);
  }

  // ---------------------------------------------------------------------------
  // Properties of one run

  /** Without a usable article or PDF address, or with a name that cannot be written, the run writes nothing. */
  lemma NothingWithoutDocument(s: StoreState, env: Env)
    requires !Locate(env).Found?
    ensures Step(s, env).outcome in {NoArticle, NoPdf, DownloadFailed}
    ensures After(s, env) == s
  {
  }

  /** A document already in the log is downloaded again (overwriting its PDF) and nothing else is written. */
  lemma AlreadyProcessedOnlySaves(s: StoreState, env: Env)
    requires Locate(env).Found? && Processed(s.log, Locate(env).name)
    ensures Step(s, env).outcome == AlreadyProcessed
    ensures After(s, env) == s.(pdfs := s.pdfs[Locate(env).name := Locate(env).content])
  {
    ProcessOnlySavesUnlessCompleted(s, Locate(env).name, Locate(env).content, Extracted(env));
  }

  /** A page the extractor cannot read leaves only the downloaded PDF behind. */
  lemma UnrecognizedOnlySaves(s: StoreState, env: Env)
    requires Locate(env).Found? && !Processed(s.log, Locate(env).name) && Extracted(env).None?
    ensures Step(s, env).outcome == UnrecognizedLayout
    ensures After(s, env) == s.(pdfs := s.pdfs[Locate(env).name := Locate(env).content])
  {
    ProcessOnlySavesUnlessCompleted(s, Locate(env).name, Locate(env).content, Extracted(env));
  }

  /** Only a completed run touches the log, the base or the monthly CSVs. */
  lemma OnlyCompletedWritesData(s: StoreState, env: Env)
    requires Step(s, env).outcome != Completed
    ensures After(s, env).log == s.log && After(s, env).base == s.base && After(s, env).monthly == s.monthly
  {
    if Locate(env).Found? {
      ProcessOnlySavesUnlessCompleted(s, Locate(env).name, Locate(env).content, Extracted(env));
    }
  }

  /** A completed run located a writable document not yet in the log, and its page gave a table. */
  lemma CompletedEffects(s: StoreState, env: Env)
    requires Step(s, env).outcome == Completed
    ensures Locate(env).Found? && !Processed(s.log, Locate(env).name) && Extracted(env).Some?
    ensures var d, t := Locate(env), Extracted(env).value;
      Step(s, env).effects == [SavePdf(d.name, d.content), SaveMonthly(CsvName(d.name), t), MergeBase(t), AppendLog(d.name)]
  {
    ProcessCompleted(s, Locate(env).name, Locate(env).content, Extracted(env));
  }

  /**
   * A completed run stores the PDF and the month's CSV under their names, appends
   * the table's rows to the base, and adds the document's name as the log's last line.
   */
  lemma CompletedRun(s: StoreState, env: Env)
    requires Step(s, env).outcome == Completed
    requires WellFormed(s.log) && (Locate(env).Found? ==> '\n' !in Locate(env).name)
    ensures Locate(env).Found? && Extracted(env).Some?
    ensures var d, t, s' := Locate(env), Extracted(env).value, After(s, env);
      && s'.pdfs == s.pdfs[d.name := d.content]
      && s'.monthly == s.monthly[CsvName(d.name) := t]
      && s'.base == Some(Consolidate(s.base, t))
      && LogLines(s'.log) == LogLines(s.log) + [d.name]
      && Processed(s'.log, d.name)
  {
    CompletedEffects(s, env);
    var d, t := Locate(env), Extracted(env).value;
    ProcessComplete(s, d.name, d.content, t);
    LinesOfAppend(s.log, d.name);
    RecordedIsProcessed(s.log, d.name);
  }

  /** The log and the base after each prefix of a completed run's writes. */
  lemma CompletedPrefix(s: StoreState, name: string, content: Bytes, t: Table, n: nat)
    ensures var es := [SavePdf(name, content), SaveMonthly(CsvName(name), t), MergeBase(t), AppendLog(name)];
      && (n < 4 ==> ApplyAll(s, es[..n]).log == s.log)
      && (3 <= n <= 4 ==> ApplyAll(s, es[..n]).base == Some(Consolidate(s.base, t)))
  {
    var es := [SavePdf(name, content), SaveMonthly(CsvName(name), t), MergeBase(t), AppendLog(name)];
    CompletedSteps(s, name, content, t);
    assert es[..4] == es;
  }

  /**
   * Crash consistency: the log is written last. After any proper prefix of a
   * completed run's writes the log is as before, so the next run processes the
   * document again; the log changes only once the base has been merged.
   */
  lemma LogWrittenLast(s: StoreState, env: Env, n: nat)
    requires Step(s, env).outcome == Completed
    ensures Locate(env).Found? && Extracted(env).Some? && |Step(s, env).effects| == 4
    ensures n < 4 ==> ApplyAll(s, Step(s, env).effects[..n]).log == s.log
    ensures 3 <= n <= 4 ==> ApplyAll(s, Step(s, env).effects[..n]).base == Some(Consolidate(s.base, Extracted(env).value))
  {
    CompletedEffects(s, env);
    var d, t := Locate(env), Extracted(env).value;
    CompletedPrefix(s, d.name, d.content, t, n);
  }

  /** Every run keeps the log well formed. */
  lemma StepKeepsLogWellFormed(s: StoreState, env: Env)
    requires WellFormed(s.log)
    ensures WellFormed(After(s, env).log)
  {
    if Step(s, env).outcome == Completed {
      CompletedEffects(s, env);
      var d := Locate(env);
      ProcessComplete(s, d.name, d.content, Extracted(env).value);
      AppendLineWellFormed(s.log, d.name);
    } else {
      OnlyCompletedWritesData(s, env);
    }
  }

  /** A run never forgets a document: the log before is a prefix of the log after, line by line. */
  lemma StepExtendsLog(s: StoreState, env: Env)
    requires WellFormed(s.log)
    ensures var before, after := LogLines(s.log), LogLines(After(s, env).log);
      |before| <= |after| && after[..|before|] == before
  {
    if Step(s, env).outcome == Completed {
      CompletedEffects(s, env);
      var d := Locate(env);
      ProcessComplete(s, d.name, d.content, Extracted(env).value);
      LinesOfRecord(s.log, d.name);
      var before := LogLines(s.log);
      assert (before + SplitOn(d.name, '\n'))[..|before|] == before;
    } else {
      OnlyCompletedWritesData(s, env);
    }
  }

  /**
   * Idempotence: once a run has completed, running again in the same environment
   * finds the document in the log, ends as `AlreadyProcessed`, and leaves every
   * file as it was (the PDF is overwritten with the same bytes).
   */
  lemma RerunChangesNothing(s: StoreState, env: Env)
    requires Step(s, env).outcome == Completed
    requires WellFormed(s.log) && (Locate(env).Found? ==> '\n' !in Locate(env).name)
    ensures Step(After(s, env), env).outcome == AlreadyProcessed
    ensures After(After(s, env), env) == After(s, env)
  {
    CompletedEffects(s, env);
    ProcessAgain(s, Locate(env).name, Locate(env).content, Extracted(env).value);
  }

  /**
   * At-least-once merging: if a completed run is cut off after the base was merged
   * but before the log was written, the next run merges the same table again, so
   * the base ends with its rows twice.
   */
  lemma CrashBeforeLogDuplicatesRows(s: StoreState, env: Env)
    requires Step(s, env).outcome == Completed
    ensures Locate(env).Found? && Extracted(env).Some?
    ensures var t, crashed := Extracted(env).value, ApplyAll(s, Step(s, env).effects[..3]);
      && Step(crashed, env).outcome == Completed
      && After(crashed, env).base == Some(Consolidate(s.base, t + t))
  {
    CompletedEffects(s, env);
    ProcessAfterCrash(s, Locate(env).name, Locate(env).content, Extracted(env).value);
  }

  // ---------------------------------------------------------------------------
  // The files, updated in place

  class Store {
    var log: Option<string>
    var base: Option<Table>
    var pdfs: map<string, Bytes>
    var monthly: map<string, Table>

    function State(): StoreState
      reads this
    {
      StoreState(log, base, pdfs, monthly)
    }

    /** The files as found on disk when the job starts. */
    constructor (initial: StoreState)
      ensures State() == initial
    {
      log := initial.log;
      base := initial.base;
      pdfs := initial.pdfs;
      monthly := initial.monthly;
    }

    /** `ya_procesado(name)`. */
    predicate IsProcessed(name: string)
      reads this
    {
      Processed(log, name)
    }

    /**
     * `descargar_pdf(url)` with `content` the body served at `url`: the document
     * is named by the last path segment and written to the PDF folder; `ok` is
     * false, and nothing is written, when that name cannot be a file.
     */
    method DownloadPdf(url: string, content: Bytes) returns (ok: bool, name: string)
      modifies this
      ensures name == DocumentName(url) && ok == Writable(name)
      ensures ok ==> State() == Apply(old(State()), SavePdf(name, content))
      ensures !ok ==> State() == old(State())
    {
      name := DocumentName(url);
      ok := Writable(name);
      if ok {
        pdfs := pdfs[name := content];
      }
    }

    /** `guardar_csv_mensual(table, name)`: the table goes to the CSV named after the PDF. */
    method SaveMonthlyCsv(name: string, table: Table) returns (csvName: string)
      modifies this
      ensures csvName == CsvName(name)
      ensures State() == Apply(old(State()), SaveMonthly(csvName, table))
    {
      csvName := CsvName(name);
      monthly := monthly[csvName := table];
    }

    /** `actualizar_base_consolidada(table)`. */
    method UpdateBase(table: Table)
      modifies this
      ensures State() == Apply(old(State()), MergeBase(table))
    {
      if base.None? {
        base := Some(table);
      } else {
        base := Some(base.value + table);
      }
    }

    /** `registrar_procesado(name)`. */
    method RecordProcessed(name: string)
      modifies this
      ensures State() == Apply(old(State()), AppendLog(name))
    {
      var text := if log.None? then [] else log.value;
      log := Some(text + name + "\n");
    }

    /** `main`: one run of the job, leaving the files as the writes `Step` lists, applied in order, leave them. */
    method Run(env: Env) returns (outcome: Outcome)
      modifies this
      ensures outcome == Step(old(State()), env).outcome
      ensures State() == After(old(State()), env)
    {
      ghost var s := State();
      var article := FindSpanishArticle(env.listing, env.join);
      if article.None? || article.value == [] {
        assert Locate(env) == NoArticleFound;
        return NoArticle;
      }
      var pdfUrl := ResolvePdf(env.articleLinks(article.value), env.join);
      if pdfUrl.None? || pdfUrl.value == [] {
        assert Locate(env) == NoPdfFound;
        return NoPdf;
      }
      var ok, name := DownloadPdf(pdfUrl.value, env.fetch(pdfUrl.value));
      if !ok {
        assert Locate(env).Unwritable?;
        return DownloadFailed;
      }
      ghost var content := env.fetch(pdfUrl.value);
      assert Locate(env) == Found(name, content);
      outcome := Finish(name, s, content, env);
    }

    /**
     * `main` once the document `name` is saved with bytes `content` over the store
     * `s`: `ya_procesado`, OCR of the saved file, extraction, then the monthly CSV,
     * the base merge and the log line.
     */
    method Finish(name: string, ghost s: StoreState, ghost content: Bytes, env: Env) returns (outcome: Outcome)
      requires State() == Apply(s, SavePdf(name, content))
      modifies this
      ensures outcome == Process(s, name, content, ExtractTable(env.ocr(content), env.now)).outcome
      ensures State() == ApplyAll(s, Process(s, name, content, ExtractTable(env.ocr(content), env.now)).effects)
    {
      ghost var table0 := ExtractTable(env.ocr(content), env.now);
      if IsProcessed(name) {
        ProcessKnown(s, name, content, table0);
        return AlreadyProcessed;
      }
      var text := env.ocr(pdfs[name]);
      var table := TextToTable(text, env.now);
      if table.None? {
        ProcessOnlySavesUnlessCompleted(s, name, content, table0);
        return UnrecognizedLayout;
      }
      var csvName := SaveMonthlyCsv(name, table.value);
      UpdateBase(table.value);
      RecordProcessed(name);
      ProcessComplete(s, name, content, table.value);
      return Completed;
    }
  }
}
