# Monthly investor-report ingestion, modelled in Dafny

This project models the ingestion job in `ingestion/main.py`. One run of the job does the following:

1. It finds the first link on the bank's listing page that carries the investor marker and the name of any Spanish month. The current month is not checked, so an older month's article listed first is taken.
2. It finds the first PDF link on that article's page.
3. It downloads the PDF into the PDF folder, named after the last segment of its address.
4. It stops if that name is already in the processed log.
5. Otherwise it extracts a table from the OCR text of the first page.
6. It writes the month's CSV, appends the table's rows to the consolidated base, and finally records the PDF's name in the log.

The model has one module per part of the job:

| module | models |
|---|---|
| `Text` | the string operations the job relies on: `str.lower`, `str.strip`, `str.split` on one character, substring `in`, `str.replace` |
| `Locator` | the article locator and the PDF resolver; an HTML page is the sequence of its `href` values in document order |
| `Naming` | the document name (last `/` segment of the PDF address) and the monthly CSV name |
| `ProcessedLog` | the processed log `logs/procesados.txt`: its text, or `None` while the file does not exist |
| `Extractor` | `texto_a_dataframe`: line selection, `re.split(r"\s{2,}", …)` and the shape of the table |
| `Consolidation` | tables and the consolidated base: append after the existing rows, or start the base |
| `Pipeline` | `main` |

`Pipeline` specifies one run as a function, `Step`. `Step` takes the files before the run and the outside world (`Env`). It returns how the run ends and the ordered list of writes it makes. The class `Pipeline.Store` holds the files as fields. Its methods perform one write each. `Store.Run` is proved to leave the files as `Step`'s writes, applied in order, leave them, and to end with `Step`'s outcome.

The job writes the log last, after the base has been merged (`Pipeline.LogWrittenLast`). A run cut off between the merge and the log write therefore leaves the base changed and the log unchanged. The next run processes the same document again and merges its rows a second time (`Pipeline.CrashBeforeLogDuplicatesRows`). The base is merged at least once per document, not exactly once.

The outside world is not modelled, only passed in as parameters of `Env`:
- the listing page's links;
- the links of any article page;
- the bytes served at an address;
- the OCR text of a PDF;
- `urljoin`;
- today's timestamp.

## Model

| member | source | states |
|---|---|---|
| Text.IsSpace | ingestion/main.py:103-107 | the whitespace of `strip()` and `\s` on ASCII; used by Text.Strip and Extractor.Gap, and characterised through Text.StripOffset and Extractor.SplitFieldsGaps |
| Text.HasDigit | ingestion/main.py:106 | `re.search(r"\d", …)` finds a match: some character is an ASCII digit; characterised by Extractor.DropsDigitless and Extractor.KeptLineFields |
| Text.StartsWith | ingestion/main.py:40-58 | `startswith`: the text begins with the prefix; used by Locator.ArticleAddress, Locator.PdfAddress and Text.ReplaceAll |
| Text.Contains | ingestion/main.py:38-57 | the substring test `in`: the pattern occurs at some position; characterised by Text.OccursInConcat and Naming.CsvNameHasNoPdf |
| Text.OccursInConcat | ingestion/main.py:38-57 | a text placed between two others occurs in the concatenation right after the first |
| Text.Lower | ingestion/main.py:36 | the lower-cased link has the same length, and each character is the ASCII lower-case of the original's (other characters unchanged) |
| Text.SplitOn | ingestion/main.py:99 | `texto.split("\n")` yields at least one piece, and no piece contains the separator |
| Text.SplitJoin | ingestion/main.py:99 | splitting pieces joined by the separator gives back exactly those pieces |
| Text.JoinSplit | ingestion/main.py:99 | joining the pieces of a split with the separator gives back the original text |
| Text.Strip | ingestion/main.py:103 | `strip()` is empty exactly when the line is all whitespace, and otherwise neither starts nor ends with whitespace |
| Text.StripStripped | ingestion/main.py:103 | stripping a line with no outer whitespace returns it unchanged |
| Text.StripOffset | ingestion/main.py:103 | the stripped line is a run of consecutive characters of the original, and everything before and after that run is whitespace |
| Text.ReplaceAll | ingestion/main.py:122 | `str.replace`, left to right and without overlaps; characterised for ".pdf" by the Naming.CsvName lemmas |
| Locator.MentionsMonth | ingestion/main.py:39 | `any(mes in href for mes in meses_es)`: one of the twelve Spanish month names occurs in the link; part of the condition in Locator.SpanishArticleIsFirstMatch |
| Locator.IsSpanishArticle | ingestion/main.py:36-39 | the locator's filter: the lower-cased link contains "inversionistas-acciones" and a month name; characterised by Locator.SpanishArticleIsFirstMatch and Locator.AcceptedExample |
| Locator.ArticleAddress | ingestion/main.py:36-43 | the address kept for an accepted link: lower-cased, and joined to the base URL unless it starts with "http"; characterised by Locator.SpanishArticleIsFirstMatch and Locator.AcceptedExample |
| Locator.Candidates | ingestion/main.py:33-43 | the list `articulos_validos` after the loop; characterised by Locator.CandidatesFirst |
| Locator.SpanishArticle | ingestion/main.py:22-48 | what the locator returns; characterised by Locator.SpanishArticleIsFirstMatch |
| Locator.FindSpanishArticle | ingestion/main.py:32-48 | the loop over the links returns the locator's specified answer (`SpanishArticle`) |
| Locator.CandidatesFirst | ingestion/main.py:33-43 | the list of valid articles is empty exactly when no link qualifies; its first element is the address of the first qualifying link |
| Locator.SpanishArticleIsFirstMatch | ingestion/main.py:35-48 | `None` exactly when no link contains "inversionistas-acciones" and a Spanish month name (checked after lower-casing); otherwise the first such link, lower-cased and resolved unless it starts with "http" |
| Locator.SpanishArticleIgnoresLater | ingestion/main.py:45-46 | once a qualifying link is found, links after it never change the answer |
| Locator.FirstArticleExists | ingestion/main.py:45-46 | whenever some link qualifies, a first qualifying link exists at or before it |
| Locator.LocatorExample | ingestion/main.py:35-46 | a listing with an English link followed by a mixed-case Spanish March link gives the resolved, lower-cased Spanish address |
| Locator.AcceptedExample | ingestion/main.py:36-41 | a mixed-case Spanish article link is accepted, and its address is the lower-cased path joined to the base URL |
| Locator.LowerExample | ingestion/main.py:36 | lower-casing the mixed-case sample link yields the topical marker and the month "marzo" |
| Locator.LowerAppend | ingestion/main.py:36 | lower-casing a concatenation lower-cases each part |
| Locator.LowerPieces | ingestion/main.py:36 | the lower-casing of the sample link's mixed-case parts |
| Locator.LowerShortPieces | ingestion/main.py:36 | "Marzo" lower-cases to the month name; digits and punctuation are kept |
| Locator.PdfAddress | ingestion/main.py:56-59 | a PDF link's address: kept as written, and joined to the base URL unless it starts with "http"; characterised by Locator.FindPdf and Locator.ResolverExample |
| Locator.FindPdf | ingestion/main.py:55-62 | `None` exactly when no link contains ".pdf" (case-sensitive); otherwise the first such link, resolved unless it starts with "http" |
| Locator.ResolvePdf | ingestion/main.py:51-62 | the scan that returns at the first PDF link computes `FindPdf` |
| Locator.FindPdfIgnoresLater | ingestion/main.py:55-60 | links after the first PDF link never change the answer |
| Locator.ResolverExample | ingestion/main.py:55-60 | a page with a contact link and then a relative PDF link gives that PDF's resolved address |
| Naming.DocumentName | ingestion/main.py:81 | the name has no '/'; it is a suffix of the address; if shorter than the address, a '/' precedes it |
| Naming.DocumentNameOfPath | ingestion/main.py:81 | the last segment of `dir + "/" + name` is `name` |
| Naming.CsvName | ingestion/main.py:122 | the CSV name; determined by Naming.CsvNameWithoutPdf and Naming.CsvNameSplit |
| Naming.CsvNameSplit | ingestion/main.py:122 | in a name whose first ".pdf" follows the text `x`, that ".pdf" becomes ".csv", `x` is kept, and the rest is renamed on its own |
| Naming.CsvNameLength | ingestion/main.py:122 | replacing ".pdf" by ".csv" keeps the name's length |
| Naming.CsvNameWithoutPdf | ingestion/main.py:122 | a name without ".pdf" is kept unchanged |
| Naming.CsvNameHasNoPdf | ingestion/main.py:122 | no ".pdf" is left in the CSV name |
| Naming.CsvNameHead | ingestion/main.py:122 | the CSV name starts with the same character as the PDF name |
| Naming.CsvNamePrefix | ingestion/main.py:122 | any dot-free prefix of the CSV name is a prefix of the PDF name |
| Naming.CsvNameOfStem | ingestion/main.py:122 | `stem.pdf` becomes `stem.csv` for any stem without ".pdf" |
| Naming.CsvNameExample | ingestion/main.py:122 | "informe-marzo-2024.pdf" becomes "informe-marzo-2024.csv" |
| ProcessedLog.Lines | ingestion/main.py:70 | `splitlines()` on '\n': no line holds a line break, only the empty text has no lines, and joining the lines with '\n' and restoring a final '\n' gives the text back |
| ProcessedLog.Processed | ingestion/main.py:65-72 | `ya_procesado`; characterised by ProcessedLog.RecordedIsProcessed, ProcessedLog.RecordKeepsProcessed and ProcessedLog.WrittenProcessed |
| ProcessedLog.AppendLine | ingestion/main.py:75-77 | appending keeps the old text as a prefix, ends the text with the name and a newline, and adds nothing else (the length grows by the name plus one) |
| ProcessedLog.AppendLineWellFormed | ingestion/main.py:75-77 | after an append the log ends in a newline |
| ProcessedLog.LinesOfRecord | ingestion/main.py:65-77 | recording any name adds its '\n'-separated pieces as the log's new last lines; the old lines are unchanged |
| ProcessedLog.LinesTerminated | ingestion/main.py:70 | a text ending in a newline has the lines of the text before it |
| ProcessedLog.LinesOfTerminatedConcat | ingestion/main.py:70-77 | appending to a text that ends in a newline adds the appended text's lines after the old ones |
| ProcessedLog.LinesOfAppend | ingestion/main.py:65-77 | a name without line breaks becomes the log's new last line, and the old lines are unchanged |
| ProcessedLog.RecordedIsProcessed | ingestion/main.py:65-77 | a name just recorded is reported as processed |
| ProcessedLog.RecordKeepsProcessed | ingestion/main.py:65-77 | recording any name never un-processes another |
| ProcessedLog.RecordTwiceSameAnswers | ingestion/main.py:65-77 | recording the same name, of any content, twice answers every query as recording it once does |
| ProcessedLog.WrittenWellFormed | ingestion/main.py:75-77 | a log written only by appends is well formed |
| ProcessedLog.WrittenLines | ingestion/main.py:65-77 | a log written by appending names has exactly those names as its lines, in order |
| ProcessedLog.WrittenSnoc | ingestion/main.py:65-77 | recording one more name adds it as the last line |
| ProcessedLog.WrittenProcessed | ingestion/main.py:65-77 | in such a log a name is processed exactly when it was one of the names appended |
| ProcessedLog.ProcessedExample | ingestion/main.py:65-72 | a missing log processes nothing; a log of one line processes that line's name |
| Extractor.FirstRun | ingestion/main.py:107 | the position of the leftmost run of two or more whitespace characters, with no such run before it |
| Extractor.SplitFields | ingestion/main.py:107 | `re.split(r"\s{2,}", line)` yields at least one field, and no field contains two consecutive whitespace characters |
| Extractor.FieldsOfStripped | ingestion/main.py:103-107 | the fields of a stripped line are non-empty and unpadded |
| Extractor.SplitJoinFields | ingestion/main.py:107 | unpadded fields without double whitespace, separated by gaps of two or more whitespace characters, each gap of its own width, split back into the same fields |
| Extractor.SplitFieldsGaps | ingestion/main.py:107 | conversely, every line is its fields with gaps of two or more whitespace characters put back between them: the fields are exactly the text between the gaps |
| Extractor.InterleaveStartsWith | ingestion/main.py:107 | a line of fields and gaps starts with its first field |
| Extractor.InterleaveEndsWith | ingestion/main.py:107 | a line of fields and gaps ends with its last field's last character |
| Extractor.FieldsOfJoined | ingestion/main.py:103-107 | stripping and splitting such a line, whatever its gap widths, gives back its fields |
| Extractor.Fields | ingestion/main.py:103-107 | a line's fields: `re.split(r"\s{2,}", line.strip())`; characterised by Extractor.FieldsOfJoined and Extractor.SplitFieldsGaps |
| Extractor.Keeps | ingestion/main.py:103-110 | the line filter; characterised by Extractor.KeptLineFields and Extractor.DropsDigitless |
| Extractor.KeptRows | ingestion/main.py:102-110 | the list `datos` after the loop; characterised by Extractor.KeptRowsAppend, Extractor.KeptRowsOfLine, Extractor.KeptRowsOrigin and Extractor.KeptRowsEmpty |
| Extractor.KeptRowsAppend | ingestion/main.py:102-110 | the rows come in line order: two blocks of lines give the first block's rows, then the second's |
| Extractor.KeptRowsOfLine | ingestion/main.py:103-110 | a line contributes its fields exactly when it holds a digit after stripping and splits into at least two fields |
| Extractor.KeptRowsSnoc | ingestion/main.py:102-110 | seeing one more line appends its fields when it is kept, and nothing otherwise |
| Extractor.KeptRowsEmpty | ingestion/main.py:102-113 | no rows survive exactly when no line is kept |
| Extractor.KeptRowsOrigin | ingestion/main.py:102-110 | every row is the fields of some kept line |
| Extractor.KeptLineFields | ingestion/main.py:103-110 | a kept line holds a digit and has at least two non-empty, unpadded fields |
| Extractor.RowsAreClean | ingestion/main.py:102-110 | every row has at least two unpadded fields with no double whitespace |
| Extractor.DropsDigitless | ingestion/main.py:106 | a line without digits is never kept |
| Extractor.MaxWidth | ingestion/main.py:115 | the table's width bounds every row and is reached by some row (0 for no rows) |
| Extractor.Frame | ingestion/main.py:115-116 | one table row per data row, all as wide as the widest plus one; a row's fields first, then missing cells, then the timestamp |
| Extractor.ExtractTable | ingestion/main.py:98-118 | what `texto_a_dataframe` returns; characterised by Extractor.ExtractNoneIff and Extractor.ExtractShape |
| Extractor.TextToTable | ingestion/main.py:98-118 | the loop over the lines computes the specified table (`ExtractTable`) |
| Extractor.ExtractNoneIff | ingestion/main.py:98-113 | the extractor answers `None` exactly when no line of the text is kept |
| Extractor.ExtractShape | ingestion/main.py:98-118 | a returned table is non-empty with one row per kept line; each row has at least three cells, its fields first and the timestamp last; some row is exactly its fields plus the timestamp |
| Extractor.ExtractExample | ingestion/main.py:98-118 | "Total   100  200\nfooter\n" (gaps of three and two spaces) gives one row with the cells "Total", "100", "200" and the timestamp |
| Extractor.ExampleLines | ingestion/main.py:99 | that text splits into the data line, the footer and an empty last piece |
| Extractor.ExampleRowLayout | ingestion/main.py:107 | that data line is its three fields with gaps of three and two spaces |
| Extractor.ExampleRowParts | ingestion/main.py:107 | those fields are unpadded and those gaps are gaps |
| Extractor.ExampleRow | ingestion/main.py:103-110 | its data line is kept, with three fields |
| Extractor.ExampleKept | ingestion/main.py:102-110 | of its lines only the data line survives |
| Extractor.ExampleFrame | ingestion/main.py:115-116 | a single three-field row becomes one row of four cells |
| Consolidation.Consolidate | ingestion/main.py:128-135 | without a base the result is the new table; otherwise the base's rows followed by the new table's rows |
| Consolidation.MergeTwice | ingestion/main.py:128-135 | two merges in a row equal one merge of both tables' rows in order |
| Consolidation.MergeTwiceFromNothing | ingestion/main.py:128-135 | two merges into a missing base give the first table's rows, then the second's |
| Consolidation.HistoryIsConcat | ingestion/main.py:128-135 | after any sequence of merges the base holds every merged row, oldest first, with nothing dropped or reordered |
| Pipeline.Apply | ingestion/main.py:76-135 | the store after one of the job's four writes (log append 76-77, PDF 85-86, monthly CSV 124, base 135); characterised by Pipeline.ApplyWrites |
| Pipeline.ApplyWrites | ingestion/main.py:76-135 | each write changes only its own file and keeps the other three. Appending to the log (76-77) makes it the old text followed by the name and a newline, keeps it well formed, and adds the name's pieces as its last lines. Saving a PDF (85-86) or the month's CSV (124) stores the file so that it reads back as written, and keeps every other file in that folder. Merging (135) makes the base `Consolidate` of the old base and the table: the old rows followed by the table's rows |
| Pipeline.Process | ingestion/main.py:153-177 | `main` after the download; characterised by Pipeline.ProcessCompleted, Pipeline.ProcessComplete, Pipeline.ProcessKnown and Pipeline.ProcessOnlySavesUnlessCompleted |
| Pipeline.Step | ingestion/main.py:138-177 | one run of `main`; characterised by Pipeline.NothingWithoutDocument, Pipeline.CompletedEffects, Pipeline.OnlyCompletedWritesData and the other Step lemmas |
| Pipeline.ProcessCompleted | ingestion/main.py:155-175 | a completed run had a document not in the log and a table, and made the four writes in order: PDF, monthly CSV, base, log |
| Pipeline.ProcessOnlySavesUnlessCompleted | ingestion/main.py:153-167 | unless it completes, processing only (re)writes the PDF |
| Pipeline.ProcessComplete | ingestion/main.py:153-175 | a document not yet in the log, with a table, completes; the PDF and CSV are stored, the base is merged and the name appended to the log |
| Pipeline.ProcessKnown | ingestion/main.py:153-157 | a document the log holds ends as "already processed", only its PDF rewritten |
| Pipeline.ProcessKnownSaved | ingestion/main.py:153-157 | a document the log holds, whose PDF is already saved with the same bytes, changes nothing |
| Pipeline.ProcessAgain | ingestion/main.py:153-175 | processing the same document again after it completed finds it in the log and changes nothing |
| Pipeline.ProcessAfterCrash | ingestion/main.py:170-175 | after a run cut off before its log write, the log is unchanged, the base is merged, and processing again completes and merges the table a second time |
| Pipeline.Writable | ingestion/main.py:82-85 | a name `open(os.path.join(PDF_FOLDER, name), "wb")` can create: not empty, "." or ".."; used by Pipeline.Locate and Pipeline.Store.DownloadPdf |
| Pipeline.Locate | ingestion/main.py:140-153 | the run stops for want of an article exactly when the locator returns nothing or an empty address, and for want of a PDF exactly when there is an article and the resolver returns nothing or an empty address; otherwise the document is named `DocumentName` of the resolved address, is found exactly when that name is writable, and then its bytes are those fetched from that address |
| Pipeline.NothingWithoutDocument | ingestion/main.py:140-153 | without an article, a PDF address or a writable name, the run ends early and writes nothing |
| Pipeline.AlreadyProcessedOnlySaves | ingestion/main.py:153-157 | a document already in the log is downloaded again (its PDF overwritten) and nothing else is written |
| Pipeline.UnrecognizedOnlySaves | ingestion/main.py:159-167 | a page the extractor cannot read leaves only the downloaded PDF behind |
| Pipeline.OnlyCompletedWritesData | ingestion/main.py:138-177 | only a completed run changes the log, the base or the monthly CSVs |
| Pipeline.CompletedEffects | ingestion/main.py:153-175 | a completed run writes, in this order: the PDF, the month's CSV (named by `CsvName`), the base merge and the log line |
| Pipeline.CompletedSteps | ingestion/main.py:153-175 | the files after each prefix of a completed run's writes |
| Pipeline.CompletedRun | ingestion/main.py:153-175 | after a completed run the PDF and CSV are stored under their names, the base is the old base followed by the table, and the name is the log's new last line |
| Pipeline.CompletedPrefix | ingestion/main.py:169-175 | after each proper prefix of a completed run's writes the log is unchanged; after the merge the base is merged |
| Pipeline.LogWrittenLast | ingestion/main.py:169-175 | the log is written last: after any proper prefix of the writes it is unchanged, and once it changes the base has been merged |
| Pipeline.StepKeepsLogWellFormed | ingestion/main.py:138-177 | every run keeps the log ending in a newline |
| Pipeline.StepExtendsLog | ingestion/main.py:138-177 | a run never removes or reorders log lines, whatever the document's name |
| Pipeline.RerunChangesNothing | ingestion/main.py:153-157 | after a completed run, running again in the same environment ends as "already processed" and leaves every file as it was |
| Pipeline.CrashBeforeLogDuplicatesRows | ingestion/main.py:170-175 | if a run stops after the merge but before the log write, the next run completes again and the base holds the table's rows twice |
| Pipeline.Store.constructor | ingestion/main.py:13-16 | the store starts as the files found on disk |
| Pipeline.Store.IsProcessed | ingestion/main.py:65-72 | `ya_procesado` on the store's log; it is ProcessedLog.Processed of the current log |
| Pipeline.Store.DownloadPdf | ingestion/main.py:80-88 | the document is named by the last URL segment and saved in the PDF folder; nothing is written when that name cannot be a file |
| Pipeline.Store.SaveMonthlyCsv | ingestion/main.py:121-125 | the table is stored under the CSV name, and nothing else changes |
| Pipeline.Store.UpdateBase | ingestion/main.py:128-135 | the base becomes the merge of the old base and the table, and nothing else changes |
| Pipeline.Store.RecordProcessed | ingestion/main.py:75-77 | the log gets the line appended, and nothing else changes |
| Pipeline.Store.Finish | ingestion/main.py:155-175 | after the download, the outcome and the files are exactly what `Process` specifies |
| Pipeline.Store.Run | ingestion/main.py:138-177 | the outcome is `Step`'s outcome, and the files end as `Step`'s writes, applied in order, leave them |

## Left out

- HTTP (`requests.get`) is not modelled: a page is its links, and a download is the bytes `Env.fetch` returns. Transport errors, status codes and timeouts are not modelled; a fetch always yields bytes.
- HTML parsing with BeautifulSoup and `lxml` is not modelled: `find_all("a", href=True)` becomes the input sequence of `href` values.
- `urljoin` is the parameter `Env.join`; its resolution rules are not modelled.
- `pdf2image` and Tesseract OCR are not modelled: `Env.ocr` maps the saved PDF's bytes to text. Their failures (an unreadable PDF, no pages) are not modelled.
- Clock: `pd.Timestamp.today()` is the text `Env.now`.
- Several pandas behaviours are not modelled:
  - a cell is a string or missing; dtypes and the `fecha_proceso` column label are not kept;
  - `concat` aligning columns by label, when two months' tables have different widths;
  - the CSV round trip through `to_csv`/`read_csv`: quoting, type inference, and the header row turning column labels into strings.
- Consolidation.Consolidate: appends rows as they are and does not widen or re-label columns, because the pandas behaviours above are not modelled.
- Unicode: `lower`, `strip`, `\s` and `\d` are modelled on ASCII only.
  - `IsSpace` is exactly the ASCII part of Python's whitespace: what `str.isspace`, `str.strip` and the Unicode `\s` of `re` accept below U+0080, which includes U+001C to U+001F.
  - Non-ASCII letters, digits and spaces are not modelled.
- ProcessedLog.LinesOfAppend: `splitlines` is modelled with '\n' as the only line boundary. Files written only by this job contain no other boundary, except inside a name.
  - A document name containing a line break is recorded as several lines and is never recognised as processed.
  - ProcessedLog.LinesOfRecord, ProcessedLog.RecordKeepsProcessed, ProcessedLog.RecordTwiceSameAnswers and Pipeline.StepExtendsLog hold for every name.
  - The members that promise the name is recognised require `'\n' !in name` (or of every recorded name): ProcessedLog.LinesOfAppend, ProcessedLog.RecordedIsProcessed, ProcessedLog.WrittenLines, ProcessedLog.WrittenSnoc, ProcessedLog.WrittenProcessed, Pipeline.ProcessAgain, Pipeline.CompletedRun and Pipeline.RerunChangesNothing.
- ProcessedLog.WellFormed: the log lemmas assume the log is absent, empty, or ends in '\n'. Pipeline.StepKeepsLogWellFormed shows every run keeps it so. A log edited by hand so that it lacks a final newline breaks this: the next name would be glued to its last line.
- Pipeline.Locate: opening `data_raw/pdf/<name>` for writing fails when the name is empty, "." or "..". Its exception is the outcome `DownloadFailed` with nothing written. Other file-system failures (permissions, full disk) are not modelled.
- Terminal output (`print`) is not modelled; each message becomes the matching `Outcome`.
- `os.makedirs` at import (lines 18-20) is not modelled. Those lines create `data_raw/pdf/`, `data_raw/csv_mensual/` and `logs`, and the model takes them to exist.
- `data_processed/` is never created by the job, and the model assumes it exists: `MergeBase` always succeeds. Without that folder, `base.to_csv(BASE_CONSOLIDADA, …)` (line 135) raises on the first run that reaches it.
  - By then the PDF (85-86) and the month's CSV (124) have been written, and `registrar_procesado` (175) has not run.
  - The base and the log stay unchanged, so every later run makes the same writes and fails at the same point.
- Concurrency: two runs executing at the same time are not modelled; runs are sequential.
