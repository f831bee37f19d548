/**
 * The processed-set log `logs/procesados.txt`: one document identity per line.
 * The file is modelled by its text, `None` while it does not exist.
 */
module ProcessedLog {
  import opened Wrappers
  import opened Text

  /**
   * `text.splitlines()`, with '\n' as the only line boundary: the lines hold no
   * line break, and joining them with '\n' (and restoring a final '\n') gives
   * the text back.
   */
  function Lines(text: string): (r: seq<string>)
    ensures forall k :: 0 <= k < |r| ==> '\n' !in r[k]
    ensures text == [] <==> r == []
    ensures text != [] ==> Join(r, "\n") + (if Last(text) == '\n' then "\n" else "") == text
  {
    if text == [] then []
    else if Last(text) == '\n' then
      JoinSplit(text[..|text| - 1], '\n');
      assert text == text[..|text| - 1] + "\n";
      SplitOn(text[..|text| - 1], '\n')
    else
      JoinSplit(text, '\n');
      SplitOn(text, '\n')
  }

  /** The lines of the log; an absent log has none. */
  function LogLines(log: Option<string>): seq<string> {
    if log.None? then [] else Lines(log.value)
  }

  /** `ya_procesado(name)`: the log exists and one of its lines is exactly `name`. */
  predicate Processed(log: Option<string>, name: string) {
    log.Some? && name in Lines(log.value)
  }

  /** Every write so far ended its line: the state a log written only by `AppendLine` is in. */
  predicate WellFormed(log: Option<string>) {
    log.None? || log.value == [] || Last(log.value) == '\n'
  }

  /**
   * `registrar_procesado(name)`: the text of the log after opening it for append
   * (creating it when absent) and writing `name` followed by a newline.
   */
  function AppendLine(log: Option<string>, name: string): (r: string)
    ensures log.Some? ==> |log.value| <= |r| && r[..|log.value|] == log.value
    ensures |name| + 1 <= |r| && r[|r| - |name| - 1..] == name + "\n"
    ensures |r| == (if log.None? then 0 else |log.value|) + |name| + 1
  {
    (if log.None? then [] else log.value) + name + "\n"
  }

  /** Appending keeps the log well formed. */
  lemma AppendLineWellFormed(log: Option<string>, name: string)
    ensures WellFormed(Some(AppendLine(log, name)))
  {
  }

  /** A text ending in a newline has the lines of the text before that newline. */
  lemma LinesTerminated(u: string)
    ensures Lines(u + "\n") == SplitOn(u, '\n')
  {
    assert (u + "\n")[..|u|] == u;
  }

  /** Text ending in a line break, followed by more text: the lines of both. */
  lemma LinesOfTerminatedConcat(t: string, name: string)
    requires t != [] && Last(t) == '\n'
    ensures Lines(t + name + "\n") == Lines(t) + SplitOn(name, '\n')
  {
    var x := t[..|t| - 1];
    assert t == x + ['\n'];
    LinesTerminated(x + ['\n'] + name);
    assert t + name + "\n" == (x + ['\n'] + name) + "\n";
    SplitOnConcat(x, '\n', name);
  }

  /**
   * Recording a name adds the pieces of the name between its line breaks as new
   * lines (one line when it has none); the old lines stay as they were.
   */
  lemma LinesOfRecord(log: Option<string>, name: string)
    ensures WellFormed(log) ==> LogLines(Some(AppendLine(log, name))) == LogLines(log) + SplitOn(name, '\n')
  {
    if !WellFormed(log) {
    } else if log.None? || log.value == [] {
      assert AppendLine(log, name) == name + "\n";
      LinesTerminated(name);
    } else {
      assert AppendLine(log, name) == log.value + name + "\n";
      LinesOfTerminatedConcat(log.value, name);
    }
  }

  /** Recording a name without line breaks adds exactly that one line; the old lines stay as they were. */
  lemma LinesOfAppend(log: Option<string>, name: string)
    requires WellFormed(log)
    requires '\n' !in name
    ensures LogLines(Some(AppendLine(log, name))) == LogLines(log) + [name]
  {
    LinesOfRecord(log, name);
    SplitOnWithout(name, '\n');
  }

  /** After `registrar_procesado(name)`, `ya_procesado(name)` holds. */
  lemma RecordedIsProcessed(log: Option<string>, name: string)
    requires WellFormed(log)
    requires '\n' !in name
    ensures Processed(Some(AppendLine(log, name)), name)
  {
    LinesOfAppend(log, name);
  }

  /** Recording any name leaves every earlier answer true. */
  lemma RecordKeepsProcessed(log: Option<string>, name: string, other: string)
    requires WellFormed(log)
    requires Processed(log, other)
    ensures Processed(Some(AppendLine(log, name)), other)
  {
    LinesOfRecord(log, name);
  }

  /** Recording the same name twice answers every query as recording it once does. */
  lemma RecordTwiceSameAnswers(log: Option<string>, name: string, query: string)
    requires WellFormed(log)
    ensures Processed(Some(AppendLine(Some(AppendLine(log, name)), name)), query)
        <==> Processed(Some(AppendLine(log, name)), query)
  {
    LinesOfRecord(log, name);
    AppendLineWellFormed(log, name);
    LinesOfRecord(Some(AppendLine(log, name)), name);
  }

  /** The log after recording `names` in order, starting from no file. */
  function Written(names: seq<string>): Option<string> {
    if names == [] then None
    else Some(AppendLine(Written(names[..|names| - 1]), Last(names)))
  }

  /** A log built by recording names is well formed. */
  lemma WrittenWellFormed(names: seq<string>)
    ensures WellFormed(Written(names))
  {
    if names != [] {
      AppendLineWellFormed(Written(names[..|names| - 1]), Last(names));
    }
  }

  /** A log built by recording names reads back as exactly those names, in order. */
  lemma {:induction false} WrittenLines(names: seq<string>)
    requires forall k :: 0 <= k < |names| ==> '\n' !in names[k]
    ensures LogLines(Written(names)) == names
    decreases |names|
  {
    if names != [] {
      var init, name := names[..|names| - 1], Last(names);
      WrittenLines(init);
      WrittenWellFormed(init);
      assert names == init + [name];
      WrittenSnoc(init, name);
    }
  }

  /** Recording one more name adds it as the last line. */
  lemma WrittenSnoc(init: seq<string>, name: string)
    requires LogLines(Written(init)) == init && WellFormed(Written(init)) && '\n' !in name
    ensures LogLines(Written(init + [name])) == init + [name]
  {
    var names := init + [name];
    assert names[..|names| - 1] == init;
    LinesOfAppend(Written(init), name);
  }

  /** Hence a name is processed in such a log exactly when it was recorded. */
  lemma WrittenProcessed(names: seq<string>, query: string)
    requires forall k :: 0 <= k < |names| ==> '\n' !in names[k]
    ensures Processed(Written(names), query) <==> query in names
  {
    WrittenLines(names);
  }

  /** A log holding "report-2024-03.pdf" answers yes for that identity; a missing log answers no. */
  lemma ProcessedExample()
    ensures Processed(Some("report-2024-03.pdf\n"), "report-2024-03.pdf")
    ensures !Processed(None, "report-2024-03.pdf")
  {
    RecordedIsProcessed(None, "report-2024-03.pdf");
    assert AppendLine(None, "report-2024-03.pdf") == "report-2024-03.pdf\n";
  }
}
