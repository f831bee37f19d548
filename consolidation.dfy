/**
 * Tables and the consolidated base `data_processed/base_consolidada.csv`.
 * A table is its rows; a cell is a text field or a missing value. Merging a
 * month's table appends its rows after the history (or starts the history
 * with them when the base file does not exist yet).
 */
module Consolidation {
  import opened Wrappers
  import opened Text

  type Cell = Option<string>
  type Row = seq<Cell>
  type Table = seq<Row>

  /** The base after `actualizar_base_consolidada(incoming)`, given the base before (`None`: no file yet). */
  function Consolidate(base: Option<Table>, incoming: Table): (r: Table)
    ensures base.None? ==> r == incoming
    ensures base.Some? ==> |r| == |base.value| + |incoming|
                           && r[..|base.value|] == base.value && r[|base.value|..] == incoming
  {
    if base.None? then incoming else base.value + incoming
  }

  /** Merging T1 then T2 into an absent base gives T1's rows followed by T2's. */
  lemma MergeTwiceFromNothing(t1: Table, t2: Table)
    ensures Consolidate(Some(Consolidate(None, t1)), t2) == t1 + t2
  {
  }

  /** Two merges in a row equal one merge of the two tables' rows in order. */
  lemma MergeTwice(base: Option<Table>, t1: Table, t2: Table)
    ensures Consolidate(Some(Consolidate(base, t1)), t2) == Consolidate(base, t1 + t2)
  {
    if base.Some? {
      assert base.value + t1 + t2 == base.value + (t1 + t2);
    }
  }

  /** The base after merging `tables` one run after another, starting from no file. */
  function History(tables: seq<Table>): Option<Table> {
    if tables == [] then None
    else Some(Consolidate(History(tables[..|tables| - 1]), Last(tables)))
  }

  /** All the rows of `tables`, in order. */
  function Concat(tables: seq<Table>): Table {
    if tables == [] then [] else Concat(tables[..|tables| - 1]) + Last(tables)
  }

  /** The base holds every merged row, oldest run first, with nothing dropped, sorted or deduplicated. */
  lemma {:induction false} HistoryIsConcat(tables: seq<Table>)
    requires tables != []
    ensures History(tables) == Some(Concat(tables))
    decreases |tables|
  {
    var init := tables[..|tables| - 1];
    if init == [] {
      assert History(init) == None && Concat(init) == [];
      assert Concat(tables) == [] + Last(tables) == Last(tables);
    } else {
      HistoryIsConcat(init);
    }
  }
}
