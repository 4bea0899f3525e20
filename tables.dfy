/**
 * The shape of the table data the extractors walk: a list of tables, each a list of rows,
 * each a list of cells, where a cell is a string or `None` (an empty cell of the PDF table).
 */
module Tables {
  import opened Wrappers

  type Cell = Option<string>
  type Row = seq<Cell>
  type Table = seq<Row>

  /** Python truthiness of a cell: present and non-empty. */
  predicate Truthy(c: Cell) {
    c.Some? && c.value != ""
  }

  /** Every row of every table, in the order the nested `for` loops visit them. */
  function AllRows(tables: seq<Table>): seq<Row> {
    if tables == [] then []
    else AllRows(tables[..|tables| - 1]) + tables[|tables| - 1]
  }

  /** Moving the outer loop on by one table appends that table's rows. */
  lemma AllRowsStep(tables: seq<Table>, i: nat)
    requires i < |tables|
    ensures AllRows(tables[..i + 1]) == AllRows(tables[..i]) + tables[i]
  {
    assert tables[..i + 1][..i] == tables[..i];
  }

  /** Visiting the rows table by table visits each row of the input. */
  lemma {:induction false} AllRowsMembers(tables: seq<Table>, t: nat, k: nat)
    requires t < |tables| && k < |tables[t]|
    ensures tables[t][k] in AllRows(tables)
  {
    var last := |tables| - 1;
    if t < last {
      assert tables[..last][t] == tables[t];
      AllRowsMembers(tables[..last], t, k);
    }
  }

  /**
   * The value of the last row for which `pick` yields one: what a scan that overwrites its
   * result at every such row holds at the end.
   */
  function LastMatch<T>(rows: seq<Row>, pick: Row -> Option<T>): Option<T> {
    if rows == [] then None
    else if pick(rows[|rows| - 1]).Some? then pick(rows[|rows| - 1])
    else LastMatch(rows[..|rows| - 1], pick)
  }

  /** `LastMatch` is empty exactly when no row yields a value, and otherwise is the last one's. */
  lemma {:induction false} LastMatchIsLast<T>(rows: seq<Row>, pick: Row -> Option<T>)
    ensures LastMatch(rows, pick).None? <==> forall k :: 0 <= k < |rows| ==> pick(rows[k]).None?
    ensures LastMatch(rows, pick).Some? ==>
              exists k :: 0 <= k < |rows| && pick(rows[k]) == LastMatch(rows, pick)
                          && forall j :: k < j < |rows| ==> pick(rows[j]).None?
  {
    if rows != [] {
      var last := |rows| - 1;
      if pick(rows[last]).None? {
        LastMatchIsLast(rows[..last], pick);
        assert forall k :: 0 <= k < last ==> rows[..last][k] == rows[k];
      }
    }
  }

  /** One more row: it wins when it yields a value, otherwise nothing changes. */
  lemma LastMatchStep<T>(rows: seq<Row>, row: Row, pick: Row -> Option<T>)
    ensures LastMatch(rows + [row], pick) == if pick(row).Some? then pick(row) else LastMatch(rows, pick)
  {
    assert (rows + [row])[..|rows|] == rows;
  }

  /** A row that yields nothing can be removed from anywhere without changing the result. */
  lemma {:induction false} LastMatchIgnores<T>(before: seq<Row>, row: Row, after: seq<Row>, pick: Row -> Option<T>)
    requires pick(row).None?
    ensures LastMatch(before + [row] + after, pick) == LastMatch(before + after, pick)
    decreases |after|
  {
    if after == [] {
      assert before + [row] + after == before + [row];
      assert before + after == before;
      LastMatchStep(before, row, pick);
    } else {
      var init := after[..|after| - 1];
      var x := after[|after| - 1];
      assert before + [row] + after == (before + [row] + init) + [x];
      assert before + after == (before + init) + [x];
      LastMatchStep(before + [row] + init, x, pick);
      LastMatchStep(before + init, x, pick);
      LastMatchIgnores(before, row, init, pick);
    }
  }

  /** The dictionary entry `key` exists exactly when `found` holds a value, and then holds it. */
  predicate Reports(info: map<string, string>, key: string, found: Option<string>) {
    (key in info <==> found.Some?) && (found.Some? ==> info[key] == found.value)
  }
}
