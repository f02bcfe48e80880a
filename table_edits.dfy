/** The table edits the client makes to a copy of one dataset before it
    stores the copy back: set one cell, build an empty row, splice a row out,
    renumber `_rowIndex`. Both the data hook and the management page make
    these edits; each runs them step by step and is proved against these
    functions. */
module TableEdits {
  import opened Wrappers
  import opened Schema
  import opened CsvProcessor

  /** `{ ...tableData[rowIndex], [columnKey]: value }` stored back at
      `rowIndex` when a row exists there (`tableData[rowIndex]` is truthy
      only then); the table unchanged otherwise. Only that one field of that
      one row changes. */
  function SetCell(table: seq<Row>, rowIndex: int, columnKey: string, value: string): (r: seq<Row>)
    ensures |r| == |table|
    ensures forall i :: 0 <= i < |table| && i != rowIndex ==> r[i] == table[i]
    ensures 0 <= rowIndex < |table| ==>
      r[rowIndex].fields.Keys == table[rowIndex].fields.Keys + {columnKey}
      && r[rowIndex].fields[columnKey] == value
      && (forall k :: k in table[rowIndex].fields && k != columnKey ==>
            r[rowIndex].fields[k] == table[rowIndex].fields[k])
      && r[rowIndex].rowIndex == table[rowIndex].rowIndex
      && r[rowIndex].validationError == table[rowIndex].validationError
    ensures !(0 <= rowIndex < |table|) ==> r == table
  {
    if 0 <= rowIndex < |table| then
      table[rowIndex := table[rowIndex].(fields := table[rowIndex].fields[columnKey := value])]
    else table
  }

  /** The row `addRow` builds: every schema header of the kind mapped to the
      empty string, and nothing else. */
  function BlankRow(kind: Kind): (r: Row)
    ensures forall h :: h in r.fields <==> h in Headers(kind)
    ensures forall h :: h in r.fields ==> r.fields[h] == ""
    ensures r.rowIndex == None && r.validationError == None
  {
    Row(map h | h in Headers(kind) :: "", None, None)
  }

  /** `tableData.splice(rowIndex, 1)` guarded by `0 <= rowIndex < length`:
      exactly the row at `rowIndex` is removed and the others keep their
      order; out of range, the table is unchanged. */
  function RemoveAt(table: seq<Row>, rowIndex: int): (r: seq<Row>)
    ensures 0 <= rowIndex < |table| ==>
      |r| == |table| - 1
      && (forall j :: 0 <= j < rowIndex ==> r[j] == table[j])
      && (forall j :: rowIndex <= j < |r| ==> r[j] == table[j + 1])
      && multiset(r) + multiset{table[rowIndex]} == multiset(table)
    ensures !(0 <= rowIndex < |table|) ==> r == table
  {
    if 0 <= rowIndex < |table| then
      assert table == table[..rowIndex] + [table[rowIndex]] + table[rowIndex + 1..];
      table[..rowIndex] + table[rowIndex + 1..]
    else table
  }

  /** The `forEach` that sets `row._rowIndex = index`: every row's position
      is recorded in it, and nothing else changes. */
  function Renumbered(table: seq<Row>): (r: seq<Row>)
    ensures |r| == |table|
    ensures forall i :: 0 <= i < |r| ==>
      r[i].rowIndex == Some(i) && r[i].fields == table[i].fields
      && r[i].validationError == table[i].validationError
  {
    seq(|table|, i requires 0 <= i < |table| => table[i].(rowIndex := Some(i)))
  }

  /** A row built by `addRow` passes `validateRowData`: it has every schema
      field, and its empty `Fuzzing-Idx` is not checked. So a freshly added
      row never blocks a save. */
  lemma BlankRowPasses(kind: Kind)
    ensures RowErrors(BlankRow(kind), kind) == []
  {
    var row := BlankRow(kind);
    MissingFieldErrorsExact(Headers(kind), row);
    assert !FuzzingIdxRejected(row, kind) by {
      if kind == Strings && "Fuzzing-Idx" in row.fields {
        assert row.fields["Fuzzing-Idx"] == "";
      }
    }
  }

  /** Setting a cell to the value it already holds gives the same table. */
  lemma SetCellSameValue(table: seq<Row>, rowIndex: int, columnKey: string)
    requires 0 <= rowIndex < |table| && columnKey in table[rowIndex].fields
    ensures SetCell(table, rowIndex, columnKey, table[rowIndex].fields[columnKey]) == table
  {
    var r := SetCell(table, rowIndex, columnKey, table[rowIndex].fields[columnKey]);
    assert r[rowIndex].fields == table[rowIndex].fields;
    assert r[rowIndex] == table[rowIndex];
  }

  /** Renumbering after a splice restores the invariant the parser sets up
      (`_rowIndex` is the position), whatever the indices were before. */
  lemma RenumberedIdempotent(table: seq<Row>)
    ensures Renumbered(Renumbered(table)) == Renumbered(table)
  {
    var r := Renumbered(table);
    var rr := Renumbered(r);
    forall i | 0 <= i < |r| ensures rr[i] == r[i] {
      assert rr[i].fields == r[i].fields && rr[i].rowIndex == r[i].rowIndex;
    }
  }
}
