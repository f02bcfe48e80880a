/** The client's data hook: a copy of the session record, the set of edited
    cell keys and the unsaved-changes flag, with the edits that change them
    and the resets after a successful save or clear. The server calls
    themselves are left out; their replies are parameters. */
module UseCsvData {
  import opened Wrappers
  import opened JsText
  import opened Schema
  import opened CsvController
  import opened TableEdits

  /** `${tableType}-${rowIndex}-${columnKey}`, the key of an edited cell. */
  function CellKey(kind: Kind, rowIndex: int, columnKey: string): string {
    KindName(kind) + "-" + IntToString(rowIndex) + "-" + columnKey
  }

  /** A run of digits ends at the first `-`, so a digit prefix and the text
      after its dash are recovered from the concatenation. */
  lemma DigitsThenDash(a: string, x: string, b: string, y: string)
    requires forall i :: 0 <= i < |a| ==> IsDecimalDigit(a[i])
    requires forall i :: 0 <= i < |b| ==> IsDecimalDigit(b[i])
    requires a + "-" + x == b + "-" + y
    ensures a == b && x == y
  {
    var s := a + "-" + x;
    assert |a| == |b| by {
      DashAfterDigits(a, x, b, y);
      DashAfterDigits(b, y, a, x);
    }
    assert a == s[..|a|] == b;
    assert x == s[|a| + 1..] == y;
  }

  /** The dash after a digit run is not inside another digit run. */
  lemma DashAfterDigits(a: string, x: string, b: string, y: string)
    requires forall i :: 0 <= i < |b| ==> IsDecimalDigit(b[i])
    requires a + "-" + x == b + "-" + y
    ensures |a| >= |b|
  {
    var s := a + "-" + x;
    assert |a| < |s| && s[|a|] == '-';
  }

  /** The table name in front of a key is recovered from it: the names
      start with different letters. */
  lemma KindPrefix(k1: Kind, u: string, k2: Kind, v: string)
    requires (KindName(k1) + "-") + u == (KindName(k2) + "-") + v
    ensures k1 == k2 && u == v
  {
    var s := (KindName(k1) + "-") + u;
    assert s[0] == KindName(k1)[0] && s[0] == KindName(k2)[0];
    assert KindName(Strings)[0] == 's' && KindName(Classifications)[0] == 'c';
    assert u == s[|KindName(k1) + "-"|..];
  }

  /** A key for a non-negative position splits at the two dashes. */
  lemma CellKeySplit(kind: Kind, rowIndex: nat, columnKey: string)
    ensures CellKey(kind, rowIndex, columnKey)
      == (KindName(kind) + "-") + (NatToString(rowIndex) + "-" + columnKey)
  {
    assert IntToString(rowIndex) == NatToString(rowIndex);
  }

  /** Distinct cells of the table (a kind, a position, a column) are
      recorded under distinct keys, so `editedCells` holds one key per
      edited cell. */
  lemma CellKeyInjective(k1: Kind, r1: nat, c1: string, k2: Kind, r2: nat, c2: string)
    requires CellKey(k1, r1, c1) == CellKey(k2, r2, c2)
    ensures k1 == k2 && r1 == r2 && c1 == c2
  {
    var a, b := NatToString(r1), NatToString(r2);
    CellKeySplit(k1, r1, c1);
    CellKeySplit(k2, r2, c2);
    KindPrefix(k1, a + "-" + c1, k2, b + "-" + c2);
    DigitsThenDash(a, c1, b, c2);
    NatToStringInjective(r1, r2);
  }

  /** The replaced table after `deleteRow`: the row spliced out and every
      survivor renumbered by position when the index is in range; the table
      as it was otherwise. */
  function DeletedAndRenumbered(table: seq<Row>, rowIndex: int): (r: seq<Row>)
    ensures 0 <= rowIndex < |table| ==>
      |r| == |table| - 1
      && (forall j :: 0 <= j < |r| ==> r[j].rowIndex == Some(j))
      && (forall j :: 0 <= j < rowIndex ==> r[j].fields == table[j].fields)
      && (forall j :: rowIndex <= j < |r| ==> r[j].fields == table[j + 1].fields)
    ensures !(0 <= rowIndex < |table|) ==> r == table
  {
    if 0 <= rowIndex < |table| then Renumbered(RemoveAt(table, rowIndex)) else table
  }

  /** The hook's state. */
  class CsvDataHook {
    var data: SessionData
    var editedCells: set<string>
    var hasUnsavedChanges: bool

    constructor ()
      ensures data == EmptySession && editedCells == {} && !hasUnsavedChanges
    {
      data := EmptySession;
      editedCells := {};
      hasUnsavedChanges := false;
    }

    /** `updateCell`: the addressed field of an existing row is set, nothing
        else in the data changes; the cell key is recorded and the flag set
        even when there is no such row. */
    method UpdateCell(kind: Kind, rowIndex: int, columnKey: string, newValue: string)
      modifies this
      ensures data == WithDataset(old(data), kind, SetCell(Dataset(old(data), kind), rowIndex, columnKey, newValue))
      ensures editedCells == old(editedCells) + {CellKey(kind, rowIndex, columnKey)}
      ensures hasUnsavedChanges
    {
      var tableData := Dataset(data, kind);
      if 0 <= rowIndex < |tableData| {
        var row := tableData[rowIndex];
        tableData := tableData[rowIndex := row.(fields := row.fields[columnKey := newValue])];
        data := WithDataset(data, kind, tableData);
      }
      editedCells := editedCells + {CellKey(kind, rowIndex, columnKey)};
      hasUnsavedChanges := true;
    }

    /** `addRow`: a blank row whose `_rowIndex` is the old length is pushed
        onto the table. */
    method AddRow(kind: Kind)
      modifies this
      ensures data == WithDataset(old(data), kind,
        Dataset(old(data), kind) + [BlankRow(kind).(rowIndex := Some(|Dataset(old(data), kind)|))])
      ensures editedCells == old(editedCells) && hasUnsavedChanges
    {
      var tableData := Dataset(data, kind);
      var newRow := BlankRow(kind);
      newRow := newRow.(rowIndex := Some(|tableData|));
      tableData := tableData + [newRow];
      data := WithDataset(data, kind, tableData);
      hasUnsavedChanges := true;
    }

    /** `deleteRow`: the splice, then the loop that renumbers every row; an
        out-of-range index leaves the data alone but still sets the flag. */
    method DeleteRow(kind: Kind, rowIndex: int)
      modifies this
      ensures data == WithDataset(old(data), kind, DeletedAndRenumbered(Dataset(old(data), kind), rowIndex))
      ensures editedCells == old(editedCells) && hasUnsavedChanges
    {
      var tableData := Dataset(data, kind);
      if 0 <= rowIndex < |tableData| {
        tableData := tableData[..rowIndex] + tableData[rowIndex + 1..];
        ghost var spliced := tableData;
        var index := 0;
        while index < |tableData|
          invariant 0 <= index <= |tableData| == |spliced|
          invariant tableData[..index] == Renumbered(spliced)[..index]
          invariant tableData[index..] == spliced[index..]
        {
          var row := tableData[index];
          tableData := tableData[index := row.(rowIndex := Some(index))];
          index := index + 1;
        }
        assert tableData == tableData[..index];
        data := WithDataset(data, kind, tableData);
      }
      hasUnsavedChanges := true;
    }

    /** `saveChanges`: only a successful PUT reply replaces the data (whose
        `lastUpdated` the reply does not carry) and clears the edit
        bookkeeping; a refused one throws and changes nothing. */
    method SaveChanges(reply: ReplaceResponse)
      modifies this
      ensures reply.Replaced? ==>
        data == SessionData(reply.strings, reply.classifications, reply.validationResults, None)
        && editedCells == {} && !hasUnsavedChanges
      ensures !reply.Replaced? ==>
        data == old(data) && editedCells == old(editedCells) && hasUnsavedChanges == old(hasUnsavedChanges)
    {
      if reply.Replaced? {
        data := SessionData(reply.strings, reply.classifications, reply.validationResults, None);
        editedCells := {};
        hasUnsavedChanges := false;
      }
    }

    /** `clearData`: a successful clear empties the data and the edit
        bookkeeping; a failed one changes nothing. */
    method ClearData(succeeded: bool)
      modifies this
      ensures succeeded ==> data == EmptySession && editedCells == {} && !hasUnsavedChanges
      ensures !succeeded ==>
        data == old(data) && editedCells == old(editedCells) && hasUnsavedChanges == old(hasUnsavedChanges)
    {
      if succeeded {
        data := EmptySession;
        editedCells := {};
        hasUnsavedChanges := false;
      }
    }
  }

  /** A save the server accepts hands back exactly the tables the hook sent
      (PUT sends both arrays, so both are always present) with the stored
      integrity result: after a successful save the hook holds the server's
      record but for its time stamp. */
  lemma SaveKeepsTables(s: SessionData, d: SessionData, now: string)
    requires Replace(s, Some(d.strings), Some(d.classifications), now).1.Replaced?
    ensures var (t, reply) := Replace(s, Some(d.strings), Some(d.classifications), now);
      t.strings == d.strings && t.classifications == d.classifications
      && SessionData(reply.strings, reply.classifications, reply.validationResults, None)
         == t.(lastUpdated := None)
  {
    ReplaceRevalidates(s, Some(d.strings), Some(d.classifications), now);
  }
}
