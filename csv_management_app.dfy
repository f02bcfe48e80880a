/** The management page: its own copy of the session record and an
    unsaved-changes flag, the same table edits as the hook (without the
    renumbering and the edited-cell keys), the validate-before-save gate, the
    resets on clear and upload, and the row lookups that mark invalid rows.
    The page's server calls are left out; their replies are parameters. */
module CsvManagementApp {
  import opened Wrappers
  import opened Schema
  import opened CsvProcessor
  import opened CsvController
  import opened TableEdits

  // ---------------------------------------------------------------------
  // Row lookups in the stored integrity result
  // ---------------------------------------------------------------------

  /** The first error recorded for position `rowIndex` (`errors.find`). */
  function FindError(errors: seq<IntegrityError>, rowIndex: int): (r: Option<IntegrityError>)
    ensures r.None? <==> forall k :: 0 <= k < |errors| ==> errors[k].rowIndex != rowIndex
    ensures r.Some? ==> r.value.rowIndex == rowIndex
    ensures r.Some? ==>
      exists k :: 0 <= k < |errors| && errors[k] == r.value && (forall j :: 0 <= j < k ==> errors[j].rowIndex != rowIndex)
    decreases |errors|
  {
    if errors == [] then None
    else if errors[0].rowIndex == rowIndex then Some(errors[0])
    else
      var r := FindError(errors[1..], rowIndex);
      assert forall k :: 0 < k < |errors| ==> errors[k] == errors[1..][k - 1];
      r
  }

  /** `isRowInvalid`: some stored error names the position, and only for
      the strings table. */
  predicate IsRowInvalid(results: Option<ValidationResult>, kind: Kind, rowIndex: int) {
    results.Some? && kind == Strings
    && exists k :: 0 <= k < |results.value.errors| && results.value.errors[k].rowIndex == rowIndex
  }

  /** What a JavaScript property read can give back here. */
  datatype JsValue = Null | Undefined | Text(text: string)

  /** `getRowErrorMessage` as written: the matching error object's
      `message` property, which the integrity errors do not have (their text
      is under `error`), so a match yields `undefined`. */
  function GetRowErrorMessage(results: Option<ValidationResult>, kind: Kind, rowIndex: int): (r: JsValue)
    ensures r != Null <==> IsRowInvalid(results, kind, rowIndex)
    ensures !r.Text?
  {
    if results.None? || kind != Strings then Null
    else if FindError(results.value.errors, rowIndex).Some? then Undefined
    else Null
  }

  /** `getRowErrorMessage` reading the `error` property the integrity
      errors carry: the text of the first error for the position. */
  function RowErrorMessage(results: Option<ValidationResult>, kind: Kind, rowIndex: int): (r: JsValue)
    ensures r != Null <==> IsRowInvalid(results, kind, rowIndex)
    ensures r != Null ==> r.Text?
  {
    if results.None? || kind != Strings then Null
    else
      match FindError(results.value.errors, rowIndex)
      case Some(e) => Text(e.error)
      case None => Null
  }

  /** Against a stored integrity result, a strings row is marked invalid
      exactly when it is in range and has no classification, and the
      corrected lookup shows that row's no-match text. Classifications rows
      are never marked. */
  lemma RowMarksFollowIntegrity(strings: seq<Row>, classifications: seq<Row>, i: int)
    ensures !IsRowInvalid(Some(Integrity(strings, classifications)), Classifications, i)
    ensures IsRowInvalid(Some(Integrity(strings, classifications)), Strings, i)
      <==> 0 <= i < |strings| && !HasClassification(classifications, strings[i])
    ensures 0 <= i < |strings| && !HasClassification(classifications, strings[i]) ==>
      RowErrorMessage(Some(Integrity(strings, classifications)), Strings, i) == Text(NoMatchMessage(strings[i]))
  {
    var errors := Integrity(strings, classifications).errors;
    var keys := ClassificationKeys(classifications);
    IntegritySpec(strings, classifications);
    IntegrityErrorsDescribeRows(strings, keys);
    if IsRowInvalid(Some(Integrity(strings, classifications)), Strings, i) {
      var k :| 0 <= k < |errors| && errors[k].rowIndex == i;
      assert Reported(errors, i);
    }
    if 0 <= i < |strings| && !HasClassification(classifications, strings[i]) {
      assert Reported(errors, i);
      var e := FindError(errors, i);
      var k :| 0 <= k < |errors| && errors[k] == e.value;
      assert e.value.error == NoMatchMessage(strings[e.value.rowIndex]);
    }
  }

  /** The page never shows a row's error text: for a strings row without a
      classification the lookup as written gives `undefined`, where the
      corrected one gives the no-match text. */
  lemma RowErrorMessageLost(strings: seq<Row>, classifications: seq<Row>, i: int)
    requires 0 <= i < |strings| && !HasClassification(classifications, strings[i])
    ensures GetRowErrorMessage(Some(Integrity(strings, classifications)), Strings, i) == Undefined
    ensures RowErrorMessage(Some(Integrity(strings, classifications)), Strings, i) == Text(NoMatchMessage(strings[i]))
  {
    RowMarksFollowIntegrity(strings, classifications, i);
  }

  // ---------------------------------------------------------------------
  // The page's state
  // ---------------------------------------------------------------------

  /** Whether `saveChanges` reaches the update call: when both tables hold
      rows it first asks the server to validate, and a refused validation
      or an invalid result stops it. The server validates its own stored
      record, not the page's unsaved tables. */
  predicate PassesSaveGate(data: SessionData, validateReply: Result<ValidationResult, string>) {
    !(|data.strings| > 0 && |data.classifications| > 0)
    || (validateReply.Success? && validateReply.value.isValid)
  }

  class ManagementPage {
    var data: SessionData
    var hasUnsavedChanges: bool

    constructor ()
      ensures data == EmptySession && !hasUnsavedChanges
    {
      data := EmptySession;
      hasUnsavedChanges := false;
    }

    /** `updateCell`: the addressed field of an existing row is set and
        nothing else in the data changes; the flag is set either way. */
    method UpdateCell(kind: Kind, rowIndex: int, columnKey: string, newValue: string)
      modifies this
      ensures data == WithDataset(old(data), kind, SetCell(Dataset(old(data), kind), rowIndex, columnKey, newValue))
      ensures hasUnsavedChanges
    {
      var tableData := Dataset(data, kind);
      if 0 <= rowIndex < |tableData| {
        var row := tableData[rowIndex];
        tableData := tableData[rowIndex := row.(fields := row.fields[columnKey := newValue])];
        data := WithDataset(data, kind, tableData);
      }
      hasUnsavedChanges := true;
    }

    /** `addRow`: a blank row, without `_rowIndex`, is pushed onto the
        table. */
    method AddRow(kind: Kind)
      modifies this
      ensures data == WithDataset(old(data), kind, Dataset(old(data), kind) + [BlankRow(kind)])
      ensures hasUnsavedChanges
    {
      var tableData := Dataset(data, kind);
      tableData := tableData + [BlankRow(kind)];
      data := WithDataset(data, kind, tableData);
      hasUnsavedChanges := true;
    }

    /** `deleteRow`, once confirmed: the row is spliced out when the index
        is in range, and the survivors keep their old `_rowIndex`. Declined,
        nothing changes. */
    method DeleteRow(kind: Kind, rowIndex: int, confirmed: bool)
      modifies this
      ensures confirmed ==>
        data == WithDataset(old(data), kind, RemoveAt(Dataset(old(data), kind), rowIndex)) && hasUnsavedChanges
      ensures !confirmed ==> data == old(data) && hasUnsavedChanges == old(hasUnsavedChanges)
    {
      if confirmed {
        var tableData := Dataset(data, kind);
        if 0 <= rowIndex < |tableData| {
          tableData := tableData[..rowIndex] + tableData[rowIndex + 1..];
          data := WithDataset(data, kind, tableData);
        }
        hasUnsavedChanges := true;
      }
    }

    /** `saveChanges`. With both tables holding rows the server's validate
        reply comes first: a stored result replaces the page's, and an
        invalid one, or a refused validation, ends the save before the
        update. Otherwise the page's tables are sent, and an accepted reply
        replaces the data and clears the flag. `updateCalled` says whether
        the update was sent. */
    method SaveChanges(validateReply: Result<ValidationResult, string>, updateReply: ReplaceResponse)
      returns (updateCalled: bool)
      modifies this
      ensures updateCalled == PassesSaveGate(old(data), validateReply)
      ensures updateCalled && updateReply.Replaced? ==>
        data == SessionData(updateReply.strings, updateReply.classifications, updateReply.validationResults, None)
        && !hasUnsavedChanges
      ensures !(updateCalled && updateReply.Replaced?) ==>
        data == (if |old(data).strings| > 0 && |old(data).classifications| > 0 && validateReply.Success?
                 then old(data).(validationResults := Some(validateReply.value)) else old(data))
        && hasUnsavedChanges == old(hasUnsavedChanges)
    {
      if |data.strings| > 0 && |data.classifications| > 0 {
        match validateReply
        case Success(results) =>
          data := data.(validationResults := Some(results));
          if !results.isValid {
            return false;
          }
        case Failure(_) =>
          return false;
      }
      updateCalled := true;
      if updateReply.Replaced? {
        data := SessionData(updateReply.strings, updateReply.classifications, updateReply.validationResults, None);
        hasUnsavedChanges := false;
      }
    }

    /** `clearData`, once confirmed and the server call has returned: the
        data is emptied and the flag cleared. */
    method ClearData(confirmed: bool, succeeded: bool)
      modifies this
      ensures confirmed && succeeded ==> data == EmptySession && !hasUnsavedChanges
      ensures !(confirmed && succeeded) ==> data == old(data) && hasUnsavedChanges == old(hasUnsavedChanges)
    {
      if confirmed && succeeded {
        data := EmptySession;
        hasUnsavedChanges := false;
      }
    }

    /** `uploadFiles`: with no file chosen nothing happens; otherwise, once
        the server's clear has returned, the data is emptied and the flag
        cleared before the upload, and the record read back afterwards
        (`loaded`, absent when the upload or the read failed) replaces it. */
    method UploadFiles(hasFile: bool, clearSucceeded: bool, loaded: Option<SessionData>)
      modifies this
      ensures hasFile && clearSucceeded ==>
        data == (if loaded.Some? then loaded.value else EmptySession) && !hasUnsavedChanges
      ensures !(hasFile && clearSucceeded) ==> data == old(data) && hasUnsavedChanges == old(hasUnsavedChanges)
    {
      if !hasFile || !clearSucceeded {
        return;
      }
      data := EmptySession;
      hasUnsavedChanges := false;
      if loaded.Some? {
        data := loaded.value;
      }
    }
  }

  /** The gate consults the server's record, not the page's tables: when
      the stored session fails validation, a save is stopped whatever the
      page's tables hold. */
  lemma SaveGateIgnoresPageTables(s: SessionData, data: SessionData)
    requires |data.strings| > 0 && |data.classifications| > 0
    requires |s.strings| > 0 && |s.classifications| > 0
    requires !Integrity(s.strings, s.classifications).isValid
    ensures !PassesSaveGate(data, Validate(s).1)
  {
  }

  /** A page with an empty table skips validation and always sends the
      update. */
  lemma EmptyTableSkipsGate(data: SessionData, validateReply: Result<ValidationResult, string>)
    requires |data.strings| == 0 || |data.classifications| == 0
    ensures PassesSaveGate(data, validateReply)
  {
  }
}
