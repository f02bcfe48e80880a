/** The session store of the CSV controller: the one in-memory `sessionData`
    record and the handlers that read and change it (upload, replace through
    PUT, validate, export, clear, stats). HTTP, multer, archiver and the
    temporary files are stripped; each handler is a pure transition on the
    stored record, and a `Session` object runs it step by step. */
module CsvController {
  import opened Wrappers
  import opened JsText
  import opened Schema
  import opened CsvProcessor

  // ---------------------------------------------------------------------
  // The stored record
  // ---------------------------------------------------------------------

  /** `sessionData`: both datasets, the last integrity result and the time
      of the last change. */
  datatype SessionData = SessionData(
    strings: seq<Row>, classifications: seq<Row>,
    validationResults: Option<ValidationResult>, lastUpdated: Option<string>)

  /** The record at start-up and after a clear. */
  const EmptySession: SessionData := SessionData([], [], None, None)

  /** The stored dataset of one kind. */
  function Dataset(s: SessionData, kind: Kind): seq<Row> {
    if kind == Strings then s.strings else s.classifications
  }

  /** The record with the dataset of one kind replaced. */
  function WithDataset(s: SessionData, kind: Kind, rows: seq<Row>): (t: SessionData)
    ensures Dataset(t, kind) == rows
    ensures kind == Strings ==> t.classifications == s.classifications
    ensures kind == Classifications ==> t.strings == s.strings
    ensures t.validationResults == s.validationResults && t.lastUpdated == s.lastUpdated
  {
    if kind == Strings then s.(strings := rows) else s.(classifications := rows)
  }

  /** The re-validation both upload and replace end with: the integrity
      result is recomputed only when both datasets hold rows. */
  function Revalidated(s: SessionData): SessionData {
    if |s.strings| > 0 && |s.classifications| > 0 then
      s.(validationResults := Some(Integrity(s.strings, s.classifications)))
    else s
  }

  /** The counts of an integrity result agree with each other. */
  predicate WellCounted(r: ValidationResult) {
    |r.errors| == r.invalidRows && r.validRows + r.invalidRows == r.totalRows
    && (r.isValid <==> r.errors == [])
  }

  /** The session invariant: a stored result has consistent counts. */
  predicate Consistent(s: SessionData) {
    s.validationResults.Some? ==> WellCounted(s.validationResults.value)
  }

  /** Re-validation keeps the invariant. */
  lemma RevalidatedConsistent(s: SessionData)
    requires Consistent(s)
    ensures Consistent(Revalidated(s))
    ensures Revalidated(s).strings == s.strings && Revalidated(s).classifications == s.classifications
  {
    IntegrityCountsAddUp(s.strings, s.classifications);
  }

  // ---------------------------------------------------------------------
  // POST /api/upload
  // ---------------------------------------------------------------------

  const NoFilesMessage: string := "At least one CSV file is required"

  /** The report for one upload slot: the number of rows loaded, or the
      parse error's message. */
  datatype FileOutcome = Loaded(rowCount: nat) | Failed(error: string)

  datatype UploadResponse =
    | UploadRefused(error: string)
    | Uploaded(strings: Option<FileOutcome>, classifications: Option<FileOutcome>,
               validation: Option<ValidationResult>)

  /** What the slot of `kind` reports: nothing when no file came. */
  function Outcome(file: Option<Feed>, kind: Kind): Option<FileOutcome> {
    match file
    case None => None
    case Some(feed) =>
      match Parse(feed, kind)
      case Success(rows) => Some(Loaded(|rows|))
      case Failure(e) => Some(Failed(ParseErrorMessage(e)))
  }

  /** A file that parses replaces the stored dataset of its kind; a missing
      file or one that fails leaves it as it was. */
  function Load(s: SessionData, file: Option<Feed>, kind: Kind): SessionData {
    if file.Some? && Parse(file.value, kind).Success? then
      WithDataset(s, kind, Parse(file.value, kind).value)
    else s
  }

  /** The upload handler: refused without any file; otherwise each kind is
      loaded on its own, the result is re-validated when both datasets
      hold rows, and the time is stamped. */
  function Upload(s: SessionData, stringsFile: Option<Feed>, classificationsFile: Option<Feed>, now: string)
    : (SessionData, UploadResponse)
  {
    if stringsFile.None? && classificationsFile.None? then
      (s, UploadRefused(NoFilesMessage))
    else
      var loaded := Load(Load(s, stringsFile, Strings), classificationsFile, Classifications);
      var validated := Revalidated(loaded);
      var validation :=
        if |loaded.strings| > 0 && |loaded.classifications| > 0 then validated.validationResults else None;
      (validated.(lastUpdated := Some(now)),
       Uploaded(Outcome(stringsFile, Strings), Outcome(classificationsFile, Classifications), validation))
  }

  /** Without a file the upload is refused and nothing changes. */
  lemma UploadNeedsAFile(s: SessionData, now: string)
    ensures Upload(s, None, None, now) == (s, UploadRefused(NoFilesMessage))
  {
  }

  /** Each kind is loaded independently: a file that parses replaces its
      own dataset whatever happens to the other file, and a file that
      fails, or is missing, leaves its dataset untouched. */
  lemma UploadLoadsKindsIndependently(s: SessionData, stringsFile: Option<Feed>,
                                      classificationsFile: Option<Feed>, now: string)
    requires stringsFile.Some? || classificationsFile.Some?
    ensures var t := Upload(s, stringsFile, classificationsFile, now).0;
      && t.strings == (if stringsFile.Some? && Parse(stringsFile.value, Strings).Success?
                       then Parse(stringsFile.value, Strings).value else s.strings)
      && t.classifications == (if classificationsFile.Some? && Parse(classificationsFile.value, Classifications).Success?
                               then Parse(classificationsFile.value, Classifications).value else s.classifications)
      && t.lastUpdated == Some(now)
  {
    var loaded := Load(Load(s, stringsFile, Strings), classificationsFile, Classifications);
    RevalidatedConsistent(loaded.(validationResults := None));
  }

  /** After an upload the stored result is the integrity check of the new
      datasets when both hold rows, and the previous result otherwise; the
      response carries a result exactly in the first case. */
  lemma UploadRevalidates(s: SessionData, stringsFile: Option<Feed>,
                          classificationsFile: Option<Feed>, now: string)
    requires stringsFile.Some? || classificationsFile.Some?
    ensures var (t, response) := Upload(s, stringsFile, classificationsFile, now);
      && t.validationResults
         == (if |t.strings| > 0 && |t.classifications| > 0
             then Some(Integrity(t.strings, t.classifications)) else s.validationResults)
      && (response.validation.Some? <==> |t.strings| > 0 && |t.classifications| > 0)
      && (response.validation.Some? ==> response.validation == t.validationResults)
  {
    var loaded := Load(Load(s, stringsFile, Strings), classificationsFile, Classifications);
    assert loaded.validationResults == s.validationResults;
  }

  // ---------------------------------------------------------------------
  // PUT /api/data
  // ---------------------------------------------------------------------

  const NoPayloadMessage: string := "At least one data type (strings or classifications) is required"

  /** One entry of `validationErrors`: the row's position in the payload and
      the errors `validateRowData` reported for it. */
  datatype RowFailure = RowFailure(rowIndex: nat, errors: seq<string>)

  /** The rows of a payload that `check` finds errors in, each with its
      position and those errors, in payload order. */
  function Failures(rows: seq<Row>, check: Row -> seq<string>): seq<RowFailure>
    decreases |rows|
  {
    if rows == [] then []
    else
      var n := |rows| - 1;
      Failures(rows[..n], check) + (if check(rows[n]) == [] then [] else [RowFailure(n, check(rows[n]))])
  }

  /** The `validationErrors` of a payload of `kind`. */
  function RowFailures(rows: seq<Row>, kind: Kind): seq<RowFailure> {
    Failures(rows, row => RowErrors(row, kind))
  }

  /** The `forEach` over a payload that collects the failing rows. */
  method CollectRowFailures(rows: seq<Row>, kind: Kind) returns (validationErrors: seq<RowFailure>)
    ensures validationErrors == RowFailures(rows, kind)
  {
    ghost var check := row => RowErrors(row, kind);
    validationErrors := [];
    var index := 0;
    while index < |rows|
      invariant 0 <= index <= |rows|
      invariant validationErrors == Failures(rows[..index], check)
    {
      var validation := ValidateRowData(rows[index], kind);
      assert rows[..index + 1][..index] == rows[..index];
      if !validation.isValid {
        validationErrors := validationErrors + [RowFailure(index, validation.errors)];
      }
      index := index + 1;
    }
    assert rows[..index] == rows;
  }

  /** Each reported failure names a position whose row fails, with exactly
      that row's errors. */
  lemma {:induction false} FailuresDescribeRows(rows: seq<Row>, check: Row -> seq<string>)
    ensures forall k :: 0 <= k < |Failures(rows, check)| ==>
      Failures(rows, check)[k].rowIndex < |rows|
      && Failures(rows, check)[k].errors == check(rows[Failures(rows, check)[k].rowIndex])
      && Failures(rows, check)[k].errors != []
  {
    if rows != [] {
      var n := |rows| - 1;
      FailuresDescribeRows(rows[..n], check);
      assert forall i :: 0 <= i < n ==> rows[..n][i] == rows[i];
    }
  }

  /** The reported positions rise strictly. */
  lemma {:induction false} FailuresOrdered(rows: seq<Row>, check: Row -> seq<string>)
    ensures forall k :: 0 <= k < |Failures(rows, check)| ==> Failures(rows, check)[k].rowIndex < |rows|
    ensures forall k, l :: 0 <= k < l < |Failures(rows, check)| ==>
      Failures(rows, check)[k].rowIndex < Failures(rows, check)[l].rowIndex
  {
    if rows != [] {
      var n := |rows| - 1;
      FailuresOrdered(rows[..n], check);
      var f0 := Failures(rows[..n], check);
      var f := Failures(rows, check);
      var tail := if check(rows[n]) == [] then [] else [RowFailure(n, check(rows[n]))];
      assert f == f0 + tail;
      forall k | 0 <= k < |f| ensures f[k].rowIndex < |rows| {
        if k < |f0| {
          assert f[k] == f0[k];
        }
      }
      forall k, l | 0 <= k < l < |f| ensures f[k].rowIndex < f[l].rowIndex {
        assert f[k] == f0[k];
        if l < |f0| {
          assert f[l] == f0[l];
        }
      }
    }
  }

  /** Position `i` is listed among the failures. */
  predicate Listed(failures: seq<RowFailure>, i: nat) {
    exists k :: 0 <= k < |failures| && failures[k].rowIndex == i
  }

  /** A position is listed exactly when its row fails the check. */
  lemma {:induction false} FailuresExact(rows: seq<Row>, check: Row -> seq<string>)
    ensures forall i :: 0 <= i < |rows| ==> (Listed(Failures(rows, check), i) <==> check(rows[i]) != [])
  {
    if rows != [] {
      var n := |rows| - 1;
      var init := rows[..n];
      FailuresExact(init, check);
      FailuresOrdered(init, check);
      var f0 := Failures(init, check);
      var f := Failures(rows, check);
      var tail := if check(rows[n]) == [] then [] else [RowFailure(n, check(rows[n]))];
      assert f == f0 + tail;
      forall k | 0 <= k < |f0| ensures f[k] == f0[k] && f[k].rowIndex < n {
        assert f0[k].rowIndex < |init|;
      }
      forall i | 0 <= i < |rows|
        ensures Listed(f, i) <==> check(rows[i]) != []
      {
        if i < n {
          assert rows[i] == init[i];
          if Listed(f, i) {
            var k :| 0 <= k < |f| && f[k].rowIndex == i;
            assert k < |f0|;
          }
          if check(rows[i]) != [] {
            var k :| 0 <= k < |f0| && f0[k].rowIndex == i;
            assert f[k].rowIndex == i;
          }
        } else {
          if Listed(f, i) {
            var k :| 0 <= k < |f| && f[k].rowIndex == i;
            assert k >= |f0|;
          }
          if check(rows[i]) != [] {
            assert f[|f0|].rowIndex == i;
          }
        }
      }
    }
  }

  /** No failure is reported exactly when every row passes. */
  lemma {:induction false} FailuresEmptyIff(rows: seq<Row>, check: Row -> seq<string>)
    ensures Failures(rows, check) == [] <==> forall i :: 0 <= i < |rows| ==> check(rows[i]) == []
  {
    if rows != [] {
      var n := |rows| - 1;
      FailuresEmptyIff(rows[..n], check);
      assert forall i :: 0 <= i < n ==> rows[..n][i] == rows[i];
    }
  }

  /** The replace handler's row check: a payload is accepted exactly when
      every row passes `validateRowData`, and a rejection lists exactly the
      failing positions, in ascending order, each with its own errors. */
  lemma RowFailuresSpec(rows: seq<Row>, kind: Kind)
    ensures RowFailures(rows, kind) == [] <==> forall i :: 0 <= i < |rows| ==> RowErrors(rows[i], kind) == []
    ensures forall i :: 0 <= i < |rows| ==> (Listed(RowFailures(rows, kind), i) <==> RowErrors(rows[i], kind) != [])
    ensures forall k, l :: 0 <= k < l < |RowFailures(rows, kind)| ==>
      RowFailures(rows, kind)[k].rowIndex < RowFailures(rows, kind)[l].rowIndex
    ensures forall k :: 0 <= k < |RowFailures(rows, kind)| ==>
      RowFailures(rows, kind)[k].rowIndex < |rows|
      && RowFailures(rows, kind)[k].errors == RowErrors(rows[RowFailures(rows, kind)[k].rowIndex], kind)
  {
    var check := row => RowErrors(row, kind);
    FailuresEmptyIff(rows, check);
    FailuresExact(rows, check);
    FailuresOrdered(rows, check);
    FailuresDescribeRows(rows, check);
  }

  datatype ReplaceResponse =
    | ReplaceRefused(error: string)
    | RowsRejected(error: string, validationErrors: seq<RowFailure>)
    | Replaced(strings: seq<Row>, classifications: seq<Row>, validationResults: Option<ValidationResult>)

  /** The replace handler. A payload for neither kind is refused. A strings
      payload with a failing row is rejected before anything changes;
      otherwise it is committed at once, so a classifications payload
      rejected afterwards leaves the new strings in place (and no new time
      stamp). When both pass, the result is re-validated and stamped. An
      empty array counts as a payload. */
  function Replace(s: SessionData, bodyStrings: Option<seq<Row>>, bodyClassifications: Option<seq<Row>>, now: string)
    : (SessionData, ReplaceResponse)
  {
    if bodyStrings.None? && bodyClassifications.None? then
      (s, ReplaceRefused(NoPayloadMessage))
    else if bodyStrings.Some? && RowFailures(bodyStrings.value, Strings) != [] then
      (s, RowsRejected("Invalid strings data", RowFailures(bodyStrings.value, Strings)))
    else
      var withStrings := if bodyStrings.Some? then s.(strings := bodyStrings.value) else s;
      if bodyClassifications.Some? && RowFailures(bodyClassifications.value, Classifications) != [] then
        (withStrings, RowsRejected("Invalid classifications data", RowFailures(bodyClassifications.value, Classifications)))
      else
        var withBoth :=
          if bodyClassifications.Some? then withStrings.(classifications := bodyClassifications.value) else withStrings;
        var t := Revalidated(withBoth).(lastUpdated := Some(now));
        (t, Replaced(t.strings, t.classifications, t.validationResults))
  }

  /** Without a payload the request is refused and nothing changes. */
  lemma ReplaceNeedsAPayload(s: SessionData, now: string)
    ensures Replace(s, None, None, now) == (s, ReplaceRefused(NoPayloadMessage))
  {
  }

  /** A strings payload with a failing row changes nothing, and the
      response carries the failures of that payload (which list exactly the
      failing positions, in ascending order, by the lemmas above). */
  lemma ReplaceRejectsInvalidStrings(s: SessionData, rows: seq<Row>, bodyClassifications: Option<seq<Row>>,
                                     now: string, bad: nat)
    requires bad < |rows| && RowErrors(rows[bad], Strings) != []
    ensures Replace(s, Some(rows), bodyClassifications, now)
         == (s, RowsRejected("Invalid strings data", RowFailures(rows, Strings)))
  {
    RowFailuresSpec(rows, Strings);
  }

  /** Commits are per dataset: valid strings with classifications that fail
      leave the new strings stored and everything else as it was. */
  lemma ReplaceCommitsStringsFirst(s: SessionData, rows: seq<Row>, cls: seq<Row>, now: string, bad: nat)
    requires forall i :: 0 <= i < |rows| ==> RowErrors(rows[i], Strings) == []
    requires bad < |cls| && RowErrors(cls[bad], Classifications) != []
    ensures Replace(s, Some(rows), Some(cls), now).0 == s.(strings := rows)
    ensures Replace(s, Some(rows), Some(cls), now).1.RowsRejected?
  {
    RowFailuresSpec(rows, Strings);
    RowFailuresSpec(cls, Classifications);
  }

  /** An accepted replace stores the payloads, re-validates when both
      datasets hold rows (keeping the previous result otherwise, even a
      stale one after an empty payload), stamps the time, and returns the
      stored record. */
  lemma ReplaceRevalidates(s: SessionData, bodyStrings: Option<seq<Row>>,
                           bodyClassifications: Option<seq<Row>>, now: string)
    requires Replace(s, bodyStrings, bodyClassifications, now).1.Replaced?
    ensures var (t, response) := Replace(s, bodyStrings, bodyClassifications, now);
      && t.strings == (if bodyStrings.Some? then bodyStrings.value else s.strings)
      && t.classifications == (if bodyClassifications.Some? then bodyClassifications.value else s.classifications)
      && t.validationResults
         == (if |t.strings| > 0 && |t.classifications| > 0
             then Some(Integrity(t.strings, t.classifications)) else s.validationResults)
      && t.lastUpdated == Some(now)
      && response == Replaced(t.strings, t.classifications, t.validationResults)
  {
  }

  /** Emptying the strings through PUT keeps the previous integrity result,
      which then describes rows that are gone. */
  lemma EmptyPayloadKeepsStaleResult(s: SessionData, now: string)
    ensures Replace(s, Some([]), None, now).0 == s.(strings := [], lastUpdated := Some(now))
  {
    assert RowFailures([], Strings) == [];
  }

  // ---------------------------------------------------------------------
  // POST /api/validate
  // ---------------------------------------------------------------------

  const BothRequiredMessage: string := "Both strings and classifications data are required for validation"

  /** The validate handler: refused unless both datasets hold rows; else
      the integrity result is stored and returned. */
  function Validate(s: SessionData): (SessionData, Result<ValidationResult, string>) {
    if |s.strings| == 0 || |s.classifications| == 0 then
      (s, Failure(BothRequiredMessage))
    else
      var result := Integrity(s.strings, s.classifications);
      (s.(validationResults := Some(result)), Success(result))
  }

  /** Validation fails, changing nothing, exactly when a dataset is empty;
      otherwise the stored and returned result is the integrity check of
      the stored datasets and nothing else changes. */
  lemma ValidateSpec(s: SessionData)
    ensures Validate(s).1.Failure? <==> |s.strings| == 0 || |s.classifications| == 0
    ensures Validate(s).1.Failure? ==> Validate(s).0 == s
    ensures Validate(s).1.Success? ==>
      Validate(s).0 == s.(validationResults := Some(Integrity(s.strings, s.classifications)))
      && Validate(s).1.value == Integrity(s.strings, s.classifications)
      && WellCounted(Validate(s).1.value)
  {
    IntegrityCountsAddUp(s.strings, s.classifications);
  }

  // ---------------------------------------------------------------------
  // GET /api/export
  // ---------------------------------------------------------------------

  const InvalidExportTypeMessage: string :=
    "Invalid export type. Must be \"strings\", \"classifications\", or \"both\""

  /** One exported CSV: its name and the projected rows written to it. */
  datatype ExportFile = ExportFile(name: string, rows: seq<seq<Cell>>)

  datatype ExportResponse =
    | ExportRefused(error: string)
    | CsvDownload(file: ExportFile)
    | ZipDownload(name: string, files: seq<ExportFile>)

  /** The export handler: the type must be one of the three names; `both`
      bundles a file per non-empty dataset (possibly none); a single kind
      with no rows is refused. */
  function Export(s: SessionData, exportType: Option<string>): ExportResponse {
    if exportType.None? || exportType.value !in ["strings", "classifications", "both"] then
      ExportRefused(InvalidExportTypeMessage)
    else if exportType.value == "both" then
      ZipDownload("csv-export.zip",
        (if |s.strings| > 0 then [ExportFile("strings.csv", CleanData(s.strings, Strings))] else [])
        + (if |s.classifications| > 0
           then [ExportFile("classifications.csv", CleanData(s.classifications, Classifications))] else []))
    else
      var kind := if exportType.value == "strings" then Strings else Classifications;
      if |Dataset(s, kind)| == 0 then
        ExportRefused("No " + exportType.value + " data available for export")
      else
        CsvDownload(ExportFile(exportType.value + ".csv", CleanData(Dataset(s, kind), kind)))
  }

  /** The export is refused exactly for an unknown type or an empty single
      kind; a single kind is exported whole, and `both` holds exactly the
      non-empty datasets, strings first. */
  lemma ExportSpec(s: SessionData, exportType: Option<string>)
    ensures Export(s, exportType).ExportRefused?
        <==> exportType.None?
             || exportType.value !in ["strings", "classifications", "both"]
             || (exportType.value == "strings" && s.strings == [])
             || (exportType.value == "classifications" && s.classifications == [])
    ensures exportType == Some("strings") && s.strings != [] ==>
      Export(s, exportType) == CsvDownload(ExportFile("strings.csv", CleanData(s.strings, Strings)))
    ensures exportType == Some("classifications") && s.classifications != [] ==>
      Export(s, exportType) == CsvDownload(ExportFile("classifications.csv", CleanData(s.classifications, Classifications)))
    ensures exportType == Some("both") ==>
      Export(s, exportType).ZipDownload?
      && |Export(s, exportType).files| == (if s.strings != [] then 1 else 0) + (if s.classifications != [] then 1 else 0)
      && forall f :: f in Export(s, exportType).files ==>
           (f.name == "strings.csv" && s.strings != [] && f.rows == CleanData(s.strings, Strings))
           || (f.name == "classifications.csv" && s.classifications != []
               && f.rows == CleanData(s.classifications, Classifications))
  {
  }

  /** The single-kind export of a non-empty dataset is its projection. */
  lemma ExportSingleKind(s: SessionData, kind: Kind)
    requires Dataset(s, kind) != []
    ensures Export(s, Some(KindName(kind))) == CsvDownload(ExportFile(KindName(kind) + ".csv", CleanData(Dataset(s, kind), kind)))
  {
  }

  /** A stored dataset in the parsed shape survives export and re-upload:
      the exported file parses back to the same rows. */
  lemma ExportThenUploadRestores(s: SessionData, kind: Kind)
    requires Dataset(s, kind) != [] && IsParsedDataset(Dataset(s, kind), kind)
    ensures Export(s, Some(KindName(kind))).CsvDownload?
    ensures Parse(Reread(Export(s, Some(KindName(kind))).file.rows, kind), kind) == Success(Dataset(s, kind))
  {
    ExportSingleKind(s, kind);
    ProjectionRoundTrip(Dataset(s, kind), kind);
  }

  // ---------------------------------------------------------------------
  // GET /api/stats
  // ---------------------------------------------------------------------

  datatype DatasetStats = DatasetStats(rowCount: nat, hasData: bool)

  datatype ValidationSummary = ValidationSummary(
    isValid: bool, totalRows: nat, validRows: nat, invalidRows: nat, errorCount: nat)

  datatype Stats = Stats(
    strings: DatasetStats, classifications: DatasetStats,
    validation: Option<ValidationSummary>, lastUpdated: Option<string>)

  /** The stats handler. */
  function StatsOf(s: SessionData): Stats {
    Stats(DatasetStats(|s.strings|, |s.strings| > 0),
          DatasetStats(|s.classifications|, |s.classifications| > 0),
          match s.validationResults
          case None => None
          case Some(r) => Some(ValidationSummary(r.isValid, r.totalRows, r.validRows, r.invalidRows, |r.errors|)),
          s.lastUpdated)
  }

  /** In a consistent session the summary's error count is the number of
      invalid rows, valid and invalid rows add up, and `hasData` says the
      count is positive. */
  lemma StatsSummaryAgrees(s: SessionData)
    requires Consistent(s)
    ensures StatsOf(s).strings.hasData <==> StatsOf(s).strings.rowCount > 0
    ensures StatsOf(s).classifications.hasData <==> StatsOf(s).classifications.rowCount > 0
    ensures StatsOf(s).validation.Some? <==> s.validationResults.Some?
    ensures StatsOf(s).validation.Some? ==>
      var v := StatsOf(s).validation.value;
      v.errorCount == v.invalidRows && v.validRows + v.invalidRows == v.totalRows
      && (v.isValid <==> v.errorCount == 0)
  {
  }

  /** An upload keeps the session consistent. */
  lemma UploadKeepsConsistency(s: SessionData, stringsFile: Option<Feed>, classificationsFile: Option<Feed>, now: string)
    requires Consistent(s)
    ensures Consistent(Upload(s, stringsFile, classificationsFile, now).0)
  {
    RevalidatedConsistent(Load(Load(s, stringsFile, Strings), classificationsFile, Classifications));
  }

  /** A replace keeps the session consistent. */
  lemma ReplaceKeepsConsistency(s: SessionData, bodyStrings: Option<seq<Row>>,
                                bodyClassifications: Option<seq<Row>>, now: string)
    requires Consistent(s)
    ensures Consistent(Replace(s, bodyStrings, bodyClassifications, now).0)
  {
    var withStrings := if bodyStrings.Some? then s.(strings := bodyStrings.value) else s;
    var withBoth := if bodyClassifications.Some? then withStrings.(classifications := bodyClassifications.value) else withStrings;
    RevalidatedConsistent(withBoth);
  }

  /** A validation keeps the session consistent, and so does a clear. */
  lemma ValidateKeepsConsistency(s: SessionData)
    requires Consistent(s)
    ensures Consistent(Validate(s).0)
    ensures Consistent(EmptySession)
  {
    IntegrityCountsAddUp(s.strings, s.classifications);
  }

  // ---------------------------------------------------------------------
  // The session object
  // ---------------------------------------------------------------------

  /** The module-level `sessionData`, updated field by field. */
  class Session {
    var strings: seq<Row>
    var classifications: seq<Row>
    var validationResults: Option<ValidationResult>
    var lastUpdated: Option<string>

    /** The stored record. */
    function State(): SessionData
      reads this
    {
      SessionData(strings, classifications, validationResults, lastUpdated)
    }

    constructor ()
      ensures State() == EmptySession
    {
      strings := [];
      classifications := [];
      validationResults := None;
      lastUpdated := None;
    }

    /** POST /api/upload. */
    method HandleUpload(stringsFile: Option<Feed>, classificationsFile: Option<Feed>, now: string)
      returns (response: UploadResponse)
      modifies this
      ensures (State(), response) == Upload(old(State()), stringsFile, classificationsFile, now)
    {
      if stringsFile.None? && classificationsFile.None? {
        return UploadRefused(NoFilesMessage);
      }
      var stringsOutcome := LoadFile(stringsFile, Strings);
      var classificationsOutcome := LoadFile(classificationsFile, Classifications);
      var validation: Option<ValidationResult> := None;
      if |strings| > 0 && |classifications| > 0 {
        var result := ValidateDataIntegrity(strings, classifications);
        validationResults := Some(result);
        validation := Some(result);
      }
      lastUpdated := Some(now);
      response := Uploaded(stringsOutcome, classificationsOutcome, validation);
    }

    /** One file of an upload: parsed, its rows stored under its kind when
        it parses, and its outcome reported. */
    method LoadFile(file: Option<Feed>, kind: Kind) returns (outcome: Option<FileOutcome>)
      modifies this
      ensures State() == Load(old(State()), file, kind)
      ensures outcome == Outcome(file, kind)
    {
      outcome := None;
      if file.Some? {
        var parsed := ParseCSV(file.value, kind);
        match parsed
        case Success(rows) =>
          if kind == Strings {
            strings := rows;
          } else {
            classifications := rows;
          }
          outcome := Some(Loaded(|rows|));
        case Failure(e) =>
          outcome := Some(Failed(ParseErrorMessage(e)));
      }
    }

    /** PUT /api/data. */
    method HandleReplace(bodyStrings: Option<seq<Row>>, bodyClassifications: Option<seq<Row>>, now: string)
      returns (response: ReplaceResponse)
      modifies this
      ensures (State(), response) == Replace(old(State()), bodyStrings, bodyClassifications, now)
    {
      if bodyStrings.None? && bodyClassifications.None? {
        return ReplaceRefused(NoPayloadMessage);
      }
      if bodyStrings.Some? {
        var validationErrors := CollectRowFailures(bodyStrings.value, Strings);
        if |validationErrors| > 0 {
          return RowsRejected("Invalid strings data", validationErrors);
        }
        strings := bodyStrings.value;
      }
      if bodyClassifications.Some? {
        var validationErrors := CollectRowFailures(bodyClassifications.value, Classifications);
        if |validationErrors| > 0 {
          return RowsRejected("Invalid classifications data", validationErrors);
        }
        classifications := bodyClassifications.value;
      }
      if |strings| > 0 && |classifications| > 0 {
        var result := ValidateDataIntegrity(strings, classifications);
        validationResults := Some(result);
      }
      lastUpdated := Some(now);
      response := Replaced(strings, classifications, validationResults);
    }

    /** POST /api/validate. */
    method HandleValidate() returns (response: Result<ValidationResult, string>)
      modifies this
      ensures (State(), response) == Validate(old(State()))
    {
      if |strings| == 0 || |classifications| == 0 {
        return Failure(BothRequiredMessage);
      }
      var result := ValidateDataIntegrity(strings, classifications);
      validationResults := Some(result);
      response := Success(result);
    }

    /** GET /api/export: reads the session only. */
    method HandleExport(exportType: Option<string>) returns (response: ExportResponse)
      ensures response == Export(State(), exportType)
    {
      if exportType.None? || exportType.value !in ["strings", "classifications", "both"] {
        return ExportRefused(InvalidExportTypeMessage);
      }
      if exportType.value == "both" {
        var files: seq<ExportFile> := [];
        if |strings| > 0 {
          files := files + [ExportFile("strings.csv", CleanData(strings, Strings))];
        }
        if |classifications| > 0 {
          files := files + [ExportFile("classifications.csv", CleanData(classifications, Classifications))];
        }
        return ZipDownload("csv-export.zip", files);
      }
      var data := if exportType.value == "strings" then strings else classifications;
      if |data| == 0 {
        return ExportRefused("No " + exportType.value + " data available for export");
      }
      var kind := if exportType.value == "strings" then Strings else Classifications;
      response := CsvDownload(ExportFile(exportType.value + ".csv", CleanData(data, kind)));
    }

    /** DELETE /api/data. */
    method HandleClear()
      modifies this
      ensures State() == EmptySession
    {
      strings, classifications, validationResults, lastUpdated := [], [], None, None;
    }

    /** GET /api/stats: reads the session only. */
    method HandleStats() returns (stats: Stats)
      ensures stats == StatsOf(State())
    {
      var validation: Option<ValidationSummary> := None;
      if validationResults.Some? {
        var r := validationResults.value;
        validation := Some(ValidationSummary(r.isValid, r.totalRows, r.validRows, r.invalidRows, |r.errors|));
      }
      stats := Stats(DatasetStats(|strings|, |strings| > 0),
                     DatasetStats(|classifications|, |classifications| > 0),
                     validation, lastUpdated);
    }
  }
}
