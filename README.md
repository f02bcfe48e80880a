# CSV management app: a Dafny model of its data-integrity core

The application keeps two CSV datasets in one server-side session record:

- a **strings** dataset, with columns `Tier, Industry, Topic, Subtopic, Prefix, Fuzzing-Idx, Prompt, Risks, Keywords`;
- a **classifications** dataset, with columns `Topic, SubTopic, Industry, Classification`.

A strings row is valid when some classifications row has the same lower-cased `Topic|Subtopic|Industry` key. The strings side spells the column `Subtopic` and the classifications side spells it `SubTopic`. Two clients, a data hook and a management page, edit copies of the tables and send them back.

This project models the following, and proves what each promises:

- **`CSVProcessor`** (`csv_processor.dfy`):
  - the header check and row cleaning of `parseCSV`;
  - the referential check `validateDataIntegrity`;
  - the projection `generateCSV` writes;
  - the per-row check `validateRowData`.
- **The CSV controller** (`csv_controller.dfy`). Each handler is a pure transition on the session record:
  - upload;
  - PUT `/data`;
  - validate;
  - export;
  - clear;
  - stats.

  A `Session` object runs each handler step by step and is proved equal to its transition.
- **The data hook `useCSVData`** (`use_csv_data.dfy`): cell edits, row addition, row deletion with renumbering, the edited-cell keys, and the resets after save and clear.
- **The management page `CSVManagementApp`** (`csv_management_app.dfy`): the same edits without renumbering, the validate-before-save gate, the resets on clear and upload, and the lookups that mark invalid rows.
- **The client pre-check `validateCSVFile`** (`file_check.dfy`).

Shared parts:

- `table_edits.dfy` holds the table edits both clients make.
- `schema.dfy` holds the header registry and the row shape.
- `js_text.dfy` holds the JavaScript string built-ins the core relies on:
  - `trim`;
  - ASCII `toLowerCase`;
  - `parseInt`'s NaN test;
  - `String(n)`;
  - `join`, `startsWith`, `endsWith`.

A row is `Row(fields, rowIndex, validationError)`. The CSV columns live in `fields`. The source's internal `_rowIndex` and `_validationError` properties are kept apart from the columns. A template string that reads an absent property shows the text `undefined`, and `Prop` models that.

The parser's input is what the `csv-parser` stream emits:

- the `headers` event;
- the key/value properties of each `data` event (a value may be absent);
- an `error` event.

So the model starts where the source's own code starts. Splitting lines into cells belongs to the library.

Server calls made by the clients become parameters that carry the reply. The clock becomes a `now` parameter.

## Model

| member | source | states |
|---|---|---|
| Schema.HeadersWellFormed | backend/src/utils/csvProcessor.js:10-16 | neither header list repeats a name, and every name is already trimmed and does not start with `_` |
| Schema.InternalNamesNotHeaders | backend/src/utils/csvProcessor.js:10-16 | `_rowIndex` and `_validationError` are not schema columns |
| Schema.SubtopicAsymmetry | backend/src/utils/csvProcessor.js:10-16 | the join column is `Subtopic` in the strings schema and `SubTopic` in the classifications schema, and neither schema has the other spelling |
| JsText.Trim | backend/src/utils/csvProcessor.js:40-41 | `trim` leaves no ECMAScript whitespace at either end and never lengthens |
| JsText.TrimIsSlice | backend/src/utils/csvProcessor.js:40-41 | `trim` keeps the text between the whitespace runs: its result is a slice of the input, and everything outside the slice is ECMAScript whitespace |
| JsText.TrimIdempotent | backend/src/utils/csvProcessor.js:61-62 | trimming twice is trimming once |
| JsText.ParseIntAcceptsDigitPrefix | backend/src/utils/csvProcessor.js:186 | `parseInt` is not NaN for any string that, after whitespace and a sign, starts with a decimal digit (other than the `0` of `0x`), whatever follows |
| CsvProcessor.Without | backend/src/utils/csvProcessor.js:43-44 | the filter keeps exactly the elements of the first list that the second lacks |
| CsvProcessor.CheckHeaders | backend/src/utils/csvProcessor.js:40-46 | the two filter passes accept exactly when the trimmed found names and the trimmed expected names form the same set |
| CsvProcessor.HeadersAcceptedIffSameSet | backend/src/utils/csvProcessor.js:40-50 | the header check passes iff the sets of trimmed found and trimmed expected names are equal |
| CsvProcessor.HeadersAcceptedForKind | backend/src/utils/csvProcessor.js:28-50 | found headers pass iff their trimmed names form exactly the schema's set of names |
| CsvProcessor.SelfAccepted | backend/src/utils/csvProcessor.js:40-50 | every header list passes against itself |
| CsvProcessor.SchemaNameSet | backend/src/utils/csvProcessor.js:41 | trimming the schema's names changes none of them |
| CsvProcessor.RepeatedHeaderAccepted | backend/src/utils/csvProcessor.js:43-46 | a file repeating a schema column still passes, because only set membership is checked |
| CsvProcessor.CleanValue | backend/src/utils/csvProcessor.js:62 | an absent value becomes `''`, a present one (the empty string included) its trim, so every cleaned value is trimmed |
| CsvProcessor.CleanFieldsShape | backend/src/utils/csvProcessor.js:59-63 | the cleaned object has exactly the trimmed keys of the event, and all keys and values are trimmed |
| CsvProcessor.CleanFieldsLast | backend/src/utils/csvProcessor.js:60-63 | when keys collide after trimming, the value of the last such key wins |
| CsvProcessor.CleanRecords | backend/src/utils/csvProcessor.js:55-67 | one row per data event, in order, each cleaned and given its position as `_rowIndex` |
| CsvProcessor.CleanEntries | backend/src/utils/csvProcessor.js:59-66 | the key-by-key cleaning loop builds the cleaned row with the given index |
| CsvProcessor.ParseCSV | backend/src/utils/csvProcessor.js:25-79 | the event-driven parser (header flag, pushed rows, rejections) returns exactly `Parse` |
| CsvProcessor.ParseRejectsHeaderIff | backend/src/utils/csvProcessor.js:38-50 | parsing fails on the header exactly when a header is announced whose trimmed names differ, as a set, from the schema |
| CsvProcessor.ParseSchemaHeader | backend/src/utils/csvProcessor.js:52-72 | a stream with exactly the schema header and no error yields all its records, cleaned |
| CsvProcessor.ParsedRowsClean | backend/src/utils/csvProcessor.js:59-67 | every parsed row has `_rowIndex` equal to its position, no validation mark, and trimmed keys and values |
| CsvProcessor.HeaderOnlyYieldsNoRows | backend/src/utils/csvProcessor.js:55-72 | a header-only file parses to the empty dataset |
| CsvProcessor.BuildLookup | backend/src/utils/csvProcessor.js:93-97 | the first loop collects exactly the classifications keys |
| CsvProcessor.ValidateDataIntegrity | backend/src/utils/csvProcessor.js:87-130 | the two `forEach` passes build exactly the integrity result `Integrity` |
| CsvProcessor.IntegrityCounts | backend/src/utils/csvProcessor.js:102-116 | one error and one marked row per unmatched row, and matched plus unmatched rows make up all strings rows |
| CsvProcessor.IntegrityErrorsDescribeRows | backend/src/utils/csvProcessor.js:105-111 | each error names an in-range position, carries that row unchanged, and the row is unmatched with the no-match text |
| CsvProcessor.MarkedRowsFollowErrors | backend/src/utils/csvProcessor.js:111-112 | the k-th invalid row is the k-th error's row with only `_validationError` set to the error's text |
| CsvProcessor.IntegrityErrorsOrdered | backend/src/utils/csvProcessor.js:102-111 | error positions are in range and strictly increasing |
| CsvProcessor.IntegrityReportsUnmatched | backend/src/utils/csvProcessor.js:103-115 | a position is reported iff its row's key is not in the lookup |
| CsvProcessor.MatchedRowsMatch | backend/src/utils/csvProcessor.js:113-115 | every valid row is an unchanged strings row that matches |
| CsvProcessor.MatchedRowsInOrder | backend/src/utils/csvProcessor.js:113-115 | the valid rows are the in-order filter of the strings rows: the k-th valid row is the row at the k-th matching position, so every matching row appears once per position, in row order |
| CsvProcessor.LookupMembership | backend/src/utils/csvProcessor.js:93-105 | the lookup holds a strings row's key iff some classifications row has that key |
| CsvProcessor.IntegrityCountsAddUp | backend/src/utils/csvProcessor.js:118-126 | `totalRows` is the row count, `validRows + invalidRows = totalRows`, one error per invalid row, and `isValid` iff there are no errors |
| CsvProcessor.IntegritySpec | backend/src/utils/csvProcessor.js:87-130 | row i is reported iff no classifications row has its lower-cased key, and the result is valid iff every strings row has a classification |
| CsvProcessor.EmptyStringsPass | backend/src/utils/csvProcessor.js:118-122 | no strings rows means a valid result with no errors |
| CsvProcessor.NoKeysNoMatches | backend/src/utils/csvProcessor.js:105-115 | with an empty lookup no row is valid |
| CsvProcessor.EmptyClassificationsRejectAll | backend/src/utils/csvProcessor.js:93-126 | with no classifications every strings row is invalid |
| CsvProcessor.ClassificationsActAsSet | backend/src/utils/csvProcessor.js:93-97 | only the set of classifications rows matters: order and duplicates change nothing |
| CsvProcessor.CaseInsensitiveMatch | backend/src/utils/csvProcessor.js:95-103 | rows whose three values agree up to ASCII case match |
| CsvProcessor.PipeInValuesCollides | backend/src/utils/csvProcessor.js:95-103 | values containing `\|` can collide: different Topic and Subtopic values still match |
| CsvProcessor.ProjectionShape | backend/src/utils/csvProcessor.js:140-149 | the projection keeps the row count, and each output row has exactly the schema columns in order, valued `row[h]` or `''`, none internal |
| CsvProcessor.Reentries | backend/src/utils/csvProcessor.js:143-149 | assumed, not proved: a written row reads back as one entry per column, named and valued as written (the writer and reader libraries agree) |
| CsvProcessor.Reread | backend/src/utils/csvProcessor.js:154-155 | assumed, not proved: a written file reads back with the schema header and one record per written row (the writer and reader libraries agree) |
| CsvProcessor.CleanProjected | backend/src/utils/csvProcessor.js:143-149 | re-cleaning a projected row gives back exactly the row's fields |
| CsvProcessor.ProjectionRoundTrip | backend/src/utils/csvProcessor.js:139-149 | a dataset in parsed shape, written by `generateCSV` and parsed again, comes back unchanged |
| CsvProcessor.ParsedShape | backend/src/utils/csvProcessor.js:25-79 | records carrying exactly the schema columns parse into rows with position indices, no validation mark, exactly the schema keys and trimmed values |
| CsvProcessor.ParsedDatasetRoundTrips | backend/src/utils/csvProcessor.js:25-79 | a dataset parsed from complete records is in parsed shape, and export then re-import returns it unchanged |
| CsvProcessor.ValidateRowData | backend/src/utils/csvProcessor.js:174-195 | the header loop and the `Fuzzing-Idx` check push exactly `RowErrors`, and the row is valid iff nothing was pushed |
| CsvProcessor.MissingFieldErrorsExact | backend/src/utils/csvProcessor.js:178-182 | the missing-field messages name exactly the headers the row lacks, and none appear iff all are present |
| CsvProcessor.MissingFieldErrorsInOrder | backend/src/utils/csvProcessor.js:178-182 | the k-th missing-field message names the header at the k-th absent position, in header order |
| CsvProcessor.MissingFieldErrorsCount | backend/src/utils/csvProcessor.js:178-182 | over a header list without repeats there is exactly one message per absent header |
| CsvProcessor.RowErrorsSpec | backend/src/utils/csvProcessor.js:174-195 | a missing-field message for a schema field iff the row lacks it (an empty value counts as present), the number message iff `Fuzzing-Idx` is present, non-empty and NaN (strings only), and valid iff neither applies |
| CsvProcessor.RowErrorsInOrder | backend/src/utils/csvProcessor.js:174-195 | the messages come in check order: one per absent schema field in schema order, then the `Fuzzing-Idx` message last when it applies; their number is the count of absent fields plus one for a rejected `Fuzzing-Idx` |
| CsvProcessor.FuzzingIdxExamples | backend/src/utils/csvProcessor.js:185-189 | `12abc` passes, `not-a-number` fails for strings but not for classifications, and `''` is not checked |
| CsvController.WithDataset | backend/src/controllers/csvController.js:56-91 | storing one dataset leaves the other, the result and the time alone |
| CsvController.RevalidatedConsistent | backend/src/controllers/csvController.js:94-100 | re-validation keeps the session's counts consistent and changes neither dataset |
| CsvController.UploadNeedsAFile | backend/src/controllers/csvController.js:46-51 | an upload without files is refused and changes nothing |
| CsvController.UploadLoadsKindsIndependently | backend/src/controllers/csvController.js:56-102 | each file that parses replaces its own dataset; a failing or missing file leaves its dataset unchanged; the time is stamped |
| CsvController.UploadRevalidates | backend/src/controllers/csvController.js:94-100 | the stored result is recomputed iff both datasets hold rows (else the old one stays), and the response carries it exactly then |
| CsvController.CollectRowFailures | backend/src/controllers/csvController.js:147-156 | the `forEach` collects exactly the failures of the payload |
| CsvController.FailuresDescribeRows | backend/src/controllers/csvController.js:148-155 | each failure names an in-range position and carries that row's own non-empty errors |
| CsvController.FailuresOrdered | backend/src/controllers/csvController.js:148-155 | failure positions are in range and strictly increasing |
| CsvController.FailuresExact | backend/src/controllers/csvController.js:148-155 | a position is listed iff its row fails the check |
| CsvController.FailuresEmptyIff | backend/src/controllers/csvController.js:148-158 | there are no failures iff every row passes |
| CsvController.RowFailuresSpec | backend/src/controllers/csvController.js:147-164 | a payload is accepted iff every row passes `validateRowData`, and a rejection lists exactly the failing positions in ascending order, each with its own errors |
| CsvController.ReplaceNeedsAPayload | backend/src/controllers/csvController.js:137-142 | a PUT with neither dataset is refused and changes nothing |
| CsvController.ReplaceRejectsInvalidStrings | backend/src/controllers/csvController.js:145-164 | a strings payload with a failing row changes nothing, and the response lists its failures |
| CsvController.ReplaceCommitsStringsFirst | backend/src/controllers/csvController.js:166-188 | valid strings with failing classifications leave the new strings stored and nothing else changed |
| CsvController.ReplaceRevalidates | backend/src/controllers/csvController.js:166-211 | an accepted PUT stores the payloads, re-validates iff both datasets hold rows, stamps the time and returns the stored data |
| CsvController.EmptyPayloadKeepsStaleResult | backend/src/controllers/csvController.js:145-201 | emptying the strings keeps the previous integrity result |
| CsvController.ValidateSpec | backend/src/controllers/csvController.js:221-240 | validate is refused, changing nothing, iff a dataset is empty; otherwise it stores and returns the consistent integrity result |
| CsvController.ExportSpec | backend/src/controllers/csvController.js:249-303 | refused iff the type is unknown or a single requested kind is empty; a single kind exports its whole projection; `both` bundles exactly the non-empty datasets |
| CsvController.ExportSingleKind | backend/src/controllers/csvController.js:380-393 | a non-empty dataset exports as `<kind>.csv` holding its projection |
| CsvController.ExportThenUploadRestores | backend/src/controllers/csvController.js:380-393 | an exported dataset in parsed shape parses back to the stored rows |
| CsvController.StatsSummaryAgrees | backend/src/controllers/csvController.js:431-449 | in a consistent session, `hasData` iff the count is positive, and the error count equals the invalid rows, which with the valid rows make up the total |
| CsvController.UploadKeepsConsistency | backend/src/controllers/csvController.js:39-113 | an upload keeps the stored result's counts consistent |
| CsvController.ReplaceKeepsConsistency | backend/src/controllers/csvController.js:133-216 | a PUT keeps the stored result's counts consistent |
| CsvController.ValidateKeepsConsistency | backend/src/controllers/csvController.js:221-240 | validate and clear keep the stored result's counts consistent |
| CsvController.Session.constructor | backend/src/controllers/csvController.js:29-34 | the session starts empty |
| CsvController.Session.HandleUpload | backend/src/controllers/csvController.js:39-113 | the handler's field-by-field updates give exactly the new record and response of `Upload` |
| CsvController.Session.LoadFile | backend/src/controllers/csvController.js:56-91 | one file of an upload leaves the stored record as `Load` gives it (its kind replaced by the parsed rows, everything else kept) and reports the outcome `Outcome` gives |
| CsvController.Session.HandleReplace | backend/src/controllers/csvController.js:133-216 | the handler gives exactly the new record and response of `Replace` |
| CsvController.Session.HandleValidate | backend/src/controllers/csvController.js:221-240 | the handler gives exactly the new record and response of `Validate` |
| CsvController.Session.HandleExport | backend/src/controllers/csvController.js:245-409 | the handler answers `Export` and changes nothing |
| CsvController.Session.HandleClear | backend/src/controllers/csvController.js:414-426 | a clear resets the record to empty |
| CsvController.Session.HandleStats | backend/src/controllers/csvController.js:431-455 | the handler answers the stats of the stored record |
| TableEdits.SetCell | frontend/src/hooks/useCSVData.js:88-102 | an edit of an existing row changes only that field of that row; a missing row leaves the table unchanged |
| TableEdits.BlankRow | frontend/src/hooks/useCSVData.js:117-124 | the new row maps every schema header of its kind to `''` and nothing else |
| TableEdits.RemoveAt | frontend/src/CSVManagementApp.js:81-84 | an in-range splice removes exactly that position, keeping the survivors in order (a permutation minus the removed row); out of range, nothing changes |
| TableEdits.Renumbered | frontend/src/hooks/useCSVData.js:146-149 | after renumbering each row's `_rowIndex` is its position, and nothing else changes |
| TableEdits.BlankRowPasses | frontend/src/hooks/useCSVData.js:117-125 | a freshly added row passes `validateRowData`, so it never blocks a save |
| TableEdits.SetCellSameValue | frontend/src/hooks/useCSVData.js:93-98 | writing a cell's current value back leaves the table unchanged |
| TableEdits.RenumberedIdempotent | frontend/src/hooks/useCSVData.js:146-149 | renumbering twice is renumbering once |
| UseCsvData.CellKeyInjective | frontend/src/hooks/useCSVData.js:105-106 | distinct cells (kind, position, column) get distinct `${table}-${row}-${col}` keys |
| UseCsvData.DeletedAndRenumbered | frontend/src/hooks/useCSVData.js:143-151 | an in-range delete shrinks the table by one, every `_rowIndex` equals its position, and the survivors' fields keep their order; out of range, nothing changes |
| UseCsvData.CsvDataHook.constructor | frontend/src/hooks/useCSVData.js:6-19 | the hook starts with empty data, no edited cells and no unsaved changes |
| UseCsvData.CsvDataHook.UpdateCell | frontend/src/hooks/useCSVData.js:88-108 | the data becomes `SetCell` of the table; the cell key is added even for a missing row; the flag is set |
| UseCsvData.CsvDataHook.AddRow | frontend/src/hooks/useCSVData.js:111-135 | a blank row with `_rowIndex` equal to the old length is appended to that table only; the edited cells are unchanged; the flag is set |
| UseCsvData.CsvDataHook.DeleteRow | frontend/src/hooks/useCSVData.js:138-159 | the splice-and-renumber loop gives exactly `DeletedAndRenumbered` on that table only; the edited cells are unchanged; the flag is set even out of range |
| UseCsvData.CsvDataHook.SaveChanges | frontend/src/hooks/useCSVData.js:162-183 | an accepted PUT reply replaces the data and empties the edited cells and the flag; a refused one changes nothing |
| UseCsvData.CsvDataHook.ClearData | frontend/src/hooks/useCSVData.js:246-268 | a successful clear empties the data, the edited cells and the flag; a failed one changes nothing |
| UseCsvData.SaveKeepsTables | frontend/src/hooks/useCSVData.js:165-171 | an accepted save hands back exactly the tables the hook sent, with the server's record apart from its time stamp |
| CsvManagementApp.FindError | frontend/src/CSVManagementApp.js:185-187 | `find` returns the first error for the position, or none iff no error names it |
| CsvManagementApp.GetRowErrorMessage | frontend/src/CSVManagementApp.js:180-190 | as written, the result is not `null` iff the row is marked invalid, and it is never a text |
| CsvManagementApp.RowErrorMessage | frontend/src/CSVManagementApp.js:180-190 | with the `error` property read, the result is a text iff the row is marked invalid |
| CsvManagementApp.RowMarksFollowIntegrity | frontend/src/CSVManagementApp.js:169-177 | against an integrity result, a strings row is marked iff it is in range and has no classification, and then the corrected lookup shows its no-match text; classifications rows are never marked |
| CsvManagementApp.RowErrorMessageLost | frontend/src/CSVManagementApp.js:189 | for an unmatched strings row, the lookup as written gives `undefined` where the corrected one gives the text |
| CsvManagementApp.ManagementPage.constructor | frontend/src/CSVManagementApp.js:5-15 | the page starts with empty data and no unsaved changes |
| CsvManagementApp.ManagementPage.UpdateCell | frontend/src/CSVManagementApp.js:29-46 | the data becomes `SetCell` of that table, and the flag is set |
| CsvManagementApp.ManagementPage.AddRow | frontend/src/CSVManagementApp.js:49-72 | a blank row without `_rowIndex` is appended to that table only, and the flag is set |
| CsvManagementApp.ManagementPage.DeleteRow | frontend/src/CSVManagementApp.js:75-92 | once confirmed, the table becomes `RemoveAt` with no renumbering, and the flag is set; declined, nothing changes |
| CsvManagementApp.ManagementPage.SaveChanges | frontend/src/CSVManagementApp.js:95-144 | the update is sent iff a table is empty or the server's validation succeeds with a valid result; a returned result is stored; an accepted update replaces the data and clears the flag |
| CsvManagementApp.ManagementPage.ClearData | frontend/src/CSVManagementApp.js:207-234 | a confirmed, successful clear resets the data and the flag; otherwise nothing changes |
| CsvManagementApp.ManagementPage.UploadFiles | frontend/src/CSVManagementApp.js:236-302 | with a file and a successful server clear, the data and the flag are reset before the upload, then replaced by the record read back if any; otherwise nothing changes |
| CsvManagementApp.SaveGateIgnoresPageTables | frontend/src/CSVManagementApp.js:97-113 | when the stored session fails validation, the save is stopped whatever the page's unsaved tables hold |
| CsvManagementApp.EmptyTableSkipsGate | frontend/src/CSVManagementApp.js:97 | with an empty table, validation is skipped and the update is always sent |
| FileCheck.FileErrors | frontend/src/utils/api.js:151-161 | the extension message iff the lower-cased name does not end in `.csv`, the size message iff the size is over 10 MB, the empty message iff the size is 0; nothing else, at most two, in check order |
| FileCheck.ValidateCsvFile | frontend/src/utils/api.js:143-167 | no file gives exactly `No file selected` and invalid; otherwise the pushes give exactly `FileErrors`; valid iff there are no errors |
| FileCheck.FileAccepted | frontend/src/utils/api.js:151-166 | a present file passes iff its name ends in `.csv` in any case and its size is between 1 byte and 10 MB |
| FileCheck.UpperCaseExtensionAccepted | frontend/src/utils/api.js:151 | a `.CSV` name passes the extension check |

## Left out

- Line splitting, quoting and `skipEmptyLines` in `csv-parser`, and the writing done by `fast-csv`, are library work. The model starts at the events `csv-parser` emits (`CsvProcessor.Feed`). It assumes that what `fast-csv` writes, `csv-parser` reads back cell for cell (`CsvProcessor.Reread`).
- CsvProcessor.Parse: a record is a list of key/value properties, not a list of cell strings. Pairing cells with header names happens inside `csv-parser`, and the source's own cleaning works on the resulting object.
- CsvProcessor.CleanRecord: a data key that trims to `_rowIndex` is dropped from the fields, because the source overwrites that property. A key that trims to `_validationError` is kept as a field; the source would treat it as the internal property.
- The following are I/O plumbing with no effect on the stored record or the data written:
  - Express routing and the HTTP status codes;
  - multer's size, count and MIME limits;
  - archiver's ZIP encoding;
  - temp-directory creation and the file clean-up;
  - the 500 response when the ZIP or the temp directory fails.
- CsvController.Session.HandleUpload: the per-file `headers` list in the response (`Object.keys` of the first row minus internal names) is not modelled. It depends on JavaScript property order.
- GET `/data` returns the record unchanged. It is not modelled apart from being the `loaded` parameter of `CsvManagementApp.ManagementPage.UploadFiles`.
- The clock is a `now` parameter. It does not model `toISOString` formatting.
- `toLowerCase` is modelled for ASCII letters only. Other Unicode case mappings are not modelled.
- A request body that is not an array of objects holding strings is not modelled (JSON numbers, nested values, `null` rows). The presence test on the body (`!strings && !classifications`) and the truthiness tests `if (strings)` and `if (classifications)` are modelled as presence, because an array, even an empty one, is truthy.
- `rowIndex` arguments are integers. Non-integer or string indices are not modelled.
- A `columnKey` that names an internal property (`_rowIndex`) is treated as a plain field.
- UseCsvData.CsvDataHook.DeleteRow: the renumbering also changes the row objects still shared with the previous state, through aliasing in the source. The model works on values, so the previous state keeps its old indices.
- The hook's `loadData`, `uploadFiles`, `validateData` and `exportData`, and the page's `validateData`, `exportData` and file selection, copy server replies into state or start downloads. Only the reset and reload steps of the page's upload are modelled.
- Toasts, alerts, `window.confirm` dialogs, loading flags, the DOM downloads and React rendering are left out. A confirmation is a `confirmed` parameter.
- The asynchronous ordering of requests, and concurrent use of the one session, are left out. Handlers run one at a time.
- `formatFileSize` uses floating point and is left out.

## Findings

| source | as written | input that shows it | evidently intended | confidence | as-written member | corrected member |
|---|---|---|---|---|---|---|
| frontend/src/CSVManagementApp.js:189 | `getRowErrorMessage` returns `error.message`, but an integrity error keeps its text under `error` (backend/src/utils/csvProcessor.js:106-110), so a matching row yields `undefined` | a stored result from `validateDataIntegrity` over one strings row whose `Topic/Subtopic/Industry` has no classification; `getRowErrorMessage('strings', 0)` | the row's no-match text, `No matching classification found for ...` | not executed | CsvManagementApp.GetRowErrorMessage (with CsvManagementApp.RowErrorMessageLost) | CsvManagementApp.RowErrorMessage |
