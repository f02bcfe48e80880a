/** The data-integrity engine of `CSVProcessor`: the header check and row
    cleaning of `parseCSV`, the referential check `validateDataIntegrity`,
    the row projection of `generateCSV` and the per-row `validateRowData`. */
module CsvProcessor {
  import opened Wrappers
  import opened JsText
  import opened Schema

  // ---------------------------------------------------------------------
  // parseCSV: the header check
  // ---------------------------------------------------------------------

  /** `xs.filter(x => !ys.includes(x))`: the elements of `xs` that `ys`
      lacks, in the order of `xs`. */
  function Without(xs: seq<string>, ys: seq<string>): (r: seq<string>)
    ensures forall x :: x in r <==> x in xs && x !in ys
    ensures |r| <= |xs|
  {
    if xs == [] then []
    else (if xs[0] in ys then [] else [xs[0]]) + Without(xs[1..], ys)
  }

  /** `headers.map(h => h.trim())`. */
  function TrimAll(hs: seq<string>): seq<string> {
    seq(|hs|, i requires 0 <= i < |hs| => Trim(hs[i]))
  }

  /** The header check of the `headers` event: no trimmed expected header
      is missing from the trimmed found headers, and no found header is
      unexpected. */
  predicate HeadersAccepted(found: seq<string>, expected: seq<string>) {
    var normalizedHeaders := TrimAll(found);
    var normalizedExpected := TrimAll(expected);
    |Without(normalizedExpected, normalizedHeaders)| == 0
    && |Without(normalizedHeaders, normalizedExpected)| == 0
  }

  /** The elements of `TrimAll(hs)` are the trimmed elements of `hs`. */
  lemma TrimAllElements(hs: seq<string>)
    ensures forall x :: x in TrimAll(hs) <==> x in (set h | h in hs :: Trim(h))
  {
    forall x ensures x in TrimAll(hs) <==> x in (set h | h in hs :: Trim(h)) {
      if x in TrimAll(hs) {
        var i :| 0 <= i < |hs| && TrimAll(hs)[i] == x;
        assert hs[i] in hs;
      }
      if x in (set h | h in hs :: Trim(h)) {
        var h :| h in hs && Trim(h) == x;
        var i :| 0 <= i < |hs| && hs[i] == h;
        assert TrimAll(hs)[i] == x;
      }
    }
  }

  /** The header check compares SETS of trimmed names: order does not
      matter, and a repeated name is not rejected. */
  lemma {:induction false} HeadersAcceptedIffSameSet(found: seq<string>, expected: seq<string>)
    ensures HeadersAccepted(found, expected)
        <==> (set h | h in found :: Trim(h)) == (set h | h in expected :: Trim(h))
  {
    var nh, ne := TrimAll(found), TrimAll(expected);
    var fs, es := set h | h in found :: Trim(h), set h | h in expected :: Trim(h);
    TrimAllElements(found);
    TrimAllElements(expected);
    var missing, extra := Without(ne, nh), Without(nh, ne);
    if HeadersAccepted(found, expected) {
      forall x ensures x in fs <==> x in es {
        assert x !in missing && x !in extra;
      }
    } else if |missing| > 0 {
      assert missing[0] in missing;
      assert missing[0] in es && missing[0] !in fs;
    } else {
      assert extra[0] in extra;
      assert extra[0] in fs && extra[0] !in es;
    }
  }

  /** Any header list passes the check against itself. */
  lemma SelfAccepted(hs: seq<string>)
    ensures HeadersAccepted(hs, hs)
  {
    HeadersAcceptedIffSameSet(hs, hs);
  }

  /** The schema's own trimmed names, as a set. */
  lemma SchemaNameSet(kind: Kind)
    ensures (set h | h in Headers(kind) :: Trim(h)) == (set h | h in Headers(kind))
  {
    HeadersWellFormed(kind);
  }

  /** The found headers pass exactly when their trimmed names form the
      schema's set of names. */
  lemma HeadersAcceptedForKind(found: seq<string>, kind: Kind)
    ensures HeadersAccepted(found, Headers(kind))
        <==> (set h | h in found :: Trim(h)) == (set h | h in Headers(kind))
  {
    HeadersAcceptedIffSameSet(found, Headers(kind));
    SchemaNameSet(kind);
  }

  /** Repeated names pass the check: the schema with its first name written
      twice is accepted. */
  lemma RepeatedHeaderAccepted(kind: Kind)
    ensures HeadersAccepted(Headers(kind) + [Headers(kind)[0]], Headers(kind))
  {
    var hs := Headers(kind);
    var found := hs + [hs[0]];
    HeadersAcceptedIffSameSet(found, hs);
    assert forall x :: x in found <==> x in hs;
    assert (set h | h in found :: Trim(h)) == (set h | h in hs :: Trim(h));
  }

  // ---------------------------------------------------------------------
  // parseCSV: the rows
  // ---------------------------------------------------------------------

  /** One property of a `data` event object: its key and its value, which
      is absent when the value is `undefined` or `null`. */
  datatype Entry = Entry(key: string, value: Option<string>)

  /** What the `csv-parser` stream hands to the source: the found header
      names if a `headers` event fires, the property lists of the `data`
      events in order, and the message of an `error` event if one fires. */
  datatype Feed = Feed(header: Option<seq<string>>, records: seq<seq<Entry>>, streamError: Option<string>)

  /** Why parsing fails: the header check, or the stream's own error. */
  datatype ParseError = HeaderMismatch(kind: Kind, found: seq<string>) | StreamError(message: string)

  /** The `message` of the rejected error. */
  function ParseErrorMessage(e: ParseError): string {
    match e
    case HeaderMismatch(kind, found) =>
      "Invalid CSV headers for " + KindName(kind) + " file. Expected: ["
      + Join(Headers(kind), ", ") + "]. Found: [" + Join(found, ", ") + "]"
    case StreamError(message) => message
  }

  /** `data[key] ? data[key].toString().trim() : ''`: an absent value
      becomes the empty string, a present one (the empty string included)
      its trim. */
  function CleanValue(v: Option<string>): (r: string)
    ensures IsTrimmed(r)
    ensures v.None? ==> r == ""
    ensures v.Some? ==> r == Trim(v.value)
  {
    match v
    case None => ""
    case Some(s) => if s == "" then "" else Trim(s)
  }

  /** The `cleanedData` object built from one data event, before its
      `_rowIndex`: each key and value trimmed; when two keys trim to the
      same name, the later assignment wins. */
  function CleanFields(entries: seq<Entry>): map<string, string>
    decreases |entries|
  {
    if entries == [] then map[]
    else
      var last := entries[|entries| - 1];
      CleanFields(entries[..|entries| - 1])[Trim(last.key) := CleanValue(last.value)]
  }

  /** The cleaned object has exactly the trimmed keys of the event, and
      every key and every value in it is trimmed. */
  lemma {:induction false} CleanFieldsShape(entries: seq<Entry>)
    ensures CleanFields(entries).Keys == set e | e in entries :: Trim(e.key)
    ensures forall k :: k in CleanFields(entries) ==> IsTrimmed(k) && IsTrimmed(CleanFields(entries)[k])
  {
    if entries != [] {
      var n := |entries| - 1;
      CleanFieldsShape(entries[..n]);
      assert forall e :: e in entries <==> e in entries[..n] || e == entries[n];
    }
  }

  /** A key's value is the cleaned value of the LAST entry whose key trims
      to it. */
  lemma {:induction false} CleanFieldsLast(entries: seq<Entry>, j: nat)
    requires j < |entries|
    requires forall l :: j < l < |entries| ==> Trim(entries[l].key) != Trim(entries[j].key)
    ensures Trim(entries[j].key) in CleanFields(entries)
    ensures CleanFields(entries)[Trim(entries[j].key)] == CleanValue(entries[j].value)
  {
    var n := |entries| - 1;
    if j < n {
      CleanFieldsLast(entries[..n], j);
    }
  }

  /** The row a data event becomes: its cleaned properties with
      `_rowIndex` set to the number of rows emitted before it. */
  function CleanRecord(entries: seq<Entry>, index: nat): Row {
    Row(CleanFields(entries) - {"_rowIndex"}, Some(index), None)
  }

  /** The rows of the data events, each with its position as `_rowIndex`. */
  function CleanRecords(records: seq<seq<Entry>>): (rows: seq<Row>)
    ensures |rows| == |records|
    ensures forall i :: 0 <= i < |records| ==> rows[i] == CleanRecord(records[i], i)
  {
    seq(|records|, i requires 0 <= i < |records| => CleanRecord(records[i], i))
  }

  /** `parseCSV` on what the stream emits. A failed header check rejects
      (the promise settles then, so a later stream error is not seen); a
      stream error rejects; rows are collected only once a header has
      passed, so a stream that never announces a header yields no rows. */
  function Parse(feed: Feed, kind: Kind): Result<seq<Row>, ParseError> {
    if feed.header.Some? && !HeadersAccepted(feed.header.value, Headers(kind)) then
      Failure(HeaderMismatch(kind, feed.header.value))
    else if feed.streamError.Some? then
      Failure(StreamError(feed.streamError.value))
    else if feed.header.None? then
      Success([])
    else
      Success(CleanRecords(feed.records))
  }

  /** The cleaning loop of one `data` event. */
  method CleanEntries(entries: seq<Entry>, index: nat) returns (row: Row)
    ensures row == CleanRecord(entries, index)
  {
    var cleanedData: map<string, string> := map[];
    var j := 0;
    while j < |entries|
      invariant 0 <= j <= |entries|
      invariant cleanedData == CleanFields(entries[..j])
    {
      var cleanKey := Trim(entries[j].key);
      cleanedData := cleanedData[cleanKey := CleanValue(entries[j].value)];
      assert entries[..j + 1][..j] == entries[..j];
      j := j + 1;
    }
    assert entries[..j] == entries;
    row := Row(cleanedData - {"_rowIndex"}, Some(index), None);
  }

  /** The two `filter` passes of the `headers` handler and their test: the
      headers pass exactly when their trimmed names and the trimmed expected
      names form the same set. */
  method CheckHeaders(found: seq<string>, expected: seq<string>) returns (accepted: bool)
    ensures accepted == HeadersAccepted(found, expected)
    ensures accepted <==> (set h | h in found :: Trim(h)) == (set h | h in expected :: Trim(h))
  {
    HeadersAcceptedIffSameSet(found, expected);
    var normalizedHeaders := TrimAll(found);
    var normalizedExpected := TrimAll(expected);
    var missingHeaders := Without(normalizedExpected, normalizedHeaders);
    var extraHeaders := Without(normalizedHeaders, normalizedExpected);
    accepted := !(|missingHeaders| > 0 || |extraHeaders| > 0);
  }

  /** One more data event adds its cleaned row at the end. */
  lemma CleanRecordsStep(records: seq<seq<Entry>>, i: nat)
    requires i < |records|
    ensures CleanRecords(records[..i + 1]) == CleanRecords(records[..i]) + [CleanRecord(records[i], i)]
  {
  }

  /** `parseCSV`, event by event: the `headerValidated` flag, the rows
      pushed into `results`, and the rejection. */
  method ParseCSV(feed: Feed, kind: Kind) returns (r: Result<seq<Row>, ParseError>)
    ensures r == Parse(feed, kind)
  {
    var results: seq<Row> := [];
    var headerValidated := false;
    if feed.header.Some? {
      var accepted := CheckHeaders(feed.header.value, Headers(kind));
      if !accepted {
        return Failure(HeaderMismatch(kind, feed.header.value));
      }
      headerValidated := true;
    }
    var i := 0;
    while i < |feed.records|
      invariant 0 <= i <= |feed.records|
      invariant results == if headerValidated then CleanRecords(feed.records[..i]) else []
    {
      if headerValidated {
        CleanRecordsStep(feed.records, i);
        var cleaned := CleanEntries(feed.records[i], |results|);
        results := results + [cleaned];
      }
      i := i + 1;
    }
    if feed.streamError.Some? {
      return Failure(StreamError(feed.streamError.value));
    }
    assert feed.records[..i] == feed.records;
    r := Success(results);
  }

  /** A stream that announces exactly the schema and raises no error
      parses to all its records. */
  lemma ParseSchemaHeader(feed: Feed, kind: Kind)
    requires feed.header == Some(Headers(kind)) && feed.streamError.None?
    ensures Parse(feed, kind) == Success(CleanRecords(feed.records))
  {
    SelfAccepted(Headers(kind));
  }

  /** Parsing fails on the header exactly when a header is announced whose
      trimmed names differ, as a set, from the schema; then no rows come back. */
  lemma ParseRejectsHeaderIff(feed: Feed, kind: Kind)
    ensures Parse(feed, kind).Failure? && Parse(feed, kind).error.HeaderMismatch?
        <==> feed.header.Some?
             && (set h | h in feed.header.value :: Trim(h)) != (set h | h in Headers(kind))
  {
    if feed.header.Some? {
      HeadersAcceptedForKind(feed.header.value, kind);
    }
  }

  /** Every parsed row has trimmed keys and values, no validation mark, and
      `_rowIndex` equal to its position, so the indices are 0 .. n-1. */
  lemma ParsedRowsClean(feed: Feed, kind: Kind)
    requires Parse(feed, kind).Success?
    ensures var rows := Parse(feed, kind).value;
      forall i :: 0 <= i < |rows| ==>
        rows[i].rowIndex == Some(i) && rows[i].validationError.None?
        && forall k :: k in rows[i].fields ==> IsTrimmed(k) && IsTrimmed(rows[i].fields[k])
  {
    var rows := Parse(feed, kind).value;
    forall i | 0 <= i < |rows|
      ensures forall k :: k in rows[i].fields ==> IsTrimmed(k) && IsTrimmed(rows[i].fields[k])
    {
      CleanFieldsShape(feed.records[i]);
    }
  }

  /** A file holding only the header parses to no rows. */
  lemma HeaderOnlyYieldsNoRows(feed: Feed, kind: Kind)
    requires feed.header == Some(Headers(kind)) && feed.records == [] && feed.streamError.None?
    ensures Parse(feed, kind) == Success([])
  {
    ParseSchemaHeader(feed, kind);
  }

  // ---------------------------------------------------------------------
  // Filters, by position
  // ---------------------------------------------------------------------

  /** The positions of `xs` whose element passes `keep`, in increasing
      order: a reference for the order-preserving filters below. */
  function Positions<T>(xs: seq<T>, keep: T -> bool): (ps: seq<nat>)
    ensures forall k :: 0 <= k < |ps| ==> ps[k] < |xs| && keep(xs[ps[k]])
    ensures forall k, l :: 0 <= k < l < |ps| ==> ps[k] < ps[l]
    ensures forall i :: 0 <= i < |xs| && keep(xs[i]) ==> i in ps
    decreases |xs|
  {
    if xs == [] then []
    else
      var n := |xs| - 1;
      var ps0 := Positions(xs[..n], keep);
      assert forall k :: 0 <= k < |ps0| ==> xs[..n][ps0[k]] == xs[ps0[k]];
      assert forall i :: 0 <= i < n ==> xs[..n][i] == xs[i];
      ps0 + (if keep(xs[n]) then [n] else [])
  }

  // ---------------------------------------------------------------------
  // validateDataIntegrity
  // ---------------------------------------------------------------------

  /** `` `${topic}|${subtopic}|${industry}`.toLowerCase() ``: the composite
      key, joined as a string. */
  function LookupKey(topic: string, subtopic: string, industry: string): string {
    Lower(topic + "|" + subtopic + "|" + industry)
  }

  /** The key of a classifications row, read through `SubTopic`. */
  function ClassificationKey(row: Row): string {
    LookupKey(Prop(row, "Topic"), Prop(row, "SubTopic"), Prop(row, "Industry"))
  }

  /** The key of a strings row, read through `Subtopic`. */
  function StringsKey(row: Row): string {
    LookupKey(Prop(row, "Topic"), Prop(row, "Subtopic"), Prop(row, "Industry"))
  }

  /** `classificationLookup`: the set of keys of all classifications rows. */
  function ClassificationKeys(classifications: seq<Row>): set<string> {
    set row | row in classifications :: ClassificationKey(row)
  }

  /** The error text of an unmatched strings row, with its original-case values. */
  function NoMatchMessage(row: Row): string {
    "No matching classification found for Topic: \"" + Prop(row, "Topic")
    + "\", SubTopic: \"" + Prop(row, "Subtopic")
    + "\", Industry: \"" + Prop(row, "Industry") + "\""
  }

  /** One entry of `errors`: the position, the row itself, and the text. */
  datatype IntegrityError = IntegrityError(rowIndex: nat, row: Row, error: string)

  /** The object `validateDataIntegrity` returns. */
  datatype ValidationResult = ValidationResult(
    isValid: bool, totalRows: nat, validRows: nat, invalidRows: nat,
    errors: seq<IntegrityError>, validRowsData: seq<Row>, invalidRowsData: seq<Row>)

  predicate Matches(row: Row, keys: set<string>) {
    StringsKey(row) in keys
  }

  /** The errors, one per unmatched row, in row order. */
  function IntegrityErrors(strings: seq<Row>, keys: set<string>): seq<IntegrityError>
    decreases |strings|
  {
    if strings == [] then []
    else
      var n := |strings| - 1;
      IntegrityErrors(strings[..n], keys)
      + (if Matches(strings[n], keys) then [] else [IntegrityError(n, strings[n], NoMatchMessage(strings[n]))])
  }

  /** The matched rows, unchanged, in row order. */
  function MatchedRows(strings: seq<Row>, keys: set<string>): seq<Row>
    decreases |strings|
  {
    if strings == [] then []
    else
      var n := |strings| - 1;
      MatchedRows(strings[..n], keys) + (if Matches(strings[n], keys) then [strings[n]] else [])
  }

  /** `{ ...row, _validationError: text }`. */
  function MarkInvalid(row: Row): Row {
    row.(validationError := Some(NoMatchMessage(row)))
  }

  /** The unmatched rows, each marked with its error text, in row order. */
  function MarkedRows(strings: seq<Row>, keys: set<string>): seq<Row>
    decreases |strings|
  {
    if strings == [] then []
    else
      var n := |strings| - 1;
      MarkedRows(strings[..n], keys) + (if Matches(strings[n], keys) then [] else [MarkInvalid(strings[n])])
  }

  /** What `validateDataIntegrity(strings, classifications)` returns. */
  function Integrity(strings: seq<Row>, classifications: seq<Row>): ValidationResult {
    var keys := ClassificationKeys(classifications);
    var errors := IntegrityErrors(strings, keys);
    var valid := MatchedRows(strings, keys);
    var invalid := MarkedRows(strings, keys);
    ValidationResult(|errors| == 0, |strings|, |valid|, |invalid|, errors, valid, invalid)
  }

  /** The first pass of `validateDataIntegrity`: every classifications
      row's key added to `classificationLookup`. */
  method BuildLookup(classifications: seq<Row>) returns (classificationLookup: set<string>)
    ensures classificationLookup == ClassificationKeys(classifications)
  {
    classificationLookup := {};
    var c := 0;
    while c < |classifications|
      invariant 0 <= c <= |classifications|
      invariant classificationLookup == ClassificationKeys(classifications[..c])
    {
      assert classifications[..c + 1] == classifications[..c] + [classifications[c]];
      classificationLookup := classificationLookup + {ClassificationKey(classifications[c])};
      c := c + 1;
    }
    assert classifications[..c] == classifications;
  }

  /** Appending a row extends each of the three lists by at most that row. */
  lemma IntegrityStep(strings: seq<Row>, index: nat, keys: set<string>)
    requires index < |strings|
    ensures IntegrityErrors(strings[..index + 1], keys)
         == IntegrityErrors(strings[..index], keys)
            + (if Matches(strings[index], keys) then [] else [IntegrityError(index, strings[index], NoMatchMessage(strings[index]))])
    ensures MatchedRows(strings[..index + 1], keys)
         == MatchedRows(strings[..index], keys) + (if Matches(strings[index], keys) then [strings[index]] else [])
    ensures MarkedRows(strings[..index + 1], keys)
         == MarkedRows(strings[..index], keys) + (if Matches(strings[index], keys) then [] else [MarkInvalid(strings[index])])
  {
    assert strings[..index + 1][..index] == strings[..index];
  }

  method ValidateDataIntegrity(strings: seq<Row>, classifications: seq<Row>) returns (result: ValidationResult)
    ensures result == Integrity(strings, classifications)
  {
    var classificationLookup := BuildLookup(classifications);
    var validationErrors: seq<IntegrityError> := [];
    var validRows: seq<Row> := [];
    var invalidRows: seq<Row> := [];
    var index := 0;
    while index < |strings|
      invariant 0 <= index <= |strings|
      invariant validationErrors == IntegrityErrors(strings[..index], classificationLookup)
      invariant validRows == MatchedRows(strings[..index], classificationLookup)
      invariant invalidRows == MarkedRows(strings[..index], classificationLookup)
    {
      var row := strings[index];
      IntegrityStep(strings, index, classificationLookup);
      if StringsKey(row) !in classificationLookup {
        var error := IntegrityError(index, row, NoMatchMessage(row));
        validationErrors := validationErrors + [error];
        invalidRows := invalidRows + [row.(validationError := Some(error.error))];
      } else {
        validRows := validRows + [row];
      }
      index := index + 1;
    }
    assert strings[..index] == strings;
    result := ValidationResult(|validationErrors| == 0, |strings|, |validRows|, |invalidRows|,
                               validationErrors, validRows, invalidRows);
  }

  /** Row `i` is reported in `errors`. */
  predicate Reported(errors: seq<IntegrityError>, i: nat) {
    exists k :: 0 <= k < |errors| && errors[k].rowIndex == i
  }

  /** The partition sizes add up: one error and one marked row per
      unmatched row, and the matched rows make up the rest. */
  lemma {:induction false} IntegrityCounts(strings: seq<Row>, keys: set<string>)
    ensures |IntegrityErrors(strings, keys)| == |MarkedRows(strings, keys)|
    ensures |IntegrityErrors(strings, keys)| + |MatchedRows(strings, keys)| == |strings|
  {
    if strings != [] {
      IntegrityCounts(strings[..|strings| - 1], keys);
    }
  }

  /** Each error names a position of an unmatched row and carries that row
      unchanged with its message. */
  lemma {:induction false} IntegrityErrorsDescribeRows(strings: seq<Row>, keys: set<string>)
    ensures forall k :: 0 <= k < |IntegrityErrors(strings, keys)| ==>
      var e := IntegrityErrors(strings, keys)[k];
      e.rowIndex < |strings| && e.row == strings[e.rowIndex]
      && !Matches(e.row, keys) && e.error == NoMatchMessage(e.row)
  {
    if strings != [] {
      var n := |strings| - 1;
      var init := strings[..n];
      IntegrityErrorsDescribeRows(init, keys);
      var e0 := IntegrityErrors(init, keys);
      var row := strings[n];
      var tail := if Matches(row, keys) then [] else [IntegrityError(n, row, NoMatchMessage(row))];
      assert IntegrityErrors(strings, keys) == e0 + tail;
      assert forall i :: 0 <= i < n ==> init[i] == strings[i];
    }
  }

  /** The marked row at each place of the errors is that error's row with
      only `_validationError` added. */
  lemma {:induction false} MarkedRowsFollowErrors(strings: seq<Row>, keys: set<string>)
    ensures |MarkedRows(strings, keys)| == |IntegrityErrors(strings, keys)|
    ensures forall k :: 0 <= k < |IntegrityErrors(strings, keys)| ==>
      MarkedRows(strings, keys)[k]
      == IntegrityErrors(strings, keys)[k].row.(validationError := Some(IntegrityErrors(strings, keys)[k].error))
  {
    if strings != [] {
      var n := |strings| - 1;
      var init := strings[..n];
      MarkedRowsFollowErrors(init, keys);
      var row := strings[n];
      if Matches(row, keys) {
        assert IntegrityErrors(strings, keys) == IntegrityErrors(init, keys);
        assert MarkedRows(strings, keys) == MarkedRows(init, keys);
      } else {
        assert IntegrityErrors(strings, keys) == IntegrityErrors(init, keys) + [IntegrityError(n, row, NoMatchMessage(row))];
        assert MarkedRows(strings, keys) == MarkedRows(init, keys) + [MarkInvalid(row)];
      }
    }
  }

  /** The positions in the errors rise strictly: the errors keep the order
      of the strings rows and name no row twice. */
  lemma {:induction false} IntegrityErrorsOrdered(strings: seq<Row>, keys: set<string>)
    ensures forall k :: 0 <= k < |IntegrityErrors(strings, keys)| ==>
      IntegrityErrors(strings, keys)[k].rowIndex < |strings|
    ensures forall k, l :: 0 <= k < l < |IntegrityErrors(strings, keys)| ==>
      IntegrityErrors(strings, keys)[k].rowIndex < IntegrityErrors(strings, keys)[l].rowIndex
  {
    if strings != [] {
      var n := |strings| - 1;
      var row := strings[n];
      var e0 := IntegrityErrors(strings[..n], keys);
      IntegrityErrorsOrdered(strings[..n], keys);
      var tail := if Matches(row, keys) then [] else [IntegrityError(n, row, NoMatchMessage(row))];
      var errors := IntegrityErrors(strings, keys);
      assert errors == e0 + tail;
      forall k | 0 <= k < |errors| ensures errors[k].rowIndex < |strings| {
        if k < |e0| {
          assert errors[k] == e0[k];
        }
      }
      forall k, l | 0 <= k < l < |errors| ensures errors[k].rowIndex < errors[l].rowIndex {
        assert errors[k] == e0[k];
        if l < |e0| {
          assert errors[l] == e0[l];
        }
      }
    }
  }

  /** A row is reported exactly when it is unmatched. */
  lemma {:induction false} IntegrityReportsUnmatched(strings: seq<Row>, keys: set<string>)
    ensures forall i :: 0 <= i < |strings| ==>
      (Reported(IntegrityErrors(strings, keys), i) <==> !Matches(strings[i], keys))
  {
    if strings != [] {
      var n := |strings| - 1;
      var init := strings[..n];
      IntegrityReportsUnmatched(init, keys);
      IntegrityErrorsOrdered(init, keys);
      var errors := IntegrityErrors(strings, keys);
      var e0 := IntegrityErrors(init, keys);
      var row := strings[n];
      var tail := if Matches(row, keys) then [] else [IntegrityError(n, row, NoMatchMessage(row))];
      assert errors == e0 + tail;
      forall i | 0 <= i < |strings|
        ensures Reported(errors, i) <==> !Matches(strings[i], keys)
      {
        ReportedConcat(e0, tail, i);
        if i < n {
          assert strings[i] == init[i];
          assert Reported(e0, i) <==> !Matches(init[i], keys);
          assert !Reported(tail, i);
        } else {
          if !Matches(row, keys) {
            assert tail[0].rowIndex == i;
          }
        }
      }
    }
  }

  /** A position is reported by two lists of errors together exactly when
      one of them reports it. */
  lemma ReportedConcat(e0: seq<IntegrityError>, tail: seq<IntegrityError>, i: nat)
    ensures Reported(e0 + tail, i) <==> Reported(e0, i) || Reported(tail, i)
  {
    var errors := e0 + tail;
    if Reported(errors, i) {
      var k :| 0 <= k < |errors| && errors[k].rowIndex == i;
      if k >= |e0| {
        assert tail[k - |e0|].rowIndex == i;
      }
    }
    if Reported(e0, i) {
      var k :| 0 <= k < |e0| && e0[k].rowIndex == i;
      assert errors[k].rowIndex == i;
    }
    if Reported(tail, i) {
      var k :| 0 <= k < |tail| && tail[k].rowIndex == i;
      assert errors[|e0| + k].rowIndex == i;
    }
  }

  /** The valid rows are strings rows, unchanged, that match. */
  lemma {:induction false} MatchedRowsMatch(strings: seq<Row>, keys: set<string>)
    ensures forall r :: r in MatchedRows(strings, keys) ==> r in strings && Matches(r, keys)
  {
    if strings != [] {
      var n := |strings| - 1;
      MatchedRowsMatch(strings[..n], keys);
      assert forall r :: r in strings[..n] ==> r in strings;
    }
  }

  /** `validRows` is the in-order filter of the strings rows on a match:
      its k-th row is the strings row at the k-th matching position, so
      every matching row appears, once per position, in row order. */
  lemma {:induction false} MatchedRowsInOrder(strings: seq<Row>, keys: set<string>)
    ensures var valid, ps := MatchedRows(strings, keys), Positions(strings, r => Matches(r, keys));
      |valid| == |ps| && forall k :: 0 <= k < |valid| ==> valid[k] == strings[ps[k]]
  {
    if strings != [] {
      var n := |strings| - 1;
      var init := strings[..n];
      MatchedRowsInOrder(init, keys);
      var keep := r => Matches(r, keys);
      var valid0, ps0 := MatchedRows(init, keys), Positions(init, keep);
      var valid, ps := MatchedRows(strings, keys), Positions(strings, keep);
      assert ps == ps0 + (if keep(strings[n]) then [n] else []);
      assert valid == valid0 + (if Matches(strings[n], keys) then [strings[n]] else []);
      forall k | 0 <= k < |valid| ensures valid[k] == strings[ps[k]] {
        if k < |valid0| {
          assert valid[k] == valid0[k] == init[ps0[k]];
        }
      }
    }
  }

  /** Some classifications row has the key of this strings row. */
  predicate HasClassification(classifications: seq<Row>, row: Row) {
    exists c :: c in classifications && ClassificationKey(c) == StringsKey(row)
  }

  /** The lookup set holds a strings row's key exactly when some
      classifications row has that key. */
  lemma LookupMembership(classifications: seq<Row>, row: Row)
    ensures Matches(row, ClassificationKeys(classifications)) <==> HasClassification(classifications, row)
  {
  }

  /** The summary counts add up to the number of strings rows, one error
      per invalid row, and the result is valid exactly when there are no
      errors. */
  lemma IntegrityCountsAddUp(strings: seq<Row>, classifications: seq<Row>)
    ensures Integrity(strings, classifications).totalRows == |strings|
    ensures Integrity(strings, classifications).validRows + Integrity(strings, classifications).invalidRows == |strings|
    ensures |Integrity(strings, classifications).errors| == Integrity(strings, classifications).invalidRows
    ensures Integrity(strings, classifications).isValid <==> Integrity(strings, classifications).errors == []
  {
    IntegrityCounts(strings, ClassificationKeys(classifications));
  }

  /** A strings row is reported exactly when no classifications row has the
      same lower-cased `Topic|SubTopic|Industry` key as its lower-cased
      `Topic|Subtopic|Industry`; the result is valid exactly when every
      strings row has a classification. */
  lemma IntegritySpec(strings: seq<Row>, classifications: seq<Row>)
    ensures forall i :: 0 <= i < |strings| ==>
      (Reported(Integrity(strings, classifications).errors, i) <==> !HasClassification(classifications, strings[i]))
    ensures Integrity(strings, classifications).isValid
        <==> forall i :: 0 <= i < |strings| ==> HasClassification(classifications, strings[i])
  {
    var keys := ClassificationKeys(classifications);
    var errors := IntegrityErrors(strings, keys);
    IntegrityReportsUnmatched(strings, keys);
    IntegrityErrorsOrdered(strings, keys);
    forall i | 0 <= i < |strings|
      ensures Matches(strings[i], keys) <==> HasClassification(classifications, strings[i])
    {
      LookupMembership(classifications, strings[i]);
    }
    if errors != [] {
      assert Reported(errors, errors[0].rowIndex);
    }
  }

  /** With no strings rows the check passes vacuously. */
  lemma EmptyStringsPass(classifications: seq<Row>)
    ensures Integrity([], classifications).isValid
    ensures Integrity([], classifications).totalRows == 0
    ensures Integrity([], classifications).errors == []
  {
  }

  /** With no keys to match, no row matches. */
  lemma {:induction false} NoKeysNoMatches(strings: seq<Row>)
    ensures MatchedRows(strings, {}) == []
  {
    if strings != [] {
      NoKeysNoMatches(strings[..|strings| - 1]);
    }
  }

  /** With no classifications every strings row is invalid. */
  lemma EmptyClassificationsRejectAll(strings: seq<Row>)
    ensures Integrity(strings, []).invalidRows == |strings|
    ensures Integrity(strings, []).validRows == 0
    ensures Integrity(strings, []).isValid <==> strings == []
  {
    assert ClassificationKeys([]) == {};
    NoKeysNoMatches(strings);
    IntegrityCounts(strings, {});
  }

  /** Only the SET of classifications rows matters: duplicates collapse and
      order is irrelevant, so a classifications row is never reported. */
  lemma ClassificationsActAsSet(strings: seq<Row>, cls1: seq<Row>, cls2: seq<Row>)
    requires forall c :: c in cls1 <==> c in cls2
    ensures Integrity(strings, cls1) == Integrity(strings, cls2)
  {
    assert ClassificationKeys(cls1) == ClassificationKeys(cls2);
  }

  /** Matching ignores ASCII case in each of the three values. */
  lemma CaseInsensitiveMatch(s: Row, c: Row)
    requires Lower(Prop(s, "Topic")) == Lower(Prop(c, "Topic"))
    requires Lower(Prop(s, "Subtopic")) == Lower(Prop(c, "SubTopic"))
    requires Lower(Prop(s, "Industry")) == Lower(Prop(c, "Industry"))
    ensures StringsKey(s) == ClassificationKey(c)
    ensures Integrity([s], [c]).isValid
  {
    LowerAppend(Prop(s, "Topic") + "|" + Prop(s, "Subtopic") + "|", Prop(s, "Industry"));
    LowerAppend(Prop(s, "Topic") + "|" + Prop(s, "Subtopic"), "|");
    LowerAppend(Prop(s, "Topic") + "|", Prop(s, "Subtopic"));
    LowerAppend(Prop(s, "Topic"), "|");
    LowerAppend(Prop(c, "Topic") + "|" + Prop(c, "SubTopic") + "|", Prop(c, "Industry"));
    LowerAppend(Prop(c, "Topic") + "|" + Prop(c, "SubTopic"), "|");
    LowerAppend(Prop(c, "Topic") + "|", Prop(c, "SubTopic"));
    LowerAppend(Prop(c, "Topic"), "|");
    assert c in [c];
    IntegritySpec([s], [c]);
  }

  /** Because the key is a joined string, values containing `|` collide:
      a strings row whose three values differ from the only classification
      still passes. */
  lemma PipeInValuesCollides()
    ensures var s := Row(map["Topic" := "a|b", "Subtopic" := "c", "Industry" := "d"], Some(0), None);
            var c := Row(map["Topic" := "a", "SubTopic" := "b|c", "Industry" := "d"], Some(0), None);
            Prop(s, "Topic") != Prop(c, "Topic") && Prop(s, "Subtopic") != Prop(c, "SubTopic")
            && Integrity([s], [c]).isValid
  {
    var s := Row(map["Topic" := "a|b", "Subtopic" := "c", "Industry" := "d"], Some(0), None);
    var c := Row(map["Topic" := "a", "SubTopic" := "b|c", "Industry" := "d"], Some(0), None);
    assert Prop(s, "Topic") == "a|b" && Prop(s, "Subtopic") == "c" && Prop(s, "Industry") == "d";
    assert Prop(c, "Topic") == "a" && Prop(c, "SubTopic") == "b|c" && Prop(c, "Industry") == "d";
    assert "a|b" + "|" + "c" + "|" + "d" == "a" + "|" + "b|c" + "|" + "d";
    assert StringsKey(s) == ClassificationKey(c);
    assert ClassificationKeys([c]) == {ClassificationKey(c)};
    assert [s][..0] == [];
    assert IntegrityErrors([s], {ClassificationKey(c)}) == [];
  }

  // ---------------------------------------------------------------------
  // generateCSV: the projection
  // ---------------------------------------------------------------------

  /** One written field: its column name and its text. */
  datatype Cell = Cell(name: string, value: string)

  /** `row[header] || ''`. */
  function OutputValue(row: Row, header: string): string {
    if header in row.fields && row.fields[header] != "" then row.fields[header] else ""
  }

  /** `cleanRow`: the schema's columns in canonical order. */
  function ProjectRow(row: Row, headers: seq<string>): seq<Cell> {
    seq(|headers|, j requires 0 <= j < |headers| => Cell(headers[j], OutputValue(row, headers[j])))
  }

  /** `cleanData`: every row projected onto the schema of `kind`. */
  function CleanData(data: seq<Row>, kind: Kind): seq<seq<Cell>> {
    seq(|data|, i requires 0 <= i < |data| => ProjectRow(data[i], Headers(kind)))
  }

  function Names(cells: seq<Cell>): seq<string> {
    seq(|cells|, j requires 0 <= j < |cells| => cells[j].name)
  }

  /** The projection keeps the row count; each output row has exactly the
      schema columns in canonical order, none of them internal, valued
      `row[h]` or `''` when the row has no such field. */
  lemma ProjectionShape(data: seq<Row>, kind: Kind)
    ensures |CleanData(data, kind)| == |data|
    ensures forall i :: 0 <= i < |data| ==>
      Names(CleanData(data, kind)[i]) == Headers(kind)
      && (forall j :: 0 <= j < |Headers(kind)| ==>
            CleanData(data, kind)[i][j].value
            == (if Headers(kind)[j] in data[i].fields then data[i].fields[Headers(kind)[j]] else ""))
      && (forall c :: c in CleanData(data, kind)[i] ==> !StartsWith(c.name, "_"))
  {
    HeadersWellFormed(kind);
  }

  /** The properties `csv-parser` reads back from one written row: each
      cell under its column name. */
  function Reentries(cells: seq<Cell>): (entries: seq<Entry>)
    ensures |entries| == |cells|
    ensures forall j :: 0 <= j < |cells| ==> entries[j] == Entry(cells[j].name, Some(cells[j].value))
  {
    seq(|cells|, j requires 0 <= j < |cells| => Entry(cells[j].name, Some(cells[j].value)))
  }

  /** What `csv-parser` hands back for the text `fast-csv` writes from
      projected rows: the header line and, per row, the cells keyed by
      column. `fast-csv` writes no header line when there are no rows. The
      two libraries are assumed to agree on quoting. */
  function Reread(projected: seq<seq<Cell>>, kind: Kind): (feed: Feed)
    ensures |feed.records| == |projected|
    ensures forall i :: 0 <= i < |projected| ==> feed.records[i] == Reentries(projected[i])
  {
    if projected == [] then Feed(None, [], None)
    else
      Feed(Some(Headers(kind)),
           seq(|projected|, i requires 0 <= i < |projected| => Reentries(projected[i])),
           None)
  }

  /** A dataset in the shape `parseCSV` produces from complete records:
      positions as row indices, no validation mark, exactly the schema's
      fields, every value trimmed. */
  predicate IsParsedDataset(data: seq<Row>, kind: Kind) {
    forall i :: 0 <= i < |data| ==>
      data[i].rowIndex == Some(i) && data[i].validationError.None?
      && data[i].fields.Keys == (set h | h in Headers(kind))
      && forall k :: k in data[i].fields ==> IsTrimmed(data[i].fields[k])
  }

  /** The first `m` re-read cells of a projection are those of the
      projection onto the first `m` names. */
  lemma ReentriesPrefix(row: Row, hs: seq<string>, m: nat)
    requires m < |hs|
    ensures Reentries(ProjectRow(row, hs))[..m] == Reentries(ProjectRow(row, hs[..m]))
    ensures Reentries(ProjectRow(row, hs))[m] == Entry(hs[m], Some(OutputValue(row, hs[m])))
  {
  }

  /** Cleaning a written value that was already trimmed gives it back. */
  lemma CleanValueOfTrimmed(v: string)
    requires IsTrimmed(v)
    ensures CleanValue(Some(v)) == v
  {
    TrimTrimmed(v);
  }

  /** Re-cleaning the cells of one projected row gives back the row's
      values under the projected names. */
  lemma {:induction false} CleanProjected(row: Row, hs: seq<string>)
    requires forall h :: h in hs ==> Trim(h) == h && h in row.fields && IsTrimmed(row.fields[h])
    ensures CleanFields(Reentries(ProjectRow(row, hs))).Keys == set h | h in hs
    ensures forall h :: h in hs ==> CleanFields(Reentries(ProjectRow(row, hs)))[h] == row.fields[h]
  {
    if hs != [] {
      var m := |hs| - 1;
      CleanProjected(row, hs[..m]);
      assert hs[m] in hs;
      CleanProjectedStep(row, hs);
      assert forall x :: x in hs <==> x in hs[..m] || x == hs[m];
    }
  }

  /** Re-cleaning a projection onto one more name adds that name with the
      row's value. */
  lemma CleanProjectedStep(row: Row, hs: seq<string>)
    requires hs != [] && Trim(hs[|hs| - 1]) == hs[|hs| - 1]
    requires hs[|hs| - 1] in row.fields && IsTrimmed(row.fields[hs[|hs| - 1]])
    ensures CleanFields(Reentries(ProjectRow(row, hs)))
         == CleanFields(Reentries(ProjectRow(row, hs[..|hs| - 1])))[hs[|hs| - 1] := row.fields[hs[|hs| - 1]]]
  {
    var m := |hs| - 1;
    var entries := Reentries(ProjectRow(row, hs));
    ReentriesPrefix(row, hs, m);
    assert entries[..|entries| - 1] == Reentries(ProjectRow(row, hs[..m]));
    CleanValueOfTrimmed(row.fields[hs[m]]);
  }

  /** The rows of a dataset whose rows have exactly the fields `hs`, each
      with its position as `_rowIndex`, come back unchanged from their
      projections onto `hs`. */
  lemma RereadRows(data: seq<Row>, hs: seq<string>)
    requires forall h :: h in hs ==> Trim(h) == h
    requires "_rowIndex" !in hs
    requires forall i :: 0 <= i < |data| ==>
      data[i].rowIndex == Some(i) && data[i].validationError.None?
      && data[i].fields.Keys == (set h | h in hs)
      && forall k :: k in data[i].fields ==> IsTrimmed(data[i].fields[k])
    ensures CleanRecords(seq(|data|, i requires 0 <= i < |data| => Reentries(ProjectRow(data[i], hs)))) == data
  {
    var records := seq(|data|, i requires 0 <= i < |data| => Reentries(ProjectRow(data[i], hs)));
    forall i | 0 <= i < |data| ensures CleanRecords(records)[i] == data[i] {
      RereadRow(data[i], hs, i);
    }
  }

  /** One row with exactly the fields `hs` comes back unchanged from its
      projection onto `hs`. */
  lemma RereadRow(row: Row, hs: seq<string>, i: nat)
    requires forall h :: h in hs ==> Trim(h) == h
    requires "_rowIndex" !in hs
    requires row.rowIndex == Some(i) && row.validationError.None?
    requires row.fields.Keys == set h | h in hs
    requires forall k :: k in row.fields ==> IsTrimmed(row.fields[k])
    ensures CleanRecord(Reentries(ProjectRow(row, hs)), i) == row
  {
    CleanProjected(row, hs);
    var fields := CleanFields(Reentries(ProjectRow(row, hs)));
    assert fields == row.fields;
    assert fields - {"_rowIndex"} == row.fields;
  }

  /** The records read back are the re-read projections of the rows. */
  lemma RereadRecords(data: seq<Row>, kind: Kind)
    requires data != []
    ensures Reread(CleanData(data, kind), kind).header == Some(Headers(kind))
    ensures Reread(CleanData(data, kind), kind).streamError.None?
    ensures Reread(CleanData(data, kind), kind).records
         == seq(|data|, i requires 0 <= i < |data| => Reentries(ProjectRow(data[i], Headers(kind))))
  {
  }

  /** Export then re-import: a parsed dataset comes back unchanged after it
      is projected, written and read again. */
  lemma ProjectionRoundTrip(data: seq<Row>, kind: Kind)
    requires IsParsedDataset(data, kind)
    ensures Parse(Reread(CleanData(data, kind), kind), kind) == Success(data)
  {
    var hs := Headers(kind);
    if data != [] {
      var feed := Reread(CleanData(data, kind), kind);
      ParseSchemaHeader(feed, kind);
      RereadRecords(data, kind);
      HeadersWellFormed(kind);
      InternalNamesNotHeaders(kind);
      RereadRows(data, hs);
    }
  }

  /** A dataset parsed from records that each carry exactly the schema's
      columns is in the parsed shape, so it survives export and re-import. */
  lemma ParsedDatasetRoundTrips(feed: Feed, kind: Kind)
    requires Parse(feed, kind).Success?
    requires forall i :: 0 <= i < |feed.records| ==>
      (set e | e in feed.records[i] :: Trim(e.key)) == (set h | h in Headers(kind))
    ensures IsParsedDataset(Parse(feed, kind).value, kind)
    ensures Parse(Reread(CleanData(Parse(feed, kind).value, kind), kind), kind) == Parse(feed, kind)
  {
    ParsedShape(feed, kind);
    ProjectionRoundTrip(Parse(feed, kind).value, kind);
  }

  /** Records carrying exactly the schema's columns parse into rows in the
      parsed shape. */
  lemma ParsedShape(feed: Feed, kind: Kind)
    requires Parse(feed, kind).Success?
    requires forall i :: 0 <= i < |feed.records| ==>
      (set e | e in feed.records[i] :: Trim(e.key)) == (set h | h in Headers(kind))
    ensures IsParsedDataset(Parse(feed, kind).value, kind)
  {
    var rows := Parse(feed, kind).value;
    ParsedRowsClean(feed, kind);
    InternalNamesNotHeaders(kind);
    forall i | 0 <= i < |rows| ensures rows[i].fields.Keys == (set h | h in Headers(kind)) {
      assert rows[i].fields == CleanFields(feed.records[i]) - {"_rowIndex"};
      CleanFieldsShape(feed.records[i]);
    }
  }

  // ---------------------------------------------------------------------
  // validateRowData
  // ---------------------------------------------------------------------

  /** The object `validateRowData` returns. */
  datatype RowCheck = RowCheck(isValid: bool, errors: seq<string>)

  function MissingFieldMessage(header: string): string {
    "Missing required field: " + header
  }

  const FuzzingIdxMessage: string := "Fuzzing-Idx must be a number"

  /** `rowData['Fuzzing-Idx'] && isNaN(parseInt(rowData['Fuzzing-Idx']))`,
      checked for strings rows only: a present, non-empty value with no
      numeric prefix. */
  predicate FuzzingIdxRejected(row: Row, kind: Kind) {
    kind == Strings && "Fuzzing-Idx" in row.fields && row.fields["Fuzzing-Idx"] != ""
    && ParseIntIsNaN(row.fields["Fuzzing-Idx"])
  }

  /** One message per header the row has no property for, in header order. */
  function MissingFieldErrors(headers: seq<string>, row: Row): seq<string>
    decreases |headers|
  {
    if headers == [] then []
    else
      var n := |headers| - 1;
      MissingFieldErrors(headers[..n], row)
      + (if headers[n] in row.fields then [] else [MissingFieldMessage(headers[n])])
  }

  /** The `errors` of `validateRowData(row, kind)`. */
  function RowErrors(row: Row, kind: Kind): seq<string> {
    MissingFieldErrors(Headers(kind), row)
    + (if FuzzingIdxRejected(row, kind) then [FuzzingIdxMessage] else [])
  }

  /** `validateRowData`: the loop over the schema, then the `Fuzzing-Idx`
      check for strings. */
  method ValidateRowData(row: Row, kind: Kind) returns (result: RowCheck)
    ensures result.errors == RowErrors(row, kind)
    ensures result.isValid <==> result.errors == []
  {
    var headers := Headers(kind);
    var errors: seq<string> := [];
    var i := 0;
    while i < |headers|
      invariant 0 <= i <= |headers|
      invariant errors == MissingFieldErrors(headers[..i], row)
    {
      assert headers[..i + 1][..i] == headers[..i];
      if headers[i] !in row.fields {
        errors := errors + [MissingFieldMessage(headers[i])];
      }
      i := i + 1;
    }
    assert headers[..i] == headers;
    if kind == Strings {
      if "Fuzzing-Idx" in row.fields && row.fields["Fuzzing-Idx"] != ""
         && ParseIntIsNaN(row.fields["Fuzzing-Idx"]) {
        errors := errors + [FuzzingIdxMessage];
      }
    }
    result := RowCheck(|errors| == 0, errors);
  }

  lemma MissingFieldMessageInjective(a: string, b: string)
    requires MissingFieldMessage(a) == MissingFieldMessage(b)
    ensures a == b
  {
    var p := "Missing required field: ";
    assert a == MissingFieldMessage(a)[|p|..];
    assert b == MissingFieldMessage(b)[|p|..];
  }

  /** The missing-field messages name exactly the absent headers. */
  lemma {:induction false} MissingFieldErrorsExact(headers: seq<string>, row: Row)
    ensures forall m :: (m in MissingFieldErrors(headers, row)
      <==> exists h :: h in headers && h !in row.fields && m == MissingFieldMessage(h))
    ensures |MissingFieldErrors(headers, row)| <= |headers|
    ensures MissingFieldErrors(headers, row) == [] <==> forall h :: h in headers ==> h in row.fields
  {
    if headers != [] {
      var n := |headers| - 1;
      MissingFieldErrorsExact(headers[..n], row);
      assert forall h :: h in headers <==> h in headers[..n] || h == headers[n];
    }
  }

  /** `validateRowData` reports one `Missing required field: h` exactly for
      each schema header the row lacks (a present empty value counts as
      present), the `Fuzzing-Idx` message exactly when that value is present,
      non-empty and not a number by `parseInt`, nothing else, and is valid
      exactly when all fields are present and the number check passes. */
  lemma RowErrorsSpec(row: Row, kind: Kind)
    ensures forall h :: h in Headers(kind) ==>
      (MissingFieldMessage(h) in RowErrors(row, kind) <==> h !in row.fields)
    ensures FuzzingIdxMessage in RowErrors(row, kind) <==> FuzzingIdxRejected(row, kind)
    ensures forall m :: m in RowErrors(row, kind) ==>
      m == FuzzingIdxMessage || exists h :: h in Headers(kind) && m == MissingFieldMessage(h)
    ensures RowErrors(row, kind) == []
        <==> (forall h :: h in Headers(kind) ==> h in row.fields) && !FuzzingIdxRejected(row, kind)
  {
    CheckedErrorsExact(Headers(kind), row, FuzzingIdxRejected(row, kind));
  }

  /** `validateRowData` lists its messages in the order it checks: one per
      absent schema header, in schema order and each header once, then the
      `Fuzzing-Idx` message last when it applies. */
  lemma RowErrorsInOrder(row: Row, kind: Kind)
    ensures var errors, ps := RowErrors(row, kind), Positions(Headers(kind), h => h !in row.fields);
      && |errors| == |ps| + (if FuzzingIdxRejected(row, kind) then 1 else 0)
      && (forall k :: 0 <= k < |ps| ==> errors[k] == MissingFieldMessage(Headers(kind)[ps[k]]))
      && (FuzzingIdxRejected(row, kind) ==> errors[|errors| - 1] == FuzzingIdxMessage)
    ensures |RowErrors(row, kind)|
      == |set h | h in Headers(kind) && h !in row.fields| + (if FuzzingIdxRejected(row, kind) then 1 else 0)
  {
    HeadersDistinct(kind);
    MissingFieldErrorsInOrder(Headers(kind), row);
    MissingFieldErrorsCount(Headers(kind), row);
  }

  /** The missing-field messages follow the positions of the absent
      headers, in order. */
  lemma {:induction false} MissingFieldErrorsInOrder(headers: seq<string>, row: Row)
    ensures var errors, ps := MissingFieldErrors(headers, row), Positions(headers, h => h !in row.fields);
      |errors| == |ps| && forall k :: 0 <= k < |errors| ==> errors[k] == MissingFieldMessage(headers[ps[k]])
  {
    if headers != [] {
      var n := |headers| - 1;
      var init := headers[..n];
      MissingFieldErrorsInOrder(init, row);
      var absent := h => h !in row.fields;
      var errors0, ps0 := MissingFieldErrors(init, row), Positions(init, absent);
      var errors, ps := MissingFieldErrors(headers, row), Positions(headers, absent);
      assert ps == ps0 + (if absent(headers[n]) then [n] else []);
      assert errors == errors0 + (if headers[n] in row.fields then [] else [MissingFieldMessage(headers[n])]);
      forall k | 0 <= k < |errors| ensures errors[k] == MissingFieldMessage(headers[ps[k]]) {
        if k < |errors0| {
          assert errors[k] == errors0[k] == MissingFieldMessage(init[ps0[k]]);
        }
      }
    }
  }

  /** Over a list without repeats there is exactly one missing-field
      message per absent header. */
  lemma {:induction false} MissingFieldErrorsCount(headers: seq<string>, row: Row)
    requires Distinct(headers)
    ensures |MissingFieldErrors(headers, row)| == |set h | h in headers && h !in row.fields|
  {
    if headers != [] {
      var n := |headers| - 1;
      var init := headers[..n];
      assert Distinct(init);
      MissingFieldErrorsCount(init, row);
      var absent0 := set h | h in init && h !in row.fields;
      var absent := set h | h in headers && h !in row.fields;
      assert headers[n] !in init;
      assert forall h :: h in headers <==> h in init || h == headers[n];
      if headers[n] in row.fields {
        assert absent == absent0;
      } else {
        assert absent == absent0 + {headers[n]};
      }
    }
  }

  /** The missing-field messages for any header list, followed by the
      number message when `rejected`, are told apart message by message. */
  lemma CheckedErrorsExact(headers: seq<string>, row: Row, rejected: bool)
    ensures var errors := MissingFieldErrors(headers, row) + (if rejected then [FuzzingIdxMessage] else []);
      && (forall h :: h in headers ==> (MissingFieldMessage(h) in errors <==> h !in row.fields))
      && (FuzzingIdxMessage in errors <==> rejected)
      && (forall m :: m in errors ==>
            m == FuzzingIdxMessage || exists h :: h in headers && m == MissingFieldMessage(h))
      && (errors == [] <==> (forall h :: h in headers ==> h in row.fields) && !rejected)
  {
    MissingFieldErrorsExact(headers, row);
    var missing := MissingFieldErrors(headers, row);
    forall h ensures MissingFieldMessage(h) != FuzzingIdxMessage {
      assert MissingFieldMessage(h)[0] == 'M' && FuzzingIdxMessage[0] == 'F';
    }
    forall h | h in headers
      ensures MissingFieldMessage(h) in missing <==> h !in row.fields
    {
      if MissingFieldMessage(h) in missing {
        var h' :| h' in headers && h' !in row.fields && MissingFieldMessage(h) == MissingFieldMessage(h');
        MissingFieldMessageInjective(h, h');
      }
    }
  }

  /** The `parseInt` check is lenient: a value with a numeric prefix passes,
      one without fails. */
  lemma FuzzingIdxExamples()
    ensures !FuzzingIdxRejected(Row(map["Fuzzing-Idx" := "12abc"], None, None), Strings)
    ensures FuzzingIdxRejected(Row(map["Fuzzing-Idx" := "not-a-number"], None, None), Strings)
    ensures !FuzzingIdxRejected(Row(map["Fuzzing-Idx" := "not-a-number"], None, None), Classifications)
    ensures !FuzzingIdxRejected(Row(map["Fuzzing-Idx" := ""], None, None), Strings)
  {
    ParseIntAcceptsDigitPrefix("", "", '1', "2abc");
    assert "" + "" + ['1'] + "2abc" == "12abc";
  }
}
