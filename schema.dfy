/** The schema registry: the two dataset kinds, their fixed and ordered
    header lists, and the shape of one row of either dataset. */
module Schema {
  import opened Wrappers
  import opened JsText

  /** The two dataset kinds. */
  datatype Kind = Strings | Classifications

  /** The name the source uses for a kind (`'strings'`, `'classifications'`). */
  function KindName(kind: Kind): string {
    match kind
    case Strings => "strings"
    case Classifications => "classifications"
  }

  /** The strings schema, in canonical order. Note `Subtopic`. */
  const StringsHeaders: seq<string> :=
    ["Tier", "Industry", "Topic", "Subtopic", "Prefix", "Fuzzing-Idx", "Prompt", "Risks", "Keywords"]

  /** The classifications schema, in canonical order. Note `SubTopic`. */
  const ClassificationsHeaders: seq<string> :=
    ["Topic", "SubTopic", "Industry", "Classification"]

  /** `fileType === 'strings' ? stringsHeaders : classificationsHeaders`. */
  function Headers(kind: Kind): seq<string> {
    if kind == Strings then StringsHeaders else ClassificationsHeaders
  }

  /** No header is listed twice. */
  predicate Distinct(hs: seq<string>) {
    forall i, j :: 0 <= i < j < |hs| ==> hs[i] != hs[j]
  }

  /** The registry is well formed: no duplicates, every header already
      trimmed and none starting with `_`, the prefix of internal fields. */
  lemma {:induction false} HeadersWellFormed(kind: Kind)
    ensures Distinct(Headers(kind))
    ensures forall h :: h in Headers(kind) ==> Trim(h) == h && !StartsWith(h, "_")
  {
    HeadersDistinct(kind);
    forall h | h in Headers(kind) ensures Trim(h) == h && !StartsWith(h, "_") {
      assert h != [] && !IsJsSpace(h[0]) && !IsJsSpace(h[|h| - 1]) && h[0] != '_';
      PlainNameWellFormed(h);
    }
  }

  /** Each header list is free of duplicates. */
  lemma HeadersDistinct(kind: Kind)
    ensures Distinct(Headers(kind))
  {
  }

  /** A name that starts and ends with a visible character other than `_`
      is already trimmed and is not an internal name. */
  lemma PlainNameWellFormed(h: string)
    requires h != [] && !IsJsSpace(h[0]) && !IsJsSpace(h[|h| - 1]) && h[0] != '_'
    ensures Trim(h) == h && !StartsWith(h, "_")
  {
    TrimTrimmed(h);
  }

  /** The internal property names are not schema headers. */
  lemma InternalNamesNotHeaders(kind: Kind)
    ensures "_rowIndex" !in Headers(kind) && "_validationError" !in Headers(kind)
  {
    HeadersWellFormed(kind);
    assert StartsWith("_rowIndex", "_") && StartsWith("_validationError", "_");
  }

  /** The key that joins the datasets is spelled differently in each. */
  lemma SubtopicAsymmetry()
    ensures "Subtopic" in Headers(Strings) && "SubTopic" !in Headers(Strings)
    ensures "SubTopic" in Headers(Classifications) && "Subtopic" !in Headers(Classifications)
  {
  }

  /** One row of a dataset. `fields` holds the CSV columns by name; the
      source's internal properties `_rowIndex` and `_validationError`, which
      the projection for export drops, are kept apart. */
  datatype Row = Row(fields: map<string, string>, rowIndex: Option<int>, validationError: Option<string>)

  /** The value a template string shows for `row[name]`: the field, or the
      text "undefined" when the row has no such property. */
  function Prop(row: Row, name: string): string {
    if name in row.fields then row.fields[name] else "undefined"
  }
}
