/** The client's pre-check of a chosen file before upload: a CSV name, a
    size within the 10 MB limit, not empty. */
module FileCheck {
  import opened Wrappers
  import opened JsText

  /** The parts of a browser `File` the check reads. */
  datatype FileInfo = FileInfo(name: string, size: nat)

  /** The object `validateCSVFile` returns. */
  datatype FileValidation = FileValidation(isValid: bool, errors: seq<string>)

  const MaxFileSize: nat := 10 * 1024 * 1024

  const NoFileMessage: string := "No file selected"
  const ExtensionMessage: string := "File must be a CSV file"
  const TooLargeMessage: string := "File size must be less than 10MB"
  const EmptyFileMessage: string := "File cannot be empty"

  /** The name ends in `.csv`, compared after ASCII lower-casing. */
  predicate HasCsvName(file: FileInfo) {
    EndsWith(Lower(file.name), ".csv")
  }

  /** The position of each message in the order the checks run. */
  function CheckRank(message: string): nat {
    if message == ExtensionMessage then 0
    else if message == TooLargeMessage then 1
    else 2
  }

  /** The messages for a present file, one per failed check, in check
      order. */
  function FileErrors(file: FileInfo): (errors: seq<string>)
    ensures ExtensionMessage in errors <==> !HasCsvName(file)
    ensures TooLargeMessage in errors <==> file.size > MaxFileSize
    ensures EmptyFileMessage in errors <==> file.size == 0
    ensures forall m :: m in errors ==> m == ExtensionMessage || m == TooLargeMessage || m == EmptyFileMessage
    ensures |errors| <= 2
    ensures forall i, j :: 0 <= i < j < |errors| ==> CheckRank(errors[i]) < CheckRank(errors[j])
  {
    (if HasCsvName(file) then [] else [ExtensionMessage])
    + (if file.size > MaxFileSize then [TooLargeMessage] else [])
    + (if file.size == 0 then [EmptyFileMessage] else [])
  }

  /** `validateCSVFile`: without a file, the single no-file error; else the
      three checks push their messages in turn. Valid exactly when no
      message was pushed. */
  method ValidateCsvFile(file: Option<FileInfo>) returns (result: FileValidation)
    ensures file.None? ==> result == FileValidation(false, [NoFileMessage])
    ensures file.Some? ==> result.errors == FileErrors(file.value)
    ensures result.isValid <==> result.errors == []
  {
    var errors: seq<string> := [];
    if file.None? {
      errors := errors + [NoFileMessage];
      return FileValidation(false, errors);
    }
    var f := file.value;
    if !EndsWith(Lower(f.name), ".csv") {
      errors := errors + [ExtensionMessage];
    }
    if f.size > 10 * 1024 * 1024 {
      errors := errors + [TooLargeMessage];
    }
    if f.size == 0 {
      errors := errors + [EmptyFileMessage];
    }
    result := FileValidation(|errors| == 0, errors);
  }

  /** A present file passes exactly when its name ends in `.csv` in any
      letter case and its size is between 1 byte and 10 MB. */
  lemma FileAccepted(file: FileInfo)
    ensures FileErrors(file) == [] <==> HasCsvName(file) && 0 < file.size <= MaxFileSize
  {
    if FileErrors(file) == [] {
      assert ExtensionMessage !in FileErrors(file);
    }
  }

  /** The extension test ignores letter case: `.CSV` is as good as `.csv`. */
  lemma UpperCaseExtensionAccepted(stem: string, size: nat)
    ensures HasCsvName(FileInfo(stem + ".CSV", size))
  {
    LowerAppend(stem, ".CSV");
    assert Lower(".CSV") == ".csv";
    var lowered := Lower(stem + ".CSV");
    assert lowered == Lower(stem) + ".csv";
    assert lowered[|lowered| - 4..] == ".csv";
  }
}
