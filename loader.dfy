/** The checks and clean-up that `get_file` (schema_converter.py lines 151-201)
    applies before any model is built: the file suffix must be `.csv` or `.xlsx`,
    the header must hold the five required column names, rows with no value at
    all are dropped and missing cells become empty strings. Reading the file is
    pandas' work; here it is the parameter `read`, which gives the table pandas
    would produce for each accepted format. */
module Loader {
  import opened Wrappers

  const TableNameField := "Table Name"
  const TableDescriptionField := "Table Description"
  const ColumnNameField := "Column Name"
  const ColumnDescriptionField := "Column Description"
  const TestsField := "Tests"

  /** The required columns, in the order the source checks them. */
  const RequiredColumns: seq<string> :=
    [TableNameField, TableDescriptionField, ColumnNameField, ColumnDescriptionField, TestsField]

  /** The two readers the source dispatches to: `pd.read_csv` and `pd.read_excel`. */
  datatype Format = Csv | Xlsx

  /** The two reasons a conversion stops with `SystemExit`. */
  datatype Error =
    | FormatError
    | SchemaError(required: seq<string>, found: seq<string>)

  /** A table as pandas reads it: the header and, per row, one cell per position,
      `None` where pandas has NaN (an empty or missing cell). */
  datatype Sheet = Sheet(header: seq<string>, rows: seq<seq<Option<string>>>)

  /** One cleaned-up row, holding the five required fields as strings. */
  datatype Row = Row(
    tableName: string,
    tableDescription: string,
    columnName: string,
    columnDescription: string,
    tests: string)

  // ---------------------------------------------------------------- suffix

  /** The position of the last `c` in `s`, or -1 (Python's `str.rfind`). */
  function LastIndexOf(s: string, c: char): (i: int)
    ensures -1 <= i < |s|
    ensures i >= 0 ==> s[i] == c
    ensures forall j :: i < j < |s| ==> s[j] != c
  {
    if s == [] then -1
    else if s[|s| - 1] == c then |s| - 1
    else LastIndexOf(s[..|s| - 1], c)
  }

  /** The final component of a '/'-separated path (`PurePath.name`). */
  function BaseName(path: string): string {
    path[LastIndexOf(path, '/') + 1..]
  }

  /** `PurePath.suffix`: from the last '.' of the final component, provided that
      dot is neither its first nor its last character; otherwise empty. */
  function Suffix(path: string): string {
    var name := BaseName(path);
    var i := LastIndexOf(name, '.');
    if 0 < i < |name| - 1 then name[i..] else ""
  }

  /** The extension check of lines 166-172. */
  function FormatOf(path: string): Result<Format, Error> {
    var extension := Suffix(path);
    if extension == ".csv" then Ok(Csv)
    else if extension == ".xlsx" then Ok(Xlsx)
    else Err(FormatError)
  }

  predicate EndsWith(s: string, tail: string) {
    |tail| <= |s| && s[|s| - |tail|..] == tail
  }

  /** A path has a given extension exactly when it ends with it and at least one
      character of its final component comes before it. */
  lemma SuffixIs(path: string, ext: string)
    requires |ext| >= 2 && ext[0] == '.'
    requires '.' !in ext[1..] && '/' !in ext
    ensures Suffix(path) == ext <==>
      EndsWith(path, ext) && |path| > |ext| && path[|path| - |ext| - 1] != '/'
  {
    if Suffix(path) == ext {
      SuffixEnds(path, ext);
    }
    if EndsWith(path, ext) && |path| > |ext| && path[|path| - |ext| - 1] != '/' {
      EndsSuffix(path, ext);
    }
  }

  lemma SuffixEnds(path: string, ext: string)
    requires Suffix(path) == ext && ext != ""
    ensures EndsWith(path, ext) && |path| > |ext| && path[|path| - |ext| - 1] != '/'
  {
    var s := LastIndexOf(path, '/');
    var name := path[s + 1..];
    assert name == BaseName(path);
    var i := LastIndexOf(name, '.');
    assert 0 < i < |name| - 1 && name[i..] == ext;
    var d := s + 1 + i;
    assert |path| - |ext| == d;
    assert path[d..] == name[i..];
    assert path[d - 1] == name[i - 1];
    assert path[d - 1] != '/';
  }

  lemma EndsSuffix(path: string, ext: string)
    requires |ext| >= 2 && ext[0] == '.'
    requires '.' !in ext[1..] && '/' !in ext
    requires EndsWith(path, ext) && |path| > |ext| && path[|path| - |ext| - 1] != '/'
    ensures Suffix(path) == ext
  {
    var q := BaseNameEnds(path, ext);
    assert ext == ['.'] + ext[1..];
    LastIndexOfAppend(['.'], ext[1..], '.');
    LastIndexOfAppend(q, ext, '.');
    var name := BaseName(path);
    var i := LastIndexOf(name, '.');
    assert i == |q| && 0 < i < |name| - 1;
    assert name[i..] == ext;
  }

  /** A path ending in a separator-free `ext` after a character other than '/'
      has a file name made of at least one character followed by `ext`. */
  lemma BaseNameEnds(path: string, ext: string) returns (q: string)
    requires '/' !in ext
    requires EndsWith(path, ext) && |path| > |ext| && path[|path| - |ext| - 1] != '/'
    ensures BaseName(path) == q + ext && |q| >= 1
  {
    var d := |path| - |ext|;
    var pre := path[..d];
    assert path == pre + ext;
    LastIndexOfAppend(pre, ext, '/');
    var s := LastIndexOf(path, '/');
    assert pre[d - 1] == path[d - 1];
    q := pre[s + 1..];
  }

  /** Where the last `c` of a concatenation is. */
  lemma {:induction false} LastIndexOfAppend(a: string, b: string, c: char)
    ensures c !in b ==> LastIndexOf(a + b, c) == LastIndexOf(a, c)
    ensures c in b ==> LastIndexOf(a + b, c) == |a| + LastIndexOf(b, c)
  {
    if b == [] {
      assert a + b == a;
    } else {
      var b' := b[..|b| - 1];
      assert (a + b)[..|a + b| - 1] == a + b';
      LastIndexOfAppend(a, b', c);
      assert b == b' + [b[|b| - 1]];
    }
  }

  /** The file is read as CSV exactly when its path ends in ".csv" after a
      character of its file name. */
  lemma CsvAccepted(path: string)
    ensures FormatOf(path) == Ok(Csv) <==>
      EndsWith(path, ".csv") && |path| > 4 && path[|path| - 5] != '/'
  {
    SuffixIs(path, ".csv");
  }

  /** The file is read as a workbook exactly when its path ends in ".xlsx" after
      a character of its file name. */
  lemma XlsxAccepted(path: string)
    ensures FormatOf(path) == Ok(Xlsx) <==>
      EndsWith(path, ".xlsx") && |path| > 5 && path[|path| - 6] != '/'
  {
    SuffixIs(path, ".xlsx");
  }

  /** A file name without a dot has no extension, so it is refused
      (test/test_converter.py lines 61-64 use "file_path_with_no_extension"). */
  lemma NoDotRefused(path: string)
    requires '.' !in BaseName(path)
    ensures FormatOf(path) == Err(FormatError)
  {
  }

  /** A hidden file such as ".csv" has no extension in pathlib's sense. */
  lemma HiddenFileRefused()
    ensures FormatOf("data/.csv") == Err(FormatError)
  {
    assert !(EndsWith("data/.xlsx", ".xlsx") && "data/.csv"[4] != '/');
    SuffixIs("data/.csv", ".csv");
    SuffixIs("data/.csv", ".xlsx");
  }

  // ---------------------------------------------------------------- header

  /** The first of `required`, in order, that `header` lacks (the loop of lines 183-193). */
  function FirstMissing(required: seq<string>, header: seq<string>): Option<string> {
    if required == [] then None
    else if required[0] !in header then Some(required[0])
    else FirstMissing(required[1..], header)
  }

  /** The required-column check: on failure the error carries both the
      required names and the names actually found, as the message of
      lines 185-192 does. */
  function CheckHeader(header: seq<string>): Outcome<Error> {
    if FirstMissing(RequiredColumns, header).Some? then Fail(SchemaError(RequiredColumns, header))
    else Pass
  }

  /** The search finds a missing name exactly when one of the names is missing,
      and what it finds is missing indeed. */
  lemma {:induction false} FirstMissingFinds(required: seq<string>, header: seq<string>)
    ensures FirstMissing(required, header).None? <==> forall i :: 0 <= i < |required| ==> required[i] in header
    ensures FirstMissing(required, header).Some? ==>
      FirstMissing(required, header).value in required && FirstMissing(required, header).value !in header
  {
    if required != [] {
      FirstMissingFinds(required[1..], header);
      if required[0] in header {
        assert forall i :: 1 <= i < |required| ==> required[i] == required[1..][i - 1];
      }
    }
  }

  /** The header passes exactly when it names every required column. */
  lemma HeaderAccepted(header: seq<string>)
    ensures CheckHeader(header) == Pass <==> forall c :: c in RequiredColumns ==> c in header
    ensures CheckHeader(header) != Pass ==> CheckHeader(header) == Fail(SchemaError(RequiredColumns, header))
  {
    FirstMissingFinds(RequiredColumns, header);
  }

  // ---------------------------------------------------------------- rows

  /** A row pandas' `dropna(how="all")` removes: no cell holds a value. */
  predicate IsBlank(cells: seq<Option<string>>) {
    forall i :: 0 <= i < |cells| ==> cells[i].None?
  }

  /** The position of the first `name` in `header`, or `|header|`. */
  function FieldIndex(header: seq<string>, name: string): (i: nat)
    ensures i <= |header|
    ensures i < |header| ==> header[i] == name
    ensures i == |header| <==> name !in header
  {
    if header == [] then 0
    else if header[0] == name then 0
    else 1 + FieldIndex(header[1..], name)
  }

  /** The cell of column `name` after `replace(np.nan, "")`. */
  function CellText(header: seq<string>, cells: seq<Option<string>>, name: string): string {
    var i := FieldIndex(header, name);
    if i < |cells| && cells[i].Some? then cells[i].value else ""
  }

  function FillRow(header: seq<string>, cells: seq<Option<string>>): Row {
    Row(
      CellText(header, cells, TableNameField),
      CellText(header, cells, TableDescriptionField),
      CellText(header, cells, ColumnNameField),
      CellText(header, cells, ColumnDescriptionField),
      CellText(header, cells, TestsField))
  }

  /** Lines 195-199: blank rows dropped, the others filled, order kept. */
  function Normalise(header: seq<string>, rows: seq<seq<Option<string>>>): seq<Row> {
    if rows == [] then []
    else (if IsBlank(rows[0]) then [] else [FillRow(header, rows[0])]) + Normalise(header, rows[1..])
  }

  /** The number of rows that are not blank. */
  function KeptCount(rows: seq<seq<Option<string>>>): nat {
    if rows == [] then 0 else (if IsBlank(rows[0]) then 0 else 1) + KeptCount(rows[1..])
  }

  /** One cleaned-up row per row with a value. */
  lemma {:induction false} NormaliseLength(header: seq<string>, rows: seq<seq<Option<string>>>)
    ensures |Normalise(header, rows)| == KeptCount(rows)
  {
    if rows != [] {
      NormaliseLength(header, rows[1..]);
    }
  }

  /** The row at position `j`, when it has a value, appears filled at the
      position counting the kept rows before it: nothing is reordered. */
  lemma {:induction false} NormalisePosition(header: seq<string>, rows: seq<seq<Option<string>>>, j: nat)
    requires j < |rows| && !IsBlank(rows[j])
    ensures KeptCount(rows[..j]) < |Normalise(header, rows)|
    ensures Normalise(header, rows)[KeptCount(rows[..j])] == FillRow(header, rows[j])
  {
    if j == 0 {
      assert rows[..0] == [];
    } else {
      NormalisePosition(header, rows[1..], j - 1);
      assert rows[1..][..j - 1] == rows[..j][1..];
      assert rows[..j][0] == rows[0];
    }
  }

  /** Rows with no value leave no trace. */
  lemma {:induction false} NormaliseBlank(header: seq<string>, rows: seq<seq<Option<string>>>)
    requires forall j :: 0 <= j < |rows| ==> IsBlank(rows[j])
    ensures Normalise(header, rows) == []
  {
    if rows != [] {
      NormaliseBlank(header, rows[1..]);
    }
  }

  // ---------------------------------------------------------------- get_file

  /** `get_file`: the extension first (nothing is read for a refused suffix),
      then the header, then the rows. */
  function Load(path: string, read: Format -> Sheet): Result<seq<Row>, Error> {
    match FormatOf(path)
    case Err(e) => Err(e)
    case Ok(format) =>
      var sheet := read(format);
      match CheckHeader(sheet.header)
      case Fail(e) => Err(e)
      case Pass => Ok(Normalise(sheet.header, sheet.rows))
  }

  /** The three outcomes of `get_file`. */
  lemma LoadOutcomes(path: string, read: Format -> Sheet)
    ensures FormatOf(path).Err? ==> Load(path, read) == Err(FormatError)
    ensures FormatOf(path).Ok? && (exists c :: c in RequiredColumns && c !in read(FormatOf(path).value).header) ==>
      Load(path, read) == Err(SchemaError(RequiredColumns, read(FormatOf(path).value).header))
    ensures FormatOf(path).Ok? && (forall c :: c in RequiredColumns ==> c in read(FormatOf(path).value).header) ==>
      Load(path, read) == Ok(Normalise(read(FormatOf(path).value).header, read(FormatOf(path).value).rows))
  {
    if FormatOf(path).Ok? {
      HeaderAccepted(read(FormatOf(path).value).header);
    }
  }
}
