/** `get_yaml` and `convert` (schema_converter.py lines 237-270): the whole
    conversion from a file to the ASCII text of a dbt schema document, and what
    can be said about it end to end. Reading the file is the parameter `read`
    (see module Loader). */
module Converter {
  import opened Wrappers
  import opened Ascii
  import opened Split
  import opened Loader
  import opened Entities
  import opened Builder
  import opened Yaml

  /** `get_yaml`: the header, then the text of every table in key order. The
      loop builds exactly `Document` of the dictionary's values. */
  method GetYaml(keys: seq<string>, tables: map<string, Table>, ghost model: seq<TableValue>) returns (yaml: string)
    requires |keys| == |model|
    requires forall j :: 0 <= j < |keys| ==> keys[j] in tables && tables[keys[j]].View() == model[j]
    ensures yaml == Document(model)
  {
    yaml := VersionLine;
    yaml := yaml + ModelsLine;
    var i := 0;
    while i < |keys|
      invariant 0 <= i <= |keys|
      invariant yaml == Header + TablesText(model[..i])
    {
      TablesTextPrefix(model, i);
      Assoc(Header, TablesText(model[..i]), TableText(model[i]));
      yaml := yaml + TableText(tables[keys[i]].View());
      i := i + 1;
    }
    assert model[..i] == model;
  }

  /** What `convert` gives for the file at `path`: the loader's error, or the
      document of the grouped rows with every non-ASCII character dropped. */
  function Conversion(path: string, read: Format -> Sheet): Result<string, Error> {
    match Load(path, read)
    case Err(e) => Err(e)
    case Ok(rows) => Ok(FilterAscii(Document(Group(rows))))
  }

  /** `convert`: load, build the dictionary of objects, render it, drop what is
      not ASCII. */
  method Convert(path: string, read: Format -> Sheet) returns (r: Result<string, Error>)
    ensures r == Conversion(path, read)
  {
    var file := Load(path, read);
    if file.Err? {
      return Err(file.error);
    }
    var keys, tables := GetTableDict(file.value);
    var yaml := GetYaml(keys, tables, Group(file.value));
    r := Ok(FilterAscii(yaml));
  }

  // ---------------------------------------------------------------- outcomes

  /** A conversion fails exactly when loading fails, with the loader's error;
      it succeeds only for a `.csv` or `.xlsx` suffix and a header holding every
      required column; its text is ASCII and every character of it comes from
      the rendered document. */
  lemma ConversionOutcomes(path: string, read: Format -> Sheet)
    ensures Conversion(path, read).Err? <==> Load(path, read).Err?
    ensures Conversion(path, read).Err? ==> Conversion(path, read).error == Load(path, read).error
    ensures FormatOf(path).Err? ==> Conversion(path, read) == Err(FormatError)
    ensures Conversion(path, read).Ok? ==> Suffix(path) == ".csv" || Suffix(path) == ".xlsx"
    ensures Conversion(path, read).Ok? ==>
      forall c :: c in RequiredColumns ==> c in read(FormatOf(path).value).header
    ensures Conversion(path, read).Ok? ==>
      var text := Conversion(path, read).value;
      IsAscii(text) &&
      forall c :: c in text ==> c in Document(Group(Load(path, read).value))
  {
    LoadOutcomes(path, read);
    if Conversion(path, read).Ok? {
      var format := FormatOf(path).value;
      var header := read(format).header;
      var doc := Document(Group(Load(path, read).value));
      forall c | c in FilterAscii(doc) ensures c in doc {
        FilterAsciiMembers(doc, c);
      }
    }
  }

  // ---------------------------------------------------------------- clean input

  /** A field that holds only ASCII characters and no line break. */
  predicate Clean(s: string) {
    IsAscii(s) && NoLineBreak(s)
  }

  predicate CleanRow(row: Row) {
    Clean(row.tableName) && Clean(row.tableDescription) &&
    Clean(row.columnName) && Clean(row.columnDescription) && Clean(row.tests)
  }

  /** The strings a row hands on to the tables (its tests split) all satisfy `ok`. */
  predicate RowFields(row: Row, ok: string -> bool) {
    ok(row.tableName) && ok(row.tableDescription) && ok(row.columnName) && ok(row.columnDescription) &&
    forall i :: 0 <= i < |TestsOf(row.tests)| ==> ok(TestsOf(row.tests)[i])
  }

  /** The tests of a clean cell are clean: splitting adds no character. */
  lemma TestsClean(field: string)
    requires Clean(field)
    ensures forall i :: 0 <= i < |TestsOf(field)| ==> Clean(TestsOf(field)[i])
  {
    var parts := SplitOn(field, TestSeparator);
    SplitChars(field, TestSeparator);
    forall i | 0 <= i < |TestsOf(field)| ensures Clean(TestsOf(field)[i]) {
      var t := TestsOf(field)[i];
      assert t in parts;
      var j :| 0 <= j < |parts| && parts[j] == t;
      assert forall c :: c in t ==> c in parts[j];
      forall k | 0 <= k < |t| ensures IsAsciiChar(t[k]) {
        assert t[k] in field;
        var m :| 0 <= m < |field| && field[m] == t[k];
      }
    }
  }

  /** A row's contribution to its table keeps the property `ok` its strings have. */
  lemma AdmitFields(t: TableValue, row: Row, ok: string -> bool)
    requires ok(t.name) && forall j :: 0 <= j < |t.columns| ==> ColumnFields(t.columns[j], ok)
    requires RowFields(row, ok)
    ensures TableFields(Admit(t, row), ok)
  {
    var u := Admit(t, row);
    assert u.columns[|t.columns|] == ColumnOf(row);
    forall j | 0 <= j < |u.columns| ensures ColumnFields(u.columns[j], ok) {
      if j < |t.columns| {
        assert u.columns[j] == t.columns[j];
      }
    }
  }

  lemma AbsorbFields(ts: seq<TableValue>, row: Row, ok: string -> bool)
    requires AllFields(ts, ok) && RowFields(row, ok)
    ensures AllFields(Absorb(ts, row), ok)
  {
    var k := Position(ts, row.tableName);
    if k < |ts| {
      AdmitFields(ts[k], row, ok);
    } else {
      AdmitFields(TableValue(row.tableName, "", []), row, ok);
    }
  }

  /** Every string in the grouped tables comes from some row: a property all
      rows' strings share, every name, description and test of the tables has. */
  lemma {:induction false} GroupFields(rows: seq<Row>, ok: string -> bool)
    requires forall i :: 0 <= i < |rows| ==> RowFields(rows[i], ok)
    ensures AllFields(Group(rows), ok)
  {
    if rows != [] {
      var init := rows[..|rows| - 1];
      GroupFields(init, ok);
      AbsorbFields(Group(init), rows[|rows| - 1], ok);
    }
  }

  // ---------------------------------------------------------------- an ASCII document

  lemma LeadsAscii()
    ensures IsAscii(Header) && IsAscii(TableNameLead) && IsAscii(TableDescriptionLead)
    ensures IsAscii(ColumnsLead) && IsAscii(ColumnNameLead) && IsAscii(ColumnDescriptionLead)
    ensures IsAscii(TestsLead) && IsAscii(TestLead) && IsAscii(Quote) && IsAscii("\n") && IsAscii("")
  {
    AsciiText(VersionLine);
    AsciiText(ModelsLine);
    AsciiAppend(VersionLine, ModelsLine);
    AsciiText(TableNameLead);
    AsciiText(TableDescriptionLead);
    AsciiText(ColumnsLead);
    AsciiText(ColumnNameLead);
    AsciiText(ColumnDescriptionLead);
    AsciiText(TestsLead);
    AsciiText(TestLead);
    AsciiText(Quote);
    AsciiText("\n");
  }

  /** A text made only of the characters the document's fixed lines use is ASCII. */
  lemma AsciiText(s: string)
    requires forall i :: 0 <= i < |s| ==> s[i] in " \n\"-:abcdeilmnoprstuv2"
    ensures IsAscii(s)
  {
  }

  lemma {:induction false} TestsTextAscii(tests: seq<string>)
    requires forall i :: 0 <= i < |tests| ==> IsAscii(tests[i])
    ensures IsAscii(TestsText(tests))
  {
    if tests != [] {
      TestsTextAscii(tests[1..]);
      LeadsAscii();
      AsciiAppend(tests[0], TestsText(tests[1..]));
      AsciiAppend(TestLead, tests[0] + TestsText(tests[1..]));
    }
  }

  lemma DescriptionAscii(lead: string, description: string)
    requires IsAscii(lead) && IsAscii(description)
    ensures IsAscii(DescriptionText(lead, description))
  {
    LeadsAscii();
    if description != "" {
      AsciiAppend(description, Quote);
      AsciiAppend(lead, description + Quote);
    }
  }

  lemma ColumnTextAscii(c: ColumnValue)
    requires ColumnFields(c, IsAscii)
    ensures IsAscii(ColumnText(c))
  {
    LeadsAscii();
    TestsTextAscii(c.tests);
    if c.tests != [] {
      AsciiAppend(TestsLead, TestsText(c.tests));
    }
    var tests := TestsPart(c.tests);
    AsciiAppend(tests, "\n");
    var description := DescriptionText(ColumnDescriptionLead, c.description);
    DescriptionAscii(ColumnDescriptionLead, c.description);
    AsciiAppend(description, tests + "\n");
    AsciiAppend(c.name, description + (tests + "\n"));
    AsciiAppend(ColumnNameLead, c.name + (description + (tests + "\n")));
  }

  lemma {:induction false} ColumnsTextAscii(cs: seq<ColumnValue>)
    requires forall j :: 0 <= j < |cs| ==> ColumnFields(cs[j], IsAscii)
    ensures IsAscii(ColumnsText(cs))
  {
    if cs != [] {
      ColumnTextAscii(cs[0]);
      ColumnsTextAscii(cs[1..]);
      AsciiAppend(ColumnText(cs[0]), ColumnsText(cs[1..]));
    }
  }

  lemma TableTextAscii(t: TableValue)
    requires TableFields(t, IsAscii)
    ensures IsAscii(TableText(t))
  {
    LeadsAscii();
    ColumnsTextAscii(t.columns);
    if t.columns != [] {
      AsciiAppend(ColumnsLead, ColumnsText(t.columns));
    }
    var columns := ColumnsPart(t.columns);
    var description := DescriptionText(TableDescriptionLead, t.description);
    DescriptionAscii(TableDescriptionLead, t.description);
    AsciiAppend(description, columns);
    AsciiAppend(t.name, description + columns);
    AsciiAppend(TableNameLead, t.name + (description + columns));
  }

  lemma {:induction false} TablesTextAscii(ts: seq<TableValue>)
    requires AllFields(ts, IsAscii)
    ensures IsAscii(TablesText(ts))
  {
    if ts != [] {
      LeadsAscii();
      TableTextAscii(ts[0]);
      TablesTextAscii(ts[1..]);
      AsciiAppend(TableText(ts[0]), TablesText(ts[1..]));
    }
  }

  /** With ASCII fields the document is ASCII, so the final filter changes nothing. */
  lemma DocumentAscii(ts: seq<TableValue>)
    requires AllFields(ts, IsAscii)
    ensures IsAscii(Document(ts))
    ensures FilterAscii(Document(ts)) == Document(ts)
  {
    LeadsAscii();
    TablesTextAscii(ts);
    AsciiAppend(Header, TablesText(ts));
    FilterAsciiIdentity(Document(ts));
  }

  // ---------------------------------------------------------------- end to end

  /** For rows whose cells are ASCII and hold no line break, nothing is lost:
      the converted text is the document itself, and it reads back as the
      tables `get_table_dict` builds from the rows. */
  lemma ConversionRoundTrip(path: string, read: Format -> Sheet)
    requires Load(path, read).Ok?
    requires forall i :: 0 <= i < |Load(path, read).value| ==> CleanRow(Load(path, read).value[i])
    ensures Conversion(path, read) == Ok(Document(Group(Load(path, read).value)))
    ensures DecodeDocument(Conversion(path, read).value) == Some(Group(Load(path, read).value))
  {
    var rows := Load(path, read).value;
    forall i | 0 <= i < |rows| ensures RowFields(rows[i], IsAscii) && RowFields(rows[i], NoLineBreak) {
      TestsClean(rows[i].tests);
    }
    GroupFields(rows, IsAscii);
    GroupFields(rows, NoLineBreak);
    DocumentAscii(Group(rows));
    DocumentRoundTrip(Group(rows));
  }

  /** Two rows of one table, the second with an empty table description: one
      table, whose description is the empty one (the later row wins even when
      it is blank), holding both columns in row order. */
  lemma TwoRowsOneTable(first: Row, second: Row)
    requires first.tableName == second.tableName && second.tableDescription == ""
    ensures Group([first, second]) ==
            [TableValue(first.tableName, "", [ColumnOf(first), ColumnOf(second)])]
  {
    assert [first, second][..1] == [first];
    assert [first][..0] == [];
    var t0 := Admit(TableValue(first.tableName, "", []), first);
    assert Group([first]) == Absorb([], first) == [t0];
    assert Position([t0], second.tableName) == 0;
    assert Group([first, second]) == Absorb([t0], second) == [Admit(t0, second)];
    assert Admit(t0, second).columns == [ColumnOf(first), ColumnOf(second)];
  }

  /** Two `Tests` cells: two tests separated by `|`, and an empty cell with none. */
  lemma ExampleTests()
    ensures TestsOf("not_null|unique") == ["not_null", "unique"]
    ensures TestsOf("") == []
  {
    var tests := ["not_null", "unique"];
    assert JoinOn(tests, TestSeparator) == "not_null|unique";
    TestsOfJoin(tests);
    TestsOfJoin([]);
  }
}
