/** The text of a dbt `schema.yml` as the converter writes it: `Column.__str__`
    (schema_converter.py lines 62-81), `Table.__str__` (lines 106-125) and the
    document of `get_yaml` (lines 247-251), on the values the objects stand for.
    Descriptions are written between double quotes exactly as they are, with no
    escaping. The decoder below reads such a text back; the round-trip lemmas
    show that the text determines the tables it was written from, as long as no
    name, description or test holds a line break. */
module Yaml {
  import opened Wrappers
  import opened Entities

  const VersionLine: string := "version: 2 \n\n"
  const ModelsLine: string := "models:"
  const Header: string := VersionLine + ModelsLine
  const TableNameLead: string := "\n  - name: "
  const TableDescriptionLead: string := "\n    description: \""
  const ColumnsLead: string := "\n    columns:"
  const ColumnNameLead: string := "\n      - name: "
  const ColumnDescriptionLead: string := "\n        description: \""
  const TestsLead: string := "\n        tests:"
  const TestLead: string := "\n          - "
  const Quote: string := "\""

  predicate StartsWith(s: string, prefix: string) {
    |prefix| <= |s| && s[..|prefix|] == prefix
  }

  // ---------------------------------------------------------------- rendering

  /** One `- test` line per test, in order (line 79). */
  function TestsText(tests: seq<string>): string {
    if tests == [] then "" else TestLead + (tests[0] + TestsText(tests[1..]))
  }

  /** A quoted description line, present only for a non-empty description
      (lines 71-73 and 115-117). */
  function DescriptionText(lead: string, description: string): string {
    if description != "" then lead + (description + Quote) else ""
  }

  /** The tests header and the tests, present only when there are tests (lines 76-79). */
  function TestsPart(tests: seq<string>): string {
    if tests != [] then TestsLead + TestsText(tests) else ""
  }

  /** `Column.__str__`: name line, description, tests, final line break (line 81). */
  function ColumnText(c: ColumnValue): string {
    ColumnNameLead + (c.name + (DescriptionText(ColumnDescriptionLead, c.description) + (TestsPart(c.tests) + "\n")))
  }

  /** The column texts joined in order (line 123). */
  function ColumnsText(cs: seq<ColumnValue>): string {
    if cs == [] then "" else ColumnText(cs[0]) + ColumnsText(cs[1..])
  }

  /** The columns header and the columns, present only when there are columns (lines 120-123). */
  function ColumnsPart(cs: seq<ColumnValue>): string {
    if cs != [] then ColumnsLead + ColumnsText(cs) else ""
  }

  /** `Table.__str__`: name line, description, columns; no final line break (line 125). */
  function TableText(t: TableValue): string {
    TableNameLead + (t.name + (DescriptionText(TableDescriptionLead, t.description) + ColumnsPart(t.columns)))
  }

  /** The table texts joined in dictionary order (lines 249-250). */
  function TablesText(ts: seq<TableValue>): string {
    if ts == [] then "" else TableText(ts[0]) + TablesText(ts[1..])
  }

  /** The text `get_yaml` returns for the dictionary's values `ts`. */
  function Document(ts: seq<TableValue>): string {
    Header + TablesText(ts)
  }

  // ---------------------------------------------------------------- reading back

  /** The text before the first line break, and the rest from that break on. */
  function TakeLine(s: string): (r: (string, string))
    ensures r.0 + r.1 == s
    ensures '\n' !in r.0
    ensures r.1 == [] || r.1[0] == '\n'
  {
    if s == [] || s[0] == '\n' then ("", s)
    else
      var (line, rest) := TakeLine(s[1..]);
      assert s == [s[0]] + (line + rest);
      ([s[0]] + line, rest)
  }

  /** An optional line `lead + value + "\""`: `""` when the text does not start
      with `lead`, nothing when the line does not end with a quote. */
  function DecodeQuoted(s: string, lead: string): (r: Option<(string, string)>)
    ensures r.Some? ==> |r.value.1| <= |s|
  {
    if !StartsWith(s, lead) then Some(("", s))
    else
      var (line, rest) := TakeLine(s[|lead|..]);
      if line != [] && line[|line| - 1] == '"' then Some((line[..|line| - 1], rest)) else None
  }

  function DecodeTestItems(s: string): (r: (seq<string>, string))
    ensures |r.1| <= |s|
    decreases |s|
  {
    if !StartsWith(s, TestLead) then ([], s)
    else
      var (test, rest) := TakeLine(s[|TestLead|..]);
      var (more, after) := DecodeTestItems(rest);
      ([test] + more, after)
  }

  function DecodeTests(s: string): (r: (seq<string>, string))
    ensures |r.1| <= |s|
  {
    if StartsWith(s, TestsLead) then DecodeTestItems(s[|TestsLead|..]) else ([], s)
  }

  function DecodeColumn(s: string): (r: Option<(ColumnValue, string)>)
    ensures r.Some? ==> |r.value.1| < |s|
  {
    if !StartsWith(s, ColumnNameLead) then None
    else
      var (name, afterName) := TakeLine(s[|ColumnNameLead|..]);
      match DecodeQuoted(afterName, ColumnDescriptionLead)
      case None => None
      case Some((description, afterDescription)) =>
        var (tests, rest) := DecodeTests(afterDescription);
        if StartsWith(rest, "\n") then Some((ColumnValue(name, description, tests), rest[1..]))
        else None
  }

  function DecodeColumns(s: string): (r: Option<(seq<ColumnValue>, string)>)
    ensures r.Some? ==> |r.value.1| <= |s|
    decreases |s|
  {
    if !StartsWith(s, ColumnNameLead) then Some(([], s))
    else
      match DecodeColumn(s)
      case None => None
      case Some((c, rest)) =>
        match DecodeColumns(rest)
        case None => None
        case Some((cs, after)) => Some(([c] + cs, after))
  }

  function DecodeTable(s: string): (r: Option<(TableValue, string)>)
    ensures r.Some? ==> |r.value.1| < |s|
  {
    if !StartsWith(s, TableNameLead) then None
    else
      var (name, afterName) := TakeLine(s[|TableNameLead|..]);
      match DecodeQuoted(afterName, TableDescriptionLead)
      case None => None
      case Some((description, afterDescription)) =>
        if !StartsWith(afterDescription, ColumnsLead) then
          Some((TableValue(name, description, []), afterDescription))
        else
          match DecodeColumns(afterDescription[|ColumnsLead|..])
          case None => None
          case Some((columns, rest)) => Some((TableValue(name, description, columns), rest))
  }

  function DecodeTables(s: string): (r: Option<seq<TableValue>>)
    decreases |s|
  {
    if s == [] then Some([])
    else
      match DecodeTable(s)
      case None => None
      case Some((t, rest)) =>
        match DecodeTables(rest)
        case None => None
        case Some(ts) => Some([t] + ts)
  }

  function DecodeDocument(s: string): Option<seq<TableValue>> {
    if StartsWith(s, Header) then DecodeTables(s[|Header|..]) else None
  }

  // ---------------------------------------------------------------- well-formed values

  predicate NoLineBreak(s: string) {
    '\n' !in s
  }

  /** The name, description and tests of `c` satisfy `ok`. */
  predicate ColumnFields(c: ColumnValue, ok: string -> bool) {
    ok(c.name) && ok(c.description) && forall i :: 0 <= i < |c.tests| ==> ok(c.tests[i])
  }

  /** The name, description and every column field of `t` satisfy `ok`. */
  predicate TableFields(t: TableValue, ok: string -> bool) {
    ok(t.name) && ok(t.description) &&
    forall j :: 0 <= j < |t.columns| ==> ColumnFields(t.columns[j], ok)
  }

  /** Every name, description and test of the tables satisfies `ok`. */
  predicate AllFields(ts: seq<TableValue>, ok: string -> bool) {
    forall i :: 0 <= i < |ts| ==> TableFields(ts[i], ok)
  }


  // ---------------------------------------------------------------- facts about texts

  lemma Assoc(a: string, b: string, c: string)
    ensures (a + b) + c == a + (b + c)
  {
  }

  lemma Rejoin<T>(s: seq<T>)
    requires s != []
    ensures [s[0]] + s[1..] == s
  {
  }

  /** `p + t` starts with `p`, and `t` follows it. */
  lemma Skip(p: string, t: string)
    ensures StartsWith(p + t, p) && (p + t)[|p|..] == t
  {
    assert (p + t)[..|p|] == p;
  }

  /** A text that differs from `p` at position `i` does not start with `p`. */
  lemma Mismatch(s: string, p: string, i: nat)
    requires i < |s| && i < |p| && s[i] != p[i]
    ensures !StartsWith(s, p)
  {
    if |p| <= |s| {
      assert s[..|p|][i] != p[i];
    }
  }

  /** The leads all start with a line break; they tell each other apart by
      the first character after their indentation. */
  lemma Leads()
    ensures |TableNameLead| >= 4 && |ColumnNameLead| >= 4 && |ColumnsLead| >= 6
    ensures |TableDescriptionLead| >= 6 && |ColumnDescriptionLead| >= 10 && |TestsLead| >= 10 && |TestLead| >= 2
    ensures TableNameLead[0] == ColumnNameLead[0] == TableDescriptionLead[0] == ColumnDescriptionLead[0] == '\n'
    ensures ColumnsLead[0] == TestsLead[0] == TestLead[0] == '\n'
    ensures ColumnNameLead[1] == ColumnDescriptionLead[1] == TestsLead[1] == TestLead[1] == ' '
    ensures TableNameLead[3] != ColumnNameLead[3] && TableNameLead[3] != ColumnsLead[3]
    ensures TableNameLead[3] != TableDescriptionLead[3]
    ensures TestsLead[9] != ColumnDescriptionLead[9]
    ensures ColumnsLead[5] != TableDescriptionLead[5]
  {
  }

  /** Right after a line break that ends a column comes a line break or nothing,
      which no lead indented by a blank can match. */
  lemma NotLead(rest: string, lead: string)
    requires |lead| >= 2 && lead[1] == ' '
    requires rest == [] || rest[0] == '\n'
    ensures !StartsWith("\n" + rest, lead)
  {
    if rest != [] {
      assert ("\n" + rest)[1] == rest[0];
      Mismatch("\n" + rest, lead, 1);
    }
  }

  /** The column's text with a continuation, regrouped after its name line. */
  lemma ColumnThen(c: ColumnValue, rest: string)
    ensures ColumnText(c) + rest ==
      ColumnNameLead + (c.name + (DescriptionText(ColumnDescriptionLead, c.description) + (TestsPart(c.tests) + ("\n" + rest))))
  {
    var z := TestsPart(c.tests) + "\n";
    var y := DescriptionText(ColumnDescriptionLead, c.description) + z;
    Assoc(ColumnNameLead, c.name + y, rest);
    Assoc(c.name, y, rest);
    Assoc(DescriptionText(ColumnDescriptionLead, c.description), z, rest);
    Assoc(TestsPart(c.tests), "\n", rest);
  }

  /** The table's text with a continuation, regrouped after its name line. */
  lemma TableThen(t: TableValue, rest: string)
    ensures TableText(t) + rest ==
      TableNameLead + (t.name + (DescriptionText(TableDescriptionLead, t.description) + (ColumnsPart(t.columns) + rest)))
  {
    var y := DescriptionText(TableDescriptionLead, t.description) + ColumnsPart(t.columns);
    Assoc(TableNameLead, t.name + y, rest);
    Assoc(t.name, y, rest);
    Assoc(DescriptionText(TableDescriptionLead, t.description), ColumnsPart(t.columns), rest);
  }

  lemma ColumnStart(c: ColumnValue, rest: string)
    ensures StartsWith(ColumnText(c) + rest, ColumnNameLead)
  {
    ColumnThen(c, rest);
    Skip(ColumnNameLead, c.name + (DescriptionText(ColumnDescriptionLead, c.description) + (TestsPart(c.tests) + ("\n" + rest))));
  }

  lemma TableStart(t: TableValue, rest: string)
    ensures StartsWith(TableText(t) + rest, TableNameLead)
  {
    TableThen(t, rest);
    Skip(TableNameLead, t.name + (DescriptionText(TableDescriptionLead, t.description) + (ColumnsPart(t.columns) + rest)));
  }

  // ---------------------------------------------------------------- layout

  /** The column text starts with its name line and ends with a line break;
      right after the name comes the quoted description exactly when the
      description is not empty, and, when it is empty, the tests header
      exactly when there are tests. */
  lemma ColumnLayout(c: ColumnValue)
    ensures StartsWith(ColumnText(c), ColumnNameLead + c.name)
    ensures ColumnText(c)[|ColumnText(c)| - 1] == '\n'
    ensures var after := ColumnText(c)[|ColumnNameLead + c.name|..];
      (StartsWith(after, ColumnDescriptionLead) <==> c.description != "") &&
      (c.description != "" ==> StartsWith(after, ColumnDescriptionLead + (c.description + Quote))) &&
      (c.description == "" ==> (StartsWith(after, TestsLead) <==> c.tests != []))
  {
    var z := TestsPart(c.tests) + "\n";
    var after := DescriptionText(ColumnDescriptionLead, c.description) + z;
    Assoc(ColumnNameLead, c.name, after);
    Skip(ColumnNameLead + c.name, after);
    assert ColumnText(c)[|ColumnText(c)| - 1] == z[|z| - 1];
    Leads();
    if c.description != "" {
      Skip(ColumnDescriptionLead + (c.description + Quote), z);
      Assoc(ColumnDescriptionLead, c.description + Quote, z);
      Skip(ColumnDescriptionLead, (c.description + Quote) + z);
    } else if c.tests != [] {
      Assoc(TestsLead, TestsText(c.tests), "\n");
      Skip(TestsLead, TestsText(c.tests) + "\n");
      assert after[9] == TestsLead[9];
      Mismatch(after, ColumnDescriptionLead, 9);
    } else {
      assert after == "\n";
    }
  }

  /** The table text starts with its name line; right after the name comes the
      quoted description exactly when it is not empty, and, when it is empty,
      the columns header exactly when there are columns. */
  lemma TableLayout(t: TableValue)
    ensures StartsWith(TableText(t), TableNameLead + t.name)
    ensures var after := TableText(t)[|TableNameLead + t.name|..];
      (StartsWith(after, TableDescriptionLead) <==> t.description != "") &&
      (t.description != "" ==> StartsWith(after, TableDescriptionLead + (t.description + Quote))) &&
      (t.description == "" ==> (StartsWith(after, ColumnsLead) <==> t.columns != []))
  {
    var z := ColumnsPart(t.columns);
    var after := DescriptionText(TableDescriptionLead, t.description) + z;
    Assoc(TableNameLead, t.name, after);
    Skip(TableNameLead + t.name, after);
    assert TableText(t)[|TableNameLead + t.name|..] == after;
    Leads();
    if t.description != "" {
      Skip(TableDescriptionLead + (t.description + Quote), z);
      Assoc(TableDescriptionLead, t.description + Quote, z);
      Skip(TableDescriptionLead, (t.description + Quote) + z);
    } else if t.columns != [] {
      Skip(ColumnsLead, ColumnsText(t.columns));
      assert after == z;
      assert after[5] == ColumnsLead[5];
      Mismatch(after, TableDescriptionLead, 5);
    } else {
      assert after == "";
    }
  }

  /** Joining the tables one more at a time is what the loop of `get_yaml` does. */
  lemma {:induction false} TablesTextAppend(ts: seq<TableValue>, t: TableValue)
    ensures TablesText(ts + [t]) == TablesText(ts) + TableText(t)
  {
    if ts == [] {
      assert [t][1..] == [];
    } else {
      assert (ts + [t])[0] == ts[0] && (ts + [t])[1..] == ts[1..] + [t];
      TablesTextAppend(ts[1..], t);
      Assoc(TableText(ts[0]), TablesText(ts[1..]), TableText(t));
    }
  }

  /** The loop's step: the first `i + 1` tables are the first `i` and one more. */
  lemma TablesTextPrefix(ts: seq<TableValue>, i: nat)
    requires i < |ts|
    ensures TablesText(ts[..i + 1]) == TablesText(ts[..i]) + TableText(ts[i])
  {
    assert ts[..i + 1] == ts[..i] + [ts[i]];
    TablesTextAppend(ts[..i], ts[i]);
  }

  // ---------------------------------------------------------------- round trips

  lemma {:induction false} TakeLineRoundTrip(line: string, rest: string)
    requires '\n' !in line
    requires rest == [] || rest[0] == '\n'
    ensures TakeLine(line + rest) == (line, rest)
  {
    if line != [] {
      assert (line + rest)[0] == line[0] && (line + rest)[1..] == line[1..] + rest;
      assert '\n' !in line[1..] by { assert forall c :: c in line[1..] ==> c in line; }
      TakeLineRoundTrip(line[1..], rest);
      assert [line[0]] + line[1..] == line;
    } else {
      assert line + rest == rest;
    }
  }

  lemma DescriptionRoundTrip(lead: string, description: string, rest: string)
    requires |lead| >= 1 && '\n' !in description
    requires rest == [] || rest[0] == '\n'
    requires description == "" ==> !StartsWith(rest, lead)
    ensures DecodeQuoted(DescriptionText(lead, description) + rest, lead) == Some((description, rest))
  {
    if description != "" {
      var line := description + Quote;
      Assoc(lead, line, rest);
      Skip(lead, line + rest);
      assert '\n' !in line by { assert forall c :: c in line ==> c in description || c == '"'; }
      TakeLineRoundTrip(line, rest);
      assert line[..|line| - 1] == description;
    } else {
      assert DescriptionText(lead, description) + rest == rest;
    }
  }

  lemma {:induction false} TestItemsRoundTrip(tests: seq<string>, rest: string)
    requires forall i :: 0 <= i < |tests| ==> '\n' !in tests[i]
    requires rest == [] || rest[0] == '\n'
    requires !StartsWith(rest, TestLead)
    ensures DecodeTestItems(TestsText(tests) + rest) == (tests, rest)
  {
    if tests == [] {
      assert TestsText(tests) + rest == rest;
    } else {
      var more := TestsText(tests[1..]);
      var tail := more + rest;
      Assoc(TestLead, tests[0] + more, rest);
      Assoc(tests[0], more, rest);
      Skip(TestLead, tests[0] + tail);
      TestItemsRoundTrip(tests[1..], rest);
      if tests[1..] != [] {
        Leads();
        Assoc(TestLead, tests[1] + TestsText(tests[2..]), rest);
        assert tail[0] == TestLead[0];
      } else {
        assert tail == rest;
      }
      TakeLineRoundTrip(tests[0], tail);
      Rejoin(tests);
    }
  }

  /** The part of a column after its description, followed by a line break and
      what comes after the column, reads back as the column's tests. */
  lemma TestsPartRoundTrip(tests: seq<string>, rest: string)
    requires forall i :: 0 <= i < |tests| ==> '\n' !in tests[i]
    requires rest == [] || rest[0] == '\n'
    ensures var after := TestsPart(tests) + ("\n" + rest);
      DecodeTests(after) == (tests, "\n" + rest) && after[0] == '\n' &&
      !StartsWith(after, ColumnDescriptionLead)
  {
    Leads();
    var r := "\n" + rest;
    var after := TestsPart(tests) + r;
    NotLead(rest, TestLead);
    NotLead(rest, TestsLead);
    NotLead(rest, ColumnDescriptionLead);
    if tests != [] {
      Assoc(TestsLead, TestsText(tests), r);
      Skip(TestsLead, TestsText(tests) + r);
      TestItemsRoundTrip(tests, r);
      assert after[9] == TestsLead[9];
      Mismatch(after, ColumnDescriptionLead, 9);
    } else {
      assert after == r;
    }
  }

  /** A column's text, followed by a line break or by nothing, reads back as
      that column and leaves exactly what followed it. */
  lemma ColumnRoundTrip(c: ColumnValue, rest: string)
    requires ColumnFields(c, NoLineBreak)
    requires rest == [] || rest[0] == '\n'
    ensures DecodeColumn(ColumnText(c) + rest) == Some((c, rest))
  {
    var afterDescription := TestsPart(c.tests) + ("\n" + rest);
    var afterName := DescriptionText(ColumnDescriptionLead, c.description) + afterDescription;
    ColumnThen(c, rest);
    Skip(ColumnNameLead, c.name + afterName);
    TestsPartRoundTrip(c.tests, rest);
    DescriptionRoundTrip(ColumnDescriptionLead, c.description, afterDescription);
    if c.description != "" {
      Leads();
      Assoc(ColumnDescriptionLead, c.description + Quote, afterDescription);
      assert afterName[0] == ColumnDescriptionLead[0];
    }
    TakeLineRoundTrip(c.name, afterName);
    Skip("\n", rest);
  }

  /** Consecutive column texts, followed by what is not a column, read back as
      those columns. */
  lemma {:induction false} ColumnsRoundTrip(cs: seq<ColumnValue>, rest: string)
    requires forall i :: 0 <= i < |cs| ==> ColumnFields(cs[i], NoLineBreak)
    requires rest == [] || rest[0] == '\n'
    requires !StartsWith(rest, ColumnNameLead)
    ensures DecodeColumns(ColumnsText(cs) + rest) == Some((cs, rest))
  {
    if cs == [] {
      assert ColumnsText(cs) + rest == rest;
    } else {
      var tail := ColumnsText(cs[1..]) + rest;
      Assoc(ColumnText(cs[0]), ColumnsText(cs[1..]), rest);
      ColumnsRoundTrip(cs[1..], rest);
      if cs[1..] != [] {
        Leads();
        Assoc(ColumnText(cs[1]), ColumnsText(cs[2..]), rest);
        ColumnStart(cs[1], ColumnsText(cs[2..]) + rest);
        assert tail[0] == ColumnNameLead[0];
      } else {
        assert tail == rest;
      }
      ColumnRoundTrip(cs[0], tail);
      ColumnStart(cs[0], tail);
      Rejoin(cs);
    }
  }

  /** The part of a table after its description, followed by another table or
      by nothing, reads back as the table's columns. */
  lemma ColumnsPartRoundTrip(cs: seq<ColumnValue>, rest: string)
    requires forall i :: 0 <= i < |cs| ==> ColumnFields(cs[i], NoLineBreak)
    requires rest == [] || StartsWith(rest, TableNameLead)
    ensures var after := ColumnsPart(cs) + rest;
      (after == [] || after[0] == '\n') && !StartsWith(after, TableDescriptionLead) &&
      (StartsWith(after, ColumnsLead) ==> DecodeColumns(after[|ColumnsLead|..]) == Some((cs, rest))) &&
      (!StartsWith(after, ColumnsLead) ==> cs == [] && after == rest)
  {
    Leads();
    var after := ColumnsPart(cs) + rest;
    if rest != [] {
      assert rest[0] == TableNameLead[0] && rest[3] == TableNameLead[3];
      Mismatch(rest, ColumnNameLead, 3);
      Mismatch(rest, ColumnsLead, 3);
      Mismatch(rest, TableDescriptionLead, 3);
    }
    if cs != [] {
      Assoc(ColumnsLead, ColumnsText(cs), rest);
      Skip(ColumnsLead, ColumnsText(cs) + rest);
      ColumnsRoundTrip(cs, rest);
      assert after[0] == ColumnsLead[0] && after[5] == ColumnsLead[5];
      Mismatch(after, TableDescriptionLead, 5);
    } else {
      assert after == rest;
    }
  }

  /** A table's text, followed by another table's or by nothing, reads back as
      that table and leaves exactly what followed it. */
  lemma TableRoundTrip(t: TableValue, rest: string)
    requires TableFields(t, NoLineBreak)
    requires rest == [] || StartsWith(rest, TableNameLead)
    ensures DecodeTable(TableText(t) + rest) == Some((t, rest))
  {
    var afterDescription := ColumnsPart(t.columns) + rest;
    var afterName := DescriptionText(TableDescriptionLead, t.description) + afterDescription;
    TableThen(t, rest);
    Skip(TableNameLead, t.name + afterName);
    ColumnsPartRoundTrip(t.columns, rest);
    DescriptionRoundTrip(TableDescriptionLead, t.description, afterDescription);
    if t.description != "" {
      Leads();
      Assoc(TableDescriptionLead, t.description + Quote, afterDescription);
      assert afterName[0] == TableDescriptionLead[0];
    }
    TakeLineRoundTrip(t.name, afterName);
  }

  /** The joined table texts read back as the tables. */
  lemma {:induction false} TablesRoundTrip(ts: seq<TableValue>)
    requires AllFields(ts, NoLineBreak)
    ensures DecodeTables(TablesText(ts)) == Some(ts)
  {
    if ts != [] {
      var rest := TablesText(ts[1..]);
      assert AllFields(ts[1..], NoLineBreak) by {
        forall i | 0 <= i < |ts[1..]| ensures ts[1..][i] == ts[i + 1] { }
      }
      TablesRoundTrip(ts[1..]);
      if ts[1..] != [] {
        TableStart(ts[1], TablesText(ts[2..]));
      }
      TableRoundTrip(ts[0], rest);
      TableStart(ts[0], rest);
      Rejoin(ts);
    }
  }

  /** The document reads back as the dictionary's tables, in order: what
      `get_yaml` writes loses nothing of the names, descriptions, columns and
      tests, and adds nothing. */
  lemma DocumentRoundTrip(ts: seq<TableValue>)
    requires AllFields(ts, NoLineBreak)
    ensures DecodeDocument(Document(ts)) == Some(ts)
  {
    Skip(Header, TablesText(ts));
    TablesRoundTrip(ts);
  }
}
