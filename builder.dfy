/** `get_table_dict` (schema_converter.py lines 204-234): the fold of the row
    sequence into an insertion-ordered dictionary from table name to `Table`.
    `Group` is that fold on values; `GetTableDict` is the loop over objects,
    proved to build exactly what `Group` describes. The lemmas below state what
    the fold produces without reference to the fold: one table per distinct
    name in order of first appearance, one column per row in row order, and the
    description of the last row. */
module Builder {
  import opened Loader
  import opened Split
  import opened Entities

  /** The column that one row contributes (lines 226-230). */
  function ColumnOf(row: Row): ColumnValue {
    ColumnValue(row.columnName, row.columnDescription, TestsOf(row.tests))
  }

  /** The names of the tables, in order: the dictionary's keys. */
  function Names(ts: seq<TableValue>): (ns: seq<string>)
    ensures |ns| == |ts|
    ensures forall i :: 0 <= i < |ts| ==> ns[i] == ts[i].name
  {
    seq(|ts|, i requires 0 <= i < |ts| => ts[i].name)
  }

  /** The position of the table called `name`, or `|ts|` if there is none. */
  function Position(ts: seq<TableValue>, name: string): (i: nat)
    ensures i <= |ts|
    ensures i < |ts| ==> ts[i].name == name
    ensures forall j :: 0 <= j < i ==> ts[j].name != name
  {
    if ts == [] then 0
    else if ts[0].name == name then 0
    else 1 + Position(ts[1..], name)
  }

  /** What one row does to the table it belongs to: the description is
      overwritten with the row's, even when that is empty (line 223), and the
      row's column is appended (line 232). */
  function Admit(t: TableValue, row: Row): TableValue {
    t.(description := row.tableDescription, columns := t.columns + [ColumnOf(row)])
  }

  /** One iteration of the loop body (lines 216-232): the table is created,
      empty, when its name is new (line 220), then the row is admitted to it. */
  function Absorb(ts: seq<TableValue>, row: Row): seq<TableValue> {
    var k := Position(ts, row.tableName);
    if k < |ts| then ts[k := Admit(ts[k], row)]
    else ts + [Admit(TableValue(row.tableName, "", []), row)]
  }

  /** The dictionary's values, in insertion order, after the whole loop. */
  function Group(rows: seq<Row>): seq<TableValue> {
    if rows == [] then [] else Absorb(Group(rows[..|rows| - 1]), rows[|rows| - 1])
  }

  // ---------------------------------------------------------------- reference definitions

  predicate DistinctNames(ts: seq<TableValue>) {
    forall i, j :: 0 <= i < j < |ts| ==> ts[i].name != ts[j].name
  }

  /** The table names of the rows, in row order. */
  function TableNames(rows: seq<Row>): (ns: seq<string>)
    ensures |ns| == |rows|
    ensures forall i :: 0 <= i < |rows| ==> ns[i] == rows[i].tableName
  {
    seq(|rows|, i requires 0 <= i < |rows| => rows[i].tableName)
  }

  /** The position of the first row of table `name`, or `|rows|`. */
  function FirstRow(rows: seq<Row>, name: string): (i: nat)
    ensures i <= |rows|
    ensures i < |rows| ==> rows[i].tableName == name
    ensures forall j :: 0 <= j < i ==> rows[j].tableName != name
  {
    if rows == [] then 0
    else
      var p := FirstRow(rows[..|rows| - 1], name);
      if p < |rows| - 1 then p
      else if rows[|rows| - 1].tableName == name then |rows| - 1
      else |rows|
  }

  /** The columns of the rows of table `name`, in row order. */
  function RowsColumns(rows: seq<Row>, name: string): seq<ColumnValue> {
    if rows == [] then []
    else
      var last := rows[|rows| - 1];
      RowsColumns(rows[..|rows| - 1], name) + (if last.tableName == name then [ColumnOf(last)] else [])
  }

  /** The table description of the last row of table `name` ("" if none). */
  function LastDescription(rows: seq<Row>, name: string): string {
    if rows == [] then ""
    else if rows[|rows| - 1].tableName == name then rows[|rows| - 1].tableDescription
    else LastDescription(rows[..|rows| - 1], name)
  }

  // ---------------------------------------------------------------- properties of the fold

  lemma PositionOfName(ts: seq<TableValue>, name: string)
    ensures Position(ts, name) < |ts| <==> name in Names(ts)
  {
    if name in Names(ts) {
      var j :| 0 <= j < |ts| && Names(ts)[j] == name;
      assert ts[j].name == name;
    }
  }

  /** The tables have distinct names, and their names are exactly the rows'
      table names. */
  lemma {:induction false} GroupNames(rows: seq<Row>)
    ensures DistinctNames(Group(rows))
    ensures forall name :: name in Names(Group(rows)) <==> name in TableNames(rows)
  {
    if rows != [] {
      var prefix, row := rows[..|rows| - 1], rows[|rows| - 1];
      GroupNames(prefix);
      var before := Group(prefix);
      assert Group(rows) == Absorb(before, row);
      AbsorbNames(before, row);
      assert TableNames(rows) == TableNames(prefix) + [row.tableName];
      DistinctSameNames(Grow(before, row.tableName), Group(rows));
    }
  }

  /** A row adds its table's name at the end when it is new, and changes no name. */
  lemma AbsorbNames(ts: seq<TableValue>, row: Row)
    ensures Names(Absorb(ts, row)) == Names(Grow(ts, row.tableName))
    ensures row.tableName !in Names(ts) ==> Names(Grow(ts, row.tableName)) == Names(ts) + [row.tableName]
    ensures row.tableName !in Names(ts) ==> DistinctNames(ts) ==> DistinctNames(Grow(ts, row.tableName))
  {
    PositionOfName(ts, row.tableName);
    if row.tableName !in Names(ts) {
      assert Names(Grow(ts, row.tableName)) == Names(ts) + [row.tableName];
    }
  }

  lemma DistinctSameNames(a: seq<TableValue>, b: seq<TableValue>)
    requires DistinctNames(a) && Names(a) == Names(b)
    ensures DistinctNames(b)
  {
    assert forall i :: 0 <= i < |a| ==> a[i].name == Names(a)[i];
  }

  /** The tables appear in the order in which their names first occur in the rows. */
  lemma {:induction false} GroupOrder(rows: seq<Row>)
    ensures forall i, j :: 0 <= i < j < |Group(rows)| ==>
      FirstRow(rows, Group(rows)[i].name) < FirstRow(rows, Group(rows)[j].name)
  {
    if rows != [] {
      var prefix, row := rows[..|rows| - 1], rows[|rows| - 1];
      GroupOrder(prefix);
      GroupNames(prefix);
      var before := Group(prefix);
      var after := Group(rows);
      assert after == Absorb(before, row);
      AbsorbNames(before, row);
      assert forall j :: 0 <= j < |after| ==> after[j].name == Names(after)[j];
      forall j | 0 <= j < |before|
        ensures FirstRow(rows, after[j].name) == FirstRow(prefix, before[j].name) < |prefix|
      {
        assert before[j].name in Names(before);
        FirstRowOfKnown(prefix, row, before[j].name);
      }
      if |after| > |before| {
        assert row.tableName !in TableNames(prefix);
        FirstRowOfNew(prefix, row);
      }
    }
  }

  lemma FirstRowOfKnown(prefix: seq<Row>, row: Row, name: string)
    requires name in TableNames(prefix)
    ensures FirstRow(prefix + [row], name) == FirstRow(prefix, name) < |prefix|
  {
    assert (prefix + [row])[..|prefix|] == prefix;
    var j :| 0 <= j < |prefix| && TableNames(prefix)[j] == name;
    assert FirstRow(prefix, name) <= j;
  }

  lemma FirstRowOfNew(prefix: seq<Row>, row: Row)
    requires row.tableName !in TableNames(prefix)
    ensures FirstRow(prefix + [row], row.tableName) == |prefix|
  {
    assert (prefix + [row])[..|prefix|] == prefix;
  }

  /** A table's columns are one column per row of that table, in row order,
      with nothing merged or dropped. */
  lemma {:induction false} GroupColumns(rows: seq<Row>)
    ensures forall i :: 0 <= i < |Group(rows)| ==>
      Group(rows)[i].columns == RowsColumns(rows, Group(rows)[i].name)
  {
    if rows != [] {
      var prefix, row := rows[..|rows| - 1], rows[|rows| - 1];
      GroupColumns(prefix);
      GroupNames(prefix);
      var before := Group(prefix);
      PositionOfName(before, row.tableName);
      if Position(before, row.tableName) == |before| {
        NoColumnsOfAbsent(prefix, row.tableName);
      }
    }
  }

  lemma {:induction false} NoColumnsOfAbsent(rows: seq<Row>, name: string)
    requires name !in TableNames(rows)
    ensures RowsColumns(rows, name) == []
  {
    if rows != [] {
      assert TableNames(rows) == TableNames(rows[..|rows| - 1]) + [rows[|rows| - 1].tableName];
      NoColumnsOfAbsent(rows[..|rows| - 1], name);
    }
  }

  /** A table's description is the `Table Description` of the LAST row of that
      table, including "" when that row's cell is empty (line 223). */
  lemma {:induction false} GroupDescription(rows: seq<Row>)
    ensures forall i :: 0 <= i < |Group(rows)| ==>
      Group(rows)[i].description == LastDescription(rows, Group(rows)[i].name)
  {
    if rows != [] {
      var prefix, row := rows[..|rows| - 1], rows[|rows| - 1];
      GroupDescription(prefix);
      GroupNames(prefix);
    }
  }

  /** Every row ends up as exactly one column: the columns of all tables
      together are as many as the rows. */
  lemma {:induction false} GroupColumnCount(rows: seq<Row>)
    ensures TotalColumns(Group(rows)) == |rows|
  {
    if rows != [] {
      var prefix, row := rows[..|rows| - 1], rows[|rows| - 1];
      GroupColumnCount(prefix);
      var before := Group(prefix);
      var name := row.tableName;
      var grown := if Position(before, name) == |before| then before + [TableValue(name, "", [])] else before;
      TotalColumnsAppend(before, [TableValue(name, "", [])]);
      var k := Position(grown, name);
      TotalColumnsUpdate(grown, k, grown[k].(description := row.tableDescription, columns := grown[k].columns + [ColumnOf(row)]));
    }
  }

  /** The number of columns of all tables together. */
  function TotalColumns(ts: seq<TableValue>): nat {
    if ts == [] then 0 else TotalColumns(ts[..|ts| - 1]) + |ts[|ts| - 1].columns|
  }

  lemma {:induction false} TotalColumnsAppend(a: seq<TableValue>, b: seq<TableValue>)
    ensures TotalColumns(a + b) == TotalColumns(a) + TotalColumns(b)
  {
    if b != [] {
      assert (a + b)[..|a + b| - 1] == a + b[..|b| - 1];
      TotalColumnsAppend(a, b[..|b| - 1]);
    } else {
      assert a + b == a;
    }
  }

  lemma TotalColumnsUpdate(ts: seq<TableValue>, k: nat, t: TableValue)
    requires k < |ts|
    ensures TotalColumns(ts[k := t]) == TotalColumns(ts) - |ts[k].columns| + |t.columns|
  {
    assert ts == ts[..k] + [ts[k]] + ts[k + 1..];
    assert ts[k := t] == ts[..k] + [t] + ts[k + 1..];
    TotalColumnsAppend(ts[..k] + [ts[k]], ts[k + 1..]);
    TotalColumnsAppend(ts[..k] + [t], ts[k + 1..]);
    TotalColumnsAppend(ts[..k], [ts[k]]);
    TotalColumnsAppend(ts[..k], [t]);
    assert TotalColumns([t]) == |t.columns| by { assert [t][..0] == []; }
    assert TotalColumns([ts[k]]) == |ts[k].columns| by { assert [ts[k]][..0] == []; }
  }

  // ---------------------------------------------------------------- the loop over objects

  /** Lines 226-230: a fresh column for `row`, its tests added one by one. */
  method ColumnFromRow(row: Row) returns (col: Column)
    ensures fresh(col)
    ensures col.View() == ColumnOf(row)
  {
    col := new Column(row.columnName, row.columnDescription, []);
    var parts := SplitOn(row.tests, TestSeparator);
    var k := 0;
    while k < |parts|
      invariant 0 <= k <= |parts|
      invariant col.name == row.columnName && col.description == row.columnDescription
      invariant col.tests == NonEmpty(parts[..k])
    {
      NonEmptyStep(parts, k);
      if parts[k] != "" {
        col.AddTest(parts[k]);
      }
      k := k + 1;
    }
    assert parts[..k] == parts;
  }

  lemma NonEmptyStep(parts: seq<string>, k: nat)
    requires k < |parts|
    ensures NonEmpty(parts[..k + 1]) == NonEmpty(parts[..k]) + (if parts[k] != "" then [parts[k]] else [])
  {
    NonEmptyAppend(parts[..k], [parts[k]]);
    assert parts[..k + 1] == parts[..k] + [parts[k]];
  }

  /** How one row changes the dictionary, in the two steps the loop body takes:
      `grown` is the dictionary after line 220, `k` the position of the row's table. */
  lemma AbsorbStep(ts: seq<TableValue>, row: Row) returns (grown: seq<TableValue>, k: nat)
    requires DistinctNames(ts)
    ensures row.tableName in Names(ts) ==> grown == ts
    ensures row.tableName !in Names(ts) ==> grown == ts + [TableValue(row.tableName, "", [])]
    ensures row.tableName !in Names(ts) ==> Names(grown) == Names(ts) + [row.tableName]
    ensures DistinctNames(grown)
    ensures k < |grown| && grown[k].name == row.tableName
    ensures Absorb(ts, row) == grown[k := Admit(grown[k], row)]
    ensures Names(Absorb(ts, row)) == Names(grown)
  {
    PositionOfName(ts, row.tableName);
    k := Position(ts, row.tableName);
    if k < |ts| {
      grown := ts;
    } else {
      grown := ts + [TableValue(row.tableName, "", [])];
      assert Names(grown) == Names(ts) + [row.tableName];
    }
  }

  /** The keys of the dictionary are exactly those of `keys`. */
  ghost predicate KeysAre(tables: map<string, Table>, keys: seq<string>) {
    forall k :: k in tables <==> k in keys
  }

  /** Different keys hold different objects. */
  ghost predicate Separate(tables: map<string, Table>) {
    forall a, b :: a in tables && b in tables && a != b ==> tables[a] != tables[b]
  }

  /** Inserting a new key with an object no key holds keeps both properties. */
  lemma InsertKey(tables: map<string, Table>, keys: seq<string>, name: string, t: Table)
    requires KeysAre(tables, keys) && Separate(tables) && name !in tables
    requires forall k :: k in tables ==> tables[k] != t
    ensures KeysAre(tables[name := t], keys + [name]) && Separate(tables[name := t])
  {
  }

  /** The dictionary after lines 219-220: a new, empty table is added under a
      name that is not yet a key. */
  function Grow(ts: seq<TableValue>, name: string): seq<TableValue> {
    if name in Names(ts) then ts else ts + [TableValue(name, "", [])]
  }

  /** Lines 219-220 on the dictionary, given as its keys in insertion order and
      the map itself, standing for `model`. A known name leaves keys and map as
      they are; a new one adds a fresh, empty table under a new last key. */
  method EnsureTable(keys: seq<string>, tables: map<string, Table>, name: string, ghost model: seq<TableValue>)
      returns (newKeys: seq<string>, newTables: map<string, Table>)
    requires keys == Names(model)
    requires KeysAre(tables, keys)
    requires forall j :: 0 <= j < |keys| ==> tables[keys[j]].View() == model[j]
    requires Separate(tables)
    ensures newKeys == Names(Grow(model, name)) && name in newTables
    ensures KeysAre(newTables, newKeys)
    ensures forall j :: 0 <= j < |newKeys| ==> newTables[newKeys[j]].View() == Grow(model, name)[j]
    ensures Separate(newTables)
    ensures name in tables ==> newKeys == keys && newTables == tables
    ensures forall k :: k in tables ==> k in newTables && newTables[k] == tables[k]
    ensures forall k :: k in newTables ==> (k in tables && newTables[k] == tables[k]) || fresh(newTables[k])
  {
    newKeys, newTables := keys, tables;
    if name !in tables {
      var t := new Table(name, "", []);
      InsertKey(tables, keys, name, t);
      newTables := newTables[name := t];
      newKeys := newKeys + [name];
      ghost var grown := Grow(model, name);
      assert Names(grown) == newKeys;
      forall j | 0 <= j < |newKeys|
        ensures newTables[newKeys[j]].View() == grown[j]
      {
        if j < |keys| {
          assert newTables[newKeys[j]] == tables[keys[j]];
        } else {
          assert newTables[newKeys[j]] == t;
        }
      }
    }
  }

  /** One iteration of the loop of `get_table_dict` (lines 216-232): the row's
      table is created if its name is new, its description is overwritten and
      the row's column is added to it. The dictionary then stands for
      `Absorb(model, row)`. Every key keeps its object, and a known name adds
      no key; tables other than the row's keep their values. */
  method AddRow(keys: seq<string>, tables: map<string, Table>, row: Row, ghost model: seq<TableValue>)
      returns (newKeys: seq<string>, newTables: map<string, Table>)
    requires DistinctNames(model) && keys == Names(model)
    requires KeysAre(tables, keys)
    requires forall j :: 0 <= j < |keys| ==> tables[keys[j]].View() == model[j]
    requires Separate(tables)
    modifies tables.Values
    ensures newKeys == Names(Absorb(model, row))
    ensures KeysAre(newTables, newKeys)
    ensures forall j :: 0 <= j < |newKeys| ==> newTables[newKeys[j]].View() == Absorb(model, row)[j]
    ensures Separate(newTables)
    ensures row.tableName in tables ==> newKeys == keys && newTables == tables
    ensures forall k :: k in tables ==> k in newTables && newTables[k] == tables[k]
    ensures forall k :: k in newTables ==> (k in tables && newTables[k] == tables[k]) || fresh(newTables[k])
  {
    var name := row.tableName;
    ghost var grown, k := AbsorbStep(model, row);
    assert grown == Grow(model, name);
    newKeys, newTables := EnsureTable(keys, tables, name, model);
    assert newKeys[k] == name;
    AdmitAt(newKeys, newTables, name, row, k, grown);
  }

  /** Lines 223-232 on the table under the key `name`, the k-th key of the
      dictionary; the tables under the other keys are other objects and keep
      their values. */
  method AdmitAt(keys: seq<string>, tables: map<string, Table>, name: string, row: Row,
                 ghost k: nat, ghost ts: seq<TableValue>)
    requires k < |keys| == |ts| && keys[k] == name
    requires forall j :: 0 <= j < |keys| ==> keys[j] in tables
    requires forall j :: 0 <= j < |keys| ==> tables[keys[j]].View() == ts[j]
    requires forall j :: 0 <= j < |keys| && j != k ==> tables[keys[j]] != tables[keys[k]]
    modifies tables[keys[k]]
    ensures forall j :: 0 <= j < |keys| ==> tables[keys[j]].View() == ts[k := Admit(ts[k], row)][j]
  {
    var table := tables[name];
    AdmitRow(table, row);
    forall j | 0 <= j < |keys|
      ensures tables[keys[j]].View() == ts[k := Admit(ts[k], row)][j]
    {
      if j != k {
        assert tables[keys[j]] != table;
      }
    }
  }

  /** Lines 223-232 on the row's table: the description is overwritten, a fresh
      column is built from the row and appended. */
  method AdmitRow(table: Table, row: Row)
    modifies table
    ensures table.View() == Admit(old(table.View()), row)
    ensures forall t: Table :: old(allocated(t)) && t != table ==> t.View() == old(t.View())
  {
    ghost var columns := table.View().columns;
    table.description := row.tableDescription;
    assert table.View().columns == columns;
    var col := ColumnFromRow(row);
    table.AddColumn(col);
  }

  /** `get_table_dict`: the keys in insertion order and the dictionary. Every
      table is a fresh object of its own, and the value of the table under the
      i-th key is the i-th table of `Group(rows)`. */
  method GetTableDict(rows: seq<Row>) returns (keys: seq<string>, tables: map<string, Table>)
    ensures keys == Names(Group(rows))
    ensures KeysAre(tables, keys)
    ensures forall i :: 0 <= i < |keys| ==> tables[keys[i]].View() == Group(rows)[i]
    ensures Separate(tables)
    ensures forall k :: k in tables ==> fresh(tables[k])
  {
    keys, tables := [], map[];
    var i := 0;
    while i < |rows|
      invariant 0 <= i <= |rows|
      invariant keys == Names(Group(rows[..i]))
      invariant KeysAre(tables, keys)
      invariant forall j :: 0 <= j < |keys| ==> tables[keys[j]].View() == Group(rows[..i])[j]
      invariant Separate(tables)
      invariant forall k :: k in tables ==> fresh(tables[k])
    {
      ghost var model := Group(rows[..i]);
      GroupNames(rows[..i]);
      assert rows[..i + 1][..i] == rows[..i];
      assert Group(rows[..i + 1]) == Absorb(model, rows[i]);
      keys, tables := AddRow(keys, tables, rows[i], model);
      i := i + 1;
    }
    assert rows[..i] == rows;
  }
}
