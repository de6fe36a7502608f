/** The two aggregates of schema_converter.py: `Column` (lines 46-85) and
    `Table` (lines 88-129). Each is an object whose list field is appended to in
    place; `View` gives the value an object stands for, which is what the
    renderer and the specification of the grouping fold talk about. */
module Entities {

  /** The value of a `Column`: its name, description and tests. */
  datatype ColumnValue = ColumnValue(name: string, description: string, tests: seq<string>)

  /** The value of a `Table`: its name, description and columns. */
  datatype TableValue = TableValue(name: string, description: string, columns: seq<ColumnValue>)

  class Column {
    var name: string
    var description: string
    var tests: seq<string>

    /** `Column.__init__`: every column gets its own tests list. */
    constructor (name: string, description: string, tests: seq<string>)
      ensures this.name == name && this.description == description && this.tests == tests
    {
      this.name := name;
      this.description := description;
      this.tests := tests;
    }

    function View(): ColumnValue
      reads this
    {
      ColumnValue(name, description, tests)
    }

    /** `add_test`: appends one test at the end, nothing else changes. */
    method AddTest(test: string)
      modifies this
      ensures tests == old(tests) + [test]
      ensures name == old(name) && description == old(description)
    {
      tests := tests + [test];
    }
  }

  /** The values of a sequence of columns, in order. */
  function ColumnViews(cs: seq<Column>): (vs: seq<ColumnValue>)
    reads cs
    ensures |vs| == |cs|
    ensures forall i :: 0 <= i < |cs| ==> vs[i] == cs[i].View()
  {
    if cs == [] then [] else ColumnViews(cs[..|cs| - 1]) + [cs[|cs| - 1].View()]
  }

  class Table {
    var name: string
    var description: string
    var columns: seq<Column>

    /** `Table.__init__`: every table gets its own columns list. */
    constructor (name: string, description: string, columns: seq<Column>)
      ensures this.name == name && this.description == description && this.columns == columns
    {
      this.name := name;
      this.description := description;
      this.columns := columns;
    }

    function View(): TableValue
      reads this, columns
    {
      TableValue(name, description, ColumnViews(columns))
    }

    /** `add_column`: appends one column at the end, nothing else changes. */
    method AddColumn(column: Column)
      modifies this
      ensures columns == old(columns) + [column]
      ensures name == old(name) && description == old(description)
      ensures View().columns == old(View().columns) + [column.View()]
    {
      columns := columns + [column];
      assert columns[..|columns| - 1] == old(columns);
    }
  }
}
