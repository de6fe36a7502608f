# dbt schema converter, modelled in Dafny

`dbt_schema_converter` turns a spreadsheet (`.csv` or `.xlsx`) that describes database
tables into the `schema.yml` document dbt reads. Each row of the sheet gives a table
name, a table description, a column name, a column description and a `|`-separated list
of tests. A conversion runs in four steps, and the model follows them:

1. **Loading** (`get_file`, module `Loader`). The file's extension must be `.csv` or
   `.xlsx`. The header must hold the five required columns. Rows with no value at all
   are dropped, and missing cells become `""`. Diagnostics and `SystemExit` become an
   `Error` value. The sheet that pandas reads is a parameter `read: Format -> Sheet`.
2. **Grouping** (`get_table_dict`, modules `Builder` and `Entities`). `Column` and
   `Table` are classes whose lists are appended to in place. `GetTableDict` is the loop
   over rows, and it mutates a dictionary of `Table` objects. The dictionary is an
   insertion-ordered key sequence plus a map. `Group` is the same fold on values, and
   `GetTableDict` is proved to build exactly what `Group` describes. The lemmas about
   `Group` say what the fold produces without the fold:
   - one table per distinct name, in order of first appearance;
   - one column per row of that table, in row order;
   - the table description of the table's last row, empty or not.
3. **Rendering** (`Column.__str__`, `Table.__str__`, `get_yaml`, modules `Yaml` and
   `Converter`). The renderers are functions on values, and `GetYaml` is the
   accumulating loop. The partner of the renderer is a decoder. When no name,
   description or test holds a line break, decoding the document gives back exactly
   the tables.
4. **ASCII filter** (`convert`, modules `Ascii` and `Converter`). Every character above
   code point 127 is dropped, and the rest keep their order.

`Converter.ConversionRoundTrip` puts the steps together. For a file whose cells are
ASCII and hold no line break, the converted text is the rendered document, and it reads
back as the tables built from the rows.

Line 223 of `schema_converter.py` assigns the row's table description unconditionally.
A later row with an empty `Table Description` therefore clears a description set by an
earlier row. It does not keep the earlier one. The model keeps this behaviour
(`Builder.Admit`, `Builder.GroupDescription`, `Converter.TwoRowsOneTable`).

Line 196 drops a row only when every column of the sheet is empty. That includes columns
beyond the five required ones. A row with a value only in an extra column is kept, and
its required fields become `""`. `Loader.IsBlank` looks at all the cells of a row in the
same way.

## Model

| member | source | states |
|---|---|---|
| Ascii.FilterAscii | dbt_schema_converter/schema_converter.py:270 | the filtered text is ASCII, and its length is the input's length minus the number of characters above 127 |
| Ascii.FilterAsciiIdentity | dbt_schema_converter/schema_converter.py:270 | the filter leaves a text unchanged exactly when the text is ASCII |
| Ascii.FilterAsciiIdempotent | dbt_schema_converter/schema_converter.py:270 | filtering twice equals filtering once |
| Ascii.FilterAsciiMembers | dbt_schema_converter/schema_converter.py:270 | a character is in the output exactly when it is in the input and is ASCII |
| Ascii.FilterAsciiAppend | dbt_schema_converter/schema_converter.py:270 | the filter distributes over concatenation, so it works character by character and keeps order |
| Split.SplitOn | dbt_schema_converter/schema_converter.py:228 | `str.split` on one character: never empty, and no piece holds the separator |
| Split.JoinSplit | dbt_schema_converter/schema_converter.py:228 | joining the pieces with the separator gives back the input |
| Split.SplitJoin | dbt_schema_converter/schema_converter.py:228 | splitting a join of separator-free pieces gives back the pieces |
| Split.SplitCount | dbt_schema_converter/schema_converter.py:228 | there is one piece more than there are separators |
| Split.SplitChars | dbt_schema_converter/schema_converter.py:228 | every character of every piece occurs in the input |
| Split.ConcatTests | dbt_schema_converter/schema_converter.py:228-230 | the tests, concatenated in order, are the `Tests` cell with its separators removed (order and duplicates kept) |
| Split.TestsOfJoin | dbt_schema_converter/schema_converter.py:228-230 | a list of non-empty, separator-free tests joined with the bar separator reads back as that same list |
| Split.NoTestsOnlySeparators | dbt_schema_converter/schema_converter.py:228-230 | a cell made only of separators, the empty cell included, gives no tests |
| Split.NonEmptyAll | dbt_schema_converter/schema_converter.py:229 | skipping empty segments keeps a list that has none |
| Split.NonEmptyAppend | dbt_schema_converter/schema_converter.py:229 | skipping empty segments distributes over concatenation |
| Loader.SuffixIs | dbt_schema_converter/schema_converter.py:166 | `Path.suffix` is a given extension exactly when the path ends with it and the file name has more in front of it |
| Loader.CsvAccepted | dbt_schema_converter/schema_converter.py:166-178 | the format is CSV exactly when the file name ends in `.csv` and has more in front of it |
| Loader.XlsxAccepted | dbt_schema_converter/schema_converter.py:166-178 | the format is Excel exactly when the file name ends in `.xlsx` and has more in front of it |
| Loader.NoDotRefused | dbt_schema_converter/schema_converter.py:166-172 | a file name without a dot has no extension and is refused |
| Loader.HiddenFileRefused | dbt_schema_converter/schema_converter.py:166-172 | a hidden file such as `data/.csv` has no extension and is refused |
| Loader.FirstMissingFinds | dbt_schema_converter/schema_converter.py:182-184 | the search finds nothing exactly when every required column is in the header; what it finds is required and absent |
| Loader.HeaderAccepted | dbt_schema_converter/schema_converter.py:182-193 | the header check passes exactly when all five required columns are present; otherwise it fails with the required and the found columns |
| Loader.NormaliseLength | dbt_schema_converter/schema_converter.py:196 | normalisation keeps exactly the rows that are not blank |
| Loader.NormalisePosition | dbt_schema_converter/schema_converter.py:196-199 | a non-blank row keeps its relative position and becomes its filled row, with missing cells as `""` |
| Loader.NormaliseBlank | dbt_schema_converter/schema_converter.py:196 | a sheet of blank rows gives no rows |
| Loader.LoadOutcomes | dbt_schema_converter/schema_converter.py:151-201 | `get_file`'s three outcomes: a format error for a refused suffix, a schema error when a required column is missing, otherwise the normalised rows |
| Entities.Column.constructor | dbt_schema_converter/schema_converter.py:56-60 | a new column holds the given name, description and tests |
| Entities.Column.AddTest | dbt_schema_converter/schema_converter.py:83-85 | exactly one test is appended at the end; name and description are unchanged |
| Entities.Table.constructor | dbt_schema_converter/schema_converter.py:100-104 | a new table holds the given name, description and columns |
| Entities.Table.AddColumn | dbt_schema_converter/schema_converter.py:127-129 | exactly one column is appended at the end; name, description and the earlier columns are unchanged |
| Entities.ColumnViews | dbt_schema_converter/schema_converter.py:127-129 | the values of a column list, one for each column, in order |
| Builder.Position | dbt_schema_converter/schema_converter.py:219 | the place of a table name among the keys: the first table with that name, or past the end |
| Builder.PositionOfName | dbt_schema_converter/schema_converter.py:219 | a name has a position exactly when it is one of the keys |
| Builder.ColumnFromRow | dbt_schema_converter/schema_converter.py:226-230 | the new column has the row's column name and description, and the row's tests split on the bar with empty segments skipped |
| Builder.AdmitRow | dbt_schema_converter/schema_converter.py:223-232 | the table's description becomes the row's, even when empty, and the row's column is appended; every other table is unchanged |
| Builder.AdmitAt | dbt_schema_converter/schema_converter.py:223-232 | admitting a row to the table under one key changes that key's value and no other |
| Builder.EnsureTable | dbt_schema_converter/schema_converter.py:219-220 | a new name gets a fresh, empty table under a new last key; a known name leaves the keys and the map (the same objects) as they are; every existing key keeps its object |
| Builder.AddRow | dbt_schema_converter/schema_converter.py:215-232 | one iteration: keys and table values are those of the value-level step `Absorb`; every existing key keeps its object, a known name adds no key, and tables stay separate objects |
| Builder.GetTableDict | dbt_schema_converter/schema_converter.py:204-234 | the keys and the values of every table are exactly those of `Group(rows)`; every table is a fresh separate object |
| Builder.GroupNames | dbt_schema_converter/schema_converter.py:214-220 | the keys are distinct, and a name is a key exactly when some row carries it |
| Builder.GroupOrder | dbt_schema_converter/schema_converter.py:214-220 | the keys are in order of each name's first row |
| Builder.GroupColumns | dbt_schema_converter/schema_converter.py:226-232 | each table's columns are the columns of its rows, one per row, in row order, duplicates kept |
| Builder.NoColumnsOfAbsent | dbt_schema_converter/schema_converter.py:226-232 | a name no row carries has no columns |
| Builder.GroupDescription | dbt_schema_converter/schema_converter.py:223 | each table's description is that of its last row, `""` included |
| Builder.GroupColumnCount | dbt_schema_converter/schema_converter.py:226-232 | there are as many columns in all as there are rows |
| Yaml.ColumnLayout | dbt_schema_converter/schema_converter.py:62-81 | a column's text starts with its name line and ends with a line break; the quoted description line follows exactly when the description is not empty; otherwise the tests header follows exactly when there are tests |
| Yaml.TableLayout | dbt_schema_converter/schema_converter.py:106-125 | a table's text starts with its name line; the quoted description line follows exactly when the description is not empty; otherwise the columns header follows exactly when there are columns |
| Yaml.ColumnStart | dbt_schema_converter/schema_converter.py:68 | a column's text starts with the column name lead |
| Yaml.TableStart | dbt_schema_converter/schema_converter.py:112 | a table's text starts with the table name lead |
| Yaml.TablesTextAppend | dbt_schema_converter/schema_converter.py:249-250 | appending a table appends its text |
| Yaml.TablesTextPrefix | dbt_schema_converter/schema_converter.py:249-250 | the text of the first i+1 tables is the text of the first i plus the next table's |
| Yaml.TakeLineRoundTrip | dbt_schema_converter/schema_converter.py:68 | a line without line breaks reads back as itself |
| Yaml.DescriptionRoundTrip | dbt_schema_converter/schema_converter.py:71-73 | a description line, or its absence, reads back as the description |
| Yaml.TestItemsRoundTrip | dbt_schema_converter/schema_converter.py:79 | the test lines read back as the tests, in order |
| Yaml.TestsPartRoundTrip | dbt_schema_converter/schema_converter.py:76-79 | the tests header and test lines, or their absence, read back as the tests |
| Yaml.ColumnRoundTrip | dbt_schema_converter/schema_converter.py:62-81 | a column's text reads back as the column, and the text after it is untouched |
| Yaml.ColumnsRoundTrip | dbt_schema_converter/schema_converter.py:123 | the concatenated column texts read back as the columns, in order |
| Yaml.ColumnsPartRoundTrip | dbt_schema_converter/schema_converter.py:120-123 | the columns header and columns, or their absence, read back as the columns |
| Yaml.TableRoundTrip | dbt_schema_converter/schema_converter.py:106-125 | a table's text reads back as the table |
| Yaml.TablesRoundTrip | dbt_schema_converter/schema_converter.py:249-250 | the concatenated table texts read back as the tables, in order |
| Yaml.DocumentRoundTrip | dbt_schema_converter/schema_converter.py:247-251 | the document reads back as exactly its tables when no field holds a line break |
| Converter.GetYaml | dbt_schema_converter/schema_converter.py:237-251 | the loop builds the header followed by every table's text in key order |
| Converter.Convert | dbt_schema_converter/schema_converter.py:254-270 | `convert` is load, group, render, filter; a loading error is passed on |
| Converter.ConversionOutcomes | dbt_schema_converter/schema_converter.py:166-201 | a conversion fails exactly when loading fails, with the same error; it succeeds only for a `.csv` or `.xlsx` suffix and a complete header; its text is ASCII, and each of its characters is in the document |
| Converter.TestsClean | dbt_schema_converter/schema_converter.py:228-230 | the tests of an ASCII cell without line breaks are ASCII and have no line breaks |
| Converter.AdmitFields | dbt_schema_converter/schema_converter.py:223-232 | admitting a row keeps any property that all the row's strings share |
| Converter.AbsorbFields | dbt_schema_converter/schema_converter.py:216-232 | one loop step keeps any property that all the strings share |
| Converter.GroupFields | dbt_schema_converter/schema_converter.py:214-232 | every name, description and test of the grouped tables has any property that all the rows' strings share |
| Converter.TestsTextAscii | dbt_schema_converter/schema_converter.py:79 | test lines made of ASCII tests are ASCII |
| Converter.ColumnTextAscii | dbt_schema_converter/schema_converter.py:62-81 | a column with ASCII fields renders as ASCII |
| Converter.TableTextAscii | dbt_schema_converter/schema_converter.py:106-125 | a table with ASCII fields renders as ASCII |
| Converter.TablesTextAscii | dbt_schema_converter/schema_converter.py:249-250 | tables with ASCII fields render as ASCII |
| Converter.DocumentAscii | dbt_schema_converter/schema_converter.py:247-251 | with ASCII fields the document is ASCII, so the final filter leaves it unchanged |
| Converter.ConversionRoundTrip | dbt_schema_converter/schema_converter.py:254-270 | for rows with ASCII, line-break-free cells, the output is the document itself and reads back as the grouped tables |
| Converter.TwoRowsOneTable | dbt_schema_converter/schema_converter.py:223 | two rows of one table, the second with an empty description: one table whose description is empty, with both columns in row order |
| Converter.ExampleTests | dbt_schema_converter/schema_converter.py:228-230 | the cell `not_null`, bar, `unique` gives two tests, and the empty cell gives none |

## Left out

- Reading the file. `pd.read_excel` and `pd.read_csv` (with latin-1 decoding) are foreign library calls. They are the parameter `read`, which gives a header and rows of optional string cells, with `None` for NaN.
- The diagnostics printed before `SystemExit` (lines 170-171 and 185-192) and `SystemExit` itself. A failure is an `Error` value. A schema error carries the required and the found columns, which is what the message lists.
- `main` and its command line (lines 14-43): this is interface plumbing.
- `abs_path` (lines 132-148): it depends on the location of the installed module.
- `write_yaml` (lines 273-286): this is file output.
- The shared mutable default lists of the constructors (lines 56 and 100). `get_table_dict` always passes fresh empty lists, and every object in the model has its own sequence.
- Non-string cells, such as numbers and the truthiness of `0`: every cell is a string.
- `Path.suffix` beyond the classic rule. The model takes the text after the last `/` and the last dot in it, where the dot is neither first nor last. pathlib's own path normalisation, such as trailing slashes, is not modelled.
- A header that names a required column more than once: `FieldIndex` uses the first column of that name.
- Python's dictionary as a hash table. The dictionary is its insertion-ordered key sequence plus a map from key to `Table` object. Iterating `values()` is iterating the keys in order.
- Yaml.ColumnLayout and Yaml.TableLayout: the "tests header iff tests" and "columns header iff columns" rules are stated right after the name only for an empty description. When there is a description, the header follows the description line, and that case is covered by Yaml.ColumnRoundTrip and Yaml.TableRoundTrip.
- Yaml.DocumentRoundTrip and Converter.ConversionRoundTrip: these require fields without line breaks. Descriptions are written unescaped between quotes, so a line break in a field breaks the line structure. The decoder is the model's reading of the document, not a YAML parser.
