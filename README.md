# tabloo backend: value conversion, query pipeline and serializer

This project models the core of the tabloo backend, the server side of a table
viewer. The model has three parts:

- **`convert_column`**: turns one
  column of a data frame into JSON values.
  - Missing values and NaN become `null`.
  - The infinities become the strings `"inf"` and `"-inf"`.
  - Timestamps become their UTC text `YYYY-MM-DD HH:MM:SS`.
  - A nested series becomes an object keyed `"0"`, `"1"`, … Its own labels are dropped.
  - A nested array becomes a list.
  - A nested data frame becomes an object from column name to column values.
  - A mapping stays an object.
  - Plain scalars pass through.
- **`Backend.get_columns` / `Backend.get_data`**: the query pipeline.
  - `get_columns` lists the column names in declared order.
  - `get_data` computes one row order and applies it to every column:
    - the identity, when there is no sort column or when `sort_kind` is 0;
    - otherwise an ascending sort of the sort column, or that order reversed.
  - `get_data` then converts every column. It reports per column the `sortKind`
    applied to it: the requested code for the sort column and 0 for every other column.
- **`to_json`**: renders the records the way Python's `json.dumps` does with its default settings.
  - Each record is an object with keys `columnName`, `sortKind`, `values`, in that order.
  - `", "` separates elements and `": "` follows keys.

The behaviour is the one pinned down by
`src_backend_python/tests/tabloo/test_backend.py`. The implementation module
`tabloo/backend.py` that the tests import (line 8) is not part of this model.
Where the tests are silent, the model makes choices of its own (each one is
listed under "## Left out"):
- the error cases, `UnknownColumn` and `Unorderable`;
- the placement of missing values in a sort;
- what a sort needs of a column.

Modules, leaves first:

| module | file | contents |
|---|---|---|
| `Wrappers` | wrappers.dfy | `Option` and `Result` |
| `Decimal` | decimal.dfy | decimal digits of naturals, zero padding, reading digits back |
| `Civil` | civil.dfy | proleptic Gregorian calendar as Python's `datetime` computes it (ordinal ↔ date), `utcfromtimestamp`, the `str()` text of a datetime and its parser |
| `Json` | json.dfy | JSON values, the `json.dumps` renderer (default separators, `ensure_ascii` escaping, integral floats as `<int>.0`), a parser, round trip and injectivity |
| `Cells` | cells.dfy | the cell classification and `convert_column` |
| `Tables` | tables.dfy | tables of named columns, sort keys, the row order of a sort, permutation and ordering lemmas |
| `Pipeline` | pipeline.dfy | `Backend` with `GetColumns`/`SortOrder`/`GetData`, records, `to_json` and its reader |
| `QueryScenarios` | scenarios_query.dfy | `test_backend__basic` as lemmas |
| `ConvertScenarios` | scenarios_convert.dfy | `test_convert_column` and the three timestamps as lemmas |
| `FrameScenario` | scenarios_frame.dfy | the `df_with_custom_column_types` query of `test_backend__json_convertability` as a lemma |

A cell of a column is a closed variant (`Cells.Cell`).
- It holds one of: a plain int, an integral float, a string, a bool, None, NaN,
  ±infinity, a timestamp (UTC epoch seconds), a nested array, a nested series,
  a nested table or a mapping.
- It can also be `Other(typeName)`: a value for which no conversion rule exists.
  Converting such a value is an error that names its type. The query reports that
  error as `Unconvertible(column, typeName)`.

A query can also fail:
- `UnknownColumn` when a sort names a column that does not exist;
- `Unorderable` when the sort column holds values with no common order, i.e.
  nested values, or present values of more than one kind (numbers, strings, timestamps).

Sort semantics:
- Ascending sorts the rows whose value is present (an insertion sort by the column's key).
- Descending is that order reversed.
- In both directions, the rows whose value is missing (None or NaN) follow in their original order.

## Model

| member | source | states |
|---|---|---|
| QueryScenarios.SimpleColumns | src_backend_python/tests/tabloo/test_backend.py:40-43 | `get_columns` of the `df_simple` table is `["A", "B"]` |
| QueryScenarios.SimpleIsValid | src_backend_python/tests/tabloo/test_backend.py:11-18 | the `df_simple` fixture is a valid table: unique names, columns of equal length |
| Pipeline.RecordsFollowColumns | src_backend_python/tests/tabloo/test_backend.py:40-54 | a successful `get_data` returns one record per column, in the order and with the names `get_columns` lists |
| Tables.Names | src_backend_python/tests/tabloo/test_backend.py:40-43 | the column listing has one name per column, position by position |
| Pipeline.IdentityQuery | src_backend_python/tests/tabloo/test_backend.py:45-54 | for every valid table, a query with sort kind 0 and any sort column succeeds exactly when every column converts. Record i then is column i's name, sortKind 0 and the converted values in original row order |
| QueryScenarios.SimpleUnsorted | src_backend_python/tests/tabloo/test_backend.py:45-54 | the identity query on `df_simple` returns A=[1,3,2] and B=[6,5,4], both with sortKind 0 |
| Pipeline.PermuteIdentity | src_backend_python/tests/tabloo/test_backend.py:45-54 | applying the identity row order to a column leaves it unchanged |
| Pipeline.IdentityRows | src_backend_python/tests/tabloo/test_backend.py:45-54 | in a valid table, the identity row order leaves every column unchanged |
| Pipeline.Records | src_backend_python/tests/tabloo/test_backend.py:45-76 | building the records yields one record per column when it succeeds |
| Pipeline.RecordsPointwise | src_backend_python/tests/tabloo/test_backend.py:45-76 | building the records succeeds exactly when every column, in the chosen row order, converts. Record i then is column i's name, its reported sort kind and its converted permuted values |
| Pipeline.GetDataRecords | src_backend_python/tests/tabloo/test_backend.py:56-76 | a successful `get_data` has one row order that is a permutation of all rows and is applied to every column. Each record reports the requested code only when it is the sort column and 0 otherwise |
| Pipeline.Backend.SortOrder | src_backend_python/tests/tabloo/test_backend.py:56-76 | the row order of a query consists of rows of the table |
| Pipeline.SortOrderPermutes | src_backend_python/tests/tabloo/test_backend.py:56-76 | every successful row order is a permutation (as a multiset) of the table's rows |
| Pipeline.SortColumnIs | src_backend_python/tests/tabloo/test_backend.py:56-76 | sorting by an existing column succeeds exactly when that column is orderable, and its order is that column's row order |
| Pipeline.SortFailures | src_backend_python/tests/tabloo/test_backend.py:56-76 | a sort fails with `UnknownColumn` exactly when the name is not a column. It fails at all exactly when the name is not a column or the named column is not orderable |
| Pipeline.FoundAt | src_backend_python/tests/tabloo/test_backend.py:58 | in a valid table, the sort column's name is found at its own position |
| Pipeline.AscendingColumnSorted | src_backend_python/tests/tabloo/test_backend.py:56-65 | after an ascending sort, the sort column's present values come first and are non-decreasing, and its missing values come last. Lines 56-65 sort values with none missing, so the placement of missing values is the model's choice (see "## Left out") |
| Pipeline.DescendingColumnSorted | src_backend_python/tests/tabloo/test_backend.py:67-76 | after a descending sort, the sort column's present values come first and are non-increasing, and its missing values come last. Lines 67-76 sort values with none missing, so the placement of missing values is the model's choice (see "## Left out") |
| Pipeline.DescendingIsReversedAscending | src_backend_python/tests/tabloo/test_backend.py:67-76 | for a column without missing values, the descending row order is exactly the ascending one reversed |
| Tables.IndexOf | src_backend_python/tests/tabloo/test_backend.py:58 | the lookup of a column name finds its first occurrence, or reports that no column has that name |
| Tables.SortKindOf | src_backend_python/tests/tabloo/test_backend.py:48 | a request code stands for a direction exactly when it is -1, 0 or 1, and that direction's code is the request code |
| Tables.Keys | src_backend_python/tests/tabloo/test_backend.py:56-65 | the sort keys of a column are its cells' keys, position by position |
| Tables.FirstPresent | src_backend_python/tests/tabloo/test_backend.py:56-65 | the first present key is a present key of the column. If there is none, every key is missing |
| Tables.Range | src_backend_python/tests/tabloo/test_backend.py:45-54 | the identity row order lists lo..hi-1 in order |
| Tables.Present | src_backend_python/tests/tabloo/test_backend.py:56-76 | the rows with a present sort value are rows of the column |
| Tables.Absent | src_backend_python/tests/tabloo/test_backend.py:56-76 | the rows with a missing sort value are rows of the column |
| Tables.PresentAbsentKeys | src_backend_python/tests/tabloo/test_backend.py:56-76 | the present rows have present keys and the absent rows have missing keys |
| Tables.PresentAbsentSplit | src_backend_python/tests/tabloo/test_backend.py:56-76 | the present and the absent rows together are exactly the rows from `from` on, as a multiset |
| Tables.Insert | src_backend_python/tests/tabloo/test_backend.py:56-65 | inserting a row adds exactly that row (as a multiset) and keeps every row in range |
| Tables.SortRows | src_backend_python/tests/tabloo/test_backend.py:56-65 | sorting keeps the number of rows and every row in range |
| Tables.SortRowsPermutes | src_backend_python/tests/tabloo/test_backend.py:56-65 | the insertion sort is a permutation of its input rows |
| Tables.InsertAscends | src_backend_python/tests/tabloo/test_backend.py:56-65 | inserting a row of the same kind into an ascending row list keeps it ascending |
| Tables.InsertLowerBound | src_backend_python/tests/tabloo/test_backend.py:56-65 | a lower bound of a row list remains one after inserting a row above it |
| Tables.SortRowsAscends | src_backend_python/tests/tabloo/test_backend.py:56-65 | sorting rows whose keys are all of one kind gives a non-decreasing order |
| Tables.Reverse | src_backend_python/tests/tabloo/test_backend.py:67-76 | the reversal puts element n-1-i at position i |
| Tables.ReversePermutes | src_backend_python/tests/tabloo/test_backend.py:67-76 | reversal is a permutation |
| Tables.RowOrderPermutes | src_backend_python/tests/tabloo/test_backend.py:56-76 | every direction's row order is a permutation of all rows |
| Tables.AscendingSorts | src_backend_python/tests/tabloo/test_backend.py:56-65 | the ascending row order of an orderable column lists the present rows first, non-decreasing by key, then the missing rows. Placing the missing rows last is the model's choice (see "## Left out") |
| Tables.DescendingSorts | src_backend_python/tests/tabloo/test_backend.py:67-76 | the descending row order of an orderable column lists the present rows first, non-increasing by key, then the missing rows. Placing the missing rows last is the model's choice (see "## Left out") |
| Tables.DescendingReversesAscending | src_backend_python/tests/tabloo/test_backend.py:67-76 | without missing values, the descending row order is the ascending one reversed |
| Tables.NoneAbsent | src_backend_python/tests/tabloo/test_backend.py:67-76 | a column without missing values has no absent rows |
| Tables.Permute | src_backend_python/tests/tabloo/test_backend.py:56-76 | the permuted column has row `rows[k]` of the original at position k |
| Tables.KeyLeTotal | src_backend_python/tests/tabloo/test_backend.py:56-65 | two keys of one kind are always comparable |
| Tables.KeyLeTransitive | src_backend_python/tests/tabloo/test_backend.py:56-65 | the key order is transitive |
| Tables.LexLeTotal | src_backend_python/tests/tabloo/test_backend.py:56-65 | the string order is total. No test sorts strings, so the code-point order is the model's choice (see "## Left out") |
| Tables.LexLeTransitive | src_backend_python/tests/tabloo/test_backend.py:56-65 | the string order is transitive. No test sorts strings, so the code-point order is the model's choice (see "## Left out") |
| Tables.LexLeAntisymmetric | src_backend_python/tests/tabloo/test_backend.py:56-65 | the string order is antisymmetric. No test sorts strings, so the code-point order is the model's choice (see "## Left out") |
| QueryScenarios.SortedSimple | src_backend_python/tests/tabloo/test_backend.py:56-76 | on `df_simple`, sorting by A gives the row order [0,2,1] ascending and [1,2,0] descending |
| QueryScenarios.SortCodes | src_backend_python/tests/tabloo/test_backend.py:59 | the request codes 1 and -1 stand for ascending and descending |
| QueryScenarios.QueryReturns | src_backend_python/tests/tabloo/test_backend.py:45-76 | a query whose row order is known returns exactly the records built from the columns' names, reported kinds and converted permuted values |
| QueryScenarios.SimpleAscending | src_backend_python/tests/tabloo/test_backend.py:56-65 | sorting `df_simple` by A ascending returns A=[1,2,3] with sortKind 1 and B=[6,4,5] with sortKind 0 |
| QueryScenarios.SimpleDescending | src_backend_python/tests/tabloo/test_backend.py:67-76 | sorting `df_simple` by A descending returns A=[3,2,1] with sortKind -1 and B=[5,4,6] with sortKind 0 |
| QueryScenarios.AscendingValues | src_backend_python/tests/tabloo/test_backend.py:63-64 | the row order [0,2,1] turns A into [1,2,3] and B into [6,4,5] |
| QueryScenarios.DescendingValues | src_backend_python/tests/tabloo/test_backend.py:74-75 | the row order [1,2,0] turns A into [3,2,1] and B into [5,4,6] |
| Cells.ConvertAllPointwise | src_backend_python/tests/tabloo/test_backend.py:107-127 | converting a column succeeds exactly when every cell has a conversion rule. It then keeps length and order, value i being the conversion of cell i |
| Cells.ConvertsTo | src_backend_python/tests/tabloo/test_backend.py:107-127 | a column whose cells convert one by one to given values converts to exactly those values |
| Cells.ConvertAllFailure | src_backend_python/tests/tabloo/test_backend.py:107-127 | a failed conversion names the type of the first cell that has no conversion rule |
| Cells.ConvertAllAppend | src_backend_python/tests/tabloo/test_backend.py:107-127 | converting two column pieces one after the other is converting them together |
| Cells.LabelsIgnored | src_backend_python/tests/tabloo/test_backend.py:111-112 | a series converts the same whatever its row labels |
| Cells.PlainPassesThrough | src_backend_python/tests/tabloo/test_backend.py:107-115 | a plain int, float, string, bool or None converts to the JSON value that reads back as that same cell |
| Cells.ConvertIdempotent | src_backend_python/tests/tabloo/test_backend.py:107-115 | converting the cell a plain JSON value stands for gives that JSON value again |
| Cells.PlainColumnUnchanged | src_backend_python/tests/tabloo/test_backend.py:107-115 | a column of plain scalars converts, and every value reads back as the original cell |
| Cells.MissingIsNull | src_backend_python/tests/tabloo/test_backend.py:114-121 | None and NaN convert to null |
| Cells.InfinitySentinels | src_backend_python/tests/tabloo/test_backend.py:123-127 | +inf converts to the string "inf" and -inf to "-inf" |
| Cells.TimestampText | src_backend_python/tests/tabloo/test_backend.py:30-34 | a timestamp converts to a 19-character string with separators at positions 4, 7, 10, 13 and 16, which parses back to the same instant |
| Cells.TimestampTextInjective | src_backend_python/tests/tabloo/test_backend.py:30-34 | distinct timestamps convert to distinct strings |
| Cells.SeriesRelabelled | src_backend_python/tests/tabloo/test_backend.py:26 | a nested series converts to an object with one member per value. Member i has key `str(i)` and value i, and the keys are distinct |
| Cells.NestedTableColumns | src_backend_python/tests/tabloo/test_backend.py:27 | a nested table converts to an object with one member per column: the column's name and the list of its values |
| Cells.ArrayAndMapping | src_backend_python/tests/tabloo/test_backend.py:25-28 | a nested array converts to the list of its elements, and a mapping to an object with the same keys and values in order |
| Cells.ScalarsJson | src_backend_python/tests/tabloo/test_backend.py:94 | a list of scalars becomes a JSON list of the same length, element by element |
| Cells.Relabelled | src_backend_python/tests/tabloo/test_backend.py:95 | the members of a relabelled series are keyed by position |
| Cells.TableColumnsJson | src_backend_python/tests/tabloo/test_backend.py:96 | the members of a nested table's object are its columns, by name, in order |
| Cells.EntriesJson | src_backend_python/tests/tabloo/test_backend.py:97 | a mapping's entries keep their keys and order |
| ConvertScenarios.ConvertPlainInts | src_backend_python/tests/tabloo/test_backend.py:107-112 | [1,2,3] converts to [1,2,3], with index [0,1,2] as well as with index [30,20,10] |
| ConvertScenarios.ConvertMixedObjects | src_backend_python/tests/tabloo/test_backend.py:114-115 | [None,"1",2] converts to [null,"1",2] |
| ConvertScenarios.ConvertWithMissing | src_backend_python/tests/tabloo/test_backend.py:117-118 | [1,None,2], a float column, converts to [1.0,null,2.0], which Python's `==` equates with [1,None,2] |
| ConvertScenarios.ConvertWithNaN | src_backend_python/tests/tabloo/test_backend.py:120-121 | [1,NaN,2] converts to [1.0,null,2.0] |
| ConvertScenarios.ConvertWithInfinity | src_backend_python/tests/tabloo/test_backend.py:123-124 | [1,inf,2] converts to [1.0,"inf",2.0], equal to [1,"inf",2] under Python's `==` |
| ConvertScenarios.ConvertWithNegativeInfinity | src_backend_python/tests/tabloo/test_backend.py:126-127 | [1,-inf,2] converts to [1.0,"-inf",2.0], equal to [1,"-inf",2] under Python's `==` |
| ConvertScenarios.EpochText | src_backend_python/tests/tabloo/test_backend.py:31 | the timestamp 0 converts to "1970-01-01 00:00:00" |
| ConvertScenarios.BillionText | src_backend_python/tests/tabloo/test_backend.py:32 | the timestamp 1e9 converts to "2001-09-09 01:46:40" |
| ConvertScenarios.TenBillionText | src_backend_python/tests/tabloo/test_backend.py:33 | the timestamp 1e10 converts to "2286-11-20 17:46:40" |
| ConvertScenarios.EpochInstant | src_backend_python/tests/tabloo/test_backend.py:31 | 1970-01-01 00:00:00 is epoch second 0 |
| ConvertScenarios.BillionInstant | src_backend_python/tests/tabloo/test_backend.py:32 | 2001-09-09 01:46:40 is epoch second 1000000000 |
| ConvertScenarios.TenBillionInstant | src_backend_python/tests/tabloo/test_backend.py:33 | 2286-11-20 17:46:40 is epoch second 10000000000 |
| ConvertScenarios.TimestampText | src_backend_python/tests/tabloo/test_backend.py:30-34 | an instant whose calendar fields have the given digits converts to those digits laid out as `YYYY-MM-DD HH:MM:SS` |
| FrameScenario.FrameQuery | src_backend_python/tests/tabloo/test_backend.py:79-88 | the identity query on the `df_with_custom_column_types` fixture succeeds and returns the seven records behind lines 93-99, columns A to G in order, sortKind 0 |
| FrameScenario.FrameIsValid | src_backend_python/tests/tabloo/test_backend.py:21-37 | the fixture is a valid table of seven columns of three rows |
| FrameScenario.IdentityReturns | src_backend_python/tests/tabloo/test_backend.py:82-88 | an identity query returns exactly the records that match the columns one by one |
| FrameScenario.ColumnA | src_backend_python/tests/tabloo/test_backend.py:93 | [1.0, NaN, 3.0] converts to [1.0, null, 3.0] |
| FrameScenario.ColumnB | src_backend_python/tests/tabloo/test_backend.py:94 | a column of nested int arrays converts to lists of those ints |
| FrameScenario.ColumnC | src_backend_python/tests/tabloo/test_backend.py:95 | the column of series converts to objects keyed "0", "1", "2" |
| FrameScenario.ColumnD | src_backend_python/tests/tabloo/test_backend.py:96 | the column of `df_simple` tables converts to {"A": [1,3,2], "B": [6,5,4]} three times |
| FrameScenario.ColumnE | src_backend_python/tests/tabloo/test_backend.py:97 | the column of mappings converts to {"a": 1}, {"b": 2}, {"c": 3} |
| FrameScenario.ColumnF | src_backend_python/tests/tabloo/test_backend.py:98 | the all-None column converts to three nulls |
| FrameScenario.ColumnG | src_backend_python/tests/tabloo/test_backend.py:99 | the three timestamps convert to the three expected strings |
| FrameScenario.SeriesOfInts | src_backend_python/tests/tabloo/test_backend.py:95 | a series of three ints converts to {"0": a, "1": b, "2": c}, whatever its labels |
| FrameScenario.TableOfInts | src_backend_python/tests/tabloo/test_backend.py:96 | a two-column table of ints converts to an object of two int lists |
| FrameScenario.MappingOfInt | src_backend_python/tests/tabloo/test_backend.py:97 | a one-entry mapping converts to the one-member object |
| FrameScenario.ArrayOfInts | src_backend_python/tests/tabloo/test_backend.py:94 | a nested int array converts to the JSON list of those ints |
| Pipeline.RecordText | src_backend_python/tests/tabloo/test_backend.py:92-100 | a record renders as `{"columnName": <name>, "sortKind": <kind>, "values": <list>}`, keys in that order, with ", " and ": " |
| Pipeline.RecordsJson | src_backend_python/tests/tabloo/test_backend.py:92-100 | the records become one JSON object each, in order |
| Pipeline.RecordsOfRecordsJson | src_backend_python/tests/tabloo/test_backend.py:92-100 | the JSON objects of records read back as the same records |
| Pipeline.FromToJson | src_backend_python/tests/tabloo/test_backend.py:90-100 | the text of `to_json` reads back as exactly the records it was made from |
| Pipeline.ToJsonInjective | src_backend_python/tests/tabloo/test_backend.py:90-100 | distinct record lists give distinct `to_json` texts |
| Pipeline.KeyedMember | src_backend_python/tests/tabloo/test_backend.py:93 | a member whose key needs no escaping renders as `"key": value` |
| Pipeline.KeysUnescaped | src_backend_python/tests/tabloo/test_backend.py:93 | the three record keys need no escaping |
| Json.ParseRender | src_backend_python/tests/tabloo/test_backend.py:90-100 | every rendered JSON value parses back as itself |
| Json.RenderInjective | src_backend_python/tests/tabloo/test_backend.py:90-100 | two JSON values render the same exactly when they are equal |
| Json.ReadRendered | src_backend_python/tests/tabloo/test_backend.py:92-100 | a rendered value followed by a delimiter reads back as that value, leaving the rest |
| Json.ReadEscapedString | src_backend_python/tests/tabloo/test_backend.py:93-99 | an escaped string body reads back as the original string |
| Json.EscapePlain | src_backend_python/tests/tabloo/test_backend.py:93-99 | printable ASCII without quote or backslash is written unchanged |
| Json.ReadOutsideBmp | src_backend_python/tests/tabloo/test_backend.py:93-99 | a character outside the basic plane is written as a surrogate pair of escapes and reads back as itself |
| Json.ReadRenderedFloat | src_backend_python/tests/tabloo/test_backend.py:93 | an integral float renders as `<int>.0` and reads back as the same float |
| Json.ReadRenderedInt | src_backend_python/tests/tabloo/test_backend.py:94 | an int renders as its decimal digits and reads back as the same int |
| Civil.FormatTimestamp | src_backend_python/tests/tabloo/test_backend.py:99 | a timestamp's text is 19 characters, `YYYY-MM-DD HH:MM:SS` |
| Civil.ParseFormatTimestamp | src_backend_python/tests/tabloo/test_backend.py:30-34 | the text of a timestamp parses back to that timestamp |
| Civil.FormatParseTimestamp | src_backend_python/tests/tabloo/test_backend.py:30-34 | a string that parses as a timestamp is that timestamp's text |
| Civil.FromTimestampCorrect | src_backend_python/tests/tabloo/test_backend.py:30-34 | `utcfromtimestamp` gives a valid datetime whose epoch seconds are the input |
| Civil.FromToTimestamp | src_backend_python/tests/tabloo/test_backend.py:30-34 | a valid datetime's epoch seconds convert back to it |
| Civil.FromOrdinalCorrect | src_backend_python/tests/tabloo/test_backend.py:30-34 | the date of a day number is valid and has that day number |
| Civil.FromToOrdinal | src_backend_python/tests/tabloo/test_backend.py:30-34 | the day number of a valid date converts back to it |
| Civil.ToOrdinalInjective | src_backend_python/tests/tabloo/test_backend.py:30-34 | distinct valid dates have distinct day numbers |
| Civil.EpochOrdinalIsJanuaryFirst1970 | src_backend_python/tests/tabloo/test_backend.py:31 | epoch day 0 is 1970-01-01 |
| Civil.CivilOf | src_backend_python/tests/tabloo/test_backend.py:30-34 | every supported timestamp is a valid datetime of years 1 to 9999 with those epoch seconds |
| Civil.YearOfTimestamp | src_backend_python/tests/tabloo/test_backend.py:30-34 | supported timestamps fall in years 1 to 9999 |
| Civil.TimestampRange | src_backend_python/tests/tabloo/test_backend.py:30-34 | every valid datetime of years 1 to 9999 is a supported timestamp |
| Civil.Layout | src_backend_python/tests/tabloo/test_backend.py:99 | the text puts the six fields at their fixed positions around `-`, ` ` and `:` |
| Civil.DaysInMonth | src_backend_python/tests/tabloo/test_backend.py:30-34 | every month has 28 to 31 days |
| Civil.MonthAndDayCorrect | src_backend_python/tests/tabloo/test_backend.py:30-34 | the month and day found for a day of the year are a valid date with that day of the year |
| Decimal.Show | src_backend_python/tests/tabloo/test_backend.py:95 | `str(n)` is a non-empty digit string, starts with 0 only for 0, and has enough digits: n < 10^len |
| Decimal.ValueOfShow | src_backend_python/tests/tabloo/test_backend.py:95 | the digits of n read back as n |
| Decimal.ReadShow | src_backend_python/tests/tabloo/test_backend.py:94-95 | a number followed by a non-digit reads back as that number |
| Decimal.ShowInjective | src_backend_python/tests/tabloo/test_backend.py:95 | two naturals have the same digits exactly when they are equal, so the series keys are distinct |
| Decimal.Padded | src_backend_python/tests/tabloo/test_backend.py:99 | a zero-padded field is all digits, and as wide as requested unless the number needs more digits |
| Decimal.ValueOfPadded | src_backend_python/tests/tabloo/test_backend.py:99 | a zero-padded field reads back as the number |

## Left out

- Filtering and pagination of `get_data`: every call passes `filter=None`, `page=None` and `pagination_size=None`, so only that case is modelled. The parameters do not appear.
- The implementation module `tabloo/backend.py` is not part of this model. The contracts come from the tests. Where the tests are silent, the choices are the model's own and are listed here.
- Pipeline.Backend.SortOrder: the tests do not fix the placement of missing values or the order of ties. The model puts missing values last, in original order, in both directions. Descending is the reversed ascending order, so ties come in reverse original order. No stability or null-placement property is claimed as a promise of the source.
- Pipeline.Backend.SortOrder: `Unorderable` is the model's choice. It stands in for the exception Python raises while sorting a column whose values cannot be compared, e.g. an int with a str, or nested values. No test sorts such a column, so its behaviour is not pinned down.
- Pipeline.Backend.SortOrder: strings are ordered by code point (`Tables.LexLe`), as Python compares `str` values. No test sorts a string column, so this, too, is the model's choice.
- Pipeline.Backend.SortOrder: an unknown sort column is an error only when a sort is requested (direction not 0). With direction 0 the column name is not looked up.
- The pandas/numpy machinery is left out: DataFrame storage, dtype inference, `sort_values` and boolean masks. A column is a sequence of classified cells. The column's dtype is fixed by the cell variants: pandas turns [1, None, 2] into a float column, so that scenario is written with `Float` cells.
- IEEE floating point is left out. A float cell carries an integral value up to 2^53 in magnitude and renders as `<int>.0`. Non-integral floats, exponents and -0.0 are not modelled, and NaN and the infinities are separate cell variants.
- Cells.ConvertValue: the elements of nested arrays, series, tables and mappings are plain scalars (int, integral float, string, bool, None). NaN, infinities or timestamps inside a nested value, and nesting deeper than one level, are not modelled.
- Integers are unbounded: the 64-bit width of numpy integers is not modelled. Timestamps cover Python's `datetime` range, years 1 to 9999.
- Json.Render writes non-ASCII characters as `\uXXXX` escapes, following `json.dumps`'s default `ensure_ascii`. This is a modelling choice: no test shows a non-ASCII character.
- FrameScenario.FrameQuery: the records of lines 93-99 are proved element by element. Pipeline.RecordText proves the per-record layout. The full `to_json` string of lines 92-100 is not evaluated as one literal.
- The sort direction is a datatype (`Tables.SortKind`). A request code other than -1, 0 or 1 has no direction (`Tables.SortKindOf` returns `None`). What the backend does with such a code is not modelled.
- The HTTP transport and the UI are left out.
