/**
 * The queries the backend's test suite runs on the two-column table
 * A = [1, 3, 2], B = [6, 5, 4]: its column names, and its data unsorted,
 * sorted by A ascending and sorted by A descending.
 */
module QueryScenarios {
  import opened Wrappers
  import opened Json
  import opened Cells
  import opened Tables
  import opened Pipeline

  /**
   * A query whose row order is `rows` returns `expected` when every column,
   * put in that order, converts to the values of the matching expected record.
   */
  lemma QueryReturns(b: Backend, sortColumn: Option<string>, direction: SortKind, rows: seq<nat>, expected: seq<Record>)
    requires ValidTable(b.table) && b.SortOrder(sortColumn, direction) == Ok(rows)
    requires |expected| == |b.table.columns|
    requires forall i :: 0 <= i < |expected| ==>
      expected[i].columnName == b.table.columns[i].name
      && expected[i].sortKind == ReportedKind(b.table.columns[i].name, sortColumn, direction)
      && ConvertAll(Permute(b.table.columns[i].cells, rows)) == Ok(expected[i].values)
    ensures b.GetData(sortColumn, direction) == Ok(expected)
  {
    var r := Records(b.table.columns, rows, sortColumn, direction);
    RecordsPointwise(b.table.columns, rows, sortColumn, direction);
    assert r.Ok?;
    assert r.value == expected;
  }

  /** The same, for a table of two columns. */
  lemma QueryReturnsTwo(b: Backend, sortColumn: Option<string>, direction: SortKind, rows: seq<nat>,
                        first: Record, second: Record)
    requires ValidTable(b.table) && b.SortOrder(sortColumn, direction) == Ok(rows)
    requires |b.table.columns| == 2
    requires first.columnName == b.table.columns[0].name && second.columnName == b.table.columns[1].name
    requires first.sortKind == ReportedKind(first.columnName, sortColumn, direction)
    requires second.sortKind == ReportedKind(second.columnName, sortColumn, direction)
    requires ConvertAll(Permute(b.table.columns[0].cells, rows)) == Ok(first.values)
    requires ConvertAll(Permute(b.table.columns[1].cells, rows)) == Ok(second.values)
    ensures b.GetData(sortColumn, direction) == Ok([first, second])
  {
    QueryReturns(b, sortColumn, direction, rows, [first, second]);
  }

  // ----- the two-column table -----

  /** The table A = [1, 3, 2], B = [6, 5, 4]. */
  function Simple(): Backend
  {
    Backend(Table([Column("A", [Int(1), Int(3), Int(2)]), Column("B", [Int(6), Int(5), Int(4)])]))
  }

  lemma SimpleIsValid()
    ensures ValidTable(Simple().table)
  {
  }

  lemma SimpleColumns()
    ensures Simple().GetColumns() == ["A", "B"]
  {
  }

  /** The identity query returns the columns as they are, each with sortKind 0. */
  lemma SimpleUnsorted(b: Backend)
    requires b == Simple()
    ensures b.GetData(None, Unsorted)
      == Ok([Record("A", 0, [JInt(1), JInt(3), JInt(2)]), Record("B", 0, [JInt(6), JInt(5), JInt(4)])])
  {
    SimpleIsValid();
    var rows := Range(0, 3);
    assert b.SortOrder(None, Unsorted) == Ok(rows);
    PermuteIdentity(b.table.columns[0].cells);
    PermuteIdentity(b.table.columns[1].cells);
    UnsortedValues();
    QueryReturnsTwo(b, None, Unsorted, rows,
      Record("A", 0, [JInt(1), JInt(3), JInt(2)]), Record("B", 0, [JInt(6), JInt(5), JInt(4)]));
  }

  lemma UnsortedValues()
    ensures ConvertAll([Int(1), Int(3), Int(2)]) == Ok([JInt(1), JInt(3), JInt(2)])
    ensures ConvertAll([Int(6), Int(5), Int(4)]) == Ok([JInt(6), JInt(5), JInt(4)])
  {
    ConvertsTo([Int(1), Int(3), Int(2)], [JInt(1), JInt(3), JInt(2)]);
    ConvertsTo([Int(6), Int(5), Int(4)], [JInt(6), JInt(5), JInt(4)]);
  }

  /** The sort keys of column A. */
  function SimpleKeys(): seq<Key> { [Number(Finite(1)), Number(Finite(3)), Number(Finite(2))] }

  lemma KeysOfA()
    ensures Keys([Int(1), Int(3), Int(2)]) == SimpleKeys()
  {
  }

  lemma PresentOfA(keys: seq<Key>)
    requires keys == SimpleKeys()
    ensures Present(keys, 0) == [0, 1, 2] && Absent(keys, 0) == []
  {
    assert Present(keys, 2) == [2];
    assert Present(keys, 1) == [1, 2];
    assert Absent(keys, 2) == [];
    assert Absent(keys, 1) == [];
  }

  lemma SortOfA(keys: seq<Key>)
    requires keys == SimpleKeys()
    ensures SortRows(keys, [0, 1, 2]) == [0, 2, 1]
  {
    assert [0, 1, 2][1..] == [1, 2];
    assert [1, 2][1..] == [2];
    assert SortRows(keys, [2]) == [2];
    InsertOfA(keys);
  }

  lemma InsertOfA(keys: seq<Key>)
    requires keys == SimpleKeys()
    ensures Insert(keys, 1, [2]) == [2, 1] && Insert(keys, 0, [2, 1]) == [0, 2, 1]
  {
    assert !KeyLe(keys[1], keys[2]);
    assert [2][1..] == [];
    assert KeyLe(keys[0], keys[2]);
  }

  lemma OrderableA(keys: seq<Key>)
    requires keys == SimpleKeys()
    ensures Orderable(keys)
  {
    assert FirstPresent(keys) == Some(keys[0]);
  }

  lemma ReverseOfA()
    ensures Reverse([0, 2, 1]) == [1, 2, 0]
  {
  }

  lemma RowOrders(keys: seq<Key>, present: seq<nat>, sorted: seq<nat>)
    requires forall i :: 0 <= i < |present| ==> present[i] < |keys|
    requires Present(keys, 0) == present && Absent(keys, 0) == [] && SortRows(keys, present) == sorted
    ensures RowOrder(keys, Ascending) == sorted
    ensures RowOrder(keys, Descending) == Reverse(sorted)
  {
  }

  /** Sorting by A puts the rows in the order 0, 2, 1, and descending in the order 1, 2, 0. */
  lemma SortedSimple(b: Backend)
    requires b == Simple()
    ensures b.SortOrder(Some("A"), Ascending) == Ok([0, 2, 1])
    ensures b.SortOrder(Some("A"), Descending) == Ok([1, 2, 0])
  {
    var keys := SimpleKeys();
    SimpleIsValid();
    KeysOfA();
    OrderableA(keys);
    PresentOfA(keys);
    SortOfA(keys);
    ReverseOfA();
    RowOrders(keys, [0, 1, 2], [0, 2, 1]);
    SortColumnIs(b, "A", 0, Ascending);
    SortColumnIs(b, "A", 0, Descending);
  }

  /** Cells put in the order `rows` convert to `js` when each picked cell converts to its entry. */
  lemma PermutedTo(cells: seq<Cell>, rows: seq<nat>, js: seq<Json>)
    requires |js| == |rows| && forall k :: 0 <= k < |rows| ==> rows[k] < |cells|
    requires forall k :: 0 <= k < |rows| ==> ConvertValue(cells[rows[k]]) == Ok(js[k])
    ensures ConvertAll(Permute(cells, rows)) == Ok(js)
  {
    ConvertsTo(Permute(cells, rows), js);
  }

  lemma AscendingValues(a: seq<Cell>, b: seq<Cell>, rows: seq<nat>)
    requires a == [Int(1), Int(3), Int(2)] && b == [Int(6), Int(5), Int(4)] && rows == [0, 2, 1]
    ensures ConvertAll(Permute(a, rows)) == Ok([JInt(1), JInt(2), JInt(3)])
    ensures ConvertAll(Permute(b, rows)) == Ok([JInt(6), JInt(4), JInt(5)])
  {
    PermutedTo(a, rows, [JInt(1), JInt(2), JInt(3)]);
    PermutedTo(b, rows, [JInt(6), JInt(4), JInt(5)]);
  }

  lemma DescendingValues(a: seq<Cell>, b: seq<Cell>, rows: seq<nat>)
    requires a == [Int(1), Int(3), Int(2)] && b == [Int(6), Int(5), Int(4)] && rows == [1, 2, 0]
    ensures ConvertAll(Permute(a, rows)) == Ok([JInt(3), JInt(2), JInt(1)])
    ensures ConvertAll(Permute(b, rows)) == Ok([JInt(5), JInt(4), JInt(6)])
  {
    PermutedTo(a, rows, [JInt(3), JInt(2), JInt(1)]);
    PermutedTo(b, rows, [JInt(5), JInt(4), JInt(6)]);
  }

  /** The request codes 1 and -1 stand for ascending and descending. */
  lemma SortCodes()
    ensures SortKindOf(1) == Some(Ascending) && SortKindOf(-1) == Some(Descending)
  {
  }

  /** Sorting by A ascending (code 1) moves row 2 before row 1 in both columns. */
  lemma SimpleAscending(b: Backend)
    requires b == Simple()
    ensures b.GetData(Some("A"), Ascending)
      == Ok([Record("A", 1, [JInt(1), JInt(2), JInt(3)]), Record("B", 0, [JInt(6), JInt(4), JInt(5)])])
  {
    SimpleIsValid();
    SortedSimple(b);
    AscendingValues(b.table.columns[0].cells, b.table.columns[1].cells, [0, 2, 1]);
    QueryReturnsTwo(b, Some("A"), Ascending, [0, 2, 1],
      Record("A", 1, [JInt(1), JInt(2), JInt(3)]), Record("B", 0, [JInt(6), JInt(4), JInt(5)]));
  }

  /** Sorting by A descending (code -1) reverses that order, in both columns. */
  lemma SimpleDescending(b: Backend)
    requires b == Simple()
    ensures b.GetData(Some("A"), Descending)
      == Ok([Record("A", -1, [JInt(3), JInt(2), JInt(1)]), Record("B", 0, [JInt(5), JInt(4), JInt(6)])])
  {
    SimpleIsValid();
    SortedSimple(b);
    DescendingValues(b.table.columns[0].cells, b.table.columns[1].cells, [1, 2, 0]);
    QueryReturnsTwo(b, Some("A"), Descending, [1, 2, 0],
      Record("A", -1, [JInt(3), JInt(2), JInt(1)]), Record("B", 0, [JInt(5), JInt(4), JInt(6)]));
  }
}
