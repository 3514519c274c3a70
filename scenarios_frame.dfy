/**
 * The identity query on the backend test suite's table of custom column types:
 * a numeric column with a gap, nested arrays, nested series, nested tables,
 * mappings, an all-missing column and timestamps, each converted to the JSON
 * values its serialized text shows.
 */
module FrameScenario {
  import opened Wrappers
  import opened Decimal
  import opened Json
  import opened Cells
  import opened Tables
  import opened Pipeline
  import opened ConvertScenarios

  function Ints(xs: seq<int>): (ss: seq<Scalar>)
    ensures |ss| == |xs|
    ensures forall i :: 0 <= i < |xs| ==> ss[i] == SInt(xs[i])
  {
    if xs == [] then [] else [SInt(xs[0])] + Ints(xs[1..])
  }

  function IntsJson(xs: seq<int>): (js: seq<Json>)
    ensures |js| == |xs|
    ensures forall i :: 0 <= i < |xs| ==> js[i] == JInt(xs[i])
  {
    if xs == [] then [] else [JInt(xs[0])] + IntsJson(xs[1..])
  }

  /** The two-column table A = [1, 3, 2], B = [6, 5, 4], held in a cell. */
  function SimpleTable(): Cell
  {
    NestedTable([("A", Ints([1, 3, 2])), ("B", Ints([6, 5, 4]))])
  }

  /** The table the convertibility test serializes, its columns A to G in order. */
  function Frame(): Backend
  {
    Backend(Table([
      Column("A", [Float(1), NaN, Float(3)]),
      Column("B", [NestedArray(Ints([1, 2, 3])), NestedArray(Ints([2, 3, 4])), NestedArray(Ints([3, 4, 5]))]),
      Column("C", [NestedSeries(Ints([0, 1, 2]), Ints([1, 2, 3])), NestedSeries(Ints([0, 1, 2]), Ints([2, 3, 4])),
                   NestedSeries(Ints([0, 1, 2]), Ints([3, 4, 5]))]),
      Column("D", [SimpleTable(), SimpleTable(), SimpleTable()]),
      Column("E", [Mapping([("a", SInt(1))]), Mapping([("b", SInt(2))]), Mapping([("c", SInt(3))])]),
      Column("F", [Null, Null, Null]),
      Column("G", [Timestamp(0), Timestamp(1000000000), Timestamp(10000000000)])
    ]))
  }

  /** A nested series of three values, keyed "0", "1" and "2". */
  function Keyed(xs: seq<int>): Json
    requires |xs| == 3
  {
    JObject([("0", JInt(xs[0])), ("1", JInt(xs[1])), ("2", JInt(xs[2]))])
  }

  function SimpleTableJson(): Json
  {
    JObject([("A", JArray(IntsJson([1, 3, 2]))), ("B", JArray(IntsJson([6, 5, 4])))])
  }

  /** The records the identity query returns, as the serialized text of the test shows them. */
  function Expected(): seq<Record>
  {
    [ Record("A", 0, [JFloat(1), JNull, JFloat(3)]),
      Record("B", 0, [JArray(IntsJson([1, 2, 3])), JArray(IntsJson([2, 3, 4])), JArray(IntsJson([3, 4, 5]))]),
      Record("C", 0, [Keyed([1, 2, 3]), Keyed([2, 3, 4]), Keyed([3, 4, 5])]),
      Record("D", 0, [SimpleTableJson(), SimpleTableJson(), SimpleTableJson()]),
      Record("E", 0, [JObject([("a", JInt(1))]), JObject([("b", JInt(2))]), JObject([("c", JInt(3))])]),
      Record("F", 0, [JNull, JNull, JNull]),
      Record("G", 0, [JStr("1970-01-01 00:00:00"), JStr("2001-09-09 01:46:40"), JStr("2286-11-20 17:46:40")])
    ]
  }

  /** A column whose values convert to the record's values, reported with no sort. */
  predicate Matches(c: Column, r: Record)
  {
    r.columnName == c.name && r.sortKind == 0 && ConvertAll(c.cells) == Ok(r.values)
  }

  /** The identity query of a table returns `expected` when each column converts to its record's values. */
  lemma IdentityReturns(b: Backend, expected: seq<Record>)
    requires ValidTable(b.table) && |expected| == |b.table.columns|
    requires forall i :: 0 <= i < |expected| ==> Matches(b.table.columns[i], expected[i])
    ensures b.GetData(None, Unsorted) == Ok(expected)
  {
    IdentityQuery(b, None);
    assert b.GetData(None, Unsorted).value == expected;
  }

  /** The identity query of a seven-column table returns the seven records its columns match. */
  lemma SevenReturn(b: Backend, e: seq<Record>)
    requires ValidTable(b.table) && |b.table.columns| == 7 && |e| == 7
    requires Matches(b.table.columns[0], e[0]) && Matches(b.table.columns[1], e[1])
    requires Matches(b.table.columns[2], e[2]) && Matches(b.table.columns[3], e[3])
    requires Matches(b.table.columns[4], e[4]) && Matches(b.table.columns[5], e[5])
    requires Matches(b.table.columns[6], e[6])
    ensures b.GetData(None, Unsorted) == Ok(e)
  {
    assert forall i :: 0 <= i < 7 ==> Matches(b.table.columns[i], e[i]);
    IdentityReturns(b, e);
  }

  /** A table of seven columns of three rows each, named A to G, is valid. */
  lemma SevenColumns(t: Table)
    requires |t.columns| == 7 && forall i :: 0 <= i < 7 ==> |t.columns[i].cells| == 3
    requires t.columns[0].name == "A" && t.columns[1].name == "B" && t.columns[2].name == "C"
    requires t.columns[3].name == "D" && t.columns[4].name == "E" && t.columns[5].name == "F"
    requires t.columns[6].name == "G"
    ensures ValidTable(t)
  {
    var names := ["A", "B", "C", "D", "E", "F", "G"];
    assert forall i :: 0 <= i < 7 ==> t.columns[i].name == names[i];
    assert forall i, j :: 0 <= i < j < 7 ==> names[i] != names[j];
  }

  lemma FrameIsValid(b: Backend)
    requires b == Frame()
    ensures ValidTable(b.table)
  {
    SevenColumns(b.table);
  }

  lemma ColumnA(cells: seq<Cell>)
    requires cells == [Float(1), NaN, Float(3)]
    ensures ConvertAll(cells) == Ok([JFloat(1), JNull, JFloat(3)])
  {
    ConvertsTo(cells, [JFloat(1), JNull, JFloat(3)]);
  }

  lemma ColumnB(cells: seq<Cell>, xs: seq<int>, ys: seq<int>, zs: seq<int>)
    requires cells == [NestedArray(Ints(xs)), NestedArray(Ints(ys)), NestedArray(Ints(zs))]
    ensures ConvertAll(cells) == Ok([JArray(IntsJson(xs)), JArray(IntsJson(ys)), JArray(IntsJson(zs))])
  {
    ArrayOfInts(xs);
    ArrayOfInts(ys);
    ArrayOfInts(zs);
    ConvertsTo(cells, [JArray(IntsJson(xs)), JArray(IntsJson(ys)), JArray(IntsJson(zs))]);
  }

  lemma ArrayOfInts(xs: seq<int>)
    ensures ConvertValue(NestedArray(Ints(xs))) == Ok(JArray(IntsJson(xs)))
  {
    ScalarsOfInts(xs);
  }

  lemma SeriesCell(labels: seq<Scalar>, values: seq<Scalar>)
    ensures ConvertValue(NestedSeries(labels, values)) == Ok(JObject(Relabelled(values, 0)))
  {
  }

  lemma TableCell(columns: seq<(string, seq<Scalar>)>)
    ensures ConvertValue(NestedTable(columns)) == Ok(JObject(TableColumnsJson(columns)))
  {
  }

  lemma SmallShows()
    ensures Show(0) == "0" && Show(1) == "1" && Show(2) == "2"
  {
  }

  /** A nested series of three values becomes an object keyed by the positions "0", "1", "2". */
  lemma SeriesOfInts(labels: seq<Scalar>, xs: seq<int>)
    requires |xs| == 3
    ensures ConvertValue(NestedSeries(labels, Ints(xs))) == Ok(Keyed(xs))
  {
    var ms := Relabelled(Ints(xs), 0);
    SeriesCell(labels, Ints(xs));
    SmallShows();
    var ss := Ints(xs);
    assert ms[0] == (Show(0), ScalarJson(ss[0])) == ("0", JInt(xs[0]));
    assert ms[1] == (Show(1), ScalarJson(ss[1])) == ("1", JInt(xs[1]));
    assert ms[2] == (Show(2), ScalarJson(ss[2])) == ("2", JInt(xs[2]));
    assert ms == [("0", JInt(xs[0])), ("1", JInt(xs[1])), ("2", JInt(xs[2]))];
  }

  lemma ColumnC(cells: seq<Cell>, labels: seq<Scalar>)
    requires cells == [NestedSeries(labels, Ints([1, 2, 3])), NestedSeries(labels, Ints([2, 3, 4])),
                       NestedSeries(labels, Ints([3, 4, 5]))]
    ensures ConvertAll(cells) == Ok([Keyed([1, 2, 3]), Keyed([2, 3, 4]), Keyed([3, 4, 5])])
  {
    SeriesOfInts(labels, [1, 2, 3]);
    SeriesOfInts(labels, [2, 3, 4]);
    SeriesOfInts(labels, [3, 4, 5]);
    ConvertsTo(cells, [Keyed([1, 2, 3]), Keyed([2, 3, 4]), Keyed([3, 4, 5])]);
  }

  /** A nested table of two integer columns becomes an object from column name to the column's values. */
  lemma TableOfInts(a: string, xs: seq<int>, b: string, ys: seq<int>)
    ensures ConvertValue(NestedTable([(a, Ints(xs)), (b, Ints(ys))]))
      == Ok(JObject([(a, JArray(IntsJson(xs))), (b, JArray(IntsJson(ys)))]))
  {
    var columns := [(a, Ints(xs)), (b, Ints(ys))];
    TableCell(columns);
    TwoColumnsJson(columns);
    ScalarsOfInts(xs);
    ScalarsOfInts(ys);
  }

  lemma ScalarsOfInts(xs: seq<int>)
    ensures ScalarsJson(Ints(xs)) == IntsJson(xs)
  {
  }

  lemma TwoColumnsJson(columns: seq<(string, seq<Scalar>)>)
    requires |columns| == 2
    ensures TableColumnsJson(columns)
      == [(columns[0].0, JArray(ScalarsJson(columns[0].1))), (columns[1].0, JArray(ScalarsJson(columns[1].1)))]
  {
  }

  lemma ColumnD(cells: seq<Cell>)
    requires cells == [SimpleTable(), SimpleTable(), SimpleTable()]
    ensures ConvertAll(cells) == Ok([SimpleTableJson(), SimpleTableJson(), SimpleTableJson()])
  {
    SimpleTableConverts(cells[0]);
    ThreeConvert(cells, SimpleTableJson(), SimpleTableJson(), SimpleTableJson());
  }

  lemma SimpleTableConverts(c: Cell)
    requires c == SimpleTable()
    ensures ConvertValue(c) == Ok(SimpleTableJson())
  {
    TableOfInts("A", [1, 3, 2], "B", [6, 5, 4]);
  }

  lemma ColumnE(cells: seq<Cell>)
    requires cells == [Mapping([("a", SInt(1))]), Mapping([("b", SInt(2))]), Mapping([("c", SInt(3))])]
    ensures ConvertAll(cells) == Ok([JObject([("a", JInt(1))]), JObject([("b", JInt(2))]), JObject([("c", JInt(3))])])
  {
    MappingOfInt("a", 1);
    MappingOfInt("b", 2);
    MappingOfInt("c", 3);
    ConvertsTo(cells, [JObject([("a", JInt(1))]), JObject([("b", JInt(2))]), JObject([("c", JInt(3))])]);
  }

  lemma MappingOfInt(key: string, x: int)
    ensures ConvertValue(Mapping([(key, SInt(x))])) == Ok(JObject([(key, JInt(x))]))
  {
    assert EntriesJson([(key, SInt(x))]) == [(key, JInt(x))];
  }

  lemma ColumnF(cells: seq<Cell>)
    requires cells == [Null, Null, Null]
    ensures ConvertAll(cells) == Ok([JNull, JNull, JNull])
  {
    ConvertsTo(cells, [JNull, JNull, JNull]);
  }

  lemma ThreeConvert(cells: seq<Cell>, j0: Json, j1: Json, j2: Json)
    requires |cells| == 3
    requires ConvertValue(cells[0]) == Ok(j0) && ConvertValue(cells[1]) == Ok(j1) && ConvertValue(cells[2]) == Ok(j2)
    ensures ConvertAll(cells) == Ok([j0, j1, j2])
  {
    ConvertsTo(cells, [j0, j1, j2]);
  }

  lemma ColumnG(cells: seq<Cell>, t0: Civil.EpochSeconds, t1: Civil.EpochSeconds, t2: Civil.EpochSeconds)
    requires t0 == 0 && t1 == 1000000000 && t2 == 10000000000
    requires cells == [Timestamp(t0), Timestamp(t1), Timestamp(t2)]
    ensures ConvertAll(cells)
      == Ok([JStr("1970-01-01 00:00:00"), JStr("2001-09-09 01:46:40"), JStr("2286-11-20 17:46:40")])
  {
    EpochText(t0);
    BillionText(t1);
    TenBillionText(t2);
    ThreeConvert(cells, JStr("1970-01-01 00:00:00"), JStr("2001-09-09 01:46:40"), JStr("2286-11-20 17:46:40"));
  }

  lemma FrameA(b: Backend)
    requires b == Frame()
    ensures Matches(b.table.columns[0], Expected()[0])
  {
    ColumnA(b.table.columns[0].cells);
  }

  lemma FrameB(b: Backend)
    requires b == Frame()
    ensures Matches(b.table.columns[1], Expected()[1])
  {
    ColumnB(b.table.columns[1].cells, [1, 2, 3], [2, 3, 4], [3, 4, 5]);
  }

  lemma FrameC(b: Backend)
    requires b == Frame()
    ensures Matches(b.table.columns[2], Expected()[2])
  {
    ColumnC(b.table.columns[2].cells, Ints([0, 1, 2]));
  }

  lemma FrameD(b: Backend)
    requires b == Frame()
    ensures Matches(b.table.columns[3], Expected()[3])
  {
    ColumnD(b.table.columns[3].cells);
  }

  lemma FrameE(b: Backend)
    requires b == Frame()
    ensures Matches(b.table.columns[4], Expected()[4])
  {
    ColumnE(b.table.columns[4].cells);
  }

  lemma FrameF(b: Backend)
    requires b == Frame()
    ensures Matches(b.table.columns[5], Expected()[5])
  {
    ColumnF(b.table.columns[5].cells);
  }

  lemma FrameG(b: Backend)
    requires b == Frame()
    ensures Matches(b.table.columns[6], Expected()[6])
  {
    var cells := b.table.columns[6].cells;
    ColumnG(cells, cells[0].t, cells[1].t, cells[2].t);
  }

  /** The identity query on the table of custom column types returns the records the test serializes. */
  lemma FrameQuery(b: Backend)
    requires b == Frame()
    ensures ValidTable(b.table) && b.GetData(None, Unsorted) == Ok(Expected())
  {
    FrameIsValid(b);
    FrameA(b);
    FrameB(b);
    FrameC(b);
    FrameD(b);
    FrameE(b);
    FrameF(b);
    FrameG(b);
    SevenReturn(b, Expected());
  }
}
