/**
 * The query pipeline of the tabloo backend (`Backend.get_columns`,
 * `Backend.get_data`) and the serializer of its result (`to_json`). A query
 * sorts the rows by at most one column, applies that one row order to every
 * column, converts every column and reports, per column, the sort direction
 * applied to it: the requested one for the sort column, 0 for every other.
 */
module Pipeline {
  import opened Wrappers
  import opened Json
  import opened Cells
  import opened Tables

  datatype QueryError =
    | UnknownColumn(name: string)
    | Unorderable(name: string)
    | Unconvertible(column: string, typeName: string)

  /** One column of a query result. */
  datatype Record = Record(columnName: string, sortKind: int, values: seq<Json>)

  /** The sort direction reported for the column called `name`. */
  function ReportedKind(name: string, sortColumn: Option<string>, direction: SortKind): int
  {
    if sortColumn == Some(name) then direction.Code() else 0
  }

  /** Every row of `rows` is a row of every column. */
  predicate RowsFit(columns: seq<Column>, rows: seq<nat>)
  {
    forall k, i :: 0 <= k < |columns| && 0 <= i < |rows| ==> rows[i] < |columns[k].cells|
  }

  /** Each column with its rows put in the order `rows`, converted. */
  function Records(columns: seq<Column>, rows: seq<nat>, sortColumn: Option<string>, direction: SortKind)
    : (r: Result<seq<Record>, QueryError>)
    requires RowsFit(columns, rows)
    ensures r.Ok? ==> |r.value| == |columns|
  {
    if columns == [] then Ok([])
    else
      var c := columns[0];
      var values :- match ConvertAll(Permute(c.cells, rows))
        case Ok(js) => Ok(js)
        case Err(typeName) => Err(Unconvertible(c.name, typeName));
      var rest :- Records(columns[1..], rows, sortColumn, direction);
      Ok([Record(c.name, ReportedKind(c.name, sortColumn, direction), values)] + rest)
  }

  /** A session over one table, which no query changes. */
  datatype Backend = Backend(table: Table)
  {
    /** `get_columns`: the column names in the declared order. */
    function GetColumns(): seq<string>
    {
      Names(table.columns)
    }

    /**
     * The row order of a query. Without a sort column or with direction 0 the rows
     * keep their order; otherwise the sort column must exist and be orderable.
     */
    function SortOrder(sortColumn: Option<string>, direction: SortKind): (r: Result<seq<nat>, QueryError>)
      requires ValidTable(table)
      ensures r.Ok? ==> forall i :: 0 <= i < |r.value| ==> r.value[i] < RowCount(table)
    {
      if sortColumn.None? || direction == Unsorted then Ok(Range(0, RowCount(table)))
      else
        match IndexOf(table.columns, sortColumn.value)
        case None => Err(UnknownColumn(sortColumn.value))
        case Some(k) =>
          var keys := Keys(table.columns[k].cells);
          if !Orderable(keys) then Err(Unorderable(sortColumn.value))
          else Ok(RowOrder(keys, direction))
    }

    /** `get_data` with no filter and no page: sort, then convert every column. */
    function GetData(sortColumn: Option<string>, direction: SortKind): Result<seq<Record>, QueryError>
      requires ValidTable(table)
    {
      var rows :- SortOrder(sortColumn, direction);
      Records(table.columns, rows, sortColumn, direction)
    }
  }

  // ----- properties of a query -----

  lemma {:induction false} RecordsPointwise(columns: seq<Column>, rows: seq<nat>, sortColumn: Option<string>, direction: SortKind)
    requires RowsFit(columns, rows)
    ensures var r := Records(columns, rows, sortColumn, direction);
      r.Ok? <==> forall i :: 0 <= i < |columns| ==> ConvertAll(Permute(columns[i].cells, rows)).Ok?
    ensures var r := Records(columns, rows, sortColumn, direction);
      r.Ok? ==> forall i :: 0 <= i < |columns| ==>
        r.value[i] == Record(columns[i].name, ReportedKind(columns[i].name, sortColumn, direction),
          ConvertAll(Permute(columns[i].cells, rows)).value)
  {
    if columns != [] {
      var c, t := columns[0], columns[1..];
      RecordsPointwise(t, rows, sortColumn, direction);
      RecordsStep(columns, rows, sortColumn, direction);
      assert forall i :: 1 <= i < |columns| ==> columns[i] == t[i - 1];
    }
  }

  /** The first column's record, then the records of the others, or the first failure. */
  lemma RecordsStep(columns: seq<Column>, rows: seq<nat>, sortColumn: Option<string>, direction: SortKind)
    requires columns != [] && RowsFit(columns, rows)
    ensures var r, c := Records(columns, rows, sortColumn, direction), columns[0];
      var converted, rest := ConvertAll(Permute(c.cells, rows)), Records(columns[1..], rows, sortColumn, direction);
      (r.Ok? <==> converted.Ok? && rest.Ok?)
      && (r.Ok? ==> r.value == [Record(c.name, ReportedKind(c.name, sortColumn, direction), converted.value)] + rest.value)
  {
  }

  /** The row order of a query is a permutation of the table's rows. */
  lemma SortOrderPermutes(b: Backend, sortColumn: Option<string>, direction: SortKind)
    requires ValidTable(b.table) && b.SortOrder(sortColumn, direction).Ok?
    ensures multiset(b.SortOrder(sortColumn, direction).value) == multiset(Range(0, RowCount(b.table)))
  {
    if sortColumn.Some? && direction != Unsorted {
      var k := IndexOf(b.table.columns, sortColumn.value).value;
      RowOrderPermutes(Keys(b.table.columns[k].cells), direction);
    }
  }

  /**
   * A successful query has one record per column, in declared order; each record
   * holds its column's cells, all put in the one row order of the query, converted;
   * only the sort column reports the requested direction, every other column 0.
   * The row order is a permutation of the rows.
   */
  lemma GetDataRecords(b: Backend, sortColumn: Option<string>, direction: SortKind)
    requires ValidTable(b.table)
    requires b.GetData(sortColumn, direction).Ok?
    ensures b.SortOrder(sortColumn, direction).Ok?
    ensures multiset(b.SortOrder(sortColumn, direction).value) == multiset(Range(0, RowCount(b.table)))
    ensures |b.GetData(sortColumn, direction).value| == |b.table.columns|
    ensures forall i :: 0 <= i < |b.table.columns| ==>
      ConvertAll(Permute(b.table.columns[i].cells, b.SortOrder(sortColumn, direction).value)).Ok?
    ensures forall i :: 0 <= i < |b.table.columns| ==>
      b.GetData(sortColumn, direction).value[i] == Record(b.table.columns[i].name,
        if sortColumn == Some(b.table.columns[i].name) then direction.Code() else 0,
        ConvertAll(Permute(b.table.columns[i].cells, b.SortOrder(sortColumn, direction).value)).value)
  {
    var rows := b.SortOrder(sortColumn, direction).value;
    assert b.GetData(sortColumn, direction) == Records(b.table.columns, rows, sortColumn, direction);
    SortOrderPermutes(b, sortColumn, direction);
    RecordsPointwise(b.table.columns, rows, sortColumn, direction);
  }

  /** The records of a successful query name the columns of `get_columns`, in that order. */
  lemma RecordsFollowColumns(b: Backend, sortColumn: Option<string>, direction: SortKind)
    requires ValidTable(b.table) && b.GetData(sortColumn, direction).Ok?
    ensures var rs := b.GetData(sortColumn, direction).value;
      |rs| == |b.GetColumns()| && forall i :: 0 <= i < |rs| ==> rs[i].columnName == b.GetColumns()[i]
  {
    GetDataRecords(b, sortColumn, direction);
  }

  /** With the rows in their own order a column is unchanged. */
  lemma PermuteIdentity(cells: seq<Cell>)
    ensures Permute(cells, Range(0, |cells|)) == cells
  {
  }

  /**
   * The identity query (no sort column, or direction 0) returns every column's
   * values converted in the original row order, each with sortKind 0; it fails
   * only on a value the converter cannot convert.
   */
  lemma IdentityQuery(b: Backend, sortColumn: Option<string>)
    requires ValidTable(b.table)
    ensures b.GetData(sortColumn, Unsorted).Ok? <==>
      forall i :: 0 <= i < |b.table.columns| ==> ConvertAll(b.table.columns[i].cells).Ok?
    ensures b.GetData(sortColumn, Unsorted).Ok? ==>
      |b.GetData(sortColumn, Unsorted).value| == |b.table.columns|
      && forall i :: 0 <= i < |b.table.columns| ==>
        b.GetData(sortColumn, Unsorted).value[i]
        == Record(b.table.columns[i].name, 0, ConvertAll(b.table.columns[i].cells).value)
  {
    var columns := b.table.columns;
    var rows := Range(0, RowCount(b.table));
    assert b.SortOrder(sortColumn, Unsorted) == Ok(rows);
    assert b.GetData(sortColumn, Unsorted) == Records(columns, rows, sortColumn, Unsorted);
    IdentityRows(b.table);
    RecordsPointwise(columns, rows, sortColumn, Unsorted);
  }

  /** In a valid table, the rows in their own order leave every column unchanged. */
  lemma IdentityRows(t: Table)
    requires ValidTable(t)
    ensures forall i :: 0 <= i < |t.columns| ==> Permute(t.columns[i].cells, Range(0, RowCount(t))) == t.columns[i].cells
  {
    forall i | 0 <= i < |t.columns| ensures Permute(t.columns[i].cells, Range(0, RowCount(t))) == t.columns[i].cells {
      PermuteIdentity(t.columns[i].cells);
    }
  }

  /**
   * A sort fails exactly when its column does not exist, or when the column's
   * values cannot be ordered among themselves.
   */
  lemma SortFailures(b: Backend, name: string, direction: SortKind)
    requires ValidTable(b.table) && direction != Unsorted
    ensures b.SortOrder(Some(name), direction) == Err(UnknownColumn(name)) <==> name !in b.GetColumns()
    ensures b.SortOrder(Some(name), direction).Err? <==>
      (name !in b.GetColumns()
      || exists k :: (0 <= k < |b.table.columns| && b.table.columns[k].name == name
                      && !Orderable(Keys(b.table.columns[k].cells))))
  {
    var columns := b.table.columns;
    var names := b.GetColumns();
    match IndexOf(columns, name) {
      case None =>
        assert name !in names;
      case Some(k) =>
        assert names[k] == name;
        forall k' | 0 <= k' < |columns| && columns[k'].name == name ensures k' == k { }
    }
  }

  /** In a table with unique names, the column called `name` is the one at `k`. */
  lemma FoundAt(b: Backend, name: string, k: nat)
    requires ValidTable(b.table) && k < |b.table.columns| && b.table.columns[k].name == name
    ensures IndexOf(b.table.columns, name) == Some(k)
  {
    var found := IndexOf(b.table.columns, name);
    assert found.Some?;
  }

  /** The row order of a sort is that of the named column's keys when they are orderable. */
  lemma SortColumnIs(b: Backend, name: string, k: nat, direction: SortKind)
    requires ValidTable(b.table) && k < |b.table.columns| && b.table.columns[k].name == name
    requires direction != Unsorted
    ensures b.SortOrder(Some(name), direction).Ok? <==> Orderable(Keys(b.table.columns[k].cells))
    ensures b.SortOrder(Some(name), direction).Ok? ==>
      b.SortOrder(Some(name), direction).value == RowOrder(Keys(b.table.columns[k].cells), direction)
  {
    FoundAt(b, name, k);
  }

  /**
   * In a successful ascending sort the sort column's present values never
   * decrease, and its missing values come after them.
   */
  lemma AscendingColumnSorted(b: Backend, name: string, k: nat)
    requires ValidTable(b.table) && k < |b.table.columns| && b.table.columns[k].name == name
    requires b.SortOrder(Some(name), Ascending).Ok?
    ensures var out := Permute(b.table.columns[k].cells, b.SortOrder(Some(name), Ascending).value);
      var m := PresentCount(Keys(b.table.columns[k].cells));
      m <= |out|
      && (forall i, j :: 0 <= i < j < m ==> KeyLe(KeyOf(out[i]), KeyOf(out[j])))
      && (forall i :: 0 <= i < m ==> KeyOf(out[i]) != Missing)
      && (forall i :: m <= i < |out| ==> KeyOf(out[i]) == Missing)
  {
    var cells := b.table.columns[k].cells;
    var keys := Keys(cells);
    SortColumnIs(b, name, k, Ascending);
    AscendingSorts(keys);
    var rows := RowOrder(keys, Ascending);
    var out := Permute(cells, rows);
    assert forall i :: 0 <= i < |out| ==> KeyOf(out[i]) == keys[rows[i]];
  }

  /**
   * In a successful descending sort the sort column's present values never
   * increase, and its missing values still come after them.
   */
  lemma DescendingColumnSorted(b: Backend, name: string, k: nat)
    requires ValidTable(b.table) && k < |b.table.columns| && b.table.columns[k].name == name
    requires b.SortOrder(Some(name), Descending).Ok?
    ensures var out := Permute(b.table.columns[k].cells, b.SortOrder(Some(name), Descending).value);
      var m := PresentCount(Keys(b.table.columns[k].cells));
      m <= |out|
      && (forall i, j :: 0 <= i < j < m ==> KeyLe(KeyOf(out[j]), KeyOf(out[i])))
      && (forall i :: 0 <= i < m ==> KeyOf(out[i]) != Missing)
      && (forall i :: m <= i < |out| ==> KeyOf(out[i]) == Missing)
  {
    var cells := b.table.columns[k].cells;
    var keys := Keys(cells);
    SortColumnIs(b, name, k, Descending);
    DescendingSorts(keys);
    var rows := RowOrder(keys, Descending);
    var out := Permute(cells, rows);
    assert forall i :: 0 <= i < |out| ==> KeyOf(out[i]) == keys[rows[i]];
  }

  /**
   * When the sort column has no missing value, the descending order of the rows
   * is the ascending order reversed, for every column of the table.
   */
  lemma DescendingIsReversedAscending(b: Backend, name: string, k: nat)
    requires ValidTable(b.table) && k < |b.table.columns| && b.table.columns[k].name == name
    requires forall i :: 0 <= i < |b.table.columns[k].cells| ==> KeyOf(b.table.columns[k].cells[i]) != Missing
    requires b.SortOrder(Some(name), Ascending).Ok?
    ensures b.SortOrder(Some(name), Descending).Ok?
    ensures b.SortOrder(Some(name), Descending).value == Reverse(b.SortOrder(Some(name), Ascending).value)
  {
    SortColumnIs(b, name, k, Ascending);
    SortColumnIs(b, name, k, Descending);
    DescendingReversesAscending(Keys(b.table.columns[k].cells));
  }

  // ----- the serializer -----

  const NameKey: string := "columnName"
  const KindKey: string := "sortKind"
  const ValuesKey: string := "values"

  /** A record as a JSON object, its keys in the order columnName, sortKind, values. */
  function RecordJson(r: Record): Json
  {
    JObject([(NameKey, JStr(r.columnName)), (KindKey, JInt(r.sortKind)), (ValuesKey, JArray(r.values))])
  }

  function RecordsJson(rs: seq<Record>): (js: seq<Json>)
    ensures |js| == |rs|
    ensures forall i :: 0 <= i < |rs| ==> js[i] == RecordJson(rs[i])
  {
    if rs == [] then [] else [RecordJson(rs[0])] + RecordsJson(rs[1..])
  }

  /** `to_json`: the records as a JSON array, written with ", " and ": " separators. */
  function ToJson(rs: seq<Record>): string
  {
    Render(JArray(RecordsJson(rs)))
  }

  /** The record a JSON object of that exact shape stands for. */
  function RecordOfJson(j: Json): Option<Record>
  {
    match j
    case JObject(ms) =>
      if |ms| == 3 && ms[0].0 == NameKey && ms[0].1.JStr?
        && ms[1].0 == KindKey && ms[1].1.JInt?
        && ms[2].0 == ValuesKey && ms[2].1.JArray?
      then Some(Record(ms[0].1.s, ms[1].1.i, ms[2].1.items))
      else None
    case _ => None
  }

  function RecordsOfJson(js: seq<Json>): Option<seq<Record>>
  {
    if js == [] then Some([])
    else
      var r :- RecordOfJson(js[0]);
      var rs :- RecordsOfJson(js[1..]);
      Some([r] + rs)
  }

  /** Reads the text of `to_json` back into records. */
  function FromJson(s: string): Option<seq<Record>>
  {
    var j :- ParseJson(s);
    if j.JArray? then RecordsOfJson(j.items) else None
  }

  lemma {:induction false} RecordsOfRecordsJson(rs: seq<Record>)
    ensures RecordsOfJson(RecordsJson(rs)) == Some(rs)
  {
    if rs != [] {
      RecordsOfRecordsJson(rs[1..]);
      assert RecordsJson(rs)[1..] == RecordsJson(rs[1..]);
      assert [rs[0]] + rs[1..] == rs;
    }
  }

  /** The serializer loses nothing: its text reads back as the same records. */
  lemma FromToJson(rs: seq<Record>)
    ensures FromJson(ToJson(rs)) == Some(rs)
  {
    ParseRender(JArray(RecordsJson(rs)));
    RecordsOfRecordsJson(rs);
  }

  /** Different record lists never serialize to the same text. */
  lemma ToJsonInjective(rs1: seq<Record>, rs2: seq<Record>)
    requires ToJson(rs1) == ToJson(rs2)
    ensures rs1 == rs2
  {
    FromToJson(rs1);
    FromToJson(rs2);
  }

  /** The members of an object written one after the other. */
  lemma Flatten(o: string, a: string, sep: string, b: string, c: string, close: string)
    ensures o + (a + sep + (b + sep + c)) + close == o + a + sep + b + sep + c + close
  {
  }

  /** A member whose key is quoted as it is. */
  lemma MemberPiece(q: string, key: string, col: string, x: string)
    ensures q + key + q + col + x == q + key + (q + col) + x
  {
  }

  /**
   * The text of one record: its three keys in the order columnName, sortKind,
   * values, each followed by ": ", the members separated by ", ".
   */
  lemma RecordText(r: Record)
    ensures Render(RecordJson(r)) ==
      "{" + ("\"" + NameKey + "\": " + Quote(r.columnName))
      + ", " + ("\"" + KindKey + "\": " + ShowInt(r.sortKind))
      + ", " + ("\"" + ValuesKey + "\": " + Render(JArray(r.values))) + "}"
  {
    var x, y, z := Quote(r.columnName), ShowInt(r.sortKind), Render(JArray(r.values));
    var m1, m2, m3 := (NameKey, JStr(r.columnName)), (KindKey, JInt(r.sortKind)), (ValuesKey, JArray(r.values));
    KeysUnescaped();
    assert Render(RecordJson(r)) == "{" + RenderMembers([m1, m2, m3]) + "}";
    KeyedMember(m1);
    KeyedMember(m2);
    KeyedMember(m3);
    ThreeMembers(m1, m2, m3);
    Flatten("{", RenderMember(m1), ", ", RenderMember(m2), RenderMember(m3), "}");
  }

  lemma KeysUnescaped()
    ensures Unescaped(NameKey) && Unescaped(KindKey) && Unescaped(ValuesKey)
  {
  }

  lemma KeyedMember(m: (string, Json))
    requires Unescaped(m.0)
    ensures RenderMember(m) == "\"" + m.0 + "\": " + Render(m.1)
  {
    QuotedKey(m.0);
    MemberPiece("\"", m.0, ": ", Render(m.1));
    assert "\"" + ": " == "\": ";
  }

  lemma ThreeMembers(m1: (string, Json), m2: (string, Json), m3: (string, Json))
    ensures RenderMembers([m1, m2, m3]) == RenderMember(m1) + ", " + (RenderMember(m2) + ", " + RenderMember(m3))
  {
    assert [m1, m2, m3][1..] == [m2, m3];
    assert [m2, m3][1..] == [m3];
    assert RenderMembers([m3]) == RenderMember(m3);
    assert RenderMembers([m2, m3]) == RenderMember(m2) + ", " + RenderMember(m3);
  }

  /** A key made of printable characters other than the quote and the backslash is quoted as it is. */
  lemma QuotedKey(key: string)
    requires Unescaped(key)
    ensures Quote(key) == "\"" + key + "\""
  {
    EscapePlain(key);
  }
}
