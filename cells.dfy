/**
 * The value converter of the tabloo backend (`convert_column`): every cell of a
 * column becomes a JSON value. Missing values and NaN become null, the two
 * infinities the strings "inf" and "-inf", timestamps their UTC text
 * "YYYY-MM-DD HH:MM:SS", a nested series an object keyed "0", "1", ... (its own
 * labels are dropped), a nested array a list, a nested table an object from
 * column name to the list of that column's values, and a mapping an object.
 * Plain scalars pass through; a value of any other type is an error naming it.
 */
module Cells {
  import opened Wrappers
  import opened Decimal
  import opened Civil
  import opened Json

  /** A plain scalar, the kind of value found inside nested arrays, series, tables and mappings. */
  datatype Scalar =
    | SInt(i: int)
    | SFloat(f: IntegralFloat)
    | SStr(s: string)
    | SBool(b: bool)
    | SNone

  /** One cell of a column, classified by the shape of the value it holds. */
  datatype Cell =
    | Int(i: int)
    | Float(f: IntegralFloat)
    | Str(s: string)
    | Bool(b: bool)
    | Null
    | NaN
    | PosInf
    | NegInf
    | Timestamp(t: EpochSeconds)
    | NestedArray(elems: seq<Scalar>)
    | NestedSeries(index: seq<Scalar>, values: seq<Scalar>)
    | NestedTable(columns: seq<(string, seq<Scalar>)>)
    | Mapping(entries: seq<(string, Scalar)>)
    | Other(typeName: string)

  /** A column handed to the converter: its values and the row labels it carries. */
  datatype Series = Series(index: seq<Scalar>, values: seq<Cell>)

  /** A scalar as JSON: passed through, None becoming null. */
  function ScalarJson(s: Scalar): Json
  {
    match s
    case SInt(i) => JInt(i)
    case SFloat(f) => JFloat(f)
    case SStr(str) => JStr(str)
    case SBool(b) => JBool(b)
    case SNone => JNull
  }

  function ScalarsJson(xs: seq<Scalar>): (js: seq<Json>)
    ensures |js| == |xs|
    ensures forall i :: 0 <= i < |xs| ==> js[i] == ScalarJson(xs[i])
  {
    if xs == [] then [] else [ScalarJson(xs[0])] + ScalarsJson(xs[1..])
  }

  /** Series values keyed by their positions, counting from `from`, as decimal strings. */
  function Relabelled(values: seq<Scalar>, from: nat): (ms: seq<(string, Json)>)
    ensures |ms| == |values|
    ensures forall i :: 0 <= i < |values| ==> ms[i] == (Show(from + i), ScalarJson(values[i]))
  {
    if values == [] then []
    else [(Show(from), ScalarJson(values[0]))] + Relabelled(values[1..], from + 1)
  }

  function TableColumnsJson(columns: seq<(string, seq<Scalar>)>): (ms: seq<(string, Json)>)
    ensures |ms| == |columns|
    ensures forall i :: 0 <= i < |columns| ==> ms[i] == (columns[i].0, JArray(ScalarsJson(columns[i].1)))
  {
    if columns == [] then []
    else [(columns[0].0, JArray(ScalarsJson(columns[0].1)))] + TableColumnsJson(columns[1..])
  }

  function EntriesJson(entries: seq<(string, Scalar)>): (ms: seq<(string, Json)>)
    ensures |ms| == |entries|
    ensures forall i :: 0 <= i < |entries| ==> ms[i] == (entries[i].0, ScalarJson(entries[i].1))
  {
    if entries == [] then [] else [(entries[0].0, ScalarJson(entries[0].1))] + EntriesJson(entries[1..])
  }

  /** One cell as JSON, or the name of its type when no rule converts it. */
  function ConvertValue(c: Cell): Result<Json, string>
  {
    match c
    case Null => Ok(JNull)
    case NaN => Ok(JNull)
    case PosInf => Ok(JStr("inf"))
    case NegInf => Ok(JStr("-inf"))
    case Timestamp(t) => Ok(JStr(FormatTimestamp(t)))
    case NestedTable(columns) => Ok(JObject(TableColumnsJson(columns)))
    case NestedSeries(_, values) => Ok(JObject(Relabelled(values, 0)))
    case NestedArray(elems) => Ok(JArray(ScalarsJson(elems)))
    case Mapping(entries) => Ok(JObject(EntriesJson(entries)))
    case Int(i) => Ok(JInt(i))
    case Float(f) => Ok(JFloat(f))
    case Str(s) => Ok(JStr(s))
    case Bool(b) => Ok(JBool(b))
    case Other(typeName) => Err(typeName)
  }

  /** The cells converted one by one, failing at the first cell that cannot be converted. */
  function ConvertAll(cells: seq<Cell>): Result<seq<Json>, string>
  {
    if cells == [] then Ok([])
    else
      var j :- ConvertValue(cells[0]);
      var js :- ConvertAll(cells[1..]);
      Ok([j] + js)
  }

  /** `convert_column`: the row labels of the column play no part. */
  function ConvertColumn(column: Series): Result<seq<Json>, string>
  {
    ConvertAll(column.values)
  }

  predicate Convertible(c: Cell) { !c.Other? }

  // ----- properties of the converter -----

  /**
   * Conversion succeeds exactly when every cell is convertible; it then keeps the
   * length and the order of the column, converting each cell on its own.
   */
  lemma {:induction false} ConvertAllPointwise(cells: seq<Cell>)
    ensures ConvertAll(cells).Ok? <==> forall i :: 0 <= i < |cells| ==> Convertible(cells[i])
    ensures ConvertAll(cells).Ok? ==>
      |ConvertAll(cells).value| == |cells|
      && forall i :: 0 <= i < |cells| ==> ConvertAll(cells).value[i] == ConvertValue(cells[i]).value
  {
    if cells != [] {
      ConvertAllPointwise(cells[1..]);
      assert forall i :: 1 <= i < |cells| ==> cells[i] == cells[1..][i - 1];
    }
  }

  /** Cells that each convert to the matching JSON value convert, as a column, to those values. */
  lemma ConvertsTo(cells: seq<Cell>, js: seq<Json>)
    requires |cells| == |js|
    requires forall i :: 0 <= i < |cells| ==> ConvertValue(cells[i]) == Ok(js[i])
    ensures ConvertAll(cells) == Ok(js)
  {
    ConvertAllPointwise(cells);
    assert ConvertAll(cells).value == js;
  }

  /** A failed conversion names the type of the first cell that has no rule. */
  lemma {:induction false} ConvertAllFailure(cells: seq<Cell>)
    requires ConvertAll(cells).Err?
    ensures exists k :: (0 <= k < |cells| && cells[k].Other? && ConvertAll(cells).error == cells[k].typeName
      && forall i :: 0 <= i < k ==> Convertible(cells[i]))
  {
    if cells[0].Other? {
      assert ConvertAll(cells).error == cells[0].typeName;
    } else {
      ConvertAllFailure(cells[1..]);
      var k :| 0 <= k < |cells[1..]| && cells[1..][k].Other? && ConvertAll(cells[1..]).error == cells[1..][k].typeName
        && forall i :: 0 <= i < k ==> Convertible(cells[1..][i]);
      assert cells[k + 1] == cells[1..][k];
      assert forall i :: 1 <= i < k + 1 ==> cells[i] == cells[1..][i - 1];
    }
  }

  /** Row labels are discarded: two columns with the same values convert alike. */
  lemma LabelsIgnored(values: seq<Cell>, index1: seq<Scalar>, index2: seq<Scalar>)
    ensures ConvertColumn(Series(index1, values)) == ConvertColumn(Series(index2, values))
  {
  }

  /** Conversion is independent of the neighbours: it distributes over concatenation. */
  lemma {:induction false} ConvertAllAppend(a: seq<Cell>, b: seq<Cell>)
    ensures ConvertAll(a + b) == match ConvertAll(a)
      case Err(e) => Err(e)
      case Ok(ja) => match ConvertAll(b)
        case Err(e) => Err(e)
        case Ok(jb) => Ok(ja + jb)
  {
    if a == [] {
      assert a + b == b;
      if ConvertAll(b).Ok? {
        assert [] + ConvertAll(b).value == ConvertAll(b).value;
      }
    } else {
      assert (a + b)[0] == a[0] && (a + b)[1..] == a[1..] + b;
      ConvertAllAppend(a[1..], b);
      match ConvertValue(a[0]) {
        case Err(_) =>
        case Ok(j) =>
          match ConvertAll(a[1..]) {
            case Err(_) =>
            case Ok(ja) =>
              match ConvertAll(b) {
                case Err(_) =>
                case Ok(jb) =>
                  assert [j] + (ja + jb) == ([j] + ja) + jb;
              }
          }
      }
    }
  }

  /** Missing values, NaN included, become null. */
  lemma MissingIsNull(c: Cell)
    requires c.Null? || c.NaN?
    ensures ConvertValue(c) == Ok(JNull)
  {
  }

  /** The infinities become the sentinel strings "inf" and "-inf". */
  lemma InfinitySentinels()
    ensures ConvertValue(PosInf) == Ok(JStr("inf")) && ConvertValue(NegInf) == Ok(JStr("-inf"))
  {
  }

  /**
   * A timestamp becomes a string of the layout "YYYY-MM-DD HH:MM:SS" that
   * denotes the same instant in UTC.
   */
  lemma TimestampText(t: EpochSeconds)
    ensures ConvertValue(Timestamp(t)).Ok? && ConvertValue(Timestamp(t)).value.JStr?
    ensures var s := ConvertValue(Timestamp(t)).value.s;
      |s| == 19 && s[4] == '-' && s[7] == '-' && s[10] == ' ' && s[13] == ':' && s[16] == ':'
      && ParseTimestamp(s) == Some(t)
  {
    var s := FormatTimestamp(t);
    assert ConvertValue(Timestamp(t)) == Ok(JStr(s));
    ParseFormatTimestamp(t);
  }

  /** Different instants never share a text. */
  lemma TimestampTextInjective(t1: EpochSeconds, t2: EpochSeconds)
    requires ConvertValue(Timestamp(t1)) == ConvertValue(Timestamp(t2))
    ensures t1 == t2
  {
    ParseFormatTimestamp(t1);
    ParseFormatTimestamp(t2);
  }

  /**
   * A nested series becomes an object whose keys are the positions "0", "1", ...
   * in order, each to its value; the labels of the series are dropped and the
   * keys are pairwise distinct.
   */
  lemma SeriesRelabelled(index: seq<Scalar>, values: seq<Scalar>)
    ensures var j := ConvertValue(NestedSeries(index, values)).value;
      j.JObject? && |j.members| == |values|
      && (forall i :: 0 <= i < |values| ==> j.members[i] == (Show(i), ScalarJson(values[i])))
      && (forall i, k :: 0 <= i < k < |values| ==> j.members[i].0 != j.members[k].0)
  {
    var ms := Relabelled(values, 0);
    forall i, k | 0 <= i < k < |values|
      ensures ms[i].0 != ms[k].0
    {
      if Show(i) == Show(k) {
        ShowInjective(i, k);
      }
    }
  }

  /** A nested table becomes an object from each column name, in order, to its list of values. */
  lemma NestedTableColumns(columns: seq<(string, seq<Scalar>)>)
    ensures var j := ConvertValue(NestedTable(columns)).value;
      j.JObject? && |j.members| == |columns|
      && forall i :: 0 <= i < |columns| ==>
        j.members[i].0 == columns[i].0 && j.members[i].1.JArray?
        && |j.members[i].1.items| == |columns[i].1|
        && forall r :: 0 <= r < |columns[i].1| ==> j.members[i].1.items[r] == ScalarJson(columns[i].1[r])
  {
  }

  /** A nested array becomes the list of its values; a mapping keeps its keys and their order. */
  lemma ArrayAndMapping(elems: seq<Scalar>, entries: seq<(string, Scalar)>)
    ensures var a := ConvertValue(NestedArray(elems)).value;
      a.JArray? && |a.items| == |elems| && forall i :: 0 <= i < |elems| ==> a.items[i] == ScalarJson(elems[i])
    ensures var m := ConvertValue(Mapping(entries)).value;
      m.JObject? && |m.members| == |entries|
      && forall i :: 0 <= i < |entries| ==> m.members[i] == (entries[i].0, ScalarJson(entries[i].1))
  {
  }

  // ----- plain scalars pass through -----

  predicate Plain(c: Cell) { c.Int? || c.Float? || c.Str? || c.Bool? || c.Null? }

  /** The plain cell a JSON scalar stands for; nothing for arrays and objects. */
  function CellOfJson(j: Json): Option<Cell>
  {
    match j
    case JNull => Some(Null)
    case JBool(b) => Some(Bool(b))
    case JInt(i) => Some(Int(i))
    case JFloat(f) => Some(Float(f))
    case JStr(s) => Some(Str(s))
    case _ => None
  }

  /** A plain cell converts to the JSON scalar that stands for it. */
  lemma PlainPassesThrough(c: Cell)
    requires Plain(c)
    ensures ConvertValue(c).Ok? && CellOfJson(ConvertValue(c).value) == Some(c)
  {
  }

  /** Converting an already converted scalar changes nothing. */
  lemma ConvertIdempotent(j: Json)
    requires CellOfJson(j).Some?
    ensures ConvertValue(CellOfJson(j).value) == Ok(j)
  {
  }

  /** A column of plain cells converts to JSON scalars that give back every cell, in order. */
  lemma PlainColumnUnchanged(column: Series)
    requires forall i :: 0 <= i < |column.values| ==> Plain(column.values[i])
    ensures ConvertColumn(column).Ok?
    ensures var js := ConvertColumn(column).value;
      |js| == |column.values| && forall i :: 0 <= i < |js| ==> CellOfJson(js[i]) == Some(column.values[i])
  {
    ConvertAllPointwise(column.values);
  }
}
