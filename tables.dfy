/**
 * The table adapter: a table is a sequence of named columns of equal length,
 * rows are identified by position only, and sorting by one column computes a
 * single row order that is then applied to every column. Ascending sorts the
 * rows whose sort value is present; descending is that order reversed; the rows
 * whose value is missing follow, in their original order, in both directions.
 */
module Tables {
  import opened Wrappers
  import opened Cells

  datatype Column = Column(name: string, cells: seq<Cell>)

  datatype Table = Table(columns: seq<Column>)

  /** Column names are unique and all columns have the same number of rows. */
  predicate ValidTable(t: Table)
  {
    (forall i, j :: 0 <= i < j < |t.columns| ==> t.columns[i].name != t.columns[j].name)
    && forall i :: 0 <= i < |t.columns| ==> |t.columns[i].cells| == RowCount(t)
  }

  function RowCount(t: Table): nat
  {
    if t.columns == [] then 0 else |t.columns[0].cells|
  }

  function Names(columns: seq<Column>): (names: seq<string>)
    ensures |names| == |columns|
    ensures forall i :: 0 <= i < |columns| ==> names[i] == columns[i].name
  {
    if columns == [] then [] else [columns[0].name] + Names(columns[1..])
  }

  /** The position of the column called `name`, if there is one. */
  function IndexOf(columns: seq<Column>, name: string): (r: Option<nat>)
    ensures r.Some? ==> (r.value < |columns| && columns[r.value].name == name
      && forall i :: 0 <= i < r.value ==> columns[i].name != name)
    ensures r.None? ==> forall i :: 0 <= i < |columns| ==> columns[i].name != name
  {
    if columns == [] then None
    else if columns[0].name == name then Some(0)
    else match IndexOf(columns[1..], name)
      case None => None
      case Some(k) => Some(k + 1)
  }

  // ----- sort keys -----

  /** A number, or one of the two infinities. */
  datatype Num = NegInfinity | Finite(n: int) | PosInfinity

  /** What a cell is sorted by. */
  datatype Key =
    | Missing
    | Number(num: Num)
    | Text(s: string)
    | Moment(t: int)
    | Unordered

  function KeyOf(c: Cell): Key
  {
    match c
    case Int(i) => Number(Finite(i))
    case Float(f) => Number(Finite(f))
    case Bool(b) => Number(Finite(if b then 1 else 0))
    case PosInf => Number(PosInfinity)
    case NegInf => Number(NegInfinity)
    case Str(s) => Text(s)
    case Timestamp(t) => Moment(t)
    case Null => Missing
    case NaN => Missing
    case _ => Unordered
  }

  function Keys(cells: seq<Cell>): (ks: seq<Key>)
    ensures |ks| == |cells|
    ensures forall i :: 0 <= i < |cells| ==> ks[i] == KeyOf(cells[i])
  {
    if cells == [] then [] else [KeyOf(cells[0])] + Keys(cells[1..])
  }

  function NumLe(a: Num, b: Num): bool
  {
    match (a, b)
    case (NegInfinity, _) => true
    case (_, PosInfinity) => true
    case (Finite(x), Finite(y)) => x <= y
    case _ => false
  }

  /** Strings compare code point by code point, a proper prefix coming first. */
  function LexLe(s: string, t: string): bool
  {
    if s == [] then true
    else if t == [] then false
    else if s[0] != t[0] then s[0] < t[0]
    else LexLe(s[1..], t[1..])
  }

  predicate SameKind(a: Key, b: Key)
  {
    (a.Number? && b.Number?) || (a.Text? && b.Text?) || (a.Moment? && b.Moment?)
  }

  /** The order of two keys of the same kind. */
  function KeyLe(a: Key, b: Key): bool
  {
    match (a, b)
    case (Number(x), Number(y)) => NumLe(x, y)
    case (Text(s), Text(t)) => LexLe(s, t)
    case (Moment(x), Moment(y)) => x <= y
    case _ => false
  }

  lemma {:induction false} LexLeTotal(s: string, t: string)
    ensures LexLe(s, t) || LexLe(t, s)
    decreases |s|
  {
    if s != [] && t != [] && s[0] == t[0] {
      LexLeTotal(s[1..], t[1..]);
    }
  }

  lemma {:induction false} LexLeTransitive(s: string, t: string, u: string)
    requires LexLe(s, t) && LexLe(t, u)
    ensures LexLe(s, u)
    decreases |s|
  {
    if s != [] && t != [] && u != [] && s[0] == t[0] && t[0] == u[0] {
      LexLeTransitive(s[1..], t[1..], u[1..]);
    }
  }

  lemma {:induction false} LexLeAntisymmetric(s: string, t: string)
    requires LexLe(s, t) && LexLe(t, s)
    ensures s == t
    decreases |s|
  {
    if s != [] && t != [] {
      LexLeAntisymmetric(s[1..], t[1..]);
      assert s == [s[0]] + s[1..] && t == [t[0]] + t[1..];
    }
  }

  /** Keys of one kind are totally preordered. */
  lemma KeyLeTotal(a: Key, b: Key)
    requires SameKind(a, b)
    ensures KeyLe(a, b) || KeyLe(b, a)
  {
    if a.Text? {
      LexLeTotal(a.s, b.s);
    }
  }

  lemma KeyLeTransitive(a: Key, b: Key, c: Key)
    requires KeyLe(a, b) && KeyLe(b, c)
    ensures KeyLe(a, c)
  {
    if a.Text? {
      LexLeTransitive(a.s, b.s, c.s);
    }
  }

  // ----- which columns can be sorted -----

  /** Every present key of the rows is of one kind, the kind of `first`. */
  predicate OfKind(keys: seq<Key>, first: Key)
  {
    forall i :: 0 <= i < |keys| ==> keys[i] == Missing || SameKind(keys[i], first)
  }

  /** The first present key, if any. */
  function FirstPresent(keys: seq<Key>): (r: Option<Key>)
    ensures r.Some? ==> r.value != Missing && r.value in keys
    ensures r.None? ==> forall i :: 0 <= i < |keys| ==> keys[i] == Missing
  {
    if keys == [] then None
    else if keys[0] != Missing then Some(keys[0])
    else FirstPresent(keys[1..])
  }

  /**
   * A column can be sorted when no value is of a shape that has no order (nested
   * values, unknown types) and the present values are all numbers, all strings or
   * all timestamps: comparing a string with a number fails.
   */
  predicate Orderable(keys: seq<Key>)
  {
    match FirstPresent(keys)
    case None => true
    case Some(k) => OfKind(keys, k)
  }

  // ----- the row order -----

  /** The rows `lo`, `lo`+1, ..., `hi`-1. */
  function Range(lo: nat, hi: nat): (r: seq<nat>)
    requires lo <= hi
    ensures |r| == hi - lo
    ensures forall i :: 0 <= i < |r| ==> r[i] == lo + i
    decreases hi - lo
  {
    if lo == hi then [] else [lo] + Range(lo + 1, hi)
  }

  /** The rows from `from` on whose key is present, in order. */
  function Present(keys: seq<Key>, from: nat): (r: seq<nat>)
    ensures forall i :: 0 <= i < |r| ==> from <= r[i] < |keys|
    decreases |keys| - from
  {
    if from >= |keys| then []
    else if keys[from] != Missing then [from] + Present(keys, from + 1)
    else Present(keys, from + 1)
  }

  /** The rows from `from` on whose key is missing, in order. */
  function Absent(keys: seq<Key>, from: nat): (r: seq<nat>)
    ensures forall i :: 0 <= i < |r| ==> from <= r[i] < |keys|
    decreases |keys| - from
  {
    if from >= |keys| then []
    else if keys[from] == Missing then [from] + Absent(keys, from + 1)
    else Absent(keys, from + 1)
  }

  /** The present rows have a key, the absent rows have none. */
  lemma {:induction false} PresentAbsentKeys(keys: seq<Key>, from: nat)
    ensures forall i :: 0 <= i < |Present(keys, from)| ==> keys[Present(keys, from)[i]] != Missing
    ensures forall i :: 0 <= i < |Absent(keys, from)| ==> keys[Absent(keys, from)[i]] == Missing
    decreases |keys| - from
  {
    if from < |keys| {
      PresentAbsentKeys(keys, from + 1);
      var present, absent := Present(keys, from + 1), Absent(keys, from + 1);
      if keys[from] != Missing {
        assert Present(keys, from) == [from] + present;
        assert Absent(keys, from) == absent;
      } else {
        assert Present(keys, from) == present;
        assert Absent(keys, from) == [from] + absent;
      }
    }
  }

  /** Inserts row `r` before the first row of `rows` whose key is not smaller than its own. */
  function Insert(keys: seq<Key>, r: nat, rows: seq<nat>): (s: seq<nat>)
    requires r < |keys| && forall i :: 0 <= i < |rows| ==> rows[i] < |keys|
    ensures |s| == |rows| + 1
    ensures forall i :: 0 <= i < |s| ==> s[i] < |keys|
    ensures multiset(s) == multiset(rows) + multiset{r}
  {
    if rows == [] then [r]
    else if KeyLe(keys[r], keys[rows[0]]) then [r] + rows
    else
      assert rows == [rows[0]] + rows[1..];
      [rows[0]] + Insert(keys, r, rows[1..])
  }

  /** The rows ordered by their keys (an insertion sort). */
  function SortRows(keys: seq<Key>, rows: seq<nat>): (s: seq<nat>)
    requires forall i :: 0 <= i < |rows| ==> rows[i] < |keys|
    ensures |s| == |rows|
    ensures forall i :: 0 <= i < |s| ==> s[i] < |keys|
  {
    if rows == [] then [] else Insert(keys, rows[0], SortRows(keys, rows[1..]))
  }

  function Reverse(s: seq<nat>): (r: seq<nat>)
    ensures |r| == |s|
    ensures forall i :: 0 <= i < |s| ==> r[i] == s[|s| - 1 - i]
  {
    if s == [] then [] else Reverse(s[1..]) + [s[0]]
  }

  /** Sort directions and their codes in a request: -1, 0 and 1. */
  datatype SortKind = Descending | Unsorted | Ascending
  {
    function Code(): int
    {
      match this
      case Descending => -1
      case Unsorted => 0
      case Ascending => 1
    }
  }

  /** The direction a request code stands for; other codes are not directions. */
  function SortKindOf(code: int): (r: Option<SortKind>)
    ensures r.Some? <==> code == -1 || code == 0 || code == 1
    ensures r.Some? ==> r.value.Code() == code
  {
    if code == -1 then Some(Descending)
    else if code == 0 then Some(Unsorted)
    else if code == 1 then Some(Ascending)
    else None
  }

  /** The row order of a sort by the column whose keys are `keys`. */
  function RowOrder(keys: seq<Key>, direction: SortKind): (rows: seq<nat>)
    ensures forall i :: 0 <= i < |rows| ==> rows[i] < |keys|
  {
    match direction
    case Unsorted => Range(0, |keys|)
    case Ascending => SortRows(keys, Present(keys, 0)) + Absent(keys, 0)
    case Descending => Reverse(SortRows(keys, Present(keys, 0))) + Absent(keys, 0)
  }

  /** Row `rows[k]` of the column becomes its row `k`. */
  function Permute(cells: seq<Cell>, rows: seq<nat>): (out: seq<Cell>)
    requires forall i :: 0 <= i < |rows| ==> rows[i] < |cells|
    ensures |out| == |rows|
    ensures forall k :: 0 <= k < |rows| ==> out[k] == cells[rows[k]]
  {
    if rows == [] then [] else [cells[rows[0]]] + Permute(cells, rows[1..])
  }

  // ----- the row order is a permutation -----

  lemma {:induction false} SortRowsPermutes(keys: seq<Key>, rows: seq<nat>)
    requires forall i :: 0 <= i < |rows| ==> rows[i] < |keys|
    ensures multiset(SortRows(keys, rows)) == multiset(rows)
  {
    if rows != [] {
      SortRowsPermutes(keys, rows[1..]);
      SortRowsStep(keys, rows);
      MultisetFront(rows[0], rows[1..]);
      assert rows == [rows[0]] + rows[1..];
    }
  }

  lemma SortRowsStep(keys: seq<Key>, rows: seq<nat>)
    requires rows != [] && forall i :: 0 <= i < |rows| ==> rows[i] < |keys|
    ensures multiset(SortRows(keys, rows)) == multiset(SortRows(keys, rows[1..])) + multiset{rows[0]}
  {
  }

  lemma MultisetFront(x: nat, s: seq<nat>)
    ensures multiset([x] + s) == multiset(s) + multiset{x}
  {
  }

  /** Adding one element to either side of a union adds it to the union. */
  lemma UnionWithOne(a: multiset<nat>, b: multiset<nat>, c: multiset<nat>, x: nat)
    requires a + b == c
    ensures (a + multiset{x}) + b == c + multiset{x}
    ensures a + (b + multiset{x}) == c + multiset{x}
  {
  }

  /** The present and the absent rows from `from` on are, together, the rows from `from` on. */
  predicate SplitsAt(keys: seq<Key>, from: nat)
    requires from <= |keys|
  {
    multiset(Present(keys, from)) + multiset(Absent(keys, from)) == multiset(Range(from, |keys|))
  }

  lemma {:induction false} PresentAbsentSplit(keys: seq<Key>, from: nat)
    requires from <= |keys|
    ensures SplitsAt(keys, from)
    decreases |keys| - from
  {
    if from < |keys| {
      PresentAbsentSplit(keys, from + 1);
      SplitStep(keys, from);
    } else {
      SplitBase(keys, from);
    }
  }

  lemma SplitBase(keys: seq<Key>, from: nat)
    requires from == |keys|
    ensures SplitsAt(keys, from)
  {
    assert Present(keys, from) == [] && Absent(keys, from) == [] && Range(from, |keys|) == [];
  }

  /** One step of the split: row `from` joins the present or the absent rows. */
  lemma SplitStep(keys: seq<Key>, from: nat)
    requires from < |keys| && SplitsAt(keys, from + 1)
    ensures SplitsAt(keys, from)
  {
    var present, absent, range := Present(keys, from + 1), Absent(keys, from + 1), Range(from + 1, |keys|);
    UnionWithOne(multiset(present), multiset(absent), multiset(range), from);
    RangeFront(from, |keys|);
    if keys[from] != Missing {
      MultisetFront(from, present);
    } else {
      MultisetFront(from, absent);
    }
  }

  lemma RangeFront(lo: nat, hi: nat)
    requires lo < hi
    ensures multiset(Range(lo, hi)) == multiset(Range(lo + 1, hi)) + multiset{lo}
  {
    MultisetFront(lo, Range(lo + 1, hi));
  }

  lemma {:induction false} ReversePermutes(s: seq<nat>)
    ensures multiset(Reverse(s)) == multiset(s)
  {
    if s != [] {
      ReversePermutes(s[1..]);
      assert s == [s[0]] + s[1..];
    }
  }

  /** Every row order is a permutation of the rows 0 .. n-1. */
  lemma RowOrderPermutes(keys: seq<Key>, direction: SortKind)
    ensures multiset(RowOrder(keys, direction)) == multiset(Range(0, |keys|))
  {
    if direction != Unsorted {
      var sorted := SortRows(keys, Present(keys, 0));
      SortRowsPermutes(keys, Present(keys, 0));
      PresentAbsentSplit(keys, 0);
      if direction == Descending {
        ReversePermutes(sorted);
      }
    }
  }

  // ----- the row order sorts -----

  /** The keys of the rows, in order, never decrease. */
  predicate Ascends(keys: seq<Key>, rows: seq<nat>)
    requires forall i :: 0 <= i < |rows| ==> rows[i] < |keys|
  {
    forall i, j :: 0 <= i < j < |rows| ==> KeyLe(keys[rows[i]], keys[rows[j]])
  }

  /** All keys of the rows are present and of the kind of `first`. */
  predicate RowsOfKind(keys: seq<Key>, rows: seq<nat>, first: Key)
    requires forall i :: 0 <= i < |rows| ==> rows[i] < |keys|
  {
    forall i :: 0 <= i < |rows| ==> keys[rows[i]] != Missing && SameKind(keys[rows[i]], first)
  }

  /** The key of row `x` is at most the key of every row of `rows`. */
  predicate LowerBound(keys: seq<Key>, x: nat, rows: seq<nat>)
    requires x < |keys| && forall i :: 0 <= i < |rows| ==> rows[i] < |keys|
  {
    forall i :: 0 <= i < |rows| ==> KeyLe(keys[x], keys[rows[i]])
  }

  lemma AscendsCons(keys: seq<Key>, h: nat, t: seq<nat>)
    requires h < |keys| && forall i :: 0 <= i < |t| ==> t[i] < |keys|
    requires LowerBound(keys, h, t) && Ascends(keys, t)
    ensures Ascends(keys, [h] + t)
  {
    var s := [h] + t;
    forall i, j | 0 <= i < j < |s| ensures KeyLe(keys[s[i]], keys[s[j]]) {
      assert s[j] == t[j - 1];
      if i > 0 {
        assert s[i] == t[i - 1];
      }
    }
  }

  lemma AscendsTail(keys: seq<Key>, rows: seq<nat>)
    requires rows != [] && forall i :: 0 <= i < |rows| ==> rows[i] < |keys|
    requires Ascends(keys, rows)
    ensures LowerBound(keys, rows[0], rows[1..]) && Ascends(keys, rows[1..])
  {
    var t := rows[1..];
    forall i | 0 <= i < |t| ensures KeyLe(keys[rows[0]], keys[t[i]]) {
      assert t[i] == rows[i + 1];
    }
    forall i, j | 0 <= i < j < |t| ensures KeyLe(keys[t[i]], keys[t[j]]) {
      assert t[i] == rows[i + 1] && t[j] == rows[j + 1];
    }
  }

  /** A bound on a row and on the rows after it is a bound on them all. */
  lemma LowerBoundCons(keys: seq<Key>, x: nat, h: nat, t: seq<nat>)
    requires x < |keys| && h < |keys| && forall i :: 0 <= i < |t| ==> t[i] < |keys|
    requires KeyLe(keys[x], keys[h]) && LowerBound(keys, x, t)
    ensures LowerBound(keys, x, [h] + t)
  {
    var s := [h] + t;
    forall i | 0 <= i < |s| ensures KeyLe(keys[x], keys[s[i]]) {
      if i > 0 {
        assert s[i] == t[i - 1];
      }
    }
  }

  lemma LowerBoundTail(keys: seq<Key>, x: nat, rows: seq<nat>)
    requires x < |keys| && rows != [] && forall i :: 0 <= i < |rows| ==> rows[i] < |keys|
    requires LowerBound(keys, x, rows)
    ensures LowerBound(keys, x, rows[1..])
  {
    var t := rows[1..];
    forall i | 0 <= i < |t| ensures KeyLe(keys[x], keys[t[i]]) {
      assert t[i] == rows[i + 1];
    }
  }

  lemma {:induction false} InsertLowerBound(keys: seq<Key>, x: nat, r: nat, rows: seq<nat>)
    requires x < |keys| && r < |keys| && forall i :: 0 <= i < |rows| ==> rows[i] < |keys|
    requires LowerBound(keys, x, rows) && KeyLe(keys[x], keys[r])
    ensures LowerBound(keys, x, Insert(keys, r, rows))
  {
    if rows == [] || KeyLe(keys[r], keys[rows[0]]) {
      LowerBoundCons(keys, x, r, rows);
      assert Insert(keys, r, rows) == [r] + rows;
    } else {
      var t := rows[1..];
      LowerBoundTail(keys, x, rows);
      InsertLowerBound(keys, x, r, t);
      LowerBoundCons(keys, x, rows[0], Insert(keys, r, t));
    }
  }

  lemma {:induction false} InsertAscends(keys: seq<Key>, r: nat, rows: seq<nat>, first: Key)
    requires r < |keys| && forall i :: 0 <= i < |rows| ==> rows[i] < |keys|
    requires RowsOfKind(keys, rows, first) && keys[r] != Missing && SameKind(keys[r], first)
    requires Ascends(keys, rows)
    ensures Ascends(keys, Insert(keys, r, rows))
  {
    if rows == [] {
      assert Insert(keys, r, rows) == [r];
    } else if KeyLe(keys[r], keys[rows[0]]) {
      forall i | 0 <= i < |rows| ensures KeyLe(keys[r], keys[rows[i]]) {
        if i > 0 {
          KeyLeTransitive(keys[r], keys[rows[0]], keys[rows[i]]);
        }
      }
      AscendsCons(keys, r, rows);
    } else {
      var t := rows[1..];
      AscendsTail(keys, rows);
      assert RowsOfKind(keys, t, first) by {
        forall i | 0 <= i < |t| ensures keys[t[i]] != Missing && SameKind(keys[t[i]], first) {
          assert t[i] == rows[i + 1];
        }
      }
      InsertAscends(keys, r, t, first);
      KeyLeTotal(keys[r], keys[rows[0]]);
      InsertLowerBound(keys, rows[0], r, t);
      AscendsCons(keys, rows[0], Insert(keys, r, t));
    }
  }

  lemma {:induction false} SortRowsAscends(keys: seq<Key>, rows: seq<nat>, first: Key)
    requires forall i :: 0 <= i < |rows| ==> rows[i] < |keys|
    requires RowsOfKind(keys, rows, first)
    ensures Ascends(keys, SortRows(keys, rows))
  {
    if rows != [] {
      var tail := rows[1..];
      assert RowsOfKind(keys, tail, first) by {
        forall i | 0 <= i < |tail| ensures keys[tail[i]] != Missing && SameKind(keys[tail[i]], first) {
          assert tail[i] == rows[i + 1];
        }
      }
      SortRowsAscends(keys, tail, first);
      var sorted := SortRows(keys, tail);
      SortRowsPermutes(keys, tail);
      assert RowsOfKind(keys, sorted, first) by {
        forall i | 0 <= i < |sorted| ensures keys[sorted[i]] != Missing && SameKind(keys[sorted[i]], first) {
          assert sorted[i] in multiset(tail);
          var k :| 0 <= k < |tail| && tail[k] == sorted[i];
        }
      }
      InsertAscends(keys, rows[0], sorted, first);
    }
  }

  /** The number of rows whose key is present: they come first in every sorted order. */
  function PresentCount(keys: seq<Key>): nat
  {
    |Present(keys, 0)|
  }

  /**
   * Sorting ascending orders the rows with a present key by that key, and the
   * rows whose key is missing come after all of them.
   */
  lemma AscendingSorts(keys: seq<Key>)
    requires Orderable(keys)
    ensures var rows := RowOrder(keys, Ascending);
      var m := PresentCount(keys);
      m <= |rows|
      && (forall i, j :: 0 <= i < j < m ==> KeyLe(keys[rows[i]], keys[rows[j]]))
      && (forall i :: 0 <= i < m ==> keys[rows[i]] != Missing)
      && (forall i :: m <= i < |rows| ==> keys[rows[i]] == Missing)
  {
    var present := Present(keys, 0);
    var sorted := SortRows(keys, present);
    SortRowsPermutes(keys, present);
    PresentSorted(keys, present, sorted);
    PresentAbsentKeys(keys, 0);
    assert RowOrder(keys, Ascending) == sorted + Absent(keys, 0);
    AscendingLayout(keys, sorted, Absent(keys, 0));
  }

  /** Ascending present rows followed by absent rows: the layout of an ascending sort. */
  lemma AscendingLayout(keys: seq<Key>, sorted: seq<nat>, absent: seq<nat>)
    requires forall i :: 0 <= i < |sorted| ==> sorted[i] < |keys| && keys[sorted[i]] != Missing
    requires forall i :: 0 <= i < |absent| ==> absent[i] < |keys| && keys[absent[i]] == Missing
    requires Ascends(keys, sorted)
    ensures var rows := sorted + absent;
      (forall i, j :: 0 <= i < j < |sorted| ==> KeyLe(keys[rows[i]], keys[rows[j]]))
      && (forall i :: 0 <= i < |sorted| ==> keys[rows[i]] != Missing)
      && (forall i :: |sorted| <= i < |rows| ==> keys[rows[i]] == Missing)
  {
    var rows := sorted + absent;
    assert forall i :: 0 <= i < |sorted| ==> rows[i] == sorted[i];
    assert forall i :: |sorted| <= i < |rows| ==> rows[i] == absent[i - |sorted|];
  }

  /** The sorted present rows ascend and keep present keys. */
  lemma PresentSorted(keys: seq<Key>, present: seq<nat>, sorted: seq<nat>)
    requires Orderable(keys) && present == Present(keys, 0) && sorted == SortRows(keys, present)
    requires multiset(sorted) == multiset(present)
    ensures Ascends(keys, sorted)
    ensures forall i :: 0 <= i < |sorted| ==> keys[sorted[i]] != Missing
  {
    PresentAbsentKeys(keys, 0);
    forall i | 0 <= i < |sorted| ensures keys[sorted[i]] != Missing {
      assert sorted[i] in multiset(present);
      var k :| 0 <= k < |present| && present[k] == sorted[i];
    }
    if present != [] {
      assert FirstPresent(keys).Some?;
      var k0 := FirstPresent(keys).value;
      var p :| 0 <= p < |keys| && keys[p] == k0;
      assert SameKind(keys[p], k0);
      assert RowsOfKind(keys, present, k0);
      SortRowsAscends(keys, present, k0);
    }
  }

  /**
   * Sorting descending is the ascending order of the present rows reversed: their
   * keys never increase; the rows whose key is missing still come last.
   */
  lemma DescendingSorts(keys: seq<Key>)
    requires Orderable(keys)
    ensures var rows := RowOrder(keys, Descending);
      var m := PresentCount(keys);
      m <= |rows|
      && (forall i, j :: 0 <= i < j < m ==> KeyLe(keys[rows[j]], keys[rows[i]]))
      && (forall i :: 0 <= i < m ==> keys[rows[i]] != Missing)
      && (forall i :: m <= i < |rows| ==> keys[rows[i]] == Missing)
  {
    var present := Present(keys, 0);
    var sorted := SortRows(keys, present);
    SortRowsPermutes(keys, present);
    PresentSorted(keys, present, sorted);
    PresentAbsentKeys(keys, 0);
    assert RowOrder(keys, Descending) == Reverse(sorted) + Absent(keys, 0);
    DescendingLayout(keys, sorted, Absent(keys, 0));
  }

  /** Reversed ascending present rows followed by absent rows: the layout of a descending sort. */
  lemma DescendingLayout(keys: seq<Key>, sorted: seq<nat>, absent: seq<nat>)
    requires forall i :: 0 <= i < |sorted| ==> sorted[i] < |keys| && keys[sorted[i]] != Missing
    requires forall i :: 0 <= i < |absent| ==> absent[i] < |keys| && keys[absent[i]] == Missing
    requires Ascends(keys, sorted)
    ensures var rows := Reverse(sorted) + absent;
      (forall i, j :: 0 <= i < j < |sorted| ==> KeyLe(keys[rows[j]], keys[rows[i]]))
      && (forall i :: 0 <= i < |sorted| ==> keys[rows[i]] != Missing)
      && (forall i :: |sorted| <= i < |rows| ==> keys[rows[i]] == Missing)
  {
    var n := |sorted|;
    var rows := Reverse(sorted) + absent;
    assert forall i :: 0 <= i < n ==> rows[i] == sorted[n - 1 - i];
    assert forall i :: n <= i < |rows| ==> rows[i] == absent[i - n];
    forall i, j | 0 <= i < j < n ensures KeyLe(keys[rows[j]], keys[rows[i]]) {
      assert rows[j] == sorted[n - 1 - j] && rows[i] == sorted[n - 1 - i];
    }
  }

  /** When no key is missing, sorting descending gives exactly the reverse of sorting ascending. */
  lemma DescendingReversesAscending(keys: seq<Key>)
    requires forall i :: 0 <= i < |keys| ==> keys[i] != Missing
    ensures RowOrder(keys, Descending) == Reverse(RowOrder(keys, Ascending))
  {
    NoneAbsent(keys, 0);
    var sorted := SortRows(keys, Present(keys, 0));
    assert RowOrder(keys, Ascending) == sorted;
    assert RowOrder(keys, Descending) == Reverse(sorted);
  }

  lemma {:induction false} NoneAbsent(keys: seq<Key>, from: nat)
    requires forall i :: 0 <= i < |keys| ==> keys[i] != Missing
    ensures Absent(keys, from) == []
    decreases |keys| - from
  {
    if from < |keys| {
      NoneAbsent(keys, from + 1);
    }
  }
}
