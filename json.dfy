/**
 * JSON values and their text, as Python's `json.dumps` writes them with its
 * default settings: ", " between elements, ": " after keys, object members in
 * insertion order, and every character outside printable ASCII escaped
 * (`ensure_ascii`). A parser for that text is the renderer's partner: every
 * rendered value reads back as itself.
 */
module Json {
  import opened Wrappers
  import opened Decimal

  /** 2^53: every integer up to this magnitude is exactly a double-precision float. */
  const MaxExactFloat: int := 0x20_0000_0000_0000

  /** An integral float value, exactly representable as a double; Python renders it as "<int>.0". */
  type IntegralFloat = f: int | -MaxExactFloat <= f <= MaxExactFloat

  datatype Json =
    | JNull
    | JBool(b: bool)
    | JInt(i: int)
    | JFloat(f: IntegralFloat)
    | JStr(s: string)
    | JArray(items: seq<Json>)
    | JObject(members: seq<(string, Json)>)

  // ----- rendering -----

  /** Python's `str(i)` for an integer. */
  function ShowInt(i: int): string
  {
    if i < 0 then "-" + Show(-i) else Show(i)
  }

  function HexDigit(d: int): (c: char)
    requires 0 <= d < 16
  {
    "0123456789abcdef"[d]
  }

  /** Four lower-case hexadecimal digits ("%04x"). */
  function Hex4(n: int): (s: string)
    requires 0 <= n < 0x10000
    ensures |s| == 4
  {
    var q1 := n / 16;
    var q2 := q1 / 16;
    [HexDigit(q2 / 16), HexDigit(q2 % 16), HexDigit(q1 % 16), HexDigit(n % 16)]
  }

  /** A "\uXXXX" escape. */
  function UnicodeEscape(n: int): (s: string)
    requires 0 <= n < 0x10000
    ensures |s| == 6
  {
    "\\u" + Hex4(n)
  }

  /** How one character of a string appears between the quotes. */
  function EscapeChar(c: char): (s: string)
    ensures |s| >= 1 && s[0] != '"'
  {
    if c == '"' then "\\\""
    else if c == '\\' then "\\\\"
    else if c == '\n' then "\\n"
    else if c == '\r' then "\\r"
    else if c == '\t' then "\\t"
    else if c == '\U{8}' then "\\b"
    else if c == '\U{c}' then "\\f"
    else if ' ' <= c <= '~' then [c]
    else if (c as int) < 0x10000 then UnicodeEscape(c as int)
    else UnicodeEscape(HighSurrogate(c)) + UnicodeEscape(LowSurrogate(c))
  }

  /** The leading half of the UTF-16 surrogate pair of a character outside the Basic Multilingual Plane. */
  function HighSurrogate(c: char): (hi: int)
    requires (c as int) >= 0x10000
    ensures 0xD800 <= hi < 0xDC00
  {
    0xD800 + ((c as int) - 0x10000) / 0x400
  }

  /** The trailing half of that surrogate pair. */
  function LowSurrogate(c: char): (lo: int)
    requires (c as int) >= 0x10000
    ensures 0xDC00 <= lo < 0xE000
  {
    0xDC00 + ((c as int) - 0x10000) % 0x400
  }

  function Escape(s: string): string
  {
    if s == [] then [] else EscapeChar(s[0]) + Escape(s[1..])
  }

  /** Printable ASCII other than the quote and the backslash is written as it is. */
  predicate Unescaped(s: string)
  {
    forall i :: 0 <= i < |s| ==> ' ' <= s[i] <= '~' && s[i] != '"' && s[i] != '\\'
  }

  lemma {:induction false} EscapePlain(s: string)
    requires Unescaped(s)
    ensures Escape(s) == s
  {
    if s != [] {
      EscapePlain(s[1..]);
      assert [s[0]] + s[1..] == s;
    }
  }

  function Quote(s: string): string
  {
    "\"" + Escape(s) + "\""
  }

  function Render(j: Json): string
    decreases j, 1
  {
    match j
    case JNull => "null"
    case JBool(b) => if b then "true" else "false"
    case JInt(i) => ShowInt(i)
    case JFloat(f) => ShowInt(f) + ".0"
    case JStr(s) => Quote(s)
    case JArray(items) => "[" + RenderItems(items) + "]"
    case JObject(members) => "{" + RenderMembers(members) + "}"
  }

  /** Array elements separated by ", ". */
  function RenderItems(items: seq<Json>): string
    decreases items, 0
  {
    if items == [] then ""
    else if |items| == 1 then Render(items[0])
    else Render(items[0]) + ", " + RenderItems(items[1..])
  }

  function RenderMember(m: (string, Json)): string
    decreases m, 0
  {
    Quote(m.0) + ": " + Render(m.1)
  }

  /** Object members, each "key": value, separated by ", ", in the given order. */
  function RenderMembers(members: seq<(string, Json)>): string
    decreases members, 0
  {
    if members == [] then ""
    else if |members| == 1 then RenderMember(members[0])
    else RenderMember(members[0]) + ", " + RenderMembers(members[1..])
  }

  // ----- parsing -----

  predicate IsHexDigit(c: char) { '0' <= c <= '9' || 'a' <= c <= 'f' || 'A' <= c <= 'F' }

  function HexValue(c: char): (d: int)
    requires IsHexDigit(c)
    ensures 0 <= d < 16
  {
    if '0' <= c <= '9' then (c as int) - ('0' as int)
    else if 'a' <= c <= 'f' then (c as int) - ('a' as int) + 10
    else (c as int) - ('A' as int) + 10
  }

  /** The code unit of a "\uXXXX" escape at the start of `s`. */
  function ReadUnicodeEscape(s: string): (r: Option<(int, string)>)
    ensures r.Some? ==> 0 <= r.value.0 < 0x10000 && |r.value.1| == |s| - 6
  {
    if |s| < 6 || s[0] != '\\' || s[1] != 'u'
      || !IsHexDigit(s[2]) || !IsHexDigit(s[3]) || !IsHexDigit(s[4]) || !IsHexDigit(s[5])
    then None
    else
      Some((HexValue(s[2]) * 0x1000 + HexValue(s[3]) * 0x100 + HexValue(s[4]) * 16 + HexValue(s[5]), s[6..]))
  }

  /** The character a surrogate pair stands for. */
  function FromSurrogates(hi: int, lo: int): char
    requires 0xD800 <= hi < 0xDC00 && 0xDC00 <= lo < 0xE000
  {
    (0x10000 + (hi - 0xD800) * 0x400 + (lo - 0xDC00)) as char
  }

  /** One character of a string body: a plain character or an escape sequence. */
  function ReadChar(s: string): (r: Option<(char, string)>)
    ensures r.Some? ==> |r.value.1| < |s|
  {
    if s == [] || s[0] == '"' || s[0] < ' ' then None
    else if s[0] != '\\' then Some((s[0], s[1..]))
    else if |s| < 2 then None
    else if s[1] == '"' then Some(('"', s[2..]))
    else if s[1] == '\\' then Some(('\\', s[2..]))
    else if s[1] == '/' then Some(('/', s[2..]))
    else if s[1] == 'n' then Some(('\n', s[2..]))
    else if s[1] == 'r' then Some(('\r', s[2..]))
    else if s[1] == 't' then Some(('\t', s[2..]))
    else if s[1] == 'b' then Some(('\U{8}', s[2..]))
    else if s[1] == 'f' then Some(('\U{c}', s[2..]))
    else
      var (hi, r1) :- ReadUnicodeEscape(s);
      if hi < 0xD800 || 0xE000 <= hi then Some((hi as char, r1))
      else if 0xDC00 <= hi then None
      else
        var (lo, r2) :- ReadUnicodeEscape(r1);
        if lo < 0xDC00 || 0xE000 <= lo then None
        else Some((FromSurrogates(hi, lo), r2))
  }

  /** The characters of a string up to and including its closing quote. */
  function ReadStringBody(s: string): (r: Option<(string, string)>)
    ensures r.Some? ==> |r.value.1| < |s|
    decreases |s|
  {
    if s == [] then None
    else if s[0] == '"' then Some(([], s[1..]))
    else
      var (c, r1) :- ReadChar(s);
      var (cs, r2) :- ReadStringBody(r1);
      Some(([c] + cs, r2))
  }

  function ReadString(s: string): (r: Option<(string, string)>)
    ensures r.Some? ==> |r.value.1| < |s|
  {
    if s == [] || s[0] != '"' then None else ReadStringBody(s[1..])
  }

  /** An integer, and an integral float when ".0" follows its digits. */
  function ReadNumber(s: string): (r: Option<(Json, string)>)
    ensures r.Some? ==> |r.value.1| < |s|
  {
    var negative := |s| > 0 && s[0] == '-';
    var digits := if negative then s[1..] else s;
    var (n, r) :- ReadNat(digits);
    var i: int := if negative then 0 - (n as int) else n;
    if |r| > 0 && r[0] == '.' then
      if |r| >= 2 && r[1] == '0' && StopsDigits(r[2..]) && -MaxExactFloat <= i <= MaxExactFloat
      then Some((JFloat(i), r[2..]))
      else None
    else Some((JInt(i), r))
  }

  predicate StartsWith(s: string, prefix: string)
  {
    |prefix| <= |s| && s[..|prefix|] == prefix
  }

  /** One JSON value at the start of `s`, and what follows it. */
  function ReadValue(s: string): (r: Option<(Json, string)>)
    ensures r.Some? ==> |r.value.1| < |s|
    decreases |s|, 1
  {
    if s == [] then None
    else if StartsWith(s, "null") then Some((JNull, s[4..]))
    else if StartsWith(s, "true") then Some((JBool(true), s[4..]))
    else if StartsWith(s, "false") then Some((JBool(false), s[5..]))
    else if s[0] == '"' then
      var (str, r) :- ReadStringBody(s[1..]);
      Some((JStr(str), r))
    else if s[0] == '[' then
      if StartsWith(s[1..], "]") then Some((JArray([]), s[2..]))
      else
        var (items, r) :- ReadItems(s[1..]);
        Some((JArray(items), r))
    else if s[0] == '{' then
      if StartsWith(s[1..], "}") then Some((JObject([]), s[2..]))
      else
        var (members, r) :- ReadMembers(s[1..]);
        Some((JObject(members), r))
    else ReadNumber(s)
  }

  /** Elements separated by ", " up to and including the closing "]". */
  function ReadItems(s: string): (r: Option<(seq<Json>, string)>)
    ensures r.Some? ==> |r.value.1| < |s|
    decreases |s|, 2
  {
    var (v, r1) :- ReadValue(s);
    if StartsWith(r1, ", ") then
      var (vs, r2) :- ReadItems(r1[2..]);
      Some(([v] + vs, r2))
    else if StartsWith(r1, "]") then Some(([v], r1[1..]))
    else None
  }

  /** Members "key": value separated by ", " up to and including the closing "}". */
  function ReadMembers(s: string): (r: Option<(seq<(string, Json)>, string)>)
    ensures r.Some? ==> |r.value.1| < |s|
    decreases |s|, 2
  {
    var (key, r0) :- ReadString(s);
    if !StartsWith(r0, ": ") then None
    else
      var (v, r1) :- ReadValue(r0[2..]);
      if StartsWith(r1, ", ") then
        var (ms, r2) :- ReadMembers(r1[2..]);
        Some(([(key, v)] + ms, r2))
      else if StartsWith(r1, "}") then Some(([(key, v)], r1[1..]))
      else None
  }

  // ----- the round trip -----

  /** What may follow a value inside rendered text: nothing, or the next delimiter. */
  predicate Delimited(rest: string)
  {
    rest == [] || rest[0] == ',' || rest[0] == ']' || rest[0] == '}'
  }

  lemma HexDigitValue(d: int)
    requires 0 <= d < 16
    ensures IsHexDigit(HexDigit(d)) && HexValue(HexDigit(d)) == d
  {
  }

  lemma Hex4Value(n: int)
    requires 0 <= n < 0x10000
    ensures var h := Hex4(n);
      IsHexDigit(h[0]) && IsHexDigit(h[1]) && IsHexDigit(h[2]) && IsHexDigit(h[3])
      && HexValue(h[0]) * 0x1000 + HexValue(h[1]) * 0x100 + HexValue(h[2]) * 16 + HexValue(h[3]) == n
  {
    var q1 := n / 16;
    var q2 := q1 / 16;
    var a, b, c, d := q2 / 16, q2 % 16, q1 % 16, n % 16;
    assert n == 16 * q1 + d && q1 == 16 * q2 + c && q2 == 16 * a + b;
    HexDigitValue(a);
    HexDigitValue(b);
    HexDigitValue(c);
    HexDigitValue(d);
    assert a * 0x1000 + b * 0x100 + c * 16 + d == n;
  }

  lemma ReadUnicodeEscapeOf(n: int, rest: string)
    requires 0 <= n < 0x10000
    ensures ReadUnicodeEscape(UnicodeEscape(n) + rest) == Some((n, rest))
  {
    var s := UnicodeEscape(n) + rest;
    var h := Hex4(n);
    Hex4Value(n);
    assert s == ['\\', 'u', h[0], h[1], h[2], h[3]] + rest;
    assert s[0] == '\\' && s[1] == 'u';
    assert s[2] == h[0] && s[3] == h[1] && s[4] == h[2] && s[5] == h[3];
    assert s[6..] == rest;
  }

  lemma ReadBmpEscape(c: char, rest: string)
    requires (c as int) < 0x10000
    ensures ReadChar(UnicodeEscape(c as int) + rest) == Some((c, rest))
  {
    var s := UnicodeEscape(c as int) + rest;
    ReadUnicodeEscapeOf(c as int, rest);
    assert s[0] == '\\' && s[1] == 'u';
  }

  /** The two halves of a surrogate pair combine back into the character. */
  lemma SurrogateHalves(c: char)
    requires (c as int) >= 0x10000
    ensures FromSurrogates(HighSurrogate(c), LowSurrogate(c)) == c
  {
    var v := (c as int) - 0x10000;
    assert 0x10000 + (v / 0x400) * 0x400 + v % 0x400 == c as int;
  }

  lemma ReadSurrogatePair(hi: int, lo: int, rest: string)
    requires 0xD800 <= hi < 0xDC00 && 0xDC00 <= lo < 0xE000
    ensures ReadChar(UnicodeEscape(hi) + UnicodeEscape(lo) + rest) == Some((FromSurrogates(hi, lo), rest))
  {
    var tail := UnicodeEscape(lo) + rest;
    var s := UnicodeEscape(hi) + UnicodeEscape(lo) + rest;
    assert s == UnicodeEscape(hi) + tail;
    ReadUnicodeEscapeOf(hi, tail);
    ReadUnicodeEscapeOf(lo, rest);
    assert s[0] == '\\' && s[1] == 'u';
    assert ReadUnicodeEscape(s) == Some((hi, tail));
    assert ReadUnicodeEscape(tail) == Some((lo, rest));
    assert !(s == [] || s[0] == '"' || s[0] < ' ' || s[0] != '\\' || |s| < 2);
    assert !(s[1] == '"' || s[1] == '\\' || s[1] == '/' || s[1] == 'n' || s[1] == 'r' || s[1] == 't' || s[1] == 'b' || s[1] == 'f');
  }

  lemma ReadNamedEscape(c: char, rest: string)
    requires c == '"' || c == '\\' || c == '\n' || c == '\r' || c == '\t' || c == '\U{8}' || c == '\U{c}'
    ensures ReadChar(EscapeChar(c) + rest) == Some((c, rest))
  {
    var s := EscapeChar(c) + rest;
    assert |EscapeChar(c)| == 2 && s[0] == '\\';
    assert s[2..] == rest;
  }

  lemma ReadPlainChar(c: char, rest: string)
    requires ' ' <= c <= '~' && c != '"' && c != '\\'
    ensures ReadChar([c] + rest) == Some((c, rest))
  {
    var s := [c] + rest;
    assert s[0] == c && s[1..] == rest;
  }

  lemma ReadOutsideBmp(c: char, rest: string)
    requires (c as int) >= 0x10000
    ensures ReadChar(EscapeChar(c) + rest) == Some((c, rest))
  {
    var hi, lo := HighSurrogate(c), LowSurrogate(c);
    SurrogateHalves(c);
    assert c != '"' && c != '\\' && c != '\n' && c != '\r' && c != '\t' && c != '\U{8}' && c != '\U{c}';
    assert !(' ' <= c <= '~');
    assert EscapeChar(c) == UnicodeEscape(hi) + UnicodeEscape(lo);
    ReadSurrogatePair(hi, lo, rest);
  }

  /** Every character reads back from its escaped form. */
  lemma ReadEscapedChar(c: char, rest: string)
    ensures ReadChar(EscapeChar(c) + rest) == Some((c, rest))
  {
    if c == '"' || c == '\\' || c == '\n' || c == '\r' || c == '\t' || c == '\U{8}' || c == '\U{c}' {
      ReadNamedEscape(c, rest);
    } else if ' ' <= c <= '~' {
      assert EscapeChar(c) == [c];
      ReadPlainChar(c, rest);
    } else if (c as int) < 0x10000 {
      assert EscapeChar(c) == UnicodeEscape(c as int);
      ReadBmpEscape(c, rest);
    } else {
      ReadOutsideBmp(c, rest);
    }
  }

  /** Every string reads back from its escaped form followed by the closing quote. */
  lemma {:induction false} ReadEscapedString(str: string, after: string)
    requires after != [] && after[0] == '"'
    ensures ReadStringBody(Escape(str) + after) == Some((str, after[1..]))
    decreases |str|
  {
    if str == [] {
      assert Escape(str) + after == after;
    } else {
      var tail := Escape(str[1..]) + after;
      assert Escape(str) == EscapeChar(str[0]) + Escape(str[1..]);
      Regroup3(EscapeChar(str[0]), Escape(str[1..]), after);
      ReadEscapedChar(str[0], tail);
      ReadEscapedString(str[1..], after);
      assert [str[0]] + str[1..] == str;
    }
  }

  lemma ReadShowInt(i: int, rest: string)
    requires rest == [] || !IsDigit(rest[0])
    ensures var s := ShowInt(i) + rest;
      |s| > 0 && (s[0] == '-' <==> i < 0)
      && ReadNat(if s[0] == '-' then s[1..] else s) == Some((if i < 0 then -i else i, rest))
  {
    var s := ShowInt(i) + rest;
    if i < 0 {
      var n: nat := -i;
      assert ShowInt(i) == "-" + Show(n);
      ReadShow(n, rest);
      Regroup3("-", Show(n), rest);
      DropPrefix("-", Show(n) + rest);
      assert s[0] == '-';
    } else {
      ReadShow(i, rest);
      assert IsDigit(s[0]);
    }
  }

  lemma ReadRenderedInt(i: int, rest: string)
    requires Delimited(rest)
    ensures ReadNumber(ShowInt(i) + rest) == Some((JInt(i), rest))
  {
    var s := ShowInt(i) + rest;
    ReadShowInt(i, rest);
    var digits := if s[0] == '-' then s[1..] else s;
    var n: nat := if i < 0 then -i else i;
    assert ReadNat(digits) == Some((n, rest));
    assert !(|rest| > 0 && rest[0] == '.');
  }

  lemma ReadRenderedFloat(f: IntegralFloat, rest: string)
    requires Delimited(rest)
    ensures ReadNumber(ShowInt(f) + ".0" + rest) == Some((JFloat(f), rest))
  {
    var tail := ".0" + rest;
    var s := ShowInt(f) + tail;
    assert ShowInt(f) + ".0" + rest == s;
    ReadShowInt(f, tail);
    var digits := if s[0] == '-' then s[1..] else s;
    var n: nat := if f < 0 then -f else f;
    assert ReadNat(digits) == Some((n, tail));
    assert tail[0] == '.' && tail[1] == '0' && tail[2..] == rest;
  }

  lemma NotKeyword(s: string)
    requires s != [] && s[0] != 'n' && s[0] != 't' && s[0] != 'f'
    ensures !StartsWith(s, "null") && !StartsWith(s, "true") && !StartsWith(s, "false")
  {
    if |s| >= 4 { assert s[..4][0] == s[0]; }
    if |s| >= 5 { assert s[..5][0] == s[0]; }
  }

  lemma ReadValueOfNumber(s: string)
    requires s != [] && (s[0] == '-' || IsDigit(s[0]))
    ensures ReadValue(s) == ReadNumber(s)
  {
    NotKeyword(s);
  }

  lemma ReadValueOfString(s: string)
    requires s != [] && s[0] == '"'
    ensures ReadValue(s) == match ReadStringBody(s[1..])
      case Some((str, r)) => Some((JStr(str), r))
      case None => None
  {
    NotKeyword(s);
  }

  lemma ReadValueOfArray(s: string)
    requires s != [] && s[0] == '['
    ensures ReadValue(s) == if StartsWith(s[1..], "]") then Some((JArray([]), s[2..]))
      else match ReadItems(s[1..])
        case Some((items, r)) => Some((JArray(items), r))
        case None => None
  {
    NotKeyword(s);
  }

  lemma ReadValueOfObject(s: string)
    requires s != [] && s[0] == '{'
    ensures ReadValue(s) == if StartsWith(s[1..], "}") then Some((JObject([]), s[2..]))
      else match ReadMembers(s[1..])
        case Some((members, r)) => Some((JObject(members), r))
        case None => None
  {
    NotKeyword(s);
  }

  lemma ReadRenderedKeyword(j: Json, rest: string)
    requires j.JNull? || j.JBool?
    ensures ReadValue(Render(j) + rest) == Some((j, rest))
  {
    var s := Render(j) + rest;
    match j
    case JNull =>
      assert s[..4] == "null" && s[4..] == rest;
    case JBool(b) =>
      if b {
        assert !StartsWith(s, "null") by { assert s[0] == 't'; assert s[..4][0] == 't'; }
        assert s[..4] == "true" && s[4..] == rest;
      } else {
        assert !StartsWith(s, "null") && !StartsWith(s, "true") by { assert s[..4] == "fals"; }
        assert s[..5] == "false" && s[5..] == rest;
      }
  }

  lemma ReadRenderedIntValue(i: int, rest: string)
    requires Delimited(rest)
    ensures ReadValue(ShowInt(i) + rest) == Some((JInt(i), rest))
  {
    ReadRenderedInt(i, rest);
    ReadShowInt(i, rest);
    ReadValueOfNumber(ShowInt(i) + rest);
  }

  lemma ReadRenderedFloatValue(f: IntegralFloat, rest: string)
    requires Delimited(rest)
    ensures ReadValue(ShowInt(f) + ".0" + rest) == Some((JFloat(f), rest))
  {
    var s := ShowInt(f) + ".0" + rest;
    ReadRenderedFloat(f, rest);
    ReadShowInt(f, ".0" + rest);
    assert s == ShowInt(f) + (".0" + rest);
    ReadValueOfNumber(s);
  }

  lemma ReadRenderedString(str: string, rest: string)
    ensures ReadValue(Quote(str) + rest) == Some((JStr(str), rest))
  {
    var s := Quote(str) + rest;
    var after := "\"" + rest;
    Reassoc("\"", Escape(str), "\"", rest);
    DropPrefix("\"", Escape(str) + after);
    DropPrefix("\"", rest);
    ReadEscapedString(str, after);
    ReadValueOfString(s);
  }

  lemma ReadRenderedScalar(j: Json, rest: string)
    requires !j.JArray? && !j.JObject?
    requires Delimited(rest)
    ensures ReadValue(Render(j) + rest) == Some((j, rest))
  {
    match j
    case JNull => ReadRenderedKeyword(j, rest);
    case JBool(_) => ReadRenderedKeyword(j, rest);
    case JInt(i) => ReadRenderedIntValue(i, rest);
    case JFloat(f) => ReadRenderedFloatValue(f, rest);
    case JStr(str) => ReadRenderedString(str, rest);
  }

  /** Round trip: a rendered value reads back as itself, leaving what follows it. */
  lemma {:induction false} ReadRendered(j: Json, rest: string)
    requires Delimited(rest)
    ensures ReadValue(Render(j) + rest) == Some((j, rest))
    decreases j, 2
  {
    match j
    case JArray(items) => ReadRenderedArray(items, rest);
    case JObject(members) => ReadRenderedObject(members, rest);
    case _ => ReadRenderedScalar(j, rest);
  }

  /** Regrouping a concatenation of four strings to the right. */
  lemma Reassoc(a: string, b: string, c: string, d: string)
    ensures a + b + c + d == a + (b + (c + d))
  {
  }

  lemma Regroup3(a: string, b: string, c: string)
    ensures a + b + c == a + (b + c)
  {
  }

  /** The text of a member followed by more text, grouped as the parser reads it. */
  lemma MemberText(m: (string, Json), after: string)
    ensures RenderMember(m) + after == "\"" + (Escape(m.0) + ("\"" + (": " + Render(m.1) + after)))
  {
    Regroup5("\"", Escape(m.0), ": ", Render(m.1), after);
  }

  lemma Regroup5(q: string, e: string, c: string, r: string, a: string)
    ensures q + e + q + c + r + a == q + (e + (q + (c + r + a)))
  {
  }

  lemma DropPrefix(p: string, s: string)
    ensures (p + s)[|p|..] == s
  {
  }

  lemma {:induction false} ReadRenderedArray(items: seq<Json>, rest: string)
    ensures ReadValue(Render(JArray(items)) + rest) == Some((JArray(items), rest))
    decreases items, 2
  {
    var s := Render(JArray(items)) + rest;
    var after := "]" + rest;
    Reassoc("[", RenderItems(items), "]", rest);
    DropPrefix("[", RenderItems(items) + after);
    assert s[1..] == RenderItems(items) + after;
    ReadValueOfArray(s);
    if items == [] {
      assert s[1..] == after;
      DropPrefix("]", rest);
      assert s[2..] == rest;
    } else {
      ReadRenderedItems(items, after);
      DropPrefix("]", rest);
      RenderedItemsStart(items);
      assert s[1..][0] == RenderItems(items)[0];
    }
  }

  lemma {:induction false} ReadRenderedObject(members: seq<(string, Json)>, rest: string)
    ensures ReadValue(Render(JObject(members)) + rest) == Some((JObject(members), rest))
    decreases members, 2
  {
    var s := Render(JObject(members)) + rest;
    var after := "}" + rest;
    Reassoc("{", RenderMembers(members), "}", rest);
    DropPrefix("{", RenderMembers(members) + after);
    assert s[1..] == RenderMembers(members) + after;
    ReadValueOfObject(s);
    if members == [] {
      assert s[1..] == after;
      DropPrefix("}", rest);
      assert s[2..] == rest;
    } else {
      ReadRenderedMembers(members, after);
      DropPrefix("}", rest);
      assert RenderMembers(members)[0] == '"';
      assert s[1..][0] == '"';
    }
  }

  lemma ReadItemsStep(s: string)
    ensures ReadItems(s) == match ReadValue(s)
      case None => None
      case Some((v, r1)) =>
        if StartsWith(r1, ", ") then
          match ReadItems(r1[2..])
          case None => None
          case Some((vs, r2)) => Some(([v] + vs, r2))
        else if StartsWith(r1, "]") then Some(([v], r1[1..]))
        else None
  {
  }

  lemma ReadMembersStep(s: string)
    ensures ReadMembers(s) == match ReadString(s)
      case None => None
      case Some((key, r0)) =>
        if !StartsWith(r0, ": ") then None
        else match ReadValue(r0[2..])
          case None => None
          case Some((v, r1)) =>
            if StartsWith(r1, ", ") then
              match ReadMembers(r1[2..])
              case None => None
              case Some((ms, r2)) => Some(([(key, v)] + ms, r2))
            else if StartsWith(r1, "}") then Some(([(key, v)], r1[1..]))
            else None
  {
  }

  lemma RenderedStart(j: Json)
    ensures |Render(j)| > 0 && Render(j)[0] != ']' && Render(j)[0] != '}'
  {
    match j
    case JInt(i) => assert ShowInt(i)[0] == '-' || IsDigit(ShowInt(i)[0]);
    case JFloat(f) => assert ShowInt(f)[0] == '-' || IsDigit(ShowInt(f)[0]);
    case _ =>
  }

  lemma RenderedItemsStart(items: seq<Json>)
    requires items != []
    ensures |RenderItems(items)| > 0 && RenderItems(items)[0] == Render(items[0])[0]
    ensures RenderItems(items)[0] != ']'
  {
    RenderedStart(items[0]);
  }

  /** The separator ", " then more text: it starts with ',' and drops to that text. */
  lemma CommaThen(tail: string)
    ensures Delimited(", " + tail) && StartsWith(", " + tail, ", ") && (", " + tail)[2..] == tail
  {
  }

  /** A closing bracket then more text. */
  lemma CloseThen(close: char, rest: string)
    requires close == ']' || close == '}'
    ensures Delimited([close] + rest) && !StartsWith([close] + rest, ", ")
      && StartsWith([close] + rest, [close]) && ([close] + rest)[1..] == rest
  {
    assert ([close] + rest)[0] == close;
  }

  lemma {:induction false} ReadRenderedItems(items: seq<Json>, after: string)
    requires items != [] && after != [] && after[0] == ']'
    ensures ReadItems(RenderItems(items) + after) == Some((items, after[1..]))
    decreases items, 1
  {
    var v := items[0];
    CloseThen(']', after[1..]);
    assert after == [']'] + after[1..];
    if |items| == 1 {
      assert RenderItems(items) == Render(v);
      ReadItemsStep(Render(v) + after);
      ReadRendered(v, after);
      assert items == [v];
    } else {
      var r := RenderItems(items[1..]);
      var tail := r + after;
      assert RenderItems(items) == Render(v) + ", " + r;
      Reassoc(Render(v), ", ", r, after);
      CommaThen(tail);
      ReadItemsStep(Render(v) + (", " + tail));
      ReadRendered(v, ", " + tail);
      ReadRenderedItems(items[1..], after);
      assert [v] + items[1..] == items;
    }
  }

  lemma {:induction false} ReadRenderedMember(m: (string, Json), after: string)
    requires Delimited(after)
    ensures ReadString(RenderMember(m) + after) == Some((m.0, ": " + Render(m.1) + after))
    ensures ReadValue(Render(m.1) + after) == Some((m.1, after))
    decreases m, 0
  {
    var value := ": " + Render(m.1) + after;
    MemberText(m, after);
    DropPrefix("\"", value);
    ReadEscapedString(m.0, "\"" + value);
    ReadRendered(m.1, after);
  }

  /** Reading one member and the text after it, up to the separator that follows. */
  lemma {:induction false} ReadMemberThen(m: (string, Json), after: string)
    requires Delimited(after)
    ensures ReadMembers(RenderMember(m) + after) ==
      if StartsWith(after, ", ") then
        match ReadMembers(after[2..])
        case None => None
        case Some((ms, r2)) => Some(([m] + ms, r2))
      else if StartsWith(after, "}") then Some(([m], after[1..]))
      else None
    decreases m, 1
  {
    var s := RenderMember(m) + after;
    var value := ": " + Render(m.1) + after;
    ReadRenderedMember(m, after);
    Regroup3(": ", Render(m.1), after);
    DropPrefix(": ", Render(m.1) + after);
    assert StartsWith(value, ": ");
    assert ReadValue(value[2..]) == Some((m.1, after));
    ReadMembersStep(s);
  }

  lemma {:induction false} ReadRenderedMembers(members: seq<(string, Json)>, after: string)
    requires members != [] && after != [] && after[0] == '}'
    ensures ReadMembers(RenderMembers(members) + after) == Some((members, after[1..]))
    decreases members, 1
  {
    var m := members[0];
    CloseThen('}', after[1..]);
    assert after == ['}'] + after[1..];
    if |members| == 1 {
      assert RenderMembers(members) == RenderMember(m);
      ReadMemberThen(m, after);
      assert members == [m];
    } else {
      var r := RenderMembers(members[1..]);
      var tail := r + after;
      assert RenderMembers(members) == RenderMember(m) + ", " + r;
      Reassoc(RenderMember(m), ", ", r, after);
      CommaThen(tail);
      ReadMemberThen(m, ", " + tail);
      ReadRenderedMembers(members[1..], after);
      assert [m] + members[1..] == members;
    }
  }

  /** Reads a whole JSON document: one value and nothing after it. */
  function ParseJson(s: string): Option<Json>
  {
    match ReadValue(s)
    case Some((j, rest)) => if rest == [] then Some(j) else None
    case None => None
  }

  /** The serializer loses nothing: the text of a value parses back to that value. */
  lemma ParseRender(j: Json)
    ensures ParseJson(Render(j)) == Some(j)
  {
    ReadRendered(j, []);
    assert Render(j) + [] == Render(j);
  }

  /** Hence rendering is injective: different values never share a text. */
  lemma RenderInjective(j: Json, k: Json)
    ensures Render(j) == Render(k) <==> j == k
  {
    if Render(j) == Render(k) {
      ParseRender(j);
      ParseRender(k);
    }
  }
}
