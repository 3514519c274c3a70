/**
 * The value converter on the small columns of the backend's test suite, and
 * the three timestamps of its convertibility table rendered as text.
 */
module ConvertScenarios {
  import opened Wrappers
  import opened Decimal
  import opened Civil
  import opened Json
  import opened Cells

  /** Python's `==` on converted scalars, under which `1.0 == 1`. */
  predicate PyEqual(a: Json, b: Json)
  {
    match (a, b)
    case (JFloat(x), JInt(y)) => x == y
    case (JInt(x), JFloat(y)) => x == y
    case _ => a == b
  }

  predicate PyEqualAll(a: seq<Json>, b: seq<Json>)
  {
    |a| == |b| && forall i :: 0 <= i < |a| ==> PyEqual(a[i], b[i])
  }

  // ----- the converter on small columns -----

  /** The row labels of a column do not matter. */
  lemma ConvertPlainInts()
    ensures ConvertColumn(Series([SInt(0), SInt(1), SInt(2)], [Int(1), Int(2), Int(3)]))
      == Ok([JInt(1), JInt(2), JInt(3)])
    ensures ConvertColumn(Series([SInt(30), SInt(20), SInt(10)], [Int(1), Int(2), Int(3)]))
      == Ok([JInt(1), JInt(2), JInt(3)])
  {
    ConvertsTo([Int(1), Int(2), Int(3)], [JInt(1), JInt(2), JInt(3)]);
  }

  lemma ConvertMixedObjects()
    ensures ConvertColumn(Series([SInt(0), SInt(1), SInt(2)], [Null, Str("1"), Int(2)]))
      == Ok([JNull, JStr("1"), JInt(2)])
  {
    ConvertsTo([Null, Str("1"), Int(2)], [JNull, JStr("1"), JInt(2)]);
  }

  /**
   * A numeric column with a missing value holds floats: the gap becomes null
   * and the other values compare equal to the integers.
   */
  lemma ConvertWithMissing()
    ensures ConvertColumn(Series([SInt(0), SInt(1), SInt(2)], [Float(1), Null, Float(2)]))
      == Ok([JFloat(1), JNull, JFloat(2)])
    ensures PyEqualAll([JFloat(1), JNull, JFloat(2)], [JInt(1), JNull, JInt(2)])
  {
    ConvertsTo([Float(1), Null, Float(2)], [JFloat(1), JNull, JFloat(2)]);
  }

  /** NaN is a missing value too. */
  lemma ConvertWithNaN()
    ensures ConvertColumn(Series([SInt(0), SInt(1), SInt(2)], [Float(1), NaN, Float(2)]))
      == Ok([JFloat(1), JNull, JFloat(2)])
  {
    ConvertsTo([Float(1), NaN, Float(2)], [JFloat(1), JNull, JFloat(2)]);
  }

  lemma ConvertWithInfinity()
    ensures ConvertColumn(Series([SInt(0), SInt(1), SInt(2)], [Float(1), PosInf, Float(2)]))
      == Ok([JFloat(1), JStr("inf"), JFloat(2)])
    ensures PyEqualAll([JFloat(1), JStr("inf"), JFloat(2)], [JInt(1), JStr("inf"), JInt(2)])
  {
    ConvertsTo([Float(1), PosInf, Float(2)], [JFloat(1), JStr("inf"), JFloat(2)]);
  }

  lemma ConvertWithNegativeInfinity()
    ensures ConvertColumn(Series([SInt(0), SInt(1), SInt(2)], [Float(1), NegInf, Float(2)]))
      == Ok([JFloat(1), JStr("-inf"), JFloat(2)])
    ensures PyEqualAll([JFloat(1), JStr("-inf"), JFloat(2)], [JInt(1), JStr("-inf"), JInt(2)])
  {
    ConvertsTo([Float(1), NegInf, Float(2)], [JFloat(1), JStr("-inf"), JFloat(2)]);
  }

  // ----- timestamps -----

  /** A valid date and time is rendered from the digits of its fields. */
  lemma RenderedFields(dt: DateTime, y: string, mo: string, d: string, h: string, mi: string, se: string)
    requires ValidDateTime(dt) && 1 <= dt.date.year <= 9999
    requires |y| == 4 && |mo| == 2 && |d| == 2 && |h| == 2 && |mi| == 2 && |se| == 2
    requires AllDigits(y) && AllDigits(mo) && AllDigits(d) && AllDigits(h) && AllDigits(mi) && AllDigits(se)
    requires Value(y) == dt.date.year && Value(mo) == dt.date.month && Value(d) == dt.date.day
    requires Value(h) == dt.hour && Value(mi) == dt.minute && Value(se) == dt.second
    ensures MinSeconds <= ToTimestamp(dt) <= MaxSeconds
    ensures FormatTimestamp(ToTimestamp(dt)) == Layout(y, mo, d, h, mi, se)
  {
    TimestampRange(dt);
    var t: EpochSeconds := ToTimestamp(dt);
    FromToTimestamp(dt);
    assert CivilOf(t) == dt;
    PaddedOfValue(y);
    PaddedOfValue(mo);
    PaddedOfValue(d);
    PaddedOfValue(h);
    PaddedOfValue(mi);
    PaddedOfValue(se);
  }

  /** The text of the timestamp of `dt`, given the digits of its fields and their layout. */
  lemma TimestampText(t: EpochSeconds, dt: DateTime, y: string, mo: string, d: string, h: string, mi: string,
                      se: string, text: string)
    requires ValidDateTime(dt) && 1 <= dt.date.year <= 9999 && ToTimestamp(dt) == t
    requires |y| == 4 && |mo| == 2 && |d| == 2 && |h| == 2 && |mi| == 2 && |se| == 2
    requires AllDigits(y) && AllDigits(mo) && AllDigits(d) && AllDigits(h) && AllDigits(mi) && AllDigits(se)
    requires Value(y) == dt.date.year && Value(mo) == dt.date.month && Value(d) == dt.date.day
    requires Value(h) == dt.hour && Value(mi) == dt.minute && Value(se) == dt.second
    requires Layout(y, mo, d, h, mi, se) == text
    ensures ConvertValue(Timestamp(t)) == Ok(JStr(text))
  {
    RenderedFields(dt, y, mo, d, h, mi, se);
  }

  lemma EpochInstant()
    ensures ToTimestamp(DateTime(Date(1970, 1, 1), 0, 0, 0)) == 0
    ensures Layout("1970", "01", "01", "00", "00", "00") == "1970-01-01 00:00:00"
  {
  }

  lemma EpochFields()
    ensures AllDigits("1970") && Value("1970") == 1970 && AllDigits("01") && Value("01") == 1
    ensures AllDigits("00") && Value("00") == 0
  {
    ValueOfFourDigits("1970");
    ValueOfTwoDigits("01");
    ValueOfTwoDigits("00");
  }

  /** Timestamp 0 is "1970-01-01 00:00:00". */
  lemma EpochText(t: EpochSeconds)
    requires t == 0
    ensures ConvertValue(Timestamp(t)) == Ok(JStr("1970-01-01 00:00:00"))
  {
    EpochFields();
    EpochInstant();
    TimestampText(t, DateTime(Date(1970, 1, 1), 0, 0, 0), "1970", "01", "01", "00", "00", "00",
      "1970-01-01 00:00:00");
  }

  lemma BillionInstant()
    ensures ToTimestamp(DateTime(Date(2001, 9, 9), 1, 46, 40)) == 1000000000
    ensures Layout("2001", "09", "09", "01", "46", "40") == "2001-09-09 01:46:40"
  {
  }

  lemma BillionFields()
    ensures AllDigits("2001") && Value("2001") == 2001 && AllDigits("09") && Value("09") == 9
    ensures AllDigits("01") && Value("01") == 1 && AllDigits("46") && Value("46") == 46
    ensures AllDigits("40") && Value("40") == 40
  {
    ValueOfFourDigits("2001");
    ValueOfTwoDigits("09");
    ValueOfTwoDigits("01");
    ValueOfTwoDigits("46");
    ValueOfTwoDigits("40");
  }

  /** Timestamp 1e9 is "2001-09-09 01:46:40". */
  lemma BillionText(t: EpochSeconds)
    requires t == 1000000000
    ensures ConvertValue(Timestamp(t)) == Ok(JStr("2001-09-09 01:46:40"))
  {
    BillionFields();
    BillionInstant();
    TimestampText(t, DateTime(Date(2001, 9, 9), 1, 46, 40), "2001", "09", "09", "01", "46", "40",
      "2001-09-09 01:46:40");
  }

  lemma TenBillionInstant()
    ensures ToTimestamp(DateTime(Date(2286, 11, 20), 17, 46, 40)) == 10000000000
    ensures Layout("2286", "11", "20", "17", "46", "40") == "2286-11-20 17:46:40"
  {
  }

  lemma TenBillionFields()
    ensures AllDigits("2286") && Value("2286") == 2286 && AllDigits("11") && Value("11") == 11
    ensures AllDigits("20") && Value("20") == 20 && AllDigits("17") && Value("17") == 17
    ensures AllDigits("46") && Value("46") == 46 && AllDigits("40") && Value("40") == 40
  {
    ValueOfFourDigits("2286");
    ValueOfTwoDigits("11");
    ValueOfTwoDigits("20");
    ValueOfTwoDigits("17");
    ValueOfTwoDigits("46");
    ValueOfTwoDigits("40");
  }

  /** Timestamp 1e10 is "2286-11-20 17:46:40". */
  lemma TenBillionText(t: EpochSeconds)
    requires t == 10000000000
    ensures ConvertValue(Timestamp(t)) == Ok(JStr("2286-11-20 17:46:40"))
  {
    TenBillionFields();
    TenBillionInstant();
    TimestampText(t, DateTime(Date(2286, 11, 20), 17, 46, 40), "2286", "11", "20", "17", "46", "40",
      "2286-11-20 17:46:40");
  }
}
