/**
 * Proleptic Gregorian calendar arithmetic in UTC, as Python's `datetime`
 * performs it for `datetime.utcfromtimestamp`, and the `str()` rendering of
 * the resulting value, "YYYY-MM-DD HH:MM:SS".
 */
module Civil {
  import opened Wrappers
  import opened Decimal

  datatype Date = Date(year: int, month: int, day: int)

  datatype DateTime = DateTime(date: Date, hour: int, minute: int, second: int)

  predicate IsLeap(y: int) { y % 4 == 0 && (y % 100 != 0 || y % 400 == 0) }

  function DaysInMonth(y: int, m: int): (n: int)
    requires 1 <= m <= 12
    ensures 28 <= n <= 31
  {
    if m == 2 then (if IsLeap(y) then 29 else 28)
    else if m == 4 || m == 6 || m == 9 || m == 11 then 30
    else 31
  }

  /** Days of year `y` that come before the first of month `m`. */
  function DaysBeforeMonth(y: int, m: int): int
    requires 1 <= m <= 12
  {
    [0, 31, 59, 90, 120, 151, 181, 212, 243, 273, 304, 334][m - 1]
      + (if m > 2 && IsLeap(y) then 1 else 0)
  }

  /** Days from 0001-01-01 to the first of January of year `y`. */
  function DaysBeforeYear(y: int): int
  {
    var y1 := y - 1;
    y1 * 365 + y1 / 4 - y1 / 100 + y1 / 400
  }

  predicate ValidDate(d: Date) { 1 <= d.month <= 12 && 1 <= d.day <= DaysInMonth(d.year, d.month) }

  predicate ValidDateTime(dt: DateTime)
  {
    ValidDate(dt.date) && 0 <= dt.hour < 24 && 0 <= dt.minute < 60 && 0 <= dt.second < 60
  }

  /** The day number of a date, 0001-01-01 being day 1 (Python's `date.toordinal`). */
  function ToOrdinal(d: Date): int
    requires ValidDate(d)
  {
    DaysBeforeYear(d.year) + DaysBeforeMonth(d.year, d.month) + d.day
  }

  /** Table of days before each month in a common year, indexed 1..12 (index 0 unused). */
  function BeforeMonthTable(m: int): int
    requires 0 <= m <= 12
  {
    [-1, 0, 31, 59, 90, 120, 151, 181, 212, 243, 273, 304, 334][m]
  }

  /** Month lengths in a common year, indexed 1..12 (index 0 unused). */
  function MonthLengthTable(m: int): int
    requires 0 <= m <= 12
  {
    [-1, 31, 28, 31, 30, 31, 30, 31, 31, 30, 31, 30, 31][m]
  }

  /**
   * Month and day of the zero-based day `doy` of a year: first estimate the month as
   * (doy + 50) >> 5, then step back one month when the estimate overshoots.
   */
  function MonthAndDay(year: int, doy: int, leap: bool): Date
    requires 0 <= doy <= 365
  {
    var month := (doy + 50) / 32;
    var preceding := BeforeMonthTable(month) + (if month > 2 && leap then 1 else 0);
    if preceding > doy then
      var m := month - 1;
      var p := preceding - (MonthLengthTable(m) + (if m == 2 && leap then 1 else 0));
      Date(year, m, doy - p + 1)
    else
      Date(year, month, doy - preceding + 1)
  }

  /**
   * The date of day number `n` (Python's `date.fromordinal`): split the days into
   * 400-year, 100-year, 4-year and 1-year cycles; the last day of a 4-year or of a
   * 400-year cycle is the 31st of December of the preceding year.
   */
  function FromOrdinal(n: int): Date
  {
    var n0 := n - 1;
    var n400, r400 := n0 / 146097, n0 % 146097;
    var n100, r100 := r400 / 36524, r400 % 36524;
    var n4, r4 := r100 / 1461, r100 % 1461;
    var n1, r1 := r4 / 365, r4 % 365;
    var year := n400 * 400 + 1 + n100 * 100 + n4 * 4 + n1;
    if n1 == 4 || n100 == 4 then
      Date(year - 1, 12, 31)
    else
      MonthAndDay(year, r1, n1 == 3 && (n4 != 24 || n100 == 3))
  }

  lemma DaysBeforeYearOfCycles(a: int, b: int, c: int, e: int)
    requires 0 <= b <= 3 && 0 <= c <= 24 && 0 <= e <= 3
    ensures DaysBeforeYear(400 * a + 100 * b + 4 * c + e + 1) == 146097 * a + 36524 * b + 1461 * c + 365 * e
  {
    var y1 := 400 * a + 100 * b + 4 * c + e;
    assert y1 / 4 == 100 * a + 25 * b + c;
    assert y1 / 100 == 4 * a + b;
    assert y1 / 400 == a;
  }

  lemma ModOfMultiple(x: int, k: int, q: int, r: int)
    requires k == 4 || k == 100 || k == 400
    requires 0 <= r < k && x == k * q + r
    ensures x % k == r && x / k == q
  {
    if k == 4 {
      assert k * q == 4 * q;
      DivMod4(x, q, r);
    } else if k == 100 {
      assert k * q == 100 * q;
      DivMod100(x, q, r);
    } else {
      assert k * q == 400 * q;
      DivMod400(x, q, r);
    }
  }

  lemma DivMod4(x: int, q: int, r: int)
    requires 0 <= r < 4 && x == 4 * q + r
    ensures x % 4 == r && x / 4 == q
  {
  }

  lemma DivMod100(x: int, q: int, r: int)
    requires 0 <= r < 100 && x == 100 * q + r
    ensures x % 100 == r && x / 100 == q
  {
  }

  lemma DivMod400(x: int, q: int, r: int)
    requires 0 <= r < 400 && x == 400 * q + r
    ensures x % 400 == r && x / 400 == q
  {
  }

  lemma LeapOfCycles(a: int, b: int, c: int, e: int)
    requires 0 <= b <= 3 && 0 <= c <= 24 && 0 <= e <= 3
    ensures IsLeap(400 * a + 100 * b + 4 * c + e + 1) <==> e == 3 && (c != 24 || b == 3)
  {
    var y := 400 * a + 100 * b + 4 * c + e + 1;
    if e < 3 {
      ModOfMultiple(y, 4, 100 * a + 25 * b + c, e + 1);
    } else {
      ModOfMultiple(y, 4, 100 * a + 25 * b + c + 1, 0);
      if c < 24 {
        ModOfMultiple(y, 100, 4 * a + b, 4 * (c + 1));
      } else {
        ModOfMultiple(y, 100, 4 * a + b + 1, 0);
        if b < 3 {
          ModOfMultiple(y, 400, a, 100 * (b + 1));
        } else {
          ModOfMultiple(y, 400, a + 1, 0);
        }
      }
    }
  }

  lemma MonthAndDayCorrect(year: int, doy: int)
    requires 0 <= doy < (if IsLeap(year) then 366 else 365)
    ensures var d := MonthAndDay(year, doy, IsLeap(year));
      d.year == year && ValidDate(d) && DaysBeforeMonth(year, d.month) + d.day - 1 == doy
  {
    var leap := IsLeap(year);
    if doy + 50 < 32 * 5 {
      MonthAndDayEarly(year, doy, leap);
    } else if doy + 50 < 32 * 9 {
      MonthAndDayMiddle(year, doy, leap);
    } else {
      MonthAndDayLate(year, doy, leap);
    }
    TablesAgree(year, MonthAndDay(year, doy, leap).month);
  }

  /** The two tables agree with DaysBeforeMonth and DaysInMonth. */
  lemma TablesAgree(year: int, m: int)
    requires 1 <= m <= 12
    ensures DaysBeforeMonth(year, m) == BeforeMonthTable(m) + (if m > 2 && IsLeap(year) then 1 else 0)
    ensures DaysInMonth(year, m) == MonthLengthTable(m) + (if m == 2 && IsLeap(year) then 1 else 0)
  {
  }

  /** What MonthAndDay computes, in terms of the two month tables. */
  predicate MonthAndDayFits(d: Date, year: int, doy: int, leap: bool)
  {
    d.year == year && 1 <= d.month <= 12
    && 1 <= d.day <= MonthLengthTable(d.month) + (if d.month == 2 && leap then 1 else 0)
    && BeforeMonthTable(d.month) + (if d.month > 2 && leap then 1 else 0) + d.day - 1 == doy
  }

  /** Days of January to April: the month estimate is 1 to 4. */
  lemma MonthAndDayEarly(year: int, doy: int, leap: bool)
    requires 0 <= doy < (if leap then 366 else 365) && doy + 50 < 32 * 5
    ensures MonthAndDayFits(MonthAndDay(year, doy, leap), year, doy, leap)
  {
    var month := (doy + 50) / 32;
    assert 1 <= month <= 4;
  }

  /** Days of April to August: the month estimate is 5 to 8. */
  lemma MonthAndDayMiddle(year: int, doy: int, leap: bool)
    requires 0 <= doy < (if leap then 366 else 365) && 32 * 5 <= doy + 50 < 32 * 9
    ensures MonthAndDayFits(MonthAndDay(year, doy, leap), year, doy, leap)
  {
    var month := (doy + 50) / 32;
    assert 5 <= month <= 8;
  }

  /** Days of August to December: the month estimate is 9 to 12. */
  lemma MonthAndDayLate(year: int, doy: int, leap: bool)
    requires 0 <= doy < (if leap then 366 else 365) && 32 * 9 <= doy + 50
    ensures MonthAndDayFits(MonthAndDay(year, doy, leap), year, doy, leap)
  {
    var month := (doy + 50) / 32;
    assert 9 <= month <= 12;
  }

  /** The cycle decomposition FromOrdinal computes, with the bounds each part keeps. */
  lemma OrdinalCycles(n: int) returns (a: int, b: int, c: int, e: int, r: int)
    ensures n - 1 == 146097 * a + 36524 * b + 1461 * c + 365 * e + r
    ensures 0 <= b <= 4 && 0 <= c <= 24 && 0 <= e <= 4 && 0 <= r < 365
    ensures b == 4 ==> c == 0 && e == 0 && r == 0
    ensures e == 4 ==> r == 0 && b <= 3 && c <= 23
    ensures FromOrdinal(n) == if e == 4 || b == 4 then Date(400 * a + 100 * b + 4 * c + e, 12, 31)
      else MonthAndDay(400 * a + 100 * b + 4 * c + e + 1, r, e == 3 && (c != 24 || b == 3))
  {
    var n0 := n - 1;
    var r400, r100, r4;
    a, r400 := n0 / 146097, n0 % 146097;
    b, r100 := r400 / 36524, r400 % 36524;
    c, r4 := r100 / 1461, r100 % 1461;
    e, r := r4 / 365, r4 % 365;
  }

  lemma LastDayOfCycle(a: int, b: int, c: int)
    requires 0 <= b <= 3 && 0 <= c <= 24 && (c == 24 ==> b == 3)
    ensures var d := Date(400 * a + 100 * b + 4 * c + 4, 12, 31);
      ValidDate(d) && ToOrdinal(d) == 146097 * a + 36524 * b + 1461 * c + 1461
  {
    DaysBeforeYearOfCycles(a, b, c, 3);
    LeapOfCycles(a, b, c, 3);
  }

  lemma DayWithinCycle(a: int, b: int, c: int, e: int, r: int)
    requires 0 <= b <= 3 && 0 <= c <= 24 && 0 <= e <= 3 && 0 <= r < 365
    ensures var d := MonthAndDay(400 * a + 100 * b + 4 * c + e + 1, r, e == 3 && (c != 24 || b == 3));
      ValidDate(d) && ToOrdinal(d) == 146097 * a + 36524 * b + 1461 * c + 365 * e + r + 1
  {
    var year := 400 * a + 100 * b + 4 * c + e + 1;
    DaysBeforeYearOfCycles(a, b, c, e);
    LeapOfCycles(a, b, c, e);
    MonthAndDayCorrect(year, r);
  }

  /** Every day number names a valid date, and that date's day number is the one given. */
  lemma FromOrdinalCorrect(n: int)
    ensures ValidDate(FromOrdinal(n)) && ToOrdinal(FromOrdinal(n)) == n
  {
    var a, b, c, e, r := OrdinalCycles(n);
    if b == 4 {
      LastDayOfCycle(a, 3, 24);
    } else if e == 4 {
      LastDayOfCycle(a, b, c);
    } else {
      DayWithinCycle(a, b, c, e, r);
    }
  }

  function DaysInYear(y: int): int { if IsLeap(y) then 366 else 365 }

  lemma DivStep(x: int, k: int)
    requires k == 4 || k == 100 || k == 400
    ensures x / k - (x - 1) / k == if x % k == 0 then 1 else 0
  {
    var q, r := x / k, x % k;
    assert x == k * q + r;
    if r == 0 {
      ModOfMultiple(x - 1, k, q - 1, k - 1);
    } else {
      ModOfMultiple(x - 1, k, q, r - 1);
    }
  }

  lemma DaysBeforeNextYear(y: int)
    ensures DaysBeforeYear(y + 1) == DaysBeforeYear(y) + DaysInYear(y)
  {
    DivStep(y, 4);
    DivStep(y, 100);
    DivStep(y, 400);
    var d4, d100, d400 := y / 4 - (y - 1) / 4, y / 100 - (y - 1) / 100, y / 400 - (y - 1) / 400;
    assert DaysBeforeYear(y + 1) - DaysBeforeYear(y) == 365 + d4 - d100 + d400;
    LeapDivisors(y);
  }

  /** A multiple of 400 is one of 100, and a multiple of 100 is one of 4. */
  lemma LeapDivisors(y: int)
    ensures y % 400 == 0 ==> y % 100 == 0
    ensures y % 100 == 0 ==> y % 4 == 0
  {
    if y % 400 == 0 {
      var q := y / 400;
      ModOfMultiple(y, 100, 4 * q, 0);
    }
    if y % 100 == 0 {
      var q := y / 100;
      ModOfMultiple(y, 4, 25 * q, 0);
    }
  }

  lemma {:induction false} DaysBeforeYearMonotone(a: int, b: int)
    requires a <= b
    ensures DaysBeforeYear(a) + 365 * (b - a) <= DaysBeforeYear(b)
    decreases b - a
  {
    if a < b {
      DaysBeforeYearMonotone(a, b - 1);
      DaysBeforeNextYear(b - 1);
    }
  }

  lemma DayOfYearBounds(d: Date)
    requires ValidDate(d)
    ensures 1 <= DaysBeforeMonth(d.year, d.month) + d.day <= DaysInYear(d.year)
  {
  }

  lemma MonthsOrdered(y: int, m1: int, d1: int, m2: int, d2: int)
    requires ValidDate(Date(y, m1, d1)) && ValidDate(Date(y, m2, d2)) && m1 < m2
    ensures DaysBeforeMonth(y, m1) + d1 < DaysBeforeMonth(y, m2) + d2
  {
  }

  /** A date of an earlier year has a smaller day number. */
  lemma YearsOrdered(d1: Date, d2: Date)
    requires ValidDate(d1) && ValidDate(d2) && d1.year < d2.year
    ensures ToOrdinal(d1) < ToOrdinal(d2)
  {
    DayOfYearBounds(d1);
    DayOfYearBounds(d2);
    DaysBeforeYearMonotone(d1.year + 1, d2.year);
    DaysBeforeNextYear(d1.year);
  }

  /** Two valid dates with the same day number are the same date. */
  lemma ToOrdinalInjective(d1: Date, d2: Date)
    requires ValidDate(d1) && ValidDate(d2) && ToOrdinal(d1) == ToOrdinal(d2)
    ensures d1 == d2
  {
    if d1.year < d2.year {
      YearsOrdered(d1, d2);
    } else if d2.year < d1.year {
      YearsOrdered(d2, d1);
    } else if d1.month < d2.month {
      MonthsOrdered(d1.year, d1.month, d1.day, d2.month, d2.day);
    } else if d2.month < d1.month {
      MonthsOrdered(d1.year, d2.month, d2.day, d1.month, d1.day);
    }
  }

  /** The converse round trip: a valid date is recovered from its day number. */
  lemma FromToOrdinal(d: Date)
    requires ValidDate(d)
    ensures FromOrdinal(ToOrdinal(d)) == d
  {
    FromOrdinalCorrect(ToOrdinal(d));
    ToOrdinalInjective(FromOrdinal(ToOrdinal(d)), d);
  }

  /** Day number of 1970-01-01, the Unix epoch. */
  const EpochOrdinal: int := 719163

  /** 0001-01-01 00:00:00 and 9999-12-31 23:59:59 in seconds since the epoch: Python's datetime range. */
  const MinSeconds: int := -62135596800
  const MaxSeconds: int := 253402300799

  /** Seconds since the Unix epoch that Python's `datetime` can represent. */
  type EpochSeconds = t: int | MinSeconds <= t <= MaxSeconds

  /** `datetime.utcfromtimestamp(t)`: floor-divide into whole days and the seconds of that day. */
  function FromTimestamp(t: int): DateTime
  {
    var secs := t % 86400;
    DateTime(FromOrdinal(DayNumber(t)), secs / 3600, secs % 3600 / 60, secs % 60)
  }

  /** The day number of the day a timestamp falls in. */
  function DayNumber(t: int): int
  {
    t / 86400 + EpochOrdinal
  }

  /** The seconds since the epoch that a (valid) UTC date and time denotes. */
  function ToTimestamp(dt: DateTime): int
    requires ValidDate(dt.date)
  {
    (ToOrdinal(dt.date) - EpochOrdinal) * 86400 + dt.hour * 3600 + dt.minute * 60 + dt.second
  }

  lemma EpochOrdinalIsJanuaryFirst1970()
    ensures ToOrdinal(Date(1970, 1, 1)) == EpochOrdinal
  {
  }

  /** Every timestamp splits into a valid date and time of day that denote it again. */
  lemma FromTimestampCorrect(t: int)
    ensures ValidDateTime(FromTimestamp(t)) && ToTimestamp(FromTimestamp(t)) == t
  {
    var dt := FromTimestamp(t);
    FromOrdinalCorrect(DayNumber(t));
    TimeOfDay(t % 86400);
    Recombine(t, t / 86400, t % 86400, ToOrdinal(dt.date) - EpochOrdinal, dt.hour, dt.minute, dt.second);
  }

  lemma Recombine(t: int, days: int, secs: int, d: int, h: int, m: int, s: int)
    requires days == t / 86400 && secs == t % 86400 && d == days
    requires secs == h * 3600 + m * 60 + s
    ensures d * 86400 + h * 3600 + m * 60 + s == t
  {
  }

  lemma TimeOfDay(secs: int)
    requires 0 <= secs < 86400
    ensures 0 <= secs / 3600 < 24 && 0 <= secs % 3600 / 60 < 60 && 0 <= secs % 60 < 60
    ensures secs == (secs / 3600) * 3600 + (secs % 3600 / 60) * 60 + secs % 60
  {
  }

  lemma DaysBeforeYearBounds(y: int)
    ensures y <= 0 ==> DaysBeforeYear(y) <= -366
    ensures y >= 10000 ==> DaysBeforeYear(y) >= 3652059
  {
  }

  /** A timestamp in Python's datetime range falls in a year from 1 to 9999. */
  lemma YearOfTimestamp(t: EpochSeconds)
    ensures 1 <= FromTimestamp(t).date.year <= 9999
  {
    var d := FromTimestamp(t).date;
    FromTimestampCorrect(t);
    FromOrdinalCorrect(DayNumber(t));
    assert 1 <= DayNumber(t) <= 3652059;
    DaysBeforeYearBounds(d.year);
  }

  /** The six fields joined as "YYYY-MM-DD HH:MM:SS". */
  function Layout(y: string, mo: string, d: string, h: string, mi: string, se: string): (s: string)
    requires |y| == 4 && |mo| == 2 && |d| == 2 && |h| == 2 && |mi| == 2 && |se| == 2
    ensures |s| == 19
    ensures s[4] == '-' && s[7] == '-' && s[10] == ' ' && s[13] == ':' && s[16] == ':'
    ensures s[0..4] == y && s[5..7] == mo && s[8..10] == d
    ensures s[11..13] == h && s[14..16] == mi && s[17..19] == se
  {
    var date := y + "-" + mo + "-" + d;
    var time := h + ":" + mi + ":" + se;
    assert date[0..4] == y && date[5..7] == mo && date[8..10] == d;
    assert time[0..2] == h && time[3..5] == mi && time[6..8] == se;
    var s := date + " " + time;
    assert s[0..10] == date && s[11..19] == time;
    assert s[0..4] == date[0..4] && s[5..7] == date[5..7] && s[8..10] == date[8..10];
    assert s[11..13] == time[0..2] && s[14..16] == time[3..5] && s[17..19] == time[6..8];
    s
  }

  /** The date and time of a timestamp in Python's range, with every field in its range. */
  function CivilOf(t: EpochSeconds): (dt: DateTime)
    ensures ValidDateTime(dt) && 1 <= dt.date.year <= 9999 && ToTimestamp(dt) == t
  {
    YearOfTimestamp(t);
    FromTimestampCorrect(t);
    FromTimestamp(t)
  }

  /** `str(datetime.utcfromtimestamp(t))`: "%04d-%02d-%02d %02d:%02d:%02d". */
  function FormatTimestamp(t: EpochSeconds): (s: string)
    ensures |s| == 19
    ensures s[4] == '-' && s[7] == '-' && s[10] == ' ' && s[13] == ':' && s[16] == ':'
  {
    var dt := CivilOf(t);
    FieldWidth(dt.date.year, 4);
    FieldWidth(dt.date.month, 2);
    FieldWidth(dt.date.day, 2);
    FieldWidth(dt.hour, 2);
    FieldWidth(dt.minute, 2);
    FieldWidth(dt.second, 2);
    Layout(Padded(dt.date.year, 4), Padded(dt.date.month, 2), Padded(dt.date.day, 2),
      Padded(dt.hour, 2), Padded(dt.minute, 2), Padded(dt.second, 2))
  }

  lemma FieldWidth(n: nat, width: nat)
    requires 1 <= width && n < Pow10(width)
    ensures |Padded(n, width)| == width
  {
    ShowLength(n, width);
  }

  /** Reads "YYYY-MM-DD HH:MM:SS" back into seconds since the epoch; fails on anything else. */
  function ParseTimestamp(s: string): Option<int>
  {
    if |s| != 19 || s[4] != '-' || s[7] != '-' || s[10] != ' ' || s[13] != ':' || s[16] != ':'
      || !AllDigits(s[0..4]) || !AllDigits(s[5..7]) || !AllDigits(s[8..10])
      || !AllDigits(s[11..13]) || !AllDigits(s[14..16]) || !AllDigits(s[17..19])
    then None
    else
      var date := Date(Value(s[0..4]), Value(s[5..7]), Value(s[8..10]));
      var dt := DateTime(date, Value(s[11..13]), Value(s[14..16]), Value(s[17..19]));
      if date.year < 1 || !ValidDateTime(dt) then None else Some(ToTimestamp(dt))
  }

  /** Round trip: the rendered timestamp reads back as the same instant. */
  lemma ParseFormatTimestamp(t: EpochSeconds)
    ensures ParseTimestamp(FormatTimestamp(t)) == Some(t)
  {
    var dt := CivilOf(t);
    FieldWidth(dt.date.year, 4);
    FieldWidth(dt.date.month, 2);
    FieldWidth(dt.date.day, 2);
    FieldWidth(dt.hour, 2);
    FieldWidth(dt.minute, 2);
    FieldWidth(dt.second, 2);
    ValueOfPadded(dt.date.year, 4);
    ValueOfPadded(dt.date.month, 2);
    ValueOfPadded(dt.date.day, 2);
    ValueOfPadded(dt.hour, 2);
    ValueOfPadded(dt.minute, 2);
    ValueOfPadded(dt.second, 2);
  }

  lemma TimestampSplit(days: int, secs: int)
    requires 0 <= secs < 86400
    ensures (days * 86400 + secs) / 86400 == days && (days * 86400 + secs) % 86400 == secs
  {
  }

  lemma TimeFields(h: int, m: int, s: int)
    requires 0 <= h < 24 && 0 <= m < 60 && 0 <= s < 60
    ensures var secs := h * 3600 + m * 60 + s;
      0 <= secs < 86400 && secs / 3600 == h && secs % 3600 / 60 == m && secs % 60 == s
  {
  }

  /** The converse round trip: a valid date and time is recovered from its timestamp. */
  lemma FromToTimestamp(dt: DateTime)
    requires ValidDateTime(dt)
    ensures FromTimestamp(ToTimestamp(dt)) == dt
  {
    DayNumberOf(dt);
    FromToOrdinal(dt.date);
  }

  /** The day number and the time of day that a valid date and time's timestamp splits into. */
  lemma DayNumberOf(dt: DateTime)
    requires ValidDateTime(dt)
    ensures DayNumber(ToTimestamp(dt)) == ToOrdinal(dt.date)
    ensures var secs := ToTimestamp(dt) % 86400;
      secs / 3600 == dt.hour && secs % 3600 / 60 == dt.minute && secs % 60 == dt.second
  {
    var secs := dt.hour * 3600 + dt.minute * 60 + dt.second;
    TimeFields(dt.hour, dt.minute, dt.second);
    TimestampSplit(ToOrdinal(dt.date) - EpochOrdinal, secs);
  }

  /** Valid dates of years 1 to 9999 lie in Python's datetime range. */
  lemma TimestampRange(dt: DateTime)
    requires ValidDateTime(dt) && 1 <= dt.date.year <= 9999
    ensures MinSeconds <= ToTimestamp(dt) <= MaxSeconds
  {
    DayOfYearBounds(dt.date);
    DaysBeforeYearMonotone(1, dt.date.year);
    DaysBeforeYearMonotone(dt.date.year + 1, 10000);
    DaysBeforeNextYear(dt.date.year);
  }

  /** Two strings of the timestamp layout with equal fields are equal. */
  lemma SameLayout(r: string, s: string)
    requires |r| == 19 && |s| == 19
    requires r[4] == s[4] && r[7] == s[7] && r[10] == s[10] && r[13] == s[13] && r[16] == s[16]
    requires r[0..4] == s[0..4] && r[5..7] == s[5..7] && r[8..10] == s[8..10]
    requires r[11..13] == s[11..13] && r[14..16] == s[14..16] && r[17..19] == s[17..19]
    ensures r == s
  {
    forall i | 0 <= i < 19 ensures r[i] == s[i] {
      if i < 4 { assert r[i] == r[0..4][i]; assert s[i] == s[0..4][i]; }
      else if 5 <= i < 7 { assert r[i] == r[5..7][i - 5]; assert s[i] == s[5..7][i - 5]; }
      else if 8 <= i < 10 { assert r[i] == r[8..10][i - 8]; assert s[i] == s[8..10][i - 8]; }
      else if 11 <= i < 13 { assert r[i] == r[11..13][i - 11]; assert s[i] == s[11..13][i - 11]; }
      else if 14 <= i < 16 { assert r[i] == r[14..16][i - 14]; assert s[i] == s[14..16][i - 14]; }
      else if 17 <= i { assert r[i] == r[17..19][i - 17]; assert s[i] == s[17..19][i - 17]; }
    }
  }

  /** The date and time a well-formed timestamp string names. */
  function FieldsOf(s: string): DateTime
    requires |s| == 19 && AllDigits(s[0..4]) && AllDigits(s[5..7]) && AllDigits(s[8..10])
    requires AllDigits(s[11..13]) && AllDigits(s[14..16]) && AllDigits(s[17..19])
  {
    DateTime(Date(Value(s[0..4]), Value(s[5..7]), Value(s[8..10])),
      Value(s[11..13]), Value(s[14..16]), Value(s[17..19]))
  }

  lemma ParsedFields(s: string)
    requires ParseTimestamp(s).Some?
    ensures |s| == 19 && AllDigits(s[0..4]) && AllDigits(s[5..7]) && AllDigits(s[8..10])
    ensures AllDigits(s[11..13]) && AllDigits(s[14..16]) && AllDigits(s[17..19])
    ensures s[4] == '-' && s[7] == '-' && s[10] == ' ' && s[13] == ':' && s[16] == ':'
    ensures ValidDateTime(FieldsOf(s)) && 1 <= FieldsOf(s).date.year <= 9999
    ensures ParseTimestamp(s) == Some(ToTimestamp(FieldsOf(s)))
  {
    ValueBound(s[0..4]);
  }

  /** The other round trip: a string that parses is the rendering of the instant it denotes. */
  lemma FormatParseTimestamp(s: string)
    requires ParseTimestamp(s).Some?
    ensures MinSeconds <= ParseTimestamp(s).value <= MaxSeconds
    ensures FormatTimestamp(ParseTimestamp(s).value) == s
  {
    ParsedFields(s);
    var dt := FieldsOf(s);
    TimestampRange(dt);
    var t: EpochSeconds := ToTimestamp(dt);
    FromToTimestamp(dt);
    assert CivilOf(t) == dt;
    PaddedOfValue(s[0..4]);
    PaddedOfValue(s[5..7]);
    PaddedOfValue(s[8..10]);
    PaddedOfValue(s[11..13]);
    PaddedOfValue(s[14..16]);
    PaddedOfValue(s[17..19]);
    SameLayout(FormatTimestamp(t), s);
  }
}
