/** `format_timestamp`: `datetime.strptime(ts[:8], '%Y%m%d').strftime('%Y-%m-%d')`,
    falling back to `ts[:8]` when parsing raises. The parser is modelled as
    the regular expression the standard library builds for `%Y%m%d`
    (`\d\d\d\d`, then `1[0-2]|0[1-9]|[1-9]`, then
    `3[01]|[12]\d|0[1-9]|[1-9]| [1-9]`), matched from the start with
    left-to-right backtracking, followed by its checks that the whole input
    was consumed and that the date exists. */
module Dates {
  import opened Wrappers
  import opened Text
  import opened Decimal

  datatype Date = Date(year: nat, month: nat, day: nat)

  /** The Gregorian leap-year rule. */
  predicate IsLeapYear(y: int)
  {
    y % 4 == 0 && (y % 100 != 0 || y % 400 == 0)
  }

  function DaysInMonth(y: int, m: int): int
    requires 1 <= m <= 12
  {
    if m == 2 then (if IsLeapYear(y) then 29 else 28)
    else if m == 4 || m == 6 || m == 9 || m == 11 then 30
    else 31
  }

  /** A date `datetime` can represent (years 1 to 9999). */
  predicate IsValidDate(d: Date)
  {
    1 <= d.year <= 9999 && 1 <= d.month <= 12 && 1 <= d.day <= DaysInMonth(d.year, d.month)
  }

  /** What one regex group matched: its `int()` value and its length. */
  datatype Field = Field(value: nat, width: nat)

  /** The `%d` group: the first alternative of
      `3[01]|[12]\d|0[1-9]|[1-9]| [1-9]` that matches at the start of `u`.
      `int(' 5')` is 5. */
  function MatchDay(u: string): (r: Option<Field>)
    ensures r.Some? ==> 1 <= r.value.value <= 31 && 1 <= r.value.width <= 2 && r.value.width <= |u|
  {
    if |u| >= 2 && u[0] == '3' && '0' <= u[1] <= '1' then Some(Field(30 + DigitValue(u[1]), 2))
    else if |u| >= 2 && '1' <= u[0] <= '2' && IsDigit(u[1]) then Some(Field(10 * DigitValue(u[0]) + DigitValue(u[1]), 2))
    else if |u| >= 2 && u[0] == '0' && '1' <= u[1] <= '9' then Some(Field(DigitValue(u[1]), 2))
    else if |u| >= 1 && '1' <= u[0] <= '9' then Some(Field(DigitValue(u[0]), 1))
    else if |u| >= 2 && u[0] == ' ' && '1' <= u[1] <= '9' then Some(Field(DigitValue(u[1]), 2))
    else None
  }

  datatype MonthDay = MonthDay(month: nat, day: nat, width: nat)

  /** The `%m` group `1[0-2]|0[1-9]|[1-9]` followed by the `%d` group. A month
      alternative is abandoned for the next one only when no day alternative
      matches after it; the first day alternative that matches is kept even
      if it leaves characters over. */
  function MatchMonthDay(v: string): (r: Option<MonthDay>)
    ensures r.Some? ==> 1 <= r.value.month <= 12 && 1 <= r.value.day <= 31 && 2 <= r.value.width <= |v|
  {
    var afterTwo := if |v| >= 2 then MatchDay(v[2..]) else None;
    var afterOne := if |v| >= 1 then MatchDay(v[1..]) else None;
    if |v| >= 2 && v[0] == '1' && '0' <= v[1] <= '2' && afterTwo.Some? then
      Some(MonthDay(10 + DigitValue(v[1]), afterTwo.value.value, 2 + afterTwo.value.width))
    else if |v| >= 2 && v[0] == '0' && '1' <= v[1] <= '9' && afterTwo.Some? then
      Some(MonthDay(DigitValue(v[1]), afterTwo.value.value, 2 + afterTwo.value.width))
    else if |v| >= 1 && '1' <= v[0] <= '9' && afterOne.Some? then
      Some(MonthDay(DigitValue(v[0]), afterOne.value.value, 1 + afterOne.value.width))
    else None
  }

  /** `datetime.strptime(s, '%Y%m%d')`, with `None` for the `ValueError` it
      raises: no match, unconverted characters left over, year 0, or a day
      past the end of its month. Whatever it accepts is a real date. */
  function ParseDate(s: string): (r: Option<Date>)
    ensures r.Some? ==> IsValidDate(r.value)
  {
    if |s| < 4 || !AllDigits(s[..4]) then None
    else match MatchMonthDay(s[4..])
      case None => None
      case Some(md) =>
        ValueBound(s[..4]);
        var year := Value(s[..4]);
        if 4 + md.width != |s| then None
        else if year < 1 || md.day > DaysInMonth(year, md.month) then None
        else Some(Date(year, md.month, md.day))
  }

  /** `date.strftime('%Y-%m-%d')`, every field zero-padded. */
  function FormatDate(d: Date): string
  {
    Digits(d.year, 4) + "-" + Digits(d.month, 2) + "-" + Digits(d.day, 2)
  }

  /** The first eight characters unchanged, or a ten-character dashed date
      whose year is the timestamp's own first four characters; the dashed
      form is produced exactly when the eight characters parse. */
  function FormatTimestamp(t: string): (r: string)
    ensures ParseDate(Take(t, 8)).None? <==> r == Take(t, 8)
    ensures ParseDate(Take(t, 8)).Some? ==>
      |t| >= 4 && |r| == 10 && r[4] == '-' && r[7] == '-' && r[..4] == t[..4]
  {
    var s := Take(t, 8);
    match ParseDate(s)
    case Some(d) =>
      DigitsOfValue(s[..4]);
      assert s[..4] == t[..4];
      FormatDate(d)
    case None => s
  }

  lemma TwoDigitValue(u: string)
    requires |u| == 2 && AllDigits(u)
    ensures Value(u) == 10 * DigitValue(u[0]) + DigitValue(u[1])
  {
    var a := u[..1];
    assert a[0] == u[0] && |a[..0]| == 0;
    assert Value(a) == 10 * Value(a[..0]) + DigitValue(a[0]);
  }

  lemma FourDigitValue(u: string)
    requires |u| == 4 && AllDigits(u)
    ensures Value(u) == 1000 * DigitValue(u[0]) + 100 * DigitValue(u[1]) + 10 * DigitValue(u[2]) + DigitValue(u[3])
  {
    var u3, u2 := u[..3], u[..2];
    assert u3[..2] == u2 && u3[2] == u[2];
    TwoDigitValue(u2);
  }

  /** On eight ASCII digits `YYYYMMDD` the result is `YYYY-MM-DD` when that
      is a Gregorian date and the eight characters unchanged otherwise. */
  lemma FormatEightDigits(t: string)
    requires |t| >= 8 && AllDigits(t[..8])
    ensures var d := Date(Value(t[..4]), Value(t[4..6]), Value(t[6..8]));
      && (IsValidDate(d) ==> FormatTimestamp(t) == t[..4] + "-" + t[4..6] + "-" + t[6..8])
      && (!IsValidDate(d) ==> FormatTimestamp(t) == t[..8])
  {
    var s := t[..8];
    var v := s[4..];
    assert Take(t, 8) == s;
    assert s[..4] == t[..4];
    assert v[..2] == t[4..6] && v[2..] == t[6..8];
    TwoDigitValue(t[4..6]);
    TwoDigitValue(t[6..8]);
    var month := Value(t[4..6]);
    var day := Value(t[6..8]);
    var d := Date(Value(t[..4]), month, day);
    assert MatchDay(v[2..]).Some? && MatchDay(v[2..]).value.width == 2 <==> 1 <= day <= 31;
    assert MatchDay(v[2..]).Some? && MatchDay(v[2..]).value.width == 2 ==> MatchDay(v[2..]).value.value == day;
    assert MatchMonthDay(v).Some? && MatchMonthDay(v).value.width == 4 <==> 1 <= month <= 12 && 1 <= day <= 31;
    if IsValidDate(d) {
      assert ParseDate(s) == Some(d);
      DigitsOfValue(t[..4]);
      DigitsOfValue(t[4..6]);
      DigitsOfValue(t[6..8]);
    } else {
      assert ParseDate(s).None?;
    }
  }

  /** `last_snapshot.startswith('202')` says the same about the formatted
      date as about the raw timestamp. */
  lemma FormatKeepsDecadePrefix(t: string)
    ensures StartsWith(FormatTimestamp(t), "202") <==> StartsWith(t, "202")
  {
    var r := FormatTimestamp(t);
    if ParseDate(Take(t, 8)).Some? {
      assert r[..3] == r[..4][..3] == t[..4][..3] == t[..3];
    } else if |t| >= 3 {
      assert r[..3] == t[..3];
    }
  }

  /** A malformed timestamp is returned as it is. */
  lemma FormatMalformed()
    ensures FormatTimestamp("abc") == "abc"
  {
    assert !IsDigit("abc"[0]);
  }

  /** A day that does not exist in its month falls back to the slice. */
  lemma FormatNonexistentDay()
    ensures FormatTimestamp("20230229120000") == "20230229"
  {
    var t, s := "20230229120000", "20230229";
    assert Take(t, 8) == s;
    assert s[..4] == "2023" && s[4..] == "0229" && "0229"[2..] == "29";
    FourDigitValue("2023");
    assert MatchDay("29") == Some(Field(29, 2));
    assert MatchMonthDay("0229") == Some(MonthDay(2, 29, 4));
    assert DaysInMonth(2023, 2) == 28;
    assert ParseDate(s).None?;
  }

  lemma LeapDayParses(s: string)
    requires s == "20240229"
    ensures ParseDate(s) == Some(Date(2024, 2, 29))
  {
    assert s[..4] == "2024" && s[4..] == "0229" && "0229"[2..] == "29";
    FourDigitValue("2024");
    assert MatchDay("29") == Some(Field(29, 2));
    assert MatchMonthDay("0229") == Some(MonthDay(2, 29, 4));
    assert DaysInMonth(2024, 2) == 29;
  }

  /** A date whose fields are the values of the digit strings `y`, `m` and
      `d` is written as those strings joined by dashes. */
  lemma FormatDateOf(date: Date, y: string, m: string, d: string)
    requires |y| == 4 && |m| == 2 && |d| == 2 && AllDigits(y) && AllDigits(m) && AllDigits(d)
    requires date == Date(Value(y), Value(m), Value(d))
    ensures FormatDate(date) == y + "-" + m + "-" + d
  {
    DigitsOfValue(y);
    DigitsOfValue(m);
    DigitsOfValue(d);
  }

  /** Every representable date survives the round trip: its eight digits
      `YYYYMMDD`, given to `format_timestamp`, come back as `FormatDate`
      writes it. */
  lemma FormatDateRoundTrip(d: Date)
    requires IsValidDate(d)
    ensures FormatTimestamp(Digits(d.year, 4) + Digits(d.month, 2) + Digits(d.day, 2)) == FormatDate(d)
  {
    var y, m, dd := Digits(d.year, 4), Digits(d.month, 2), Digits(d.day, 2);
    var t := y + m + dd;
    assert t[..4] == y && t[4..6] == m && t[6..8] == dd && t[..8] == t;
    assert Pow10(2) == 100 && Pow10(4) == 10000;
    ValueOfDigits(d.year, 4);
    ValueOfDigits(d.month, 2);
    ValueOfDigits(d.day, 2);
    FormatEightDigits(t);
  }

  lemma DateFields(y: string, m: string, d: string, year: int, month: int, day: int)
    requires |y| == 4 && |m| == 2 && |d| == 2 && AllDigits(y) && AllDigits(m) && AllDigits(d)
    requires 1000 * DigitValue(y[0]) + 100 * DigitValue(y[1]) + 10 * DigitValue(y[2]) + DigitValue(y[3]) == year
    requires 10 * DigitValue(m[0]) + DigitValue(m[1]) == month
    requires 10 * DigitValue(d[0]) + DigitValue(d[1]) == day
    ensures Date(Value(y), Value(m), Value(d)) == Date(year, month, day)
  {
    FourDigitValue(y);
    TwoDigitValue(m);
    TwoDigitValue(d);
  }

  /** February 29th of a leap year is formatted. */
  lemma FormatLeapDay()
    ensures FormatTimestamp("20240229120000") == "2024-02-29"
  {
    var t, s := "20240229120000", "20240229";
    assert Take(t, 8) == s;
    LeapDayParses(s);
    DateFields("2024", "02", "29", 2024, 2, 29);
    FormatDateOf(Date(2024, 2, 29), "2024", "02", "29");
  }

  lemma ShortDayParses(s: string)
    requires s == "2020011"
    ensures ParseDate(s) == Some(Date(2020, 1, 1))
  {
    assert s[..4] == "2020";
    FourDigitValue("2020");
    assert s[4..] == "011" && "011"[2..] == "1";
    assert MatchDay("1") == Some(Field(1, 1));
    assert MatchMonthDay("011") == Some(MonthDay(1, 1, 3));
  }

  lemma SpacedDayParses(s: string)
    requires s == "202001 5"
    ensures ParseDate(s) == Some(Date(2020, 1, 5))
  {
    assert s[..4] == "2020";
    FourDigitValue("2020");
    assert s[4..] == "01 5" && "01 5"[2..] == " 5";
    assert MatchDay(" 5") == Some(Field(5, 2));
    assert MatchMonthDay("01 5") == Some(MonthDay(1, 5, 4));
  }

  /** A slice the regex accepts with a one-digit day is formatted too:
      `2020011` parses as January 1st. */
  lemma FormatShortDay()
    ensures FormatTimestamp("2020011") == "2020-01-01"
  {
    var a := "2020011";
    assert Take(a, 8) == a;
    ShortDayParses(a);
    DateFields("2020", "01", "01", 2020, 1, 1);
    FormatDateOf(Date(2020, 1, 1), "2020", "01", "01");
  }

  /** So is one whose day is padded with a space: `202001 5` parses as
      January 5th. */
  lemma FormatSpacedDay()
    ensures FormatTimestamp("202001 5") == "2020-01-05"
  {
    var b := "202001 5";
    assert Take(b, 8) == b;
    SpacedDayParses(b);
    DateFields("2020", "01", "05", 2020, 1, 5);
    FormatDateOf(Date(2020, 1, 5), "2020", "01", "05");
  }
}
