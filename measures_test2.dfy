/** The interval arithmetic of the ehrQL measures definition: reading the study start
    as a year-month-day date (`strptime` with the format `%Y-%m-%d`) and counting the months from it to the
    first of the current month. */
module MeasuresTest2 {
  import opened Tables

  datatype Date = Date(year: int, month: int, day: int)

  /** The ValueErrors `strptime` raises. */
  datatype DateError =
    /** The text does not match the format's regular expression. */
    | DoesNotMatchFormat
    /** The format matched a proper prefix of the text. */
    | UnconvertedDataRemains
    /** Year 0, which `datetime` does not have. */
    | YearOutOfRange
    /** A day past the end of its month. */
    | DayOutOfRange

  predicate IsDigit(c: char) { '0' <= c <= '9' }

  function Digit(c: char): int { c as int - '0' as int }

  predicate IsLeapYear(y: int)
  {
    y % 4 == 0 && (y % 100 != 0 || y % 400 == 0)
  }

  function DaysInMonth(y: int, m: int): int
    requires 1 <= m <= 12
  {
    if m == 2 then (if IsLeapYear(y) then 29 else 28)
    else if m == 4 || m == 6 || m == 9 || m == 11 then 30
    else 31
  }

  predicate ValidDate(d: Date)
  {
    1 <= d.year && 1 <= d.month <= 12 && 1 <= d.day <= DaysInMonth(d.year, d.month)
  }

  /** A piece of text the format matched: where it ends and what number it reads as. */
  datatype Field = Field(end: nat, value: int)

  /** The `%m` group `1[0-2]|0[1-9]|[1-9]` at position i, alternatives tried in order.
      The group is followed by "-", so when an alternative matches but no "-"
      follows, backtracking to a later alternative cannot help: none of them can
      end on the character after a "1" or a "0". */
  function MatchMonth(s: string, i: nat): (f: Option<Field>)
    ensures f.Some? ==> i < f.value.end <= |s| && 1 <= f.value.value <= 12
  {
    if i + 1 < |s| && s[i] == '1' && '0' <= s[i + 1] <= '2' then Some(Field(i + 2, 10 + Digit(s[i + 1])))
    else if i + 1 < |s| && s[i] == '0' && '1' <= s[i + 1] <= '9' then Some(Field(i + 2, Digit(s[i + 1])))
    else if i < |s| && '1' <= s[i] <= '9' then Some(Field(i + 1, Digit(s[i])))
    else None
  }

  /** The `%d` group `3[01]|[12]\d|0[1-9]|[1-9]| [1-9]` at position i, alternatives
      tried in order; it ends the format, so the first one that matches is taken. */
  function MatchDay(s: string, i: nat): (f: Option<Field>)
    ensures f.Some? ==> i < f.value.end <= |s| && 1 <= f.value.value <= 31
  {
    if i + 1 < |s| && s[i] == '3' && '0' <= s[i + 1] <= '1' then Some(Field(i + 2, 30 + Digit(s[i + 1])))
    else if i + 1 < |s| && '1' <= s[i] <= '2' && IsDigit(s[i + 1]) then
      Some(Field(i + 2, 10 * Digit(s[i]) + Digit(s[i + 1])))
    else if i + 1 < |s| && s[i] == '0' && '1' <= s[i + 1] <= '9' then Some(Field(i + 2, Digit(s[i + 1])))
    else if i < |s| && '1' <= s[i] <= '9' then Some(Field(i + 1, Digit(s[i])))
    else if i + 1 < |s| && s[i] == ' ' && '1' <= s[i + 1] <= '9' then Some(Field(i + 2, Digit(s[i + 1])))
    else None
  }

  /** `datetime.strptime(s, "%Y-%m-%d")`: four digits for the year, a dash, the month,
      a dash and the day; the match must use the whole text, and the fields must make
      a date. */
  function ParseDate(s: string): (r: Result<Date, DateError>)
    ensures r.Ok? ==> ValidDate(r.value) && r.value.year <= 9999
    ensures |s| < 8 ==> r.Err?
  {
    if |s| < 5 || !(IsDigit(s[0]) && IsDigit(s[1]) && IsDigit(s[2]) && IsDigit(s[3])) || s[4] != '-' then
      Err(DoesNotMatchFormat)
    else
      var year := 1000 * Digit(s[0]) + 100 * Digit(s[1]) + 10 * Digit(s[2]) + Digit(s[3]);
      match MatchMonth(s, 5)
      case None => Err(DoesNotMatchFormat)
      case Some(m) =>
        if m.end >= |s| || s[m.end] != '-' then Err(DoesNotMatchFormat)
        else
          match MatchDay(s, m.end + 1)
          case None => Err(DoesNotMatchFormat)
          case Some(d) =>
            if d.end != |s| then Err(UnconvertedDataRemains)
            else if year < 1 then Err(YearOutOfRange)
            else if d.value > DaysInMonth(year, m.value) then Err(DayOutOfRange)
            else Ok(Date(year, m.value, d.value))
  }

  function DigitChar(n: int): char
    requires 0 <= n <= 9
  {
    ('0' as int + n) as char
  }

  /** `date.isoformat()` for years of four digits: YYYY-MM-DD. */
  function Format(d: Date): (s: string)
    requires 1 <= d.year <= 9999 && 1 <= d.month <= 12 && 1 <= d.day <= 31
    ensures |s| == 10
  {
    [ DigitChar(d.year / 10 / 10 / 10), DigitChar(d.year / 10 / 10 % 10), DigitChar(d.year / 10 % 10),
      DigitChar(d.year % 10), '-', DigitChar(d.month / 10), DigitChar(d.month % 10), '-',
      DigitChar(d.day / 10), DigitChar(d.day % 10) ]
  }

  lemma YearDigits(y: int)
    requires 0 <= y <= 9999
    ensures y / 10 / 10 / 10 <= 9
    ensures 1000 * (y / 10 / 10 / 10) + 100 * (y / 10 / 10 % 10) + 10 * (y / 10 % 10) + y % 10 == y
  {
    var q1 := y / 10;
    var q2 := q1 / 10;
    assert y == 10 * q1 + y % 10;
    assert q1 == 10 * q2 + q1 % 10;
    assert q2 == 10 * (q2 / 10) + q2 % 10;
  }

  /** A month written with two digits is read by the first or second alternative. */
  lemma MonthDigits(s: string, m: int)
    requires 1 <= m <= 12 && |s| >= 8
    requires s[5] == DigitChar(m / 10) && s[6] == DigitChar(m % 10)
    ensures MatchMonth(s, 5) == Some(Field(7, m))
  {
  }

  /** A day written with two digits is read by the first, second or third
      alternative. */
  lemma DayDigits(s: string, d: int)
    requires 1 <= d <= 31 && |s| == 10
    requires s[8] == DigitChar(d / 10) && s[9] == DigitChar(d % 10)
    ensures MatchDay(s, 8) == Some(Field(10, d))
  {
  }

  /** Every date of a four-digit year, written as YYYY-MM-DD, reads back as itself. */
  lemma ParseFormat(d: Date)
    requires ValidDate(d) && d.year <= 9999
    ensures ParseDate(Format(d)) == Ok(d)
  {
    var s := Format(d);
    YearDigits(d.year);
    MonthDigits(s, d.month);
    DayDigits(s, d.day);
    var year := 1000 * Digit(s[0]) + 100 * Digit(s[1]) + 10 * Digit(s[2]) + Digit(s[3]);
    assert year == d.year;
  }

  /** A number written with one digit or with two. */
  predicate SpellsNumber(t: string, v: int)
  {
    || (|t| == 1 && IsDigit(t[0]) && Digit(t[0]) == v)
    || (|t| == 2 && IsDigit(t[0]) && IsDigit(t[1]) && 10 * Digit(t[0]) + Digit(t[1]) == v)
  }

  /** The ways `%m` writes a month: "1" to "9" or "01" to "12". */
  predicate SpellsMonth(t: string, m: int)
  {
    1 <= m <= 12 && SpellsNumber(t, m)
  }

  /** The ways `%d` writes a day: "1" to "9", "01" to "31", or a space and "1" to "9". */
  predicate SpellsDay(t: string, d: int)
  {
    1 <= d <= 31 && (SpellsNumber(t, d) || (|t| == 2 && t[0] == ' ' && IsDigit(t[1]) && Digit(t[1]) == d))
  }

  /** The text writes the date in the format `%Y-%m-%d`: four year digits, a dash, a month
      of one or two characters, a dash and a day that runs to the end. */
  predicate Spells(s: string, d: Date)
  {
    && |s| >= 8
    && IsDigit(s[0]) && IsDigit(s[1]) && IsDigit(s[2]) && IsDigit(s[3])
    && 1000 * Digit(s[0]) + 100 * Digit(s[1]) + 10 * Digit(s[2]) + Digit(s[3]) == d.year
    && s[4] == '-'
    && (|| (s[6] == '-' && SpellsMonth(s[5..6], d.month) && SpellsDay(s[7..], d.day))
        || (s[7] == '-' && SpellsMonth(s[5..7], d.month) && SpellsDay(s[8..], d.day)))
  }

  /** An accepted text spells the date it gives. */
  lemma ParseDateSound(s: string)
    ensures ParseDate(s).Ok? ==> Spells(s, ParseDate(s).value)
  {
  }

  /** A text that spells a calendar date is accepted and gives that date. */
  lemma ParseDateComplete(s: string, d: Date)
    requires ValidDate(d) && Spells(s, d)
    ensures ParseDate(s) == Ok(d)
  {
  }

  /** `strptime` accepts exactly the texts that spell a calendar date in the format, and
      gives the date they spell. */
  lemma ParseDateExactly(s: string, d: Date)
    ensures ParseDate(s) == Ok(d) <==> ValidDate(d) && Spells(s, d)
  {
    ParseDateSound(s);
    if ValidDate(d) && Spells(s, d) {
      ParseDateComplete(s, d);
    }
  }

  /** Texts `strptime` accepts ... */
  lemma ParseDateAccepts()
    ensures ParseDate("2019-03-31") == Ok(Date(2019, 3, 31))
    ensures ParseDate("2019-3-5") == Ok(Date(2019, 3, 5))
    ensures ParseDate("2020-02-29") == Ok(Date(2020, 2, 29))
  {
  }

  /** ... and texts it refuses with each of its errors. */
  lemma ParseDateRefuses()
    ensures ParseDate("2019-02-29") == Err(DayOutOfRange)
    ensures ParseDate("2019-13-01") == Err(DoesNotMatchFormat)
    ensures ParseDate("2019-03-311") == Err(UnconvertedDataRemains)
    ensures ParseDate("0000-01-01") == Err(YearOutOfRange)
    ensures ParseDate("19-03-31") == Err(DoesNotMatchFormat)
  {
  }

  /** The month index y * 12 + (m - 1): consecutive months have consecutive indices. */
  function MonthIndex(year: int, month: int): int
  {
    year * 12 + (month - 1)
  }

  /** The calendar month k months after the given one (before it for negative k). */
  function AddMonths(year: int, month: int, k: int): (ym: (int, int))
    ensures 1 <= ym.1 <= 12
    ensures MonthIndex(ym.0, ym.1) == MonthIndex(year, month) + k
  {
    var i := MonthIndex(year, month) + k;
    (i / 12, i % 12 + 1)
  }

  /** `calculate_num_intervals`, with the current date `now` as a
      parameter: the number of months from the month of the start to the month of
      `now` (whose first day is the start of the latest full month). */
  function CalculateNumIntervals(startDate: string, now: Date): (r: Result<int, DateError>)
    ensures r.Err? <==> ParseDate(startDate).Err?
    ensures r.Err? ==> r.error == ParseDate(startDate).error
    ensures r.Ok? ==> var start := ParseDate(startDate).value;
      r.value == MonthIndex(now.year, now.month) - MonthIndex(start.year, start.month)
  {
    match ParseDate(startDate)
    case Err(e) => Err(e)
    case Ok(start) => Ok((now.year - start.year) * 12 + (now.month - start.month))
  }

  /** Counting on from the start month by the result reaches the current month; it is
      0 exactly when the start is in the current month and negative exactly when the
      start is in a later month. */
  lemma IntervalsReachNow(startDate: string, now: Date)
    requires 1 <= now.month <= 12
    requires ParseDate(startDate).Ok?
    ensures var start := ParseDate(startDate).value;
      var k := CalculateNumIntervals(startDate, now).value;
      && AddMonths(start.year, start.month, k) == (now.year, now.month)
      && (k == 0 <==> start.year == now.year && start.month == now.month)
      && (k < 0 <==> start.year > now.year || (start.year == now.year && start.month > now.month))
  {
    var start := ParseDate(startDate).value;
    var k := CalculateNumIntervals(startDate, now).value;
    var ym := AddMonths(start.year, start.month, k);
    MonthIndexInjective(ym.0, ym.1, now.year, now.month);
    MonthIndexOrder(start.year, start.month, now.year, now.month);
  }

  lemma MonthIndexInjective(y1: int, m1: int, y2: int, m2: int)
    requires 1 <= m1 <= 12 && 1 <= m2 <= 12
    requires MonthIndex(y1, m1) == MonthIndex(y2, m2)
    ensures y1 == y2 && m1 == m2
  {
  }

  lemma MonthIndexOrder(y1: int, m1: int, y2: int, m2: int)
    requires 1 <= m1 <= 12 && 1 <= m2 <= 12
    ensures MonthIndex(y1, m1) > MonthIndex(y2, m2) <==> y1 > y2 || (y1 == y2 && m1 > m2)
  {
  }

  /** Only the year and month of the start count: two starts in the same month give
      the same number of intervals. */
  lemma DayIgnored(a: string, b: string, now: Date)
    requires ParseDate(a).Ok? && ParseDate(b).Ok?
    requires ParseDate(a).value.year == ParseDate(b).value.year
    requires ParseDate(a).value.month == ParseDate(b).value.month
    ensures CalculateNumIntervals(a, now) == CalculateNumIntervals(b, now)
  {
  }

  /** The study start of the definition, counted to a date in April 2023. */
  lemma IntervalsExample()
    ensures CalculateNumIntervals("2019-03-31", Date(2023, 4, 14)) == Ok(49)
    ensures CalculateNumIntervals("2019-03-01", Date(2019, 3, 31)) == Ok(0)
    ensures CalculateNumIntervals("31/03/2019", Date(2023, 4, 14)) == Err(DoesNotMatchFormat)
  {
  }
}
