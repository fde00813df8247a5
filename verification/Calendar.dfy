/** The two conversions of src/lib/time.c between calendar dates and seconds since 1970. */
module Calendar {
  import opened Powers

  datatype DateTime = DateTime(second: nat, minute: nat, hour: nat, day: nat, month: nat, year: nat)

  predicate IsLeap(y: nat) {
    (y % 4 == 0 && y % 100 != 0) || y % 400 == 0
  }

  /** `dim[m]`, with its unused entry 0. */
  function DaysInMonth(y: nat, m: nat): nat
    requires m <= 12
  {
    if m == 2 && IsLeap(y) then 29 else [0, 31, 28, 31, 30, 31, 30, 31, 31, 30, 31, 30, 31][m]
  }

  function DaysInYear(y: nat): nat {
    if IsLeap(y) then 366 else 365
  }

  /** Days from 1 January 1970 to 1 January of year `y`. */
  function DaysBeforeYear(y: nat): nat {
    if y <= 1970 then 0 else DaysBeforeYear(y - 1) + DaysInYear(y - 1)
  }

  /** Days of year `y` before its month `m`. */
  function DaysBeforeMonth(y: nat, m: nat): nat
    requires m <= 13
  {
    if m <= 1 then 0 else DaysBeforeMonth(y, m - 1) + DaysInMonth(y, m - 1)
  }

  predicate IsDate(d: DateTime) {
    && d.year >= 1970 && 1 <= d.month <= 12 && 1 <= d.day <= DaysInMonth(d.year, d.month)
    && d.hour < 24 && d.minute < 60 && d.second < 60
  }

  function DayNumber(d: DateTime): int
    requires d.month <= 13
  {
    DaysBeforeYear(d.year) + DaysBeforeMonth(d.year, d.month) + d.day - 1
  }

  /** Seconds since 1970, without the 32-bit limit. */
  function Seconds(d: DateTime): int
    requires d.month <= 13
  {
    DayNumber(d) * 86400 + d.hour * 3600 + d.minute * 60 + d.second
  }

  function Word(x: int): nat {
    x % 0x1_0000_0000
  }

  /** `time_datetime_to_unix`: the loops count days, the last line wraps around at 32 bits. */
  method DatetimeToUnix(d: DateTime) returns (ts: nat)
    requires d.month <= 13
    ensures ts == Word(Seconds(d))
  {
    var days := 0;
    var y := 1970;
    while y < d.year
      invariant y <= d.year || y == 1970
      invariant days == DaysBeforeYear(y)
    {
      days := days + DaysInYear(y);
      y := y + 1;
    }
    DaysBeforeYearStart(d.year, y);
    var m := 1;
    while m < d.month
      invariant m <= d.month || m == 1
      invariant m <= 13 && days == DaysBeforeYear(d.year) + DaysBeforeMonth(d.year, m)
    {
      days := days + DaysInMonth(d.year, m);
      m := m + 1;
    }
    ts := Word((days + d.day - 1) * 86400 + d.hour * 3600 + d.minute * 60 + d.second);
  }

  lemma DaysBeforeYearStart(year: nat, y: nat)
    requires y == year || (y == 1970 && year <= 1970)
    ensures DaysBeforeYear(y) == DaysBeforeYear(year)
  {
  }

  /** `time_unix_to_datetime`: the result is the valid date with that number of seconds. */
  method UnixToDatetime(ts: nat) returns (d: DateTime)
    requires ts < 0x1_0000_0000
    ensures IsDate(d) && Seconds(d) == ts
  {
    var days: nat := ts / 86400;
    var year: nat := 1970;
    while days >= DaysInYear(year)
      invariant year >= 1970 && DaysBeforeYear(year) + days == ts / 86400
      decreases days
    {
      days := days - DaysInYear(year);
      year := year + 1;
    }
    ghost var ofYear := days;
    var month: nat := 1;
    MonthsFillYear(year);
    while days >= DaysInMonth(year, month)
      invariant 1 <= month <= 12 && DaysBeforeMonth(year, month) + days == ofYear < DaysInYear(year)
      decreases 13 - month
    {
      assert DaysBeforeMonth(year, month + 1) == DaysBeforeMonth(year, month) + DaysInMonth(year, month);
      days := days - DaysInMonth(year, month);
      month := month + 1;
    }
    hide DaysBeforeYear, DaysBeforeMonth, DaysInMonth;
    SplitSeconds(ts);
    d := DateTime(ts % 60, ts / 60 % 60, ts / 3600 % 24, days + 1, month, year);
  }

  lemma MonthsFillYear(y: nat)
    ensures DaysBeforeMonth(y, 13) == DaysInYear(y)
  {
    hide DaysBeforeMonth, IsLeap;
    LeapIs(y);
    MonthsClosed(y, 13);
  }

  // ---------------------------------------------------------------- closed forms

  /** The leap days from year 1 up to, not including, year `y`. */
  function LeapDays(y: nat): int
    requires y > 0
  {
    (y - 1) / 4 - (y - 1) / 100 + (y - 1) / 400
  }

  lemma LeapDaysStep(y: nat)
    requires y > 0
    ensures LeapDays(y + 1) == LeapDays(y) + if IsLeap(y) then 1 else 0
  {
    QuotientStep(y, 4);
    QuotientStep(y, 100);
    QuotientStep(y, 400);
    assert y % 100 == 0 ==> y % 4 == 0;
    assert y % 400 == 0 ==> y % 100 == 0;
  }

  lemma QuotientStep(y: nat, m: nat)
    requires y > 0 && m > 1
    ensures y / m == (y - 1) / m + if y % m == 0 then 1 else 0
  {
    var q, r := (y - 1) / m, (y - 1) % m;
    assert y == q * m + (r + 1);
    if r + 1 < m {
      QuotientRemainder(y, m, q, r + 1);
    } else {
      assert y == (q + 1) * m;
      QuotientRemainder(y, m, q + 1, 0);
    }
  }

  /** The years before `y` have 365 days each and one more for every fourth, but not hundredth, but four hundredth. */
  lemma {:induction false} YearsClosed(y: nat)
    requires y >= 1970
    ensures DaysBeforeYear(y) == 365 * (y - 1970) + LeapDays(y) - 477
    decreases y
  {
    if y > 1970 {
      YearsClosed(y - 1);
      LeapDaysStep(y - 1);
    }
  }

  /** Four hundred years in a row have 146097 days. */
  lemma FourCenturies(y: nat)
    requires y >= 1970
    ensures DaysBeforeYear(y + 400) == DaysBeforeYear(y) + 146097
  {
    YearsClosed(y);
    YearsClosed(y + 400);
    QuotientAdds(y - 1, 4, 100);
    QuotientAdds(y - 1, 100, 4);
    QuotientAdds(y - 1, 400, 1);
    hide DaysBeforeYear;
  }

  lemma QuotientAdds(x: nat, m: nat, k: nat)
    requires m > 0
    ensures (x + k * m) / m == x / m + k
  {
    DivisionForm(x, m);
    assert x + k * m == (x / m + k) * m + x % m;
    QuotientRemainder(x + k * m, m, x / m + k, x % m);
  }

  lemma LeapIs(y: nat)
    ensures IsLeap(y) <==> y % 4 == 0 && (y % 100 != 0 || y % 400 == 0)
  {
    assert y % 400 == 0 ==> y % 100 == 0;
    assert y % 100 == 0 ==> y % 4 == 0;
  }

  lemma MonthLengths(y: nat)
    ensures DaysInMonth(y, 1) == DaysInMonth(y, 3) == DaysInMonth(y, 5) == DaysInMonth(y, 7) == DaysInMonth(y, 8)
         == DaysInMonth(y, 10) == DaysInMonth(y, 12) == 31
    ensures DaysInMonth(y, 4) == DaysInMonth(y, 6) == DaysInMonth(y, 9) == DaysInMonth(y, 11) == 30
    ensures DaysInMonth(y, 2) == if IsLeap(y) then 29 else 28
  {
  }

  /** The days of a year before each month, and one more behind the February of a leap year. */
  lemma MonthsClosed(y: nat, m: nat)
    requires 1 <= m <= 13
    ensures DaysBeforeMonth(y, m) == [0, 31, 59, 90, 120, 151, 181, 212, 243, 273, 304, 334, 365][m - 1] +
                                     if m > 2 && y % 4 == 0 && (y % 100 != 0 || y % 400 == 0) then 1 else 0
  {
    hide IsLeap, DaysInMonth;
    LeapIs(y);
    MonthLengths(y);
    var feb := if IsLeap(y) then 29 else 28;
    assert DaysBeforeMonth(y, 1) == 0;
    assert DaysBeforeMonth(y, 2) == 31;
    assert DaysBeforeMonth(y, 3) == 31 + feb;
    assert DaysBeforeMonth(y, 4) == 62 + feb;
    assert DaysBeforeMonth(y, 5) == 92 + feb;
    assert DaysBeforeMonth(y, 6) == 123 + feb;
    assert DaysBeforeMonth(y, 7) == 153 + feb;
    assert DaysBeforeMonth(y, 8) == 184 + feb;
    assert DaysBeforeMonth(y, 9) == 215 + feb;
    assert DaysBeforeMonth(y, 10) == 245 + feb;
    assert DaysBeforeMonth(y, 11) == 276 + feb;
    assert DaysBeforeMonth(y, 12) == 306 + feb;
  }

  /** So many seconds passed since 1970, all dates of the Gregorian calendar. */
  lemma SecondsClosed(d: DateTime)
    requires IsDate(d)
    ensures var y, m := d.year, d.month;
            var leap := if m > 2 && y % 4 == 0 && (y % 100 != 0 || y % 400 == 0) then 1 else 0;
            var days := 365 * (y - 1970) + ((y - 1) / 4 - (y - 1) / 100 + (y - 1) / 400 - 477)
                        + [0, 31, 59, 90, 120, 151, 181, 212, 243, 273, 304, 334, 365][m - 1] + leap + (d.day - 1);
            Seconds(d) == 86400 * days + 3600 * d.hour + 60 * d.minute + d.second
  {
    YearsClosed(d.year);
    MonthsClosed(d.year, d.month);
    hide DaysBeforeYear, DaysBeforeMonth;
  }

  lemma SplitSeconds(ts: nat)
    ensures ts == ts / 86400 * 86400 + ts / 3600 % 24 * 3600 + ts / 60 % 60 * 60 + ts % 60
  {
    assert ts / 60 == ts / 3600 * 60 + ts / 60 % 60;
    assert ts / 3600 == ts / 86400 * 24 + ts / 3600 % 24;
  }

  // ---------------------------------------------------------------- order

  predicate EarlierDay(a: DateTime, b: DateTime) {
    a.year < b.year || (a.year == b.year && (a.month < b.month || (a.month == b.month && a.day < b.day)))
  }

  predicate EarlierTime(a: DateTime, b: DateTime) {
    a.hour < b.hour || (a.hour == b.hour && (a.minute < b.minute || (a.minute == b.minute && a.second < b.second)))
  }

  predicate SameDay(a: DateTime, b: DateTime) {
    a.year == b.year && a.month == b.month && a.day == b.day
  }

  /** The order of the calendar: year, month, day, hour, minute, second. */
  predicate Earlier(a: DateTime, b: DateTime) {
    EarlierDay(a, b) || (SameDay(a, b) && EarlierTime(a, b))
  }

  lemma {:induction false} YearsAdd(y: nat, y': nat)
    requires 1970 <= y < y'
    ensures DaysBeforeYear(y) + DaysInYear(y) <= DaysBeforeYear(y')
    decreases y'
  {
    if y + 1 < y' {
      YearsAdd(y, y' - 1);
    }
  }

  lemma {:induction false} MonthsAdd(y: nat, m: nat, m': nat)
    requires 1 <= m < m' <= 13
    ensures DaysBeforeMonth(y, m) + DaysInMonth(y, m) <= DaysBeforeMonth(y, m')
    decreases m'
  {
    if m + 1 < m' {
      MonthsAdd(y, m, m' - 1);
    }
  }

  lemma DayOfYear(d: DateTime)
    requires IsDate(d)
    ensures DaysBeforeMonth(d.year, d.month) + d.day <= DaysInYear(d.year)
  {
    hide DaysInMonth;
    MonthsFillYear(d.year);
    MonthsAdd(d.year, d.month, 13);
  }

  lemma EarlierDayCounts(a: DateTime, b: DateTime)
    requires IsDate(a) && IsDate(b) && EarlierDay(a, b)
    ensures DayNumber(a) < DayNumber(b)
  {
    hide DaysBeforeYear, DaysBeforeMonth;
    if a.year < b.year {
      YearsAdd(a.year, b.year);
      DayOfYear(a);
    } else if a.month < b.month {
      MonthsAdd(a.year, a.month, b.month);
    }
  }

  lemma EarlierCounts(a: DateTime, b: DateTime)
    requires IsDate(a) && IsDate(b) && Earlier(a, b)
    ensures Seconds(a) < Seconds(b)
  {
    if EarlierDay(a, b) {
      EarlierDayCounts(a, b);
    }
  }

  /** Calendar order of valid dates is the numeric order of their timestamps. */
  lemma OrderMatches(a: DateTime, b: DateTime)
    requires IsDate(a) && IsDate(b)
    ensures Earlier(a, b) <==> Seconds(a) < Seconds(b)
    ensures Seconds(a) == Seconds(b) ==> a == b
  {
    if Earlier(a, b) {
      EarlierCounts(a, b);
    } else if Earlier(b, a) {
      EarlierCounts(b, a);
    } else {
      assert a == b;
    }
  }

  /** Converting back and forth gives the timestamp back, for every 32-bit timestamp. */
  method UnixRoundTrip(ts: nat) returns (back: nat)
    requires ts < 0x1_0000_0000
    ensures back == ts
  {
    var d := UnixToDatetime(ts);
    back := DatetimeToUnix(d);
  }

  /** Converting a valid date forth and back gives it back exactly until the 32-bit seconds run out. */
  method DateRoundTrip(d: DateTime) returns (back: DateTime)
    requires IsDate(d)
    ensures back == d <==> Seconds(d) < 0x1_0000_0000
  {
    var ts := DatetimeToUnix(d);
    DateIsLater(d);
    back := UnixToDatetime(ts);
    OrderMatches(back, d);
  }

  lemma DateIsLater(d: DateTime)
    requires IsDate(d)
    ensures Seconds(d) >= 0
  {
  }
}
