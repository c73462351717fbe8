/** Calendar dates, their chronological order, and the `MM/DD/YYYY` rendering
    of the task screen's `formatDate` helper. */
module Dates {
  import opened Wrappers
  import opened Decimal

  /** A calendar date, month 1..12 and day 1..31 when it comes from the calendar widget. */
  datatype Date = Date(year: int, month: int, day: int)

  /** `a` falls strictly before `b`: the sign of `new Date(a) - new Date(b)` is negative.
      On calendar dates the time value grows with the (year, month, day) triple,
      so the order is the lexicographic one. */
  predicate Before(a: Date, b: Date) {
    || a.year < b.year
    || (a.year == b.year && a.month < b.month)
    || (a.year == b.year && a.month == b.month && a.day < b.day)
  }

  /** Exactly one of "before", "same day", "after" holds of two dates, and
      "before" is transitive: the comparator is a strict total order. */
  lemma BeforeTrichotomy(a: Date, b: Date)
    ensures Before(a, b) || a == b || Before(b, a)
    ensures !(Before(a, b) && Before(b, a))
    ensures !Before(a, a)
  {
  }

  lemma BeforeTransitive(a: Date, b: Date, c: Date)
    requires Before(a, b) && Before(b, c)
    ensures Before(a, c)
  {
  }

  /** Gregorian leap years. */
  predicate IsLeapYear(y: int) {
    (y % 4 == 0 && y % 100 != 0) || y % 400 == 0
  }

  function DaysInMonth(year: int, month: int): (n: int)
    requires 1 <= month <= 12
    ensures 28 <= n <= 31
    ensures month == 2 ==> (n == 29 <==> IsLeapYear(year))
  {
    if month == 2 then (if IsLeapYear(year) then 29 else 28)
    else if month == 4 || month == 6 || month == 9 || month == 11 then 30
    else 31
  }

  /** A date that exists on the calendar. */
  predicate Valid(d: Date) {
    1 <= d.month <= 12 && 1 <= d.day <= DaysInMonth(d.year, d.month)
  }

  /** Three fields joined by '/', the first two two characters wide. */
  function JoinWithSlashes(m: string, d: string, y: string): (r: string)
    requires |m| == 2 && |d| == 2
    ensures |r| == 6 + |y|
    ensures r[2] == '/' && r[5] == '/'
    ensures r[..2] == m && r[3..5] == d && r[6..] == y
    ensures '/' !in m && '/' !in d && '/' !in y ==> multiset(r)['/'] == 2
  {
    var r := m + "/" + d + "/" + y;
    assert r[..2] == m;
    assert r[3..5] == d;
    assert r[6..] == y;
    assert multiset(r) == multiset(m) + multiset{'/'} + multiset(d) + multiset{'/'} + multiset(y);
    r
  }

  /** The `month/day/year` template of `formatDate`: two-digit month, two-digit
      day, then the year as `toString` renders it. */
  function SlashDate(month: nat, day: nat, year: int): (r: string)
    requires month < 100 && day < 100
    ensures |r| == 6 + |IntToString(year)|
    ensures r[2] == '/' && r[5] == '/'
    ensures multiset(r)['/'] == 2
    ensures ParseSlashDate(r) == Some(Date(year, month, day))
  {
    TwoDigitsShape(month);
    TwoDigitsShape(day);
    NoSlashInYear(year);
    ParseIntToString(year);
    var m, d, y := TwoDigits(month), TwoDigits(day), IntToString(year);
    NonDigitAbsent(m, '/');
    NonDigitAbsent(d, '/');
    var r := JoinWithSlashes(m, d, y);
    assert r[..2] == m && r[3..5] == d && r[6..] == y;
    r
  }

  lemma NoSlashInYear(year: int)
    ensures '/' !in IntToString(year)
  {
    var y := IntToString(year);
    forall k | 0 <= k < |y| ensures y[k] != '/' {
      assert IsDigit(y[k]) || y[k] == '-';
    }
  }

  /** Reads a `MM/DD/<year>` string back into the date it names. */
  function ParseSlashDate(s: string): (r: Option<Date>)
    ensures r.Some? ==> |s| >= 7 && s[2] == '/' && s[5] == '/'
  {
    if |s| >= 7 && s[2] == '/' && s[5] == '/' && AllDigits(s[..2]) && AllDigits(s[3..5]) then
      match ParseInt(s[6..])
      case Some(y) => Some(Date(y, DigitsValue(s[..2]), DigitsValue(s[3..5])))
      case None => None
    else None
  }

  /** `formatDate` as written, from the local fields that `new Date(dateString)`
      yields: `getMonth()` is 0..11, `getDate()` is 1..31, and the day printed is
      `getDate() + 1`. */
  function FormatDate(year: int, monthIndex: int, dayOfMonth: int): (r: string)
    requires 0 <= monthIndex <= 11 && 1 <= dayOfMonth <= 31
    ensures |r| == 6 + |IntToString(year)|
    ensures r[2] == '/' && r[5] == '/' && multiset(r)['/'] == 2
    ensures ParseSlashDate(r) == Some(Date(year, monthIndex + 1, dayOfMonth + 1))
  {
    SlashDate(monthIndex + 1, dayOfMonth + 1, year)
  }

  /** As written, the shown date is never the local date it was computed from,
      and on the last day of a month it is a day that does not exist. */
  lemma FormatDateShiftsDay(year: int, monthIndex: int, dayOfMonth: int)
    requires 0 <= monthIndex <= 11 && 1 <= dayOfMonth <= DaysInMonth(year, monthIndex + 1)
    ensures ParseSlashDate(FormatDate(year, monthIndex, dayOfMonth)) != Some(Date(year, monthIndex + 1, dayOfMonth))
    ensures dayOfMonth == DaysInMonth(year, monthIndex + 1) ==>
              !Valid(ParseSlashDate(FormatDate(year, monthIndex, dayOfMonth)).value)
  {
    var shown := ParseSlashDate(FormatDate(year, monthIndex, dayOfMonth));
    assert shown == Some(Date(year, monthIndex + 1, dayOfMonth + 1));
  }

  /** In every year, 30 April (the local date of a 1 May due date west of UTC)
      is shown as 04/31 and 31 May as 05/32: days that do not exist. */
  lemma FormatDateCounterexample(year: int)
    ensures ParseSlashDate(FormatDate(year, 3, 30)) == Some(Date(year, 4, 31))
    ensures !Valid(Date(year, 4, 31))
    ensures ParseSlashDate(FormatDate(year, 4, 31)) == Some(Date(year, 5, 32))
    ensures !Valid(Date(year, 5, 32))
  {
  }

  /** The due date rendered as `MM/DD/YYYY` straight from the calendar date it
      stores, without a time-zone round trip and without the `+ 1`. */
  function FormatDueDate(d: Date): (r: string)
    requires Valid(d)
    ensures ParseSlashDate(r) == Some(d)
    ensures |r| == 6 + |IntToString(d.year)|
    ensures r[2] == '/' && r[5] == '/' && multiset(r)['/'] == 2
  {
    SlashDate(d.month, d.day, d.year)
  }
}
