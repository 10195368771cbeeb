/**
  Gregorian dates as pandas holds them after `to_datetime(..., format='%m/%d/%Y',
  errors='coerce')`, and the weekday names `Series.dt.day_name()` gives them.
 */
module Calendar {
  import opened Wrappers
  import opened Text
  import opened Strptime

  datatype Date = Date(year: int, month: int, day: int)

  datatype Weekday = Monday | Tuesday | Wednesday | Thursday | Friday | Saturday | Sunday

  /** Monday first, as `date.weekday()` numbers the days. */
  const WeekOrder: seq<Weekday> := [Monday, Tuesday, Wednesday, Thursday, Friday, Saturday, Sunday]

  /** The English name `day_name()` prints for a weekday. */
  function WeekdayName(w: Weekday): string {
    match w
    case Monday => "Monday"
    case Tuesday => "Tuesday"
    case Wednesday => "Wednesday"
    case Thursday => "Thursday"
    case Friday => "Friday"
    case Saturday => "Saturday"
    case Sunday => "Sunday"
  }

  /**
    The day names in WeekOrder are the day order the weekday chart is
    reindexed by, and no two weekdays share a name, so counting and reindexing
    by Weekday gives the same table as counting and reindexing by name.
   */
  lemma WeekdayNamesAreDayOrder(a: Weekday, b: Weekday)
    ensures seq(7, i requires 0 <= i < 7 => WeekdayName(WeekOrder[i]))
      == ["Monday", "Tuesday", "Wednesday", "Thursday", "Friday", "Saturday", "Sunday"]
    ensures WeekdayName(a) == WeekdayName(b) <==> a == b
  {
  }

  /** Position of a weekday in WeekOrder. */
  function WeekdayIndex(w: Weekday): (i: nat)
    ensures i < 7 && WeekOrder[i] == w
  {
    match w
    case Monday => 0
    case Tuesday => 1
    case Wednesday => 2
    case Thursday => 3
    case Friday => 4
    case Saturday => 5
    case Sunday => 6
  }

  function NextWeekday(w: Weekday): Weekday {
    WeekOrder[(WeekdayIndex(w) + 1) % 7]
  }

  predicate IsLeapYear(y: int) {
    y % 4 == 0 && (y % 100 != 0 || y % 400 == 0)
  }

  function YearLength(y: int): nat {
    if IsLeapYear(y) then 366 else 365
  }

  function DaysInMonth(y: int, m: int): (n: nat)
    requires 1 <= m <= 12
    ensures 28 <= n <= 31
    ensures n == 29 <==> m == 2 && IsLeapYear(y)
  {
    if m == 2 then (if IsLeapYear(y) then 29 else 28)
    else if m == 4 || m == 6 || m == 9 || m == 11 then 30
    else 31
  }

  /** A real date of the proleptic Gregorian calendar with a positive year. */
  predicate IsCalendarDate(d: Date) {
    && 1 <= d.year
    && 1 <= d.month <= 12
    && 1 <= d.day <= DaysInMonth(d.year, d.month)
  }

  /** Chronological order on dates (`a` is not later than `b`). */
  predicate NotLater(a: Date, b: Date) {
    || a.year < b.year
    || (a.year == b.year && a.month < b.month)
    || (a.year == b.year && a.month == b.month && a.day <= b.day)
  }

  /**
    The first and last calendar days whose midnight a nanosecond pandas
    Timestamp can hold (1677-09-21 00:12:43 .. 2262-04-11 23:47:16); dates
    outside become NaT under `errors='coerce'`.
   */
  const EarliestTimestampDate := Date(1677, 9, 22)
  const LatestTimestampDate := Date(2262, 4, 11)

  predicate IsTimestampDate(d: Date) {
    && IsCalendarDate(d)
    && NotLater(EarliestTimestampDate, d)
    && NotLater(d, LatestTimestampDate)
  }

  // Day numbers: 0001-01-01 is day 1, as in Python's date.toordinal().

  /** Days in the years 1 .. y-1, in closed form. */
  function DaysBeforeYear(y: int): int
    requires y >= 1
  {
    var a := y - 1;
    365 * a + a / 4 - a / 100 + a / 400
  }

  /** Days in the years 1 .. y-1, counted year by year. */
  function DaysBeforeYearCounted(y: int): nat
    requires y >= 1
    decreases y
  {
    if y == 1 then 0 else DaysBeforeYearCounted(y - 1) + YearLength(y - 1)
  }

  /** Days in the months 1 .. m-1 of year y. */
  function DaysBeforeMonth(y: int, m: int): nat
    requires 1 <= m <= 12
  {
    var common := [0, 31, 59, 90, 120, 151, 181, 212, 243, 273, 304, 334][m - 1];
    if m > 2 && IsLeapYear(y) then common + 1 else common
  }

  function DayNumber(d: Date): int
    requires IsCalendarDate(d)
  {
    DaysBeforeYear(d.year) + DaysBeforeMonth(d.year, d.month) + d.day
  }

  /**
    The weekday pandas names for a date: day 1 of year 1 is a Monday, so the
    weekday advances by one for each day after 12 April 2019, a Friday.
   */
  function WeekdayOf(d: Date): (w: Weekday)
    requires IsCalendarDate(d)
    ensures WeekdayIndex(w) == (DayNumber(d) - DayNumber(Date(2019, 4, 12)) + WeekdayIndex(Friday)) % 7
  {
    var n := DayNumber(d);
    KnownDayNumber();
    WholeWeeks(n - 737161 + 4, 105309);
    var w := WeekdayOfNumber(n);
    assert WeekdayIndex(w) == (n + 6) % 7;
    w
  }

  /** 12 April 2019 is day 737161, counting 1 January of year 1 as day 1. */
  lemma KnownDayNumber()
    ensures DayNumber(Date(2019, 4, 12)) == 737161
  {
  }

  /** Whole weeks do not change the day of the week. */
  lemma WholeWeeks(n: int, k: int)
    ensures (n + 7 * k) % 7 == n % 7
  {
  }

  function WeekdayOfNumber(n: int): Weekday {
    WeekOrder[(n + 6) % 7]
  }

  /** The calendar day after `d`. */
  function NextDay(d: Date): (n: Date)
    requires IsCalendarDate(d)
    ensures IsCalendarDate(n)
    ensures NotLater(d, n) && d != n
  {
    if d.day < DaysInMonth(d.year, d.month) then Date(d.year, d.month, d.day + 1)
    else if d.month < 12 then Date(d.year, d.month + 1, 1)
    else Date(d.year + 1, 1, 1)
  }

  lemma NextQuotientBy4(a: nat)
    ensures (a + 1) / 4 == a / 4 + (if (a + 1) % 4 == 0 then 1 else 0)
  {
    assert a == 4 * (a / 4) + a % 4;
  }

  lemma NextQuotientBy100(a: nat)
    ensures (a + 1) / 100 == a / 100 + (if (a + 1) % 100 == 0 then 1 else 0)
  {
    assert a == 100 * (a / 100) + a % 100;
  }

  lemma NextQuotientBy400(a: nat)
    ensures (a + 1) / 400 == a / 400 + (if (a + 1) % 400 == 0 then 1 else 0)
  {
    assert a == 400 * (a / 400) + a % 400;
  }

  /** A multiple of 400 is a multiple of 100, and a multiple of 100 a multiple of 4. */
  lemma LeapDivisors(y: nat)
    ensures y % 400 == 0 ==> y % 100 == 0
    ensures y % 100 == 0 ==> y % 4 == 0
  {
    if y % 400 == 0 {
      assert y == 100 * (4 * (y / 400));
    }
    if y % 100 == 0 {
      assert y == 4 * (25 * (y / 100));
    }
  }

  /** Year y contributes exactly its own length to the day count. */
  lemma DaysBeforeNextYear(y: int)
    requires y >= 1
    ensures DaysBeforeYear(y + 1) == DaysBeforeYear(y) + YearLength(y)
  {
    NextQuotientBy4(y - 1);
    NextQuotientBy100(y - 1);
    NextQuotientBy400(y - 1);
    LeapDivisors(y);
  }

  /** The closed form agrees with counting the year lengths one by one. */
  lemma {:induction false} DaysBeforeYearIsCounted(y: int)
    requires y >= 1
    ensures DaysBeforeYear(y) == DaysBeforeYearCounted(y)
    decreases y
  {
    if y > 1 {
      DaysBeforeYearIsCounted(y - 1);
      DaysBeforeNextYear(y - 1);
    }
  }

  /** The month table accumulates the month lengths. */
  lemma DaysBeforeNextMonth(y: int, m: int)
    requires 1 <= m < 12
    ensures DaysBeforeMonth(y, m + 1) == DaysBeforeMonth(y, m) + DaysInMonth(y, m)
  {
  }

  /** Consecutive calendar days have consecutive day numbers. */
  lemma DayNumberOfNextDay(d: Date)
    requires IsCalendarDate(d)
    ensures DayNumber(NextDay(d)) == DayNumber(d) + 1
  {
    if d.day == DaysInMonth(d.year, d.month) {
      if d.month < 12 {
        DaysBeforeNextMonth(d.year, d.month);
      } else {
        DaysBeforeNextYear(d.year);
      }
    }
  }

  /** The weekday advances by one from each calendar day to the next. */
  lemma WeekdayOfNextDay(d: Date)
    requires IsCalendarDate(d)
    ensures WeekdayOf(NextDay(d)) == NextWeekday(WeekdayOf(d))
  {
    DayNumberOfNextDay(d);
    WeekdayOfNextNumber(DayNumber(d));
  }

  lemma WeekdayOfNextNumber(n: int)
    ensures WeekdayOfNumber(n + 1) == NextWeekday(WeekdayOfNumber(n))
  {
    var i := (n + 6) % 7;
    assert (n + 7) % 7 == (i + 1) % 7 by {
      assert n + 6 == 7 * ((n + 6) / 7) + i;
    }
    assert NextWeekday(WeekOrder[i]) == WeekOrder[(i + 1) % 7];
  }

  /** 12 April 2019 fell on a Friday. */
  lemma WeekdayOfKnownDate()
    ensures WeekdayOf(Date(2019, 4, 12)) == Friday
  {
  }

  // Parsing with format '%m/%d/%Y'.

  /**
    `pd.to_datetime(s, format='%m/%d/%Y', errors='coerce')`: the whole string
    must be month, day and year fields separated by '/', each accepted by its
    directive, naming a real date that a pandas Timestamp can hold; anything
    else is NaT (None), never an error.
   */
  function ParseDate(s: string): (r: Option<Date>)
    ensures r.Some? ==> IsTimestampDate(r.value)
  {
    var parts := Split(s, '/');
    if |parts| != 3 then None
    else
      match (OneToTwelve(parts[0]), DayOfMonth(parts[1]), Year(parts[2]))
      case (Some(m), Some(d), Some(y)) =>
        if IsTimestampDate(Date(y, m, d)) then Some(Date(y, m, d)) else None
      case _ => None
  }

  function MonthSpellings(m: nat): set<string>
    requires m < 100
  {
    {Unpadded(m), ZeroPadded(m)}
  }

  function DaySpellings(d: nat): set<string>
    requires d < 100
  {
    {Unpadded(d), ZeroPadded(d)} + (if d < 10 then {SpacePadded(d)} else {})
  }

  /** `s` writes the date `d` as month/day/year in one of the accepted spellings. */
  predicate Spells(s: string, d: Date)
    requires IsCalendarDate(d) && d.year < 10000
  {
    exists mf, df :: mf in MonthSpellings(d.month) && df in DaySpellings(d.day) &&
      s == mf + "/" + df + "/" + FourDigits(d.year)
  }

  lemma JoinThree(a: string, b: string, c: string, sep: char)
    ensures Join([a, b, c], sep) == a + [sep] + b + [sep] + c
  {
    assert [a, b, c][1..] == [b, c];
    assert [b, c][1..] == [c];
    assert Join([b, c], sep) == b + [sep] + c;
  }

  lemma NoSlashInSpelling(f: string)
    requires forall i :: 0 <= i < |f| ==> IsDigit(f[i]) || f[i] == ' '
    ensures '/' !in f
  {
  }

  /** A date string that parses spells the date it parses to. */
  lemma ParsedDateIsSpelled(s: string, d: Date)
    requires ParseDate(s) == Some(d)
    ensures IsTimestampDate(d) && Spells(s, d)
  {
    var parts := Split(s, '/');
    assert parts == [parts[0], parts[1], parts[2]];
    JoinThree(parts[0], parts[1], parts[2], '/');
    OneToTwelveSpellings(parts[0], d.month);
    DayOfMonthSpellings(parts[1], d.day);
    YearSpellings(parts[2], d.year);
    assert parts[0] in MonthSpellings(d.month);
    assert parts[1] in DaySpellings(d.day);
  }

  /** Three '/'-free fields that their directives accept parse to the date they name. */
  lemma ParseOfFields(mf: string, df: string, yf: string, d: Date)
    requires '/' !in mf && '/' !in df && '/' !in yf
    requires OneToTwelve(mf) == Some(d.month) && DayOfMonth(df) == Some(d.day) && Year(yf) == Some(d.year)
    requires IsTimestampDate(d)
    ensures ParseDate(mf + "/" + df + "/" + yf) == Some(d)
  {
    JoinThree(mf, df, yf, '/');
    SplitJoin([mf, df, yf], '/');
  }

  /** Every accepted spelling of a Timestamp-range date parses back to that date. */
  lemma SpelledDateParses(s: string, d: Date)
    requires IsTimestampDate(d) && Spells(s, d)
    ensures ParseDate(s) == Some(d)
  {
    var mf, df :| mf in MonthSpellings(d.month) && df in DaySpellings(d.day) &&
      s == mf + "/" + df + "/" + FourDigits(d.year);
    var yf := FourDigits(d.year);
    NoSlashInSpelling(mf);
    NoSlashInSpelling(df);
    NoSlashInSpelling(yf);
    OneToTwelveSpellings(mf, d.month);
    DayOfMonthSpellings(df, d.day);
    YearSpellings(yf, d.year);
    ParseOfFields(mf, df, yf, d);
  }

  /**
    A date string parses to `d` exactly when `d` is a Timestamp-range calendar
    date and the string spells it: 1- or 2-digit month, 1- or 2-digit or
    blank-padded day, 4-digit year.
   */
  lemma ParseDateExact(s: string, d: Date)
    ensures ParseDate(s) == Some(d) <==> IsTimestampDate(d) && Spells(s, d)
  {
    if ParseDate(s) == Some(d) {
      ParsedDateIsSpelled(s, d);
    }
    if IsTimestampDate(d) && Spells(s, d) {
      SpelledDateParses(s, d);
    }
  }

  /** The date column as exported, "4/12/2019", is 12 April 2019. */
  lemma ParseExportedDate(s: string)
    requires s == "4/12/2019"
    ensures ParseDate(s) == Some(Date(2019, 4, 12))
  {
    var d := Date(2019, 4, 12);
    assert Unpadded(4) == "4" && ZeroPadded(12) == "12" && FourDigits(2019) == "2019";
    assert s == Unpadded(4) + "/" + ZeroPadded(12) + "/" + FourDigits(2019);
    assert Spells(s, d);
    SpelledDateParses(s, d);
  }

}
