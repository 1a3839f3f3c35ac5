/** Calendar helpers: `getLastDayOfMonth` and `getTodayString`, which turns the UTC
    date of the clock reading into the Australian Eastern date "DD/MM/YYYY". */
module Calendar {
  import opened Decimal

  predicate IsLeapYear(y: int) {
    y % 4 == 0 && (y % 100 != 0 || y % 400 == 0)
  }

  /** The year the JavaScript `Date(year, month, day)` constructor uses: 0..99 mean 1900..1999. */
  function ConstructorYear(year: int): (y: int)
    ensures y == year || y == year + 1900
    ensures y == year <==> !(0 <= year <= 99)
    ensures 0 <= year <= 99 ==> 1900 <= y <= 1999
  {
    if 0 <= year <= 99 then 1900 + year else year
  }

  /** `getLastDayOfMonth` for a 1-based month: the day before the first of the next month. */
  function LastDayOfMonth(year: int, month: int): (last: int)
    requires 1 <= month <= 12
    ensures 28 <= last <= 31
    ensures month == 2 ==> (last == 29 <==> IsLeapYear(ConstructorYear(year)))
    ensures month == 2 && !IsLeapYear(ConstructorYear(year)) ==> last == 28
    ensures month != 2 ==> (last == 30 <==> month == 4 || month == 6 || month == 9 || month == 11)
    ensures month == 1 || month == 3 || month == 5 || month == 7 || month == 8 || month == 10 || month == 12 ==> last == 31
  {
    if month == 2 then (if IsLeapYear(ConstructorYear(year)) then 29 else 28)
    else if month == 4 || month == 6 || month == 9 || month == 11 then 30
    else 31
  }

  /** The doc-comment example, and the one place the constructor's year mapping shows:
      year 0 is a Gregorian leap year, but the constructor reads it as 1900. */
  lemma LastDayExamples()
    ensures LastDayOfMonth(2009, 9) == 30
    ensures LastDayOfMonth(2016, 2) == 29 && LastDayOfMonth(1900, 2) == 28 && LastDayOfMonth(2000, 2) == 29
    ensures IsLeapYear(0) && LastDayOfMonth(0, 2) == 28
  {
  }

  /** For every year from 1 on, February has 29 days exactly in Gregorian leap years. */
  lemma FebruaryFollowsGregorianRule(year: int)
    requires year >= 1
    ensures LastDayOfMonth(year, 2) == 29 <==> IsLeapYear(year)
  {
  }

  function DaysInYear(year: int): int {
    if IsLeapYear(year) then 366 else 365
  }

  /** Days of `year` before the first of `month`, summing the month lengths. */
  function DaysBeforeMonth(year: int, month: int): int
    requires 1 <= month <= 13
  {
    if month == 1 then 0 else DaysBeforeMonth(year, month - 1) + LastDayOfMonth(year, month - 1)
  }

  /** The twelve month lengths add up to the length of the Gregorian year. */
  lemma MonthsFillYear(year: int)
    requires year >= 1
    ensures DaysBeforeMonth(year, 13) == DaysInYear(year)
  {
    FebruaryFollowsGregorianRule(year);
    var feb := LastDayOfMonth(year, 2);
    assert DaysBeforeMonth(year, 2) == 31;
    assert DaysBeforeMonth(year, 3) == 31 + feb;
    assert DaysBeforeMonth(year, 4) == 62 + feb;
    assert DaysBeforeMonth(year, 5) == 92 + feb;
    assert DaysBeforeMonth(year, 6) == 123 + feb;
    assert DaysBeforeMonth(year, 7) == 153 + feb;
    assert DaysBeforeMonth(year, 8) == 184 + feb;
    assert DaysBeforeMonth(year, 9) == 215 + feb;
    assert DaysBeforeMonth(year, 10) == 245 + feb;
    assert DaysBeforeMonth(year, 11) == 276 + feb;
    assert DaysBeforeMonth(year, 12) == 306 + feb;
  }

  /** Days from 1 January of year 1 to 1 January of `year`, one Gregorian year at a time. */
  function DaysBeforeYear(year: int): int
    requires year >= 1
  {
    if year == 1 then 0 else DaysBeforeYear(year - 1) + DaysInYear(year - 1)
  }

  datatype Date = Date(day: int, month: int, year: int)

  /** A real calendar date from year 1 on. */
  predicate ValidDate(d: Date) {
    d.year >= 1 && 1 <= d.month <= 12 && 1 <= d.day <= LastDayOfMonth(d.year, d.month)
  }

  /** Day number of a date counted from 1 January of year 1 (which is day 1). */
  function Ordinal(d: Date): int
    requires ValidDate(d)
  {
    DaysBeforeYear(d.year) + DaysBeforeMonth(d.year, d.month) + d.day
  }

  /** The UTC hour from which it is already the next day in the Eastern states:
      13 under daylight saving (UTC+11), 14 otherwise (UTC+10). */
  function NextDayHour(isDaylightSaving: bool): (h: int)
    ensures 0 <= h < 24
    ensures h + (if isDaylightSaving then 11 else 10) == 24
  {
    if isDaylightSaving then 13 else 14
  }

  /** The date part of `getTodayString`: the UTC date `utc` at UTC hour `hour`, moved to the
      next day once the Eastern date has changed, with month and year roll-over. */
  function LocalDate(isDaylightSaving: bool, utc: Date, hour: int): (local: Date)
    requires ValidDate(utc) && 0 <= hour < 24
    ensures ValidDate(local)
    ensures hour < NextDayHour(isDaylightSaving) ==> local == utc
    ensures hour >= NextDayHour(isDaylightSaving) ==> Ordinal(local) == Ordinal(utc) + 1
    ensures local.year == utc.year + 1 <==>
              hour >= NextDayHour(isDaylightSaving) && utc.day == 31 && utc.month == 12
    ensures local.year == utc.year || local.year == utc.year + 1
  {
    var lastDay := LastDayOfMonth(utc.year, utc.month);
    var dd := if hour >= NextDayHour(isDaylightSaving) then utc.day + 1 else utc.day;
    var mm := if dd > lastDay then utc.month + 1 else utc.month;
    var dd' := if dd > lastDay then 1 else dd;
    var yyyy := if mm > 12 then utc.year + 1 else utc.year;
    var mm' := if mm > 12 then 1 else mm;
    var local := Date(dd', mm', yyyy);
    if hour >= NextDayHour(isDaylightSaving) then
      NextOrdinal(utc, local);
      local
    else local
  }

  /** The successor computed by `LocalDate` is the next day number. */
  lemma NextOrdinal(utc: Date, next: Date)
    requires ValidDate(utc)
    requires var lastDay := LastDayOfMonth(utc.year, utc.month);
             if utc.day < lastDay then next == Date(utc.day + 1, utc.month, utc.year)
             else if utc.month < 12 then next == Date(1, utc.month + 1, utc.year)
             else next == Date(1, 1, utc.year + 1)
    ensures ValidDate(next) && Ordinal(next) == Ordinal(utc) + 1
  {
    var lastDay := LastDayOfMonth(utc.year, utc.month);
    if utc.day == lastDay && utc.month == 12 {
      MonthsFillYear(utc.year);
    }
  }

  /** `getTodayString`: the Eastern date as zero-padded "DD/MM/YYYY". */
  function GetTodayString(isDaylightSaving: bool, utc: Date, hour: int): (s: string)
    requires ValidDate(utc) && 0 <= hour < 24
    ensures var local := LocalDate(isDaylightSaving, utc, hour);
            && 7 <= |s| && s[2] == '/' && s[5] == '/'
            && AllDigits(s[..2]) && DecimalValue(s[..2]) == local.day
            && AllDigits(s[3..5]) && DecimalValue(s[3..5]) == local.month
            && AllDigits(s[6..]) && DecimalValue(s[6..]) == local.year
    ensures s[6] != '0'
  {
    var local := LocalDate(isDaylightSaving, utc, hour);
    var dd := ZeroPad2(local.day);
    var mm := ZeroPad2(local.month);
    var yyyy := NatToDecimal(local.year);
    var s := dd + "/" + mm + "/" + yyyy;
    assert s[..2] == dd && s[3..5] == mm && s[6..] == yyyy;
    s
  }
}
