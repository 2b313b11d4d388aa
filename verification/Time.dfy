/** Time stamps: seconds since 1970 to the exFAT date and time fields and back. The fields are
    packed with arithmetic: `a | (b << 5)` is a + 0x20 * b for a below 0x20. */
module Time {
  import opened Arith

  const MINUTE := 60
  const HOUR := 3600
  const DAY := 86400
  const EPOCH_DIFF_DAYS := 10 * 365 + 10 / 4
  const EPOCH_DIFF_SEC := EPOCH_DIFF_DAYS * DAY
  /** Days from 1980 to the end of 2107, every fourth year taken as leap. */
  const ALL_DAYS := 46752

  const DAYS_IN_YEAR: seq<nat> := [0, 0, 31, 59, 90, 120, 151, 181, 212, 243, 273, 304, 334]

  /** Leap years from 1980 to a year, that year excluded. */
  function LeapYears(year: nat): nat { (1980 + year - 1) / 4 - (1980 - 1) / 4 }

  predicate IsLeapYear(year: nat) { (1980 + year) % 4 == 0 }

  datatype Stamp = Stamp(date: nat, time: nat, centisec: nat, tzoffset: nat)

  /** The local offset that the stamp carries, in quarters of an hour: a signed 7-bit number. */
  function Quarters(tzoffset: nat): (k: int)
    ensures -64 <= k < 64
  {
    var low := tzoffset % 0x80;
    if low < 0x40 then low else low - 0x80
  }

  /** exfat_exfat2unix */
  function Exfat2Unix(s: Stamp, timezone: int): int
    requires s.date < 0x1_0000 && s.time < 0x1_0000
  {
    var day, month, year := s.date % 0x20, s.date / 0x20 % 0x10, s.date / 0x200;
    var twosec, min, hour := s.time % 0x20, s.time / 0x20 % 0x40, s.time / 0x800;
    if day == 0 || month == 0 || month > 12 then 0
    else if hour > 23 || min > 59 || twosec > 29 then 0
    else if s.centisec > 199 then 0
    else
      EPOCH_DIFF_SEC + DaysToDate(year, month, day) * DAY + hour * HOUR + min * MINUTE + twosec * 2 + s.centisec / 100
      + (if s.tzoffset >= 0x80 then -Quarters(s.tzoffset) * 900 else timezone)
  }

  /** Days from 1980 to a date. */
  function DaysToDate(year: nat, month: nat, day: nat): int
    requires 1 <= month <= 12
  {
    year * 365 + LeapYears(year) + MonthStart(year, month) + (day - 1)
  }

  /** Days of a year before a month. */
  function MonthStart(year: nat, month: nat): nat
    requires 1 <= month <= 12
  {
    DAYS_IN_YEAR[month] + (if IsLeapYear(year) && month > 2 then 1 else 0)
  }

  function YearStart(year: nat): nat { year * 365 + LeapYears(year) }

  function YearLength(year: nat): nat { if IsLeapYear(year) then 366 else 365 }

  function MonthLength(year: nat, month: nat): nat
    requires 1 <= month <= 12
  {
    (if month < 12 then MonthStart(year, month + 1) else YearLength(year)) - MonthStart(year, month)
  }

  /** The year estimate by quadrennia is the year that contains the day, and no other does. */
  lemma YearSearch(days: nat, year: nat)
    ensures YearStart(year) <= days < YearStart(year) + YearLength(year) <==> year == 4 * days / 1461
  {
    assert YearStart(year) == (1461 * year + 3) / 4;
    assert YearStart(year) + YearLength(year) == (1461 * (year + 1) + 3) / 4;
  }

  /** The months of a year follow each other. */
  lemma MonthsInOrder(year: nat, m: nat, n: nat)
    requires 1 <= m < n <= 12
    ensures MonthStart(year, m) + MonthLength(year, m) <= MonthStart(year, n)
  {
  }

  /** The loop of exfat_unix2exfat: the month that contains the day, and no other does. */
  method FindMonth(year: nat, dayOfYear: nat) returns (month: nat, day: nat)
    requires dayOfYear < YearLength(year)
    ensures 1 <= month <= 12
    ensures MonthStart(year, month) <= dayOfYear < MonthStart(year, month) + MonthLength(year, month)
    ensures forall m :: 1 <= m <= 12 && m != month ==>
      !(MonthStart(year, m) <= dayOfYear < MonthStart(year, m) + MonthLength(year, m))
    ensures day == dayOfYear - MonthStart(year, month) + 1 <= 31
  {
    var i := 1;
    while i <= 12
      invariant 1 <= i <= 12 && MonthStart(year, i) <= dayOfYear
    {
      var leapDay := if IsLeapYear(year) && i == 2 then 1 else 0;
      var leapSub := if IsLeapYear(year) && i >= 3 then 1 else 0;
      if i == 12 || dayOfYear - leapSub < DAYS_IN_YEAR[i + 1] + leapDay {
        forall m | 1 <= m <= 12 && m != i
          ensures !(MonthStart(year, m) <= dayOfYear < MonthStart(year, m) + MonthLength(year, m))
        {
          if m < i {
            MonthsInOrder(year, m, i);
          } else {
            MonthsInOrder(year, i, m);
          }
        }
        return i, dayOfYear - (DAYS_IN_YEAR[i] + leapSub) + 1;
      }
      i := i + 1;
    }
  }

  function PackDate(year: nat, month: nat, day: nat): nat {
    (day + 0x20 * month + 0x200 * year) % 0x1_0000
  }

  function PackTime(hour: nat, min: nat, twosec: nat): nat {
    twosec + 0x20 * min + 0x800 * hour
  }

  lemma UnpackDate(year: nat, month: nat, day: nat)
    requires day < 0x20 && month < 0x10
    ensures var d := PackDate(year, month, day);
      d < 0x1_0000 && d % 0x20 == day && d / 0x20 % 0x10 == month && d / 0x200 == year % 0x80
  {
    var d, y := PackDate(year, month, day), year % 0x80;
    DivModUnique(day + 0x20 * month + 0x200 * year, 0x1_0000, year / 0x80);
    DivModUnique(d, 0x20, month + 0x10 * y);
    DivModUnique(month + 0x10 * y, 0x10, y);
    DivModUnique(d, 0x200, y);
  }

  lemma UnpackTime(hour: nat, min: nat, twosec: nat)
    requires twosec < 0x20 && min < 0x40 && hour < 0x20
    ensures var t := PackTime(hour, min, twosec);
      t < 0x1_0000 && t % 0x20 == twosec && t / 0x20 % 0x40 == min && t / 0x800 == hour
  {
  }

  // ---- The calendar.

  /** The rule of the Gregorian calendar. */
  predicate GregorianLeap(y: nat) { y % 4 == 0 && (y % 100 != 0 || y % 400 == 0) }

  function GregorianMonth(y: nat, m: nat): nat {
    if m == 2 then (if GregorianLeap(y) then 29 else 28)
    else if m == 4 || m == 6 || m == 9 || m == 11 then 30
    else 31
  }

  /** Days of a year before a month. */
  function DaysBefore(y: nat, m: nat): nat {
    if m <= 1 then 0 else DaysBefore(y, m - 1) + GregorianMonth(y, m - 1)
  }

  /** Days from the start of 1970 to the start of a year. */
  function DaysSince1970(y: nat): nat {
    if y <= 1970 then 0 else DaysSince1970(y - 1) + if GregorianLeap(y - 1) then 366 else 365
  }

  /** Days from the start of 1970 to a date. */
  function GregorianDay(y: nat, m: nat, d: nat): nat {
    DaysSince1970(y) + DaysBefore(y, m) + d
  }

  /** From 1980 to 2107 the two rules differ in 2100 only. */
  lemma LeapYearsAgree(year: nat)
    requires year < 0x80
    ensures IsLeapYear(year) <==> GregorianLeap(1980 + year) || year == 120
    ensures year == 120 ==> !GregorianLeap(1980 + year)
  {
    var y := 1980 + year;
    assert y % 100 == if y < 2000 then y - 1900 else if y < 2100 then y - 2000 else y - 2100;
    assert y % 400 == if y < 2000 then y - 1600 else y - 2000;
  }

  lemma FirstTenYears()
    ensures DaysSince1970(1980) == EPOCH_DIFF_DAYS
  {
    assert DaysSince1970(1970) == 0;
    assert DaysSince1970(1972) == 730;
    assert DaysSince1970(1974) == 1461;
    assert DaysSince1970(1976) == 2191;
    assert DaysSince1970(1978) == 2922;
  }

  /** Both calendars have the same years up to 2100, which is a leap year in this one alone. */
  lemma {:induction false} YearsAgree(year: nat)
    requires year < 0x80
    ensures EPOCH_DIFF_DAYS + YearStart(year) == DaysSince1970(1980 + year) + if year > 120 then 1 else 0
  {
    hide GregorianLeap, IsLeapYear, YearStart;
    if year == 0 {
      FirstTenYears();
      YearStartBounds(0);
    } else {
      YearsAgree(year - 1);
      LeapYearsAgree(year - 1);
      YearStartBounds(year - 1);
    }
  }

  /** The table of months is that of the calendar. */
  lemma MonthsAgree(year: nat, month: nat)
    requires year < 0x80 && 1 <= month <= 12
    ensures MonthStart(year, month) == DaysBefore(1980 + year, month) + if year == 120 && month > 2 then 1 else 0
  {
    hide GregorianLeap, IsLeapYear;
    LeapYearsAgree(year);
    MonthsBefore(1980 + year, month);
  }

  lemma MonthsBefore(y: nat, m: nat)
    requires 1 <= m <= 12
    ensures DaysBefore(y, m) == DAYS_IN_YEAR[m] + if GregorianLeap(y) && m > 2 then 1 else 0
  {
    assert DaysBefore(y, 1) == 0 && DaysBefore(y, 2) == 31;
    if m > 2 {
      assert DaysBefore(y, 3) == 59 + if GregorianLeap(y) then 1 else 0;
      assert DaysBefore(y, 5) == DaysBefore(y, 3) + 61;
      assert DaysBefore(y, 7) == DaysBefore(y, 5) + 61;
      assert DaysBefore(y, 9) == DaysBefore(y, 7) + 62;
      assert DaysBefore(y, 11) == DaysBefore(y, 9) + 61;
    }
  }

  /** Days are counted as the calendar counts them exactly up to the end of February 2100. */
  lemma CalendarAgrees(year: nat, month: nat, day: nat)
    requires year < 0x80 && 1 <= month <= 12 && day >= 1
    ensures EPOCH_DIFF_DAYS + DaysToDate(year, month, day) == GregorianDay(1980 + year, month, day - 1)
        <==> year < 120 || (year == 120 && month <= 2)
  {
    YearsAgree(year);
    MonthsAgree(year, month);
  }

  /** The fields of a stamp are in range. */
  predicate Proper(year: nat, month: nat, day: nat, hour: nat, min: nat, twosec: nat, centisec: nat) {
    year < 0x80 && 1 <= month <= 12 && 1 <= day <= 31 && hour <= 23 && min <= 59 && twosec <= 29 && centisec <= 199
  }

  /** A stamp is read as the calendar reads it, in the offset that it carries or, without one, in
      the local time zone. */
  lemma ReadsCalendar(year: nat, month: nat, day: nat, hour: nat, min: nat, twosec: nat, centisec: nat, offset: nat, timezone: int)
    requires Proper(year, month, day, hour, min, twosec, centisec)
    requires year < 120 || (year == 120 && month <= 2)
    ensures PackDate(year, month, day) < 0x1_0000 && PackTime(hour, min, twosec) < 0x1_0000
    ensures var local := 86400 * GregorianDay(1980 + year, month, day - 1) + 3600 * hour + 60 * min + 2 * twosec + centisec / 100;
      Exfat2Unix(Stamp(PackDate(year, month, day), PackTime(hour, min, twosec), centisec, offset), timezone) ==
        if offset < 0x80 then local + timezone
        else local - 900 * (if offset % 0x80 < 0x40 then offset % 0x80 else offset % 0x80 - 0x80)
  {
    hide GregorianDay, PackDate, PackTime, DaysToDate;
    UnpackDate(year, month, day);
    UnpackTime(hour, min, twosec);
    CalendarAgrees(year, month, day);
  }

  /** A leap day: noon and 34 minutes and 56 seconds of 29 February 2024 in Greenwich. */
  lemma LeapDay()
    ensures Exfat2Unix(Stamp(PackDate(44, 2, 29), PackTime(12, 34, 28), 0, 0x80), 0) == 1709210096
    ensures DaysSince1970(2024) == 19723
  {
    YearsAgree(44);
    assert YearStart(44) == 16071;
    UnpackDate(44, 2, 29);
    UnpackTime(12, 34, 28);
  }

  /** Seconds of a day and their three fields, with the odd second beside them. */
  lemma TimeOfDay(t: nat)
    ensures var hour, min, twosec := t % DAY / HOUR, t % HOUR / MINUTE, t % MINUTE / 2;
      && hour <= 23 && min <= 59 && twosec <= 29
      && t == t / DAY * DAY + hour * HOUR + min * MINUTE + twosec * 2 + t % 2 * 100 / 100
  {
    var d, h, m := t / DAY, t % DAY / HOUR, t % HOUR / MINUTE;
    assert t == d * DAY + t % DAY && t % DAY == h * HOUR + t % DAY % HOUR;
    assert t == (24 * d + h) * HOUR + t % DAY % HOUR;
    assert t % HOUR == t % DAY % HOUR;
    assert t % HOUR == m * MINUTE + t % HOUR % MINUTE;
    assert t == (60 * (24 * d + h) + m) * MINUTE + t % HOUR % MINUTE;
    assert t % MINUTE == t % HOUR % MINUTE;
    assert t % MINUTE % 2 == t % 2;
  }

  /** Division in C. */
  function Truncated(a: int, d: nat): int
    requires d > 0
  {
    if a >= 0 then a / d else -(-a / d)
  }

  /** The offset byte that is recorded for a time zone. */
  function Recorded(timezone: int): (byte: nat)
    ensures 0x80 <= byte <= 0xff
  {
    0x80 + Truncated(Truncated(-timezone, 60), 15) % 0x80
  }

  /** By how many seconds a reader of the recorded offset is wrong. */
  function ZoneError(timezone: int): int {
    timezone + Quarters(Recorded(timezone)) * 900
  }

  /** The recorded offset is read back exactly for whole quarters of an hour in seven bits. */
  lemma OffsetBack(timezone: int)
    ensures ZoneError(timezone) == 0 <==> timezone % 900 == 0 && -63 * 900 <= timezone <= 64 * 900
  {
    hide Quarters, Truncated;
    var q := -timezone / 900;
    if timezone % 900 == 0 {
      assert timezone == -900 * q;
      WholeQuarters(q);
      if -64 <= q < 64 {
        QuartersBack(q);
      }
    }
  }

  lemma WholeQuarters(q: int)
    ensures Truncated(Truncated(900 * q, 60), 15) == q
  {
  }

  lemma QuartersBack(q: int)
    requires -64 <= q < 64
    ensures Quarters(0x80 + q % 0x80) == q
  {
  }

  /** No stamp stands for a day after 2107: a year has seven bits. */
  lemma DaysBounded(year: nat, month: nat, day: nat)
    requires year < 0x80 && 1 <= month <= 12 && 1 <= day <= 31
    ensures 0 <= DaysToDate(year, month, day) < ALL_DAYS
  {
    assert YearStart(year) == (1461 * year + 3) / 4;
    MonthsInOrderAll(year, month);
  }

  lemma MonthsInOrderAll(year: nat, month: nat)
    requires 1 <= month <= 12
    ensures MonthStart(year, month) + 31 <= YearLength(year) + (if month == 12 then 0 else 3)
    ensures month < 12 ==> MonthStart(year, month) + 31 <= YearLength(year)
  {
  }

  /** exfat_unix2exfat. For the local times from 1980 to 2107 packing and unpacking gives the
      second back but for the error of the time zone; earlier times become the start of 1980. */
  method Unix2Exfat(unixTime: int, timezone: int) returns (s: Stamp)
    requires unixTime - timezone < EPOCH_DIFF_SEC + 0x10000 * 365 * DAY
    ensures s.date < 0x1_0000 && s.time < 0x1_0000 && s.centisec in {0, 100} && 0x80 <= s.tzoffset <= 0xff
    ensures 1 <= s.date % 0x20 <= 31 && 1 <= s.date / 0x20 % 0x10 <= 12
    ensures s.time % 0x20 <= 29 && s.time / 0x20 % 0x40 <= 59 && s.time / 0x800 <= 23
    ensures 0 <= unixTime - (EPOCH_DIFF_SEC + timezone) < ALL_DAYS * DAY ==>
      Exfat2Unix(s, timezone) == unixTime - ZoneError(timezone)
    ensures unixTime < EPOCH_DIFF_SEC + timezone ==>
      Exfat2Unix(s, timezone) == EPOCH_DIFF_SEC + timezone - ZoneError(timezone)
    ensures ZoneError(timezone) == 0 ==>
      (Exfat2Unix(s, timezone) == unixTime <==> 0 <= unixTime - (EPOCH_DIFF_SEC + timezone) < ALL_DAYS * DAY)
  {
    hide PackDate, PackTime, Quarters, DaysToDate, Recorded;
    var shift := EPOCH_DIFF_SEC + timezone;
    var t: nat := if unixTime < shift then 0 else unixTime - shift;
    var days := t / DAY;
    var year := 4 * days / 1461;
    YearSearch(days, year);
    var month, day := FindMonth(year, days - YearStart(year));
    var hour, min, twosec := t % DAY / HOUR, t % HOUR / MINUTE, t % MINUTE / 2;
    s := Stamp(PackDate(year, month, day), PackTime(hour, min, twosec), t % 2 * 100, Recorded(timezone));
    UnpackDate(year, month, day);
    TimeOfDay(t);
    UnpackTime(hour, min, twosec);
    WholeDays(t);
    Restored(days, year, month, day);
  }

  lemma WholeDays(t: nat)
    ensures t < ALL_DAYS * DAY <==> t / DAY < ALL_DAYS
  {
  }

  /** The days that the date fields stand for: all of them up to 2107, fewer after that. */
  lemma Restored(days: nat, year: nat, month: nat, day: nat)
    requires YearStart(year) <= days < YearStart(year) + YearLength(year) && 1 <= month <= 12
    requires days - YearStart(year) == MonthStart(year, month) + day - 1 && 1 <= day <= 31
    ensures days < ALL_DAYS <==> year < 0x80
    ensures days < ALL_DAYS ==> DaysToDate(year % 0x80, month, day) == days
    ensures 0 <= DaysToDate(year % 0x80, month, day) < ALL_DAYS
  {
    hide MonthStart;
    YearsUpTo2107(year);
    DaysBounded(year % 0x80, month, day);
  }

  lemma YearsUpTo2107(year: nat)
    ensures if year < 0x80 then YearStart(year) + YearLength(year) <= ALL_DAYS else YearStart(year) >= ALL_DAYS
    ensures year < 0x80 ==> year % 0x80 == year
  {
    hide YearStart, YearLength;
    YearStartBounds(year);
    YearStartBounds(year + 1);
  }

  /** A year starts every 365 and a quarter days, rounded up. */
  lemma YearStartBounds(year: nat)
    ensures 1461 * year <= 4 * YearStart(year) <= 1461 * year + 3
    ensures YearStart(year) + YearLength(year) == YearStart(year + 1)
  {
  }
}
