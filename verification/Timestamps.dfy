/**
 * Stored timestamps: RFC 3339 text (sections 5.1 and 5.6), as written by `Time.Format` and read by
 * `time.Parse`.
 *
 * Calendar arithmetic counts days from 1 January of year 0 of the proleptic Gregorian calendar.
 * Go's zero time is 1 January of year 1, that is GO_ZERO_DAYS later.
 */
module Timestamps {
  import opened Prelude
  import opened GoTime
  import opened Text

  const DAY := 86_400
  const GO_ZERO_DAYS := 366

  // ----- Calendar ------------------------------------------------------------------------------

  datatype Date = Date(year: nat, month: nat, day: nat)

  predicate Leap(year: nat) {
    year % 4 == 0 && (year % 100 != 0 || year % 400 == 0)
  }

  function DaysInYear(year: nat): nat {
    if Leap(year) then 366 else 365
  }

  function DaysInMonth(year: nat, month: nat): nat {
    if month == 2 then (if Leap(year) then 29 else 28)
    else if month in {4, 6, 9, 11} then 30 else 31
  }

  function DaysBeforeYear(year: nat): nat {
    if year == 0 then 0 else DaysBeforeYear(year - 1) + DaysInYear(year - 1)
  }

  function DaysBeforeMonth(year: nat, month: nat): nat {
    if month <= 1 then 0 else DaysBeforeMonth(year, month - 1) + DaysInMonth(year, month - 1)
  }

  predicate ValidDate(d: Date) {
    1 <= d.month <= 12 && 1 <= d.day <= DaysInMonth(d.year, d.month)
  }

  function DayNumber(d: Date): int {
    DaysBeforeYear(d.year) + DaysBeforeMonth(d.year, d.month) + d.day - 1
  }

  /** Counts whole years, then whole months, off a number of days. */
  function YearFrom(year: nat, days: nat): (nat, nat)
    decreases days
  {
    if days < DaysInYear(year) then (year, days) else YearFrom(year + 1, days - DaysInYear(year))
  }

  function MonthFrom(year: nat, month: nat, days: nat): (nat, nat)
    decreases 12 - month
  {
    if month >= 12 || days < DaysInMonth(year, month) then (month, days)
    else MonthFrom(year, month + 1, days - DaysInMonth(year, month))
  }

  /** The calendar date of a day number. */
  function DateOf(days: nat): Date {
    var (year, inYear) := YearFrom(0, days);
    var (month, inMonth) := MonthFrom(year, 1, inYear);
    Date(year, month, inMonth + 1)
  }

  lemma YearIsTwelveMonths(year: nat)
    ensures DaysBeforeMonth(year, 12) + 31 == DaysInYear(year)
  {
    var feb := DaysInMonth(year, 2);
    assert DaysBeforeMonth(year, 2) == 31;
    assert DaysBeforeMonth(year, 3) == 31 + feb;
    assert DaysBeforeMonth(year, 5) == 92 + feb;
    assert DaysBeforeMonth(year, 7) == 153 + feb;
    assert DaysBeforeMonth(year, 9) == 215 + feb;
    assert DaysBeforeMonth(year, 11) == 276 + feb;
  }

  lemma {:induction false} YearFromSplits(year: nat, days: nat)
    ensures var r := YearFrom(year, days);
            r.1 < DaysInYear(r.0) && DaysBeforeYear(year) + days == DaysBeforeYear(r.0) + r.1
    decreases days
  {
    if days >= DaysInYear(year) { YearFromSplits(year + 1, days - DaysInYear(year)); }
  }

  lemma {:induction false} MonthFromSplits(year: nat, month: nat, days: nat)
    requires 1 <= month <= 12 && DaysBeforeMonth(year, month) + days < DaysInYear(year)
    ensures var r := MonthFrom(year, month, days);
            && 1 <= r.0 <= 12 && r.1 < DaysInMonth(year, r.0)
            && DaysBeforeMonth(year, month) + days == DaysBeforeMonth(year, r.0) + r.1
    decreases 12 - month
  {
    YearIsTwelveMonths(year);
    if month < 12 && days >= DaysInMonth(year, month) {
      MonthFromSplits(year, month + 1, days - DaysInMonth(year, month));
    }
  }

  /** The date of a day number is a real date with that number. */
  lemma DateOfCorrect(days: nat)
    ensures ValidDate(DateOf(days)) && DayNumber(DateOf(days)) == days
  {
    YearFromSplits(0, days);
    var (year, inYear) := YearFrom(0, days);
    MonthFromSplits(year, 1, inYear);
  }

  predicate DateLess(d: Date, e: Date) {
    d.year < e.year || (d.year == e.year && (d.month < e.month || (d.month == e.month && d.day < e.day)))
  }

  lemma {:induction false} YearsAddUp(y: nat, z: nat)
    requires y < z
    ensures DaysBeforeYear(y) + DaysInYear(y) <= DaysBeforeYear(z)
  {
    if y + 1 < z { YearsAddUp(y, z - 1); }
  }

  lemma {:induction false} MonthsAddUp(year: nat, m: nat, n: nat)
    requires 1 <= m < n <= 13
    ensures DaysBeforeMonth(year, m) + DaysInMonth(year, m) <= DaysBeforeMonth(year, n)
  {
    if m + 1 < n { MonthsAddUp(year, m, n - 1); }
  }

  lemma DayNumberOrder(d: Date, e: Date)
    requires ValidDate(d) && ValidDate(e) && DateLess(d, e)
    ensures DayNumber(d) < DayNumber(e)
  {
    YearIsTwelveMonths(d.year);
    if d.month < 12 { MonthsAddUp(d.year, d.month, 12); }
    if d.year < e.year {
      YearsAddUp(d.year, e.year);
    } else if d.month < e.month {
      MonthsAddUp(d.year, d.month, e.month);
    }
  }

  /** Dates and day numbers are in one-to-one correspondence, in order. */
  lemma DateOrder(days: nat, later: nat)
    requires days < later
    ensures DateLess(DateOf(days), DateOf(later))
  {
    var d, e := DateOf(days), DateOf(later);
    DateOfCorrect(days);
    DateOfCorrect(later);
    if !DateLess(d, e) && d != e { DayNumberOrder(e, d); }
  }

  lemma DateOfDayNumber(d: Date)
    requires ValidDate(d)
    ensures DateOf(DayNumber(d)) == d
  {
    var e := DateOf(DayNumber(d));
    DateOfCorrect(DayNumber(d));
    if DateLess(d, e) { DayNumberOrder(d, e); }
    if DateLess(e, d) { DayNumberOrder(e, d); }
  }

  /** The number of multiples of 4, of 100 and of 400 below a year, and how they grow. */
  function LeapsBefore(year: int): int {
    (year + 3) / 4 - (year + 99) / 100 + (year + 399) / 400
  }

  lemma LeapsGrow(year: nat)
    ensures LeapsBefore(year + 1) == LeapsBefore(year) + if Leap(year) then 1 else 0
  {
    MultiplesGrow4(year);
    MultiplesGrow100(year);
    MultiplesGrow400(year);
    CenturiesAreMultiples(year);
  }

  lemma MultiplesGrow4(n: nat)
    ensures (n + 4) / 4 == (n + 3) / 4 + if n % 4 == 0 then 1 else 0
  {}

  lemma MultiplesGrow100(n: nat)
    ensures (n + 100) / 100 == (n + 99) / 100 + if n % 100 == 0 then 1 else 0
  {}

  lemma MultiplesGrow400(n: nat)
    ensures (n + 400) / 400 == (n + 399) / 400 + if n % 400 == 0 then 1 else 0
  {}

  lemma CenturiesAreMultiples(n: nat)
    ensures n % 400 == 0 ==> n % 100 == 0
    ensures n % 100 == 0 ==> n % 4 == 0
  {
    if n % 400 == 0 { HundredFold(n, 4 * (n / 400)); }
    if n % 100 == 0 { FourFold(n, 25 * (n / 100)); }
  }

  lemma HundredFold(n: nat, m: nat)
    requires n == 100 * m
    ensures n % 100 == 0
  {}

  lemma FourFold(n: nat, m: nat)
    requires n == 4 * m
    ensures n % 4 == 0
  {}

  /** The number of days before a year, counting leap years directly. */
  lemma {:induction false} DaysBeforeYearClosed(year: nat)
    ensures DaysBeforeYear(year) == 365 * year + LeapsBefore(year)
  {
    if year > 0 {
      DaysBeforeYearClosed(year - 1);
      LeapsGrow(year - 1);
      hide LeapsBefore, Leap;
    }
  }

  const DAYS_OF_FOUR_DIGIT_YEARS := 3_652_425

  lemma YearBelow(days: nat, limit: nat)
    ensures DateOf(days).year < limit <==> days < DaysBeforeYear(limit)
  {
    YearFromSplits(0, days);
    var year := DateOf(days).year;
    if year < limit { YearsAddUp(year, limit); }
    if year > limit { YearsAddUp(limit, year); }
  }

  lemma YearBelowClosed(days: nat, limit: nat)
    ensures DateOf(days).year < limit <==> days < 365 * limit + LeapsBefore(limit)
  {
    hide DateOf;
    YearBelow(days, limit);
    DaysBeforeYearClosed(limit);
  }

  /** Exactly the days below DAYS_OF_FOUR_DIGIT_YEARS have a year of at most four digits. */
  lemma FourDigitYears(days: nat)
    ensures DateOf(days).year < 10_000 <==> days < DAYS_OF_FOUR_DIGIT_YEARS
  {
    hide DateOf;
    YearBelowClosed(days, 10_000);
  }

  // ----- The calendar against the textbook formula ----------------------------------------------

  /** The days of a year before a month: months alternate as 367/12, and February is short. */
  function DaysBeforeMonthClosed(year: int, month: int): int {
    var leap := year % 4 == 0 && (year % 100 != 0 || year % 400 == 0);
    (367 * month - 362) / 12 - if month <= 2 then 0 else if leap then 1 else 2
  }

  /** The day number of a date of the proleptic Gregorian calendar, for years of either sign. */
  function CivilDay(year: int, month: int, day: int): int {
    365 * year + (year + 3) / 4 - (year + 99) / 100 + (year + 399) / 400 + DaysBeforeMonthClosed(year, month) + day - 1
  }

  lemma MonthStarts(year: nat, month: nat)
    requires 1 <= month <= 12
    ensures DaysBeforeMonth(year, month) == DaysBeforeMonthClosed(year, month)
  {
    var feb := DaysInMonth(year, 2);
    assert DaysBeforeMonth(year, 2) == 31;
    assert DaysBeforeMonth(year, 3) == 31 + feb;
    assert DaysBeforeMonth(year, 4) == 62 + feb;
    assert DaysBeforeMonth(year, 5) == 92 + feb;
    assert DaysBeforeMonth(year, 6) == 123 + feb;
    assert DaysBeforeMonth(year, 7) == 153 + feb;
    assert DaysBeforeMonth(year, 8) == 184 + feb;
    assert DaysBeforeMonth(year, 9) == 215 + feb;
    assert DaysBeforeMonth(year, 10) == 245 + feb;
    assert DaysBeforeMonth(year, 11) == 276 + feb;
    assert DaysBeforeMonth(year, 12) == 306 + feb;
  }

  /** The year-by-year and month-by-month count is the textbook formula. */
  lemma DayNumberClosed(d: Date)
    requires 1 <= d.month <= 12
    ensures DayNumber(d) == CivilDay(d.year, d.month, d.day)
  {
    hide Leap, DaysBeforeMonth, DaysBeforeYear, DaysBeforeMonthClosed;
    DaysBeforeYearClosed(d.year);
    MonthStarts(d.year, d.month);
  }

  /** The first day of the following month. */
  function NextMonthDay(year: int, month: int): int {
    if month == 12 then CivilDay(year + 1, 1, 1) else CivilDay(year, month + 1, 1)
  }

  /** A month's length is the distance to the next one. */
  lemma MonthLength(year: nat, month: nat)
    requires 1 <= month <= 12
    ensures NextMonthDay(year, month) == CivilDay(year, month, 1) + DaysInMonth(year, month)
  {
    DayNumberClosed(Date(year, month, 1));
    if month == 12 {
      DayNumberClosed(Date(year + 1, 1, 1));
      YearIsTwelveMonths(year);
    } else {
      DayNumberClosed(Date(year, month + 1, 1));
    }
    hide CivilDay, Leap;
  }

  /** A date that exists: its day is before the first day of the following month. */
  predicate RealDate(d: Date) {
    1 <= d.month <= 12 && 1 <= d.day && CivilDay(d.year, d.month, d.day) < NextMonthDay(d.year, d.month)
  }

  lemma ValidDateIff(d: Date)
    ensures ValidDate(d) <==> RealDate(d)
  {
    if 1 <= d.month <= 12 {
      MonthLength(d.year, d.month);
      DayInMonth(d.year, d.month, d.day);
    }
    hide CivilDay, NextMonthDay, Leap;
  }

  lemma DayInMonth(year: int, month: int, day: int)
    ensures CivilDay(year, month, day) == CivilDay(year, month, 1) + day - 1
  {}

  lemma MonthContains(d: Date)
    requires ValidDate(d)
    ensures CivilDay(d.year, d.month, 1) <= CivilDay(d.year, d.month, d.day) < NextMonthDay(d.year, d.month)
  {
    ValidDateIff(d);
    DayInMonth(d.year, d.month, d.day);
    hide CivilDay, NextMonthDay;
  }

  lemma QuotientShifts(n: int, c: int)
    ensures (n + 400 * c) / 4 == n / 4 + 100 * c
    ensures (n + 400 * c) / 100 == n / 100 + 4 * c
    ensures (n + 400 * c) / 400 == n / 400 + c
    ensures (n + 400 * c) % 4 == n % 4 && (n + 400 * c) % 100 == n % 100 && (n + 400 * c) % 400 == n % 400
  {
    assert n == n / 4 * 4 + n % 4 && n == n / 100 * 100 + n % 100 && n == n / 400 * 400 + n % 400;
  }

  const CYCLE_YEARS := 400
  const CYCLE_DAYS := 146_097

  /** The calendar repeats every 400 years. */
  lemma CycleShifts(year: int, month: int, day: int, c: int)
    ensures CivilDay(year + CYCLE_YEARS * c, month, day) == CivilDay(year, month, day) + CYCLE_DAYS * c
  {
    QuotientShifts(year, c);
    QuotientShifts(year + 3, c);
    QuotientShifts(year + 99, c);
    QuotientShifts(year + 399, c);
    assert year + CYCLE_YEARS * c + 3 == year + 3 + 400 * c;
    assert year + CYCLE_YEARS * c + 99 == year + 99 + 400 * c;
    assert year + CYCLE_YEARS * c + 399 == year + 399 + 400 * c;
    assert DaysBeforeMonthClosed(year + CYCLE_YEARS * c, month) == DaysBeforeMonthClosed(year, month);
  }

  datatype CivilDate = CivilDate(year: int, month: nat, day: nat)

  /** The date of any day number; days before year 0 are moved into it by whole cycles. */
  function CivilOf(days: int): CivilDate {
    var cycles := if days >= 0 then 0 else -days / CYCLE_DAYS + 1;
    var d := DateOf(days + cycles * CYCLE_DAYS);
    CivilDate(d.year - cycles * CYCLE_YEARS, d.month, d.day)
  }

  /** It is the date with that number, in the month that contains the day. */
  lemma CivilOfCorrect(days: int)
    ensures var d := CivilOf(days);
            && 1 <= d.month <= 12
            && CivilDay(d.year, d.month, d.day) == days
            && CivilDay(d.year, d.month, 1) <= days < NextMonthDay(d.year, d.month)
  {
    hide CivilDay, DateOf;
    var cycles := if days >= 0 then 0 else -days / CYCLE_DAYS + 1;
    assert days + cycles * CYCLE_DAYS >= 0 && cycles * CYCLE_DAYS == CYCLE_DAYS * cycles;
    var d := DateOf(days + cycles * CYCLE_DAYS);
    DateOfCorrect(days + cycles * CYCLE_DAYS);
    DayNumberClosed(d);
    MonthContains(d);
    CycleShifts(d.year, d.month, d.day, -cycles);
    CycleShifts(d.year, d.month, 1, -cycles);
    CycleShifts(d.year, d.month + 1, 1, -cycles);
    CycleShifts(d.year + 1, 1, 1, -cycles);
    assert d.year + 1 + CYCLE_YEARS * -cycles == d.year + CYCLE_YEARS * -cycles + 1;
    assert CYCLE_YEARS * -cycles == -(cycles * CYCLE_YEARS);
  }

  // ----- Time of day ---------------------------------------------------------------------------

  datatype TimeOfDay = TimeOfDay(hour: nat, minute: nat, second: nat)

  predicate ValidTime(c: TimeOfDay) {
    c.hour < 24 && c.minute < 60 && c.second < 60
  }

  function SecondNumber(c: TimeOfDay): nat {
    c.hour * 3600 + c.minute * 60 + c.second
  }

  function TimeOf(seconds: nat): TimeOfDay {
    TimeOfDay(seconds / 3600, seconds / 60 % 60, seconds % 60)
  }

  lemma TimeOfCorrect(seconds: nat)
    requires seconds < DAY
    ensures ValidTime(TimeOf(seconds)) && SecondNumber(TimeOf(seconds)) == seconds
  {}

  predicate TimeLess(c: TimeOfDay, d: TimeOfDay) {
    c.hour < d.hour || (c.hour == d.hour && (c.minute < d.minute || (c.minute == d.minute && c.second < d.second)))
  }

  lemma TimeOrder(seconds: nat, later: nat)
    requires seconds < later < DAY
    ensures TimeLess(TimeOf(seconds), TimeOf(later))
  {
    hide TimeOf;
    TimeOfCorrect(seconds);
    TimeOfCorrect(later);
  }

  // ----- Writing -------------------------------------------------------------------------------

  /** Whole local seconds since 1 January of year 0, for a zone offset in minutes. */
  function LocalSeconds(t: int, offset: int): int {
    t / SECOND + GO_ZERO_DAYS * DAY + offset * 60
  }

  predicate ValidOffset(offset: int) {
    -1440 < offset < 1440
  }

  /** A zone of whole minutes below a day, and a local year of four digits. */
  predicate Formattable(t: int, offset: int) {
    ValidOffset(offset) && 0 <= LocalSeconds(t, offset) < DAYS_OF_FOUR_DIGIT_YEARS * DAY
  }

  function DateText(d: Date): (s: string)
    ensures |s| == 10
  {
    Pad4(d.year) + "-" + Pad2(d.month) + "-" + Pad2(d.day)
  }

  function TimeText(c: TimeOfDay): (s: string)
    ensures |s| == 8
  {
    Pad2(c.hour) + ":" + Pad2(c.minute) + ":" + Pad2(c.second)
  }

  function ZoneText(offset: int): string {
    if offset == 0 then "Z"
    else
      var minutes := if offset < 0 then -offset else offset;
      (if offset < 0 then "-" else "+") + Pad2(minutes / 60) + ":" + Pad2(minutes % 60)
  }

  function StampText(d: Date, c: TimeOfDay, offset: int): string {
    DateText(d) + "T" + TimeText(c) + ZoneText(offset)
  }

  /** `t.Format(time.RFC3339)`: the fraction of a second is dropped. */
  function Format(t: int, offset: int): string
    requires Formattable(t, offset)
  {
    var local := LocalSeconds(t, offset);
    StampText(DateOf(local / DAY), TimeOf(local % DAY), offset)
  }

  /** A year as Go writes it: at least four digits, with a sign before year 0. */
  function YearText(year: int): string {
    var digits := if year < 0 then -year else year;
    (if year < 0 then "-" else "") + if digits < 10_000 then Pad4(digits) else Digits(digits)
  }

  /** A zone offset in seconds, cut to minutes toward zero; only the offset 0 is written as "Z". */
  function ZoneTextOf(zone: int): string {
    if zone == 0 then "Z"
    else
      var minutes := if zone < 0 then -zone / 60 else zone / 60;
      var hours := minutes / 60;
      (if zone <= -60 then "-" else "+")
        + (if hours < 100 then Pad2(hours) else Digits(hours)) + ":" + Pad2(minutes % 60)
  }

  /** `t.Format(time.RFC3339)` for any time and any zone, given in seconds. */
  function Written(t: int, zone: int): string {
    var local := t / SECOND + GO_ZERO_DAYS * DAY + zone;
    var d, c := CivilOf(local / DAY), TimeOf(local % DAY);
    YearText(d.year) + "-" + Pad2(d.month) + "-" + Pad2(d.day) + "T" + TimeText(c) + ZoneTextOf(zone)
  }

  /** What is written is the real date and the time of day whose distance from the zero time, in the zone, is t. */
  lemma WrittenIsLocalTime(t: int, zone: int) returns (d: CivilDate, c: TimeOfDay)
    ensures 1 <= d.month <= 12 && c.hour <= 23 && c.minute <= 59 && c.second <= 59
    ensures CivilDay(d.year, d.month, 1) <= CivilDay(d.year, d.month, d.day) < NextMonthDay(d.year, d.month)
    ensures 86_400 * (CivilDay(d.year, d.month, d.day) - CivilDay(1, 1, 1))
              + 3600 * c.hour + 60 * c.minute + c.second == t / SECOND + zone
    ensures Written(t, zone) ==
            YearText(d.year) + "-" + Pad2(d.month) + "-" + Pad2(d.day) + "T" + TimeText(c) + ZoneTextOf(zone)
  {
    hide CivilDay, NextMonthDay, DateOf, CivilOf, TimeOf, YearText, Pad2, TimeText, ZoneTextOf;
    var local := t / SECOND + GO_ZERO_DAYS * DAY + zone;
    d, c := CivilOf(local / DAY), TimeOf(local % DAY);
    CivilOfCorrect(local / DAY);
    TimeOfCorrect(local % DAY);
    ZeroDay();
    DaySplits(local);
  }

  lemma ZeroDay()
    ensures CivilDay(1, 1, 1) == GO_ZERO_DAYS
  {}

  lemma DaySplits(local: int)
    ensures local == DAY * (local / DAY) + local % DAY
  {}

  lemma ZoneTextInMinutes(offset: int)
    requires ValidOffset(offset)
    ensures ZoneTextOf(offset * 60) == ZoneText(offset)
  {}

  /** In the modelled range, whole-minute zones and four-digit years, this is `Format`. */
  lemma WrittenIsFormat(t: int, offset: int)
    requires Formattable(t, offset)
    ensures Written(t, offset * 60) == Format(t, offset)
  {
    hide DateOf, TimeOf, TimeText, ZoneText, ZoneTextOf, Pad2, Pad4;
    FourDigitYears(LocalSeconds(t, offset) / DAY);
    ZoneTextInMinutes(offset);
  }

  lemma KnownDate()
    ensures DateOf(366) == Date(1, 1, 1) && DateText(Date(1, 1, 1)) == "0001-01-01"
  {}

  lemma KnownTimes()
    ensures TimeText(TimeOf(0)) == "00:00:00"
    ensures TimeText(TimeOf(19_800)) == "05:30:00"
    ensures TimeText(TimeOf(1984)) == "00:33:04"
  {
    KnownPairs();
    hide Pad2, TimeText;
    KnownTime(0, TimeOfDay(0, 0, 0), "00:00:00");
    KnownTime(19_800, TimeOfDay(5, 30, 0), "05:30:00");
    KnownTime(1984, TimeOfDay(0, 33, 4), "00:33:04");
  }

  lemma KnownPairs()
    ensures Pad2(0) == "00" && Pad2(1) == "01" && Pad2(4) == "04" && Pad2(5) == "05"
    ensures Pad2(30) == "30" && Pad2(33) == "33"
  {}

  lemma KnownTime(seconds: nat, c: TimeOfDay, s: string)
    requires TimeOf(seconds) == c && |s| == 8 && s[2] == ':' && s[5] == ':'
    ensures Pad2(c.hour) == s[..2] && Pad2(c.minute) == s[3..5] && Pad2(c.second) == s[6..] ==>
              TimeText(TimeOf(seconds)) == s
  {
    hide Pad2, TimeOf;
  }

  lemma KnownZones()
    ensures ZoneText(0) == "Z" && ZoneText(330) == "+05:30" && ZoneText(-90) == "-01:30"
  {
    KnownPairs();
    ZoneParts(330, 5, 30);
    ZoneParts(-90, 1, 30);
    hide Pad2, ZoneText;
    assert "+" + "05" + ":" + "30" == "+05:30" && "-" + "01" + ":" + "30" == "-01:30";
    KnownZulu();
  }

  lemma KnownZulu()
    ensures ZoneText(0) == "Z"
  {}

  lemma ZoneParts(offset: int, hour: nat, minute: nat)
    requires offset != 0 && minute < 60 && (if offset < 0 then -offset else offset) == 60 * hour + minute
    ensures ZoneText(offset) == (if offset < 0 then "-" else "+") + Pad2(hour) + ":" + Pad2(minute)
  {
    MixedRadix(hour, minute);
  }

  /** Less than a minute is cut off, but only no offset at all is written "Z". */
  lemma KnownSecondZones()
    ensures ZoneTextOf(0) == "Z" && ZoneTextOf(-45) == "+00:00" && ZoneTextOf(-3661) == "-01:01"
  {
    assert Pad2(0) == "00" && Pad2(1) == "01";
    hide Pad2;
  }

  lemma KnownYears()
    ensures YearText(7) == "0007" && YearText(-1) == "-0001" && YearText(12_345) == "12345"
  {
    KnownPads();
    KnownDigits();
    hide Pad4, Digits;
  }

  lemma KnownPads()
    ensures Pad4(7) == "0007" && Pad4(1) == "0001"
  {
    assert Pad2(0) == "00" && Pad2(7) == "07" && Pad2(1) == "01";
    hide Pad2;
  }

  lemma KnownDigits()
    ensures Digits(12_345) == "12345"
  {
    assert Digits(1) == "1";
    DigitsGrow(1, 2);
    DigitsGrow(12, 3);
    DigitsGrow(123, 4);
    DigitsGrow(1234, 5);
    hide Digits;
  }

  lemma DigitsGrow(n: nat, d: nat)
    requires n > 0 && d < 10
    ensures Digits(10 * n + d) == Digits(n) + [DigitChar(d)]
  {}

  lemma FormatParts(t: int, offset: int, date: string, time: string, zone: string)
    requires Formattable(t, offset)
    requires DateText(DateOf(LocalSeconds(t, offset) / DAY)) == date
    requires TimeText(TimeOf(LocalSeconds(t, offset) % DAY)) == time && ZoneText(offset) == zone
    ensures Format(t, offset) == date + "T" + time + zone
  {
    hide DateOf, TimeOf, DateText, TimeText, ZoneText;
  }

  /** Go's zero time, as it is written in UTC. */
  lemma KnownUtcText()
    ensures Formattable(0, 0) && Format(0, 0) == "0001-01-01T00:00:00Z"
  {
    hide DateOf, TimeOf, DateText, TimeText, ZoneText, Format;
    KnownDate();
    KnownTimes();
    KnownZones();
    FormatParts(0, 0, "0001-01-01", "00:00:00", "Z");
  }

  /** The same instant in a zone ahead of UTC is written with a later clock time and a plus sign. */
  lemma KnownEasternText()
    ensures Formattable(0, 330) && Format(0, 330) == "0001-01-01T05:30:00+05:30"
  {
    hide DateOf, TimeOf, DateText, TimeText, ZoneText, Format;
    KnownDate();
    KnownTimes();
    KnownZones();
    FormatParts(0, 330, "0001-01-01", "05:30:00", "+05:30");
  }

  lemma KnownWesternText()
    ensures Formattable(7384 * SECOND, -90) && Format(7384 * SECOND, -90) == "0001-01-01T00:33:04-01:30"
  {
    hide DateOf, TimeOf, DateText, TimeText, ZoneText, Format;
    KnownDate();
    KnownTimes();
    KnownZones();
    FormatParts(7384 * SECOND, -90, "0001-01-01", "00:33:04", "-01:30");
  }

  /** Known texts, in and beyond the modelled range. */
  lemma KnownTexts()
    ensures Formattable(0, 0) && Format(0, 0) == "0001-01-01T00:00:00Z"
    ensures Formattable(0, 330) && Format(0, 330) == "0001-01-01T05:30:00+05:30"
    ensures Formattable(7384 * SECOND, -90) && Format(7384 * SECOND, -90) == "0001-01-01T00:33:04-01:30"
    ensures YearText(7) == "0007" && YearText(-1) == "-0001" && YearText(12_345) == "12345"
    ensures ZoneTextOf(0) == "Z" && ZoneTextOf(-45) == "+00:00" && ZoneTextOf(-3661) == "-01:01"
  {
    hide *;
    KnownUtcText();
    KnownEasternText();
    KnownWesternText();
    KnownYears();
    KnownSecondZones();
  }

  // ----- Reading -------------------------------------------------------------------------------

  predicate DateShape(s: string)
    requires |s| == 10
  {
    && AllDigits(s[..2]) && AllDigits(s[2..4]) && s[4] == '-'
    && AllDigits(s[5..7]) && s[7] == '-' && AllDigits(s[8..])
  }

  function ParseDate(s: string): Option<Date>
    requires |s| == 10
  {
    if !DateShape(s) then None else
    var d := Date(100 * Number2(s[..2]) + Number2(s[2..4]), Number2(s[5..7]), Number2(s[8..]));
    if ValidDate(d) then Some(d) else None
  }

  function ParseTime(s: string): Option<TimeOfDay>
    requires |s| == 8
  {
    if !(AllDigits(s[..2]) && s[2] == ':' && AllDigits(s[3..5]) && s[5] == ':' && AllDigits(s[6..])) then None else
    var c := TimeOfDay(Number2(s[..2]), Number2(s[3..5]), Number2(s[6..]));
    if ValidTime(c) then Some(c) else None
  }

  function ParseZone(s: string): Option<int> {
    if s == "Z" then Some(0)
    else if |s| != 6 || s[0] !in {'+', '-'} || s[3] != ':' || !AllDigits(s[1..3]) || !AllDigits(s[4..]) then None
    else
      var hour, minute := Number2(s[1..3]), Number2(s[4..]);
      if hour > 24 || minute > 60 then None
      else Some(if s[0] == '-' then -(hour * 60 + minute) else hour * 60 + minute)
  }

  /** `time.Parse(time.RFC3339, s)`, for text without a fraction of a second. */
  function Parse(s: string): Option<int> {
    if |s| < 20 || s[10] != 'T' then None else
    var date, time, zone := ParseDate(s[..10]), ParseTime(s[11..19]), ParseZone(s[19..]);
    if date.None? || time.None? || zone.None? then None
    else Some(InstantOf(date.value, time.value, zone.value))
  }

  function InstantOf(d: Date, c: TimeOfDay, offset: int): int {
    ((DayNumber(d) - GO_ZERO_DAYS) * DAY + SecondNumber(c) - offset * 60) * SECOND
  }

  predicate Writable(d: Date, c: TimeOfDay, offset: int) {
    ValidDate(d) && d.year < 10_000 && ValidTime(c) && ValidOffset(offset)
  }

  lemma ParseDateText(d: Date)
    requires ValidDate(d) && d.year < 10_000
    ensures ParseDate(DateText(d)) == Some(d)
  {
    var s := DateText(d);
    assert s[..2] == Pad2(d.year / 100) && s[2..4] == Pad2(d.year % 100);
    assert s[5..7] == Pad2(d.month) && s[8..] == Pad2(d.day);
    Pad2RoundTrip(d.year / 100);
    Pad2RoundTrip(d.year % 100);
    Pad2RoundTrip(d.month);
    Pad2RoundTrip(d.day);
  }

  lemma ParseTimeText(c: TimeOfDay)
    requires ValidTime(c)
    ensures ParseTime(TimeText(c)) == Some(c)
  {
    var s := TimeText(c);
    assert s[..2] == Pad2(c.hour) && s[3..5] == Pad2(c.minute) && s[6..] == Pad2(c.second);
    Pad2RoundTrip(c.hour);
    Pad2RoundTrip(c.minute);
    Pad2RoundTrip(c.second);
  }

  lemma ParseZoneText(offset: int)
    requires ValidOffset(offset)
    ensures ParseZone(ZoneText(offset)) == Some(offset)
  {
    if offset != 0 {
      var minutes := if offset < 0 then -offset else offset;
      var s := ZoneText(offset);
      assert s[1..3] == Pad2(minutes / 60) && s[4..] == Pad2(minutes % 60);
      Pad2RoundTrip(minutes / 60);
      Pad2RoundTrip(minutes % 60);
    }
  }

  lemma ParseStampText(d: Date, c: TimeOfDay, offset: int)
    requires Writable(d, c, offset)
    ensures Parse(StampText(d, c, offset)) == Some(InstantOf(d, c, offset))
  {
    var s := StampText(d, c, offset);
    assert s[..10] == DateText(d) && s[10] == 'T' && s[11..19] == TimeText(c) && s[19..] == ZoneText(offset);
    ParseDateText(d);
    ParseTimeText(c);
    ParseZoneText(offset);
    hide ParseDate, ParseTime, ParseZone, DateText, TimeText;
  }

  /** A zone the parser accepts: "Z", or a sign and two two-digit numbers up to 24 and 60. */
  ghost predicate ReadableZone(z: string, offset: int) {
    (z == "Z" && offset == 0) ||
    exists h: nat, m: nat :: h <= 24 && m <= 60 &&
      (var body := Pad2(h) + ":" + Pad2(m);
       (z == "+" + body && offset == h * 60 + m) || (z == "-" + body && offset == -(h * 60 + m)))
  }

  lemma ParsedZoneIsReadable(z: string, offset: int)
    requires ParseZone(z) == Some(offset)
    ensures ReadableZone(z, offset)
  {
    hide Pad2, Number2, AllDigits;
    if z != "Z" {
      var h, m := Number2(z[1..3]), Number2(z[4..]);
      Number2RoundTrip(z[1..3]);
      Number2RoundTrip(z[4..]);
      assert z == [z[0]] + (Pad2(h) + ":" + Pad2(m));
    }
  }

  lemma ReadableZoneParses(z: string, offset: int)
    requires ReadableZone(z, offset)
    ensures ParseZone(z) == Some(offset)
  {
    hide Pad2, Number2, AllDigits;
    if z != "Z" {
      var h: nat, m: nat :| h <= 24 && m <= 60 &&
        (var body := Pad2(h) + ":" + Pad2(m);
         (z == "+" + body && offset == h * 60 + m) || (z == "-" + body && offset == -(h * 60 + m)));
      Pad2RoundTrip(h);
      Pad2RoundTrip(m);
      assert z[1..3] == Pad2(h) && z[4..] == Pad2(m);
    }
  }

  lemma ParseZoneIff(z: string, offset: int)
    ensures ParseZone(z) == Some(offset) <==> ReadableZone(z, offset)
  {
    hide ParseZone, ReadableZone;
    if ParseZone(z) == Some(offset) { ParsedZoneIsReadable(z, offset); }
    if ReadableZone(z, offset) { ReadableZoneParses(z, offset); }
  }

  lemma ParseDateIff(s: string, d: Date)
    requires |s| == 10
    ensures ParseDate(s) == Some(d) <==> ValidDate(d) && d.year < 10_000 && s == DateText(d)
  {
    hide Pad2, Number2, AllDigits;
    if ParseDate(s) == Some(d) {
      Number2RoundTrip(s[..2]);
      Number2RoundTrip(s[2..4]);
      Number2RoundTrip(s[5..7]);
      Number2RoundTrip(s[8..]);
      assert d.year / 100 == Number2(s[..2]) && d.year % 100 == Number2(s[2..4]);
      assert s == s[..2] + s[2..4] + "-" + s[5..7] + "-" + s[8..];
    }
    if ValidDate(d) && d.year < 10_000 { ParseDateText(d); }
  }

  lemma ParseTimeIff(s: string, c: TimeOfDay)
    requires |s| == 8
    ensures ParseTime(s) == Some(c) <==> ValidTime(c) && s == TimeText(c)
  {
    hide Pad2, Number2, AllDigits;
    if ParseTime(s) == Some(c) {
      Number2RoundTrip(s[..2]);
      Number2RoundTrip(s[3..5]);
      Number2RoundTrip(s[6..]);
      assert s == s[..2] + ":" + s[3..5] + ":" + s[6..];
    }
    if ValidTime(c) { ParseTimeText(c); }
  }

  /** The text of a date, a time of day and a zone. */
  ghost predicate StampOf(s: string, d: Date, c: TimeOfDay, offset: int) {
    && RealDate(d) && d.year <= 9999 && c.hour <= 23 && c.minute <= 59 && c.second <= 59
    && exists z :: ReadableZone(z, offset) && s == DateText(d) + "T" + TimeText(c) + z
  }

  /** Exactly which texts the parser reads, and as which instant. */
  lemma ParseIff(s: string, t: int)
    ensures Parse(s) == Some(t) <==> exists d, c, offset :: StampOf(s, d, c, offset) && t == InstantOf(d, c, offset)
  {
    hide ParseDate, ParseTime, ParseZone, DateText, TimeText, ReadableZone, InstantOf, ValidDate, RealDate;
    if Parse(s) == Some(t) {
      var d, c, offset := ParseDate(s[..10]).value, ParseTime(s[11..19]).value, ParseZone(s[19..]).value;
      ParseDateIff(s[..10], d);
      ParseTimeIff(s[11..19], c);
      ParseZoneIff(s[19..], offset);
      ValidDateIff(d);
      assert s == s[..10] + "T" + s[11..19] + s[19..];
      assert StampOf(s, d, c, offset);
    }
    if exists d, c, offset :: StampOf(s, d, c, offset) && t == InstantOf(d, c, offset) {
      var d, c, offset :| StampOf(s, d, c, offset) && t == InstantOf(d, c, offset);
      var z :| ReadableZone(z, offset) && s == DateText(d) + "T" + TimeText(c) + z;
      assert s[..10] == DateText(d) && s[10] == 'T' && s[11..19] == TimeText(c) && s[19..] == z;
      ValidDateIff(d);
      ParseDateIff(s[..10], d);
      ParseTimeIff(s[11..19], c);
      ParseZoneIff(z, offset);
      ReadableZoneNotEmpty(z, offset);
    }
  }

  lemma ReadableZoneNotEmpty(z: string, offset: int)
    requires ReadableZone(z, offset)
    ensures |z| >= 1
  {}

  lemma InstantOfLocal(t: int, offset: int)
    requires Formattable(t, offset)
    ensures var local := LocalSeconds(t, offset);
            && Writable(DateOf(local / DAY), TimeOf(local % DAY), offset)
            && InstantOf(DateOf(local / DAY), TimeOf(local % DAY), offset) == t - t % SECOND
  {
    var local := LocalSeconds(t, offset);
    DateOfCorrect(local / DAY);
    FourDigitYears(local / DAY);
    TimeOfCorrect(local % DAY);
    hide DateOf, TimeOf, DayNumber, SecondNumber, ValidDate, ValidTime;
    var d, c := DateOf(local / DAY), TimeOf(local % DAY);
    assert DayNumber(d) * DAY + SecondNumber(c) == local;
    assert t == t / SECOND * SECOND + t % SECOND;
    assert InstantOf(d, c, offset) == (local - GO_ZERO_DAYS * DAY - offset * 60) * SECOND == t / SECOND * SECOND;
  }

  /** Reading back a written time returns it truncated to the second. */
  lemma ParseFormat(t: int, offset: int)
    requires Formattable(t, offset)
    ensures Parse(Format(t, offset)) == Some(t - t % SECOND)
  {
    hide Parse, StampText, InstantOf, DateOf, TimeOf;
    var local := LocalSeconds(t, offset);
    InstantOfLocal(t, offset);
    ParseStampText(DateOf(local / DAY), TimeOf(local % DAY), offset);
  }

  lemma LocalOfInstant(d: Date, c: TimeOfDay, offset: int)
    requires Writable(d, c, offset) && DayNumber(d) >= 0
    ensures var local := LocalSeconds(InstantOf(d, c, offset), offset);
            local / DAY == DayNumber(d) && local % DAY == SecondNumber(c)
  {
    hide DayNumber, SecondNumber, ValidDate;
    assert SecondNumber(c) < DAY by { TimeNumberBounded(c); }
    assert LocalSeconds(InstantOf(d, c, offset), offset) == DayNumber(d) * DAY + SecondNumber(c);
  }

  lemma TimeNumberBounded(c: TimeOfDay)
    requires ValidTime(c)
    ensures SecondNumber(c) < DAY && TimeOf(SecondNumber(c)) == c
  {
    var n, inHour := SecondNumber(c), c.minute * 60 + c.second;
    assert n == 3600 * c.hour + inHour && 0 <= inHour < 3600;
    assert n / 3600 == c.hour;
    MixedRadix(c.hour * 60 + c.minute, c.second);
    MixedRadix(c.hour, c.minute);
  }

  lemma MixedRadix(high: nat, low: nat)
    requires low < 60
    ensures (high * 60 + low) / 60 == high && (high * 60 + low) % 60 == low
  {}

  /** A stamp read and written again, in its own zone, is the same text. */
  lemma FormatOfStamp(d: Date, c: TimeOfDay, offset: int)
    requires Writable(d, c, offset)
    ensures Parse(StampText(d, c, offset)) == Some(InstantOf(d, c, offset))
    ensures Formattable(InstantOf(d, c, offset), offset)
    ensures Format(InstantOf(d, c, offset), offset) == StampText(d, c, offset)
  {
    hide DateOf, TimeOf, StampText, InstantOf, Parse;
    ParseStampText(d, c, offset);
    DateOfDayNumber(d);
    LocalOfInstant(d, c, offset);
    TimeNumberBounded(c);
    FourDigitYears(DayNumber(d));
    hide DayNumber, SecondNumber;
  }

  /** Four-digit years end before this instant, in every zone. */
  const END_OF_TIME := DAYS_OF_FOUR_DIGIT_YEARS * DAY * SECOND

  lemma FormattableBounded(t: int, offset: int)
    requires Formattable(t, offset)
    ensures t < END_OF_TIME
  {}

  // ----- Order ---------------------------------------------------------------------------------

  lemma DateTextOrder(d: Date, e: Date)
    requires ValidDate(d) && ValidDate(e) && d.year < 10_000 && e.year < 10_000 && DateLess(d, e)
    ensures TextLess(DateText(d), DateText(e))
  {
    hide Pad2, Pad4, TextLess;
    var md, me := Pad2(d.month) + "-" + Pad2(d.day), Pad2(e.month) + "-" + Pad2(e.day);
    assert DateText(d) == Pad4(d.year) + ("-" + md) && DateText(e) == Pad4(e.year) + ("-" + me);
    TextLessConcat(Pad4(d.year), "-" + md, Pad4(e.year), "-" + me);
    TextLessConcat("-", md, "-", me);
    assert md == Pad2(d.month) + ("-" + Pad2(d.day)) && me == Pad2(e.month) + ("-" + Pad2(e.day));
    TextLessConcat(Pad2(d.month), "-" + Pad2(d.day), Pad2(e.month), "-" + Pad2(e.day));
    TextLessConcat("-", Pad2(d.day), "-", Pad2(e.day));
    if d.year < e.year { Pad4Order(d.year, e.year); }
    else if d.month < e.month { Pad2Order(d.month, e.month); }
    else { Pad2Order(d.day, e.day); }
  }

  lemma TimeTextOrder(c: TimeOfDay, d: TimeOfDay)
    requires ValidTime(c) && ValidTime(d) && TimeLess(c, d)
    ensures TextLess(TimeText(c), TimeText(d))
  {
    hide Pad2, TextLess;
    var mc, md := Pad2(c.minute) + ":" + Pad2(c.second), Pad2(d.minute) + ":" + Pad2(d.second);
    assert TimeText(c) == Pad2(c.hour) + (":" + mc) && TimeText(d) == Pad2(d.hour) + (":" + md);
    TextLessConcat(Pad2(c.hour), ":" + mc, Pad2(d.hour), ":" + md);
    TextLessConcat(":", mc, ":", md);
    assert mc == Pad2(c.minute) + (":" + Pad2(c.second)) && md == Pad2(d.minute) + (":" + Pad2(d.second));
    TextLessConcat(Pad2(c.minute), ":" + Pad2(c.second), Pad2(d.minute), ":" + Pad2(d.second));
    TextLessConcat(":", Pad2(c.second), ":", Pad2(d.second));
    if c.hour < d.hour { Pad2Order(c.hour, d.hour); }
    else if c.minute < d.minute { Pad2Order(c.minute, d.minute); }
    else { Pad2Order(c.second, d.second); }
  }

  lemma StampTextOrder(d: Date, c: TimeOfDay, o: int, d': Date, c': TimeOfDay, o': int)
    requires Writable(d, c, o) && Writable(d', c', o')
    requires DateLess(d, d') || (d == d' && TimeLess(c, c'))
    ensures TextLess(StampText(d, c, o), StampText(d', c', o'))
  {
    hide DateText, TimeText, ZoneText, TextLess;
    var rest, rest' := TimeText(c) + ZoneText(o), TimeText(c') + ZoneText(o');
    assert StampText(d, c, o) == DateText(d) + ("T" + rest);
    assert StampText(d', c', o') == DateText(d') + ("T" + rest');
    TextLessConcat(DateText(d), "T" + rest, DateText(d'), "T" + rest');
    TextLessConcat("T", rest, "T", rest');
    TextLessConcat(TimeText(c), ZoneText(o), TimeText(c'), ZoneText(o'));
    if DateLess(d, d') { DateTextOrder(d, d'); } else { TimeTextOrder(c, c'); }
  }

  lemma SameLocalOrder(d: Date, c: TimeOfDay, o: int, o': int)
    ensures TextLess(StampText(d, c, o), StampText(d, c, o')) <==> TextLess(ZoneText(o), ZoneText(o'))
  {
    hide DateText, TimeText, ZoneText, TextLess;
    var head := DateText(d) + "T" + TimeText(c);
    TextLessConcat(head, ZoneText(o), head, ZoneText(o'));
    TextLessTrichotomy(head, head);
  }

  lemma LocalOrder(a: nat, b: nat)
    requires a < b
    ensures a / DAY < b / DAY || (a / DAY == b / DAY && a % DAY < b % DAY)
  {}

  lemma FormatOrder(t: int, o: int, u: int, o': int)
    requires Formattable(t, o) && Formattable(u, o') && LocalSeconds(t, o) < LocalSeconds(u, o')
    ensures TextLess(Format(t, o), Format(u, o'))
  {
    var a, b := LocalSeconds(t, o), LocalSeconds(u, o');
    InstantOfLocal(t, o);
    InstantOfLocal(u, o');
    hide DateOf, TimeOf, StampText, TextLess, InstantOf;
    LocalOrder(a, b);
    if a / DAY < b / DAY { DateOrder(a / DAY, b / DAY); } else { TimeOrder(a % DAY, b % DAY); }
    StampTextOrder(DateOf(a / DAY), TimeOf(a % DAY), o, DateOf(b / DAY), TimeOf(b % DAY), o');
  }

  /**
   * Exactly what comparing two stored texts compares, whatever their zones: the local clock times,
   * and on a tie the texts of the zones.
   */
  lemma FormatOrderIsLocal(t: int, o: int, u: int, o': int)
    requires Formattable(t, o) && Formattable(u, o')
    ensures TextLess(Format(t, o), Format(u, o')) <==>
            LocalSeconds(t, o) < LocalSeconds(u, o') ||
            (LocalSeconds(t, o) == LocalSeconds(u, o') && TextLess(ZoneText(o), ZoneText(o')))
  {
    hide DateOf, TimeOf, StampText, TextLess, ZoneText;
    TextLessTrichotomy(Format(t, o), Format(u, o'));
    var a, b := LocalSeconds(t, o), LocalSeconds(u, o');
    if a < b {
      FormatOrder(t, o, u, o');
    } else if b < a {
      FormatOrder(u, o', t, o);
    } else {
      SameLocalOrder(DateOf(a / DAY), TimeOf(a % DAY), o, o');
    }
  }

  /** With one zone, texts compare as the whole seconds they were written from. */
  lemma FormatOrderIff(t: int, u: int, offset: int)
    requires Formattable(t, offset) && Formattable(u, offset)
    ensures TextLess(Format(t, offset), Format(u, offset)) <==> t / SECOND < u / SECOND
    ensures Format(t, offset) == Format(u, offset) <==> t / SECOND == u / SECOND
  {
    hide DateOf, TimeOf, StampText, TextLess, ZoneText;
    FormatOrderIsLocal(t, offset, u, offset);
    FormatOrderIsLocal(u, offset, t, offset);
    TextLessTrichotomy(Format(t, offset), Format(u, offset));
    TextLessTrichotomy(ZoneText(offset), ZoneText(offset));
    if t / SECOND == u / SECOND { assert LocalSeconds(t, offset) == LocalSeconds(u, offset); }
  }

  /**
   * For times written with one zone offset, comparing the stored texts is comparing the instants
   * read back from them; and reading back is a monotone truncation of the original times.
   */
  lemma TextOrderIsInstantOrder(t: int, u: int, offset: int)
    requires Formattable(t, offset) && Formattable(u, offset)
    ensures Parse(Format(t, offset)).Some? && Parse(Format(u, offset)).Some?
    ensures TextLess(Format(t, offset), Format(u, offset)) <==>
            Parse(Format(t, offset)).value < Parse(Format(u, offset)).value
    ensures Format(t, offset) == Format(u, offset) <==>
            Parse(Format(t, offset)).value == Parse(Format(u, offset)).value
    ensures t <= u ==> Parse(Format(t, offset)).value <= Parse(Format(u, offset)).value
  {
    hide Parse, Format, TextLess;
    ParseFormat(t, offset);
    ParseFormat(u, offset);
    FormatOrderIff(t, u, offset);
    WholeSeconds(t, u);
  }

  lemma WholeSeconds(t: int, u: int)
    ensures t - t % SECOND < u - u % SECOND <==> t / SECOND < u / SECOND
    ensures t - t % SECOND == u - u % SECOND <==> t / SECOND == u / SECOND
    ensures t <= u ==> t - t % SECOND <= u - u % SECOND
    ensures t >= SECOND ==> t - t % SECOND > 0
  {}
}
