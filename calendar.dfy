/** The part of .NET's System.DateTime the authentication service relies on:
    an instant is a count of 100-nanosecond ticks since 0001-01-01 00:00:00,
    read back as a proleptic Gregorian date and a time of day. */
module Calendar {
  import opened Wrappers

  const TicksPerSecond: int := 10_000_000
  const TicksPerDay: int := 864_000_000_000
  /** Days from 0001-01-01 to 10000-01-01, one past the last representable day. */
  const DaysTo10000: int := 3_652_059
  /** 9999-12-31 23:59:59.9999999, DateTime.MaxValue. */
  const MaxTicks: int := 3_155_378_975_999_999_999
  /** The bit DateTime.ToBinary sets to mark the kind Utc. */
  const KindUtcFlag: int := 0x4000_0000_0000_0000

  type Ticks = t: int | 0 <= t <= MaxTicks

  predicate IsLeapYear(year: int)
  {
    year % 4 == 0 && (year % 100 != 0 || year % 400 == 0)
  }

  function DaysInYear(year: int): int
  {
    if IsLeapYear(year) then 366 else 365
  }

  /** Days from 0001-01-01 to January 1 of `year`. */
  function DaysToYear(year: int): int
    requires 1 <= year
  {
    var y := year - 1;
    y * 365 + y / 4 - y / 100 + y / 400
  }

  lemma DaysToYearStep(year: int)
    requires 1 <= year
    ensures DaysToYear(year + 1) == DaysToYear(year) + DaysInYear(year)
  {
    var y := year - 1;
    assert (y + 1) / 4 == y / 4 + (if year % 4 == 0 then 1 else 0);
    assert (y + 1) / 100 == y / 100 + (if year % 100 == 0 then 1 else 0);
    assert (y + 1) / 400 == y / 400 + (if year % 400 == 0 then 1 else 0);
  }

  lemma {:induction false} DaysToYearMonotone(a: int, b: int)
    requires 1 <= a <= b
    ensures DaysToYear(a) + 365 * (b - a) <= DaysToYear(b)
    decreases b - a
  {
    if a < b {
      DaysToYearMonotone(a, b - 1);
      DaysToYearStep(b - 1);
    }
  }

  /** Days from January 1 to the first day of `month` (13 stands for the next January 1). */
  function DaysToMonth(year: int, month: int): int
    requires 1 <= month <= 13
  {
    var common := match month
      case 1 => 0 case 2 => 31 case 3 => 59 case 4 => 90 case 5 => 120 case 6 => 151
      case 7 => 181 case 8 => 212 case 9 => 243 case 10 => 273 case 11 => 304 case 12 => 334
      case _ => 365;
    if month > 2 && IsLeapYear(year) then common + 1 else common
  }

  function DaysInMonth(year: int, month: int): (days: int)
    requires 1 <= month <= 12
    ensures 28 <= days <= 31
    ensures month == 2 ==> (days == 29 <==> IsLeapYear(year))
  {
    DaysToMonth(year, month + 1) - DaysToMonth(year, month)
  }

  lemma {:induction false} DaysToMonthMonotone(year: int, a: int, b: int)
    requires 1 <= a <= b <= 13
    ensures DaysToMonth(year, a) + 28 * (b - a) <= DaysToMonth(year, b)
    decreases b - a
  {
    if a < b {
      DaysToMonthMonotone(year, a, b - 1);
      assert DaysToMonth(year, b) - DaysToMonth(year, b - 1) == DaysInMonth(year, b - 1);
    }
  }

  datatype Date = Date(year: int, month: int, day: int)

  predicate ValidDate(d: Date)
  {
    1 <= d.year <= 9999 && 1 <= d.month <= 12 && 1 <= d.day <= DaysInMonth(d.year, d.month)
  }

  /** Days from 0001-01-01 to `d`. */
  function DayNumber(d: Date): (n: int)
    requires ValidDate(d)
    ensures DaysToYear(d.year) <= n < DaysToYear(d.year + 1)
    ensures 0 <= n < DaysTo10000
  {
    DaysToYearStep(d.year);
    DaysToYearMonotone(1, d.year);
    DaysToYearMonotone(d.year + 1, 10000);
    DaysToMonthMonotone(d.year, d.month + 1, 13);
    DaysToYear(d.year) + DaysToMonth(d.year, d.month) + d.day - 1
  }

  /** The year, not before `year`, whose days contain day number `n`. */
  function YearContaining(n: int, year: int): (r: int)
    requires 1 <= year <= 9999 && DaysToYear(year) <= n < DaysTo10000
    ensures year <= r <= 9999 && DaysToYear(r) <= n < DaysToYear(r + 1)
    decreases 9999 - year
  {
    assert DaysToYear(10000) == DaysTo10000;
    if n < DaysToYear(year + 1) then year
    else YearContaining(n, year + 1)
  }

  /** The month, not before `month`, whose days contain day `dayOfYear` (0-based) of `year`. */
  function MonthContaining(year: int, dayOfYear: int, month: int): (r: int)
    requires 1 <= month <= 12 && DaysToMonth(year, month) <= dayOfYear < DaysInYear(year)
    ensures month <= r <= 12 && DaysToMonth(year, r) <= dayOfYear < DaysToMonth(year, r + 1)
    decreases 12 - month
  {
    if dayOfYear < DaysToMonth(year, month + 1) then month
    else MonthContaining(year, dayOfYear, month + 1)
  }

  /** The calendar date of day number `n` (what DateTime.GetDate computes by 400/100/4/1-year cycles). */
  function DateOfDay(n: int): (d: Date)
    requires 0 <= n < DaysTo10000
    ensures ValidDate(d) && DayNumber(d) == n
  {
    assert DaysToYear(1) == 0;
    var year := YearContaining(n, 1);
    DaysToYearStep(year);
    var dayOfYear := n - DaysToYear(year);
    var month := MonthContaining(year, dayOfYear, 1);
    Date(year, month, dayOfYear - DaysToMonth(year, month) + 1)
  }

  /** Only one year contains a given day number. */
  lemma YearUnique(a: int, b: int, n: int)
    requires 1 <= a && 1 <= b
    requires DaysToYear(a) <= n < DaysToYear(a + 1) && DaysToYear(b) <= n < DaysToYear(b + 1)
    ensures a == b
  {
    if a < b {
      DaysToYearMonotone(a + 1, b);
    } else if b < a {
      DaysToYearMonotone(b + 1, a);
    }
  }

  /** Only one month of a year contains a given day of that year. */
  lemma MonthUnique(year: int, a: int, b: int, dayOfYear: int)
    requires 1 <= a <= 12 && 1 <= b <= 12
    requires DaysToMonth(year, a) <= dayOfYear < DaysToMonth(year, a + 1)
    requires DaysToMonth(year, b) <= dayOfYear < DaysToMonth(year, b + 1)
    ensures a == b
  {
    if a < b {
      DaysToMonthMonotone(year, a + 1, b);
    } else if b < a {
      DaysToMonthMonotone(year, b + 1, a);
    }
  }

  /** Dates and day numbers are in one-to-one correspondence. */
  lemma DateOfDayNumber(d: Date)
    requires ValidDate(d)
    ensures DateOfDay(DayNumber(d)) == d
  {
    var n := DayNumber(d);
    var e := DateOfDay(n);
    assert DayNumber(e) == n;
    YearUnique(e.year, d.year, n);
    var dayOfYear := n - DaysToYear(d.year);
    assert dayOfYear == DaysToMonth(d.year, d.month) + d.day - 1;
    assert dayOfYear == DaysToMonth(d.year, e.month) + e.day - 1;
    assert DaysToMonth(d.year, d.month + 1) == DaysToMonth(d.year, d.month) + DaysInMonth(d.year, d.month);
    assert DaysToMonth(d.year, e.month + 1) == DaysToMonth(d.year, e.month) + DaysInMonth(d.year, e.month);
    MonthUnique(d.year, e.month, d.month, dayOfYear);
  }

  datatype DateTime = DateTime(ticks: Ticks) {

    function DayIndex(): (n: int)
      ensures 0 <= n < DaysTo10000
    {
      ticks / TicksPerDay
    }

    function TimeOfDay(): (t: int)
      ensures 0 <= t < TicksPerDay
    {
      ticks % TicksPerDay
    }

    function DatePart(): (d: Date)
      ensures ValidDate(d)
    {
      DateOfDay(DayIndex())
    }

    function Year(): int { DatePart().year }
    function Month(): int { DatePart().month }
    function Day(): int { DatePart().day }

    function SecondOfDay(): (s: int)
      ensures 0 <= s < 86400
    {
      TimeOfDay() / TicksPerSecond
    }

    function Hour(): int { SecondOfDay() / 60 / 60 }
    function Minute(): int { SecondOfDay() / 60 % 60 }
    function Second(): int { SecondOfDay() % 60 }
  }

  /** Division by a day's worth of ticks splits an instant into its day and its time of day. */
  lemma SplitDay(n: int, t: int)
    requires 0 <= t < TicksPerDay
    ensures (n * TicksPerDay + t) / TicksPerDay == n && (n * TicksPerDay + t) % TicksPerDay == t
  {
  }

  /** The same split at a second's worth of ticks. Both are kept as lemmas so that the
      division facts are proved once, outside the larger calendar proofs that use them. */
  lemma SplitSecond(n: int, t: int)
    requires 0 <= t < TicksPerSecond
    ensures (n * TicksPerSecond + t) / TicksPerSecond == n && (n * TicksPerSecond + t) % TicksPerSecond == t
  {
  }

  lemma SplitTicks(d: DateTime)
    ensures d.ticks == d.DayIndex() * TicksPerDay + d.TimeOfDay()
    ensures d.TimeOfDay() == d.SecondOfDay() * TicksPerSecond + d.ticks % TicksPerSecond
  {
    var t := d.TimeOfDay() % TicksPerSecond;
    assert d.TimeOfDay() == d.SecondOfDay() * TicksPerSecond + t;
    assert d.ticks == (d.DayIndex() * 86400 + d.SecondOfDay()) * TicksPerSecond + t;
    SplitSecond(d.DayIndex() * 86400 + d.SecondOfDay(), t);
  }

  /** The instant at `timeOfDay` ticks into day number `n`. */
  function AtDay(n: int, timeOfDay: int): (r: DateTime)
    requires 0 <= n < DaysTo10000 && 0 <= timeOfDay < TicksPerDay
    ensures r.DayIndex() == n && r.TimeOfDay() == timeOfDay
  {
    SplitDay(n, timeOfDay);
    DateTime(n * TicksPerDay + timeOfDay)
  }

  /** new DateTime(year, month, day, hour, minute, second): no sub-second ticks. */
  function FromParts(date: Date, hour: int, minute: int, second: int): (r: DateTime)
    requires ValidDate(date) && 0 <= hour < 24 && 0 <= minute < 60 && 0 <= second < 60
    ensures r.DatePart() == date
    ensures r.Hour() == hour && r.Minute() == minute && r.Second() == second
    ensures r.ticks % TicksPerSecond == 0
  {
    var s := (hour * 60 + minute) * 60 + second;
    var r := AtDay(DayNumber(date), s * TicksPerSecond);
    SplitSecond(s, 0);
    SplitTicks(r);
    DateOfDayNumber(date);
    r
  }

  /** The instant with its sub-second ticks dropped. */
  function WholeSeconds(d: DateTime): (r: DateTime)
    ensures r.ticks <= d.ticks < r.ticks + TicksPerSecond
    ensures r.ticks % TicksPerSecond == 0
  {
    DateTime(d.ticks - d.ticks % TicksPerSecond)
  }

  /** Rebuilding an instant from its date, hour, minute and second drops exactly its sub-second ticks. */
  lemma RebuiltFromParts(d: DateTime)
    ensures 0 <= d.Hour() < 24 && 0 <= d.Minute() < 60 && 0 <= d.Second() < 60
    ensures FromParts(d.DatePart(), d.Hour(), d.Minute(), d.Second()) == WholeSeconds(d)
  {
    var s := d.SecondOfDay();
    assert (d.Hour() * 60 + d.Minute()) * 60 + d.Second() == s;
    var r := FromParts(d.DatePart(), d.Hour(), d.Minute(), d.Second());
    assert r == AtDay(d.DayIndex(), s * TicksPerSecond);
    SplitTicks(d);
  }

  function Min(a: int, b: int): int { if a < b then a else b }

  /** DateTime.AddMonths: moves the date by whole months, clamps the day to the
      length of the target month, keeps the time of day, and throws when the
      count or the resulting year is out of range. */
  function AddMonths(d: DateTime, months: int): (r: Checked<DateTime>)
    ensures r.Done? ==> r.value.TimeOfDay() == d.TimeOfDay()
  {
    if months < -120000 || months > 120000 then ArgumentOutOfRange
    else
      var date := d.DatePart();
      var i := date.month - 1 + months;
      var year := date.year + i / 12;
      var month := i % 12 + 1;
      if year < 1 || year > 9999 then ArgumentOutOfRange
      else Done(AtDay(DayNumber(Date(year, month, Min(date.day, DaysInMonth(year, month)))), d.TimeOfDay()))
  }

  /** The date one month after `date`: the next month (January of the next year after
      December), with the day clamped to that month's length. */
  function NextMonth(date: Date): (r: Date)
    requires ValidDate(date) && date.year * 12 + date.month < 9999 * 12 + 12
    ensures ValidDate(r)
  {
    var year := if date.month == 12 then date.year + 1 else date.year;
    var month := if date.month == 12 then 1 else date.month + 1;
    Date(year, month, Min(date.day, DaysInMonth(year, month)))
  }

  /** Within one year, day numbers differ by the days between the two month starts and the two days. */
  lemma DayNumberSameYear(a: Date, b: Date)
    requires ValidDate(a) && ValidDate(b) && a.year == b.year
    ensures DayNumber(b) - DayNumber(a) == DaysToMonth(a.year, b.month) - DaysToMonth(a.year, a.month) + b.day - a.day
  {
  }

  /** From a day in December to a day in the next January. */
  lemma DayNumberAcrossYear(a: Date, b: Date)
    requires ValidDate(a) && ValidDate(b) && a.year + 1 == b.year && a.month == 12 && b.month == 1
    ensures DayNumber(b) - DayNumber(a) == 31 + b.day - a.day
  {
    DaysToYearStep(a.year);
  }

  /** The day clamp keeps a one-month step between the lengths of the two months involved. */
  lemma ClampedStep(days: int, daysNext: int, day: int)
    requires 28 <= days <= 31 && 28 <= daysNext <= 31 && 1 <= day <= days
    ensures 28 <= days + Min(day, daysNext) - day <= 31
  {
  }

  /** A date and the date a month later lie 28 to 31 days apart. */
  lemma NextMonthDistance(date: Date)
    requires ValidDate(date) && date.year * 12 + date.month < 9999 * 12 + 12
    ensures DayNumber(date) + 28 <= DayNumber(NextMonth(date)) <= DayNumber(date) + 31
  {
    var next := NextMonth(date);
    if date.month == 12 {
      DayNumberAcrossYear(date, next);
    } else {
      DayNumberSameYear(date, next);
      var days := DaysInMonth(date.year, date.month);
      assert DaysToMonth(date.year, date.month + 1) == DaysToMonth(date.year, date.month) + days;
      ClampedStep(days, DaysInMonth(date.year, date.month + 1), date.day);
    }
  }

  /** The month arithmetic of AddMonths for a count of one, proved apart from the
      calendar facts of AddOneMonthShape so that proof stays small. */
  lemma PlusOneMonth(month: int)
    requires 1 <= month <= 12
    ensures (month - 1 + 1) / 12 == (if month == 12 then 1 else 0)
    ensures (month - 1 + 1) % 12 + 1 == if month == 12 then 1 else month + 1
  {
  }

  /** AddMonths(d, 1) throws exactly in December 9999 and otherwise lands on NextMonth at the same time of day. */
  lemma AddOneMonthShape(d: DateTime)
    ensures AddMonths(d, 1).Done? <==> !(d.Year() == 9999 && d.Month() == 12)
    ensures AddMonths(d, 1).Done? ==>
      AddMonths(d, 1).value == AtDay(DayNumber(NextMonth(d.DatePart())), d.TimeOfDay())
  {
    PlusOneMonth(d.DatePart().month);
  }

  /** The one-month inactivity window: the next month, day clamped, same time of day,
      and between 28 and 31 days later; it throws only for instants in December 9999. */
  lemma AddOneMonth(d: DateTime)
    ensures AddMonths(d, 1).Done? <==> !(d.Year() == 9999 && d.Month() == 12)
    ensures AddMonths(d, 1).Done? ==>
      var r := AddMonths(d, 1).value;
      && r.Year() == (if d.Month() == 12 then d.Year() + 1 else d.Year())
      && r.Month() == (if d.Month() == 12 then 1 else d.Month() + 1)
      && r.Day() == Min(d.Day(), DaysInMonth(r.Year(), r.Month()))
      && r.TimeOfDay() == d.TimeOfDay()
      && d.ticks + 28 * TicksPerDay <= r.ticks <= d.ticks + 31 * TicksPerDay
  {
    AddOneMonthShape(d);
    if AddMonths(d, 1).Done? {
      var r := AddMonths(d, 1).value;
      var date := d.DatePart();
      var target := NextMonth(date);
      DateOfDayNumber(target);
      assert r.DatePart() == target;
      NextMonthDistance(date);
      SplitTicks(d);
      SplitTicks(r);
      var gap := DayNumber(target) - DayNumber(date);
      assert r.ticks - d.ticks == gap * TicksPerDay;
      assert 28 * TicksPerDay <= gap * TicksPerDay <= 31 * TicksPerDay;
    }
  }

  /** DateTime.ToBinary for an instant of kind Utc. */
  function ToBinary(d: DateTime): (v: int)
    ensures 0 <= v < 0x8000_0000_0000_0000
    ensures v % KindUtcFlag == d.ticks
  {
    d.ticks + KindUtcFlag
  }
}
