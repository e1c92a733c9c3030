/**
 * The recurrence calculator (lib/dates.ts).
 *
 * A JavaScript `Date` is read and written here through its local calendar fields
 * (getDate/setDate, getMonth/setMonth, getFullYear/setFullYear). Each setter rebuilds
 * the day with MakeDay of ECMA-262 (section 21.4.1, Date Objects), which normalises
 * out-of-range fields by rolling over rather than clamping. The model keeps a civil date
 * (year, month 0..11, day 1..length of month) and an opaque time of day in milliseconds,
 * and goes through a proleptic-Gregorian day number and its inverse.
 *
 * Day numbers are laid out on a line of months: month index k stands for month k % 12
 * of year k / 12, and MonthStart(k) is the day number of its first day (day 0 is
 * 1 January 1970). ECMA-262's closed form DayFromYear is proved to agree with it.
 */
module Dates {
  import opened Wrappers

  const MsPerDay: int := 86400000

  /** Month index of January 1970, the origin of day numbers. */
  const EpochMonth: int := 1970 * 12

  /** DaysInYear of ECMA-262 section 21.4.1.3. */
  function DaysInYear(y: int): int {
    if y % 4 != 0 then 365
    else if y % 100 != 0 then 366
    else if y % 400 != 0 then 365
    else 366
  }

  predicate InLeapYear(y: int) {
    DaysInYear(y) == 366
  }

  /** Length of month m (0 = January) of year y. */
  function DaysInMonth(y: int, m: int): int
    requires 0 <= m < 12
  {
    if m == 1 then (if InLeapYear(y) then 29 else 28)
    else if m == 3 || m == 5 || m == 8 || m == 10 then 30
    else 31
  }

  /** Length of the month with month index k. */
  function MonthLength(k: int): int {
    DaysInMonth(k / 12, k % 12)
  }

  /** Day number of the first day of the month with month index k. */
  function MonthStart(k: int): int
    decreases if k < EpochMonth then EpochMonth - k else k - EpochMonth
  {
    if k == EpochMonth then 0
    else if k > EpochMonth then MonthStart(k - 1) + MonthLength(k - 1)
    else MonthStart(k + 1) - MonthLength(k)
  }

  /** A local calendar date and time: month 0..11 as JavaScript counts it, day of month from 1. */
  datatype CivilDate = CivilDate(year: int, month: int, day: int, msOfDay: int)

  predicate ValidDate(c: CivilDate) {
    && 0 <= c.month < 12
    && 1 <= c.day <= DaysInMonth(c.year, c.month)
    && 0 <= c.msOfDay < MsPerDay
  }

  /** The dates a `Date` object can hold. */
  type Date = c: CivilDate | ValidDate(c) witness CivilDate(1970, 0, 1, 0)

  /** Day number of day d of month m of year y (d may run past the month's end). */
  function DayNumber(y: int, m: int, d: int): int
    requires 0 <= m < 12
  {
    MonthStart(y * 12 + m) + d - 1
  }

  /** Day(t) of ECMA-262: the day number of a date. */
  function Day(c: Date): int {
    DayNumber(c.year, c.month, c.day)
  }

  /** MakeDate of ECMA-262: the time value in milliseconds (local time; time zones are not modelled). */
  function TimeValue(c: Date): int {
    Day(c) * MsPerDay + c.msOfDay
  }

  /**
   * The month holding the day `offset` days after the first of month k, and that day's
   * index within its month, found by walking month by month.
   */
  function MonthWalk(k: int, offset: int): (r: (int, int))
    ensures 0 <= r.1 < MonthLength(r.0)
    ensures MonthStart(r.0) + r.1 == MonthStart(k) + offset
    decreases if offset < 0 then 1 else 0, if offset < 0 then -offset else offset
  {
    MonthLengthBounds(k);
    MonthLengthBounds(k - 1);
    if offset < 0 then
      MonthStartStep(k - 1);
      MonthWalk(k - 1, offset + MonthLength(k - 1))
    else if offset >= MonthLength(k) then
      MonthStartStep(k);
      MonthWalk(k + 1, offset - MonthLength(k))
    else
      (k, offset)
  }

  /**
   * The date whose day number is z, at time of day ms: the inverse of Day
   * (YearFromTime, MonthFromTime and DateFromTime of ECMA-262).
   */
  function FromDayNumber(z: int, ms: int): (r: Date)
    requires 0 <= ms < MsPerDay
    ensures Day(r) == z && r.msOfDay == ms
  {
    var (k, offset) := MonthWalk(EpochMonth, z);
    assert (k / 12) * 12 + k % 12 == k;
    CivilDate(k / 12, k % 12, offset + 1, ms)
  }

  // ---------------------------------------------------------------------------
  // The month line.

  /** Consecutive months are one month length apart. */
  lemma MonthStartStep(k: int)
    ensures MonthStart(k + 1) == MonthStart(k) + MonthLength(k)
  {
  }

  /** A later month starts at least one whole month after an earlier one starts. */
  lemma {:induction false} MonthStartMonotone(a: int, b: int)
    requires a < b
    ensures MonthStart(a) + MonthLength(a) <= MonthStart(b)
    decreases b - a
  {
    MonthStartStep(a);
    if a + 1 < b {
      MonthStartMonotone(a + 1, b);
      MonthLengthBounds(a + 1);
    }
  }

  lemma MonthLengthBounds(k: int)
    ensures 28 <= MonthLength(k) <= 31
  {
  }

  /** The month index of a year and month recovers both. */
  lemma MonthIndexFields(y: int, m: int)
    requires 0 <= m < 12
    ensures (y * 12 + m) / 12 == y && (y * 12 + m) % 12 == m
    ensures MonthLength(y * 12 + m) == DaysInMonth(y, m)
  {
  }

  /** Day is injective on calendar fields: two dates with the same day number are the same day. */
  lemma DayInjective(c1: Date, c2: Date)
    requires Day(c1) == Day(c2)
    ensures c1.year == c2.year && c1.month == c2.month && c1.day == c2.day
  {
    var k1, k2 := c1.year * 12 + c1.month, c2.year * 12 + c2.month;
    MonthIndexFields(c1.year, c1.month);
    MonthIndexFields(c2.year, c2.month);
    if k1 < k2 {
      MonthStartMonotone(k1, k2);
    } else if k2 < k1 {
      MonthStartMonotone(k2, k1);
    }
  }

  /** FromDayNumber inverts Day on every valid date. */
  lemma FromDayNumberOfDay(c: Date)
    ensures FromDayNumber(Day(c), c.msOfDay) == c
  {
    DayInjective(FromDayNumber(Day(c), c.msOfDay), c);
  }

  // ---------------------------------------------------------------------------
  // ECMA-262's closed form agrees with the month line.

  /** DayFromYear of ECMA-262: the day number of 1 January of year y. */
  function DayFromYear(y: int): int {
    365 * (y - 1970) + (y - 1969) / 4 - (y - 1901) / 100 + (y - 1601) / 400
  }

  lemma DayFromYearStep(y: int)
    ensures DayFromYear(y + 1) == DayFromYear(y) + DaysInYear(y)
  {
    FloorStep4(y);
    FloorStep100(y);
    FloorStep400(y);
    Divisibility(y);
  }

  /** A multiple of 400 is a multiple of 100, and a multiple of 100 is a multiple of 4. */
  lemma Divisibility(y: int)
    ensures y % 400 == 0 ==> y % 100 == 0
    ensures y % 100 == 0 ==> y % 4 == 0
  {
    var n4, n100, n400 := y / 4, y / 100, y / 400;
    assert y == 400 * n400 + y % 400 && y == 100 * n100 + y % 100 && y == 4 * n4 + y % 4;
    if y % 400 == 0 {
      assert y == 100 * (4 * n400) + 0;
    }
    if y % 100 == 0 {
      assert y == 4 * (25 * n100) + 0;
    }
  }

  /** The count of multiples of 4 in ECMA-262's DayFromYear steps up exactly in years divisible by 4. */
  lemma FloorStep4(y: int)
    ensures (y - 1968) / 4 - (y - 1969) / 4 == if y % 4 == 0 then 1 else 0
  {
    var n, r := y / 4, y % 4;
    assert y - 1968 == 4 * (n - 492) + r;
    if r == 0 {
      assert y - 1969 == 4 * (n - 493) + 3;
    } else {
      assert y - 1969 == 4 * (n - 492) + (r - 1);
    }
  }

  /** The count of multiples of 100 in ECMA-262's DayFromYear steps up exactly in years divisible by 100. */
  lemma FloorStep100(y: int)
    ensures (y - 1900) / 100 - (y - 1901) / 100 == if y % 100 == 0 then 1 else 0
  {
    var n, r := y / 100, y % 100;
    assert y - 1900 == 100 * (n - 19) + r;
    if r == 0 {
      assert y - 1901 == 100 * (n - 20) + 99;
    } else {
      assert y - 1901 == 100 * (n - 19) + (r - 1);
    }
  }

  /** The count of multiples of 400 in ECMA-262's DayFromYear steps up exactly in years divisible by 400. */
  lemma FloorStep400(y: int)
    ensures (y - 1600) / 400 - (y - 1601) / 400 == if y % 400 == 0 then 1 else 0
  {
    var n, r := y / 400, y % 400;
    assert y - 1600 == 400 * (n - 4) + r;
    if r == 0 {
      assert y - 1601 == 400 * (n - 5) + 399;
    } else {
      assert y - 1601 == 400 * (n - 4) + (r - 1);
    }
  }

  /** Days of year y before the first of month m (the cumulative month lengths). */
  function DaysBeforeMonth(y: int, m: int): int
    requires 0 <= m <= 12
  {
    [0, 31, 59, 90, 120, 151, 181, 212, 243, 273, 304, 334, 365][m] + (if m >= 2 && InLeapYear(y) then 1 else 0)
  }

  /** The twelve months of year y add up to DaysInYear(y). */
  lemma YearOfMonths(y: int)
    ensures MonthStart((y + 1) * 12) == MonthStart(y * 12) + DaysInYear(y)
  {
    var k := y * 12;
    var m := 0;
    while m < 12
      invariant 0 <= m <= 12
      invariant MonthStart(k + m) == MonthStart(k) + DaysBeforeMonth(y, m)
    {
      MonthIndexFields(y, m);
      MonthStartStep(k + m);
      DaysBeforeNextMonth(y, m);
      m := m + 1;
    }
    assert k + 12 == (y + 1) * 12;
  }

  lemma DaysBeforeNextMonth(y: int, m: int)
    requires 0 <= m < 12
    ensures DaysBeforeMonth(y, m + 1) == DaysBeforeMonth(y, m) + DaysInMonth(y, m)
  {
  }

  /** The first of January of every year lies on ECMA-262's DayFromYear(y). */
  lemma {:induction false} YearStartIsDayFromYear(y: int)
    ensures MonthStart(y * 12) == DayFromYear(y)
    decreases if y < 1970 then 1970 - y else y - 1970
  {
    if y > 1970 {
      YearStartIsDayFromYear(y - 1);
      YearOfMonths(y - 1);
      DayFromYearStep(y - 1);
    } else if y < 1970 {
      YearStartIsDayFromYear(y + 1);
      YearOfMonths(y);
      DayFromYearStep(y);
    }
  }

  // ---------------------------------------------------------------------------
  // addInterval and computeNextDue.

  /** MakeDay of ECMA-262: month may lie outside 0..11 (it carries into the year), date outside the month. */
  function MakeDay(year: int, month: int, date: int): int {
    DayNumber(year + month / 12, month % 12, 1) + date - 1
  }

  /**
   * The switch of `addInterval`: the (year, month, date) triple the setter hands to MakeDay.
   * setDate replaces the date, setMonth the month and setFullYear the year; the other two
   * fields come from `date`.
   */
  function SetFields(date: Date, interval: int, unit: string): (int, int, int) {
    if unit == "day" then (date.year, date.month, date.day + interval)
    else if unit == "week" then (date.year, date.month, date.day + interval * 7)
    else if unit == "month" then (date.year, date.month + interval, date.day)
    else if unit == "year" then (date.year + interval, date.month, date.day)
    else (date.year, date.month, date.day + interval)
  }

  /** The day number the setter computes: MakeDay of the updated fields. */
  function ShiftedDay(date: Date, interval: int, unit: string): int {
    var (y, m, d) := SetFields(date, interval, unit);
    MakeDay(y, m, d)
  }

  /**
   * `addInterval(date, interval, unit)`: a fresh date `interval` units after `date`, at the
   * same time of day. Any unit other than day, week, month and year falls back to days.
   * Being a function of values, it cannot change its argument.
   */
  function AddInterval(date: Date, interval: int, unit: string): (r: Date)
    ensures Day(r) == ShiftedDay(date, interval, unit)
    ensures r.msOfDay == date.msOfDay
  {
    FromDayNumber(ShiftedDay(date, interval, unit), date.msOfDay)
  }

  /** `computeNextDue(lastDoneAt, interval, unit)`, the clock reading `new Date()` passed in as `now`. */
  function ComputeNextDue(lastDoneAt: Option<Date>, interval: int, unit: string, now: Date): (r: Date)
    ensures r.msOfDay == lastDoneAt.GetOr(now).msOfDay
    ensures interval >= 1 ==> TimeValue(r) > TimeValue(lastDoneAt.GetOr(now))
  {
    var base := if lastDoneAt.Some? then lastDoneAt.value else now;
    LaterForPositiveInterval(base, interval, unit);
    AddInterval(base, interval, unit)
  }

  // ---------------------------------------------------------------------------
  // What addInterval does, unit by unit.

  /** MakeDay counts months on one line: the month argument is added to the month index of year. */
  lemma MakeDayByMonthIndex(year: int, month: int, date: int)
    ensures MakeDay(year, month, date) == MonthStart(year * 12 + month) + date - 1
  {
    assert (year + month / 12) * 12 + month % 12 == year * 12 + month;
  }

  /**
   * The day `date - 1` days after the first of month k: the date itself when month k has
   * it, otherwise the surplus days (at most three) in the following month.
   */
  lemma FromMonthStart(k: int, date: int, ms: int)
    requires 1 <= date <= 31 && 0 <= ms < MsPerDay
    ensures FromDayNumber(MonthStart(k) + date - 1, ms)
            == if date <= MonthLength(k) then CivilDate(k / 12, k % 12, date, ms)
               else CivilDate((k + 1) / 12, (k + 1) % 12, date - MonthLength(k), ms)
  {
    var z := MonthStart(k) + date - 1;
    if date <= MonthLength(k) {
      DateInMonth(k, date, ms);
    } else {
      var spill := date - MonthLength(k);
      MonthStartStep(k);
      MonthLengthBounds(k);
      MonthLengthBounds(k + 1);
      assert z == MonthStart(k + 1) + spill - 1;
      DateInMonth(k + 1, spill, ms);
      assert FromDayNumber(z, ms) == CivilDate((k + 1) / 12, (k + 1) % 12, spill, ms);
    }
  }

  /** Day `date` of the month with index k, for a date the month has. */
  lemma DateInMonth(k: int, date: int, ms: int)
    requires 1 <= date <= MonthLength(k) && 0 <= ms < MsPerDay
    ensures FromDayNumber(MonthStart(k) + date - 1, ms) == CivilDate(k / 12, k % 12, date, ms)
  {
    assert (k / 12) * 12 + k % 12 == k;
    var t: Date := CivilDate(k / 12, k % 12, date, ms);
    assert Day(t) == MonthStart(k) + date - 1;
    FromDayNumberOfDay(t);
  }

  /** Adding days moves the day number by exactly `interval` and keeps the time of day. */
  lemma AddDays(c: Date, interval: int)
    ensures Day(AddInterval(c, interval, "day")) == Day(c) + interval
    ensures AddInterval(c, interval, "day").msOfDay == c.msOfDay
  {
    MakeDayByMonthIndex(c.year, c.month, c.day + interval);
  }

  /** A week is seven days. */
  lemma AddWeeks(c: Date, interval: int)
    ensures AddInterval(c, interval, "week") == AddInterval(c, 7 * interval, "day")
    ensures Day(AddInterval(c, interval, "week")) == Day(c) + 7 * interval
  {
    AddDays(c, 7 * interval);
  }

  /** An unknown unit is treated as days. */
  lemma UnknownUnitIsDays(c: Date, interval: int, unit: string)
    requires unit != "day" && unit != "week" && unit != "month" && unit != "year"
    ensures AddInterval(c, interval, unit) == AddInterval(c, interval, "day")
    ensures Day(AddInterval(c, interval, unit)) == Day(c) + interval
  {
    AddDays(c, interval);
  }

  /**
   * Adding months advances the month index by `interval`, carrying into the year. The day
   * of month is kept when the target month has it; otherwise the surplus days spill into
   * the following month (never clamped to the month's last day).
   */
  lemma AddMonths(c: Date, interval: int)
    ensures var k := c.year * 12 + c.month + interval;
            var r := AddInterval(c, interval, "month");
            if c.day <= MonthLength(k) then r == CivilDate(k / 12, k % 12, c.day, c.msOfDay)
            else r == CivilDate((k + 1) / 12, (k + 1) % 12, c.day - MonthLength(k), c.msOfDay)
  {
    var k := c.year * 12 + c.month + interval;
    var z := MonthStart(k) + c.day - 1;
    assert AddInterval(c, interval, "month") == FromDayNumber(z, c.msOfDay) by {
      MonthShift(c, interval);
    }
    FromMonthStart(k, c.day, c.msOfDay);
  }

  /** Adding months lands on the same day of month, counted from the first of month index year * 12 + month + interval. */
  lemma MonthShift(c: Date, interval: int)
    ensures AddInterval(c, interval, "month")
            == FromDayNumber(MonthStart(c.year * 12 + c.month + interval) + c.day - 1, c.msOfDay)
  {
    MakeDayByMonthIndex(c.year, c.month + interval, c.day);
  }

  /** Adding years keeps month and day; 29 February in a non-leap target year becomes 1 March. */
  lemma AddYears(c: Date, interval: int)
    ensures var y := c.year + interval;
            var r := AddInterval(c, interval, "year");
            if c.month == 1 && c.day == 29 && !InLeapYear(y) then r == CivilDate(y, 2, 1, c.msOfDay)
            else r == CivilDate(y, c.month, c.day, c.msOfDay)
  {
    if c.month == 1 && c.day == 29 && !InLeapYear(c.year + interval) {
      LeapDaySpills(c, interval);
    } else {
      YearKeepsDate(c, interval);
    }
  }

  /** A date other than 29 February exists in every year, as does 29 February in a leap year. */
  lemma YearKeepsDate(c: Date, interval: int)
    requires !(c.month == 1 && c.day == 29 && !InLeapYear(c.year + interval))
    ensures AddInterval(c, interval, "year") == CivilDate(c.year + interval, c.month, c.day, c.msOfDay)
  {
    var y := c.year + interval;
    var k := y * 12 + c.month;
    YearShift(c, interval);
    MonthIndexFields(y, c.month);
    assert c.day <= MonthLength(k);
    DateInMonth(k, c.day, c.msOfDay);
  }

  /** Adding years lands on the same day of month in the month with index (year + interval) * 12 + month. */
  lemma YearShift(c: Date, interval: int)
    ensures AddInterval(c, interval, "year")
            == FromDayNumber(MonthStart((c.year + interval) * 12 + c.month) + c.day - 1, c.msOfDay)
  {
    MakeDayByMonthIndex(c.year + interval, c.month, c.day);
  }

  /** 29 February, moved to a year without one, is 1 March of that year. */
  lemma LeapDaySpills(c: Date, interval: int)
    requires c.month == 1 && c.day == 29 && !InLeapYear(c.year + interval)
    ensures AddInterval(c, interval, "year") == CivilDate(c.year + interval, 2, 1, c.msOfDay)
  {
    var y := c.year + interval;
    var k := y * 12 + 1;
    YearShift(c, interval);
    MonthIndexFields(y, 1);
    assert MonthLength(k) == 28;
    MonthStartStep(k);
    var z := MonthStart(k) + 28;
    assert z == MonthStart(k + 1) + 1 - 1;
    MonthLengthBounds(k + 1);
    DateInMonth(k + 1, 1, c.msOfDay);
    assert k + 1 == y * 12 + 2;
    MonthIndexFields(y, 2);
    assert FromDayNumber(z, c.msOfDay) == CivilDate((k + 1) / 12, (k + 1) % 12, 1, c.msOfDay);
  }

  /** A later month index gives a later day for the same date of month. */
  lemma LaterMonthIndex(c: Date, k2: int)
    requires c.year * 12 + c.month < k2
    ensures MonthStart(k2) + c.day - 1 > Day(c)
  {
    MonthStartMonotone(c.year * 12 + c.month, k2);
    MonthIndexFields(c.year, c.month);
  }

  /** For a positive interval every unit moves the day number strictly forward. */
  lemma ShiftedDayLater(c: Date, interval: int, unit: string)
    requires interval >= 1
    ensures ShiftedDay(c, interval, unit) > Day(c)
  {
    if unit == "month" {
      var k := c.year * 12 + c.month + interval;
      MakeDayByMonthIndex(c.year, c.month + interval, c.day);
      assert ShiftedDay(c, interval, unit) == MonthStart(k) + c.day - 1;
      LaterMonthIndex(c, k);
    } else if unit == "year" {
      var k := (c.year + interval) * 12 + c.month;
      MakeDayByMonthIndex(c.year + interval, c.month, c.day);
      assert ShiftedDay(c, interval, unit) == MonthStart(k) + c.day - 1;
      assert c.year * 12 + c.month < k;
      LaterMonthIndex(c, k);
    } else {
      var days := if unit == "week" then interval * 7 else interval;
      MakeDayByMonthIndex(c.year, c.month, c.day + days);
      assert ShiftedDay(c, interval, unit) == Day(c) + days;
    }
  }

  /** For a positive interval every unit moves strictly forward in time, keeping the time of day. */
  lemma LaterForPositiveInterval(c: Date, interval: int, unit: string)
    ensures AddInterval(c, interval, unit).msOfDay == c.msOfDay
    ensures interval >= 1 ==> Day(AddInterval(c, interval, unit)) > Day(c)
    ensures interval >= 1 ==> TimeValue(AddInterval(c, interval, unit)) > TimeValue(c)
  {
    if interval >= 1 {
      ShiftedDayLater(c, interval, unit);
    }
  }

  /** Day additions compose: adding a days and then b days is adding a + b days. */
  lemma DaysCompose(c: Date, a: int, b: int)
    ensures AddInterval(AddInterval(c, a, "day"), b, "day") == AddInterval(c, a + b, "day")
  {
    var once := AddInterval(c, a, "day");
    AddDays(c, a);
    AddDays(once, b);
    AddDays(c, a + b);
    DayInjective(AddInterval(once, b, "day"), AddInterval(c, a + b, "day"));
  }

  /** The time value moves by exactly interval whole days when adding days. */
  lemma AddDaysTimeValue(c: Date, interval: int)
    ensures TimeValue(AddInterval(c, interval, "day")) == TimeValue(c) + interval * MsPerDay
  {
    AddDays(c, interval);
  }

  /** `computeNextDue` bases the result on lastDoneAt when there is one and on the clock otherwise. */
  lemma ComputeNextDueBase(lastDoneAt: Option<Date>, interval: int, unit: string, now: Date)
    ensures lastDoneAt.Some? ==> ComputeNextDue(lastDoneAt, interval, unit, now) == AddInterval(lastDoneAt.value, interval, unit)
    ensures lastDoneAt.None? ==> ComputeNextDue(lastDoneAt, interval, unit, now) == AddInterval(now, interval, unit)
  {
  }

  // ---------------------------------------------------------------------------
  // Worked instances of the overflow rule.

  /** 31 January plus one month is 3 March in a common year and 2 March in a leap year. */
  lemma JanuaryEndPlusOneMonth(y: int, ms: int)
    requires 0 <= ms < MsPerDay
    ensures AddInterval(CivilDate(y, 0, 31, ms), 1, "month")
            == CivilDate(y, 2, if InLeapYear(y) then 2 else 3, ms)
  {
    AddMonths(CivilDate(y, 0, 31, ms), 1);
    MonthIndexFields(y, 1);
    MonthIndexFields(y, 2);
  }

  /** 31 January plus three months is 1 May (April has 30 days). */
  lemma JanuaryEndPlusThreeMonths(y: int, ms: int)
    requires 0 <= ms < MsPerDay
    ensures AddInterval(CivilDate(y, 0, 31, ms), 3, "month") == CivilDate(y, 4, 1, ms)
  {
    AddMonths(CivilDate(y, 0, 31, ms), 3);
    MonthIndexFields(y, 3);
    MonthIndexFields(y, 4);
  }

  /** 29 February of a leap year plus one year is 1 March of the next year (2024-02-29 becomes 2025-03-01). */
  lemma LeapDayPlusOneYear(y: int, ms: int)
    requires 0 <= ms < MsPerDay && InLeapYear(y)
    ensures AddInterval(CivilDate(y, 1, 29, ms), 1, "year") == CivilDate(y + 1, 2, 1, ms)
  {
    assert !InLeapYear(y + 1);
    AddYears(CivilDate(y, 1, 29, ms), 1);
  }

  /**
   * Month additions do not compose: in a common year, one month twice from 31 January
   * reaches 3 April, while two months at once reach 31 March.
   */
  lemma MonthStepsDoNotCompose(y: int, ms: int)
    requires 0 <= ms < MsPerDay && !InLeapYear(y)
    ensures AddInterval(AddInterval(CivilDate(y, 0, 31, ms), 1, "month"), 1, "month") == CivilDate(y, 3, 3, ms)
    ensures AddInterval(CivilDate(y, 0, 31, ms), 2, "month") == CivilDate(y, 2, 31, ms)
  {
    JanuaryEndPlusOneMonth(y, ms);
    AddMonths(CivilDate(y, 2, 3, ms), 1);
    MonthIndexFields(y, 3);
    AddMonths(CivilDate(y, 0, 31, ms), 2);
    MonthIndexFields(y, 2);
  }
}
