/** The part of JavaScript's `Date` the dashboard uses. A date is kept as
    the local components it was built from; its time value (what `<`, `>=`
    and subtraction compare) is computed the way ECMAScript's MakeDay and
    MakeTime compute it, so a month or day outside its range carries into
    the next unit exactly as it does in JavaScript. Time zones are not
    modelled: every time value is on one local wall-clock scale. */
module Calendar {

  /** A `Date` built by `new Date(year, month - 1, day)` and then
      `setHours(hour, minute, 0, 0)`: seconds and milliseconds are 0.
      `month` is 1-based, as written in a `dd/mm/yyyy` string. */
  datatype DateTime = DateTime(year: int, month: int, day: int, hour: int, minute: int)

  const MsPerMinute: int := 60000
  const MinutesPerDay: int := 1440

  /** `new Date(year, month - 1, day)`: local midnight. As in JavaScript,
      a year from 0 to 99 is taken to mean 1900 to 1999. */
  function LocalDate(year: int, month: int, day: int): (t: DateTime)
    ensures t.month == month && t.day == day && t.hour == 0 && t.minute == 0
    ensures t.year == (if 0 <= year <= 99 then year + 1900 else year)
  {
    DateTime(if 0 <= year <= 99 then year + 1900 else year, month, day, 0, 0)
  }

  /** `setHours(hour, minute, 0, 0)`. */
  function SetHours(t: DateTime, hour: int, minute: int): (u: DateTime)
    ensures u.year == t.year && u.month == t.month && u.day == t.day
    ensures u.hour == hour && u.minute == minute
  {
    t.(hour := hour, minute := minute)
  }

  predicate IsLeapYear(y: int)
  {
    y % 4 == 0 && (y % 100 != 0 || y % 400 == 0)
  }

  function DaysInMonth(y: int, m: int): int
  {
    if m == 2 then (if IsLeapYear(y) then 29 else 28)
    else if m == 4 || m == 6 || m == 9 || m == 11 then 30
    else 31
  }

  /** A date whose components are all in range: the dates a reader of the
      calendar means, and the ones for which reading back the components
      gives what was written. */
  predicate ValidCalendar(t: DateTime)
  {
    1 <= t.month <= 12 && 1 <= t.day <= DaysInMonth(t.year, t.month) &&
    0 <= t.hour < 24 && 0 <= t.minute < 60
  }

  // ---------------------------------------------------------------------
  // Day numbers (proleptic Gregorian calendar, day 0 = 1 January 1970)
  // ---------------------------------------------------------------------

  /** Days from 1 March of year 0 to 1 March of year `y`, minus the days
      from 1 March of year 0 to 1 January 1970 (the count runs in 400-year
      eras of 146097 days). */
  function MarchFirst(y: int): int
  {
    var era := y / 400;
    var yoe := y - era * 400;
    era * 146097 + yoe * 365 + yoe / 4 - yoe / 100 - 719468
  }

  /** The day number of the first day of month `m` of year `y`. The year is
      counted from March, so that February, with its leap day, comes last. */
  function FirstOfMonth(y: int, m: int): int
    requires 1 <= m <= 12
  {
    var marchYear := if m <= 2 then y - 1 else y;
    var monthsSinceMarch := if m > 2 then m - 3 else m + 9;
    MarchFirst(marchYear) + (153 * monthsSinceMarch + 2) / 5
  }

  /** ECMAScript MakeDay(year, month - 1, day): a month outside 1..12
      carries into the year, and the day is counted on from the first of
      the month, so a day outside the month runs into its neighbours. Only
      the month's position in the sequence of all months matters, so month
      13 of one year is January of the next. */
  function DayNumber(year: int, month: int, day: int): (n: int)
    ensures n == FirstOfMonthIndex(MonthIndex(year, month)) + day - 1
  {
    var k := MonthIndex(year, month);
    assert k / 12 == year + (month - 1) / 12 && k % 12 == (month - 1) % 12 by {
      assert k == (year + (month - 1) / 12) * 12 + (month - 1) % 12;
    }
    FirstOfMonth(year + (month - 1) / 12, (month - 1) % 12 + 1) + day - 1
  }

  /** `t.getTime()` in whole minutes. */
  function MinuteNumber(t: DateTime): int
  {
    DayNumber(t.year, t.month, t.day) * MinutesPerDay + t.hour * 60 + t.minute
  }

  const MsPerDay: int := 86400000

  /** `t.getTime()`: milliseconds since the epoch; the value `Date`s are
      compared and subtracted by. A time within the calendar day lies
      within that day's milliseconds. */
  function TimeValue(t: DateTime): (v: int)
    ensures 0 <= t.hour < 24 && 0 <= t.minute < 60 ==>
      DayNumber(t.year, t.month, t.day) * MsPerDay <= v < (DayNumber(t.year, t.month, t.day) + 1) * MsPerDay
  {
    MinuteNumber(t) * MsPerMinute
  }

  /** ECMAScript's TimeClip: a `Date` holds a time value at most 10^8 days
      either side of the epoch; beyond that it is an invalid `Date`, whose
      time value is `NaN` and compares false with everything. */
  const MaxTimeValue: int := 8_640_000_000_000_000

  predicate Clipped(v: int)
  {
    -MaxTimeValue <= v <= MaxTimeValue
  }

  /** A time value a valid `Date` can hold. */
  type ClippedTime = v: int | Clipped(v)

  /** The `Date` built by `new Date(year, month - 1, day)` and then
      `setHours(hour, minute, 0, 0)` is valid: its midnight is within
      TimeClip's range (else `setHours` keeps it invalid) and so is the
      time it sets. */
  predicate IsValidDate(t: DateTime)
  {
    Clipped(TimeValue(t.(hour := 0, minute := 0))) && Clipped(TimeValue(t))
  }

  /** From year 0 on, the first of March lies between the epoch's offset
      and 366 days per year after it. */
  lemma MarchFirstBounds(y: int)
    requires 0 <= y
    ensures -719468 <= MarchFirst(y) <= 366 * y - 719468
  {
    var era := y / 400;
    var yoe := y - era * 400;
    assert 0 <= era && 0 <= yoe < 400;
    assert era * 146097 <= era * 400 * 366;
    assert yoe / 4 - yoe / 100 <= yoe;
  }

  /** Every calendar date from year 1 to year 200000 is a valid `Date`:
      TimeClip only bites far outside the dates a reading can carry. */
  lemma OrdinaryDatesAreValid(t: DateTime)
    requires ValidCalendar(t) && 1 <= t.year <= 200000
    ensures IsValidDate(t)
  {
    OrdinaryDayRange(t);
    var n := DayNumber(t.year, t.month, t.day);
    TimeWithinClip(n, t.hour, t.minute);
    TimeWithinClip(n, 0, 0);
  }

  lemma OrdinaryDayRange(t: DateTime)
    requires ValidCalendar(t) && 1 <= t.year <= 200000
    ensures -719468 <= DayNumber(t.year, t.month, t.day) < 366 * 200000
  {
    var marchYear := if t.month <= 2 then t.year - 1 else t.year;
    var monthsSinceMarch := if t.month > 2 then t.month - 3 else t.month + 9;
    MarchFirstBounds(marchYear);
    assert 0 <= (153 * monthsSinceMarch + 2) / 5 <= 337;
    assert FirstOfMonth(t.year, t.month) == MarchFirst(marchYear) + (153 * monthsSinceMarch + 2) / 5;
    assert (t.month - 1) / 12 == 0 && (t.month - 1) % 12 + 1 == t.month;
    assert t.day <= 31;
  }

  lemma TimeWithinClip(n: int, hour: int, minute: int)
    requires -719468 <= n < 366 * 200000 && 0 <= hour < 24 && 0 <= minute < 60
    ensures Clipped((n * MinutesPerDay + hour * 60 + minute) * MsPerMinute)
  {
  }

  /** Year 300000 is past TimeClip's range: its `Date` is invalid. */
  lemma FarYearIsInvalid()
    ensures !IsValidDate(DateTime(300000, 1, 1, 0, 0))
  {
    assert MarchFirst(299999) == 108852916;
    assert DayNumber(300000, 1, 1) == 108853222;
  }

  /** The calendar's fixed points: 1 January 1970 is day 0, and 1 March
      2000 (after the leap day of a year divisible by 400) is day 11017. */
  lemma DayNumberAnchors()
    ensures DayNumber(1970, 1, 1) == 0
    ensures DayNumber(2000, 3, 1) == 11017
    ensures DayNumber(2000, 2, 29) == 11016
  {
    assert MarchFirst(1969) == -306;
    assert MarchFirst(2000) == 11017;
    assert MarchFirst(1999) == 11017 - 366;
  }

  // ---------------------------------------------------------------------
  // The day count agrees with the calendar
  // ---------------------------------------------------------------------

  /** Moving a year by whole 400-year eras keeps its leap-year remainders. */
  lemma EraShift(e: int, q: int)
    requires 0 <= q <= 400
    ensures (e * 400 + q) % 4 == q % 4
    ensures (e * 400 + q) % 100 == q % 100
    ensures (e * 400 + q) % 400 == q % 400
  {
    ShiftMod4(e * 100, q);
    ShiftMod100(e * 4, q);
    ShiftMod400(e, q);
  }

  lemma ShiftMod4(k: int, q: int)
    requires 0 <= q <= 400
    ensures (k * 4 + q) % 4 == q % 4
  {
    assert k * 4 + q == (k + q / 4) * 4 + q % 4;
  }

  lemma ShiftMod100(k: int, q: int)
    requires 0 <= q <= 400
    ensures (k * 100 + q) % 100 == q % 100
  {
    assert k * 100 + q == (k + q / 100) * 100 + q % 100;
  }

  lemma ShiftMod400(k: int, q: int)
    requires 0 <= q <= 400
    ensures (k * 400 + q) % 400 == q % 400
  {
    assert k * 400 + q == (k + q / 400) * 400 + q % 400;
  }

  /** Within an era, one more year adds one leap day every 4 years, less
      one every 100. */
  lemma YearStep(q: int)
    requires 1 <= q < 400
    ensures q / 4 - (q - 1) / 4 == if q % 4 == 0 then 1 else 0
    ensures q / 100 - (q - 1) / 100 == if q % 100 == 0 then 1 else 0
  {
  }

  /** A year counted from March has 366 days exactly when the February it
      ends with is a leap February. */
  lemma {:induction false} MarchYearLength(y: int)
    ensures MarchFirst(y + 1) - MarchFirst(y) == if IsLeapYear(y + 1) then 366 else 365
  {
    var era := y / 400;
    var yoe := y - era * 400;
    assert 0 <= yoe < 400;
    EraShift(era, yoe + 1);
    if yoe < 399 {
      assert (y + 1) / 400 == era;
      YearStep(yoe + 1);
    } else {
      assert (y + 1) / 400 == era + 1;
    }
  }

  /** The index of a (year, month) pair in the sequence of all months. */
  function MonthIndex(year: int, month: int): int
  {
    year * 12 + month - 1
  }

  /** The first day of the month with index `k`. */
  function FirstOfMonthIndex(k: int): int
  {
    FirstOfMonth(k / 12, k % 12 + 1)
  }

  function DaysInMonthIndex(k: int): int
  {
    DaysInMonth(k / 12, k % 12 + 1)
  }

  /** Within a year, the first of the next month is the first of this
      month plus its length. */
  lemma NextMonthInYear(y: int, m: int)
    requires 1 <= m < 12
    ensures FirstOfMonth(y, m + 1) == FirstOfMonth(y, m) + DaysInMonth(y, m)
  {
    if m == 1 {
      assert FirstOfMonth(y, 2) - FirstOfMonth(y, 1) == 337 - 306;
    } else if m == 2 {
      FebruaryLength(y);
    } else {
      MonthOffsetStep(m - 3);
    }
  }

  /** February runs from 1 February to 1 March, a leap day included in a
      leap year. */
  lemma FebruaryLength(y: int)
    ensures FirstOfMonth(y, 3) == FirstOfMonth(y, 2) + DaysInMonth(y, 2)
  {
    MarchYearLength(y - 1);
    assert FirstOfMonth(y, 3) == MarchFirst(y);
    assert FirstOfMonth(y, 2) == MarchFirst(y - 1) + 337;
  }

  /** From March to December, the first-of-month offsets within the
      March-based year step by each month's length. */
  lemma MonthOffsetStep(mp: int)
    requires 0 <= mp < 9
    ensures (153 * (mp + 1) + 2) / 5 - (153 * mp + 2) / 5 == DaysInMonth(0, mp + 3)
  {
    if mp == 0 { } else if mp == 1 { } else if mp == 2 { } else if mp == 3 { }
    else if mp == 4 { } else if mp == 5 { } else if mp == 6 { } else if mp == 7 { }
  }

  /** Consecutive months are as far apart as the first of them is long. */
  lemma MonthStep(k: int)
    ensures FirstOfMonthIndex(k + 1) == FirstOfMonthIndex(k) + DaysInMonthIndex(k)
  {
    var y, m := k / 12, k % 12 + 1;
    if m < 12 {
      assert (k + 1) / 12 == y && (k + 1) % 12 + 1 == m + 1;
      NextMonthInYear(y, m);
    } else {
      assert (k + 1) / 12 == y + 1 && (k + 1) % 12 + 1 == 1;
      assert FirstOfMonth(y + 1, 1) == MarchFirst(y) + 306;
      assert FirstOfMonth(y, 12) == MarchFirst(y) + 275;
    }
  }

  /** Later months start later: at least the whole length of the earlier month later. */
  lemma {:induction false} MonthsIncrease(j: int, k: int)
    requires j < k
    ensures FirstOfMonthIndex(j) + DaysInMonthIndex(j) <= FirstOfMonthIndex(k)
    decreases k - j
  {
    MonthStep(k - 1);
    if j < k - 1 {
      MonthsIncrease(j, k - 1);
    }
  }

  /** For a valid date the day number is the first of its month plus its day. */
  lemma DayNumberInMonth(t: DateTime)
    requires ValidCalendar(t)
    ensures DayNumber(t.year, t.month, t.day) == FirstOfMonthIndex(MonthIndex(t.year, t.month)) + t.day - 1
    ensures DaysInMonthIndex(MonthIndex(t.year, t.month)) == DaysInMonth(t.year, t.month)
  {
    var k := MonthIndex(t.year, t.month);
    assert k / 12 == t.year && k % 12 + 1 == t.month;
    assert (t.month - 1) / 12 == 0 && (t.month - 1) % 12 + 1 == t.month;
  }

  /** The calendar order of valid dates: by year, month, day, hour, minute. */
  predicate CalendarBefore(a: DateTime, b: DateTime)
  {
    a.year < b.year ||
    (a.year == b.year && (a.month < b.month ||
    (a.month == b.month && (a.day < b.day ||
    (a.day == b.day && (a.hour < b.hour ||
    (a.hour == b.hour && a.minute < b.minute)))))))
  }

  /** For valid dates, comparing time values is comparing calendar
      positions: the order `Date`s sort by is the order a reader expects. */
  lemma TimeValueIsCalendarOrder(a: DateTime, b: DateTime)
    requires ValidCalendar(a) && ValidCalendar(b)
    ensures TimeValue(a) < TimeValue(b) <==> CalendarBefore(a, b)
    ensures TimeValue(a) == TimeValue(b) <==> a == b
  {
    var ka, kb := MonthIndex(a.year, a.month), MonthIndex(b.year, b.month);
    DayNumberInMonth(a);
    DayNumberInMonth(b);
    var da, db := DayNumber(a.year, a.month, a.day), DayNumber(b.year, b.month, b.day);
    assert MinuteNumber(a) == da * MinutesPerDay + a.hour * 60 + a.minute;
    assert MinuteNumber(b) == db * MinutesPerDay + b.hour * 60 + b.minute;
    if ka < kb {
      MonthsIncrease(ka, kb);
      assert da < db;
      assert MinuteNumber(a) < MinuteNumber(b);
    } else if kb < ka {
      MonthsIncrease(kb, ka);
      assert db < da;
      assert MinuteNumber(b) < MinuteNumber(a);
    } else {
      assert a.year == b.year && a.month == b.month;
      if a.day < b.day {
        assert MinuteNumber(a) < MinuteNumber(b);
      } else if b.day < a.day {
        assert MinuteNumber(b) < MinuteNumber(a);
      }
    }
  }

  /** A valid date that is no later than another is in the same month or an earlier one. */
  lemma MonthIndexMonotone(a: DateTime, b: DateTime)
    requires ValidCalendar(a) && ValidCalendar(b)
    requires TimeValue(a) <= TimeValue(b)
    ensures MonthIndex(a.year, a.month) <= MonthIndex(b.year, b.month)
  {
    TimeValueIsCalendarOrder(a, b);
  }
}
