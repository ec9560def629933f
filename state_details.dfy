/** The state panel of the dashboard (`renderStateDetails`): how long ago
    the latest reading was taken, how many readings of the last hour had a
    saturation below 90%, how many of the last half hour had no fetal
    movement, and which months the data covers. */
module StateDetails {
  import opened Wrappers
  import opened Calendar
  import opened Readings
  import opened Dates
  import opened Sorting

  /** The "time since" text: minutes alone under an hour, else hours and
      minutes; `NaN h NaN min` when the latest date is an invalid `Date`. */
  datatype Ago = Minutes(minutes: int) | HoursMinutes(hours: int, minutes: int) | NotANumber

  /** What the panel shows: "no data in the selected range", or the figures. */
  datatype Details =
    | NoData
    | Details(ago: Option<Ago>, lowSp: nat, zeroMov: nat,
              start: Option<DateTime>, end: Option<DateTime>, months: int)

  /** Splits a number of minutes as the panel prints it. */
  function AgoOf(mins: int): (a: Ago)
    ensures mins < 60 ==> a == Minutes(mins)
    ensures mins >= 60 ==> a.HoursMinutes? && a.hours >= 1 && 0 <= a.minutes < 60 &&
                           a.hours * 60 + a.minutes == mins
  {
    if mins < 60 then Minutes(mins) else HoursMinutes(mins / 60, mins % 60)
  }

  // ---------------------------------------------------------------------
  // What the loop counts
  // ---------------------------------------------------------------------

  /** The reading's date and time, if its date parses, at or after the
      moment `minutes` before `now`. An invalid `Date` compares false, so
      it is in no window. */
  predicate InWindow(r: Reading, now: int, minutes: int)
  {
    var t := ParseRowDate(r);
    t.Some? && IsValidDate(t.value) && TimeValue(t.value) >= now - minutes * MsPerMinute
  }

  /** `Number(r.spo2) < 90`, for a reading of the last hour. A `null`
      saturation reads as 0 and counts; a missing one reads as `NaN` and does not. */
  predicate IsLowSaturation(r: Reading, now: int)
  {
    InWindow(r, now, 60) && var n := ToNumber(r.spo2); n.Some? && n.value < 90.0
  }

  /** `Number(r.patadas) === 0`, for a reading of the last half hour. */
  predicate IsWithoutMovement(r: Reading, now: int)
  {
    InWindow(r, now, 30) && ToNumber(r.patadas) == Some(0.0)
  }

  /** How many elements of `s` satisfy `p`. */
  function Count(s: seq<Reading>, p: Reading -> bool): nat
  {
    if s == [] then 0 else Count(s[..|s| - 1], p) + (if p(s[|s| - 1]) then 1 else 0)
  }

  function LowSaturationCount(rows: seq<Reading>, now: int): nat
  {
    Count(rows, r => IsLowSaturation(r, now))
  }

  function WithoutMovementCount(rows: seq<Reading>, now: int): nat
  {
    Count(rows, r => IsWithoutMovement(r, now))
  }

  function WindowCount(rows: seq<Reading>, now: int, minutes: int): nat
  {
    Count(rows, r => InWindow(r, now, minutes))
  }

  /** The dates of the rows whose date parses, in row order. */
  function ParsedDates(rows: seq<Reading>): (ds: seq<DateTime>)
    ensures |ds| <= |rows|
  {
    if rows == [] then []
    else
      var t := ParseRowDate(rows[|rows| - 1]);
      ParsedDates(rows[..|rows| - 1]) + (if t.Some? then [t.value] else [])
  }

  // ---------------------------------------------------------------------
  // The panel
  // ---------------------------------------------------------------------

  /** The loop of `renderStateDetails`: one pass over the rows that skips
      a row whose date does not parse, collects the parsed dates and counts
      the low-saturation readings of the last hour and the readings without
      movement of the last half hour. */
  method CountWindows(rows: seq<Reading>, now: int) returns (lowSp: nat, zeroMov: nat, dates: seq<DateTime>)
    ensures lowSp == LowSaturationCount(rows, now)
    ensures zeroMov == WithoutMovementCount(rows, now)
    ensures dates == ParsedDates(rows)
  {
    var cut1h := now - 60 * MsPerMinute;
    var cut30m := now - 30 * MsPerMinute;
    lowSp, zeroMov := 0, 0;
    dates := [];
    for i := 0 to |rows|
      invariant lowSp == LowSaturationCount(rows[..i], now)
      invariant zeroMov == WithoutMovementCount(rows[..i], now)
      invariant dates == ParsedDates(rows[..i])
    {
      var r := rows[i];
      CountsStep(rows, i, now);
      var dt := ParseRowDate(r);
      if dt.Some? {
        dates := dates + [dt.value];
        var spo2 := ToNumber(r.spo2);
        // `dt >= cut` is false when `dt` is an invalid `Date`
        var valid := IsValidDate(dt.value);
        if valid && TimeValue(dt.value) >= cut1h && spo2.Some? && spo2.value < 90.0 {
          lowSp := lowSp + 1;
        }
        if valid && TimeValue(dt.value) >= cut30m && ToNumber(r.patadas) == Some(0.0) {
          zeroMov := zeroMov + 1;
        }
      }
    }
    assert rows[..|rows|] == rows;
  }

  /** One more row adds itself to each count it satisfies, and its date
      to the dates when it parses. */
  lemma CountsStep(rows: seq<Reading>, i: int, now: int)
    requires 0 <= i < |rows|
    ensures LowSaturationCount(rows[..i + 1], now) ==
      LowSaturationCount(rows[..i], now) + if IsLowSaturation(rows[i], now) then 1 else 0
    ensures WithoutMovementCount(rows[..i + 1], now) ==
      WithoutMovementCount(rows[..i], now) + if IsWithoutMovement(rows[i], now) then 1 else 0
    ensures ParsedDates(rows[..i + 1]) ==
      ParsedDates(rows[..i]) + if ParseRowDate(rows[i]).Some? then [ParseRowDate(rows[i]).value] else []
  {
    assert rows[..i + 1][..i] == rows[..i];
  }

  /** `dates.sort((a, b) => a - b)` and its first and last elements: the
      earliest and the latest date, or none when no date parsed. */
  method CoverageSpan(dates: seq<DateTime>) returns (start: Option<DateTime>, end: Option<DateTime>)
    ensures start.None? <==> dates == []
    ensures end.None? <==> dates == []
    ensures start.Some? ==> start.value in dates && end.value in dates
    ensures start.Some? ==> forall t :: t in dates ==>
      TimeValue(start.value) <= TimeValue(t) <= TimeValue(end.value)
  {
    var sorted := new DateTime[|dates|](k requires 0 <= k < |dates| => dates[k]);
    assert sorted[..] == dates;
    SortBy(sorted, TimeValue);
    ghost var s := sorted[..];
    if sorted.Length == 0 {
      start, end := None, None;
    } else {
      FirstAndLastBound(s, dates);
      start, end := Some(sorted[0]), Some(sorted[sorted.Length - 1]);
      assert start.value == s[0] && end.value == s[|s| - 1];
    }
  }

  /** `renderStateDetails(rows)` with the clock reading `now` (milliseconds
      on the same scale as the rows' time values). An empty list gives
      "no data". Otherwise: the time since the first row (when its date
      parses), the two window counts, and the earliest and latest parsed
      dates with the months between them. */
  method RenderStateDetails(rows: seq<Reading>, now: int) returns (d: Details)
    ensures d == NoData <==> rows == []
    ensures d.Details? ==> d.ago == match ParseRowDate(rows[0])
      case None => None
      case Some(t) => Some(if IsValidDate(t) then AgoOf(DiffMinutes(now, TimeValue(t))) else NotANumber)
    ensures d.Details? ==> d.lowSp == LowSaturationCount(rows, now)
    ensures d.Details? ==> d.zeroMov == WithoutMovementCount(rows, now)
    ensures d.Details? ==> (d.start.None? <==> ParsedDates(rows) == []) && d.start.None? == d.end.None?
    ensures d.Details? && d.start.Some? ==> d.start.value in ParsedDates(rows) && d.end.value in ParsedDates(rows)
    ensures d.Details? && d.start.Some? ==> forall t :: t in ParsedDates(rows) ==>
      TimeValue(d.start.value) <= TimeValue(t) <= TimeValue(d.end.value)
    ensures d.Details? ==> d.months == DiffMonths(d.start, d.end)
    ensures d.Details? && d.start.Some? && (forall t :: t in ParsedDates(rows) ==> ValidCalendar(t)) ==>
      d.months >= 1
  {
    if rows == [] {
      return NoData;
    }
    var lastDT := ParseRowDate(rows[0]);
    var ago := None;
    if lastDT.Some? {
      ago := Some(if IsValidDate(lastDT.value) then AgoOf(DiffMinutes(now, TimeValue(lastDT.value))) else NotANumber);
    }
    var lowSp, zeroMov, dates := CountWindows(rows, now);
    var start, end := CoverageSpan(dates);
    if start.Some? && forall t :: t in dates ==> ValidCalendar(t) {
      DiffMonthsAtLeastOne(start.value, end.value);
    }
    d := Details(ago, lowSp, zeroMov, start, end, DiffMonths(start, end));
  }

  /** In an ordered rearrangement of `ds`, the first and last elements are
      elements of `ds` and bound all of them. */
  lemma FirstAndLastBound(s: seq<DateTime>, ds: seq<DateTime>)
    requires |s| > 0 && multiset(s) == multiset(ds)
    requires SortedBy(s, TimeValue)
    ensures s[0] in ds && s[|s| - 1] in ds
    ensures forall t :: t in ds ==> TimeValue(s[0]) <= TimeValue(t) <= TimeValue(s[|s| - 1])
  {
    assert s[0] in multiset(s) && s[|s| - 1] in multiset(s);
    forall t | t in ds
      ensures TimeValue(s[0]) <= TimeValue(t) <= TimeValue(s[|s| - 1])
    {
      assert t in multiset(s);
      var k :| 0 <= k < |s| && s[k] == t;
    }
  }

  // ---------------------------------------------------------------------
  // Properties of the counts
  // ---------------------------------------------------------------------

  lemma {:induction false} CountAppend(a: seq<Reading>, b: seq<Reading>, p: Reading -> bool)
    ensures Count(a + b, p) == Count(a, p) + Count(b, p)
    decreases |b|
  {
    if b != [] {
      assert (a + b)[..|a + b| - 1] == a + b[..|b| - 1];
      CountAppend(a, b[..|b| - 1], p);
    } else {
      assert a + b == a;
    }
  }

  /** Counting a weaker condition never gives less. */
  lemma {:induction false} CountMonotone(s: seq<Reading>, p: Reading -> bool, q: Reading -> bool)
    requires forall r :: r in s && p(r) ==> q(r)
    ensures Count(s, p) <= Count(s, q) <= |s|
  {
    if s != [] {
      CountMonotone(s[..|s| - 1], p, q);
    }
  }

  /** Each count is bounded by the readings of its window, and the half
      hour window lies inside the hour window. */
  lemma CountsWithinWindows(rows: seq<Reading>, now: int)
    ensures LowSaturationCount(rows, now) <= WindowCount(rows, now, 60) <= |rows|
    ensures WithoutMovementCount(rows, now) <= WindowCount(rows, now, 30)
    ensures WindowCount(rows, now, 30) <= WindowCount(rows, now, 60)
  {
    CountMonotone(rows, r => IsLowSaturation(r, now), r => InWindow(r, now, 60));
    CountMonotone(rows, r => IsWithoutMovement(r, now), r => InWindow(r, now, 30));
    CountMonotone(rows, r => InWindow(r, now, 30), r => InWindow(r, now, 60));
  }

  /** A row whose date does not parse changes neither count nor the dates,
      wherever it stands. */
  lemma UnparsableRowCountsNothing(a: seq<Reading>, r: Reading, b: seq<Reading>, now: int)
    requires ParseRowDate(r).None?
    ensures LowSaturationCount(a + [r] + b, now) == LowSaturationCount(a + b, now)
    ensures WithoutMovementCount(a + [r] + b, now) == WithoutMovementCount(a + b, now)
    ensures ParsedDates(a + [r] + b) == ParsedDates(a + b)
  {
    var low := (x: Reading) => IsLowSaturation(x, now);
    var still := (x: Reading) => IsWithoutMovement(x, now);
    CountAppend(a + [r], b, low);
    CountAppend(a, [r], low);
    CountAppend(a, b, low);
    CountAppend(a + [r], b, still);
    CountAppend(a, [r], still);
    CountAppend(a, b, still);
    assert Count([r], low) == 0 && Count([r], still) == 0 by {
      assert [r][..0] == [];
    }
    ParsedDatesAppend(a + [r], b);
    ParsedDatesAppend(a, [r]);
    ParsedDatesAppend(a, b);
    assert ParsedDates([r]) == [] by {
      assert [r][..0] == [];
    }
  }

  lemma {:induction false} ParsedDatesAppend(a: seq<Reading>, b: seq<Reading>)
    ensures ParsedDates(a + b) == ParsedDates(a) + ParsedDates(b)
    decreases |b|
  {
    if b != [] {
      assert (a + b)[..|a + b| - 1] == a + b[..|b| - 1];
      ParsedDatesAppend(a, b[..|b| - 1]);
    } else {
      assert a + b == a;
    }
  }

  /** As the clock moves on, the windows only lose readings. */
  lemma CountsShrinkOverTime(rows: seq<Reading>, earlier: int, later: int)
    requires earlier <= later
    ensures LowSaturationCount(rows, later) <= LowSaturationCount(rows, earlier)
    ensures WithoutMovementCount(rows, later) <= WithoutMovementCount(rows, earlier)
  {
    CountMonotone(rows, r => IsLowSaturation(r, later), r => IsLowSaturation(r, earlier));
    CountMonotone(rows, r => IsWithoutMovement(r, later), r => IsWithoutMovement(r, earlier));
  }

  /** `Number(null)` is 0: a reading of the last hour whose saturation is
      `null` counts as a low saturation, and one whose movement count is
      `null` as a reading without movement; a missing field counts as neither. */
  lemma NullCountsAsZero(r: Reading, now: int)
    requires InWindow(r, now, 30)
    ensures r.spo2 == Null ==> IsLowSaturation(r, now)
    ensures r.patadas == Null ==> IsWithoutMovement(r, now)
    ensures r.spo2 == Undefined ==> !IsLowSaturation(r, now)
    ensures r.patadas == Undefined ==> !IsWithoutMovement(r, now)
  {
  }

  /** A reading whose date lies beyond what a `Date` can hold (more than
      8.64e15 ms either side of 1970) counts in neither window, whatever
      its readings. */
  lemma InvalidDateCountsNothing(r: Reading, now: int)
    requires ParseRowDate(r).Some? && !IsValidDate(ParseRowDate(r).value)
    ensures !IsLowSaturation(r, now) && !IsWithoutMovement(r, now)
  {
  }

  /** The reading of 1 January 300000 with `null` saturation and movements
      is such a date: it would count in both windows if it could be held,
      and counts in neither. */
  lemma FarFutureCountsNothing(now: int)
    ensures var r := Reading(Some("01/01/300000"), None, Undefined, Null, Null);
      ParseRowDate(r) == Some(DateTime(300000, 1, 1, 0, 0)) &&
      !IsLowSaturation(r, now) && !IsWithoutMovement(r, now)
  {
    var r := Reading(Some("01/01/300000"), None, Undefined, Null, Null);
    FarFutureDate();
    RowDateWithoutTime(r);
    FarYearIsInvalid();
  }
}
