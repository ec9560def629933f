/** The dashboard's date helpers: reading a row's `dd/mm/yyyy` date and
    `hh:mm` time into a `Date`, writing a date as `YYYY-MM-DD`, and the two
    differences the state panel shows (minutes since the last reading,
    months of coverage). */
module Dates {
  import opened Wrappers
  import opened Text
  import opened Calendar
  import opened Readings

  /** The `!x` test on a `parseInt` result: `NaN` and 0 are falsy. */
  predicate Falsy(n: Option<int>)
  {
    n.None? || n.value == 0
  }

  /** `parseInt(x) || 0`. */
  function OrZero(n: Option<int>): int
  {
    if Falsy(n) then 0 else n.value
  }

  /** `parseDDMMYYYY(str)`: split at '/', read day, month and year with
      `parseInt`, and build local midnight of that date. No date when the
      text is missing or empty, when it has fewer than three pieces, or
      when any of the three numbers is `NaN` or 0. */
  function ParseDDMMYYYY(str: Option<string>): (r: Option<DateTime>)
    ensures str.None? || str == Some("") ==> r.None?
    ensures r.Some? ==> r.value.day != 0 && r.value.month != 0 && r.value.year != 0
    ensures r.Some? ==> r.value.hour == 0 && r.value.minute == 0
  {
    if str.None? || str.value == "" then None
    else
      var parts := Split(str.value, '/');
      if |parts| < 3 then None
      else
        var dd, mm, yyyy := ParseInt(parts[0]), ParseInt(parts[1]), ParseInt(parts[2]);
        if Falsy(yyyy) || Falsy(mm) || Falsy(dd) then None
        else Some(LocalDate(yyyy.value, mm.value, dd.value))
  }

  /** `parseRowDate(r)`: the row's date with its time of day set. A missing
      or empty time means "00:00"; an hour or minute that does not read as
      a non-zero number counts as 0; seconds are always 0. */
  function ParseRowDate(r: Reading): (t: Option<DateTime>)
    ensures t.None? <==> ParseDDMMYYYY(r.fecha).None?
    ensures t.Some? ==> var d := ParseDDMMYYYY(r.fecha).value;
      t.value.year == d.year && t.value.month == d.month && t.value.day == d.day
  {
    match ParseDDMMYYYY(r.fecha)
    case None => None
    case Some(d) =>
      var parts := Split(if OrEmpty(r.hora) == "" then "00:00" else r.hora.value, ':');
      var hh := ParseInt(parts[0]);
      var mi := if |parts| >= 2 then ParseInt(parts[1]) else None;
      Some(SetHours(d, OrZero(hh), OrZero(mi)))
  }

  /** `toYMD(d)`: the year, then month and day padded to two digits,
      separated by '-'. */
  function ToYMD(t: DateTime): string
  {
    IntToString(t.year) + "-" + PadStart2(IntToString(t.month)) + "-" + PadStart2(IntToString(t.day))
  }

  /** `diffMinutes(a, b)`: `Math.round((a - b) / 60000)`, the whole number
      of minutes nearest to the difference of two time values, a half
      minute rounding up. */
  function DiffMinutes(a: int, b: int): (r: int)
    ensures -30000 <= (a - b) - r * MsPerMinute < 30000
  {
    (a - b + 30000) / MsPerMinute
  }

  /** `diffMonths(a, b)`: 0 when either date is missing; otherwise the
      number of calendar months from the month of `a` to the month of `b`,
      both counted. */
  function DiffMonths(a: Option<DateTime>, b: Option<DateTime>): (r: int)
    ensures a.None? || b.None? ==> r == 0
    ensures a.Some? && b.Some? ==>
      r == MonthIndex(b.value.year, b.value.month) - MonthIndex(a.value.year, a.value.month) + 1
  {
    if a.None? || b.None? then 0
    else (b.value.year - a.value.year) * 12 + (b.value.month - a.value.month) + 1
  }

  // ---------------------------------------------------------------------
  // Properties
  // ---------------------------------------------------------------------

  /** `diffMinutes` gives exactly one answer: any whole number of minutes
      within half a minute of the difference (ties up) is its result. */
  lemma DiffMinutesIsNearest(a: int, b: int, m: int)
    requires -30000 <= (a - b) - m * MsPerMinute < 30000
    ensures DiffMinutes(a, b) == m
  {
    var r := DiffMinutes(a, b);
    assert (r - m) * MsPerMinute < 60000 && (m - r) * MsPerMinute < 60000;
  }

  /** Two dates a whole number of minutes apart are that many minutes apart. */
  lemma DiffMinutesOfDates(a: DateTime, b: DateTime)
    ensures DiffMinutes(TimeValue(a), TimeValue(b)) == MinuteNumber(a) - MinuteNumber(b)
  {
    DiffMinutesIsNearest(TimeValue(a), TimeValue(b), MinuteNumber(a) - MinuteNumber(b));
  }

  /** A date written as day, month and year separated by '/' reads back as
      those numbers, a year from 1 to 99 meaning 1901 to 1999. */
  lemma ParseDDMMYYYYOfParts(dd: string, mm: string, yyyy: string, d: int, m: int, y: int)
    requires '/' !in dd && '/' !in mm && '/' !in yyyy
    requires ParseInt(dd) == Some(d) && ParseInt(mm) == Some(m) && ParseInt(yyyy) == Some(y)
    requires d != 0 && m != 0 && y != 0
    ensures ParseDDMMYYYY(Some(dd + "/" + mm + "/" + yyyy)) ==
      Some(DateTime(if 1 <= y <= 99 then y + 1900 else y, m, d, 0, 0))
  {
    var s := dd + "/" + mm + "/" + yyyy;
    assert s == dd + ['/'] + mm + ['/'] + yyyy;
    SplitThree(dd, mm, yyyy, '/');
    var parts := Split(s, '/');
    assert parts[0] == dd && parts[1] == mm && parts[2] == yyyy;
    assert s != "";
  }

  /** The usual form, `dd/mm/yyyy` with a two-digit day and month, reads
      back as the date written. */
  lemma ParseDDMMYYYYRoundTrip(d: nat, m: nat, y: nat)
    requires 1 <= d <= 31 && 1 <= m <= 12 && y >= 100
    ensures ParseDDMMYYYY(Some(PadStart2(NatToString(d)) + "/" + PadStart2(NatToString(m)) + "/" + NatToString(y)))
      == Some(DateTime(y, m, d, 0, 0))
  {
    ParseIntOfPadded(d);
    ParseIntOfPadded(m);
    ParseIntOfIntToString(y);
    var dd, mm, yyyy := PadStart2(NatToString(d)), PadStart2(NatToString(m)), NatToString(y);
    PaddedDigits(NatToString(d));
    PaddedDigits(NatToString(m));
    DigitsHoldNoSeparator(dd, '/');
    DigitsHoldNoSeparator(mm, '/');
    DigitsHoldNoSeparator(yyyy, '/');
    ParseDDMMYYYYOfParts(dd, mm, NatToString(y), d, m, y);
  }

  /** A day, month or year that reads as `NaN` or as 0 rejects the date. */
  lemma ParseDDMMYYYYZero(dd: string, mm: string, yyyy: string)
    requires '/' !in dd && '/' !in mm && '/' !in yyyy
    requires Falsy(ParseInt(dd)) || Falsy(ParseInt(mm)) || Falsy(ParseInt(yyyy))
    ensures ParseDDMMYYYY(Some(dd + "/" + mm + "/" + yyyy)).None?
  {
    var s := dd + "/" + mm + "/" + yyyy;
    assert s == dd + ['/'] + mm + ['/'] + yyyy;
    SplitThree(dd, mm, yyyy, '/');
    assert s != "";
  }

  /** A text without two '/' separators is not a date. */
  lemma ParseDDMMYYYYTooFewParts(a: string, b: string)
    requires '/' !in a && '/' !in b
    ensures ParseDDMMYYYY(Some(a)).None?
    ensures ParseDDMMYYYY(Some(a + "/" + b)).None?
  {
    SplitNoSeparator(a, '/');
    assert a + "/" + b == a + ['/'] + b;
    SplitTwo(a, b, '/');
  }

  /** A row without a time is dated at midnight. */
  lemma RowDateWithoutTime(r: Reading)
    requires r.hora.None? || r.hora == Some("")
    ensures ParseRowDate(r) == ParseDDMMYYYY(r.fecha)
  {
    assert "00:00" == "00" + [':'] + "00";
    SplitTwo("00", "00", ':');
    assert ParseInt("00") == Some(0) by {
      assert AllDigits("00");
      ParseIntOfDigits("00");
      assert DigitsValue("00") == 0;
    }
  }

  /** A time written `hh:mm` sets the hour to what `parseInt` reads in
      `hh` and the minute to what it reads in `mm`, each 0 when it reads
      `NaN`. */
  lemma RowDateOfTimeParts(r: Reading, hs: string, ms: string)
    requires ParseDDMMYYYY(r.fecha).Some?
    requires ':' !in hs && ':' !in ms
    requires r.hora == Some(hs + ":" + ms)
    ensures ParseRowDate(r).Some?
    ensures ParseRowDate(r).value.hour == OrZero(ParseInt(hs))
    ensures ParseRowDate(r).value.minute == OrZero(ParseInt(ms))
  {
    assert r.hora.value == hs + [':'] + ms;
    SplitTwo(hs, ms, ':');
  }

  /** A time written `h:m` sets exactly that hour and minute. */
  lemma RowDateWithTime(r: Reading, h: nat, m: nat)
    requires ParseDDMMYYYY(r.fecha).Some?
    requires r.hora == Some(NatToString(h) + ":" + NatToString(m))
    ensures ParseRowDate(r).Some?
    ensures ParseRowDate(r).value.hour == h && ParseRowDate(r).value.minute == m
  {
    var hs, ms := NatToString(h), NatToString(m);
    DigitsHoldNoSeparator(hs, ':');
    DigitsHoldNoSeparator(ms, ':');
    ParseIntOfIntToString(h);
    ParseIntOfIntToString(m);
    RowDateOfTimeParts(r, hs, ms);
  }

  /** The usual form, `hh:mm` padded to two digits each (as in "08:05"),
      sets exactly that hour and minute. */
  lemma RowDateWithPaddedTime(r: Reading, h: nat, m: nat)
    requires ParseDDMMYYYY(r.fecha).Some?
    requires h < 100 && m < 100
    requires r.hora == Some(PadStart2(NatToString(h)) + ":" + PadStart2(NatToString(m)))
    ensures ParseRowDate(r).Some?
    ensures ParseRowDate(r).value.hour == h && ParseRowDate(r).value.minute == m
  {
    var hs, ms := PadStart2(NatToString(h)), PadStart2(NatToString(m));
    PaddedDigits(NatToString(h));
    PaddedDigits(NatToString(m));
    DigitsHoldNoSeparator(hs, ':');
    DigitsHoldNoSeparator(ms, ':');
    ParseIntOfPadded(h);
    ParseIntOfPadded(m);
    RowDateOfTimeParts(r, hs, ms);
  }

  /** Each half of the time falls back to 0 on its own: with `junk` any
      text that opens with neither a digit, a sign nor white space, "12:xx"
      is 12:00 and "xx:30" is 00:30. */
  lemma RowDateHalfReadable(r: Reading, h: nat, m: nat, junk: string)
    requires ParseDDMMYYYY(r.fecha).Some?
    requires ':' !in junk && junk != []
    requires !IsJsSpace(junk[0]) && !IsDigit(junk[0]) && junk[0] != '-' && junk[0] != '+'
    ensures r.hora == Some(NatToString(h) + ":" + junk) ==>
      ParseRowDate(r).value.hour == h && ParseRowDate(r).value.minute == 0
    ensures r.hora == Some(junk + ":" + NatToString(m)) ==>
      ParseRowDate(r).value.hour == 0 && ParseRowDate(r).value.minute == m
  {
    ParseIntOfNonNumber(junk);
    if r.hora == Some(NatToString(h) + ":" + junk) {
      DigitsHoldNoSeparator(NatToString(h), ':');
      ParseIntOfIntToString(h);
      RowDateOfTimeParts(r, NatToString(h), junk);
    }
    if r.hora == Some(junk + ":" + NatToString(m)) {
      DigitsHoldNoSeparator(NatToString(m), ':');
      ParseIntOfIntToString(m);
      RowDateOfTimeParts(r, junk, NatToString(m));
    }
  }

  /** A time without ':' sets the hour to what `parseInt` reads in it (0
      for `NaN`), and the minute, which is missing, to 0. */
  lemma RowDateWithoutMinutes(r: Reading, a: string)
    requires ParseDDMMYYYY(r.fecha).Some?
    requires ':' !in a && a != ""
    requires r.hora == Some(a)
    ensures ParseRowDate(r).Some?
    ensures ParseRowDate(r).value.hour == OrZero(ParseInt(a))
    ensures ParseRowDate(r).value.minute == 0
  {
    SplitNoSeparator(a, ':');
  }

  /** `toYMD` of a calendar date with a non-negative year splits at '-'
      into the year and the two-digit month and day, and each piece reads
      back as the number written. */
  lemma ToYMDRoundTrip(t: DateTime)
    requires ValidCalendar(t) && t.year >= 0
    ensures var parts := Split(ToYMD(t), '-');
      |parts| == 3 && |parts[1]| == 2 && |parts[2]| == 2 &&
      ParseInt(parts[0]) == Some(t.year) && ParseInt(parts[1]) == Some(t.month) &&
      ParseInt(parts[2]) == Some(t.day)
  {
    ToYMDPieces(t);
    ToYMDPiecesReadBack(t);
  }

  lemma ToYMDPiecesReadBack(t: DateTime)
    requires ValidCalendar(t) && t.year >= 0
    ensures ParseInt(NatToString(t.year)) == Some(t.year)
    ensures |PadStart2(NatToString(t.month))| == 2 && ParseInt(PadStart2(NatToString(t.month))) == Some(t.month)
    ensures |PadStart2(NatToString(t.day))| == 2 && ParseInt(PadStart2(NatToString(t.day))) == Some(t.day)
  {
    assert t.day < 100 by {
      assert DaysInMonth(t.year, t.month) <= 31;
    }
    ParseIntOfPadded(t.month);
    ParseIntOfPadded(t.day);
    DigitsValueOfNatToString(t.year);
    ParseIntOfDigits(NatToString(t.year));
  }

  lemma ToYMDPieces(t: DateTime)
    requires ValidCalendar(t) && t.year >= 0
    ensures Split(ToYMD(t), '-') ==
      [NatToString(t.year), PadStart2(NatToString(t.month)), PadStart2(NatToString(t.day))]
  {
    var y, mm, dd := NatToString(t.year), PadStart2(NatToString(t.month)), PadStart2(NatToString(t.day));
    PaddedDigits(NatToString(t.month));
    PaddedDigits(NatToString(t.day));
    DigitsHoldNoSeparator(y, '-');
    DigitsHoldNoSeparator(mm, '-');
    DigitsHoldNoSeparator(dd, '-');
    assert ToYMD(t) == y + ['-'] + mm + ['-'] + dd;
    SplitThree(y, mm, dd, '-');
  }

  /** The coverage span of two valid dates, the first no later than the
      second, touches at least one month. */
  lemma DiffMonthsAtLeastOne(a: DateTime, b: DateTime)
    requires ValidCalendar(a) && ValidCalendar(b)
    requires TimeValue(a) <= TimeValue(b)
    ensures DiffMonths(Some(a), Some(b)) >= 1
  {
    MonthIndexMonotone(a, b);
  }

  /** "01/01/300000" reads as 1 January of the year 300000. */
  lemma FarFutureDate()
    ensures ParseDDMMYYYY(Some("01/01/300000")) == Some(DateTime(300000, 1, 1, 0, 0))
  {
    assert PadStart2(NatToString(1)) == "01";
    FarYearDigits();
    assert "01/01/300000" == PadStart2(NatToString(1)) + "/" + PadStart2(NatToString(1)) + "/" + NatToString(300000);
    ParseDDMMYYYYRoundTrip(1, 1, 300000);
  }

  lemma FarYearDigits()
    ensures NatToString(300000) == "300000"
  {
    assert NatToString(30) == "30";
    assert NatToString(3000) == "3000";
  }
}
