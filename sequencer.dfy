/** What `fetchList` does with the rows once the request has answered: in
    the local mode the dashboard runs in (its data source is a `.json`
    file), it keeps the rows whose date lies within the chosen range,
    orders them latest first, and hands them to the summary, the state
    panel and the table. */
module Sequencer {
  import opened Wrappers
  import opened Calendar
  import opened Readings
  import opened Dates
  import opened Sorting
  import opened Status
  import opened StateDetails

  /** A date-picker bound: not set (empty field), the time value of the
      chosen day (a valid `Date`), or a `Date` built from text it could not
      read, whose time value is `NaN` and so compares false with everything. */
  datatype Bound = NoBound | At(time: ClippedTime) | Invalid

  /** `d >= from` when a bound is set; false when either side is an invalid `Date`. */
  predicate AtOrAfter(d: DateTime, from: Bound)
  {
    match from
    case NoBound => true
    case At(b) => IsValidDate(d) && TimeValue(d) >= b
    case Invalid => false
  }

  /** `d <= to` when a bound is set; false when either side is an invalid `Date`. */
  predicate AtOrBefore(d: DateTime, to: Bound)
  {
    match to
    case NoBound => true
    case At(b) => IsValidDate(d) && TimeValue(d) <= b
    case Invalid => false
  }

  /** The filter's test: the row's date (at midnight, without its time)
      parses, is not before `from` and not after `to`. A kept row has a
      date and time for the sort; a bound that is not a date keeps nothing,
      and with a bound set an invalid `Date` is dropped. */
  predicate InRange(r: Reading, from: Bound, to: Bound): (b: bool)
    ensures b ==> ParseDDMMYYYY(r.fecha).Some?
    ensures from == Invalid || to == Invalid ==> !b
    ensures b && (from.At? || to.At?) ==> IsValidDate(ParseDDMMYYYY(r.fecha).value)
  {
    var d := ParseDDMMYYYY(r.fecha);
    d.Some? && AtOrAfter(d.value, from) && AtOrBefore(d.value, to)
  }

  /** `rows.filter(...)`: the rows in range, in their original order. */
  function KeepInRange(rows: seq<Reading>, from: Bound, to: Bound): (kept: seq<Reading>)
    ensures |kept| <= |rows|
    ensures forall r :: r in kept ==> r in rows && InRange(r, from, to)
  {
    if rows == [] then []
    else
      var last := rows[|rows| - 1];
      KeepInRange(rows[..|rows| - 1], from, to) + (if InRange(last, from, to) then [last] else [])
  }

  /** Every row passes the filter. */
  ghost predicate AllInRange(rows: seq<Reading>, from: Bound, to: Bound)
  {
    forall r :: r in rows ==> InRange(r, from, to)
  }

  /** The number a row stands for in the comparator `parseRowDate(b) -
      parseRowDate(a)`: its time value. A `null` date counts as 0, but no
      row that passed the filter has one. */
  function RowTime(r: Reading): (t: int)
    ensures ParseRowDate(r).None? ==> t == 0
    ensures ParseRowDate(r).Some? ==> t == TimeValue(ParseRowDate(r).value)
  {
    match ParseRowDate(r)
    case None => 0
    case Some(t) => TimeValue(t)
  }

  /** Latest first: the order `rows.sort((a, b) => parseRowDate(b) - parseRowDate(a))` leaves. */
  ghost predicate LatestFirst(rows: seq<Reading>)
  {
    forall i, j :: 0 <= i < j < |rows| ==> RowTime(rows[j]) <= RowTime(rows[i])
  }

  /** The local-mode filter and sort: exactly the rows in range, each with
      a date and time, latest first. Rows already in range and in that
      order come back unchanged, so sequencing twice is sequencing once. */
  method SequenceLocal(rows: seq<Reading>, from: Bound, to: Bound) returns (out: seq<Reading>)
    ensures multiset(out) == multiset(KeepInRange(rows, from, to))
    ensures forall r :: r in out ==> InRange(r, from, to) && ParseRowDate(r).Some?
    ensures LatestFirst(out)
    ensures AllInRange(rows, from, to) && LatestFirst(rows) ==> out == rows
  {
    var kept := KeepInRange(rows, from, to);
    var a := new Reading[|kept|](k requires 0 <= k < |kept| => kept[k]);
    assert a[..] == kept;
    SortBy(a, r => -RowTime(r));
    out := a[..];
    assert SortedBy(kept, r => -RowTime(r)) ==> out == kept;
    LatestFirstIsSorted(out);
    forall r | r in out
      ensures InRange(r, from, to) && ParseRowDate(r).Some?
    {
      assert r in multiset(out);
      assert r in kept;
    }
    if AllInRange(rows, from, to) && LatestFirst(rows) {
      KeepAllInRange(rows, from, to);
      assert kept == rows;
      LatestFirstIsSorted(kept);
    }
  }

  /** Latest first is ascending order of the negated time value, the key
      the sort is given. */
  lemma LatestFirstIsSorted(rows: seq<Reading>)
    ensures LatestFirst(rows) <==> SortedBy(rows, r => -RowTime(r))
  {
  }

  /** What `fetchList` leaves on screen and returns once the request is
      over. `response` is the `rows` array of a successful answer (an
      answer without one counts as empty), or `None` when the request
      failed in any way: then the list is empty, the pill waits and the
      panel says there is no data. Otherwise the list is the sequenced
      rows, the pill judges the first of them (the latest reading) and the
      panel counts over all of them. */
  method FetchList(response: Option<seq<Reading>>, from: Bound, to: Bound, now: int)
    returns (rows: seq<Reading>, pill: Pill, details: Details)
    ensures response.None? ==> rows == [] && pill == Idle && details == NoData
    ensures response.Some? ==> multiset(rows) == multiset(KeepInRange(response.value, from, to))
    ensures LatestFirst(rows)
    ensures rows != [] ==> forall r :: r in rows ==> RowTime(r) <= RowTime(rows[0])
    ensures pill == SummaryPill(if rows == [] then None else Some(rows[0]))
    ensures details == NoData <==> rows == []
    ensures details.Details? ==> details.lowSp == LowSaturationCount(rows, now)
    ensures details.Details? ==> details.zeroMov == WithoutMovementCount(rows, now)
  {
    if response.None? {
      rows := [];
      pill := SummaryPill(None);
      details := RenderStateDetails([], now);
      return;
    }
    rows := SequenceLocal(response.value, from, to);
    pill := SummaryPill(if rows == [] then None else Some(rows[0]));
    details := RenderStateDetails(rows, now);
    if rows != [] {
      LatestIsFirst(rows);
    }
  }

  /** In a latest-first list no row is later than the first. */
  lemma LatestIsFirst(rows: seq<Reading>)
    requires rows != [] && LatestFirst(rows)
    ensures forall r :: r in rows ==> RowTime(r) <= RowTime(rows[0])
  {
    forall r | r in rows
      ensures RowTime(r) <= RowTime(rows[0])
    {
      var k :| 0 <= k < |rows| && rows[k] == r;
    }
  }

  // ---------------------------------------------------------------------
  // Properties of the filter
  // ---------------------------------------------------------------------

  /** The filter keeps every copy of a row in range and no copy of any
      other: with the sort, the list shown is a rearrangement of exactly
      the rows in range. */
  lemma {:induction false} KeepInRangeCounts(rows: seq<Reading>, from: Bound, to: Bound, r: Reading)
    ensures multiset(KeepInRange(rows, from, to))[r] ==
      if InRange(r, from, to) then multiset(rows)[r] else 0
  {
    if rows != [] {
      var init, last := rows[..|rows| - 1], rows[|rows| - 1];
      assert rows == init + [last];
      assert multiset(rows) == multiset(init) + multiset([last]);
      var tail := if InRange(last, from, to) then [last] else [];
      assert KeepInRange(rows, from, to) == KeepInRange(init, from, to) + tail;
      KeepInRangeCounts(init, from, to, r);
    }
  }

  /** Rows all in range pass the filter unchanged; in particular filtering
      twice is filtering once. */
  lemma {:induction false} KeepAllInRange(rows: seq<Reading>, from: Bound, to: Bound)
    requires forall r :: r in rows ==> InRange(r, from, to)
    ensures KeepInRange(rows, from, to) == rows
  {
    if rows != [] {
      var init, last := rows[..|rows| - 1], rows[|rows| - 1];
      assert rows == init + [last];
      assert InRange(last, from, to);
      assert forall r :: r in init ==> r in rows;
      KeepAllInRange(init, from, to);
    }
  }

  lemma KeepInRangeIdempotent(rows: seq<Reading>, from: Bound, to: Bound)
    ensures KeepInRange(KeepInRange(rows, from, to), from, to) == KeepInRange(rows, from, to)
  {
    KeepAllInRange(KeepInRange(rows, from, to), from, to);
  }

  /** Both bounds are inclusive: a row dated on the `from` day or on the
      `to` day (at the same time value) is kept. The bounds are time values
      on the rows' own scale; the picker's `YYYY-MM-DD` text, which a
      browser reads as UTC midnight, is not converted here. */
  lemma BoundsInclusive(r: Reading, from: ClippedTime, to: ClippedTime)
    requires ParseDDMMYYYY(r.fecha).Some?
    requires from <= to
    requires TimeValue(ParseDDMMYYYY(r.fecha).value) == from || TimeValue(ParseDDMMYYYY(r.fecha).value) == to
    ensures InRange(r, At(from), At(to))
  {
  }

  /** Without bounds the filter only drops the rows whose date does not parse. */
  lemma UnboundedKeepsParsable(r: Reading)
    ensures InRange(r, NoBound, NoBound) <==> ParseDDMMYYYY(r.fecha).Some?
  {
  }

  /** A bound that did not read as a date keeps nothing. */
  lemma {:induction false} InvalidBoundKeepsNothing(rows: seq<Reading>, other: Bound)
    ensures KeepInRange(rows, Invalid, other) == []
    ensures KeepInRange(rows, other, Invalid) == []
  {
    if rows != [] {
      InvalidBoundKeepsNothing(rows[..|rows| - 1], other);
    }
  }

  /** With a bound set, a row dated 1 January 300000, a date a `Date` cannot
      hold, is dropped whatever the bound. */
  lemma FarFutureDropped(from: Bound, to: Bound)
    requires from.At? || to.At?
    ensures !InRange(Reading(Some("01/01/300000"), None, Undefined, Null, Null), from, to)
  {
    FarFutureDate();
    FarYearIsInvalid();
  }
}
