# FetalAlert doctor dashboard: a Dafny model of its data logic

The doctor dashboard (`script.js`) shows a pregnant patient's readings:
heart rate (`fc`), oxygen saturation (`spo2`) and fetal movements
(`patadas`), each dated by a `dd/mm/yyyy` text (`fecha`) and an `hh:mm`
text (`hora`). This project models the logic behind what it shows, and
proves properties of that model:

- the clinical label of the heart-rate and saturation cards, and the
  global status pill built from them (module `Status`);
- the date helpers: reading a row's date and time into a JavaScript
  `Date`, writing a date as `YYYY-MM-DD`, and the differences in minutes
  and months (modules `Dates`, `Calendar` and `Text`);
- the state panel: the time since the latest reading, the readings of
  the last hour with a saturation below 90%, the readings of the last half
  hour without movement, and the months the data covers (module
  `StateDetails`);
- in the local mode the dashboard runs in, the date-range filter and the
  latest-first sort of the rows, and what the page shows once a request
  has succeeded or failed (module `Sequencer`);
- the CSV text the export button builds (module `Export`).

`Sorting` holds the one in-place sort both sorts use. `Array.prototype.sort`
with a numeric comparator is modelled as an insertion sort on an `array`.
`Readings` holds the row type.

A JavaScript `Date` is modelled by the components it was built from. Its
time value follows the day count of ECMAScript's MakeDay and MakeTime
(section 21.4.1 of ECMA-262), so `31/02/2025` and `25:00` carry over into
the next month and day as they do in a browser. TimeClip is modelled too:
a date whose time value, at midnight or at its time of day, lies more than
8.64e15 ms from 1970 is invalid (`Calendar.IsValidDate`). An invalid date
still counts as a date in `if (dt)`, but every comparison with it is
false, and the time since it reads `NaN`. `Calendar.TimeValueIsCalendarOrder` proves that, for
dates whose components are in range, comparing time values is
comparing year, month, day, hour and minute in that order. A row field is
`undefined`, `null` or a value. A value carries both its text and its
`Number(...)` reading, so that `Number(null) = 0` and `?? ''` behave as in
the browser. The clock (`new Date()`) is a parameter `now`, in
milliseconds. So are the bounds of the date pickers.

In the code, 65 to 110 bpm is within threshold, and 60 to 64 and 111 to
120 are under observation. `Status.BandBoundaries` states the boundaries as
the code draws them.

Three behaviours of the code are stated as lemmas:

- a `null` saturation or movement count counts as 0 in the state panel
  (`StateDetails.NullCountsAsZero`);
- a latest reading without heart rate or saturation shows the in-range
  pill (`Status.MissingVitalsShowInRange`);
- an unquoted comma in a cell shifts the CSV columns
  (`Export.CommaShiftsColumns`).

## Model

| member | source | states |
|---|---|---|
| Readings.ToNumber | script.js:162-163 | `Number(null)` is 0, `Number(undefined)` is `NaN`, and a value reads as its numeric reading. |
| Status.ClinicalValue | script.js:38 | A card has a number to classify exactly when the value is not `null`, not missing, not `''` and not `NaN`; that number is then the value's numeric reading. |
| Status.HeartRateBand | script.js:39-42 | Below 60 or above 120 is out of threshold. 60 to under 65, and above 110 to 120, is observation. 65 to 110 is within. Each band is an if-and-only-if. |
| Status.SaturationBand | script.js:46-49 | Below 90 is out of threshold, 90 to under 94 is observation, 94 and above is within, each as an if-and-only-if. |
| Status.StatusHR | script.js:37-43 | The label is "unavailable" exactly when there is no clinical value; otherwise it is that value's heart-rate band. |
| Status.StatusSpO2 | script.js:44-50 | The label is "unavailable" exactly when there is no clinical value; otherwise it is that value's saturation band. |
| Status.GlobalStatus | script.js:114-128 | The pill's severity is the larger of the two cards' severities. The pill waits exactly when neither card is alarming and there is no last reading. |
| Status.BandBoundaries | script.js:40-41 | The boundary values fall as the code draws them: 59/60, 64/65, 110/111 and 120/121 bpm, and 89/90, 93.5/94 %. |
| Status.SaturationMonotone | script.js:47-48 | A higher saturation never gets a more alarming label. |
| Status.HeartRateTowardsInnerBand | script.js:40-41 | Moving a heart rate towards the 65 to 110 band never gets a more alarming label. |
| Status.GlobalStatusSymmetric | script.js:116-121 | The pill does not depend on which card carries which label. |
| Status.SummaryPill | script.js:108-128 | The pill waits exactly when there is no last reading (`renderSummary(null)`). With a reading, it is as alarming as the worse of the two cards, and in range exactly when neither card is out of threshold or under observation. |
| Status.MissingVitalsShowInRange | script.js:108-124 | A last reading with neither heart rate nor saturation shows the in-range pill. |
| Text.Split | script.js:61 | `split` with one separator gives at least one piece, and no piece holds the separator. |
| Text.JoinSplit | script.js:61 | Joining the pieces of a split gives the text back. |
| Text.SplitJoin | script.js:199-200 | Splitting a join gives the pieces back when no piece holds the separator. |
| Text.TrimStart | script.js:61 | What `parseInt` skips is a prefix of spaces, and it stops at the first character that is not a space. |
| Text.DigitPrefix | script.js:61 | The digits `parseInt` reads are the longest run of decimal digits at the start. |
| Text.JoinLength | script.js:199-200 | A join holds every character of the pieces and one separator between each two pieces. It opens with the first piece, then a separator when there is a second piece. |
| Text.ParseIntIsNaN | script.js:61 | `parseInt` gives `NaN` exactly when no digit follows the leading white space and the optional sign. It gives a negative number only after a minus sign. |
| Text.ParseIntOfNonNumber | script.js:61 | A text that opens with neither white space, a sign nor a digit reads as `NaN`. |
| Text.ParseIntOfDigits | script.js:61 | `parseInt` of a run of decimal digits, with or without a leading '-', reads the number they write. |
| Text.ParseIntOfIntToString | script.js:55-57 | `parseInt` reads back the decimal text of any integer. |
| Text.IntToString | script.js:55-57 | The decimal text of an integer is at least one character long. It is all digits for a non-negative integer, and a minus sign before digits for a negative one. |
| Text.NatToString | script.js:55-57 | The decimal text of a number is all digits, and has no leading zero except for 0 itself. |
| Text.PadStart2 | script.js:55-56 | `padStart(2, '0')` leaves a text of two or more characters alone, and puts zeros in front of a shorter one until it has two. |
| Text.ParseIntOfPadded | script.js:55-56 | Any number below 100, padded to two digits, is two characters long and reads back as itself. |
| Calendar.LocalDate | script.js:63 | `new Date(y, m - 1, d)` keeps the month and day, sets midnight, and takes a year from 0 to 99 as 1900 to 1999. |
| Calendar.SetHours | script.js:69 | `setHours(h, m, 0, 0)` keeps the date and sets the hour and minute. |
| Calendar.DayNumber | script.js:63 | The day count of a year, month and day is the first day of that month, counted over all months since year 0 so that a month out of range carries into the year, plus the day minus one. |
| Calendar.TimeValue | script.js:63-69 | For an hour and minute in range, the time value lies within the milliseconds of the date's day. |
| Calendar.OrdinaryDatesAreValid | script.js:63 | Every calendar date of the years 1 to 200000 is a valid `Date` at any time of day. |
| Calendar.FarYearIsInvalid | script.js:63 | 1 January 300000 lies beyond TimeClip and is an invalid `Date`. |
| Calendar.DayNumberAnchors | script.js:63 | The day count agrees with ECMAScript's: 1 January 1970 is day 0, and the 2000 leap day comes before 1 March 2000. |
| Calendar.MarchYearLength | script.js:63 | Consecutive 1 March days are 365 or 366 days apart, 366 exactly when a leap day falls between them. |
| Calendar.TimeValueIsCalendarOrder | script.js:252-253 | For in-range dates, an earlier time value means an earlier year, month, day, hour or minute, read in that order. Equal time values mean equal dates. |
| Calendar.MonthIndexMonotone | script.js:165-166 | An in-range date that is no later than another is in the same month or an earlier one. |
| Dates.ParseDDMMYYYY | script.js:59-64 | A missing or empty text gives no date. A date it gives has a non-zero day, month and year, and is at midnight. |
| Dates.ParseDDMMYYYYOfParts | script.js:59-64 | Three pieces with no '/' in them, reading as non-zero numbers, give that date; a year from 1 to 99 means 1901 to 1999. |
| Dates.ParseDDMMYYYYRoundTrip | script.js:59-64 | `dd/mm/yyyy` written with a two-digit day and month reads back as the date written. |
| Dates.ParseDDMMYYYYZero | script.js:62 | A day, month or year that reads as `NaN` or as 0 rejects the date. |
| Dates.ParseDDMMYYYYTooFewParts | script.js:61-62 | A text with fewer than two '/' is not a date. |
| Dates.ParseRowDate | script.js:65-71 | A row has a date and time exactly when its date parses, and it keeps that date's year, month and day. |
| Dates.RowDateWithoutTime | script.js:68 | A missing or empty time means midnight. |
| Dates.RowDateOfTimeParts | script.js:68-69 | A time `hh:mm` sets the hour to what `parseInt` reads in `hh` and the minute to what it reads in `mm`, each 0 when it reads `NaN` or 0. |
| Dates.RowDateWithTime | script.js:68-69 | A time written `h:m` sets exactly that hour and minute. |
| Dates.RowDateWithPaddedTime | script.js:68-69 | A time written with two-digit hour and minute, such as `08:05`, sets exactly that hour and minute. |
| Dates.RowDateHalfReadable | script.js:68-69 | Each half of the time falls back to 0 on its own: `12:xx` is 12:00 and `xx:30` is 00:30. |
| Dates.RowDateWithoutMinutes | script.js:68-69 | A time with no ':' sets the hour to what `parseInt` reads in it (0 for `NaN`) and the minute to 0. |
| Dates.FarFutureDate | script.js:59-64 | `01/01/300000` reads as 1 January of the year 300000. |
| Dates.ToYMDPieces | script.js:53-58 | `toYMD` of an in-range date with a non-negative year is the year's digits, the two-digit month and the two-digit day, separated by '-'. |
| Dates.ToYMDRoundTrip | script.js:53-58 | `toYMD` of an in-range date splits at '-' into three pieces. The month and day pieces have two characters, and each piece reads back as the year, month and day. |
| Dates.DiffMinutes | script.js:72 | The result is the whole number of minutes within half a minute of the difference. A half minute rounds up. |
| Dates.DiffMinutesIsNearest | script.js:72 | Only one whole number is within half a minute (ties up), so the rounding is exact. |
| Dates.DiffMinutesOfDates | script.js:72 | Two dates a whole number of minutes apart are exactly that many minutes apart. |
| Dates.DiffMonths | script.js:73-76 | 0 when either date is missing. Otherwise, the number of calendar months from the first date's month to the second's, both counted. |
| Dates.DiffMonthsAtLeastOne | script.js:73-76 | For in-range dates, the first no later than the second, the coverage counts at least one month. |
| Sorting.SortBy | script.js:165 | Sorting by a numeric key leaves the array ordered by that key and holding the same elements. An ordered array is left unchanged. |
| Sorting.InsertDown | script.js:165 | One insertion step orders one more element. The rest of the array stays, the elements are the same, and nothing moves if that part was already ordered. |
| StateDetails.AgoOf | script.js:145-150 | Under 60 minutes the text shows minutes only. Otherwise it shows at least one hour and 0 to 59 minutes, adding up to the total. |
| StateDetails.CountWindows | script.js:155-164 | The loop counts the rows of the last hour whose saturation reads below 90, and the rows of the last half hour whose movement count reads 0. It collects every parsed date in row order. Rows whose date does not parse are skipped. An invalid date is collected but counted in neither window. |
| StateDetails.CoverageSpan | script.js:165-166 | The start and end are elements of the dates, and the earliest and latest of them. Both are missing exactly when there are no dates. |
| StateDetails.RenderStateDetails | script.js:132-173 | An empty list gives "no data". Otherwise the panel shows the time since the first row when its date parses (`NaN` when that date is invalid), the two counts, and the coverage span with its months. The months are at least 1 when every date is in range. |
| StateDetails.CountsWithinWindows | script.js:153-164 | Each count is at most the readings of its window. The half-hour window lies inside the hour window. |
| StateDetails.UnparsableRowCountsNothing | script.js:159-160 | A row whose date does not parse changes neither count nor the dates, wherever it stands. |
| StateDetails.CountsShrinkOverTime | script.js:153-154 | A later clock never gives larger counts. |
| StateDetails.InvalidDateCountsNothing | script.js:159-163 | A reading whose date a `Date` cannot hold counts in neither window, whatever its readings. |
| StateDetails.FarFutureCountsNothing | script.js:159-163 | A reading dated `01/01/300000` with `null` saturation and movements counts in neither window. |
| StateDetails.NullCountsAsZero | script.js:162-163 | A `null` saturation counts as low. A `null` movement count counts as no movement. A missing field counts as neither. |
| Sequencer.InRange | script.js:248-255 | A row in range has a date that parses. A bound that is not a date keeps no row. When a bound is set, a row in range has a valid date. |
| Sequencer.RowTime | script.js:257 | A row's sort key is its time value, and 0 when its date does not parse. |
| Sequencer.LatestIsFirst | script.js:257-259 | In a latest-first list, no row is later than the first, so the summary judges the latest reading. |
| Sequencer.LatestFirstIsSorted | script.js:257 | Latest first is exactly ascending order of the negated time value. |
| Sequencer.FarFutureDropped | script.js:249-254 | With a bound set, a row dated `01/01/300000` is dropped. |
| Sequencer.KeepInRange | script.js:248-255 | The filter keeps no more rows than it gets. Every row it keeps is one of the rows and lies in range. |
| Sequencer.KeepInRangeCounts | script.js:248-255 | The filter keeps every copy of a row in range and no copy of a row out of range. |
| Sequencer.KeepAllInRange | script.js:248-255 | Rows all in range pass the filter unchanged. |
| Sequencer.KeepInRangeIdempotent | script.js:248-255 | Filtering twice is filtering once. |
| Sequencer.BoundsInclusive | script.js:252-253 | A row dated exactly on a bound is kept. The bounds are time values on the rows' scale. The picker's `new Date('YYYY-MM-DD')` is UTC midnight, which is not modelled, so west of UTC a row dated on the `to` day is dropped in a browser. |
| Sequencer.UnboundedKeepsParsable | script.js:249-250 | Without bounds, the filter drops exactly the rows whose date does not parse. |
| Sequencer.InvalidBoundKeepsNothing | script.js:252-253 | A bound whose `Date` is invalid keeps nothing. |
| Sequencer.SequenceLocal | script.js:248-257 | The result is a rearrangement of exactly the rows in range, each with a date and time, latest first. Rows already in range and in that order come back unchanged. |
| Sequencer.FetchList | script.js:231-271 | A failed request shows an empty list, the waiting pill and "no data". A successful one shows the filtered rows latest first, the first of them the latest. The pill is judged on that row and the panel counts over all of them. |
| Export.CsvFields | script.js:199 | The five cells, in order: the date and the time, each as written and "" exactly when missing or empty, then heart rate, saturation and movements, each as written and "" only when `null` or missing. |
| Export.CsvLine | script.js:199 | A line has the cells' characters plus four commas. It opens with the date cell and a comma. |
| Export.ExportCsv | script.js:196-200 | There is no text (the "no data" alert) exactly when there are no rows. |
| Export.HeaderLine | script.js:198-200 | The header line is `FECHA,HORA,FC,SpO2,PATADAS`. |
| Export.CsvLineRoundTrip | script.js:199 | When no cell holds a comma, a line splits back into its reading's five cells. |
| Export.ExportLines | script.js:200 | When no cell holds a line break, the text is the header line, then one line per reading in the rows' order. |
| Export.ExportRoundTrip | script.js:199-200 | With neither commas nor line breaks in the cells, line `i + 1` reads back as the cells of reading `i`. |
| Export.CommaShiftsColumns | script.js:199 | The cells are not quoted: a date holding a comma makes the line read back as six cells. |

## Left out

- The page itself is not modelled: the DOM, the connection indicator (`renderConnection`), the card and panel texts (`fmtMonthYear` and the month names), and the table (`renderTable`, and cutting the rows to 50).
- `fetch`, `res.json()` and the `ok` flag of the answer are not modelled. `Sequencer.FetchList` receives the answer's `rows` (`json.rows || []`), or nothing when the request failed in any way.
- The remote mode of `fetchList` is left out. It builds a URL with `key`, `deviceId`, `patientId`, `from` and `to`, and uses the rows as the server sends them. The data source is fixed to a local `.json` file, so only the local mode runs.
- The start-up code is left out, being event wiring: query parameters, the date pickers' defaults and their `min` coherence, the Apply and Export buttons, and the refresh every 60 seconds.
- `new Date(fVal)` on the picker's `YYYY-MM-DD` text is not modelled. That text is read as UTC midnight, while row dates are local. Time zones are not modelled at all: the bounds are given as time values on the rows' scale.
- `Calendar.DateTime`: the components are kept as written. Reading back `getFullYear`, `getMonth` and `getDate` of a date whose components were out of range is not modelled, because the browser normalises them first. `Dates.DiffMonths` and `Dates.ToYMD` therefore agree with the browser only for in-range dates, which is what the lemmas about them require.
- `Text.ParseInt`: it reads unbounded integers. The loss of precision above 2^53 in a JavaScript number is not modelled.
- `Readings.JsValue`: how a text turns into a number (`Number("12")`, `isNaN("a")`) is not modelled. A value carries both its text and its numeric reading.
- `Dates.DiffMinutes`: floating-point division is not modelled. The rounding is exact on integers.
- `Sorting.SortBy`: the order of elements with equal keys is not stated. JavaScript's sort is stable, and this insertion sort is too, but the contract does not say so.
- Downloading the CSV (`Blob`, object URL, link click) is left out. `Export.ExportCsv` gives the text that would be downloaded.
- `Readings.Reading`: a row that is `null`, or whose `fecha` is a truthy value other than a text (a number, say), is not modelled. Every element is a reading with a text date. In a browser, `r.fecha` on a `null` row (script.js:249) throws, and so does `str.split` on a number (script.js:61). Either throw lands in the `catch` of `fetchList`, which shows an empty list, the waiting pill and "no data". That is the outcome `Sequencer.FetchList` gives for a failed request.
- `Calendar.TimeValue`: the time value of an invalid date is `NaN` in a browser, while the model keeps the unclipped number. The windows, the filter and the time since the latest reading treat invalid dates as a browser does. The sorts do not: with a `NaN` comparator the order is implementation-defined, so the place of invalid dates in the list and in the coverage span, and the months then shown, are not modelled.
