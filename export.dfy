/** `exportCSV`: the rows currently shown, written as CSV text in the
    browser, one header line and one line per reading. */
module Export {
  import opened Wrappers
  import opened Text
  import opened Readings

  /** The column titles, in order. */
  const Header: seq<string> := ["FECHA", "HORA", "FC", "SpO2", "PATADAS"]

  /** The five cells of a reading's line: date and time as written (""
      when missing or empty), then heart rate, saturation and movements as
      written ("" only when `null` or missing, so a 0 stays "0"). */
  function CsvFields(r: Reading): (cells: seq<string>)
    ensures |cells| == |Header|
    ensures r.fecha.Some? ==> cells[0] == r.fecha.value
    ensures r.hora.Some? ==> cells[1] == r.hora.value
    ensures cells[0] == "" <==> r.fecha.None? || r.fecha == Some("")
    ensures cells[1] == "" <==> r.hora.None? || r.hora == Some("")
    ensures r.fc.Value? ==> cells[2] == r.fc.text
    ensures r.spo2.Value? ==> cells[3] == r.spo2.text
    ensures r.patadas.Value? ==> cells[4] == r.patadas.text
    ensures !r.fc.Value? ==> cells[2] == ""
    ensures !r.spo2.Value? ==> cells[3] == ""
    ensures !r.patadas.Value? ==> cells[4] == ""
  {
    [OrEmpty(r.fecha), OrEmpty(r.hora), TextOrEmpty(r.fc), TextOrEmpty(r.spo2), TextOrEmpty(r.patadas)]
  }

  /** A reading's line: its cells joined by ',', with no quoting. It opens
      with the date cell and a comma, and adds four commas to the cells'
      own characters. */
  function CsvLine(r: Reading): (line: string)
    ensures |line| == TotalLength(CsvFields(r)) + 4
    ensures line[..|OrEmpty(r.fecha)|] == OrEmpty(r.fecha) && line[|OrEmpty(r.fecha)|] == ','
  {
    JoinLength(CsvFields(r), ',');
    Join(CsvFields(r), ',')
  }

  function CsvLines(rows: seq<Reading>): seq<string>
  {
    seq(|rows|, i requires 0 <= i < |rows| => CsvLine(rows[i]))
  }

  /** The exported text: nothing (the "no data" alert) when there are no
      rows, otherwise the header line and the rows' lines joined by '\n',
      with no final line break. */
  function ExportCsv(rows: Option<seq<Reading>>): (csv: Option<string>)
    ensures csv.None? <==> rows.None? || rows.value == []
  {
    if rows.None? || rows.value == [] then None
    else Some(Join([Join(Header, ',')] + CsvLines(rows.value), '\n'))
  }

  // ---------------------------------------------------------------------
  // Properties
  // ---------------------------------------------------------------------

  /** No cell holds the character `c`. */
  predicate CellsAvoid(r: Reading, c: char)
  {
    forall k :: 0 <= k < |CsvFields(r)| ==> c !in CsvFields(r)[k]
  }

  lemma HeaderLine()
    ensures Join(Header, ',') == "FECHA,HORA,FC,SpO2,PATADAS"
  {
    var h := Header;
    assert h[1..] == ["HORA", "FC", "SpO2", "PATADAS"];
    assert h[1..][1..] == ["FC", "SpO2", "PATADAS"];
    JoinThree("FC", "SpO2", "PATADAS", ',');
  }

  /** When no cell holds a comma, a line splits at ',' back into exactly
      the five cells of its reading, in column order. */
  lemma CsvLineRoundTrip(r: Reading)
    requires CellsAvoid(r, ',')
    ensures Split(CsvLine(r), ',') == CsvFields(r)
  {
    SplitJoin(CsvFields(r), ',');
  }

  /** When no cell holds a line break, the text splits at '\n' into the
      header line followed by one line per reading, in the rows' order. */
  lemma ExportLines(rows: seq<Reading>)
    requires rows != []
    requires forall i :: 0 <= i < |rows| ==> CellsAvoid(rows[i], '\n')
    ensures Split(ExportCsv(Some(rows)).value, '\n') == ["FECHA,HORA,FC,SpO2,PATADAS"] + CsvLines(rows)
    ensures |Split(ExportCsv(Some(rows)).value, '\n')| == |rows| + 1
  {
    HeaderLine();
    LinesAvoidBreak(rows);
    var lines := [Join(Header, ',')] + CsvLines(rows);
    assert forall i :: 0 <= i < |lines| ==> '\n' !in lines[i] by {
      assert forall i :: 1 <= i < |lines| ==> lines[i] == CsvLine(rows[i - 1]);
    }
    SplitJoin(lines, '\n');
  }

  /** Neither the header nor any reading's line holds a line break. */
  lemma LinesAvoidBreak(rows: seq<Reading>)
    requires forall i :: 0 <= i < |rows| ==> CellsAvoid(rows[i], '\n')
    ensures '\n' !in Join(Header, ',')
    ensures forall i :: 0 <= i < |rows| ==> '\n' !in CsvLine(rows[i])
  {
    assert forall k :: 0 <= k < |Header| ==> '\n' !in Header[k];
    JoinKeepsOut(Header, ',', '\n');
    forall i | 0 <= i < |rows|
      ensures '\n' !in CsvLine(rows[i])
    {
      JoinKeepsOut(CsvFields(rows[i]), ',', '\n');
    }
  }

  /** The two together: with neither commas nor line breaks in the cells,
      line `i + 1` of the text reads back as the cells of reading `i`. */
  lemma ExportRoundTrip(rows: seq<Reading>, i: int)
    requires 0 <= i < |rows|
    requires forall j :: 0 <= j < |rows| ==> CellsAvoid(rows[j], '\n') && CellsAvoid(rows[j], ',')
    ensures var lines := Split(ExportCsv(Some(rows)).value, '\n');
      |lines| == |rows| + 1 && Split(lines[i + 1], ',') == CsvFields(rows[i])
  {
    ExportLines(rows);
    CsvLineRoundTrip(rows[i]);
  }

  /** The text is not quoted: a comma inside a date shifts every later
      column, so the line reads back as six cells instead of five. */
  lemma CommaShiftsColumns()
    ensures var r := Reading(Some("1,2"), None, Undefined, Undefined, Undefined);
      |Split(CsvLine(r), ',')| == 6
  {
    var r := Reading(Some("1,2"), None, Undefined, Undefined, Undefined);
    var cells := CsvFields(r);
    assert cells == ["1,2", "", "", "", ""];
    assert cells[1..] == ["", "", "", ""];
    assert cells[1..][1..] == ["", "", ""];
    JoinThree("", "", "", ',');
    var tail := Join(cells[1..], ',');
    assert tail == ",,,";
    assert CsvLine(r) == "1" + [','] + ("2" + [','] + tail);
    SplitAtFirst("1", ',', "2" + [','] + tail);
    SplitAtFirst("2", ',', tail);
    assert tail == "" + [','] + ("" + [','] + ("" + [','] + ""));
    SplitAtFirst("", ',', "" + [','] + ("" + [','] + ""));
    SplitAtFirst("", ',', "" + [','] + "");
    SplitAtFirst("", ',', "");
    SplitNoSeparator("", ',');
  }
}
