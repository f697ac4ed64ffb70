/**
 * The two tab-separated exports as header plus records: one participant's
 * schedule (one row per selected cell) and the analysis (one row per grid
 * cell). Writing the text and the percentage column are not modelled.
 */
module Export {
  import opened Wrappers
  import opened Grid
  import opened Overlap
  import opened Loading

  datatype ExportError = MissingName | EmptySchedule | NoSchedulesLoaded | WriteFailed

  datatype Table<R> = Table(header: seq<string>, rows: seq<R>)

  datatype ScheduleRow = ScheduleRow(username: string, day: int, dayName: string, hour: int)

  datatype AnalysisRow = AnalysisRow(day: int, dayName: string, hour: int, availableCount: nat, totalParticipants: nat)

  const ScheduleHeader: seq<string> := ["username", "day", "day_name", "hour"]
  const AnalysisHeader: seq<string> := ["day", "day_name", "hour", "available_count", "total_participants", "percentage"]

  /** The characters Python's `str.isspace` accepts, which `str.strip()` removes from both ends. */
  predicate IsSpace(ch: char) {
    var n := ch as int;
    (0x09 <= n <= 0x0D) || (0x1C <= n <= 0x20) || n == 0x85 || n == 0xA0 || n == 0x1680 ||
    (0x2000 <= n <= 0x200A) || n == 0x2028 || n == 0x2029 || n == 0x202F || n == 0x205F || n == 0x3000
  }

  /** The length of the longest run of whitespace at the start. */
  function LeadingSpaces(s: string): (k: nat)
    ensures k <= |s|
    ensures forall i :: 0 <= i < k ==> IsSpace(s[i])
    ensures k < |s| ==> !IsSpace(s[k])
    decreases |s|
  {
    if s != [] && IsSpace(s[0]) then
      assert forall i :: 0 < i < |s| ==> s[1..][i - 1] == s[i];
      1 + LeadingSpaces(s[1..])
    else 0
  }

  /** Where the longest run of whitespace at the end begins. */
  function TrailingStart(s: string): (k: nat)
    ensures k <= |s|
    ensures forall i :: k <= i < |s| ==> IsSpace(s[i])
    ensures k > 0 ==> !IsSpace(s[k - 1])
    decreases |s|
  {
    if s != [] && IsSpace(s[|s| - 1]) then TrailingStart(s[..|s| - 1]) else |s|
  }

  /** `str.strip()`: the name typed into the entry without surrounding whitespace. */
  function Strip(s: string): (r: string)
    ensures |r| <= |s|
    ensures r != [] ==> !IsSpace(r[0]) && !IsSpace(r[|r| - 1])
  {
    var i := LeadingSpaces(s);
    var j := TrailingStart(s);
    if j <= i then [] else s[i..j]
  }

  /** Strip keeps a middle slice and removes only whitespace on either side of it. */
  lemma StripIsMiddleSlice(s: string)
    ensures exists i, j :: (0 <= i <= j <= |s| && Strip(s) == s[i..j] &&
      (forall k :: 0 <= k < i ==> IsSpace(s[k])) && forall k :: j <= k < |s| ==> IsSpace(s[k]))
  {
    var i, j := LeadingSpaces(s), TrailingStart(s);
    if j <= i {
      assert Strip(s) == s[i..i];
    } else {
      assert Strip(s) == s[i..j];
    }
  }

  /** The stripped name is empty exactly when the entry holds only whitespace. */
  lemma StripEmptyIffBlank(s: string)
    ensures Strip(s) == [] <==> forall i :: 0 <= i < |s| ==> IsSpace(s[i])
  {
    var i, j := LeadingSpaces(s), TrailingStart(s);
    if forall k :: 0 <= k < |s| ==> IsSpace(s[k]) {
      assert i == |s|;
    }
  }

  function ScheduleRowFor(username: string, c: Cell): ScheduleRow
    requires DayName(c.day).Some?
  {
    ScheduleRow(username, c.day, DayName(c.day).value, c.hour)
  }

  predicate AllDaysNamed(cells: seq<Cell>) {
    forall i :: 0 <= i < |cells| ==> DayName(cells[i].day).Some?
  }

  /**
   * export_schedule after the file has been chosen: refuse an empty name or an
   * empty schedule, else one row per cell in the given order. A day the day
   * list cannot index raises while writing, and the export fails.
   */
  method ExportSchedule(nameEntry: string, scheduleData: seq<Cell>) returns (r: Result<Table<ScheduleRow>, ExportError>)
    ensures Strip(nameEntry) == [] ==> r == Failure(MissingName)
    ensures Strip(nameEntry) != [] && scheduleData == [] ==> r == Failure(EmptySchedule)
    ensures Strip(nameEntry) != [] && scheduleData != [] && !AllDaysNamed(scheduleData) ==> r == Failure(WriteFailed)
    ensures r.Success? <==> Strip(nameEntry) != [] && scheduleData != [] && AllDaysNamed(scheduleData)
    ensures r.Success? ==> (r.value.header == ScheduleHeader && |r.value.rows| == |scheduleData| &&
      forall i :: 0 <= i < |scheduleData| ==> r.value.rows[i] == ScheduleRowFor(Strip(nameEntry), scheduleData[i]))
  {
    var username := Strip(nameEntry);
    if username == [] { return Failure(MissingName); }
    if scheduleData == [] { return Failure(EmptySchedule); }
    var rows: seq<ScheduleRow> := [];
    var i := 0;
    while i < |scheduleData|
      invariant 0 <= i <= |scheduleData|
      invariant forall k :: 0 <= k < i ==> DayName(scheduleData[k].day).Some?
      invariant |rows| == i
      invariant forall k :: 0 <= k < i ==> rows[k] == ScheduleRowFor(username, scheduleData[k])
    {
      var cell := scheduleData[i];
      var dayName := DayName(cell.day);
      if dayName.None? { return Failure(WriteFailed); }
      rows := rows + [ScheduleRow(username, cell.day, dayName.value, cell.hour)];
      i := i + 1;
    }
    r := Success(Table(ScheduleHeader, rows));
  }

  /** What reading a written schedule row back gives: the same name and the same integers. */
  function ReadBack(row: ScheduleRow): ImportRow {
    ImportRow(Some(row.username), Some(row.day), Some(row.hour))
  }

  /** A written schedule table, read back as a file called `baseName`. */
  function Reimported(baseName: string, t: Table<ScheduleRow>): ImportFile {
    ImportFile(baseName, "username" in t.header, seq(|t.rows|, i requires 0 <= i < |t.rows| => ReadBack(t.rows[i])))
  }

  lemma {:induction false} SameNameEveryRow(f: ImportFile, rows: seq<ImportRow>, name: string)
    requires rows != [] && forall i :: 0 <= i < |rows| ==> NameField(f, rows[i]) == Some(name)
    ensures FirstName(f, rows) == Some(name)
    decreases |rows|
  {
    if |rows| > 1 {
      SameNameEveryRow(f, rows[..|rows| - 1], name);
    } else {
      assert rows[..0] == [];
    }
  }

  /** Exporting a schedule and loading the file again gives back the participant: same name, same cells, same order. */
  lemma ExportThenImport(baseName: string, nameEntry: string, scheduleData: seq<Cell>, t: Table<ScheduleRow>)
    requires Strip(nameEntry) != [] && scheduleData != [] && AllDaysNamed(scheduleData)
    requires t.header == ScheduleHeader && |t.rows| == |scheduleData|
    requires forall i :: 0 <= i < |scheduleData| ==> t.rows[i] == ScheduleRowFor(Strip(nameEntry), scheduleData[i])
    ensures FileParticipant(Reimported(baseName, t)) == Some(Participant(Strip(nameEntry), scheduleData))
  {
    var name := Strip(nameEntry);
    var f := Reimported(baseName, t);
    ReimportedRows(baseName, name, scheduleData, t);
    SameNameEveryRow(f, f.rows, name);
    var cells := CellsOf(f.rows);
    assert cells == scheduleData by {
      assert forall i :: 0 <= i < |cells| ==> cells[i] == scheduleData[i];
    }
  }

  /** Each row read back carries the name and the cell it was written for. */
  lemma ReimportedRows(baseName: string, name: string, scheduleData: seq<Cell>, t: Table<ScheduleRow>)
    requires AllDaysNamed(scheduleData)
    requires t.header == ScheduleHeader && |t.rows| == |scheduleData|
    requires forall i :: 0 <= i < |scheduleData| ==> t.rows[i] == ScheduleRowFor(name, scheduleData[i])
    ensures Reimported(baseName, t).hasUsernameColumn && AllRowsParse(Reimported(baseName, t))
    ensures |Reimported(baseName, t).rows| == |scheduleData|
    ensures forall i :: 0 <= i < |scheduleData| ==>
      Reimported(baseName, t).rows[i] == ImportRow(Some(name), Some(scheduleData[i].day), Some(scheduleData[i].hour))
  {
    assert ScheduleHeader[0] == "username";
  }

  /** Position of a grid cell among the analysis rows: day-major, then hour. */
  function CellIndex(c: Cell): int {
    c.day * HoursPerDay + (c.hour - StartHour)
  }

  /** The cell the analysis row at position i describes. */
  function CellAtIndex(i: int): (c: Cell)
    requires 0 <= i < |Days| * HoursPerDay
    ensures InGrid(c) && CellIndex(c) == i
  {
    Cell(i / HoursPerDay, StartHour + i % HoursPerDay)
  }

  /** The analysis row for position i: that cell's occurrence count out of the number of participants. */
  function AnalysisRowAt(reg: seq<Participant>, i: int): AnalysisRow
    requires 0 <= i < |Days| * HoursPerDay
  {
    var c := CellAtIndex(i);
    AnalysisRow(c.day, Days[c.day], c.hour, Occurrences(reg, c), |reg|)
  }

  /** export_analysis after the file has been chosen: refuse an empty registry, else all 77 cells. */
  method ExportAnalysis(reg: seq<Participant>) returns (r: Result<Table<AnalysisRow>, ExportError>)
    ensures r.Failure? <==> reg == []
    ensures r.Failure? ==> r.error == NoSchedulesLoaded
    ensures r.Success? ==> (r.value.header == AnalysisHeader && |r.value.rows| == |Days| * HoursPerDay &&
      forall i :: 0 <= i < |r.value.rows| ==> r.value.rows[i] == AnalysisRowAt(reg, i))
  {
    if reg == [] { return Failure(NoSchedulesLoaded); }
    var overlapCounts := ComputeTally(reg);
    var total := |reg|;
    var rows: seq<AnalysisRow> := [];
    var day := 0;
    while day < 7
      invariant 0 <= day <= 7
      invariant |rows| == day * HoursPerDay
      invariant forall i :: 0 <= i < |rows| ==> rows[i] == AnalysisRowAt(reg, i)
    {
      var hour := StartHour;
      while hour < EndHour
        invariant StartHour <= hour <= EndHour
        invariant |rows| == day * HoursPerDay + (hour - StartHour)
        invariant forall i :: 0 <= i < |rows| ==> rows[i] == AnalysisRowAt(reg, i)
      {
        var cell := Cell(day, hour);
        TallyCounts(reg, cell);
        var count := if cell in overlapCounts then overlapCounts[cell] else 0;
        assert CellAtIndex(|rows|) == cell by {
          IndexOfCell(cell, |rows|);
        }
        rows := rows + [AnalysisRow(day, Days[day], hour, count, total)];
        hour := hour + 1;
      }
      day := day + 1;
    }
    r := Success(Table(AnalysisHeader, rows));
  }

  lemma IndexOfCell(c: Cell, i: int)
    requires InGrid(c) && i == CellIndex(c)
    ensures 0 <= i < |Days| * HoursPerDay && CellAtIndex(i) == c
  {
  }

  /** Every grid cell has exactly one analysis row, and the rows run in ascending cell order. */
  lemma AnalysisRowsCoverGrid(reg: seq<Participant>, c: Cell, i: int, j: int)
    requires InGrid(c)
    requires 0 <= i < j < |Days| * HoursPerDay
    ensures 0 <= CellIndex(c) < |Days| * HoursPerDay
    ensures AnalysisRowAt(reg, CellIndex(c)).day == c.day && AnalysisRowAt(reg, CellIndex(c)).hour == c.hour
    ensures CellLt(CellAtIndex(i), CellAtIndex(j))
  {
    IndexOfCell(c, CellIndex(c));
  }
}
