/**
 * The editable weekly schedule of one participant: pixel hit-testing and the
 * press / drag / release gesture that selects or deselects a vertical run of
 * hours on one day.
 */
module Editor {
  import opened Wrappers
  import opened Grid

  // Canvas layout in pixels (fixed when the canvas is built).
  const CellWidth: int := 100
  const CellHeight: int := 40
  const HeaderHeight: int := 30
  const TimeWidth: int := 60

  /** Left edge and top edge of the rectangle drawn for a cell. */
  function CellLeft(c: Cell): int { TimeWidth + c.day * CellWidth }
  function CellTop(c: Cell): int { HeaderHeight + (c.hour - StartHour) * CellHeight }

  predicate InCellRect(x: int, y: int, c: Cell) {
    CellLeft(c) <= x < CellLeft(c) + CellWidth && CellTop(c) <= y < CellTop(c) + CellHeight
  }

  /** The pixel area covered by the grid's cells (right of the time column, below the header). */
  predicate InGridArea(x: int, y: int) {
    TimeWidth <= x < TimeWidth + |Days| * CellWidth &&
    HeaderHeight <= y < HeaderHeight + HoursPerDay * CellHeight
  }

  /**
   * The cell under pixel (x, y), or None. Both divisions have a non-negative
   * dividend here, so Dafny's `/` agrees with Python's floor division `//`.
   */
  function CellAt(x: int, y: int): (r: Option<Cell>)
    ensures r.Some? ==> InGrid(r.value)
    ensures x < TimeWidth || y < HeaderHeight ==> r.None?
  {
    if x < TimeWidth || y < HeaderHeight then None
    else
      var day := (x - TimeWidth) / CellWidth;
      var hour := (y - HeaderHeight) / CellHeight + StartHour;
      if 0 <= day < |Days| && StartHour <= hour < EndHour then Some(Cell(day, hour)) else None
  }

  /** Floor division by a column width or a row height, as the bounds that define it. */
  lemma ColumnOf(a: int, q: int)
    requires a >= 0
    ensures a / CellWidth == q <==> q * CellWidth <= a < q * CellWidth + CellWidth
  {
  }

  lemma RowOf(a: int, q: int)
    requires a >= 0
    ensures a / CellHeight == q <==> q * CellHeight <= a < q * CellHeight + CellHeight
  {
  }

  /** A pixel hits a cell exactly when it lies in the rectangle drawn for that cell. */
  lemma CellAtIsCellRectangle(x: int, y: int, c: Cell)
    ensures CellAt(x, y) == Some(c) <==> InGrid(c) && InCellRect(x, y, c)
  {
    if x >= TimeWidth && y >= HeaderHeight {
      ColumnOf(x - TimeWidth, c.day);
      RowOf(y - HeaderHeight, c.hour - StartHour);
    }
  }

  /** Every pixel of the grid area hits some cell, and no pixel outside it does. */
  lemma CellAtCoversGridArea(x: int, y: int)
    ensures CellAt(x, y).Some? <==> InGridArea(x, y)
  {
    if x >= TimeWidth && y >= HeaderHeight {
      var day := (x - TimeWidth) / CellWidth;
      var hour := (y - HeaderHeight) / CellHeight;
      ColumnOf(x - TimeWidth, day);
      RowOf(y - HeaderHeight, hour);
    }
  }

  datatype DragMode = Select | Deselect

  /** The cells a release applies to: hours between the two ends, inclusive, on `day`. */
  predicate InRun(c: Cell, day: int, hourA: int, hourB: int) {
    c.day == day && (if hourA <= hourB then hourA <= c.hour <= hourB else hourB <= c.hour <= hourA)
  }

  class ScheduleCanvas {
    const editable: bool
    /** The selected cells (the source keeps a dict whose values are always True). */
    var schedule: set<Cell>
    var dragStart: Option<Cell>
    var dragCurrent: Option<Cell>
    var dragMode: Option<DragMode>

    /** Drag fields are all set or all unset; a drag stays on the day it started on. */
    ghost predicate Valid()
      reads this
    {
      (dragStart.Some? <==> dragCurrent.Some?) &&
      (dragStart.Some? <==> dragMode.Some?) &&
      (dragStart.Some? ==>
        InGrid(dragStart.value) && InGrid(dragCurrent.value) &&
        dragCurrent.value.day == dragStart.value.day)
    }

    predicate Idle()
      reads this
    {
      dragStart.None? && dragCurrent.None? && dragMode.None?
    }

    constructor (editable: bool)
      ensures Valid() && Idle()
      ensures this.editable == editable && schedule == {}
    {
      this.editable := editable;
      schedule := {};
      dragStart, dragCurrent, dragMode := None, None, None;
    }

    /** Press: start a drag on the pressed cell; deselect if it is already selected, else select. */
    method OnMouseDown(x: int, y: int)
      requires Valid()
      modifies this
      ensures Valid()
      ensures schedule == old(schedule)
      ensures editable && CellAt(x, y).Some? ==>
        dragStart == CellAt(x, y) && dragCurrent == CellAt(x, y) &&
        dragMode == Some(if CellAt(x, y).value in schedule then Deselect else Select)
      ensures !editable || CellAt(x, y).None? ==> unchanged(this)
    {
      if !editable { return; }
      var cell := CellAt(x, y);
      if cell.Some? {
        dragStart := cell;
        dragCurrent := cell;
        dragMode := Some(if cell.value in schedule then Deselect else Select);
      }
    }

    /** Drag: follow the pointer, but only to cells on the day the drag started on. */
    method OnMouseDrag(x: int, y: int)
      requires Valid()
      modifies this
      ensures Valid()
      ensures schedule == old(schedule) && dragStart == old(dragStart) && dragMode == old(dragMode)
      ensures
        if editable && dragStart.Some? && CellAt(x, y).Some? && CellAt(x, y).value.day == dragStart.value.day
        then dragCurrent == CellAt(x, y)
        else dragCurrent == old(dragCurrent)
    {
      if !editable || dragStart.None? { return; }
      var cell := CellAt(x, y);
      if cell.Some? && cell.value.day == dragStart.value.day {
        dragCurrent := cell;
      }
    }

    /**
     * Release: apply the drag's mode to every hour between the two ends on the
     * start day, then forget the drag. Any mode other than Select removes.
     */
    method OnMouseUp()
      modifies this
      ensures var active := old(editable && dragStart.Some?);
        (active ==> Idle() && Valid()) && (!active ==> unchanged(this))
      ensures old(editable && dragStart.Some? && dragCurrent.Some?) ==>
        var day, hourA, hourB := old(dragStart.value.day), old(dragStart.value.hour), old(dragCurrent.value.hour);
        (forall h :: InRun(Cell(day, h), day, hourA, hourB) ==>
          (Cell(day, h) in schedule <==> old(dragMode) == Some(Select))) &&
        (forall c :: !InRun(c, day, hourA, hourB) ==> (c in schedule <==> c in old(schedule)))
      ensures old(dragCurrent.None?) ==> schedule == old(schedule)
    {
      if !editable || dragStart.None? { return; }
      if dragCurrent.Some? {
        var day := dragStart.value.day;
        var lo := if dragStart.value.hour <= dragCurrent.value.hour then dragStart.value.hour else dragCurrent.value.hour;
        var hi := if dragStart.value.hour <= dragCurrent.value.hour then dragCurrent.value.hour else dragStart.value.hour;
        var hour := lo;
        while hour <= hi
          invariant lo <= hour <= hi + 1
          invariant unchanged(this`dragStart) && unchanged(this`dragCurrent) && unchanged(this`dragMode)
          invariant forall h :: lo <= h < hour ==> (Cell(day, h) in schedule <==> dragMode == Some(Select))
          invariant forall c: Cell :: !(c.day == day && lo <= c.hour < hour) ==> (c in schedule <==> c in old(schedule))
        {
          if dragMode == Some(Select) {
            schedule := schedule + {Cell(day, hour)};
          } else {
            schedule := schedule - {Cell(day, hour)};
          }
          hour := hour + 1;
        }
      }
      dragStart, dragCurrent, dragMode := None, None, None;
    }

    method ClearSchedule()
      modifies this
      ensures schedule == {}
      ensures dragStart == old(dragStart) && dragCurrent == old(dragCurrent) && dragMode == old(dragMode)
    {
      schedule := {};
    }

    /** The selected cells as a strictly ascending list. */
    function GetScheduleData(): (r: seq<Cell>)
      reads this
      ensures StrictlyAscending(r)
      ensures forall c :: c in r <==> c in schedule
    {
      SortedCells(schedule)
    }

    /** Replace the selection by the cells of `data`; repeats collapse. */
    method SetScheduleData(data: seq<Cell>)
      modifies this
      ensures forall c :: c in schedule <==> c in data
      ensures StrictlyAscending(GetScheduleData()) && forall c :: c in GetScheduleData() <==> c in data
      ensures dragStart == old(dragStart) && dragCurrent == old(dragCurrent) && dragMode == old(dragMode)
    {
      schedule := set c | c in data;
    }
  }

  /** A press and release on the same pixel toggles exactly the cell under it. */
  method Click(canvas: ScheduleCanvas, x: int, y: int)
    requires canvas.Valid() && canvas.Idle() && canvas.editable && CellAt(x, y).Some?
    modifies canvas
    ensures canvas.Valid() && canvas.Idle()
    ensures var c := CellAt(x, y).value;
      canvas.schedule == if c in old(canvas.schedule) then old(canvas.schedule) - {c} else old(canvas.schedule) + {c}
  {
    var c := CellAt(x, y).value;
    canvas.OnMouseDown(x, y);
    canvas.OnMouseUp();
    assert forall d :: InRun(d, c.day, c.hour, c.hour) <==> d == c;
  }
}
