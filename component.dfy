/**
 * PlanningCalendarComponent (planning-calendar.component.ts): the header
 * sequence, the row -> month -> cell grid and the edit / resize state,
 * updated in place by the component's handlers.
 */
module Component {
  import opened Wrappers
  import opened Types
  import opened Months
  import opened Text
  import opened Grid
  import opened GridProperties
  import opened Serialisation

  class PlanningCalendarComponent {
    var config: Option<Config>
    var monthHeaders: seq<MonthHeader>
    var calendarData: CalendarGrid
    var activeCell: Option<CellRef>
    var editValue: string
    var isResizing: bool
    var resizeInfo: Option<ResizeInfo>

    /** The headers are those generated for the current configuration's start month. */
    ghost predicate HeadersReady()
      reads this
    {
      config.Some? && 1 <= config.value.startMonth <= 12 && IsHeaderRing(monthHeaders, config.value.startMonth)
    }

    ghost predicate Valid()
      reads this
    {
      && ((config.None? && monthHeaders == [] && calendarData == map[]) || HeadersReady())
      && GridConsistent(calendarData)
      && (isResizing <==> resizeInfo.Some?)
    }

    constructor ()
      ensures Valid()
      ensures config == None && monthHeaders == [] && calendarData == map[]
      ensures activeCell == None && editValue == "" && !isResizing && resizeInfo == None
    {
      config := None;
      monthHeaders := [];
      calendarData := map[];
      activeCell := None;
      editValue := "";
      isResizing := false;
      resizeInfo := None;
    }

    /**
     * A new configuration: regenerate the headers, then rebuild the grid.
     * The edit and resize state are left as they were.
     */
    method NgOnChanges(c: Config)
      requires Valid() && 1 <= c.startMonth <= 12
      modifies this`config, this`monthHeaders, this`calendarData
      ensures Valid()
      ensures config == Some(c) && IsHeaderRing(monthHeaders, c.startMonth)
      ensures calendarData == LoadEntries(EmptyGrid(c.rowHeaders, monthHeaders), monthHeaders, c.initialData)
    {
      config := Some(c);
      GenerateMonthHeaders();
      ProcessInitialData();
    }

    /** Twelve headers from the start month, wrapping from December to January. */
    method GenerateMonthHeaders()
      requires config.Some? && 1 <= config.value.startMonth <= 12
      modifies this`monthHeaders
      ensures HeadersReady()
      ensures |monthHeaders| == 12
      ensures forall i :: 0 <= i < 12 ==>
        monthHeaders[i].month == (config.value.startMonth - 1 + i) % 12 + 1
        && monthHeaders[i].caption == MonthNames[(config.value.startMonth - 1 + i) % 12]
    {
      monthHeaders := [];
      for i := 0 to 12
        invariant |monthHeaders| == i
        invariant forall j :: 0 <= j < i ==>
          monthHeaders[j] == MonthHeader(RingMonth(config.value.startMonth, j), MonthNames[RingMonth(config.value.startMonth, j) - 1])
      {
        var monthIndex := (config.value.startMonth - 1 + i) % 12;
        monthHeaders := monthHeaders + [MonthHeader(monthIndex + 1, MonthNames[monthIndex])];
      }
    }

    /** An empty row per row header, then every initial entry through setData, in order. */
    method ProcessInitialData()
      requires HeadersReady() && (isResizing <==> resizeInfo.Some?)
      modifies this`calendarData
      ensures Valid()
      ensures calendarData == LoadEntries(EmptyGrid(config.value.rowHeaders, monthHeaders), monthHeaders, config.value.initialData)
    {
      var rows := config.value.rowHeaders;
      calendarData := map[];
      for i := 0 to |rows|
        invariant calendarData == EmptyGrid(rows[..i], monthHeaders)
      {
        var rowMap := NewRowMap();
        calendarData := calendarData[rows[i].id := rowMap];
        assert rows[..i + 1][..i] == rows[..i];
      }
      assert rows[..|rows|] == rows;
      var grid0 := calendarData;
      var entries := config.value.initialData;
      for i := 0 to |entries|
        invariant Valid() && config.value.initialData == entries
        invariant calendarData == LoadEntries(grid0, monthHeaders, entries[..i])
      {
        var item := entries[i];
        SetData(item.rowId, item.month, item.value, DurationOrDefault(item.duration));
        assert entries[..i + 1][..i] == entries[..i];
      }
      assert entries[..|entries|] == entries;
    }

    /** The row map of one row header: a visible, empty cell per header month. */
    method NewRowMap() returns (rowMap: Row)
      ensures rowMap == EmptyRow(monthHeaders)
    {
      rowMap := map[];
      for j := 0 to |monthHeaders|
        invariant rowMap == EmptyRow(monthHeaders[..j])
      {
        rowMap := rowMap[monthHeaders[j].month := Cell(false, None)];
        assert monthHeaders[..j + 1][..j] == monthHeaders[..j];
      }
      assert monthHeaders[..|monthHeaders|] == monthHeaders;
    }

    /**
     * setData: on a known row, release the entry already at `month` with its
     * previous duration, store the new entry in a visible primary cell and
     * hide the cells of its span.
     */
    method SetData(rowId: RowKey, month: int, value: string, duration: int)
      requires Valid()
      modifies this`calendarData
      ensures Valid()
      ensures calendarData == SetGrid(monthHeaders, old(calendarData), rowId, month, value, duration)
    {
      if rowId !in calendarData {
        return;
      }
      ghost var g0 := calendarData;
      var row := calendarData[rowId];
      ghost var base :=
        if month in row && row[month].data.Some? then ClearRow(monthHeaders, row, month, OrOne(row[month].data.value.duration))
        else row;
      if month in row && row[month].data.Some? {
        ClearData(rowId, month, OrOne(row[month].data.value.duration));
      }
      assert calendarData == g0[rowId := base];
      var placed := calendarData[rowId][month := Cell(false, Some(CalendarData(rowId, month, value, Some(duration))))];
      row := MarkSpanCells(placed, month, duration, true);
      assert row == SetRow(monthHeaders, g0[rowId], rowId, month, value, duration);
      calendarData := calendarData[rowId := row];
      assert calendarData == SetGrid(monthHeaders, g0, rowId, month, value, duration);
      SetGridConsistent(monthHeaders, g0, rowId, month, value, duration);
    }

    /**
     * clearData: on a known row, drop the primary cell's data and make the
     * cells of the span visible again. No cell is removed.
     */
    method ClearData(rowId: RowKey, month: int, duration: int)
      requires Valid()
      modifies this`calendarData
      ensures Valid()
      ensures calendarData == ClearGrid(monthHeaders, old(calendarData), rowId, month, duration)
    {
      if rowId !in calendarData {
        return;
      }
      ClearGridConsistent(monthHeaders, calendarData, rowId, month, duration);
      var row := calendarData[rowId];
      if month in row {
        row := row[month := row[month].(data := None)];
      }
      row := MarkSpanCells(row, month, duration, false);
      assert row == ClearRow(monthHeaders, old(calendarData)[rowId], month, duration);
      calendarData := calendarData[rowId := row];
    }

    /**
     * The span loop shared by setData (`isHidden = true`) and clearData
     * (`isHidden = false`): for `i` in `1 .. duration - 1`, the cell of the
     * month `i` columns after `month`, when the row has it.
     */
    method MarkSpanCells(row: Row, month: int, duration: int, hidden: bool) returns (r: Row)
      requires |monthHeaders| == 12
      ensures r == MarkSpan(monthHeaders, row, month, duration, hidden)
    {
      r := row;
      var i := 1;
      MarkSpanNothing(monthHeaders, row, month, 1, hidden);
      while i < duration
        invariant 1 <= i && (i <= duration || i == 1)
        invariant r == MarkSpan(monthHeaders, row, month, i, hidden)
      {
        var nextMonth := monthHeaders[(MonthColumn(monthHeaders, month) - 1 + i) % 12].month;
        MarkSpanStep(monthHeaders, row, month, i, hidden);
        if nextMonth in r {
          r := r[nextMonth := r[nextMonth].(isHidden := hidden)];
        }
        i := i + 1;
      }
      if duration <= 1 {
        MarkSpanNothing(monthHeaders, row, month, duration, hidden);
      }
    }

    /** The cell `(rowId, month)` is the one being edited. */
    function IsCellActive(rowId: RowKey, month: int): (active: bool)
      reads this
      ensures active <==> activeCell == Some(CellRef(rowId, month))
      ensures activeCell == None ==> !active
    {
      activeCell.Some? && activeCell.value.rowId == rowId && activeCell.value.month == month
    }

    /**
     * Start editing a cell, seeding the draft with its value or `''`;
     * ignored for the cell already being edited and during a resize.
     */
    method OnCellClick(rowId: RowKey, month: int)
      requires Valid()
      modifies this`activeCell, this`editValue
      ensures Valid()
      ensures old(IsCellActive(rowId, month)) || isResizing ==>
        activeCell == old(activeCell) && editValue == old(editValue)
      ensures !old(IsCellActive(rowId, month)) && !isResizing ==>
        activeCell == Some(CellRef(rowId, month)) && editValue == ValueAt(calendarData, rowId, month)
    {
      if IsCellActive(rowId, month) || isResizing {
        return;
      }
      activeCell := Some(CellRef(rowId, month));
      editValue := ValueAt(calendarData, rowId, month);
    }

    /** The draft input's two-way binding writes the draft text. */
    method EditDraft(text: string)
      requires Valid()
      modifies this`editValue
      ensures Valid() && editValue == text
    {
      editValue := text;
    }

    /**
     * Save the draft of the active cell: a blank draft deletes the cell's
     * entry, any other draft is stored with the cell's current duration
     * (`|| 1`). The component is idle afterwards.
     */
    method SaveEdit()
      requires Valid()
      modifies this`calendarData, this`activeCell, this`editValue
      ensures Valid()
      ensures activeCell == None
      ensures old(activeCell) == None ==> calendarData == old(calendarData) && editValue == old(editValue)
      ensures old(activeCell) != None ==> editValue == ""
      ensures old(activeCell) != None && Trim(old(editValue)) == "" ==>
        calendarData == DeleteGrid(monthHeaders, old(calendarData), old(activeCell).value.rowId, old(activeCell).value.month)
      ensures old(activeCell) != None && Trim(old(editValue)) != "" ==>
        calendarData == SetGrid(monthHeaders, old(calendarData),
                                old(activeCell).value.rowId, old(activeCell).value.month, old(editValue),
                                OrOne(DurationAt(old(calendarData), old(activeCell).value.rowId, old(activeCell).value.month)))
    {
      if activeCell.None? {
        return;
      }
      var rowId, month := activeCell.value.rowId, activeCell.value.month;
      if Trim(editValue) == "" {
        DeleteEntry(rowId, month);
      } else {
        var currentDuration := OrOne(DurationAt(calendarData, rowId, month));
        SetData(rowId, month, editValue, currentDuration);
      }
      ClearActiveState();
    }

    /** Remove the entry of a cell that has one, and leave editing. */
    method DeleteEntry(rowId: RowKey, month: int)
      requires Valid()
      modifies this`calendarData, this`activeCell, this`editValue
      ensures Valid()
      ensures calendarData == DeleteGrid(monthHeaders, old(calendarData), rowId, month)
      ensures HasData(old(calendarData), rowId, month) ==> activeCell == None && editValue == ""
      ensures !HasData(old(calendarData), rowId, month) ==> activeCell == old(activeCell) && editValue == old(editValue)
    {
      if !HasData(calendarData, rowId, month) {
        return;
      }
      ClearData(rowId, month, DurationOrDefault(DurationAt(calendarData, rowId, month)));
      ClearActiveState();
    }

    method ClearActiveState()
      requires Valid()
      modifies this`activeCell, this`editValue
      ensures Valid() && activeCell == None && editValue == ""
    {
      activeCell := None;
      editValue := "";
    }

    /**
     * Begin a drag-resize on a cell with data, remembering its duration
     * (`|| 1`); `referenceCellFound` says whether a cell could be measured.
     */
    method OnResizeStart(rowId: RowKey, month: int, referenceCellFound: bool)
      requires Valid()
      modifies this`isResizing, this`resizeInfo
      ensures Valid()
      ensures HasData(calendarData, rowId, month) && referenceCellFound ==>
        isResizing && resizeInfo == Some(ResizeInfo(rowId, month, OrOne(DurationAt(calendarData, rowId, month))))
      ensures !(HasData(calendarData, rowId, month) && referenceCellFound) ==>
        isResizing == old(isResizing) && resizeInfo == old(resizeInfo)
    {
      if !HasData(calendarData, rowId, month) {
        return;
      }
      if !referenceCellFound {
        return;
      }
      isResizing := true;
      resizeInfo := Some(ResizeInfo(rowId, month, OrOne(DurationAt(calendarData, rowId, month))));
    }

    /**
     * Pointer movement during a resize, already rounded to whole months:
     * clamp the new duration to `[1, 13 - column]` and re-place the entry
     * only if the cell has data and the duration changes.
     */
    method OnResizeMove(monthChange: int)
      requires Valid()
      modifies this`calendarData
      ensures Valid()
      ensures !isResizing ==> calendarData == old(calendarData)
      ensures isResizing ==>
        var info := resizeInfo.value;
        var newDuration := ClampDuration(info.initialDuration, monthChange, MonthColumn(monthHeaders, info.startMonth));
        calendarData ==
          if HasData(old(calendarData), info.rowId, info.startMonth)
             && DurationAt(old(calendarData), info.rowId, info.startMonth) != Some(newDuration)
          then SetGrid(monthHeaders, old(calendarData), info.rowId, info.startMonth,
                       ValueAt(old(calendarData), info.rowId, info.startMonth), newDuration)
          else old(calendarData)
    {
      if !isResizing || resizeInfo.None? {
        return;
      }
      var info := resizeInfo.value;
      var newDuration := ClampDuration(info.initialDuration, monthChange, MonthColumn(monthHeaders, info.startMonth));
      if HasData(calendarData, info.rowId, info.startMonth)
         && DurationAt(calendarData, info.rowId, info.startMonth) != Some(newDuration) {
        SetData(info.rowId, info.startMonth, ValueAt(calendarData, info.rowId, info.startMonth), newDuration);
      }
    }

    /** Releasing the pointer ends any resize unconditionally. */
    method OnResizeEnd()
      requires Valid()
      modifies this`isResizing, this`resizeInfo
      ensures Valid() && !isResizing && resizeInfo == None
    {
      if isResizing {
        isResizing := false;
        resizeInfo := None;
      }
    }

    /**
     * Collect every cell whose data has a non-empty value, in no promised
     * order and without repeats.
     */
    method GetCalendarData() returns (allData: seq<CalendarData>)
      requires Valid()
      ensures forall e :: e in allData <==> e in Saved(calendarData)
      ensures forall i, j :: 0 <= i < j < |allData| ==> allData[i] != allData[j]
    {
      SavedByKey(calendarData);
      allData := [];
      var rowsLeft, rowsDone := calendarData.Keys, {};
      while rowsLeft != {}
        invariant rowsLeft == calendarData.Keys - rowsDone && rowsDone <= calendarData.Keys
        invariant forall e :: e in allData ==> SavedAtOwnKey(calendarData, e) && e.rowId in rowsDone
        invariant forall r, k :: r in rowsDone && k in calendarData[r] && IsSaved(calendarData[r][k]) ==>
          calendarData[r][k].data.value in allData
        invariant forall i, j :: 0 <= i < j < |allData| ==> allData[i] != allData[j]
        decreases rowsLeft
      {
        var rowId :| rowId in rowsLeft;
        var rowMap := calendarData[rowId];
        var monthsLeft, monthsDone := rowMap.Keys, {};
        while monthsLeft != {}
          invariant monthsLeft == rowMap.Keys - monthsDone && monthsDone <= rowMap.Keys
          invariant forall e :: e in allData ==>
            SavedAtOwnKey(calendarData, e) && (e.rowId in rowsDone || (e.rowId == rowId && e.month in monthsDone))
          invariant forall r, k :: r in rowsDone && k in calendarData[r] && IsSaved(calendarData[r][k]) ==>
            calendarData[r][k].data.value in allData
          invariant forall k :: k in monthsDone && IsSaved(rowMap[k]) ==> rowMap[k].data.value in allData
          invariant forall i, j :: 0 <= i < j < |allData| ==> allData[i] != allData[j]
          decreases monthsLeft
        {
          NonEmptyHasMember(monthsLeft);
          var m :| m in monthsLeft;
          var cell := rowMap[m];
          if cell.data.Some? && cell.data.value.value != "" {
            allData := allData + [cell.data.value];
          }
          monthsLeft, monthsDone := monthsLeft - {m}, monthsDone + {m};
        }
        rowsLeft, rowsDone := rowsLeft - {rowId}, rowsDone + {rowId};
      }
    }
  }
}
