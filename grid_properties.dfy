/** What setData, clearData and deleteEntry do to the cells of a row. */
module GridProperties {
  import opened Wrappers
  import opened Types
  import opened Months
  import opened Grid

  /** Growing the loop bound by one adds exactly the next month to the span. */
  lemma SpanStep(hs: seq<MonthHeader>, month: int, i: int)
    requires |hs| == 12 && i >= 1
    ensures Span(hs, month, i + 1) == Span(hs, month, i) + {SpanMonth(hs, month, i)}
  {
  }

  /** A loop bound of at most 1 covers no month. */
  lemma SpanEmpty(hs: seq<MonthHeader>, month: int, d: int)
    requires |hs| == 12 && d <= 1
    ensures Span(hs, month, d) == {}
  {
  }

  /** The parameter default and `|| 1` give the same span for a stored duration. */
  lemma SpanDefaultsAgree(hs: seq<MonthHeader>, month: int, d: Option<int>)
    requires |hs| == 12
    ensures Span(hs, month, DurationOrDefault(d)) == Span(hs, month, OrOne(d))
  {
  }

  /** One turn of a span loop updates exactly the next span month, if the row has it. */
  lemma MarkSpanStep(hs: seq<MonthHeader>, row: Row, month: int, i: int, hidden: bool)
    requires |hs| == 12 && i >= 1
    ensures var m := SpanMonth(hs, month, i);
            var before := MarkSpan(hs, row, month, i, hidden);
            MarkSpan(hs, row, month, i + 1, hidden) ==
              if m in before then before[m := before[m].(isHidden := hidden)] else before
  {
    SpanStep(hs, month, i);
  }

  /** A span loop that does not run leaves the row as it is. */
  lemma MarkSpanNothing(hs: seq<MonthHeader>, row: Row, month: int, d: int, hidden: bool)
    requires |hs| == 12 && d <= 1
    ensures MarkSpan(hs, row, month, d, hidden) == row
  {
    SpanEmpty(hs, month, d);
  }

  /**
   * clearData on a row: no cell is added or removed; the primary cell loses
   * its data and keeps its `isHidden`, unless a duration over twelve wraps
   * the span onto it, which makes it visible; every span cell becomes
   * visible; all other cells are unchanged.
   */
  lemma ClearRowEffect(hs: seq<MonthHeader>, row: Row, month: int, duration: int)
    requires |hs| == 12
    ensures var r := ClearRow(hs, row, month, duration);
      && r.Keys == row.Keys
      && (forall k :: k in row ==> r[k].data == if k == month then None else row[k].data)
      && (forall k :: k in row ==> r[k].isHidden == if k in Span(hs, month, duration) then false else row[k].isHidden)
  {
  }

  /**
   * setData on a row. The row gains the primary month if it lacked it. The
   * primary cell holds the new entry and is visible unless a duration over
   * twelve wraps its span back onto it. Every span cell is hidden and keeps
   * whatever data it held. A cell of the released prior span that the new
   * span does not cover is visible. Every other cell is unchanged.
   */
  lemma SetRowEffect(hs: seq<MonthHeader>, row: Row, rowId: RowKey, month: int, value: string, duration: int)
    requires |hs| == 12
    ensures var r := SetRow(hs, row, rowId, month, value, duration);
      var newSpan := Span(hs, month, duration);
      var oldSpan := PriorSpan(hs, row, month);
      && r.Keys == row.Keys + {month}
      && r[month] == Cell(month in newSpan, Some(CalendarData(rowId, month, value, Some(duration))))
      && (forall k :: k in row && k != month ==> r[k].data == row[k].data)
      && (forall k :: k in row && k in newSpan ==> r[k].isHidden)
      && (forall k :: k in row && k != month && k !in newSpan && k in oldSpan ==> !r[k].isHidden)
      && (forall k :: k in row && k != month && k !in newSpan && k !in oldSpan ==> r[k] == row[k])
  {
    if month in row && row[month].data.Some? {
      ClearRowEffect(hs, row, month, OrOne(row[month].data.value.duration));
    }
  }

  /** Inside the clamp window a span never covers its own primary month. */
  lemma SpanAvoidsPrimary(hs: seq<MonthHeader>, startMonth: int, month: int, duration: int)
    requires 1 <= startMonth <= 12 && IsHeaderRing(hs, startMonth)
    requires duration <= 13 - MonthColumn(hs, month)
    ensures month !in Span(hs, month, duration)
  {
    if duration >= 1 {
      ClampedSpanDoesNotWrap(hs, startMonth, month, duration);
    }
  }

  /**
   * For any duration up to twelve, wherever the month sits: the span never
   * covers its own primary month, its months are pairwise different, and
   * so it holds exactly `duration - 1` months.
   */
  lemma {:induction false} SpanWithinTwelve(hs: seq<MonthHeader>, month: int, duration: int)
    requires |hs| == 12 && DistinctMonths(hs) && duration <= 12
    ensures month !in Span(hs, month, duration)
    ensures forall i, j :: 1 <= i < j < duration ==> SpanMonth(hs, month, i) != SpanMonth(hs, month, j)
    ensures duration >= 1 ==> |Span(hs, month, duration)| == duration - 1
    decreases duration
  {
    forall i, j | 1 <= i < j < duration ensures SpanMonth(hs, month, i) != SpanMonth(hs, month, j) {
      SpanMonthsDistinct(hs, month, i, j);
    }
    forall i | 1 <= i < duration ensures SpanMonth(hs, month, i) != month {
      SpanMonthNotPrimary(hs, month, i);
    }
    if duration <= 1 {
      SpanEmpty(hs, month, duration);
    } else {
      SpanWithinTwelve(hs, month, duration - 1);
      SpanStep(hs, month, duration - 1);
      assert SpanMonth(hs, month, duration - 1) !in Span(hs, month, duration - 1);
    }
  }

  /**
   * Placing an entry of any duration `d` in 1..12 in a row that has a cell
   * for every header month: the primary cell is visible and holds the
   * entry, and the span holds exactly `d - 1` months, each present and
   * hidden. Cells hidden by other entries' spans may stay hidden.
   */
  lemma PlacedSpanCount(hs: seq<MonthHeader>, row: Row, rowId: RowKey, month: int, value: string, d: int)
    requires |hs| == 12 && DistinctMonths(hs) && MonthsOf(hs) <= row.Keys
    requires 1 <= d <= 12
    ensures var r := SetRow(hs, row, rowId, month, value, d);
      && r[month] == Cell(false, Some(CalendarData(rowId, month, value, Some(d))))
      && month !in Span(hs, month, d)
      && |Span(hs, month, d)| == d - 1
      && (forall k :: k in Span(hs, month, d) ==> k in r && r[k].isHidden)
  {
    SpanWithinTwelve(hs, month, d);
    SetRowEffect(hs, row, rowId, month, value, d);
  }

  /**
   * setData is idempotent: storing the same entry twice leaves the row as
   * storing it once, because the second call first releases exactly the
   * span the first one hid.
   */
  lemma SetRowIdempotent(hs: seq<MonthHeader>, row: Row, rowId: RowKey, month: int, value: string, duration: int)
    requires |hs| == 12
    ensures var once := SetRow(hs, row, rowId, month, value, duration);
      SetRow(hs, once, rowId, month, value, duration) == once
  {
    var once := SetRow(hs, row, rowId, month, value, duration);
    var twice := SetRow(hs, once, rowId, month, value, duration);
    SetRowEffect(hs, row, rowId, month, value, duration);
    SetRowEffect(hs, once, rowId, month, value, duration);
    SpanDefaultsAgree(hs, month, Some(duration));
    assert PriorSpan(hs, once, month) == Span(hs, month, duration);
    assert forall k :: k in once ==> twice[k] == once[k];
  }

  lemma SetGridIdempotent(hs: seq<MonthHeader>, g: CalendarGrid, rowId: RowKey, month: int, value: string, duration: int)
    requires |hs| == 12
    ensures var once := SetGrid(hs, g, rowId, month, value, duration);
      SetGrid(hs, once, rowId, month, value, duration) == once
  {
    if rowId in g {
      SetRowIdempotent(hs, g[rowId], rowId, month, value, duration);
    }
  }

  /**
   * Reading a cell back after setData: a known row's cell holds the entry,
   * so the lookups of onCellClick, saveEdit and onResizeMove see its value
   * and duration; an unknown row still has no data; other rows read as before.
   */
  lemma ReadAfterSet(hs: seq<MonthHeader>, g: CalendarGrid, rowId: RowKey, month: int, value: string, duration: int)
    requires |hs| == 12
    ensures var r := SetGrid(hs, g, rowId, month, value, duration);
      && (rowId in g ==> HasData(r, rowId, month) && ValueAt(r, rowId, month) == value
                         && DurationAt(r, rowId, month) == Some(duration))
      && (rowId !in g ==> HasData(r, rowId, month) == HasData(g, rowId, month))
      && (forall other, k :: other != rowId ==> Lookup(r, other, k) == Lookup(g, other, k))
  {
  }

  /**
   * Reading a cell back after deleteEntry: no data, so the value reads as
   * `''` and the duration as absent; the cell itself is still there.
   */
  lemma ReadAfterDelete(hs: seq<MonthHeader>, g: CalendarGrid, rowId: RowKey, month: int)
    requires |hs| == 12
    ensures var r := DeleteGrid(hs, g, rowId, month);
      && !HasData(r, rowId, month) && ValueAt(r, rowId, month) == "" && DurationAt(r, rowId, month) == None
      && Lookup(r, rowId, month).Some? == Lookup(g, rowId, month).Some?
  {
    if HasData(g, rowId, month) {
      ClearRowEffect(hs, g[rowId], month, DurationOrDefault(DurationAt(g, rowId, month)));
    }
  }

  /**
   * Placing an entry of duration `d` in the clamp window at a calendar
   * month: the primary cell is visible and holds the entry, and for each
   * `i` in `1 .. d - 1` the month at column `column(month) + i` is hidden.
   */
  lemma PlacedSpanLayout(hs: seq<MonthHeader>, startMonth: int, row: Row, rowId: RowKey, month: int, value: string, d: int)
    requires 1 <= startMonth <= 12 && IsHeaderRing(hs, startMonth)
    requires MonthsOf(hs) <= row.Keys
    requires 1 <= d <= 13 - MonthColumn(hs, month)
    ensures var r := SetRow(hs, row, rowId, month, value, d);
      && r[month] == Cell(false, Some(CalendarData(rowId, month, value, Some(d))))
      && (forall i :: 1 <= i < d ==>
            && SpanMonth(hs, month, i) in r
            && MonthColumn(hs, SpanMonth(hs, month, i)) == MonthColumn(hs, month) + i
            && r[SpanMonth(hs, month, i)].isHidden)
  {
    SpanAvoidsPrimary(hs, startMonth, month, d);
    SetRowEffect(hs, row, rowId, month, value, d);
    ClampedSpanDoesNotWrap(hs, startMonth, month, d);
    forall i | 1 <= i < d ensures SpanMonth(hs, month, i) in row {
      assert SpanMonth(hs, month, i) == hs[(MonthColumn(hs, month) - 1 + i) % 12].month;
    }
  }

  /**
   * Clear-before-place: when the row's only hidden cells were those of the
   * entry being replaced, after setData every hidden cell lies in the new
   * span, so re-placing with a shorter duration orphans no hidden cell.
   */
  lemma ReplaceLeavesNoStaleHidden(hs: seq<MonthHeader>, row: Row, rowId: RowKey, month: int, value: string, duration: int)
    requires |hs| == 12
    requires forall k :: k in row && row[k].isHidden ==> k in PriorSpan(hs, row, month)
    ensures var r := SetRow(hs, row, rowId, month, value, duration);
      forall k :: k in r && r[k].isHidden ==> k in Span(hs, month, duration)
  {
    SetRowEffect(hs, row, rowId, month, value, duration);
  }

  /** setData keeps every hidden cell of the row covered by some entry's span. */
  lemma SetRowKeepsNoOrphans(hs: seq<MonthHeader>, row: Row, rowId: RowKey, month: int, value: string, duration: int)
    requires |hs| == 12 && NoOrphans(hs, row)
    ensures NoOrphans(hs, SetRow(hs, row, rowId, month, value, duration))
  {
    var r := SetRow(hs, row, rowId, month, value, duration);
    var newSpan := Span(hs, month, duration);
    SetRowEffect(hs, row, rowId, month, value, duration);
    SpanDefaultsAgree(hs, month, Some(duration));
    forall k | k in r && r[k].isHidden ensures Covered(hs, r, k) {
      if k in newSpan {
        assert month in r && r[month].data.Some? && k in Span(hs, month, OrOne(r[month].data.value.duration));
      } else {
        assert k != month && r[k] == row[k];
        var j :| j in row && row[j].data.Some? && k in Span(hs, j, OrOne(row[j].data.value.duration));
        assert j != month;
        assert j in r && r[j].data == row[j].data;
      }
    }
  }

  /** deleteEntry keeps every hidden cell of the row covered by some entry's span. */
  lemma DeleteRowKeepsNoOrphans(hs: seq<MonthHeader>, row: Row, month: int)
    requires |hs| == 12 && NoOrphans(hs, row)
    requires month in row && row[month].data.Some?
    ensures NoOrphans(hs, ClearRow(hs, row, month, DurationOrDefault(row[month].data.value.duration)))
  {
    var d := row[month].data.value.duration;
    var r := ClearRow(hs, row, month, DurationOrDefault(d));
    ClearRowEffect(hs, row, month, DurationOrDefault(d));
    SpanDefaultsAgree(hs, month, d);
    forall k | k in r && r[k].isHidden ensures Covered(hs, r, k) {
      var j :| j in row && row[j].data.Some? && k in Span(hs, j, OrOne(row[j].data.value.duration));
      assert j != month;
      assert j in r && r[j].data == row[j].data;
    }
  }

  /** setData on the grid keeps every hidden cell of every row covered by some entry's span. */
  lemma SetGridKeepsNoOrphans(hs: seq<MonthHeader>, g: CalendarGrid, rowId: RowKey, month: int, value: string, duration: int)
    requires |hs| == 12 && GridNoOrphans(hs, g)
    ensures GridNoOrphans(hs, SetGrid(hs, g, rowId, month, value, duration))
  {
    if rowId in g {
      SetRowKeepsNoOrphans(hs, g[rowId], rowId, month, value, duration);
    }
  }

  /** deleteEntry on the grid keeps every hidden cell of every row covered by a remaining entry's span. */
  lemma DeleteGridKeepsNoOrphans(hs: seq<MonthHeader>, g: CalendarGrid, rowId: RowKey, month: int)
    requires |hs| == 12 && GridNoOrphans(hs, g)
    ensures GridNoOrphans(hs, DeleteGrid(hs, g, rowId, month))
  {
    if HasData(g, rowId, month) {
      DeleteRowKeepsNoOrphans(hs, g[rowId], month);
    }
  }

  /**
   * The prior-entry lookup `find(c => c.data?.rowId === rowId && c.data?.month === month)`
   * matches exactly the primary cell when every entry is stored under its own
   * row and month, so it may be read as `row.get(month)?.data`.
   */
  lemma ExistingEntryIsPrimary(row: Row, rowId: RowKey, month: int)
    requires forall k :: k in row && row[k].data.Some? ==> row[k].data.value.rowId == rowId && row[k].data.value.month == k
    ensures forall k ::
              (k in row && row[k].data.Some? && row[k].data.value.rowId == rowId && row[k].data.value.month == month)
              <==> (k == month && month in row && row[month].data.Some?)
  {
  }

  /** setData keeps every entry under its own row id and month, with a duration. */
  lemma SetGridConsistent(hs: seq<MonthHeader>, g: CalendarGrid, rowId: RowKey, month: int, value: string, duration: int)
    requires |hs| == 12 && GridConsistent(g)
    ensures GridConsistent(SetGrid(hs, g, rowId, month, value, duration))
  {
    if rowId in g {
      SetRowEffect(hs, g[rowId], rowId, month, value, duration);
    }
  }

  /** clearData, and so deleteEntry, keeps every entry under its own row id and month, with a duration. */
  lemma ClearGridConsistent(hs: seq<MonthHeader>, g: CalendarGrid, rowId: RowKey, month: int, duration: int)
    requires |hs| == 12 && GridConsistent(g)
    ensures GridConsistent(ClearGrid(hs, g, rowId, month, duration))
  {
    if rowId in g {
      ClearRowEffect(hs, g[rowId], month, duration);
    }
  }
}
