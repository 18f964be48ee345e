/**
 * The row -> month -> cell map of planning-calendar.component.ts as a value,
 * and what setData, clearData, deleteEntry, processInitialData and
 * getCalendarData do to it. The component's methods are proved to leave
 * exactly these values behind; the lemmas here state what they mean.
 */
module Grid {
  import opened Wrappers
  import opened Types
  import opened Months

  type Row = map<int, Cell>
  type CalendarGrid = map<RowKey, Row>

  /** The months at offsets `1 .. duration - 1` after `month`, wrapping modulo 12. */
  function Span(hs: seq<MonthHeader>, month: int, duration: int): set<int>
    requires |hs| == 12
  {
    set i | 1 <= i < duration :: SpanMonth(hs, month, i)
  }

  /** One span loop: every span cell present in the row gets `isHidden := hidden`. */
  function MarkSpan(hs: seq<MonthHeader>, row: Row, month: int, duration: int, hidden: bool): (r: Row)
    requires |hs| == 12
    ensures r.Keys == row.Keys
    ensures forall k :: k in row ==> r[k].data == row[k].data
  {
    map k | k in row :: if k in Span(hs, month, duration) then row[k].(isHidden := hidden) else row[k]
  }

  /** clearData on one row: drop the primary cell's data, then unhide the span. */
  function ClearRow(hs: seq<MonthHeader>, row: Row, month: int, duration: int): (r: Row)
    requires |hs| == 12
    ensures r.Keys == row.Keys
    ensures month in row ==> r[month].data == None
  {
    var cleared := if month in row then row[month := row[month].(data := None)] else row;
    MarkSpan(hs, cleared, month, duration, false)
  }

  /** The span the entry already stored at `month` covers, which setData releases first. */
  function PriorSpan(hs: seq<MonthHeader>, row: Row, month: int): set<int>
    requires |hs| == 12
  {
    if month in row && row[month].data.Some? then Span(hs, month, OrOne(row[month].data.value.duration))
    else {}
  }

  /**
   * setData on one row: release the entry already at `month` with its old
   * duration (`|| 1`), write a fresh visible primary cell, then hide the span.
   */
  function SetRow(hs: seq<MonthHeader>, row: Row, rowId: RowKey, month: int, value: string, duration: int): (r: Row)
    requires |hs| == 12
    ensures r.Keys == row.Keys + {month}
    ensures r[month].data == Some(CalendarData(rowId, month, value, Some(duration)))
  {
    var base :=
      if month in row && row[month].data.Some? then ClearRow(hs, row, month, OrOne(row[month].data.value.duration))
      else row;
    var placed := base[month := Cell(false, Some(CalendarData(rowId, month, value, Some(duration))))];
    MarkSpan(hs, placed, month, duration, true)
  }

  /** setData: an unknown row leaves the grid alone. */
  function SetGrid(hs: seq<MonthHeader>, g: CalendarGrid, rowId: RowKey, month: int, value: string, duration: int): (r: CalendarGrid)
    requires rowId in g ==> |hs| == 12
    ensures r.Keys == g.Keys
    ensures forall other :: other in g && other != rowId ==> r[other] == g[other]
  {
    if rowId in g then g[rowId := SetRow(hs, g[rowId], rowId, month, value, duration)] else g
  }

  /** clearData: an unknown row leaves the grid alone; no cell is ever removed. */
  function ClearGrid(hs: seq<MonthHeader>, g: CalendarGrid, rowId: RowKey, month: int, duration: int): (r: CalendarGrid)
    requires rowId in g ==> |hs| == 12
    ensures r.Keys == g.Keys
    ensures forall other :: other in g && other != rowId ==> r[other] == g[other]
  {
    if rowId in g then g[rowId := ClearRow(hs, g[rowId], month, duration)] else g
  }

  /**
   * Proof helper for the collection loop of getCalendarData: a non-empty
   * set of months has a member to visit next.
   */
  lemma NonEmptyHasMember(s: set<int>)
    requires s != {}
    ensures exists m :: m in s
  {
    if forall m :: m !in s {
      assert false;
    }
  }

  /** `calendarData.get(rowId)?.get(month)`. */
  function Lookup(g: CalendarGrid, rowId: RowKey, month: int): Option<Cell> {
    if rowId in g && month in g[rowId] then Some(g[rowId][month]) else None
  }

  /** `cell?.data` is present. */
  predicate HasData(g: CalendarGrid, rowId: RowKey, month: int) {
    Lookup(g, rowId, month).Some? && Lookup(g, rowId, month).value.data.Some?
  }

  /** `cell?.data?.value ?? ''`. */
  function ValueAt(g: CalendarGrid, rowId: RowKey, month: int): string {
    if HasData(g, rowId, month) then Lookup(g, rowId, month).value.data.value.value else ""
  }

  /** `cell?.data?.duration`, absent when there is no data. */
  function DurationAt(g: CalendarGrid, rowId: RowKey, month: int): Option<int> {
    if HasData(g, rowId, month) then Lookup(g, rowId, month).value.data.value.duration else None
  }

  /** deleteEntry: clear the cell's entry with its stored duration, if it has one. */
  function DeleteGrid(hs: seq<MonthHeader>, g: CalendarGrid, rowId: RowKey, month: int): (r: CalendarGrid)
    requires rowId in g ==> |hs| == 12
    ensures r.Keys == g.Keys
    ensures forall other :: other in g && other != rowId ==> r[other] == g[other]
    ensures !HasData(r, rowId, month)
    ensures !HasData(g, rowId, month) ==> r == g
  {
    if HasData(g, rowId, month) then ClearGrid(hs, g, rowId, month, DurationOrDefault(DurationAt(g, rowId, month)))
    else g
  }

  /** The row map processInitialData builds: one visible, empty cell per header month. */
  function EmptyRow(hs: seq<MonthHeader>): (row: Row)
    ensures row.Keys == MonthsOf(hs)
    ensures forall k :: k in row ==> row[k] == Cell(false, None)
  {
    if hs == [] then map[]
    else
      var prefix := hs[..|hs| - 1];
      assert MonthsOf(hs) == MonthsOf(prefix) + {hs[|hs| - 1].month} by {
        forall m | m in MonthsOf(hs) ensures m in MonthsOf(prefix) + {hs[|hs| - 1].month} {
          var i :| 0 <= i < |hs| && hs[i].month == m;
          if i < |hs| - 1 { assert prefix[i] == hs[i]; }
        }
      }
      EmptyRow(prefix)[hs[|hs| - 1].month := Cell(false, None)]
  }

  function RowIds(rows: seq<RowHeader>): set<RowKey> {
    set i | 0 <= i < |rows| :: rows[i].id
  }

  /** One empty row per row header; a repeated id keeps a single row. */
  function EmptyGrid(rows: seq<RowHeader>, hs: seq<MonthHeader>): (g: CalendarGrid)
    ensures g.Keys == RowIds(rows)
    ensures forall r :: r in g ==> g[r] == EmptyRow(hs)
  {
    if rows == [] then map[]
    else
      var prefix := rows[..|rows| - 1];
      assert RowIds(rows) == RowIds(prefix) + {rows[|rows| - 1].id} by {
        forall r | r in RowIds(rows) ensures r in RowIds(prefix) + {rows[|rows| - 1].id} {
          var i :| 0 <= i < |rows| && rows[i].id == r;
          if i < |rows| - 1 { assert prefix[i] == rows[i]; }
        }
      }
      EmptyGrid(prefix, hs)[rows[|rows| - 1].id := EmptyRow(hs)]
  }

  /** The `initialData.forEach(setData)` loop, entries applied in order. */
  function LoadEntries(g: CalendarGrid, hs: seq<MonthHeader>, entries: seq<CalendarData>): (r: CalendarGrid)
    requires |hs| == 12
    ensures r.Keys == g.Keys
  {
    if entries == [] then g
    else
      var last := entries[|entries| - 1];
      SetGrid(hs, LoadEntries(g, hs, entries[..|entries| - 1]), last.rowId, last.month, last.value,
              DurationOrDefault(last.duration))
  }

  /** A cell getCalendarData collects: it has data with a non-empty value. */
  predicate IsSaved(c: Cell) {
    c.data.Some? && c.data.value.value != ""
  }

  /** What getCalendarData emits, as a set (the order is not promised). */
  function Saved(g: CalendarGrid): (r: set<CalendarData>)
    ensures forall e :: e in r ==> e.value != ""
  {
    set r, k | r in g && k in g[r] && IsSaved(g[r][k]) :: g[r][k].data.value
  }

  /** `e` is the entry of the cell under its own row id and month, and would be saved. */
  ghost predicate SavedAtOwnKey(g: CalendarGrid, e: CalendarData) {
    e.rowId in g && e.month in g[e.rowId] && IsSaved(g[e.rowId][e.month]) && g[e.rowId][e.month].data.value == e
  }

  /** Every stored entry sits under its own row id and month and has a duration. */
  ghost predicate GridConsistent(g: CalendarGrid) {
    forall r, k :: r in g && k in g[r] && g[r][k].data.Some? ==>
      g[r][k].data.value.rowId == r && g[r][k].data.value.month == k && g[r][k].data.value.duration.Some?
  }

  /** Some entry stored in the row has `k` in its span. */
  ghost predicate Covered(hs: seq<MonthHeader>, row: Row, k: int)
    requires |hs| == 12
  {
    exists j :: j in row && row[j].data.Some? && k in Span(hs, j, OrOne(row[j].data.value.duration))
  }

  /** No orphaned hidden cells: each hidden cell lies in the span of an entry of its row. */
  ghost predicate NoOrphans(hs: seq<MonthHeader>, row: Row)
    requires |hs| == 12
  {
    forall k :: k in row && row[k].isHidden ==> Covered(hs, row, k)
  }

  ghost predicate GridNoOrphans(hs: seq<MonthHeader>, g: CalendarGrid)
    requires |hs| == 12
  {
    forall r :: r in g ==> NoOrphans(hs, g[r])
  }

  /** The entries of `s` not keyed by `(rowId, month)`. */
  function Without(s: set<CalendarData>, rowId: RowKey, month: int): set<CalendarData> {
    set e | e in s && (e.rowId != rowId || e.month != month)
  }
}
