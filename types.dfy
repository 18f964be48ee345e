/**
 * Record shapes of the planning calendar (planning-calendar.model.ts and the
 * internal records of planning-calendar.component.ts).
 */
module Types {
  import opened Wrappers

  /** A row id is `string | number`; the two kinds never compare equal. */
  datatype RowKey = Text(text: string) | Number(number: int)

  /** One entry: `duration` is optional, with a span of one month when absent. */
  datatype CalendarData = CalendarData(rowId: RowKey, month: int, value: string, duration: Option<int>)

  datatype RowHeader = RowHeader(id: RowKey, caption: string)

  datatype Config = Config(
    stickyColumnHeader: string,
    rowHeaders: seq<RowHeader>,
    startMonth: int,
    initialData: seq<CalendarData>)

  /** One column of the rolling year. */
  datatype MonthHeader = MonthHeader(month: int, caption: string)

  /** One grid slot; `data` is optional. */
  datatype Cell = Cell(isHidden: bool, data: Option<CalendarData>)

  /** The `{ rowId, month }` pointer to the cell being edited. */
  datatype CellRef = CellRef(rowId: RowKey, month: int)

  /**
   * What a drag-resize remembers between its start and its end. The pointer
   * position and measured cell width are not kept: the model takes the
   * already rounded month change as input.
   */
  datatype ResizeInfo = ResizeInfo(rowId: RowKey, startMonth: int, initialDuration: int)

  /** An omitted `duration` argument takes the parameter default `= 1`. */
  function DurationOrDefault(d: Option<int>): int {
    match d
    case None => 1
    case Some(n) => n
  }

  /** `duration || 1`: an absent or zero (falsy) duration becomes 1; any other is kept. */
  function OrOne(d: Option<int>): (r: int)
    ensures r != 0
    ensures d.Some? && d.value != 0 ==> r == d.value
  {
    match d
    case None => 1
    case Some(n) => if n == 0 then 1 else n
  }

  /** The two defaults disagree exactly on a stored duration of 0. */
  lemma DefaultsDifferOnlyAtZero(d: Option<int>)
    ensures DurationOrDefault(d) == OrOne(d) <==> d != Some(0)
    ensures d == Some(0) ==> DurationOrDefault(d) == 0 && OrOne(d) == 1
  {
  }
}
