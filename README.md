# Planning calendar span grid, in Dafny

This project models the engine of the Angular `PlanningCalendarComponent` in
loicgasser/planning-calendar-app. The widget lays labelled rows against a
rolling twelve-month calendar. Each entry `(rowId, month, value, duration)`
occupies a primary cell plus the `duration - 1` cells after it, which are
hidden. Those months wrap from December to January.

The component keeps three kinds of state:

- the header sequence `monthHeaders`;
- the row → month → cell map `calendarData`;
- a small edit/resize state machine: `activeCell`, `editValue`, `isResizing` and `resizeInfo`.

`generateMonthHeaders` and `processInitialData` build that state. `setData`
and `clearData` change the grid in place. The click, save, delete and resize
handlers drive the state machine. `getCalendarData` flattens the grid back
into a list of entries.

The model is split into modules:

- `Types` (types.dfy): the record shapes, plus the two duration defaults of the source. A missing duration takes the parameter default `= 1` (`DurationOrDefault`). The `|| 1` operator maps both a missing duration and `0` to 1 (`OrOne`).
- `Months` (months.dfy): the header ring (`RingMonth`, `IsHeaderRing`) and the column lookup `MonthColumn` (`findIndex + 1`). Also `SpanMonth`, the month `i` columns after a month, wrapping modulo 12, and the resize clamp `ClampDuration`.
- `Text` (text.dfy): JavaScript's `String.prototype.trim`, which `saveEdit` uses to recognise a blank draft.
- `Grid` (grid.dfy): the grid as a value (`map<RowKey, map<int, Cell>>`), with pure definitions of what each operation leaves behind:
  - `SetRow`/`SetGrid` for setData;
  - `ClearRow`/`ClearGrid` for clearData;
  - `DeleteGrid` for deleteEntry;
  - `EmptyGrid`/`LoadEntries` for processInitialData;
  - `Saved` for the set getCalendarData collects.
- `GridProperties` and `Serialisation`: lemmas about those definitions.
- `Component` (component.dfy): the class `PlanningCalendarComponent`. It has the source's fields. Its methods update them with the source's loops, and each method is proved to leave exactly the state the `Grid` functions describe.
- `Scenarios` (scenarios.dfy): the demo configuration of `src/app/app.ts`.

Row keys are `string | number` in the source. The model uses `datatype RowKey = Text(string) | Number(int)`, so `"1"` and `1` remain different keys, as they are for a JavaScript `Map`. The header field `label` is called `caption`, because `label` is a reserved word in Dafny.

The model follows what the code does, including where a reader might expect otherwise:

- setData hides the spanned cells but does not clear their `data`. A spanned cell keeps whatever entry it held. getCalendarData still collects that entry, which is why the round trip `LoadThenSave` needs only distinct `(rowId, month)` keys, not non-overlapping spans.
- A cell holding data can be hidden. That happens when another entry's span covers it, or when a duration over twelve wraps its own span back onto the primary month (`SetRowEffect` states `isHidden == month in newSpan` for the primary cell).
- ngOnChanges regenerates the headers and rebuilds the grid, but leaves `activeCell`, `editValue`, `isResizing` and `resizeInfo` as they were (`NgOnChanges`).
- "Re-placing leaves no orphaned hidden cell" holds only under a condition: before setData, every hidden cell of the row must be in the span being released (`ReplaceLeavesNoStaleHidden`). In general, setData keeps every hidden cell covered by some entry's span (`SetRowKeepsNoOrphans`).

## Model

| member | source | states |
|---|---|---|
| Months.HeaderRingIsPermutation | src/app/planning-calendar/planning-calendar.component.ts:79-85 | for a start month in 1..12 the twelve headers begin at the start month, label each month with `MONTH_NAMES[month-1]`, are pairwise distinct and cover exactly the months 1..12 |
| Months.RingMonthDistinct | src/app/planning-calendar/planning-calendar.component.ts:82 | two different offsets below 12 give two different months |
| Months.HeadersFromNovember | src/app/planning-calendar/planning-calendar.component.ts:79-85 | starting in November gives the months 11, 12, 1, …, 10 with captions Nov … Oct |
| Months.MonthColumn | src/app/planning-calendar/planning-calendar.component.ts:192-194 | the result is 0 or a 1-based column holding the month, and no earlier column holds it; 0 means no column does |
| Months.ColumnOfPosition | src/app/planning-calendar/planning-calendar.component.ts:192-194 | with distinct months the column of the header at position j is j + 1 |
| Months.ColumnOfMonth | src/app/planning-calendar/planning-calendar.component.ts:192-194 | once headers exist every month 1..12 has a column in 1..12 that holds it, at offset `(m - start + 12) % 12`; any other number has column 0 |
| Months.ColumnOfSpanMonth | src/app/planning-calendar/planning-calendar.component.ts:117-121 | the month `i` steps after `month` sits at column `(column(month) - 1 + i) % 12 + 1` |
| Months.RingMonth | src/app/planning-calendar/planning-calendar.component.ts:82 | for a start month in 1..12 the month of every header column lies in 1..12; Dafny's `%` agrees with line 82's JavaScript `%` only on non-negative operands |
| Months.SpanMonth | src/app/planning-calendar/planning-calendar.component.ts:117-121 | the month `i` steps after `month` is always the month of some header column |
| Months.SpanMonthsDistinct | src/app/planning-calendar/planning-calendar.component.ts:117-121 | with distinct header months, the months 1 .. 11 steps after a month are pairwise different, also when the span wraps past the last column |
| Months.SpanMonthNotPrimary | src/app/planning-calendar/planning-calendar.component.ts:117-121 | fewer than twelve steps never lead back to the month itself |
| Months.ClampDuration | src/app/planning-calendar/planning-calendar.component.ts:51-56 | the clamped duration lies in `[1, 13 - column]`; inside that window the requested duration is kept, below it the result is 1 and above it `13 - column` |
| Months.ClampedSpanDoesNotWrap | src/app/planning-calendar/planning-calendar.component.ts:53-56 | for a duration in the clamp window the i-th span month sits at column `column + i <= 12` and is never the primary month |
| Text.Trim | src/app/planning-calendar/planning-calendar.component.ts:154 | the trimmed draft is a slice of the draft with only white space cut off before and after it; it is empty exactly when the draft is all white space, and otherwise starts and ends with a non-space character |
| Types.OrOne | src/app/planning-calendar/planning-calendar.component.ts:109 | `duration \|\| 1` is never 0 and keeps any non-zero stored duration |
| Types.DefaultsDifferOnlyAtZero | src/app/planning-calendar/planning-calendar.component.ts:102 | the parameter default `= 1` and `\|\| 1` agree on every duration except a stored 0, which the default keeps and `\|\| 1` turns into 1 |
| Grid.MarkSpan | src/app/planning-calendar/planning-calendar.component.ts:117-121 | a span loop adds and removes no cell and changes no cell's data |
| Grid.ClearRow | src/app/planning-calendar/planning-calendar.component.ts:129-137 | clearing a row keeps every cell and leaves the primary cell without data |
| Grid.SetRow | src/app/planning-calendar/planning-calendar.component.ts:103-121 | setting a row adds only the primary month, whose cell then holds the new entry |
| Grid.DeleteGrid | src/app/planning-calendar/planning-calendar.component.ts:163-168 | deleteEntry adds and removes no row, leaves other rows alone, leaves the cell without data, and changes nothing when the cell had none |
| Grid.Saved | src/app/planning-calendar/planning-calendar.component.ts:205-213 | the collected entries all have a non-empty value |
| Grid.SetGrid | src/app/planning-calendar/planning-calendar.component.ts:102-104 | no row is added or removed and every other row is unchanged; an unknown row leaves the grid as it is |
| Grid.ClearGrid | src/app/planning-calendar/planning-calendar.component.ts:124-126 | no row is added or removed and every other row is unchanged; an unknown row leaves the grid as it is |
| Grid.EmptyRow | src/app/planning-calendar/planning-calendar.component.ts:90-93 | one visible empty cell per header month and no other key |
| Grid.EmptyGrid | src/app/planning-calendar/planning-calendar.component.ts:88-95 | one row per row id of the configuration, each an empty row |
| Grid.LoadEntries | src/app/planning-calendar/planning-calendar.component.ts:97-99 | applying the initial entries never adds or removes a row |
| GridProperties.ClearRowEffect | src/app/planning-calendar/planning-calendar.component.ts:124-138 | clearData removes no cell; the primary cell loses its data and keeps `isHidden`, unless a duration over twelve wraps the span onto it, which makes it visible; every span cell becomes visible; all other cells are unchanged |
| GridProperties.SetRowEffect | src/app/planning-calendar/planning-calendar.component.ts:102-122 | setData adds only the primary month. The primary cell holds the new entry. Span cells are hidden and keep their data. Cells of the released prior span outside the new span are visible. Every other cell is unchanged |
| GridProperties.SpanStep | src/app/planning-calendar/planning-calendar.component.ts:117-118 | one more loop turn adds exactly the next span month |
| GridProperties.MarkSpanStep | src/app/planning-calendar/planning-calendar.component.ts:117-121 | one turn of the span loop updates exactly the next span month, when the row has it |
| GridProperties.SpanDefaultsAgree | src/app/planning-calendar/planning-calendar.component.ts:109 | the parameter default and `|| 1` release the same span for any stored duration |
| GridProperties.SpanAvoidsPrimary | src/app/planning-calendar/planning-calendar.component.ts:55-56 | within the clamp window a span never covers its own primary month |
| GridProperties.SpanWithinTwelve | src/app/planning-calendar/planning-calendar.component.ts:117-121 | for any duration up to 12 and any month, the span never covers its primary month, its months are pairwise different, and it holds exactly `duration - 1` months |
| GridProperties.PlacedSpanCount | src/app/planning-calendar/planning-calendar.component.ts:113-121 | placing an entry of any duration 1..12 in a full row leaves its primary cell visible with the entry, and its span holds exactly `duration - 1` months, each present and hidden |
| GridProperties.SetRowIdempotent | src/app/planning-calendar/planning-calendar.component.ts:102-122 | storing the same entry twice leaves the row as storing it once |
| GridProperties.SetGridIdempotent | src/app/planning-calendar/planning-calendar.component.ts:102-122 | storing the same entry twice leaves the grid as storing it once |
| GridProperties.ReadAfterSet | src/app/planning-calendar/planning-calendar.component.ts:144-146 | after setData on a known row the cell lookup finds data with the stored value and duration; an unknown row reads as before, and other rows read as before |
| GridProperties.ReadAfterDelete | src/app/planning-calendar/planning-calendar.component.ts:163-168 | after deleteEntry the cell has no data, reads as value `''` and no duration, and is still present exactly when it was |
| GridProperties.SetGridKeepsNoOrphans | src/app/planning-calendar/planning-calendar.component.ts:102-122 | setData on the grid keeps every hidden cell of every row covered by the span of some entry of its row |
| GridProperties.DeleteGridKeepsNoOrphans | src/app/planning-calendar/planning-calendar.component.ts:163-168 | deleteEntry on the grid keeps every hidden cell of every row covered by the span of a remaining entry |
| GridProperties.PlacedSpanLayout | src/app/planning-calendar/planning-calendar.component.ts:113-121 | a placed entry in the clamp window, in a row with a cell for every header month, has a visible primary cell holding it, and for each i < d the month at column `column + i` is present and hidden |
| GridProperties.ReplaceLeavesNoStaleHidden | src/app/planning-calendar/planning-calendar.component.ts:106-110 | if the only hidden cells were those of the entry being replaced, after setData every hidden cell lies in the new span |
| GridProperties.SetRowKeepsNoOrphans | src/app/planning-calendar/planning-calendar.component.ts:102-122 | setData keeps every hidden cell covered by the span of some entry of the row |
| GridProperties.DeleteRowKeepsNoOrphans | src/app/planning-calendar/planning-calendar.component.ts:163-168 | deleteEntry keeps every hidden cell covered by the span of a remaining entry |
| GridProperties.ExistingEntryIsPrimary | src/app/planning-calendar/planning-calendar.component.ts:107-108 | when entries sit under their own month, the prior-entry `find` matches exactly the primary cell, so it reads as `row.get(month)?.data` |
| GridProperties.SetGridConsistent | src/app/planning-calendar/planning-calendar.component.ts:113-114 | setData keeps every entry under its own row id and month, with a duration |
| GridProperties.ClearGridConsistent | src/app/planning-calendar/planning-calendar.component.ts:128-130 | clearData keeps every entry under its own row id and month, with a duration |
| Serialisation.SetGridSaved | src/app/planning-calendar/planning-calendar.component.ts:205-213 | after setData the collected set loses whatever sat at `(rowId, month)` and gains the new entry when its value is non-empty; an unknown row changes nothing |
| Serialisation.DeleteGridSaved | src/app/planning-calendar/planning-calendar.component.ts:163-168 | after deleteEntry the collected set is the old one without the entry at `(rowId, month)` |
| Serialisation.SavedByKey | src/app/planning-calendar/planning-calendar.component.ts:207-211 | an entry is collected exactly when it is stored with a non-empty value under its own row id and month |
| Serialisation.LoadedGridWellFormed | src/app/planning-calendar/planning-calendar.component.ts:87-100 | the grid built from any initial data stores each entry under its own key, with a duration, and has no orphaned hidden cell |
| Serialisation.LoadThenSave | src/app/planning-calendar/planning-calendar.component.ts:87-100 | with distinct `(rowId, month)` keys, saving after loading gives exactly the entries of known rows with a non-empty value, durations defaulted to 1 |
| Serialisation.NonOverlappingHasDistinctKeys | src/app/planning-calendar/planning-calendar.component.ts:97-99 | entries whose spans do not overlap have distinct keys, so the round trip applies to them; this holds by definition, since `NonOverlapping` also asks for distinct start months of a row |
| Component.PlanningCalendarComponent.constructor | src/app/planning-calendar/planning-calendar.component.ts:24-42 | the component starts with no headers, an empty grid and idle edit and resize state |
| Component.PlanningCalendarComponent.NgOnChanges | src/app/planning-calendar/planning-calendar.component.ts:72-77 | a new configuration regenerates the header ring and rebuilds the grid from the row headers and initial data; edit and resize state are untouched |
| Component.PlanningCalendarComponent.GenerateMonthHeaders | src/app/planning-calendar/planning-calendar.component.ts:79-85 | the loop leaves twelve headers, the i-th for month `(start - 1 + i) % 12 + 1` with its abbreviation |
| Component.PlanningCalendarComponent.ProcessInitialData | src/app/planning-calendar/planning-calendar.component.ts:87-100 | the grid becomes one empty row per row header with each initial entry applied in order through setData |
| Component.PlanningCalendarComponent.NewRowMap | src/app/planning-calendar/planning-calendar.component.ts:90-93 | the row map holds one visible empty cell per header month |
| Component.PlanningCalendarComponent.SetData | src/app/planning-calendar/planning-calendar.component.ts:102-122 | calls clearData on an existing entry first, then places the entry and hides its span, leaving exactly `SetGrid` of the old grid and keeping entries under their own keys |
| Component.PlanningCalendarComponent.ClearData | src/app/planning-calendar/planning-calendar.component.ts:124-138 | leaves exactly `ClearGrid` of the old grid |
| Component.PlanningCalendarComponent.MarkSpanCells | src/app/planning-calendar/planning-calendar.component.ts:117-121 | the span loop sets `isHidden` on exactly the span months present in the row |
| Component.PlanningCalendarComponent.IsCellActive | src/app/planning-calendar/planning-calendar.component.ts:196-198 | true exactly when the active cell is `(rowId, month)` |
| Component.PlanningCalendarComponent.OnCellClick | src/app/planning-calendar/planning-calendar.component.ts:140-147 | ignored for the active cell or during a resize; otherwise the cell becomes active with its value, or `''`, as draft |
| Component.PlanningCalendarComponent.EditDraft | src/app/planning-calendar/planning-calendar.component.ts:28 | the draft becomes the typed text |
| Component.PlanningCalendarComponent.SaveEdit | src/app/planning-calendar/planning-calendar.component.ts:149-161 | with no active cell nothing changes. Otherwise a blank draft deletes the entry and any other draft is stored with the current duration `|| 1`. Either way the component ends idle with an empty draft |
| Component.PlanningCalendarComponent.DeleteEntry | src/app/planning-calendar/planning-calendar.component.ts:163-168 | a cell with data loses its entry and span and editing ends; a cell without data changes nothing |
| Component.PlanningCalendarComponent.ClearActiveState | src/app/planning-calendar/planning-calendar.component.ts:200-203 | no cell is active and the draft is empty |
| Component.PlanningCalendarComponent.OnResizeStart | src/app/planning-calendar/planning-calendar.component.ts:170-189 | a resize starts only on a cell with data; it records the row, month and duration `|| 1` |
| Component.PlanningCalendarComponent.OnResizeMove | src/app/planning-calendar/planning-calendar.component.ts:45-62 | outside a resize nothing changes; otherwise the entry is re-placed with the clamped duration exactly when the cell has data and its duration differs |
| Component.PlanningCalendarComponent.OnResizeEnd | src/app/planning-calendar/planning-calendar.component.ts:64-70 | every resize ends |
| Component.PlanningCalendarComponent.GetCalendarData | src/app/planning-calendar/planning-calendar.component.ts:205-215 | the list holds exactly the stored entries with a non-empty value, each once |
| Scenarios.DemoRoundTrip | src/app/app.ts:35-39 | saving right after loading the demo configuration gives back its three entries |
| Scenarios.DemoLayout | src/app/app.ts:36-38 | Meta covers June and July, TikTok July to September and Inbound October to December: visible primary cells, hidden spans |
| Scenarios.DemoSpans | src/app/app.ts:22 | in a calendar starting in June the demo months sit at columns 1, 2 and 5, with the span months following them |
| Scenarios.DemoShrinkMeta | src/app/planning-calendar/planning-calendar.component.ts:58-61 | shrinking the Meta entry to one month stores duration 1 and makes July visible again |
| Scenarios.DemoSave | src/app/app.ts:20-47 | the demo host's load-then-save emits exactly the three demo entries, each once |

## Left out

- Angular plumbing is not modelled: the decorators, `@Input`/`@Output`, change detection and the `changes['config'] && this.config` guard. `NgOnChanges` takes the new configuration as an argument.
- `onResizeStart` does not model the DOM work: `preventDefault`, `stopPropagation` and the `querySelector('.data-col')` lookup. Whether a cell could be measured is the boolean `referenceCellFound`, and the pointer position and cell width are not kept in `ResizeInfo`.
- `onResizeMove` does not model the floating-point `Math.round(deltaX / cellWidth)`: `OnResizeMove` receives the month change as an integer.
- `onSave.emit` is not modelled: `GetCalendarData` returns the list instead.
- GetCalendarData: the order of the list is not modelled. The model visits rows and months in an unspecified order, while the source follows the `Map` insertion order. The contract states the set of entries and that none repeats.
- NgOnChanges: requires a start month in 1..12, the range `planning-calendar.model.ts` documents for `startMonth`. A start month of 0 or below would give a header with month 0 or below and an `undefined` label, which the model does not represent. A start month of 13 or more behaves in the source like `((startMonth - 1) % 12) + 1` (13 is January); the model excludes it too rather than carry the unnormalised start month through its lemmas.
- Number row keys, months and durations are modelled as unbounded integers, not IEEE doubles. A fractional duration such as 2.5, which the source's span loop would run at i = 1 and 2 and then store as 2.5, cannot be represented.
- Months.RingMonth: computes with Dafny's Euclidean `%`, so for a start month of 0 or below it still yields a month in 1..12, where the source's truncating `%` gives month 0 or below; such start months are excluded by the requires of `NgOnChanges`.
- The `src/app/app.ts` host's `console.log`, `alert` and `ViewChild` are left out. Its configuration is used only as the scenario in `Scenarios`.
- Rendering, the template and the CSS (`planning-calendar.component.html`, `.css`) are not part of this model. The draft's two-way binding appears only as `EditDraft`.
