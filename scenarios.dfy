/**
 * The demo host of app.ts: ten marketing rows, a calendar starting in June
 * and three initial entries whose spans do not overlap.
 */
module Scenarios {
  import opened Wrappers
  import opened Types
  import opened Months
  import opened Grid
  import opened GridProperties
  import opened Serialisation
  import opened Component

  const DemoRows: seq<RowHeader> := [
    RowHeader(Text("google"), "Google"),
    RowHeader(Text("meta"), "Meta"),
    RowHeader(Text("linkedin"), "LinkedIn"),
    RowHeader(Text("tiktok"), "TikTok"),
    RowHeader(Text("outbound"), "Outbound Sales"),
    RowHeader(Text("inbound"), "Inbound Leads"),
    RowHeader(Text("affiliate"), "Affiliate Marketing"),
    RowHeader(Text("events"), "Industry Events"),
    RowHeader(Text("partners"), "Partnerships"),
    RowHeader(Text("seo"), "SEO Optimization")
  ]

  const MetaEntry := CalendarData(Text("meta"), 6, "$100,000", Some(2))
  const TikTokEntry := CalendarData(Text("tiktok"), 7, "$50,000", Some(3))
  const InboundEntry := CalendarData(Text("inbound"), 10, "Q4 Push", Some(3))

  const DemoEntries: seq<CalendarData> := [MetaEntry, TikTokEntry, InboundEntry]

  const DemoConfig := Config("Marketing Tactic", DemoRows, 6, DemoEntries)

  /** The demo entries have distinct keys and all belong to known rows. */
  lemma DemoExpected()
    ensures DistinctKeys(DemoEntries)
    ensures Expected(DemoRows, DemoEntries) == {MetaEntry, TikTokEntry, InboundEntry}
  {
    assert DemoRows[1].id == MetaEntry.rowId;
    assert DemoRows[3].id == TikTokEntry.rowId;
    assert DemoRows[5].id == InboundEntry.rowId;
    forall e | e in Expected(DemoRows, DemoEntries) ensures e == MetaEntry || e == TikTokEntry || e == InboundEntry {
    }
  }

  /**
   * Saving right after loading the demo configuration gives back exactly
   * its three entries.
   */
  lemma DemoRoundTrip(hs: seq<MonthHeader>)
    requires |hs| == 12
    ensures Saved(LoadEntries(EmptyGrid(DemoRows, hs), hs, DemoEntries)) == {MetaEntry, TikTokEntry, InboundEntry}
  {
    DemoExpected();
    LoadThenSave(DemoRows, hs, DemoEntries);
  }

  /** The grid has a hidden cell at `(rowId, month)`. */
  predicate HiddenAt(g: CalendarGrid, rowId: RowKey, month: int) {
    rowId in g && month in g[rowId] && g[rowId][month].isHidden
  }

  /** The rows the demo entries name are among the demo rows. */
  lemma DemoRowsKnown()
    ensures MetaEntry.rowId in RowIds(DemoRows)
    ensures TikTokEntry.rowId in RowIds(DemoRows)
    ensures InboundEntry.rowId in RowIds(DemoRows)
  {
    assert DemoRows[1].id == MetaEntry.rowId;
    assert DemoRows[3].id == TikTokEntry.rowId;
    assert DemoRows[5].id == InboundEntry.rowId;
  }

  /** Loading the demo entries is three setData calls in order. */
  lemma DemoLoadSteps(hs: seq<MonthHeader>, eg: CalendarGrid)
    requires |hs| == 12
    ensures var g1 := SetGrid(hs, eg, MetaEntry.rowId, 6, MetaEntry.value, 2);
      var g2 := SetGrid(hs, g1, TikTokEntry.rowId, 7, TikTokEntry.value, 3);
      LoadEntries(eg, hs, DemoEntries) == SetGrid(hs, g2, InboundEntry.rowId, 10, InboundEntry.value, 3)
  {
    var g1 := SetGrid(hs, eg, MetaEntry.rowId, 6, MetaEntry.value, 2);
    var g2 := SetGrid(hs, g1, TikTokEntry.rowId, 7, TikTokEntry.value, 3);
    assert DemoEntries[..2] == [MetaEntry, TikTokEntry];
    assert [MetaEntry, TikTokEntry][..1] == [MetaEntry];
    assert [MetaEntry][..0] == [];
    assert LoadEntries(eg, hs, [MetaEntry]) == g1;
    assert LoadEntries(eg, hs, [MetaEntry, TikTokEntry]) == g2;
  }

  /**
   * The spans of the demo: the Meta entry covers June and July, TikTok
   * July to September and Inbound October to December; each primary cell
   * is visible and the months it spans are hidden.
   */
  lemma DemoLayout(hs: seq<MonthHeader>)
    requires IsHeaderRing(hs, 6)
    ensures var g := LoadEntries(EmptyGrid(DemoRows, hs), hs, DemoEntries);
      && Lookup(g, MetaEntry.rowId, 6) == Some(Cell(false, Some(MetaEntry)))
      && HiddenAt(g, MetaEntry.rowId, 7)
      && Lookup(g, TikTokEntry.rowId, 7) == Some(Cell(false, Some(TikTokEntry)))
      && HiddenAt(g, TikTokEntry.rowId, 8) && HiddenAt(g, TikTokEntry.rowId, 9)
      && Lookup(g, InboundEntry.rowId, 10) == Some(Cell(false, Some(InboundEntry)))
      && HiddenAt(g, InboundEntry.rowId, 11) && HiddenAt(g, InboundEntry.rowId, 12)
  {
    DemoPlacedRows(hs);
    DemoLoadedRows(hs);
  }

  /** The three demo entries, each placed on an empty row of a June calendar. */
  lemma DemoPlacedRows(hs: seq<MonthHeader>)
    requires IsHeaderRing(hs, 6)
    ensures var r := SetRow(hs, EmptyRow(hs), MetaEntry.rowId, 6, MetaEntry.value, 2);
      6 in r && r[6] == Cell(false, Some(MetaEntry)) && 7 in r && r[7].isHidden
    ensures var r := SetRow(hs, EmptyRow(hs), TikTokEntry.rowId, 7, TikTokEntry.value, 3);
      7 in r && r[7] == Cell(false, Some(TikTokEntry)) && 8 in r && r[8].isHidden && 9 in r && r[9].isHidden
    ensures var r := SetRow(hs, EmptyRow(hs), InboundEntry.rowId, 10, InboundEntry.value, 3);
      10 in r && r[10] == Cell(false, Some(InboundEntry)) && 11 in r && r[11].isHidden && 12 in r && r[12].isHidden
  {
    DemoSpans(hs);
    DemoRowLayout(hs, MetaEntry, 2);
    DemoRowLayout(hs, TikTokEntry, 3);
    DemoRowLayout(hs, InboundEntry, 3);
  }

  /** One demo entry placed on an empty row: its cell is visible, its span hidden. */
  lemma DemoRowLayout(hs: seq<MonthHeader>, e: CalendarData, d: int)
    requires IsHeaderRing(hs, 6)
    requires e.duration == Some(d) && 1 <= d <= 13 - MonthColumn(hs, e.month)
    ensures var r := SetRow(hs, EmptyRow(hs), e.rowId, e.month, e.value, d);
      && e.month in r && r[e.month] == Cell(false, Some(e))
      && forall i :: 1 <= i < d ==> SpanMonth(hs, e.month, i) in r && r[SpanMonth(hs, e.month, i)].isHidden
  {
    HeaderRingIsPermutation(hs, 6);
    PlacedSpanLayout(hs, 6, EmptyRow(hs), e.rowId, e.month, e.value, d);
  }

  /** Each demo row of the loaded grid is one setData on an empty row. */
  lemma DemoLoadedRows(hs: seq<MonthHeader>)
    requires |hs| == 12
    ensures var g := LoadEntries(EmptyGrid(DemoRows, hs), hs, DemoEntries);
      && MetaEntry.rowId in g && TikTokEntry.rowId in g && InboundEntry.rowId in g
      && g[MetaEntry.rowId] == SetRow(hs, EmptyRow(hs), MetaEntry.rowId, 6, MetaEntry.value, 2)
      && g[TikTokEntry.rowId] == SetRow(hs, EmptyRow(hs), TikTokEntry.rowId, 7, TikTokEntry.value, 3)
      && g[InboundEntry.rowId] == SetRow(hs, EmptyRow(hs), InboundEntry.rowId, 10, InboundEntry.value, 3)
  {
    DemoRowsKnown();
    LoadedRowsOf(hs, EmptyGrid(DemoRows, hs));
  }

  /** Loading the demo entries into any grid whose demo rows are empty. */
  lemma LoadedRowsOf(hs: seq<MonthHeader>, eg: CalendarGrid)
    requires |hs| == 12
    requires MetaEntry.rowId in eg && TikTokEntry.rowId in eg && InboundEntry.rowId in eg
    requires eg[MetaEntry.rowId] == EmptyRow(hs) && eg[TikTokEntry.rowId] == EmptyRow(hs)
    requires eg[InboundEntry.rowId] == EmptyRow(hs)
    ensures var g := LoadEntries(eg, hs, DemoEntries);
      && MetaEntry.rowId in g && TikTokEntry.rowId in g && InboundEntry.rowId in g
      && g[MetaEntry.rowId] == SetRow(hs, EmptyRow(hs), MetaEntry.rowId, 6, MetaEntry.value, 2)
      && g[TikTokEntry.rowId] == SetRow(hs, EmptyRow(hs), TikTokEntry.rowId, 7, TikTokEntry.value, 3)
      && g[InboundEntry.rowId] == SetRow(hs, EmptyRow(hs), InboundEntry.rowId, 10, InboundEntry.value, 3)
  {
    DemoLoadSteps(hs, eg);
    var g1 := SetGrid(hs, eg, MetaEntry.rowId, 6, MetaEntry.value, 2);
    var g2 := SetGrid(hs, g1, TikTokEntry.rowId, 7, TikTokEntry.value, 3);
    assert g2[MetaEntry.rowId] == g1[MetaEntry.rowId];
  }

  /** The columns and span months of the demo entries in a calendar starting in June. */
  lemma DemoSpans(hs: seq<MonthHeader>)
    requires IsHeaderRing(hs, 6)
    ensures MonthColumn(hs, 6) == 1 && MonthColumn(hs, 7) == 2 && MonthColumn(hs, 10) == 5
    ensures SpanMonth(hs, 6, 1) == 7
    ensures SpanMonth(hs, 7, 1) == 8 && SpanMonth(hs, 7, 2) == 9
    ensures SpanMonth(hs, 10, 1) == 11 && SpanMonth(hs, 10, 2) == 12
  {
    ColumnOfMonth(hs, 6, 6);
    ColumnOfMonth(hs, 6, 7);
    ColumnOfMonth(hs, 6, 10);
    assert hs[1].month == RingMonth(6, 1) == 7;
    assert hs[2].month == RingMonth(6, 2) == 8;
    assert hs[3].month == RingMonth(6, 3) == 9;
    assert hs[5].month == RingMonth(6, 5) == 11;
    assert hs[6].month == RingMonth(6, 6) == 12;
  }

  /**
   * Dragging the Meta entry back to one month: the re-placed entry is
   * stored with duration 1 and July, released from its old span, is
   * visible again.
   */
  lemma DemoShrinkMeta(hs: seq<MonthHeader>)
    requires IsHeaderRing(hs, 6)
    ensures var placed := SetRow(hs, EmptyRow(hs), MetaEntry.rowId, 6, MetaEntry.value, 2);
      var shrunk := SetRow(hs, placed, MetaEntry.rowId, 6, MetaEntry.value, 1);
      && 7 in shrunk && !shrunk[7].isHidden
      && shrunk[6] == Cell(false, Some(MetaEntry.(duration := Some(1))))
  {
    DemoPlacedRows(hs);
    DemoSpans(hs);
    ShrinkPlacedMeta(hs, SetRow(hs, EmptyRow(hs), MetaEntry.rowId, 6, MetaEntry.value, 2));
  }

  /** The shrink step on a row where the Meta entry spans June and July. */
  lemma ShrinkPlacedMeta(hs: seq<MonthHeader>, placed: Row)
    requires |hs| == 12 && SpanMonth(hs, 6, 1) == 7
    requires 6 in placed && placed[6] == Cell(false, Some(MetaEntry)) && 7 in placed
    ensures var shrunk := SetRow(hs, placed, MetaEntry.rowId, 6, MetaEntry.value, 1);
      && 7 in shrunk && !shrunk[7].isHidden
      && shrunk[6] == Cell(false, Some(MetaEntry.(duration := Some(1))))
  {
    SpanStep(hs, 6, 1);
    SpanEmpty(hs, 6, 1);
    assert 7 in PriorSpan(hs, placed, 6);
    ShrinkToOne(hs, placed, MetaEntry.rowId, 6, MetaEntry.value, 7);
  }

  /** Re-placing an entry with duration 1 makes every cell of its old span visible. */
  lemma ShrinkToOne(hs: seq<MonthHeader>, row: Row, rowId: RowKey, month: int, value: string, k: int)
    requires |hs| == 12 && k in row && k != month && k in PriorSpan(hs, row, month)
    ensures var r := SetRow(hs, row, rowId, month, value, 1);
      && k in r && !r[k].isHidden
      && r[month] == Cell(false, Some(CalendarData(rowId, month, value, Some(1))))
  {
    SpanEmpty(hs, month, 1);
    SetRowEffect(hs, row, rowId, month, value, 1);
  }

  /** What a component that has just loaded the demo configuration saves. */
  lemma DemoSavedFrom(hs: seq<MonthHeader>, g: CalendarGrid)
    requires IsHeaderRing(hs, 6)
    requires g == LoadEntries(EmptyGrid(DemoConfig.rowHeaders, hs), hs, DemoConfig.initialData)
    ensures forall e :: e in Saved(g) <==> e == MetaEntry || e == TikTokEntry || e == InboundEntry
  {
    DemoRoundTrip(hs);
  }

  /**
   * The demo host's life cycle: the component receives the demo
   * configuration, the user presses save, and the emitted list holds the
   * three demo entries, each once.
   */
  method DemoSave() returns (saved: seq<CalendarData>)
    ensures forall e :: e in saved <==> e == MetaEntry || e == TikTokEntry || e == InboundEntry
    ensures forall i, j :: 0 <= i < j < |saved| ==> saved[i] != saved[j]
  {
    var calendar := new PlanningCalendarComponent();
    calendar.NgOnChanges(DemoConfig);
    DemoSavedFrom(calendar.monthHeaders, calendar.calendarData);
    saved := calendar.GetCalendarData();
  }
}
