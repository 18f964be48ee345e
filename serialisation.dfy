/**
 * getCalendarData as a set of entries: how setData and deleteEntry change
 * it, and the round trip from processInitialData's input to it.
 */
module Serialisation {
  import opened Wrappers
  import opened Types
  import opened Grid
  import opened GridProperties

  /**
   * setData on a known row replaces whatever entry was saved under
   * `(rowId, month)` by the new one (which is saved only with a non-empty
   * value); every other saved entry stays. An unknown row changes nothing.
   */
  lemma SetGridSaved(hs: seq<MonthHeader>, g: CalendarGrid, rowId: RowKey, month: int, value: string, duration: int)
    requires |hs| == 12 && GridConsistent(g)
    ensures Saved(SetGrid(hs, g, rowId, month, value, duration)) ==
      if rowId !in g then Saved(g)
      else Without(Saved(g), rowId, month)
           + (if value != "" then {CalendarData(rowId, month, value, Some(duration))} else {})
  {
    if rowId in g {
      var g' := SetGrid(hs, g, rowId, month, value, duration);
      var entry := CalendarData(rowId, month, value, Some(duration));
      var expected := Without(Saved(g), rowId, month) + (if value != "" then {entry} else {});
      SetRowEffect(hs, g[rowId], rowId, month, value, duration);
      forall e | e in Saved(g') ensures e in expected {
        var r, k :| r in g' && k in g'[r] && IsSaved(g'[r][k]) && g'[r][k].data.value == e;
        if r == rowId && k == month {
          assert e == entry;
        } else {
          assert k in g[r] && g[r][k].data == g'[r][k].data;
          assert e in Saved(g);
        }
      }
      forall e | e in expected ensures e in Saved(g') {
        if e == entry && value != "" {
          assert IsSaved(g'[rowId][month]);
        } else {
          var r, k :| r in g && k in g[r] && IsSaved(g[r][k]) && g[r][k].data.value == e;
          assert r != rowId || k != month;
          assert k in g'[r] && g'[r][k].data == g[r][k].data;
        }
      }
    }
  }

  /**
   * deleteEntry removes exactly the entry saved under `(rowId, month)`, so
   * getCalendarData afterwards omits it and nothing else changes.
   */
  lemma DeleteGridSaved(hs: seq<MonthHeader>, g: CalendarGrid, rowId: RowKey, month: int)
    requires |hs| == 12 && GridConsistent(g)
    ensures Saved(DeleteGrid(hs, g, rowId, month)) == Without(Saved(g), rowId, month)
  {
    var g' := DeleteGrid(hs, g, rowId, month);
    if HasData(g, rowId, month) {
      ClearRowEffect(hs, g[rowId], month, DurationOrDefault(DurationAt(g, rowId, month)));
      forall e | e in Saved(g') ensures e in Without(Saved(g), rowId, month) {
        var r, k :| r in g' && k in g'[r] && IsSaved(g'[r][k]) && g'[r][k].data.value == e;
        assert k in g[r] && g[r][k].data == g'[r][k].data;
      }
      forall e | e in Without(Saved(g), rowId, month) ensures e in Saved(g') {
        var r, k :| r in g && k in g[r] && IsSaved(g[r][k]) && g[r][k].data.value == e;
        assert k in g'[r] && g'[r][k].data == g[r][k].data;
      }
    } else {
      forall e | e in Saved(g) ensures e.rowId != rowId || e.month != month {
        var r, k :| r in g && k in g[r] && IsSaved(g[r][k]) && g[r][k].data.value == e;
      }
    }
  }

  /** With every entry under its own key, a saved entry is found by its row id and month alone. */
  lemma SavedByKey(g: CalendarGrid)
    requires GridConsistent(g)
    ensures forall e :: e in Saved(g) <==> SavedAtOwnKey(g, e)
  {
    forall e | SavedAtOwnKey(g, e) ensures e in Saved(g) {
      assert e.rowId in g && e.month in g[e.rowId] && IsSaved(g[e.rowId][e.month]);
    }
  }

  /** No two entries of the list share a row id and a start month. */
  ghost predicate DistinctKeys(entries: seq<CalendarData>) {
    forall i, j :: 0 <= i < j < |entries| ==> entries[i].rowId != entries[j].rowId || entries[i].month != entries[j].month
  }

  /** Two entries overlap when they share a row and one starts inside the other's months. */
  ghost predicate NonOverlapping(hs: seq<MonthHeader>, entries: seq<CalendarData>)
    requires |hs| == 12
  {
    forall i, j :: 0 <= i < |entries| && 0 <= j < |entries| && i != j && entries[i].rowId == entries[j].rowId ==>
      entries[i].month != entries[j].month
      && entries[i].month !in Span(hs, entries[j].month, DurationOrDefault(entries[j].duration))
  }

  /** An input entry as setData stores it: its duration defaulted to 1. */
  function Stored(e: CalendarData): CalendarData {
    e.(duration := Some(DurationOrDefault(e.duration)))
  }

  /** The input entries of known rows with a non-empty value, as stored. */
  function Expected(rows: seq<RowHeader>, entries: seq<CalendarData>): set<CalendarData> {
    set e | e in entries && e.rowId in RowIds(rows) && e.value != "" :: Stored(e)
  }

  /** The grid processInitialData builds keeps every entry under its own key, with no orphaned hidden cell. */
  lemma {:induction false} LoadedGridWellFormed(rows: seq<RowHeader>, hs: seq<MonthHeader>, entries: seq<CalendarData>)
    requires |hs| == 12
    ensures GridConsistent(LoadEntries(EmptyGrid(rows, hs), hs, entries))
    ensures GridNoOrphans(hs, LoadEntries(EmptyGrid(rows, hs), hs, entries))
  {
    if entries != [] {
      var prefix := entries[..|entries| - 1];
      var last := entries[|entries| - 1];
      var g := LoadEntries(EmptyGrid(rows, hs), hs, prefix);
      LoadedGridWellFormed(rows, hs, prefix);
      SetGridConsistent(hs, g, last.rowId, last.month, last.value, DurationOrDefault(last.duration));
      if last.rowId in g {
        SetRowKeepsNoOrphans(hs, g[last.rowId], last.rowId, last.month, last.value, DurationOrDefault(last.duration));
      }
    }
  }

  lemma ExpectedSnoc(rows: seq<RowHeader>, prefix: seq<CalendarData>, last: CalendarData)
    ensures Expected(rows, prefix + [last]) ==
      Expected(rows, prefix) + (if last.rowId in RowIds(rows) && last.value != "" then {Stored(last)} else {})
  {
    var entries := prefix + [last];
    forall e | e in Expected(rows, entries)
      ensures e in Expected(rows, prefix) || (last.rowId in RowIds(rows) && last.value != "" && e == Stored(last))
    {
      var x :| x in entries && x.rowId in RowIds(rows) && x.value != "" && Stored(x) == e;
      if x != last { assert x in prefix; }
    }
  }

  /** Under distinct keys, no earlier entry is keyed like the last one. */
  lemma ExpectedAvoidsLastKey(rows: seq<RowHeader>, entries: seq<CalendarData>)
    requires entries != [] && DistinctKeys(entries)
    ensures var last := entries[|entries| - 1];
      Without(Expected(rows, entries[..|entries| - 1]), last.rowId, last.month) == Expected(rows, entries[..|entries| - 1])
    ensures DistinctKeys(entries[..|entries| - 1])
  {
    var prefix := entries[..|entries| - 1];
    var last := entries[|entries| - 1];
    forall e | e in Expected(rows, prefix) ensures e.rowId != last.rowId || e.month != last.month {
      var x :| x in prefix && x.rowId in RowIds(rows) && x.value != "" && Stored(x) == e;
      var i :| 0 <= i < |prefix| && prefix[i] == x;
      assert entries[i] == x;
    }
    forall i, j | 0 <= i < j < |prefix|
      ensures prefix[i].rowId != prefix[j].rowId || prefix[i].month != prefix[j].month
    {
      assert prefix[i] == entries[i] && prefix[j] == entries[j];
    }
  }

  lemma EmptyGridSavesNothing(rows: seq<RowHeader>, hs: seq<MonthHeader>)
    ensures Saved(EmptyGrid(rows, hs)) == {}
  {
  }

  /**
   * Round trip: when no two input entries share a row and start month, the
   * entries getCalendarData returns after processInitialData are exactly
   * the input entries of known rows with a non-empty value, durations
   * defaulted to 1. Spans may overlap: a hidden cell keeps its own entry.
   */
  lemma {:induction false} LoadThenSave(rows: seq<RowHeader>, hs: seq<MonthHeader>, entries: seq<CalendarData>)
    requires |hs| == 12 && DistinctKeys(entries)
    ensures Saved(LoadEntries(EmptyGrid(rows, hs), hs, entries)) == Expected(rows, entries)
  {
    if entries == [] {
      EmptyGridSavesNothing(rows, hs);
    } else {
      var prefix := entries[..|entries| - 1];
      var last := entries[|entries| - 1];
      var g := LoadEntries(EmptyGrid(rows, hs), hs, prefix);
      ExpectedAvoidsLastKey(rows, entries);
      LoadThenSave(rows, hs, prefix);
      LoadedGridWellFormed(rows, hs, prefix);
      SetGridSaved(hs, g, last.rowId, last.month, last.value, DurationOrDefault(last.duration));
      assert entries == prefix + [last];
      ExpectedSnoc(rows, prefix, last);
    }
  }

  /** Entries whose spans do not overlap certainly have distinct keys. */
  lemma NonOverlappingHasDistinctKeys(hs: seq<MonthHeader>, entries: seq<CalendarData>)
    requires |hs| == 12 && NonOverlapping(hs, entries)
    ensures DistinctKeys(entries)
  {
  }
}
