/**
 * The rolling twelve-month header (generateMonthHeaders), the column lookup
 * (getMonthColumn), the "i-th month after" step used by span placement and
 * the resize clamp of planning-calendar.component.ts.
 */
module Months {
  import opened Types

  const MonthNames: seq<string> :=
    ["Jan", "Feb", "Mar", "Apr", "May", "Jun", "Jul", "Aug", "Sep", "Oct", "Nov", "Dec"]

  /** The month of column `i + 1` (0-based `i`) of a calendar starting at `startMonth`. */
  function RingMonth(startMonth: int, i: int): (m: int)
    ensures 1 <= m <= 12
  {
    (startMonth - 1 + i) % 12 + 1
  }

  /** `hs` is what the header loop leaves behind for `startMonth`. */
  ghost predicate IsHeaderRing(hs: seq<MonthHeader>, startMonth: int) {
    |hs| == 12 &&
    forall i :: 0 <= i < 12 ==>
      hs[i] == MonthHeader(RingMonth(startMonth, i), MonthNames[RingMonth(startMonth, i) - 1])
  }

  /** No month labels two columns. */
  ghost predicate DistinctMonths(hs: seq<MonthHeader>) {
    forall i, j :: 0 <= i < j < |hs| ==> hs[i].month != hs[j].month
  }

  /** `findIndex(h => h.month === month) + 1`: the 1-based column of `month`, 0 when absent. */
  function MonthColumn(hs: seq<MonthHeader>, month: int): (c: int)
    ensures 0 <= c <= |hs|
    ensures c > 0 ==> hs[c - 1].month == month
    ensures forall j :: 0 <= j < |hs| && (c == 0 || j < c - 1) ==> hs[j].month != month
  {
    if hs == [] then 0
    else if hs[0].month == month then 1
    else
      var c := MonthColumn(hs[1..], month);
      if c == 0 then 0 else c + 1
  }

  /**
   * The month `i` columns after `month`, wrapping past the last column:
   * `monthHeaders[(getMonthColumn(month) - 1 + i) % 12].month`.
   */
  function SpanMonth(hs: seq<MonthHeader>, month: int, i: int): (m: int)
    requires |hs| == 12 && i >= 1
    ensures m in MonthsOf(hs)
  {
    var j := (MonthColumn(hs, month) - 1 + i) % 12;
    assert hs[j].month in MonthsOf(hs);
    hs[j].month
  }

  /** The months that label some column. */
  function MonthsOf(hs: seq<MonthHeader>): set<int> {
    set i | 0 <= i < |hs| :: hs[i].month
  }

  lemma RingMonthDistinct(s: int, i: int, j: int)
    requires 0 <= i < j < 12
    ensures RingMonth(s, i) != RingMonth(s, j)
  {
    var a := (s - 1 + i) % 12;
    var q := (s - 1 + i) / 12;
    assert s - 1 + i == 12 * q + a;
    assert (s - 1 + j) == 12 * q + (a + (j - i));
    if a + (j - i) < 12 {
      assert (s - 1 + j) % 12 == a + (j - i);
    } else {
      assert (s - 1 + j) == 12 * (q + 1) + (a + (j - i) - 12);
      assert (s - 1 + j) % 12 == a + (j - i) - 12;
    }
  }

  /**
   * The twelve headers are a permutation of the months 1..12 starting at
   * `startMonth`, each with the abbreviation of its own month.
   */
  lemma HeaderRingIsPermutation(hs: seq<MonthHeader>, startMonth: int)
    requires 1 <= startMonth <= 12 && IsHeaderRing(hs, startMonth)
    ensures hs[0].month == startMonth
    ensures forall i :: 0 <= i < 12 ==> 1 <= hs[i].month <= 12 && hs[i].caption == MonthNames[hs[i].month - 1]
    ensures DistinctMonths(hs)
    ensures forall m :: m in MonthsOf(hs) <==> 1 <= m <= 12
  {
    forall i, j | 0 <= i < j < 12 ensures hs[i].month != hs[j].month {
      RingMonthDistinct(startMonth, i, j);
    }
    forall m | 1 <= m <= 12 ensures m in MonthsOf(hs) {
      var i := (m - startMonth + 12) % 12;
      RingMonthAtOffset(startMonth, m);
      assert hs[i].month == m;
    }
  }

  /** Month `m` is found `(m - startMonth + 12) % 12` columns after the start. */
  lemma RingMonthAtOffset(startMonth: int, m: int)
    requires 1 <= startMonth <= 12 && 1 <= m <= 12
    ensures 0 <= (m - startMonth + 12) % 12 < 12
    ensures RingMonth(startMonth, (m - startMonth + 12) % 12) == m
  {
    if m >= startMonth {
      assert (m - startMonth + 12) % 12 == m - startMonth;
    } else {
      assert (m - startMonth + 12) % 12 == m - startMonth + 12;
    }
  }

  /** Starting in November gives Nov, Dec, Jan, ..., Oct. */
  lemma HeadersFromNovember(hs: seq<MonthHeader>)
    requires IsHeaderRing(hs, 11)
    ensures seq(12, i requires 0 <= i < 12 => hs[i].month) == [11, 12, 1, 2, 3, 4, 5, 6, 7, 8, 9, 10]
    ensures hs[0].caption == "Nov" && hs[2].caption == "Jan" && hs[11].caption == "Oct"
  {
    assert hs[0].month == 11 && hs[1].month == 12 && hs[2].month == 1 && hs[3].month == 2;
    assert hs[4].month == 3 && hs[5].month == 4 && hs[6].month == 5 && hs[7].month == 6;
    assert hs[8].month == 7 && hs[9].month == 8 && hs[10].month == 9 && hs[11].month == 10;
  }

  /** With distinct months the column of the header at position `j` is `j + 1`. */
  lemma ColumnOfPosition(hs: seq<MonthHeader>, j: int)
    requires DistinctMonths(hs)
    requires 0 <= j < |hs|
    ensures MonthColumn(hs, hs[j].month) == j + 1
  {
  }

  /**
   * Once the headers exist, every calendar month has a column in 1..12 that
   * holds it, at the rotation offset from the start month; any other number
   * has column 0.
   */
  lemma ColumnOfMonth(hs: seq<MonthHeader>, startMonth: int, m: int)
    requires 1 <= startMonth <= 12 && IsHeaderRing(hs, startMonth)
    ensures 1 <= m <= 12 ==> 1 <= MonthColumn(hs, m) <= 12 && hs[MonthColumn(hs, m) - 1].month == m
    ensures 1 <= m <= 12 ==> MonthColumn(hs, m) == (m - startMonth + 12) % 12 + 1
    ensures !(1 <= m <= 12) ==> MonthColumn(hs, m) == 0
  {
    HeaderRingIsPermutation(hs, startMonth);
    if 1 <= m <= 12 {
      var j := (m - startMonth + 12) % 12;
      RingMonthAtOffset(startMonth, m);
      assert hs[j].month == RingMonth(startMonth, j) == m;
      ColumnOfPosition(hs, j);
    }
  }

  /**
   * The `i`-th month after `month` sits `i` columns further on, modulo the
   * twelve columns: the last month of a span of `d` is at column
   * `column(month) + d - 1` (mod 12).
   */
  lemma ColumnOfSpanMonth(hs: seq<MonthHeader>, month: int, i: int)
    requires |hs| == 12 && DistinctMonths(hs) && i >= 1
    ensures MonthColumn(hs, SpanMonth(hs, month, i)) == (MonthColumn(hs, month) - 1 + i) % 12 + 1
  {
    ColumnOfPosition(hs, (MonthColumn(hs, month) - 1 + i) % 12);
  }

  /**
   * With distinct header months, the months `1 .. 11` steps after `month`
   * are pairwise different, even when the span wraps past December.
   */
  lemma SpanMonthsDistinct(hs: seq<MonthHeader>, month: int, i: int, j: int)
    requires |hs| == 12 && DistinctMonths(hs)
    requires 1 <= i < j < 12
    ensures SpanMonth(hs, month, i) != SpanMonth(hs, month, j)
  {
    RingMonthDistinct(MonthColumn(hs, month), i, j);
  }

  /** Fewer than twelve steps never lead back to the month itself. */
  lemma SpanMonthNotPrimary(hs: seq<MonthHeader>, month: int, i: int)
    requires |hs| == 12 && DistinctMonths(hs)
    requires 1 <= i < 12
    ensures SpanMonth(hs, month, i) != month
  {
    var c := MonthColumn(hs, month);
    if c > 0 {
      RingMonthDistinct(c, 0, i);
      assert RingMonth(c, 0) == c;
    }
  }

  function Max(a: int, b: int): int { if a >= b then a else b }
  function Min(a: int, b: int): int { if a <= b then a else b }

  /**
   * The resize rule: `min(max(1, initialDuration + monthChange), 13 - column)`.
   * The result never drops below one month nor runs past the twelfth column;
   * inside that window the requested duration is kept.
   */
  function ClampDuration(initialDuration: int, monthChange: int, column: int): (d: int)
    requires 0 <= column <= 12
    ensures 1 <= d <= 13 - column
    ensures 1 <= initialDuration + monthChange <= 13 - column ==> d == initialDuration + monthChange
    ensures initialDuration + monthChange < 1 ==> d == 1
    ensures initialDuration + monthChange > 13 - column ==> d == 13 - column
  {
    Min(Max(1, initialDuration + monthChange), 13 - column)
  }

  /**
   * A span whose duration lies in the clamp window never wraps: its `i`-th
   * month is at column `column(month) + i`, at most 12, and is never the
   * start month itself.
   */
  lemma ClampedSpanDoesNotWrap(hs: seq<MonthHeader>, startMonth: int, month: int, d: int)
    requires 1 <= startMonth <= 12 && IsHeaderRing(hs, startMonth)
    requires 1 <= d <= 13 - MonthColumn(hs, month)
    ensures forall i :: 1 <= i < d ==>
      MonthColumn(hs, SpanMonth(hs, month, i)) == MonthColumn(hs, month) + i <= 12
    ensures forall i :: 1 <= i < d ==> SpanMonth(hs, month, i) != month
  {
    HeaderRingIsPermutation(hs, startMonth);
    forall i | 1 <= i < d
      ensures MonthColumn(hs, SpanMonth(hs, month, i)) == MonthColumn(hs, month) + i <= 12
      ensures SpanMonth(hs, month, i) != month
    {
      SpanMonthInColumn(hs, month, i);
    }
  }

  /** One step of a span that stays left of the thirteenth column. */
  lemma SpanMonthInColumn(hs: seq<MonthHeader>, month: int, i: int)
    requires |hs| == 12 && DistinctMonths(hs)
    requires 1 <= i && MonthColumn(hs, month) + i <= 12
    ensures MonthColumn(hs, SpanMonth(hs, month, i)) == MonthColumn(hs, month) + i
    ensures SpanMonth(hs, month, i) != month
  {
    var c := MonthColumn(hs, month);
    assert (c - 1 + i) % 12 == c - 1 + i;
    ColumnOfSpanMonth(hs, month, i);
  }
}
