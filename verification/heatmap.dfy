/**
  The reports page's activity heatmap: twelve rows of seven day cells, each
  with the day's total tracked seconds, shaded by an intensity level.

  Days are numbered from the window's first day, 83 days before today, so
  today is day 83. The caller supplies the local midnight of every numbered
  day (`midnight`), the last millisecond of today (`todayEnd`) and the weekday
  of day 0 (`startDay`); day k then falls on weekday `(startDay + k) % 7`.
  The day labels (`toLocaleDateString`) are left out.
 */
module Heatmap {

  import opened Common
  import opened Entities
  import opened Ordering
  import opened Calendar
  import opened TimeTracking

  /**
    `getIntensity`: 0 for an empty day, then under 1 h (a negative total
    included), under 2 h, under 4 h, and 4 h or more.
   */
  function GetIntensity(duration: int): (level: int)
    ensures 0 <= level <= 4
    ensures level == 0 <==> duration == 0
    ensures duration > 0 ==> (level == 1 <==> duration < 3600)
    ensures duration != 0 && duration < 3600 ==> level == 1
    ensures 3600 <= duration < 7200 ==> level == 2
    ensures 7200 <= duration < 14400 ==> level == 3
    ensures duration >= 14400 ==> level == 4
  {
    if duration == 0 then 0
    else if duration < 3600 then 1
    else if duration < 7200 then 2
    else if duration < 14400 then 3
    else 4
  }

  /** More time on a day never gives a lighter cell. */
  lemma IntensityMonotone(a: int, b: int)
    requires 0 <= a <= b
    ensures GetIntensity(a) <= GetIntensity(b)
  {
  }

  /** The levels `getColor` is called with. */
  type Level = l: int | 0 <= l <= 4

  /** The cell classes, indexed by level. */
  const Shades: seq<string> := ["bg-muted", "bg-primary/30", "bg-primary/50", "bg-primary/70", "bg-primary"]

  /** `getColor`: a future day is faded, an empty day is muted, otherwise the level's shade. */
  function GetColor(level: Level, isFuture: bool): (c: string)
    ensures isFuture <==> c == "bg-muted/30"
    ensures !isFuture ==> c == Shades[level]
  {
    if isFuture then "bg-muted/30"
    else if level == 0 then "bg-muted"
    else Shades[level]
  }

  /** Past and present days with different levels get different shades. */
  lemma ShadesDistinct(a: Level, b: Level)
    requires a != b
    ensures GetColor(a, false) != GetColor(b, false)
  {
    if a == 0 || b == 0 {
      assert Shades[a][3] != Shades[b][3];
    } else if a == 4 || b == 4 {
      assert |Shades[a]| != |Shades[b]|;
    } else {
      assert Shades[a][11] != Shades[b][11];
    }
  }

  /** A shown day: its number, its local midnight, its total seconds, and whether it is after today. */
  datatype Cell = Cell(day: int, date: Millis, duration: int, isFuture: bool)

  /** The entries that started on or after `from` and before `to`. */
  function StartedWithin(entries: seq<TimeEntry>, from: Millis, to: Millis): (r: seq<TimeEntry>)
    ensures forall i :: 0 <= i < |r| ==> from <= r[i].startTime < to && r[i] in entries
    ensures forall i :: 0 <= i < |entries| && from <= entries[i].startTime < to ==> entries[i] in r
    ensures forall e :: multiset(r)[e] == if from <= e.startTime < to then multiset(entries)[e] else 0
  {
    var f := (e: TimeEntry) => from <= e.startTime < to;
    assert forall e :: multiset(Filter(entries, f))[e] == if f(e) then multiset(entries)[e] else 0 by {
      forall e ensures multiset(Filter(entries, f))[e] == if f(e) then multiset(entries)[e] else 0 {
        FilterCount(entries, f, e);
      }
    }
    Filter(entries, f)
  }

  /** The cell for day k: the day's entries added up; future when its midnight is after today's end. */
  function CellAt(entries: seq<TimeEntry>, k: int, midnight: int -> Millis, todayEnd: Millis): Cell
  {
    Cell(k, midnight(k), TotalDuration(StartedWithin(entries, midnight(k), midnight(k + 1))), midnight(k) > todayEnd)
  }

  /** The cell builder the heatmap hands to the grid loop. */
  function DayCells(entries: seq<TimeEntry>, midnight: int -> Millis, todayEnd: Millis): int -> Cell
  {
    k => CellAt(entries, k, midnight, todayEnd)
  }

  /**
    The grid loop: 84 consecutive days from day `first`, cut into rows of
    seven each time the count reaches a multiple of seven. `cell` builds the
    cell for a day.
   */
  method Grid<T>(cell: int -> T, first: int) returns (weeks: seq<seq<T>>)
    ensures |weeks| == 12
    ensures forall w :: 0 <= w < 12 ==> |weeks[w]| == 7
    ensures forall w, d :: 0 <= w < 12 && 0 <= d < 7 ==> weeks[w][d] == cell(first + 7 * w + d)
  {
    weeks := [];
    var current: seq<T> := [];
    var i := 0;
    while i < 84
      invariant 0 <= i <= 84
      invariant i == 7 * |weeks| + |current| && |current| < 7
      invariant forall w :: 0 <= w < |weeks| ==> |weeks[w]| == 7
      invariant forall w, d :: 0 <= w < |weeks| && 0 <= d < 7 ==> weeks[w][d] == cell(first + 7 * w + d)
      invariant forall d :: 0 <= d < |current| ==> current[d] == cell(first + 7 * |weeks| + d)
    {
      current := current + [cell(first + i)];
      NextRowAt(|weeks|, |current| - 1);
      if (i + 1) % 7 == 0 {
        weeks := weeks + [current];
        current := [];
      }
      i := i + 1;
    }
  }

  /** The count reaches a multiple of seven exactly when the row being built is full. */
  lemma NextRowAt(rows: int, col: int)
    requires 0 <= col < 7
    ensures (7 * rows + col + 1) % 7 == 0 <==> col == 6
  {
    WeekShift(col + 1, rows);
  }

  /** Moving by whole weeks keeps the weekday. */
  lemma WeekShift(x: int, w: int)
    ensures (x + 7 * w) % 7 == x % 7
  {
    var q := x / 7;
    var r := x % 7;
    assert x + 7 * w == 7 * (q + w) + r;
  }

  /** The local clock facts the grid relies on: midnights strictly increase and today's end lies inside day 83. */
  ghost predicate Clock(midnight: int -> Millis, todayEnd: Millis)
  {
    && (forall a, b :: a < b ==> midnight(a) < midnight(b))
    && midnight(83) <= todayEnd < midnight(84)
  }

  /** Day k lies after today exactly when it is numbered after today. */
  lemma FutureIsAfterToday(midnight: int -> Millis, todayEnd: Millis, k: int)
    requires Clock(midnight, todayEnd)
    ensures midnight(k) > todayEnd <==> k > 83
  {
    if k <= 83 {
      assert k == 83 || midnight(k) < midnight(83);
    } else {
      assert k == 84 || midnight(84) < midnight(k);
    }
  }

  /** The first day the grid shows, as written: the Monday on or before the window's first day. */
  function FirstShownDay(startDay: Weekday): (first: int)
    ensures -6 <= first <= 0
    ensures (startDay + first) % 7 == 1
  {
    -MondayOffset(startDay)
  }

  /**
    The first day shown when the twelve rows end with today's week: the
    Monday eleven weeks before the Monday on or before today.
   */
  function FirstShownDayCorrected(startDay: Weekday): (first: int)
    ensures 0 <= first <= 6
    ensures (startDay + first) % 7 == 1
    ensures first <= 83 < first + 84
  {
    var todayDay := (startDay + 83) % 7;
    assert todayDay == (startDay + 6) % 7;
    83 - MondayOffset(todayDay) - 77
  }

  /** The heatmap as written. */
  method ActivityHeatmap(entries: seq<TimeEntry>, startDay: Weekday, midnight: int -> Millis, todayEnd: Millis) returns (weeks: seq<seq<Cell>>)
    ensures |weeks| == 12 && forall w :: 0 <= w < 12 ==> |weeks[w]| == 7
    ensures forall w, d :: 0 <= w < 12 && 0 <= d < 7 ==>
      weeks[w][d] == DayCells(entries, midnight, todayEnd)(FirstShownDay(startDay) + 7 * w + d)
  {
    weeks := Grid(DayCells(entries, midnight, todayEnd), FirstShownDay(startDay));
  }

  /** The heatmap with rows that end with today's week. */
  method ActivityHeatmapCorrected(entries: seq<TimeEntry>, startDay: Weekday, midnight: int -> Millis, todayEnd: Millis) returns (weeks: seq<seq<Cell>>)
    ensures |weeks| == 12 && forall w :: 0 <= w < 12 ==> |weeks[w]| == 7
    ensures forall w, d :: 0 <= w < 12 && 0 <= d < 7 ==>
      weeks[w][d] == DayCells(entries, midnight, todayEnd)(FirstShownDayCorrected(startDay) + 7 * w + d)
  {
    weeks := Grid(DayCells(entries, midnight, todayEnd), FirstShownDayCorrected(startDay));
  }

  /** Every row starts on a Monday, both as written and corrected. */
  lemma RowsStartOnMonday(startDay: Weekday, w: int)
    ensures (startDay + FirstShownDay(startDay) + 7 * w) % 7 == 1
    ensures (startDay + FirstShownDayCorrected(startDay) + 7 * w) % 7 == 1
  {
    WeekShift(startDay + FirstShownDay(startDay), w);
    WeekShift(startDay + FirstShownDayCorrected(startDay), w);
  }

  /**
    A cell holds the total of the entries that started on its day, and it is
    future exactly when its day is numbered after today.
   */
  lemma DayCellContents(entries: seq<TimeEntry>, midnight: int -> Millis, todayEnd: Millis, k: int)
    requires Clock(midnight, todayEnd)
    ensures var c := DayCells(entries, midnight, todayEnd)(k);
      && c.day == k && c.date == midnight(k)
      && c.duration == TotalDuration(StartedWithin(entries, midnight(k), midnight(k + 1)))
      && (c.isFuture <==> k > 83)
  {
    FutureIsAfterToday(midnight, todayEnd, k);
  }

  /**
    As written, no cell is ever a future day, so the faded shade is never
    used; and unless the window starts on a Monday, today and the days before
    it in its week are missing from the grid.
   */
  lemma AsWrittenOmitsToday(entries: seq<TimeEntry>, startDay: Weekday, midnight: int -> Millis, todayEnd: Millis, w: int, d: int)
    requires Clock(midnight, todayEnd)
    requires 0 <= w < 12 && 0 <= d < 7
    ensures var k := FirstShownDay(startDay) + 7 * w + d;
      && k <= 83
      && !DayCells(entries, midnight, todayEnd)(k).isFuture
      && (startDay != 1 ==> k < 83)
  {
    DayCellContents(entries, midnight, todayEnd, FirstShownDay(startDay) + 7 * w + d);
  }

  /** A concrete window: today a Monday, so day 0 is a Tuesday and the last cell is yesterday. */
  lemma AsWrittenMondayExample()
    ensures FirstShownDay(2) == -1
    ensures FirstShownDay(2) + 7 * 11 + 6 == 82
    ensures FirstShownDayCorrected(2) == 6
  {
  }

  /**
    Corrected, today is shown, in the last row, and exactly the cells after
    it are future.
   */
  lemma CorrectedShowsToday(entries: seq<TimeEntry>, startDay: Weekday, midnight: int -> Millis, todayEnd: Millis)
    requires Clock(midnight, todayEnd)
    ensures var first := FirstShownDayCorrected(startDay);
      && first + 7 * 11 <= 83 < first + 7 * 11 + 7
      && forall k :: first <= k < first + 84 ==> (DayCells(entries, midnight, todayEnd)(k).isFuture <==> k > 83)
  {
    forall k | FirstShownDayCorrected(startDay) <= k < FirstShownDayCorrected(startDay) + 84
      ensures DayCells(entries, midnight, todayEnd)(k).isFuture <==> k > 83
    {
      DayCellContents(entries, midnight, todayEnd, k);
    }
  }

  /** Both grids agree when the window itself starts on a Monday (today is a Sunday). */
  lemma GridsAgreeOnSunday()
    ensures FirstShownDay(1) == FirstShownDayCorrected(1) == 0
  {
  }
}
