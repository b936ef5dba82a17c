/**
 * Worksheet columns: the Column value with its width getter and setter,
 * the compaction of columns into the column ranges a worksheet is written
 * with, the loading of column ranges back into columns, and the column
 * collection that inserts, deletes and copies columns.
 */
module Columns {
  import opened Wrappers
  import opened OfficeUtilities
  import opened Shifts
  import Cells
  import CC = CellCollections

  /** The width of a column nobody has resized. */
  const DefaultColumnWidth: real := 9.140625
  /** Added by the public width setter to approximate the rendered width. */
  const WidthAdjustment: real := 0.83

  predicate ValidColumnIndex(index: int) {
    CC.MinColumn <= index <= CC.MaxColumn
  }

  /** A column: its index, style, stored width and width flags. */
  datatype Column = Column(index: int, styleIndex: int, width: real, isBestFit: bool, isCustomWidth: bool)

  /** A `<col>` element: one set of column properties over min..max. */
  datatype ColumnRange = ColumnRange(minIndex: int, maxIndex: int, styleIndex: int, width: real, isBestFit: bool, isCustomWidth: bool)

  // ---------------------------------------------------------------------
  // The column value
  // ---------------------------------------------------------------------

  /** The full constructor: an index outside 1..16384 is rejected; the width is stored as given. */
  function NewColumn(index: int, styleIndex: int, width: real, isBestFit: bool, isCustomWidth: bool): (r: Result<Column>)
    ensures r.Ok? <==> ValidColumnIndex(index)
    ensures r.Err? ==> r.error == ArgumentOutOfRange
    ensures r.Ok? ==> r.value.index == index && r.value.styleIndex == styleIndex && r.value.width == width
    ensures r.Ok? ==> r.value.isBestFit == isBestFit && r.value.isCustomWidth == isCustomWidth
  {
    if ValidColumnIndex(index) then Ok(Column(index, styleIndex, width, isBestFit, isCustomWidth))
    else Err(ArgumentOutOfRange)
  }

  /** The public constructor: default style and width, no flags. */
  function DefaultColumn(index: int): (r: Result<Column>)
    ensures r.Ok? <==> ValidColumnIndex(index)
    ensures r.Err? ==> r.error == ArgumentOutOfRange
    ensures r.Ok? ==> r.value == Column(index, Cells.DefaultStyleIndex, DefaultColumnWidth, false, false)
  {
    NewColumn(index, Cells.DefaultStyleIndex, DefaultColumnWidth, false, false)
  }

  /**
   * The width getter: the stored width, capped at the worksheet's maximum
   * column width unless that maximum is 0.
   */
  function Width(c: Column, maximumColumnWidth: real): (w: real)
    ensures w == c.width || w == maximumColumnWidth
    ensures maximumColumnWidth == 0.0 ==> w == c.width
    ensures maximumColumnWidth != 0.0 ==> w <= c.width && w <= maximumColumnWidth
  {
    if maximumColumnWidth == 0.0 || c.width <= maximumColumnWidth then c.width else maximumColumnWidth
  }

  /** The width setter: a positive value is stored with the adjustment added; anything else is ignored. */
  function SetWidth(c: Column, value: real): (r: Column)
    ensures r.index == c.index && r.styleIndex == c.styleIndex
    ensures r.isBestFit == c.isBestFit && r.isCustomWidth == c.isCustomWidth
    ensures value > 0.0 ==> r.width == value + WidthAdjustment
    ensures value <= 0.0 ==> r == c
  {
    if value > 0.0 then c.(width := value + WidthAdjustment) else c
  }

  /** The greatest of a non-empty sequence of widths. */
  function MaxOf(s: seq<real>): (m: real)
    requires |s| > 0
    ensures m in s
    ensures forall x :: x in s ==> x <= m
    decreases |s|
  {
    if |s| == 1 then s[0]
    else
      assert s == [s[0]] + s[1..];
      var rest := MaxOf(s[1..]);
      if s[0] >= rest then s[0] else rest
  }

  /**
   * Auto-fit of one column, given the required widths of its cells: with no
   * cells the maximum does not exist and the call fails; a positive maximum
   * other than the default width becomes the width, with both flags set.
   */
  function AutoFit(c: Column, requiredWidths: seq<real>): (r: Result<Column>)
    ensures r.Err? <==> |requiredWidths| == 0
    ensures r.Err? ==> r.error == InvalidOperation
    ensures r.Ok? ==> r.value.index == c.index && r.value.styleIndex == c.styleIndex
    ensures r.Ok? ==> var m := MaxOf(requiredWidths);
      if m > 0.0 && m != DefaultColumnWidth
      then r.value.width == m + WidthAdjustment && r.value.isBestFit && r.value.isCustomWidth
      else r.value == c
  {
    if |requiredWidths| == 0 then Err(InvalidOperation)
    else
      var m := MaxOf(requiredWidths);
      if m > 0.0 && m != DefaultColumnWidth
      then Ok(SetWidth(c, m).(isCustomWidth := true, isBestFit := true))
      else Ok(c)
  }

  /** Two columns are similar when their flags and their widths, as the getter reports them, agree; style is not compared. */
  predicate Similar(a: Column, b: Column, maximumColumnWidth: real) {
    a.isBestFit == b.isBestFit && a.isCustomWidth == b.isCustomWidth
    && Width(a, maximumColumnWidth) == Width(b, maximumColumnWidth)
  }

  /** Setting the index of a column. */
  function MoveColumn(c: Column, index: int): (r: Column)
    ensures r.index == index
    ensures r.(index := c.index) == c
  {
    c.(index := index)
  }

  lemma MoveColumnRebinds()
    ensures Rebinds(MoveColumn)
  {
    forall x: Column, a: int, b: int
      ensures MoveColumn(MoveColumn(x, a), b) == MoveColumn(x, b)
    {
    }
  }

  /** The constructor from a column range: the index must be valid and inside the range. */
  function ColumnFromRange(range: ColumnRange, index: int): (r: Result<Column>)
    ensures r.Ok? <==> ValidColumnIndex(index) && range.minIndex <= index <= range.maxIndex
    ensures r.Err? ==> r.error == ArgumentOutOfRange
    ensures r.Ok? ==> r.value == Column(index, range.styleIndex, range.width, range.isBestFit, range.isCustomWidth)
  {
    var c :- NewColumn(index, range.styleIndex, range.width, range.isBestFit, range.isCustomWidth);
    if index < range.minIndex || index > range.maxIndex then Err(ArgumentOutOfRange) else Ok(c)
  }

  /** The range from a start column to an end column takes every property from the start column. */
  function RangeOf(start: Column, end: Column, maximumColumnWidth: real): ColumnRange {
    ColumnRange(start.index, end.index, start.styleIndex, Width(start, maximumColumnWidth), start.isBestFit, start.isCustomWidth)
  }

  // ---------------------------------------------------------------------
  // Compaction into column ranges
  // ---------------------------------------------------------------------

  /**
   * Whether `next` extends the range that `prev` ends. As written only
   * similarity is asked; with `breakAtGaps` the indexes must also be
   * consecutive.
   */
  predicate Continues(prev: Column, next: Column, maximumColumnWidth: real, breakAtGaps: bool) {
    Similar(next, prev, maximumColumnWidth) && (!breakAtGaps || next.index == prev.index + 1)
  }

  /** The column at position `i` continues the one before it. */
  predicate Joined(cols: seq<Column>, i: int, maximumColumnWidth: real, breakAtGaps: bool)
    requires 0 < i < |cols|
  {
    Continues(cols[i - 1], cols[i], maximumColumnWidth, breakAtGaps)
  }

  /** The last position of the maximal run of continuing columns that starts at `j`. */
  function RunEnd(cols: seq<Column>, j: int, maximumColumnWidth: real, breakAtGaps: bool): (e: int)
    requires 0 <= j < |cols|
    ensures j <= e < |cols|
    decreases |cols| - j
  {
    if j + 1 < |cols| && Joined(cols, j + 1, maximumColumnWidth, breakAtGaps)
    then RunEnd(cols, j + 1, maximumColumnWidth, breakAtGaps)
    else j
  }

  /** Every column of the run continues its predecessor, and the column after the run does not. */
  lemma {:induction false} RunEndJoined(cols: seq<Column>, j: int, e: int, maximumColumnWidth: real, breakAtGaps: bool)
    requires 0 <= j < |cols| && e == RunEnd(cols, j, maximumColumnWidth, breakAtGaps)
    ensures forall i :: j < i <= e ==> Joined(cols, i, maximumColumnWidth, breakAtGaps)
    ensures e + 1 == |cols| || !Joined(cols, e + 1, maximumColumnWidth, breakAtGaps)
    decreases |cols| - j
  {
    if j + 1 < |cols| && Joined(cols, j + 1, maximumColumnWidth, breakAtGaps) {
      RunEndJoined(cols, j + 1, e, maximumColumnWidth, breakAtGaps);
    }
  }

  /** The column ranges of the columns from position `j` on: one per maximal run. */
  function Runs(cols: seq<Column>, j: int, maximumColumnWidth: real, breakAtGaps: bool): seq<ColumnRange>
    requires 0 <= j <= |cols|
    decreases |cols| - j
  {
    if j == |cols| then []
    else
      var e := RunEnd(cols, j, maximumColumnWidth, breakAtGaps);
      [RangeOf(cols[j], cols[e], maximumColumnWidth)] + Runs(cols, e + 1, maximumColumnWidth, breakAtGaps)
  }

  /** The ranges from `j` are the first run's range followed by the ranges after that run. */
  lemma RunsStep(cols: seq<Column>, j: int, maximumColumnWidth: real, breakAtGaps: bool)
    requires 0 <= j < |cols|
    ensures Runs(cols, j, maximumColumnWidth, breakAtGaps)
      == [RangeOf(cols[j], cols[RunEnd(cols, j, maximumColumnWidth, breakAtGaps)], maximumColumnWidth)]
         + Runs(cols, RunEnd(cols, j, maximumColumnWidth, breakAtGaps) + 1, maximumColumnWidth, breakAtGaps)
  {
  }

  /** The same, position by position. */
  lemma RunsStepAt(cols: seq<Column>, j: int, maximumColumnWidth: real, breakAtGaps: bool)
    requires 0 <= j < |cols|
    ensures |Runs(cols, j, maximumColumnWidth, breakAtGaps)| == |Runs(cols, RunEnd(cols, j, maximumColumnWidth, breakAtGaps) + 1, maximumColumnWidth, breakAtGaps)| + 1
    ensures Runs(cols, j, maximumColumnWidth, breakAtGaps)[0]
      == RangeOf(cols[j], cols[RunEnd(cols, j, maximumColumnWidth, breakAtGaps)], maximumColumnWidth)
    ensures forall i :: 0 < i < |Runs(cols, j, maximumColumnWidth, breakAtGaps)| ==>
      Runs(cols, j, maximumColumnWidth, breakAtGaps)[i]
      == Runs(cols, RunEnd(cols, j, maximumColumnWidth, breakAtGaps) + 1, maximumColumnWidth, breakAtGaps)[i - 1]
  {
    RunsStep(cols, j, maximumColumnWidth, breakAtGaps);
  }

  /** A run that continues up to `e` and stops there ends at `e`. */
  lemma {:induction false} RunEndAt(cols: seq<Column>, s: int, e: int, maximumColumnWidth: real, breakAtGaps: bool)
    requires 0 <= s <= e < |cols|
    requires forall i :: s < i <= e ==> Joined(cols, i, maximumColumnWidth, breakAtGaps)
    requires e + 1 == |cols| || !Joined(cols, e + 1, maximumColumnWidth, breakAtGaps)
    ensures RunEnd(cols, s, maximumColumnWidth, breakAtGaps) == e
    ensures Runs(cols, s, maximumColumnWidth, breakAtGaps)
      == [RangeOf(cols[s], cols[e], maximumColumnWidth)] + Runs(cols, e + 1, maximumColumnWidth, breakAtGaps)
    decreases e - s
  {
    if s < e {
      RunEndAt(cols, s + 1, e, maximumColumnWidth, breakAtGaps);
    }
  }

  /**
   * The enumeration of the columns, folded into ranges: a column that
   * continues the previous one extends the current range, any other column
   * closes it and opens a new one, and the last range is closed after the
   * loop. As written, the closing of the last range dereferences the start
   * column even when there was none, so no columns means a null reference.
   */
  method CollectRanges(cols: seq<Column>, maximumColumnWidth: real, breakAtGaps: bool) returns (r: Result<seq<ColumnRange>>)
    ensures |cols| == 0 ==> r == Err(NullReference)
    ensures |cols| > 0 ==> r == Ok(Runs(cols, 0, maximumColumnWidth, breakAtGaps))
  {
    var ranges: seq<ColumnRange> := [];
    var startColumn: Option<Column> := None;
    var prevColumn: Option<Column> := None;
    ghost var s := 0;
    for k := 0 to |cols|
      invariant k == 0 <==> prevColumn.None?
      invariant k == 0 ==> ranges == []
      invariant k > 0 ==> 0 <= s < k && startColumn == Some(cols[s]) && prevColumn == Some(cols[k - 1])
      invariant k > 0 ==> OpenRun(cols, ranges, s, k, maximumColumnWidth, breakAtGaps)
    {
      var column := cols[k];
      if prevColumn.None? {
        startColumn, prevColumn := Some(column), Some(column);
        s := k;
      } else if Continues(prevColumn.value, column, maximumColumnWidth, breakAtGaps) {
        prevColumn := Some(column);
      } else {
        CloseRun(cols, ranges, s, k, maximumColumnWidth, breakAtGaps);
        ranges := ranges + [RangeOf(startColumn.value, prevColumn.value, maximumColumnWidth)];
        startColumn, prevColumn := Some(column), Some(column);
        s := k;
      }
    }
    if prevColumn.None? {
      return Err(NullReference);
    }
    CloseLastRun(cols, ranges, s, maximumColumnWidth, breakAtGaps);
    r := Ok(ranges + [RangeOf(startColumn.value, prevColumn.value, maximumColumnWidth)]);
  }

  /**
   * The fold's state before position `k`: the ranges closed so far followed
   * by the ranges from the open run's start `s` on are all the ranges, and
   * every column of the open run continues its predecessor.
   */
  ghost predicate OpenRun(cols: seq<Column>, ranges: seq<ColumnRange>, s: int, k: int, maximumColumnWidth: real, breakAtGaps: bool)
    requires 0 <= s < k <= |cols|
  {
    (forall i :: s < i < k ==> Joined(cols, i, maximumColumnWidth, breakAtGaps))
    && ranges + Runs(cols, s, maximumColumnWidth, breakAtGaps) == Runs(cols, 0, maximumColumnWidth, breakAtGaps)
  }

  /** Closing the open run at a column that does not continue it emits the run's range and opens a run there. */
  lemma CloseRun(cols: seq<Column>, ranges: seq<ColumnRange>, s: int, k: int, maximumColumnWidth: real, breakAtGaps: bool)
    requires 0 <= s < k < |cols| && OpenRun(cols, ranges, s, k, maximumColumnWidth, breakAtGaps)
    requires !Joined(cols, k, maximumColumnWidth, breakAtGaps)
    ensures OpenRun(cols, ranges + [RangeOf(cols[s], cols[k - 1], maximumColumnWidth)], k, k + 1, maximumColumnWidth, breakAtGaps)
  {
    var range := RangeOf(cols[s], cols[k - 1], maximumColumnWidth);
    RunEndAt(cols, s, k - 1, maximumColumnWidth, breakAtGaps);
    assert (ranges + [range]) + Runs(cols, k, maximumColumnWidth, breakAtGaps)
      == ranges + ([range] + Runs(cols, k, maximumColumnWidth, breakAtGaps));
  }

  /** Closing the open run after the last column emits the last range. */
  lemma CloseLastRun(cols: seq<Column>, ranges: seq<ColumnRange>, s: int, maximumColumnWidth: real, breakAtGaps: bool)
    requires 0 <= s < |cols| && OpenRun(cols, ranges, s, |cols|, maximumColumnWidth, breakAtGaps)
    ensures ranges + [RangeOf(cols[s], cols[|cols| - 1], maximumColumnWidth)] == Runs(cols, 0, maximumColumnWidth, breakAtGaps)
  {
    RunEndAt(cols, s, |cols| - 1, maximumColumnWidth, breakAtGaps);
    assert Runs(cols, |cols|, maximumColumnWidth, breakAtGaps) == [];
    assert [RangeOf(cols[s], cols[|cols| - 1], maximumColumnWidth)] + [] == [RangeOf(cols[s], cols[|cols| - 1], maximumColumnWidth)];
  }

  /**
   * The corrected compaction: no columns give no ranges, and a range is
   * also closed where the column indexes leave a gap.
   */
  method GetColumnRanges(cols: seq<Column>, maximumColumnWidth: real) returns (r: seq<ColumnRange>)
    ensures r == Runs(cols, 0, maximumColumnWidth, true)
    ensures |r| == 0 <==> |cols| == 0
  {
    if |cols| == 0 {
      return [];
    }
    var collected := CollectRanges(cols, maximumColumnWidth, true);
    r := collected.value;
  }

  /** Column indexes strictly increase along the sequence. */
  ghost predicate Ascending(cols: seq<Column>) {
    forall i, j :: 0 <= i < j < |cols| ==> cols[i].index < cols[j].index
  }

  /** The last of the ranges from a position before the end closes at the last column. */
  lemma {:induction false} RunsLast(cols: seq<Column>, j: int, maximumColumnWidth: real, breakAtGaps: bool) returns (l: ColumnRange)
    requires 0 <= j < |cols|
    ensures |Runs(cols, j, maximumColumnWidth, breakAtGaps)| > 0
    ensures l == Last(Runs(cols, j, maximumColumnWidth, breakAtGaps))
    ensures l.maxIndex == cols[|cols| - 1].index
    decreases |cols| - j
  {
    var e := RunEnd(cols, j, maximumColumnWidth, breakAtGaps);
    RunsStepAt(cols, j, maximumColumnWidth, breakAtGaps);
    var r := Runs(cols, j, maximumColumnWidth, breakAtGaps);
    if e + 1 < |cols| {
      l := RunsLast(cols, e + 1, maximumColumnWidth, breakAtGaps);
      var rest := Runs(cols, e + 1, maximumColumnWidth, breakAtGaps);
      assert r[|r| - 1] == rest[|rest| - 1];
    } else {
      RunsStep(cols, j, maximumColumnWidth, breakAtGaps);
      l := r[0];
    }
  }

  /** Over ascending columns the ranges are well formed and strictly ordered. */
  lemma {:induction false} RunsOrdered(cols: seq<Column>, j: int, maximumColumnWidth: real, breakAtGaps: bool)
    requires 0 <= j <= |cols| && Ascending(cols)
    ensures OrderedRanges(Runs(cols, j, maximumColumnWidth, breakAtGaps))
    decreases |cols| - j
  {
    if j < |cols| {
      var e := RunEnd(cols, j, maximumColumnWidth, breakAtGaps);
      RunsOrdered(cols, e + 1, maximumColumnWidth, breakAtGaps);
      if e + 1 < |cols| {
        RunsStepAt(cols, e + 1, maximumColumnWidth, breakAtGaps);
      }
      RunsStepAt(cols, j, maximumColumnWidth, breakAtGaps);
      var first := RangeOf(cols[j], cols[e], maximumColumnWidth);
      var rest := Runs(cols, e + 1, maximumColumnWidth, breakAtGaps);
      assert first.minIndex == cols[j].index <= cols[e].index == first.maxIndex;
      assert |rest| > 0 ==> first.maxIndex < cols[e + 1].index == rest[0].minIndex;
      OrderedCons(first, rest, Runs(cols, j, maximumColumnWidth, breakAtGaps));
    }
  }

  /** The last of a non-empty sequence of ranges. */
  function Last(r: seq<ColumnRange>): (l: ColumnRange)
    requires |r| > 0
    ensures l in r
  {
    r[|r| - 1]
  }

  /** Every range is well formed and each ends below the start of the next. */
  ghost predicate OrderedRanges(r: seq<ColumnRange>) {
    (forall i :: 0 <= i < |r| ==> r[i].minIndex <= r[i].maxIndex)
    && (forall i, i' :: 0 <= i < i' < |r| ==> r[i].maxIndex < r[i'].minIndex)
  }

  /** A well-formed range put below the first of well-formed, strictly ordered ranges keeps them so. */
  lemma OrderedCons(first: ColumnRange, rest: seq<ColumnRange>, r: seq<ColumnRange>)
    requires first.minIndex <= first.maxIndex && OrderedRanges(rest)
    requires |rest| > 0 ==> first.maxIndex < rest[0].minIndex
    requires |r| == |rest| + 1 && r[0] == first && forall i :: 0 < i < |r| ==> r[i] == rest[i - 1]
    ensures OrderedRanges(r)
  {
    forall i, i' | 0 <= i < i' < |r|
      ensures r[i].maxIndex < r[i'].minIndex
    {
      assert r[i'] == rest[i' - 1];
      if i > 0 {
        assert r[i] == rest[i - 1];
      } else if i' > 1 {
        assert rest[0].maxIndex < rest[i' - 1].minIndex;
      }
    }
  }

  /** Some range covers index `x`. */
  ghost predicate Covered(r: seq<ColumnRange>, x: int) {
    exists i :: 0 <= i < |r| && r[i].minIndex <= x <= r[i].maxIndex
  }

  /** Every column from position `j` on lies inside one of the ranges. */
  lemma {:induction false} RunsCover(cols: seq<Column>, j: int, maximumColumnWidth: real, breakAtGaps: bool)
    requires 0 <= j <= |cols| && Ascending(cols)
    ensures forall t :: j <= t < |cols| ==> Covered(Runs(cols, j, maximumColumnWidth, breakAtGaps), cols[t].index)
    decreases |cols| - j
  {
    if j < |cols| {
      var e := RunEnd(cols, j, maximumColumnWidth, breakAtGaps);
      RunsCover(cols, e + 1, maximumColumnWidth, breakAtGaps);
      var rest := Runs(cols, e + 1, maximumColumnWidth, breakAtGaps);
      var r := Runs(cols, j, maximumColumnWidth, breakAtGaps);
      assert r == [RangeOf(cols[j], cols[e], maximumColumnWidth)] + rest;
      forall t | j <= t < |cols|
        ensures Covered(r, cols[t].index)
      {
        if t <= e {
          assert r[0].minIndex <= cols[t].index <= r[0].maxIndex;
        } else {
          assert Covered(rest, cols[t].index);
          var i :| 0 <= i < |rest| && rest[i].minIndex <= cols[t].index <= rest[i].maxIndex;
          assert r[i + 1] == rest[i];
        }
      }
    }
  }

  /**
   * `range` is the range of the maximal run cols[a..b], found at or after position `j`.
   */
  ghost predicate IsRun(cols: seq<Column>, j: int, a: int, b: int, range: ColumnRange, maximumColumnWidth: real, breakAtGaps: bool) {
    j <= a <= b < |cols| && 0 <= a
    && range == RangeOf(cols[a], cols[b], maximumColumnWidth)
    && (a == 0 || !Joined(cols, a, maximumColumnWidth, breakAtGaps))
    && (b + 1 == |cols| || !Joined(cols, b + 1, maximumColumnWidth, breakAtGaps))
    && (forall t :: a < t <= b ==> Joined(cols, t, maximumColumnWidth, breakAtGaps))
  }

  /** `range` is the range of some maximal run at or after position `j`. */
  ghost predicate FromRun(cols: seq<Column>, j: int, range: ColumnRange, maximumColumnWidth: real, breakAtGaps: bool) {
    exists a, b :: IsRun(cols, j, a, b, range, maximumColumnWidth, breakAtGaps)
  }

  /**
   * Each range is a maximal run: it starts and ends at columns of the
   * sequence, every column inside continues its predecessor, the range
   * carries the start column's style, width and flags, and the columns just
   * outside it do not continue it.
   */
  lemma {:induction false} RunsMaximal(cols: seq<Column>, j: int, maximumColumnWidth: real, breakAtGaps: bool)
    requires 0 <= j <= |cols|
    requires j == |cols| || j == 0 || !Joined(cols, j, maximumColumnWidth, breakAtGaps)
    ensures forall i :: 0 <= i < |Runs(cols, j, maximumColumnWidth, breakAtGaps)| ==>
      FromRun(cols, j, Runs(cols, j, maximumColumnWidth, breakAtGaps)[i], maximumColumnWidth, breakAtGaps)
    decreases |cols| - j
  {
    if j < |cols| {
      var e := RunEnd(cols, j, maximumColumnWidth, breakAtGaps);
      RunEndJoined(cols, j, e, maximumColumnWidth, breakAtGaps);
      RunsMaximal(cols, e + 1, maximumColumnWidth, breakAtGaps);
      var rest := Runs(cols, e + 1, maximumColumnWidth, breakAtGaps);
      var r := Runs(cols, j, maximumColumnWidth, breakAtGaps);
      assert r == [RangeOf(cols[j], cols[e], maximumColumnWidth)] + rest;
      forall i | 0 <= i < |r|
        ensures FromRun(cols, j, r[i], maximumColumnWidth, breakAtGaps)
      {
        if i > 0 {
          assert r[i] == rest[i - 1] && 0 <= i - 1 < |rest|;
          assert FromRun(cols, e + 1, rest[i - 1], maximumColumnWidth, breakAtGaps);
          var a, b :| IsRun(cols, e + 1, a, b, rest[i - 1], maximumColumnWidth, breakAtGaps);
          assert IsRun(cols, j, a, b, r[i], maximumColumnWidth, breakAtGaps);
        } else {
          assert IsRun(cols, j, j, e, r[i], maximumColumnWidth, breakAtGaps);
        }
      }
    }
  }

  /** Inside a gapless run, indexes are consecutive and every column is similar to the start column. */
  lemma {:induction false} RunUniform(cols: seq<Column>, j: int, e: int, maximumColumnWidth: real)
    requires 0 <= j <= e < |cols|
    requires forall i :: j < i <= e ==> Joined(cols, i, maximumColumnWidth, true)
    ensures forall t :: j <= t <= e ==> cols[t].index == cols[j].index + (t - j) && Similar(cols[t], cols[j], maximumColumnWidth)
    decreases e - j
  {
    if j < e {
      RunUniform(cols, j, e - 1, maximumColumnWidth);
      assert Joined(cols, e, maximumColumnWidth, true);
    }
  }

  /** As written, two similar columns around a missing one are written as one range, which covers the missing column too. */
  lemma GapMergedAsWritten()
    ensures var a := Column(1, 0, 20.0, false, true);
      var b := Column(3, 0, 20.0, false, true);
      Runs([a, b], 0, 0.0, false) == [ColumnRange(1, 3, 0, 20.0, false, true)]
      && Runs([a, b], 0, 0.0, true) == [ColumnRange(1, 1, 0, 20.0, false, true), ColumnRange(3, 3, 0, 20.0, false, true)]
  {
    var a := Column(1, 0, 20.0, false, true);
    var b := Column(3, 0, 20.0, false, true);
    var cols := [a, b];
    assert RunEnd(cols, 1, 0.0, false) == 1;
    assert RunEnd(cols, 0, 0.0, false) == 1;
    assert Runs(cols, 2, 0.0, false) == [];
    assert RunEnd(cols, 0, 0.0, true) == 0;
    assert RunEnd(cols, 1, 0.0, true) == 1;
    assert Runs(cols, 2, 0.0, true) == [];
    assert Runs(cols, 1, 0.0, true) == [ColumnRange(3, 3, 0, 20.0, false, true)];
  }

  // ---------------------------------------------------------------------
  // Loading column ranges
  // ---------------------------------------------------------------------

  /**
   * The column loaded for index `j` of a range. As written the range width
   * goes through the public setter, which adds the adjustment again; the
   * corrected loader keeps the width the range was written with.
   */
  function LoadedColumn(rg: ColumnRange, j: int, adjustWidths: bool): (c: Column)
    ensures c.index == j && c.styleIndex == rg.styleIndex
    ensures c.isBestFit == rg.isBestFit && c.isCustomWidth == rg.isCustomWidth
    ensures adjustWidths && rg.width > 0.0 ==> c.width == rg.width + WidthAdjustment
    ensures !adjustWidths || rg.width <= 0.0 ==> c.width == rg.width
  {
    var c := Column(j, rg.styleIndex, rg.width, rg.isBestFit, rg.isCustomWidth);
    if adjustWidths then SetWidth(c, rg.width) else c
  }

  /** The columns a range expands into. */
  function ExpandRange(rg: ColumnRange, adjustWidths: bool): (m: map<int, Column>)
    ensures forall j :: j in m <==> rg.minIndex <= j <= rg.maxIndex
    ensures forall j :: j in m ==> m[j] == LoadedColumn(rg, j, adjustWidths)
  {
    map j | rg.minIndex <= j <= rg.maxIndex :: LoadedColumn(rg, j, adjustWidths)
  }

  /**
   * Loading ranges in order: a range reaching the last column stops the
   * loading, a range starting before the first column fails at its first
   * index, and every other range adds (or overwrites) its columns.
   */
  function LoadFrom(acc: map<int, Column>, rs: seq<ColumnRange>, adjustWidths: bool): Result<map<int, Column>>
    decreases |rs|
  {
    if |rs| == 0 || rs[0].maxIndex >= CC.MaxColumn then Ok(acc)
    else if rs[0].minIndex <= rs[0].maxIndex && rs[0].minIndex < CC.MinColumn then Err(ArgumentOutOfRange)
    else LoadFrom(acc + ExpandRange(rs[0], adjustWidths), rs[1..], adjustWidths)
  }

  /**
   * The loop over one range: each index builds a column from the range
   * (which rejects an invalid index) and stores it. The range ends before
   * the last column, so the loop's early exit at the last column is never
   * taken.
   */
  method ExpandRangeInto(acc: map<int, Column>, rg: ColumnRange, adjustWidths: bool) returns (r: Result<map<int, Column>>)
    requires rg.maxIndex < CC.MaxColumn
    ensures r.Err? <==> rg.minIndex <= rg.maxIndex && rg.minIndex < CC.MinColumn
    ensures r.Err? ==> r.error == ArgumentOutOfRange
    ensures r.Ok? ==> r.value == acc + ExpandRange(rg, adjustWidths)
  {
    var m := acc;
    var index := rg.minIndex;
    while index <= rg.maxIndex
      invariant rg.minIndex <= index <= rg.maxIndex + 1 || (index == rg.minIndex && rg.minIndex > rg.maxIndex)
      invariant index > rg.minIndex ==> ValidColumnIndex(rg.minIndex)
      invariant forall j :: j in m <==> j in acc || rg.minIndex <= j < index
      invariant forall j :: j in m ==> m[j] == if rg.minIndex <= j < index then LoadedColumn(rg, j, adjustWidths) else acc[j]
      decreases rg.maxIndex - index
    {
      var column := ColumnFromRange(rg, index);
      if column.Err? {
        return Err(column.error);
      }
      m := m[index := LoadedColumn(rg, index, adjustWidths)];
      index := index + 1;
    }
    r := Ok(m);
    assert m == acc + ExpandRange(rg, adjustWidths);
  }

  /** Loading a range list that ends with a range reaching the last column loads the same as without it. */
  lemma {:induction false} LoadStopsAtLast(acc: map<int, Column>, rs: seq<ColumnRange>, last: ColumnRange, adjustWidths: bool)
    requires last.maxIndex >= CC.MaxColumn
    ensures LoadFrom(acc, rs + [last], adjustWidths) == LoadFrom(acc, rs, adjustWidths)
    decreases |rs|
  {
    if |rs| > 0 {
      assert (rs + [last])[0] == rs[0];
      assert (rs + [last])[1..] == rs[1..] + [last];
      if rs[0].maxIndex < CC.MaxColumn && !(rs[0].minIndex <= rs[0].maxIndex && rs[0].minIndex < CC.MinColumn) {
        LoadStopsAtLast(acc + ExpandRange(rs[0], adjustWidths), rs[1..], last, adjustWidths);
      }
    }
  }

  /** As written, a range loaded and written back comes back wider by the adjustment each time. */
  lemma LoadAsWrittenDriftsWidth()
    ensures var rg := ColumnRange(2, 2, 0, 10.0, false, true);
      var once := LoadFrom(map[], [rg], true);
      once.Ok? && 2 in once.value && once.value[2].width == 10.83
      && var again := LoadFrom(map[], [RangeOf(once.value[2], once.value[2], 0.0)], true);
      again.Ok? && 2 in again.value && again.value[2].width == 11.66
  {
    var rg := ColumnRange(2, 2, 0, 10.0, false, true);
    assert [rg][1..] == [];
    var rg' := RangeOf(LoadedColumn(rg, 2, true), LoadedColumn(rg, 2, true), 0.0);
    assert [rg'][1..] == [];
  }

  /** The width a range written with width `w` loads with: through the setter a positive width gains the adjustment. */
  function LoadedWidth(w: real, adjustWidths: bool): real {
    if adjustWidths && w > 0.0 then w + WidthAdjustment else w
  }

  /**
   * A loaded column agrees with the column it was written from in index,
   * width (as reported, with the setter's adjustment when loaded through
   * it) and flags.
   */
  ghost predicate LoadedLike(d: Column, c: Column, maximumColumnWidth: real, adjustWidths: bool) {
    d.index == c.index && d.width == LoadedWidth(Width(c, maximumColumnWidth), adjustWidths)
    && d.isBestFit == c.isBestFit && d.isCustomWidth == c.isCustomWidth
  }

  /** Column index `k` is the index of some column from position `j` on. */
  ghost predicate Listed(cols: seq<Column>, j: int, k: int) {
    exists t :: 0 <= j <= t < |cols| && cols[t].index == k
  }

  /** The columns one run, from position `j` to `e`, expands into. */
  ghost function RunColumns(cols: seq<Column>, j: int, e: int, maximumColumnWidth: real, adjustWidths: bool): map<int, Column>
    requires 0 <= j <= e < |cols|
  {
    ExpandRange(RangeOf(cols[j], cols[e], maximumColumnWidth), adjustWidths)
  }

  /** The columns all the runs from position `j` on expand into, later runs loaded over earlier ones. */
  ghost function RunsColumns(cols: seq<Column>, j: int, maximumColumnWidth: real, breakAtGaps: bool, adjustWidths: bool): map<int, Column>
    requires 0 <= j <= |cols|
    decreases |cols| - j
  {
    if j == |cols| then map[] else
      RunColumns(cols, j, RunEnd(cols, j, maximumColumnWidth, breakAtGaps), maximumColumnWidth, adjustWidths)
      + RunsColumns(cols, RunEnd(cols, j, maximumColumnWidth, breakAtGaps) + 1, maximumColumnWidth, breakAtGaps, adjustWidths)
  }

  /** Every column at positions lo..hi-1 is in `l` under its index, loaded alike. */
  ghost predicate Restores(l: map<int, Column>, cols: seq<Column>, lo: int, hi: int, maximumColumnWidth: real, adjustWidths: bool)
    requires 0 <= lo && hi <= |cols|
  {
    forall t :: lo <= t < hi ==> cols[t].index in l && LoadedLike(l[cols[t].index], cols[t], maximumColumnWidth, adjustWidths)
  }

  /** Every index of `l` is the index of a column from position `j` on. */
  ghost predicate OnlyFrom(l: map<int, Column>, cols: seq<Column>, j: int) {
    forall k {:trigger Listed(cols, j, k)} :: k in l ==> Listed(cols, j, k)
  }

  /** One gapless run expands into exactly its own columns, loaded alike. */
  lemma RunColumnsExact(cols: seq<Column>, j: int, e: int, maximumColumnWidth: real)
    requires 0 <= j < |cols| && Ascending(cols) && e == RunEnd(cols, j, maximumColumnWidth, true)
    ensures Restores(RunColumns(cols, j, e, maximumColumnWidth, false), cols, j, e + 1, maximumColumnWidth, false)
    ensures OnlyFrom(RunColumns(cols, j, e, maximumColumnWidth, false), cols, j)
    ensures forall k :: k in RunColumns(cols, j, e, maximumColumnWidth, false) ==> k <= cols[e].index
  {
    RunEndJoined(cols, j, e, maximumColumnWidth, true);
    RunUniform(cols, j, e, maximumColumnWidth);
    var m := RunColumns(cols, j, e, maximumColumnWidth, false);
    forall k | k in m
      ensures Listed(cols, j, k)
    {
      var t := j + (k - cols[j].index);
      assert cols[t].index == k;
    }
  }

  /**
   * All the runs from position `j` on expand into exactly the columns from
   * `j` on, each loaded alike: no run overwrites another's columns.
   */
  lemma {:induction false} RunsColumnsExact(cols: seq<Column>, j: int, maximumColumnWidth: real) returns (m: map<int, Column>)
    requires 0 <= j <= |cols| && Ascending(cols)
    ensures m == RunsColumns(cols, j, maximumColumnWidth, true, false)
    ensures Restores(m, cols, j, |cols|, maximumColumnWidth, false) && OnlyFrom(m, cols, j)
    decreases |cols| - j
  {
    if j == |cols| {
      m := map[];
    } else {
      var e := RunEnd(cols, j, maximumColumnWidth, true);
      var first := RunColumns(cols, j, e, maximumColumnWidth, false);
      var rest := RunsColumnsExact(cols, e + 1, maximumColumnWidth);
      RunColumnsExact(cols, j, e, maximumColumnWidth);
      JoinRuns(first, rest, cols, j, e, maximumColumnWidth);
      RunsColumnsCons(cols, j, e, first, rest, maximumColumnWidth, true, false);
      m := first + rest;
    }
  }

  /** The columns of all the runs from `j` are the first run's columns joined with those of the later runs. */
  lemma RunsColumnsCons(cols: seq<Column>, j: int, e: int, first: map<int, Column>, rest: map<int, Column>, maximumColumnWidth: real, breakAtGaps: bool, adjustWidths: bool)
    requires 0 <= j < |cols| && e == RunEnd(cols, j, maximumColumnWidth, breakAtGaps)
    requires first == RunColumns(cols, j, e, maximumColumnWidth, adjustWidths)
    requires rest == RunsColumns(cols, e + 1, maximumColumnWidth, breakAtGaps, adjustWidths)
    ensures first + rest == RunsColumns(cols, j, maximumColumnWidth, breakAtGaps, adjustWidths)
  {
    RunsColumnsStep(cols, j, maximumColumnWidth, breakAtGaps, adjustWidths);
  }

  /** The columns of the runs from `j` are those of the first run with those of the later runs loaded over them. */
  lemma RunsColumnsStep(cols: seq<Column>, j: int, maximumColumnWidth: real, breakAtGaps: bool, adjustWidths: bool)
    requires 0 <= j < |cols|
    ensures RunsColumns(cols, j, maximumColumnWidth, breakAtGaps, adjustWidths)
      == RunColumns(cols, j, RunEnd(cols, j, maximumColumnWidth, breakAtGaps), maximumColumnWidth, adjustWidths)
         + RunsColumns(cols, RunEnd(cols, j, maximumColumnWidth, breakAtGaps) + 1, maximumColumnWidth, breakAtGaps, adjustWidths)
  {
  }

  /**
   * The columns of the run from `j` to `e`, with the columns of the later
   * runs loaded over them, are exactly the columns from `j` on.
   */
  lemma JoinRuns(first: map<int, Column>, rest: map<int, Column>, cols: seq<Column>, j: int, e: int, maximumColumnWidth: real)
    requires 0 <= j <= e < |cols| && Ascending(cols)
    requires Restores(first, cols, j, e + 1, maximumColumnWidth, false) && OnlyFrom(first, cols, j)
    requires Restores(rest, cols, e + 1, |cols|, maximumColumnWidth, false) && OnlyFrom(rest, cols, e + 1)
    ensures Restores(first + rest, cols, j, |cols|, maximumColumnWidth, false)
    ensures OnlyFrom(first + rest, cols, j)
  {
    forall k | k in rest
      ensures cols[e].index < k
    {
      assert Listed(cols, e + 1, k);
    }
    forall k | k in first + rest
      ensures Listed(cols, j, k)
    {
      if k in rest {
        assert Listed(cols, e + 1, k);
        var u :| 0 <= e + 1 <= u < |cols| && cols[u].index == k;
      }
    }
  }

  /** Loading one map after another is loading their union at once. */
  lemma UnionAssociates(a: map<int, Column>, b: map<int, Column>, c: map<int, Column>)
    ensures (a + b) + c == a + (b + c)
  {
    forall k | k in a + (b + c)
      ensures k in (a + b) + c && ((a + b) + c)[k] == (a + (b + c))[k]
    {
    }
    assert ((a + b) + c).Keys == (a + (b + c)).Keys;
  }

  /** Loading the ranges of valid columns puts the runs' columns on top of `acc`. */
  lemma {:induction false} LoadRuns(acc: map<int, Column>, cols: seq<Column>, j: int, maximumColumnWidth: real, breakAtGaps: bool, adjustWidths: bool)
    requires 0 <= j <= |cols|
    requires forall t :: 0 <= t < |cols| ==> CC.MinColumn <= cols[t].index < CC.MaxColumn
    ensures LoadFrom(acc, Runs(cols, j, maximumColumnWidth, breakAtGaps), adjustWidths)
      == Ok(acc + RunsColumns(cols, j, maximumColumnWidth, breakAtGaps, adjustWidths))
    decreases |cols| - j
  {
    var rs := Runs(cols, j, maximumColumnWidth, breakAtGaps);
    if j == |cols| {
      assert rs == [];
      assert acc + RunsColumns(cols, j, maximumColumnWidth, breakAtGaps, adjustWidths) == acc;
    } else {
      var e := RunEnd(cols, j, maximumColumnWidth, breakAtGaps);
      var first := RunColumns(cols, j, e, maximumColumnWidth, adjustWidths);
      assert rs[0] == RangeOf(cols[j], cols[e], maximumColumnWidth);
      assert rs[1..] == Runs(cols, e + 1, maximumColumnWidth, breakAtGaps);
      assert LoadFrom(acc, rs, adjustWidths) == LoadFrom(acc + first, rs[1..], adjustWidths);
      LoadRuns(acc + first, cols, e + 1, maximumColumnWidth, breakAtGaps, adjustWidths);
      var rest := RunsColumns(cols, e + 1, maximumColumnWidth, breakAtGaps, adjustWidths);
      assert RunsColumns(cols, j, maximumColumnWidth, breakAtGaps, adjustWidths) == first + rest;
      UnionAssociates(acc, first, rest);
    }
  }

  /**
   * The round trip through the corrected writer and loader: the columns of
   * a collection below the last column, compacted (with the trailing range
   * appended when ranges were loaded) and loaded again, come back at the
   * same indexes and only there, with the same reported width and flags.
   */
  lemma RoundTrip(columns: map<int, Column>, maximumColumnWidth: real, loadedCount: nat) returns (l: map<int, Column>)
    requires Bound(columns, MoveColumn)
    requires forall k :: k in columns ==> CC.MinColumn <= k < CC.MaxColumn
    ensures LoadFrom(map[], WithTrailingRange(Runs(Ordered(columns), 0, maximumColumnWidth, true), loadedCount), false) == Ok(l)
    ensures l.Keys == columns.Keys
    ensures forall k :: k in columns ==> LoadedLike(l[k], columns[k], maximumColumnWidth, false)
  {
    var cols := Ordered(columns);
    OrderedColumns(columns);
    l := LoadListed(cols, maximumColumnWidth);
    TrailingRangeNotLoaded(map[], Runs(cols, 0, maximumColumnWidth, true), loadedCount, false);
    SameColumns(columns, cols, l, maximumColumnWidth);
  }

  /**
   * Loading the corrected ranges of ascending, valid columns into an empty
   * collection restores every one of those columns and nothing else.
   */
  lemma LoadListed(cols: seq<Column>, maximumColumnWidth: real) returns (l: map<int, Column>)
    requires Ascending(cols)
    requires forall t :: 0 <= t < |cols| ==> CC.MinColumn <= cols[t].index < CC.MaxColumn
    ensures LoadFrom(map[], Runs(cols, 0, maximumColumnWidth, true), false) == Ok(l)
    ensures Restores(l, cols, 0, |cols|, maximumColumnWidth, false) && OnlyFrom(l, cols, 0)
  {
    l := RunsColumnsExact(cols, 0, maximumColumnWidth);
    LoadRuns(map[], cols, 0, maximumColumnWidth, true, false);
    assert map[] + l == l;
  }

  /**
   * Columns restored from a listing of a collection's columns, and only
   * from it, are the collection's columns, loaded alike.
   */
  lemma SameColumns(columns: map<int, Column>, cols: seq<Column>, l: map<int, Column>, maximumColumnWidth: real)
    requires forall t :: 0 <= t < |cols| ==> cols[t].index in columns && columns[cols[t].index] == cols[t]
    requires forall k {:trigger Listed(cols, 0, k)} :: k in columns ==> Listed(cols, 0, k)
    requires Restores(l, cols, 0, |cols|, maximumColumnWidth, false) && OnlyFrom(l, cols, 0)
    ensures l.Keys == columns.Keys
    ensures forall k :: k in columns ==> LoadedLike(l[k], columns[k], maximumColumnWidth, false)
  {
    forall k | k in columns
      ensures k in l && LoadedLike(l[k], columns[k], maximumColumnWidth, false)
    {
      assert Listed(cols, 0, k);
      var t :| 0 <= t < |cols| && cols[t].index == k;
    }
    forall k | k in l
      ensures k in columns
    {
      assert Listed(cols, 0, k);
    }
  }

  /** The columns of a collection in index order are ascending, each under its own index, and every column is among them. */
  lemma OrderedColumns(columns: map<int, Column>)
    requires Bound(columns, MoveColumn)
    requires forall k :: k in columns ==> CC.MinColumn <= k < CC.MaxColumn
    ensures Ascending(Ordered(columns))
    ensures forall t :: 0 <= t < |Ordered(columns)| ==> CC.MinColumn <= Ordered(columns)[t].index < CC.MaxColumn
    ensures forall t :: 0 <= t < |Ordered(columns)| ==>
      Ordered(columns)[t].index in columns && columns[Ordered(columns)[t].index] == Ordered(columns)[t]
    ensures forall k {:trigger Listed(Ordered(columns), 0, k)} :: k in columns ==> Listed(Ordered(columns), 0, k)
  {
    var cols := Ordered(columns);
    var keys := KeysIn(columns, Lo(columns), Hi(columns));
    ValuesInKeys(columns, Lo(columns), Hi(columns));
    InSpan(columns);
    forall t | 0 <= t < |cols|
      ensures cols[t].index == keys[t] && keys[t] in columns
    {
      assert cols[t] == columns[keys[t]];
    }
    forall k | k in columns
      ensures Listed(cols, 0, k)
    {
      assert k in keys;
      var t :| 0 <= t < |keys| && keys[t] == k;
    }
  }

  /** Inside a run, every column is similar to the start column. */
  lemma {:induction false} RunSimilar(cols: seq<Column>, j: int, e: int, maximumColumnWidth: real, breakAtGaps: bool)
    requires 0 <= j <= e < |cols|
    requires forall i :: j < i <= e ==> Joined(cols, i, maximumColumnWidth, breakAtGaps)
    ensures forall t :: j <= t <= e ==> Similar(cols[t], cols[j], maximumColumnWidth)
    decreases e - j
  {
    if j < e {
      RunSimilar(cols, j, e - 1, maximumColumnWidth, breakAtGaps);
      assert Joined(cols, e, maximumColumnWidth, breakAtGaps);
    }
  }

  /**
   * A run loaded through the width setter holds each of its columns, with
   * the adjusted width, and only indexes between the run's two ends.
   */
  lemma RunColumnsCover(cols: seq<Column>, j: int, e: int, maximumColumnWidth: real, breakAtGaps: bool)
    requires 0 <= j < |cols| && Ascending(cols) && e == RunEnd(cols, j, maximumColumnWidth, breakAtGaps)
    ensures Restores(RunColumns(cols, j, e, maximumColumnWidth, true), cols, j, e + 1, maximumColumnWidth, true)
    ensures Within(RunColumns(cols, j, e, maximumColumnWidth, true), cols, j, e)
  {
    RunEndJoined(cols, j, e, maximumColumnWidth, breakAtGaps);
    RunSimilar(cols, j, e, maximumColumnWidth, breakAtGaps);
    forall k | k in RunColumns(cols, j, e, maximumColumnWidth, true)
      ensures Spans(cols, j, e, k)
    {
    }
  }

  /**
   * All the runs from position `j` on, loaded through the width setter,
   * hold each column from `j` on, with the adjusted width, and only indexes
   * between the first and the last of those columns.
   */
  lemma {:induction false} RunsColumnsCover(cols: seq<Column>, j: int, maximumColumnWidth: real, breakAtGaps: bool) returns (m: map<int, Column>)
    requires 0 <= j <= |cols| && Ascending(cols)
    ensures m == RunsColumns(cols, j, maximumColumnWidth, breakAtGaps, true)
    ensures Restores(m, cols, j, |cols|, maximumColumnWidth, true) && Within(m, cols, j, |cols| - 1)
    decreases |cols| - j
  {
    if j == |cols| {
      m := map[];
    } else {
      var e := RunEnd(cols, j, maximumColumnWidth, breakAtGaps);
      var first := RunColumns(cols, j, e, maximumColumnWidth, true);
      var rest := RunsColumnsCover(cols, e + 1, maximumColumnWidth, breakAtGaps);
      RunColumnsCover(cols, j, e, maximumColumnWidth, breakAtGaps);
      JoinCover(first, rest, cols, j, e, maximumColumnWidth);
      RunsColumnsCons(cols, j, e, first, rest, maximumColumnWidth, breakAtGaps, true);
      m := first + rest;
    }
  }

  /** Index `k` lies between two indexes of `columns`. */
  ghost predicate Spanned(columns: map<int, Column>, k: int) {
    exists a, b :: a in columns && b in columns && a <= k <= b
  }

  /**
   * Every index of `m` lies between the indexes of the columns at
   * positions `lo` and `hi`; with no such positions `m` is empty.
   */
  ghost predicate Within(m: map<int, Column>, cols: seq<Column>, lo: int, hi: int) {
    forall k {:trigger Spans(cols, lo, hi, k)} :: k in m ==> Spans(cols, lo, hi, k)
  }

  /** Index `k` lies between the indexes of the columns at positions `lo` and `hi`. */
  ghost predicate Spans(cols: seq<Column>, lo: int, hi: int, k: int) {
    0 <= lo <= hi < |cols| && cols[lo].index <= k <= cols[hi].index
  }

  /**
   * The columns of the run from `j` to `e`, with the columns of the later
   * runs loaded over them, hold every column from `j` on: the later runs
   * start above the run's last column.
   */
  lemma JoinCover(first: map<int, Column>, rest: map<int, Column>, cols: seq<Column>, j: int, e: int, maximumColumnWidth: real)
    requires 0 <= j <= e < |cols| && Ascending(cols)
    requires Restores(first, cols, j, e + 1, maximumColumnWidth, true) && Within(first, cols, j, e)
    requires Restores(rest, cols, e + 1, |cols|, maximumColumnWidth, true)
    requires Within(rest, cols, e + 1, |cols| - 1)
    ensures Restores(first + rest, cols, j, |cols|, maximumColumnWidth, true)
    ensures Within(first + rest, cols, j, |cols| - 1)
  {
    forall t | j <= t <= e
      ensures cols[t].index !in rest
    {
      assert cols[t].index in rest ==> Spans(cols, e + 1, |cols| - 1, cols[t].index);
      if e + 1 < |cols| {
        assert cols[t].index < cols[e + 1].index;
      }
    }
    forall k | k in first + rest
      ensures Spans(cols, j, |cols| - 1, k)
    {
      if k in rest {
        assert Spans(cols, e + 1, |cols| - 1, k);
        assert cols[j].index < cols[e + 1].index;
      } else {
        assert Spans(cols, j, e, k);
        assert cols[e].index <= cols[|cols| - 1].index;
      }
    }
  }

  /**
   * The round trip through the writer and the loader as written: every
   * column of a collection below the last column comes back at its index,
   * with its flags and with its reported width plus the setter's
   * adjustment.
   */
  lemma RoundTripAsWritten(columns: map<int, Column>, maximumColumnWidth: real, loadedCount: nat) returns (l: map<int, Column>)
    requires Bound(columns, MoveColumn)
    requires forall k :: k in columns ==> CC.MinColumn <= k < CC.MaxColumn
    ensures LoadFrom(map[], WithTrailingRange(Runs(Ordered(columns), 0, maximumColumnWidth, false), loadedCount), true) == Ok(l)
    ensures columns.Keys <= l.Keys
    ensures forall k :: k in columns ==> LoadedLike(l[k], columns[k], maximumColumnWidth, true)
  {
    var cols := Ordered(columns);
    l := LoadAsWritten(columns, maximumColumnWidth, loadedCount);
    assert columns.Keys <= l.Keys && forall k :: k in columns ==> LoadedLike(l[k], columns[k], maximumColumnWidth, true) by {
      OrderedColumns(columns);
      var _ := RunsColumnsCover(cols, 0, maximumColumnWidth, false);
      CoveredColumns(columns, cols, l, maximumColumnWidth);
    }
  }

  /**
   * The same round trip brings back only indexes that lie between two of
   * the collection's columns: similar columns on both sides of a gap are
   * written as one range, which fills the gap when loaded.
   */
  lemma RoundTripAsWrittenSpans(columns: map<int, Column>, maximumColumnWidth: real, loadedCount: nat) returns (l: map<int, Column>)
    requires Bound(columns, MoveColumn)
    requires forall k :: k in columns ==> CC.MinColumn <= k < CC.MaxColumn
    ensures LoadFrom(map[], WithTrailingRange(Runs(Ordered(columns), 0, maximumColumnWidth, false), loadedCount), true) == Ok(l)
    ensures forall k :: k in l ==> Spanned(columns, k)
  {
    var cols := Ordered(columns);
    l := LoadAsWritten(columns, maximumColumnWidth, loadedCount);
    assert forall k :: k in l ==> Spanned(columns, k) by {
      OrderedColumns(columns);
      var _ := RunsColumnsCover(cols, 0, maximumColumnWidth, false);
      SpannedWithin(columns, cols, l);
    }
  }

  /** What the loader as written makes of the ranges written as written: the runs' columns. */
  lemma LoadAsWritten(columns: map<int, Column>, maximumColumnWidth: real, loadedCount: nat) returns (l: map<int, Column>)
    requires Bound(columns, MoveColumn)
    requires forall k :: k in columns ==> CC.MinColumn <= k < CC.MaxColumn
    ensures l == RunsColumns(Ordered(columns), 0, maximumColumnWidth, false, true)
    ensures LoadFrom(map[], WithTrailingRange(Runs(Ordered(columns), 0, maximumColumnWidth, false), loadedCount), true) == Ok(l)
  {
    var cols := Ordered(columns);
    l := RunsColumns(cols, 0, maximumColumnWidth, false, true);
    OrderedColumns(columns);
    LoadRuns(map[], cols, 0, maximumColumnWidth, false, true);
    assert map[] + l == l;
    TrailingRangeNotLoaded(map[], Runs(cols, 0, maximumColumnWidth, false), loadedCount, true);
  }

  /**
   * Columns loaded over a listing of a collection's columns hold every
   * column of the collection, loaded alike.
   */
  lemma CoveredColumns(columns: map<int, Column>, cols: seq<Column>, l: map<int, Column>, maximumColumnWidth: real)
    requires forall t :: 0 <= t < |cols| ==> cols[t].index in columns && columns[cols[t].index] == cols[t]
    requires forall k {:trigger Listed(cols, 0, k)} :: k in columns ==> Listed(cols, 0, k)
    requires Restores(l, cols, 0, |cols|, maximumColumnWidth, true)
    ensures columns.Keys <= l.Keys
    ensures forall k :: k in columns ==> LoadedLike(l[k], columns[k], maximumColumnWidth, true)
  {
    forall k | k in columns
      ensures k in l && LoadedLike(l[k], columns[k], maximumColumnWidth, true)
    {
      assert Listed(cols, 0, k);
      var t :| 0 <= t < |cols| && cols[t].index == k;
    }
  }

  /** Every index between the first and the last of a listing of a collection's columns is spanned by the collection. */
  lemma SpannedWithin(columns: map<int, Column>, cols: seq<Column>, l: map<int, Column>)
    requires forall t :: 0 <= t < |cols| ==> cols[t].index in columns
    requires Within(l, cols, 0, |cols| - 1)
    ensures forall k :: k in l ==> Spanned(columns, k)
  {
    forall k | k in l
      ensures Spanned(columns, k)
    {
      assert Spans(cols, 0, |cols| - 1, k);
      assert cols[0].index in columns && cols[|cols| - 1].index in columns;
    }
  }

  // ---------------------------------------------------------------------
  // Writing
  // ---------------------------------------------------------------------

  /**
   * The ranges written: the compacted ranges and, when ranges were loaded
   * and the last range ends before the last column, a trailing range with
   * the last range's style and default width up to the last column.
   */
  function WithTrailingRange(compacted: seq<ColumnRange>, loadedCount: nat): (r: seq<ColumnRange>)
    ensures |compacted| == 0 ==> r == []
    ensures |r| == |compacted| || |r| == |compacted| + 1
    ensures |compacted| > 0 ==> r[..|compacted|] == compacted
    ensures |compacted| > 0 ==> (|r| == |compacted| + 1 <==> compacted[|compacted| - 1].maxIndex < CC.MaxColumn && loadedCount > 0)
    ensures |r| == |compacted| + 1 ==>
      var last := compacted[|compacted| - 1];
      r[|compacted|] == ColumnRange(last.maxIndex + 1, CC.MaxColumn, last.styleIndex, DefaultColumnWidth, false, false)
  {
    if |compacted| == 0 then []
    else
      var last := compacted[|compacted| - 1];
      if last.maxIndex < CC.MaxColumn && loadedCount > 0
      then compacted + [ColumnRange(last.maxIndex + 1, CC.MaxColumn, last.styleIndex, DefaultColumnWidth, false, false)]
      else compacted
  }

  /** Reading back what was written: the trailing range reaches the last column and is never loaded. */
  lemma TrailingRangeNotLoaded(acc: map<int, Column>, compacted: seq<ColumnRange>, loadedCount: nat, adjustWidths: bool)
    ensures LoadFrom(acc, WithTrailingRange(compacted, loadedCount), adjustWidths) == LoadFrom(acc, compacted, adjustWidths)
  {
    if |compacted| > 0 {
      var last := compacted[|compacted| - 1];
      if last.maxIndex < CC.MaxColumn && loadedCount > 0 {
        LoadStopsAtLast(acc, compacted, ColumnRange(last.maxIndex + 1, CC.MaxColumn, last.styleIndex, DefaultColumnWidth, false, false), adjustWidths);
      }
    }
  }

  // ---------------------------------------------------------------------
  // The collection
  // ---------------------------------------------------------------------

  /** The columns of one worksheet by index, and the column ranges it was read with, by their first index. */
  class ColumnCollection {
    var columns: map<int, Column>
    var ranges: map<int, ColumnRange>

    /** Every column is stored under its own index. */
    ghost predicate Valid()
      reads this
    {
      Bound(columns, MoveColumn)
    }

    constructor()
      ensures columns == map[] && ranges == map[]
      ensures Valid()
    {
      columns := map[];
      ranges := map[];
    }

    function Count(): nat
      reads this
    {
      |columns|
    }

    predicate Contains(index: int)
      reads this
    {
      index in columns
    }

    /** The indexer: a missing column is created with the defaults (which rejects an invalid index) and kept. */
    method Get(index: int) returns (r: Result<Column>)
      requires Valid()
      modifies this
      ensures Valid() && ranges == old(ranges)
      ensures old(index in columns) ==> r == Ok(old(columns)[index]) && columns == old(columns)
      ensures old(index !in columns) ==> r == DefaultColumn(index)
      ensures old(index !in columns) && r.Ok? ==> columns == old(columns)[index := r.value]
      ensures r.Err? ==> columns == old(columns)
      ensures r.Ok? ==> r.value.index == index
    {
      if index in columns {
        return Ok(columns[index]);
      }
      r := DefaultColumn(index);
      if r.Ok? {
        columns := columns[index := r.value];
      }
    }

    /** Reading a range: stored under its first index, replacing any range stored there. */
    method AddRange(range: ColumnRange)
      modifies this
      ensures ranges == old(ranges)[range.minIndex := range]
      ensures columns == old(columns)
    {
      ranges := ranges[range.minIndex := range];
    }

    /**
     * Inserting a column: when some column sits at or after its index, all
     * those move up by one (and the caller shifts every row's cells); the
     * new column is then stored at its index.
     */
    method InsertColumn(newColumn: Column) returns (r: Column, shifted: bool)
      requires Valid()
      modifies this
      ensures Valid() && ranges == old(ranges)
      ensures shifted <==> exists k :: k in old(columns) && k >= newColumn.index
      ensures columns == (if shifted then ShiftUp(old(columns), newColumn.index, MoveColumn) else old(columns))[newColumn.index := newColumn]
      ensures r == newColumn
    {
      var high := GetMaxKey(columns);
      shifted := columns != map[] && high >= newColumn.index;
      if shifted {
        MoveColumnRebinds();
        ShiftUpBound(columns, newColumn.index, MoveColumn, newColumn);
        columns := ShiftUpKeys(columns, newColumn.index, MoveColumn);
      } else {
        assert columns.Keys != {} ==> high in columns.Keys;
      }
      columns := columns[newColumn.index := newColumn];
      r := newColumn;
    }

    /** Inserting a default column at an index; an invalid index is rejected before anything moves. */
    method Insert(index: int) returns (r: Result<Column>, shifted: bool)
      requires Valid()
      modifies this
      ensures Valid() && ranges == old(ranges)
      ensures r.Err? <==> !ValidColumnIndex(index)
      ensures r.Err? ==> r.error == ArgumentOutOfRange && columns == old(columns) && !shifted
      ensures r.Ok? ==> r == DefaultColumn(index)
      ensures r.Ok? ==> (shifted <==> exists k :: k in old(columns) && k >= index)
      ensures r.Ok? ==> columns == (if shifted then ShiftUp(old(columns), index, MoveColumn) else old(columns))[index := r.value]
    {
      r := DefaultColumn(index);
      shifted := false;
      if r.Ok? {
        var c;
        c, shifted := InsertColumn(r.value);
      }
    }

    /** Deleting a column: when it exists, it goes and every later column moves down by one. */
    method Delete(index: int) returns (deleted: bool)
      requires Valid()
      modifies this
      ensures Valid() && ranges == old(ranges)
      ensures deleted == old(index in columns)
      ensures columns == if deleted then ShiftDown(old(columns), index, MoveColumn) else old(columns)
    {
      deleted := index in columns;
      if deleted {
        MoveColumnRebinds();
        ShiftDownBound(columns, index, MoveColumn);
        columns := ShiftDownKeys(columns, index, MoveColumn);
      }
    }

    /**
     * Copying a column to another index: the index must be in 1..16383; the
     * copy takes the column's reported width and is inserted at the new
     * index (copying its cells is the worksheet's part).
     */
    method CopyTo(column: Column, insertIndex: int, maximumColumnWidth: real) returns (r: Result<Column>, shifted: bool)
      requires Valid()
      modifies this
      ensures Valid() && ranges == old(ranges)
      ensures r.Ok? <==> 0 < insertIndex < CC.MaxColumn && ValidColumnIndex(column.index)
      ensures r.Err? ==> r.error == ArgumentOutOfRange && columns == old(columns) && !shifted
      ensures r.Ok? ==> r.value == Column(insertIndex, column.styleIndex, Width(column, maximumColumnWidth), column.isBestFit, column.isCustomWidth)
      ensures r.Ok? ==> (shifted <==> exists k :: k in old(columns) && k >= insertIndex)
      ensures r.Ok? ==> columns == (if shifted then ShiftUp(old(columns), insertIndex, MoveColumn) else old(columns))[insertIndex := r.value]
    {
      shifted := false;
      if !(0 < insertIndex < CC.MaxColumn) {
        r := Err(ArgumentOutOfRange);
        return;
      }
      var clone := NewColumn(column.index, column.styleIndex, Width(column, maximumColumnWidth), column.isBestFit, column.isCustomWidth);
      if clone.Err? {
        r := Err(clone.error);
        return;
      }
      var c;
      c, shifted := InsertColumn(MoveColumn(clone.value, insertIndex));
      r := Ok(c);
    }

    /**
     * Auto-fit of every column in index order, each with the required
     * widths of its cells; the first column without cells fails the call,
     * leaving the columns before it fitted.
     */
    method AutoFitAll(requiredWidths: map<int, seq<real>>) returns (r: Result<()>)
      requires Valid()
      modifies this
      ensures Valid() && ranges == old(ranges)
      ensures r.Ok? <==> forall k :: k in old(columns) ==> |WidthsOf(requiredWidths, k)| > 0
      ensures r.Ok? ==> AllFitted(old(columns), columns, requiredWidths)
      ensures r.Err? ==> r.error == InvalidOperation
      ensures r.Err? ==> exists f :: FirstUnfit(old(columns), requiredWidths, f) && columns == FittedBelow(old(columns), requiredWidths, f)
    {
      var fitted, failedAt := FitInOrder(columns, requiredWidths);
      FittedBound(columns, requiredWidths, if failedAt.Some? then failedAt.value else Hi(columns));
      columns := fitted;
      r := if failedAt.Some? then Err(InvalidOperation) else Ok(());
    }

    /**
     * Loading the columns from the ranges, in order of their first index.
     * Each column takes the range's width through the public setter, so a
     * positive width gains the adjustment. A range reaching the last column
     * stops the loading.
     */
    method LoadColumns() returns (r: Result<()>)
      modifies this
      ensures ranges == old(ranges)
      ensures var l := LoadFrom(map[], Ordered(old(ranges)), true);
        (r.Ok? <==> l.Ok?) && (l.Ok? ==> columns == l.value)
      ensures r.Err? ==> r.error == ArgumentOutOfRange
      ensures r.Ok? ==> Valid()
    {
      var rs := OrderedValues(ranges);
      var acc: map<int, Column> := map[];
      var i := 0;
      while i < |rs|
        invariant 0 <= i <= |rs|
        invariant LoadFrom(acc, rs[i..], true) == LoadFrom(map[], rs, true)
        invariant Bound(acc, MoveColumn)
        invariant ranges == old(ranges)
        decreases |rs| - i
      {
        if rs[i].maxIndex >= CC.MaxColumn {
          break;
        }
        var expanded := ExpandRangeInto(acc, rs[i], true);
        if expanded.Err? {
          return Err(expanded.error);
        }
        assert rs[i..][1..] == rs[i + 1..];
        acc := expanded.value;
        i := i + 1;
      }
      columns := acc;
      r := Ok(());
    }

    /**
     * The ranges written for the worksheet: similar columns in index order
     * form one range, even across a gap, followed by the trailing range.
     * With no columns the compaction dereferences a missing start column.
     */
    method WriteColumns(maximumColumnWidth: real) returns (r: Result<seq<ColumnRange>>)
      ensures |columns| == 0 ==> r == Err(NullReference)
      ensures |columns| > 0 ==> r == Ok(WithTrailingRange(Runs(Ordered(columns), 0, maximumColumnWidth, false), |ranges|))
    {
      var cols := OrderedValues(columns);
      OrderedEmpty(columns);
      var compacted := CollectRanges(cols, maximumColumnWidth, false);
      if compacted.Err? {
        return Err(compacted.error);
      }
      r := Ok(WithTrailingRange(compacted.value, |ranges|));
    }
  }

  /**
   * The loop of the collection's auto-fit over the columns in index order:
   * it stops at the first column without cells.
   */
  method FitInOrder(m: map<int, Column>, requiredWidths: map<int, seq<real>>) returns (fitted: map<int, Column>, failedAt: Option<int>)
    ensures failedAt.None? <==> forall k :: k in m ==> |WidthsOf(requiredWidths, k)| > 0
    ensures failedAt.None? ==> fitted == FittedBelow(m, requiredWidths, Hi(m))
    ensures failedAt.Some? ==> FirstUnfit(m, requiredWidths, failedAt.value) && fitted == FittedBelow(m, requiredWidths, failedAt.value)
  {
    if m == map[] {
      fitted, failedAt := m, None;
      FitComplete(m, requiredWidths, 0, fitted);
    } else {
      var least := GetMinKey(m);
      var greatest := GetMaxKey(m);
      FittedStart(m, requiredWidths, least);
      var k, stopped;
      fitted, k, stopped := FitFrom(m, requiredWidths, least, greatest);
      if stopped {
        FitStopped(m, requiredWidths, k, fitted);
        failedAt := Some(k);
      } else {
        FitComplete(m, requiredWidths, k, fitted);
        failedAt := None;
      }
    }
  }

  /**
   * The auto-fit loop from key `least` up to key `greatest`: it stops at the
   * first column without cells, or runs past `greatest`.
   */
  method FitFrom(m: map<int, Column>, requiredWidths: map<int, seq<real>>, least: int, greatest: int)
    returns (fitted: map<int, Column>, k: int, stopped: bool)
    requires least <= greatest + 1 && HasCellsBelow(m, requiredWidths, least)
    requires FittedBelow(m, requiredWidths, least) == m
    ensures fitted == FittedBelow(m, requiredWidths, k) && HasCellsBelow(m, requiredWidths, k)
    ensures stopped ==> k in m && |WidthsOf(requiredWidths, k)| == 0
    ensures !stopped ==> k == greatest + 1
  {
    fitted := m;
    k := least;
    stopped := false;
    while k <= greatest
      invariant k <= greatest + 1
      invariant fitted == FittedBelow(m, requiredWidths, k)
      invariant HasCellsBelow(m, requiredWidths, k)
      decreases greatest - k
    {
      if k in m {
        FittedKeys(m, requiredWidths, k);
        var fit := AutoFit(fitted[k], WidthsOf(requiredWidths, k));
        if fit.Err? {
          stopped := true;
          return;
        }
        FittedStep(m, requiredWidths, k, fitted, fit.value);
        fitted := fitted[k := fit.value];
      } else {
        FittedSkip(m, requiredWidths, k);
      }
      HasCellsStep(m, requiredWidths, k);
      k := k + 1;
    }
  }

  /** The auto-fit loop, run past every key, has fitted every column. */
  lemma FitComplete(m: map<int, Column>, requiredWidths: map<int, seq<real>>, k: int, fitted: map<int, Column>)
    requires forall j :: j in m ==> j < k
    requires fitted == FittedBelow(m, requiredWidths, k) && HasCellsBelow(m, requiredWidths, k)
    ensures forall j :: j in m ==> |WidthsOf(requiredWidths, j)| > 0
    ensures fitted == FittedBelow(m, requiredWidths, Hi(m))
  {
    InSpan(m);
    FittedPast(m, requiredWidths, k, Hi(m));
  }

  /** The auto-fit loop, stopped at a column without cells, has fitted the columns before it. */
  lemma FitStopped(m: map<int, Column>, requiredWidths: map<int, seq<real>>, k: int, fitted: map<int, Column>)
    requires k in m && |WidthsOf(requiredWidths, k)| == 0
    requires fitted == FittedBelow(m, requiredWidths, k) && HasCellsBelow(m, requiredWidths, k)
    ensures !(forall j :: j in m ==> |WidthsOf(requiredWidths, j)| > 0)
    ensures FirstUnfit(m, requiredWidths, k)
  {
  }

  /** Every column below `k` has cells. */
  ghost predicate HasCellsBelow(m: map<int, Column>, requiredWidths: map<int, seq<real>>, k: int) {
    forall j :: j in m && j < k ==> |WidthsOf(requiredWidths, j)| > 0
  }

  lemma HasCellsStep(m: map<int, Column>, requiredWidths: map<int, seq<real>>, k: int)
    requires HasCellsBelow(m, requiredWidths, k)
    requires k in m ==> |WidthsOf(requiredWidths, k)| > 0
    ensures HasCellsBelow(m, requiredWidths, k + 1)
  {
  }

  /** Once every key lies below `k`, moving the bound further changes nothing. */
  lemma FittedPast(m: map<int, Column>, requiredWidths: map<int, seq<real>>, k: int, k': int)
    requires forall j :: j in m ==> j < k && j < k'
    ensures FittedBelow(m, requiredWidths, k) == FittedBelow(m, requiredWidths, k')
  {
  }

  /** Nothing is fitted below the least key. */
  lemma FittedStart(m: map<int, Column>, requiredWidths: map<int, seq<real>>, least: int)
    requires IsMinKey(m.Keys, least)
    ensures FittedBelow(m, requiredWidths, least) == m
  {
  }

  /** Key `k` is not fitted yet below `k`. */
  lemma FittedKeys(m: map<int, Column>, requiredWidths: map<int, seq<real>>, k: int)
    requires k in m
    ensures k in FittedBelow(m, requiredWidths, k) && FittedBelow(m, requiredWidths, k)[k] == m[k]
  {
  }

  /** Fitting key `k` extends the fitted part past `k`. */
  lemma FittedStep(m: map<int, Column>, requiredWidths: map<int, seq<real>>, k: int, fitted: map<int, Column>, c: Column)
    requires k in m && |WidthsOf(requiredWidths, k)| > 0
    requires fitted == FittedBelow(m, requiredWidths, k)
    requires c == AutoFit(m[k], WidthsOf(requiredWidths, k)).value
    ensures fitted[k := c] == FittedBelow(m, requiredWidths, k + 1)
  {
  }

  /** Past an absent key the fitted part is the same. */
  lemma FittedSkip(m: map<int, Column>, requiredWidths: map<int, seq<real>>, k: int)
    requires k !in m
    ensures FittedBelow(m, requiredWidths, k) == FittedBelow(m, requiredWidths, k + 1)
  {
  }

  /** The fitted columns keep their keys and their indexes; past every key, all are fitted. */
  lemma FittedBound(m: map<int, Column>, requiredWidths: map<int, seq<real>>, k: int)
    requires Bound(m, MoveColumn)
    ensures FittedBelow(m, requiredWidths, k).Keys == m.Keys
    ensures Bound(FittedBelow(m, requiredWidths, k), MoveColumn)
    ensures (forall j :: j in m ==> j < k) ==> AllFitted(m, FittedBelow(m, requiredWidths, k), requiredWidths)
  {
  }

  /** Every column of `before` is fitted in `after`, and no column is added or removed. */
  ghost predicate AllFitted(before: map<int, Column>, after: map<int, Column>, requiredWidths: map<int, seq<real>>) {
    after.Keys == before.Keys
    && forall k :: k in before && |WidthsOf(requiredWidths, k)| > 0 ==> after[k] == AutoFit(before[k], WidthsOf(requiredWidths, k)).value
  }

  /** The required widths of the cells of column `k`; a column missing from the map has no cells. */
  function WidthsOf(requiredWidths: map<int, seq<real>>, k: int): seq<real> {
    if k in requiredWidths then requiredWidths[k] else []
  }

  /** `f` is the first column without cells. */
  ghost predicate FirstUnfit(m: map<int, Column>, requiredWidths: map<int, seq<real>>, f: int) {
    f in m && |WidthsOf(requiredWidths, f)| == 0 && forall k :: k in m && k < f ==> |WidthsOf(requiredWidths, k)| > 0
  }

  /** Auto-fit applied to every column below index `k` (all of which have cells). */
  ghost function FittedBelow(m: map<int, Column>, requiredWidths: map<int, seq<real>>, k: int): map<int, Column> {
    map j | j in m :: if j < k && |WidthsOf(requiredWidths, j)| > 0 then AutoFit(m[j], WidthsOf(requiredWidths, j)).value else m[j]
  }
}
