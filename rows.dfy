/**
 * Worksheet rows: a row as a value (index, style, height and its cells) and
 * the row collection, a sorted map from row index to row that is padded
 * with blank rows on access, shifted up on insert and down on delete, and
 * that remembers the greatest index it has handed out.
 */
module Rows {
  import opened Wrappers
  import opened OfficeUtilities
  import opened Shifts
  import opened Cells

  const MinRow: int := 1
  const MaxRow: int := 1048576

  predicate ValidRowIndex(index: int) {
    MinRow <= index <= MaxRow
  }

  /** A row. A height that is not positive means "use the sheet's default height"; `cells` is keyed by column index. */
  datatype Row = Row(index: int, styleIndex: int, height: real, cells: map<int, Cell>)

  /** The row constructor: the index must lie in 1..1048576. */
  function NewRow(index: int, styleIndex: int, height: real): (r: Result<Row>)
    ensures r.Ok? <==> ValidRowIndex(index)
    ensures r.Err? ==> r.error == ArgumentOutOfRange
    ensures r.Ok? ==> r.value.index == index && r.value.styleIndex == styleIndex && r.value.height == height && r.value.cells == map[]
  {
    if ValidRowIndex(index) then Ok(Row(index, styleIndex, height, map[])) else Err(ArgumentOutOfRange)
  }

  /** The blank row the collection pads with: default style, default height, no cells. */
  function BlankRow(index: int): Row {
    Row(index, DefaultStyleIndex, -1.0, map[])
  }

  /** The Height getter: the row's own height when positive, else the sheet's default row height. */
  function Height(row: Row, defaultRowHeight: real): (h: real)
    ensures row.height > 0.0 ==> h == row.height
    ensures row.height <= 0.0 ==> h == defaultRowHeight
    ensures h == row.height || h == defaultRowHeight
  {
    if row.height > 0.0 then row.height else defaultRowHeight
  }

  /** Setting a row's index: the row and every one of its cells now sit at row `j`. */
  function MoveRow(row: Row, j: int): (r: Row)
    ensures r.index == j && r.styleIndex == row.styleIndex && r.height == row.height
    ensures r.cells.Keys == row.cells.Keys
    ensures forall c :: c in r.cells ==> r.cells[c] == row.cells[c].(rowIndex := j)
  {
    row.(index := j, cells := map c | c in row.cells :: row.cells[c].(rowIndex := j))
  }

  /** A row sits at key `k` when it and its cells carry row index `k`. */
  lemma MoveRowFixes(row: Row, k: int)
    requires row.index == k && forall c :: c in row.cells ==> row.cells[c].rowIndex == k
    ensures MoveRow(row, k) == row
  {
    forall c | c in row.cells
      ensures MoveRow(row, k).cells[c] == row.cells[c]
    {
    }
    assert MoveRow(row, k).cells == row.cells;
  }

  /** Moving a row twice is moving it once to the last index. */
  lemma MoveRowTwice(x: Row, a: int, b: int)
    ensures MoveRow(MoveRow(x, a), b) == MoveRow(x, b)
  {
    assert MoveRow(MoveRow(x, a), b).cells == MoveRow(x, b).cells;
  }

  lemma MoveRowRebinds()
    ensures Rebinds(MoveRow)
  {
    forall x: Row, a: int, b: int
      ensures MoveRow(MoveRow(x, a), b) == MoveRow(x, b)
    {
      MoveRowTwice(x, a, b);
    }
  }

  lemma MoveBlankRow(a: int, b: int)
    ensures MoveRow(BlankRow(a), b) == BlankRow(b)
  {
    assert MoveRow(BlankRow(a), b).cells == map[];
  }

  /** The map after padding: every index in lo..hi that was missing holds a blank row. */
  ghost function PaddedRows(s: map<int, Row>, lo: int, hi: int): (r: map<int, Row>)
    ensures forall j :: j in r <==> j in s || lo <= j <= hi
    ensures forall j :: j in s ==> r[j] == s[j]
    ensures forall j :: lo <= j <= hi && j !in s ==> r[j] == BlankRow(j)
    decreases hi - lo
  {
    if hi < lo then s
    else
      var p := PaddedRows(s, lo, hi - 1);
      if hi in s then p else p[hi := BlankRow(hi)]
  }

  /** `m` holds the rows of `s` and a blank row at every missing index in lo..hi, and nothing else. */
  ghost predicate PaddedUpTo(m: map<int, Row>, s: map<int, Row>, lo: int, hi: int) {
    && (forall j :: j in m <==> j in s || lo <= j <= hi)
    && (forall j :: j in s ==> m[j] == s[j])
    && (forall j :: lo <= j <= hi && j !in s ==> m[j] == BlankRow(j))
  }

  /** A map padded over lo..hi is the padded map. */
  lemma PaddedUpToIsPadded(m: map<int, Row>, s: map<int, Row>, lo: int, hi: int)
    requires PaddedUpTo(m, s, lo, hi)
    ensures m == PaddedRows(s, lo, hi)
  {
    var p := PaddedRows(s, lo, hi);
    assert forall j :: j in m <==> j in p;
    assert forall j :: j in m ==> m[j] == p[j];
  }

  /** The rows handed out by earlier inserts after the next insert at or below them: each one index higher. */
  function MovedUp(handed: seq<Row>): (r: seq<Row>)
    ensures |r| == |handed|
    ensures forall k :: 0 <= k < |r| ==> r[k] == MoveRow(handed[k], handed[k].index + 1)
  {
    seq(|handed|, k requires 0 <= k < |handed| => MoveRow(handed[k], handed[k].index + 1))
  }

  /** The rows Insert(index, n) hands out after `n` inserts: the i-th one has moved up to index + n - 1 - i. */
  function HandedOut(index: int, n: nat): (r: seq<Row>)
    ensures |r| == n && forall k :: 0 <= k < n ==> r[k] == BlankRow(index + n - 1 - k)
  {
    seq(n, k requires 0 <= k < n => BlankRow(index + n - 1 - k))
  }

  /** One more insert at `index` moves every row handed out so far one index up and hands out a new one. */
  lemma HandedOutStep(index: int, n: nat)
    ensures MovedUp(HandedOut(index, n)) + [BlankRow(index)] == HandedOut(index, n + 1)
  {
    var a := MovedUp(HandedOut(index, n)) + [BlankRow(index)];
    forall k | 0 <= k < n
      ensures a[k] == BlankRow(index + n - k)
    {
      MoveBlankRow(index + n - 1 - k, index + n - k);
    }
  }

  /** Where padding from `currentMax + 1` up to `indexTo` stops: before the first index the row constructor refuses. */
  function PadEnd(currentMax: int, indexTo: int): (r: int)
    ensures r == currentMax || currentMax < r <= indexTo
    ensures forall j :: currentMax < j <= r ==> ValidRowIndex(j)
    ensures r < indexTo ==> !ValidRowIndex(r + 1)
  {
    if indexTo <= currentMax || !ValidRowIndex(currentMax + 1) then currentMax
    else if indexTo <= MaxRow then indexTo
    else MaxRow
  }

  /** Padding stops before the first index the row constructor refuses. */
  lemma PadEndStops(currentMax: int, indexTo: int, index: int)
    requires currentMax < index <= indexTo && !ValidRowIndex(index)
    requires index > currentMax + 1 ==> ValidRowIndex(currentMax + 1) && ValidRowIndex(index - 1)
    ensures PadEnd(currentMax, indexTo) == index - 1 < indexTo
  {
  }

  /** Padding that meets no refused index reaches `indexTo`, or stays put when `indexTo` is not above `currentMax`. */
  lemma PadEndReaches(currentMax: int, indexTo: int, index: int)
    requires index == indexTo + 1 > currentMax + 1 || (index == currentMax + 1 && indexTo <= currentMax)
    requires index > currentMax + 1 ==> ValidRowIndex(currentMax + 1) && ValidRowIndex(index - 1)
    ensures PadEnd(currentMax, indexTo) == index - 1 >= indexTo
  {
  }

  /** Padding above the greatest index keeps every row at or below the new one. */
  lemma PaddedStaysBelow(s: map<int, Row>, currentMax: int, hi: int)
    requires RowsBelow(s, currentMax) && currentMax <= hi
    ensures RowsBelow(PaddedRows(s, currentMax + 1, hi), hi)
  {
  }

  /** The row element written for a row: its index, and its style and height only when they differ from the defaults. */
  datatype RowElement = RowElement(r: int, s: Option<int>, ht: Option<real>)

  /**
   * WriteRowToWriter: a row none of whose cells is used is not written;
   * otherwise "r" is always written, "s" only for a style above the
   * default and "ht" only for a positive height other than the sheet's
   * default. `textOf` gives a cell's formatted text.
   */
  function WriteRow(row: Row, textOf: Cell -> string, defaultRowHeight: real): (r: Option<RowElement>)
    ensures r.None? <==> forall c :: c in row.cells ==> !IsUsed(row.cells[c], textOf(row.cells[c]))
    ensures r.Some? ==> r.value.r == row.index
    ensures r.Some? ==> (r.value.s.Some? <==> row.styleIndex > DefaultStyleIndex)
    ensures r.Some? && r.value.s.Some? ==> r.value.s.value == row.styleIndex
    ensures r.Some? ==> (r.value.ht.Some? <==> row.height > 0.0 && row.height != defaultRowHeight)
    ensures r.Some? && r.value.ht.Some? ==> r.value.ht.value == row.height
  {
    if forall c :: c in row.cells ==> !IsUsed(row.cells[c], textOf(row.cells[c])) then None
    else
      var h := Height(row, defaultRowHeight);
      Some(RowElement(
        row.index,
        if row.styleIndex > DefaultStyleIndex then Some(row.styleIndex) else None,
        if h > 0.0 && h != defaultRowHeight then Some(h) else None))
  }

  /** The cell a row's collection holds at `columnIndex` in row `rowIndex`, if both are stored. */
  function CellAt(s: map<int, Row>, rowIndex: int, columnIndex: int): Option<Cell> {
    if rowIndex in s && columnIndex in s[rowIndex].cells then Some(s[rowIndex].cells[columnIndex]) else None
  }

  /**
   * The rows after row `rowIndex`'s cell collection stores `cell` at
   * `columnIndex`: that position reads back `cell`, every other position
   * and every row index is as before.
   */
  function StoreCell(s: map<int, Row>, rowIndex: int, columnIndex: int, cell: Cell): (r: map<int, Row>)
    requires rowIndex in s
    ensures r.Keys == s.Keys
    ensures CellAt(r, rowIndex, columnIndex) == Some(cell)
    ensures forall i, j :: i != rowIndex || j != columnIndex ==> CellAt(r, i, j) == CellAt(s, i, j)
    ensures forall i :: i in r ==> r[i].index == s[i].index && r[i].styleIndex == s[i].styleIndex
  {
    s[rowIndex := s[rowIndex].(cells := s[rowIndex].cells[columnIndex := cell])]
  }

  /** No row sits above `currentMax`. */
  ghost predicate RowsBelow(s: map<int, Row>, currentMax: int) {
    forall k :: k in s ==> k <= currentMax
  }

  /** Every index from 1 to `currentMax` holds a row. */
  ghost predicate RowsContiguous(s: map<int, Row>, currentMax: int) {
    forall k :: MinRow <= k <= currentMax ==> k in s
  }

  /** The rows after the internal Insert(Row): rows from the new row's index on move up when that index is at most `currentMax`. */
  ghost function InsertedRows(s: map<int, Row>, currentMax: int, newRow: Row): map<int, Row> {
    (if newRow.index <= currentMax then ShiftUp(s, newRow.index, MoveRow) else s)[newRow.index := newRow]
  }

  /** The greatest index after the internal Insert(Row): one more when the row at the old greatest index moved up, else the larger of the two indexes. */
  function InsertedMax(s: map<int, Row>, currentMax: int, index: int): int {
    if index <= currentMax && currentMax in s then currentMax + 1 else Max(currentMax, index)
  }

  /** The internal Insert(Row) keeps every row at or below the greatest index. */
  lemma InsertedStaysBelow(s: map<int, Row>, currentMax: int, newRow: Row)
    requires RowsBelow(s, currentMax)
    ensures RowsBelow(InsertedRows(s, currentMax, newRow), InsertedMax(s, currentMax, newRow.index))
  {
    if newRow.index <= currentMax {
      ShiftUpTop(s, newRow.index, MoveRow, currentMax);
    }
  }

  /**
   * Inserting as written beyond `currentMax + 1` leaves a gap: on an empty
   * collection, inserting row 3 makes the greatest index 3, so Contains(2)
   * holds, yet no row is stored at 2 and the getter, which pads only above
   * the greatest index, raises KeyNotFound.
   */
  lemma InsertRowAsWrittenLeavesGap()
    ensures var s := InsertedRows(map[], 0, BlankRow(3));
      var m := InsertedMax(map[], 0, 3);
      m == 3 && 2 <= m && PadEnd(m, 2) == m && 2 !in PaddedRows(s, m + 1, PadEnd(m, 2))
  {
  }

  /**
   * What the internal Insert(Row) does at each index: rows below the new
   * row's index stay, the new row takes its index, and the row that sat at
   * j - 1 from that index on now sits at j, moved there; nothing else is
   * stored.
   */
  lemma InsertedRowsAt(s: map<int, Row>, currentMax: int, newRow: Row, j: int)
    requires RowsBelow(s, currentMax)
    ensures var r := InsertedRows(s, currentMax, newRow);
      (j < newRow.index ==> (j in r <==> j in s) && (j in s ==> r[j] == s[j])) &&
      (j == newRow.index ==> j in r && r[j] == newRow) &&
      (j > newRow.index ==> (j in r <==> j - 1 in s) && (j - 1 in s ==> r[j] == MoveRow(s[j - 1], j)))
  {
    if newRow.index <= currentMax {
      ShiftUpKey(s, newRow.index, MoveRow, j);
    } else if j > newRow.index {
      assert j !in s && j - 1 !in s;
    }
  }

  /** Inserting at an index at most one above a contiguous collection keeps it contiguous. */
  lemma InsertedStaysContiguous(s: map<int, Row>, currentMax: int, newRow: Row)
    requires RowsBelow(s, currentMax) && RowsContiguous(s, currentMax)
    requires MinRow <= newRow.index <= currentMax + 1
    ensures RowsContiguous(InsertedRows(s, currentMax, newRow), InsertedMax(s, currentMax, newRow.index))
  {
    var index := newRow.index;
    var r := InsertedRows(s, currentMax, newRow);
    if index <= currentMax {
      ShiftUpAt(s, index, MoveRow);
      forall k | MinRow <= k <= InsertedMax(s, currentMax, index)
        ensures k in r
      {
        if k > index {
          assert k - 1 in s;
        }
      }
    }
  }

  /** Storing a row bound to its index keeps every row bound to its key. */
  lemma InsertedStaysBound(s: map<int, Row>, currentMax: int, newRow: Row)
    requires Bound(s, MoveRow) && MoveRow(newRow, newRow.index) == newRow
    ensures Bound(InsertedRows(s, currentMax, newRow), MoveRow)
  {
    MoveRowRebinds();
    if newRow.index <= currentMax {
      ShiftUpBound(s, newRow.index, MoveRow, newRow);
    }
  }

  /** The state after inserting `n` blank rows at `index`, one at a time, into an already padded collection. */
  ghost function InsertBlankRows(s: map<int, Row>, currentMax: int, index: int, n: nat): (map<int, Row>, int)
    decreases n
  {
    if n == 0 then (s, currentMax)
    else
      var prev := InsertBlankRows(s, currentMax, index, n - 1);
      (InsertedRows(prev.0, prev.1, BlankRow(index)), InsertedMax(prev.0, prev.1, index))
  }

  /**
   * `r` is `s` with `n` blank rows inserted at `index`: rows below `index`
   * stay, the indexes index..index+n-1 hold blank rows and every row from
   * `index` on sits `n` indexes higher, moved there with its cells.
   */
  ghost predicate InsertedBlanks(s: map<int, Row>, r: map<int, Row>, index: int, n: nat) {
    KeptBelow(s, r, index) && BlanksAt(r, index, n) && MovedAbove(s, r, index, n)
  }

  /** The rows below `index` are the ones of `s`. */
  ghost predicate KeptBelow(s: map<int, Row>, r: map<int, Row>, index: int) {
    (forall j :: j < index ==> (j in r <==> j in s)) &&
    (forall j :: j < index && j in s ==> r[j] == s[j])
  }

  /** The indexes index..index+n-1 hold blank rows. */
  ghost predicate BlanksAt(r: map<int, Row>, index: int, n: nat) {
    forall j :: index <= j < index + n ==> j in r && r[j] == BlankRow(j)
  }

  /** Every row of `s` from `index` on sits `n` indexes higher, moved there with its cells. */
  ghost predicate MovedAbove(s: map<int, Row>, r: map<int, Row>, index: int, n: nat) {
    (forall j :: j >= index + n ==> (j in r <==> j - n in s)) &&
    (forall j :: j >= index + n && j - n in s ==> r[j] == MoveRow(s[j - n], j))
  }

  lemma {:induction false} InsertBlankRowsAt(s: map<int, Row>, currentMax: int, index: int, n: nat)
    requires RowsBelow(s, currentMax) && Bound(s, MoveRow)
    ensures InsertedBlanks(s, InsertBlankRows(s, currentMax, index, n).0, index, n)
    ensures RowsBelow(InsertBlankRows(s, currentMax, index, n).0, InsertBlankRows(s, currentMax, index, n).1)
    ensures n > 0 ==> InsertBlankRows(s, currentMax, index, n).1 >= index
  {
    if n > 0 {
      InsertBlankRowsAt(s, currentMax, index, n - 1);
      var prev := InsertBlankRows(s, currentMax, index, n - 1);
      InsertBlankStep(s, prev.0, prev.1, index, n);
    }
  }

  /** The state after one more blank row: the internal insert applied to the state after `n`. */
  lemma InsertBlankRowsNext(s: map<int, Row>, currentMax: int, index: int, n: nat)
    ensures var prev := InsertBlankRows(s, currentMax, index, n);
      InsertBlankRows(s, currentMax, index, n + 1) ==
        (InsertedRows(prev.0, prev.1, BlankRow(index)), InsertedMax(prev.0, prev.1, index))
    ensures InsertBlankRows(s, currentMax, index, n + 1).1 >= index
  {
  }

  /** Inserting blank rows keeps every row bound to the key it is stored under. */
  lemma {:induction false} InsertBlankRowsStayBound(s: map<int, Row>, currentMax: int, index: int, n: nat)
    requires Bound(s, MoveRow)
    ensures Bound(InsertBlankRows(s, currentMax, index, n).0, MoveRow)
    decreases n
  {
    if n > 0 {
      InsertBlankRowsStayBound(s, currentMax, index, n - 1);
      var prev := InsertBlankRows(s, currentMax, index, n - 1);
      MoveRowFixes(BlankRow(index), index);
      InsertedStaysBound(prev.0, prev.1, BlankRow(index));
    }
  }

  /** One step of the blank-row insert: from `n - 1` rows inserted to `n`. */
  lemma InsertBlankStep(s: map<int, Row>, prev: map<int, Row>, prevMax: int, index: int, n: nat)
    requires n > 0 && InsertedBlanks(s, prev, index, n - 1) && RowsBelow(prev, prevMax)
    requires n > 1 ==> index <= prevMax
    ensures InsertedBlanks(s, InsertedRows(prev, prevMax, BlankRow(index)), index, n)
    ensures RowsBelow(InsertedRows(prev, prevMax, BlankRow(index)), InsertedMax(prev, prevMax, index))
    ensures InsertedMax(prev, prevMax, index) >= index
  {
    InsertedStaysBelow(prev, prevMax, BlankRow(index));
    StepBelow(s, prev, prevMax, index);
    StepBlanks(prev, prevMax, index, n);
    StepAbove(s, prev, prevMax, index, n);
  }

  lemma StepBelow(s: map<int, Row>, prev: map<int, Row>, prevMax: int, index: int)
    requires KeptBelow(s, prev, index)
    ensures KeptBelow(s, InsertedRows(prev, prevMax, BlankRow(index)), index)
  {
    if index <= prevMax {
      ShiftUpAt(prev, index, MoveRow);
    }
  }

  lemma StepBlanks(prev: map<int, Row>, prevMax: int, index: int, n: nat)
    requires n > 0 && BlanksAt(prev, index, n - 1)
    requires n > 1 ==> index <= prevMax
    ensures BlanksAt(InsertedRows(prev, prevMax, BlankRow(index)), index, n)
  {
    var r := InsertedRows(prev, prevMax, BlankRow(index));
    forall j | index <= j < index + n
      ensures j in r && r[j] == BlankRow(j)
    {
      if j > index {
        assert j - 1 in prev && prev[j - 1] == BlankRow(j - 1);
      }
      StepBlankAt(prev, prevMax, index, n, j);
    }
  }

  lemma StepBlankAt(prev: map<int, Row>, prevMax: int, index: int, n: nat, j: int)
    requires index <= j < index + n && (n > 1 ==> index <= prevMax)
    requires j > index ==> j - 1 in prev && prev[j - 1] == BlankRow(j - 1)
    ensures j in InsertedRows(prev, prevMax, BlankRow(index))
    ensures InsertedRows(prev, prevMax, BlankRow(index))[j] == BlankRow(j)
  {
    if j > index {
      ShiftUpKey(prev, index, MoveRow, j);
      MoveBlankRow(j - 1, j);
    }
  }

  lemma StepAbove(s: map<int, Row>, prev: map<int, Row>, prevMax: int, index: int, n: nat)
    requires n > 0 && MovedAbove(s, prev, index, n - 1)
    requires RowsBelow(prev, prevMax)
    requires n > 1 ==> index <= prevMax
    ensures MovedAbove(s, InsertedRows(prev, prevMax, BlankRow(index)), index, n)
  {
    var r := InsertedRows(prev, prevMax, BlankRow(index));
    forall j | j >= index + n
      ensures (j in r <==> j - n in s) && (j - n in s ==> r[j] == MoveRow(s[j - n], j))
    {
      assert j - 1 >= index + (n - 1);
      assert j >= index + (n - 1);
      StepAboveAt(s, prev, prevMax, index, n, j);
    }
  }

  lemma StepAboveAt(s: map<int, Row>, prev: map<int, Row>, prevMax: int, index: int, n: nat, j: int)
    requires n > 0 && j >= index + n
    requires j - 1 in prev <==> j - n in s
    requires j - n in s ==> prev[j - 1] == MoveRow(s[j - n], j - 1)
    requires j in prev ==> j <= prevMax
    requires j - 1 in prev ==> j - 1 <= prevMax
    requires n > 1 ==> index <= prevMax
    requires index > prevMax ==> (j in prev <==> j - (n - 1) in s)
    ensures var r := InsertedRows(prev, prevMax, BlankRow(index));
      (j in r <==> j - n in s) && (j - n in s ==> r[j] == MoveRow(s[j - n], j))
  {
    if index <= prevMax {
      ShiftUpKey(prev, index, MoveRow, j);
      if j - n in s {
        MoveRowTwice(s[j - n], j - 1, j);
      }
    }
  }

  /**
   * The padding loop: blank rows from `start` up to `indexTo`, each one
   * created through the row constructor; the first index it refuses stops
   * the loop with its error, the rows added so far kept.
   */
  method PadRows(s: map<int, Row>, start: int, indexTo: int) returns (m: map<int, Row>, last: int, r: Result<()>)
    requires RowsBelow(s, start - 1)
    ensures last == PadEnd(start - 1, indexTo)
    ensures m == PaddedRows(s, start, last)
    ensures r.Err? <==> last < indexTo
    ensures r.Err? ==> r.error == ArgumentOutOfRange
  {
    m := s;
    var index := start;
    while index <= indexTo
      invariant start <= index && (index <= indexTo + 1 || index == start)
      invariant index > start ==> ValidRowIndex(start) && ValidRowIndex(index - 1)
      invariant PaddedUpTo(m, s, start, index - 1)
      decreases indexTo - index
    {
      var row := NewRow(index, DefaultStyleIndex, -1.0);
      if row.Err? {
        PadEndStops(start - 1, indexTo, index);
        PaddedUpToIsPadded(m, s, start, index - 1);
        return m, index - 1, Err(row.error);
      }
      m := m[index := row.value];
      index := index + 1;
    }
    PadEndReaches(start - 1, indexTo, index);
    PaddedUpToIsPadded(m, s, start, index - 1);
    last, r := index - 1, Ok(());
  }

  /**
   * The internal Insert(Row) on the collection's state (rows, greatest
   * index, frozen row): see RowCollection.InsertRowAsWritten.
   */
  method InsertInto(rows: map<int, Row>, currentMax: int, frozenRow: int, newRow: Row)
    returns (rows': map<int, Row>, currentMax': int, frozenRow': int)
    requires RowsBelow(rows, currentMax)
    ensures RowsBelow(rows', currentMax')
    ensures rows' == InsertedRows(rows, currentMax, newRow)
    ensures currentMax' == InsertedMax(rows, currentMax, newRow.index)
    ensures frozenRow' == if newRow.index <= frozenRow then frozenRow + 1 else frozenRow
  {
    var index := newRow.index;
    var m := rows;
    currentMax' := currentMax;
    if index <= currentMax {
      m := ShiftUpKeys(m, index, MoveRow);
      // each moved row is re-added under its new index, which raises the
      // greatest index exactly when the row at the old greatest index moves
      ShiftUpTop(rows, index, MoveRow, currentMax);
      if currentMax in rows {
        currentMax' := currentMax + 1;
      }
    }
    rows' := m[index := newRow];
    currentMax' := Max(currentMax', index);
    frozenRow' := frozenRow;
    if index <= frozenRow {
      frozenRow' := frozenRow + 1;
    }
  }

  /** The inserts after the first in Insert(index, numberOfRows), on the collection's state. */
  method InsertMoreInto(rows: map<int, Row>, currentMax: int, frozenRow: int, index: int, numberOfRows: int,
                        ghost p: map<int, Row>, ghost m: int)
    returns (rows': map<int, Row>, currentMax': int, frozenRow': int, newRows: seq<Row>)
    requires RowsBelow(rows, currentMax) && 1 <= numberOfRows && index <= currentMax
    requires rows == InsertBlankRows(p, m, index, 1).0 && currentMax == InsertBlankRows(p, m, index, 1).1
    ensures RowsBelow(rows', currentMax')
    ensures rows' == InsertBlankRows(p, m, index, numberOfRows).0 && currentMax' == InsertBlankRows(p, m, index, numberOfRows).1
    ensures newRows == HandedOut(index, numberOfRows)
    ensures frozenRow' == if index <= frozenRow then frozenRow + numberOfRows - 1 else frozenRow
  {
    rows', currentMax', frozenRow' := rows, currentMax, frozenRow;
    newRows := [BlankRow(index)];
    assert newRows == HandedOut(index, 1);
    var i := 1;
    while i < numberOfRows
      invariant 1 <= i <= numberOfRows
      invariant RowsBelow(rows', currentMax') && index <= currentMax'
      invariant (rows', currentMax') == InsertBlankRows(p, m, index, i)
      invariant newRows == HandedOut(index, i)
      invariant frozenRow' == if index <= frozenRow then frozenRow + i - 1 else frozenRow
    {
      rows', currentMax', frozenRow', newRows := InsertNextInto(rows', currentMax', frozenRow', newRows, index, i, p, m);
      i := i + 1;
    }
  }

  /** One insert of the loop above, the `i`-th after the first. */
  method InsertNextInto(rows: map<int, Row>, currentMax: int, frozenRow: int, handed: seq<Row>, index: int, i: nat,
                        ghost p: map<int, Row>, ghost m: int)
    returns (rows': map<int, Row>, currentMax': int, frozenRow': int, newRows: seq<Row>)
    requires RowsBelow(rows, currentMax) && index <= currentMax
    requires (rows, currentMax) == InsertBlankRows(p, m, index, i)
    requires handed == HandedOut(index, i)
    ensures RowsBelow(rows', currentMax') && index <= currentMax'
    ensures (rows', currentMax') == InsertBlankRows(p, m, index, i + 1)
    ensures newRows == HandedOut(index, i + 1)
    ensures frozenRow' == if index <= frozenRow then frozenRow + 1 else frozenRow
  {
    // `index` is at most the greatest index, so the insert needs no padding
    InsertBlankRowsNext(p, m, index, i);
    rows', currentMax', frozenRow' := InsertInto(rows, currentMax, frozenRow, BlankRow(index));
    // the rows handed out earlier are the ones that just moved up
    HandedOutStep(index, i);
    newRows := MovedUp(handed) + [BlankRow(index)];
  }

  /**
   * The rows of a worksheet. `currentMax` is the greatest index the
   * collection has handed out (Contains tests against it) and `frozenRow`
   * is the worksheet's frozen-pane row, which inserts and deletes adjust.
   */
  class RowCollection {
    var rows: map<int, Row>
    var currentMax: int
    var frozenRow: int

    /** No row sits above the greatest index handed out. */
    ghost predicate Valid()
      reads this
    {
      RowsBelow(rows, currentMax)
    }

    /** Every index from 1 to the greatest one handed out holds a row. */
    ghost predicate Contiguous()
      reads this
    {
      forall k :: MinRow <= k <= currentMax ==> k in rows
    }

    /**
     * Every row, and every cell in it, carries the index it is stored under.
     * Insert and Delete select and re-key rows by their own index; the model
     * moves them by key, which is the same thing while this holds.
     */
    ghost predicate Consistent()
      reads this
    {
      Bound(rows, MoveRow)
    }

    constructor (frozenRow: int)
      ensures Valid() && Contiguous() && Consistent()
      ensures rows == map[] && currentMax == 0 && this.frozenRow == frozenRow
    {
      rows := map[];
      currentMax := 0;
      this.frozenRow := frozenRow;
    }

    function Count(): (n: nat)
      reads this
      ensures n == |rows|
    {
      |rows|
    }

    /** Contains: the index is at most the greatest one handed out. */
    predicate Contains(index: int)
      reads this
    {
      index <= currentMax
    }

    /** On a contiguous collection Contains answers whether a row is stored, for every valid index. */
    lemma ContainsMeansStored(index: int)
      requires Valid() && Contiguous() && MinRow <= index
      ensures Contains(index) <==> index in rows
    {
    }

    /**
     * PadBlankRows: blank rows are added from `currentMax + 1` up to
     * `indexTo`, each becoming the new greatest index. The row constructor
     * refuses an index outside 1..1048576: padding then stops there and
     * the error is passed on, with the rows added so far kept.
     */
    method PadBlankRows(indexTo: int) returns (r: Result<()>)
      requires Valid()
      modifies this
      ensures Valid() && frozenRow == old(frozenRow)
      ensures currentMax == PadEnd(old(currentMax), indexTo)
      ensures rows == PaddedRows(old(rows), old(currentMax) + 1, currentMax)
      ensures r.Err? <==> PadEnd(old(currentMax), indexTo) < indexTo
      ensures r.Err? ==> r.error == ArgumentOutOfRange
    {
      var m, last;
      m, last, r := PadRows(rows, currentMax + 1, indexTo);
      PaddedStaysBelow(rows, currentMax, last);
      rows, currentMax := m, last;
    }

    /** Padding keeps the collection contiguous and its rows bound to their keys. */
    lemma PaddedKeepsInvariants(s: map<int, Row>, oldMax: int, newMax: int)
      requires forall k :: MinRow <= k <= oldMax ==> k in s
      requires Bound(s, MoveRow) && oldMax <= newMax
      ensures var p := PaddedRows(s, oldMax + 1, newMax); forall k :: MinRow <= k <= newMax ==> k in p
      ensures Bound(PaddedRows(s, oldMax + 1, newMax), MoveRow)
    {
      var p := PaddedRows(s, oldMax + 1, newMax);
      forall k | k in p
        ensures MoveRow(p[k], k) == p[k]
      {
        if k !in s {
          MoveRowFixes(BlankRow(k), k);
        }
      }
    }

    /**
     * The getter: pads up to `index` and returns the row stored there. An
     * index the padding cannot reach fails as the row constructor does; an
     * index that is not a key after padding (0 or below, or a gap) raises
     * KeyNotFound.
     */
    method Get(index: int) returns (r: Result<Row>)
      requires Valid()
      modifies this
      ensures Valid() && frozenRow == old(frozenRow)
      ensures currentMax == PadEnd(old(currentMax), index)
      ensures rows == PaddedRows(old(rows), old(currentMax) + 1, currentMax)
      ensures r.Ok? <==> PadEnd(old(currentMax), index) >= index && index in rows
      ensures r.Ok? ==> r.value == rows[index]
      ensures r.Err? ==> r.error == ArgumentOutOfRange || r.error == KeyNotFound
    {
      var padded := PadBlankRows(index);
      if padded.Err? {
        return Err(padded.error);
      }
      if index !in rows {
        return Err(KeyNotFound);
      }
      r := Ok(rows[index]);
    }

    /** On a contiguous collection every valid index can be read. */
    lemma GetSucceeds(index: int)
      requires Valid() && Contiguous() && ValidRowIndex(index) && MinRow - 1 <= currentMax
      ensures PadEnd(currentMax, index) >= index
      ensures index in PaddedRows(rows, currentMax + 1, PadEnd(currentMax, index))
    {
    }

    /** The setter: pads up to `index`, then stores `row` there, replacing what was stored. */
    method Set(index: int, row: Row) returns (r: Result<()>)
      requires Valid()
      modifies this
      ensures Valid() && frozenRow == old(frozenRow)
      ensures currentMax == PadEnd(old(currentMax), index)
      ensures r.Err? <==> PadEnd(old(currentMax), index) < index
      ensures r.Err? ==> rows == PaddedRows(old(rows), old(currentMax) + 1, currentMax)
      ensures r.Ok? ==> rows == PaddedRows(old(rows), old(currentMax) + 1, currentMax)[index := row]
    {
      r := PadBlankRows(index);
      if r.Ok? {
        rows := rows[index := row];
      }
    }

    /** A row's cell collection stores `cell` at `columnIndex`; the rows themselves stay where they are. */
    method SetCell(rowIndex: int, columnIndex: int, cell: Cell)
      requires Valid() && rowIndex in rows
      modifies this
      ensures Valid() && currentMax == old(currentMax) && frozenRow == old(frozenRow)
      ensures rows == StoreCell(old(rows), rowIndex, columnIndex, cell)
    {
      rows := StoreCell(rows, rowIndex, columnIndex, cell);
    }

    /**
     * The internal Insert(Row) as written: when the row's index is at most
     * the greatest one handed out, every row from that index on moves one
     * index up (highest first); then the row is stored at its index. It
     * does not pad, so a row inserted beyond `currentMax + 1` leaves a gap
     * that Contains reports as present but the getter cannot read.
     */
    method InsertRowAsWritten(newRow: Row) returns (r: Row)
      requires Valid() && Consistent()
      modifies this
      ensures Valid()
      ensures MoveRow(newRow, newRow.index) == newRow ==> Consistent()
      ensures rows == InsertedRows(old(rows), old(currentMax), newRow)
      ensures currentMax == InsertedMax(old(rows), old(currentMax), newRow.index)
      ensures frozenRow == if newRow.index <= old(frozenRow) then old(frozenRow) + 1 else old(frozenRow)
      ensures r == newRow
    {
      ghost var s, m := rows, currentMax;
      rows, currentMax, frozenRow := InsertInto(rows, currentMax, frozenRow, newRow);
      r := newRow;
      if MoveRow(newRow, newRow.index) == newRow {
        InsertedStaysBound(s, m, newRow);
      }
    }

    /**
     * Insert(index, numberOfRows): a blank row is created at `index` and
     * inserted there, `numberOfRows` times; nothing happens for a count of
     * 0 or less. Each returned row is the same row the collection holds,
     * so later inserts move it too: the i-th one ends at
     * index + numberOfRows - 1 - i.
     */
    method Insert(index: int, numberOfRows: int) returns (r: Result<seq<Row>>)
      requires Valid() && Consistent()
      modifies this
      ensures Valid() && Consistent()
      ensures numberOfRows <= 0 ==> r == Ok([]) && rows == old(rows) && currentMax == old(currentMax) && frozenRow == old(frozenRow)
      ensures numberOfRows > 0 && !ValidRowIndex(index) ==>
        r == Err(ArgumentOutOfRange) && rows == old(rows) && currentMax == old(currentMax) && frozenRow == old(frozenRow)
      ensures numberOfRows > 0 && ValidRowIndex(index) ==>
        var after := InsertBlankRows(old(rows), old(currentMax), index, numberOfRows);
        r.Ok? && rows == after.0 && currentMax == after.1 &&
        |r.value| == numberOfRows && (forall i :: 0 <= i < numberOfRows ==> r.value[i] == BlankRow(index + numberOfRows - 1 - i)) &&
        frozenRow == if index <= old(frozenRow) then old(frozenRow) + numberOfRows else old(frozenRow)
    {
      if numberOfRows <= 0 {
        return Ok([]);
      }
      var blank := NewRow(index, DefaultStyleIndex, -1.0);
      if blank.Err? {
        return Err(blank.error);
      }
      assert blank.value == BlankRow(index);
      ghost var p, m := rows, currentMax;
      var first := InsertRowAsWritten(blank.value);
      var newRows := InsertMore(index, numberOfRows, p, m);
      r := Ok(newRows);
      InsertBlankRowsStayBound(p, m, index, numberOfRows);
    }

    /** The inserts after the first in Insert(index, numberOfRows): no padding is needed any more. */
    method InsertMore(index: int, numberOfRows: int, ghost p: map<int, Row>, ghost m: int) returns (newRows: seq<Row>)
      requires Valid() && 1 <= numberOfRows && index <= currentMax
      requires rows == InsertBlankRows(p, m, index, 1).0 && currentMax == InsertBlankRows(p, m, index, 1).1
      modifies this
      ensures Valid()
      ensures rows == InsertBlankRows(p, m, index, numberOfRows).0 && currentMax == InsertBlankRows(p, m, index, numberOfRows).1
      ensures newRows == HandedOut(index, numberOfRows)
      ensures frozenRow == if index <= old(frozenRow) then old(frozenRow) + numberOfRows - 1 else old(frozenRow)
    {
      rows, currentMax, frozenRow, newRows := InsertMoreInto(rows, currentMax, frozenRow, index, numberOfRows, p, m);
    }

    /**
     * Delete: when the index is at most the greatest one handed out, the
     * row there is dropped, every row above it moves one index down
     * (lowest first), the greatest index drops by one and a positive
     * frozen row moves up by one; otherwise nothing changes.
     */
    method Delete(index: int)
      requires Valid() && Consistent()
      modifies this
      ensures Valid() && Consistent()
      ensures rows == if index <= old(currentMax) then ShiftDown(old(rows), index, MoveRow) else old(rows)
      ensures currentMax == if index <= old(currentMax) then old(currentMax) - 1 else old(currentMax)
      ensures frozenRow == if index <= old(currentMax) && old(frozenRow) > 0 then old(frozenRow) - 1 else old(frozenRow)
    {
      if Contains(index) {
        var shifted := ShiftDownKeys(rows, index, MoveRow);
        assert RowsBelow(shifted, currentMax - 1) by {
          ShiftDownAt(rows, index, MoveRow);
        }
        MoveRowRebinds();
        ShiftDownBound(rows, index, MoveRow);
        rows := shifted;
        currentMax := currentMax - 1;
        if frozenRow > 0 {
          frozenRow := frozenRow - 1;
        }
      }
    }

    /**
     * Row.CopyTo: the target index must lie in 1..1048576; a clone of the
     * row (its height read through the Height getter, its cells copied)
     * is moved to that index and inserted there.
     */
    method CopyTo(row: Row, insertIndex: int, defaultRowHeight: real) returns (r: Result<Row>)
      requires Valid() && Consistent()
      modifies this
      ensures Valid() && Consistent()
      ensures !ValidRowIndex(insertIndex) ==> r == Err(ArgumentOutOfRange) && rows == old(rows) && currentMax == old(currentMax)
      ensures ValidRowIndex(insertIndex) ==>
        r.Ok? && r.value == MoveRow(row.(height := Height(row, defaultRowHeight)), insertIndex) &&
        rows == InsertedRows(old(rows), old(currentMax), r.value) && currentMax == InsertedMax(old(rows), old(currentMax), insertIndex)
    {
      if !ValidRowIndex(insertIndex) {
        return Err(ArgumentOutOfRange);
      }
      var clone := Row(row.index, row.styleIndex, Height(row, defaultRowHeight), row.cells);
      var newRow := MoveRow(clone, insertIndex);
      MoveRowRebinds();
      var inserted := InsertRowAsWritten(newRow);
      r := Ok(inserted);
    }
  }

  /** Rows stay contiguous and bound to their keys through a delete. */
  lemma DeleteKeepsInvariants(s: map<int, Row>, currentMax: int, index: int)
    requires RowsContiguous(s, currentMax) && Bound(s, MoveRow) && index <= currentMax
    ensures RowsContiguous(ShiftDown(s, index, MoveRow), currentMax - 1)
    ensures Bound(ShiftDown(s, index, MoveRow), MoveRow)
  {
    ShiftDownAt(s, index, MoveRow);
    MoveRowRebinds();
    ShiftDownBound(s, index, MoveRow);
  }

  /** Deleting the row just inserted at `index` restores the rows and the greatest index of a contiguous collection. */
  lemma DeleteUndoesInsert(s: map<int, Row>, currentMax: int, newRow: Row)
    requires RowsBelow(s, currentMax) && RowsContiguous(s, currentMax) && Bound(s, MoveRow)
    requires MinRow <= newRow.index <= currentMax
    ensures ShiftDown(InsertedRows(s, currentMax, newRow), newRow.index, MoveRow) == s
    ensures InsertedMax(s, currentMax, newRow.index) - 1 == currentMax
  {
    MoveRowRebinds();
    ShiftDownUndoesShiftUp(s, newRow.index, MoveRow, newRow);
  }
}
