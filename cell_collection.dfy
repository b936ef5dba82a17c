/**
 * The cells of one row (or the transient view of one column's cells),
 * keyed by their index along the row: materialised on access, padded for
 * enumeration, shifted on insert and delete, searched by value.
 */
module CellCollections {
  import opened Wrappers
  import opened Helpers
  import opened OfficeUtilities
  import opened Cells

  const MinColumn: int := 1
  const MaxColumn: int := 16384

  /** The owner of a cell collection: a row (with its style index) or a column. */
  datatype Parent = RowParent(rowIndex: int, rowStyleIndex: int) | ColumnParent(columnIndex: int)

  /** Every cell sits under the index of the column it is bound to. */
  ghost predicate Consistent(s: map<int, Cell>) {
    forall k :: k in s ==> s[k].columnIndex == k
  }

  function Min(a: int, b: int): int {
    if a < b then a else b
  }

  function Max(a: int, b: int): int {
    if a < b then b else a
  }

  /** A range [lo, hi) holding every key. */
  ghost function KeySpan(s: map<int, Cell>): (r: (int, int))
    ensures forall k :: k in s ==> r.0 <= k < r.1
    decreases |s|
  {
    if |s| == 0 then (0, 0)
    else
      NonEmptyHasMember(s.Keys);
      var k :| k in s;
      var rest := KeySpan(s - {k});
      assert forall k' :: k' in s ==> k' == k || k' in s - {k};
      (Min(k, rest.0), Max(k + 1, rest.1))
  }

  ghost function Lo(s: map<int, Cell>): int {
    KeySpan(s).0
  }

  ghost function Hi(s: map<int, Cell>): int {
    KeySpan(s).1
  }

  lemma InSpan(s: map<int, Cell>)
    ensures forall k :: k in s ==> Lo(s) <= k < Hi(s)
  {
  }

  /**
   * A column insert at `c` moves every column object from `c` on one step
   * right; cells bound to those columns see their column index grow while
   * they still sit under their old key.
   */
  function BumpColumns(s: map<int, Cell>, c: int): (r: map<int, Cell>)
    ensures r.Keys == s.Keys
    ensures forall k :: k in s && s[k].columnIndex >= c ==> r[k] == s[k].(columnIndex := s[k].columnIndex + 1)
    ensures forall k :: k in s && s[k].columnIndex < c ==> r[k] == s[k]
  {
    map k | k in s :: if s[k].columnIndex >= c then s[k].(columnIndex := s[k].columnIndex + 1) else s[k]
  }

  /**
   * The cell under key `k` is moved by an insert at `c`: it is bound to a
   * column at or right of `c`, and, when `guarded` (the code as written),
   * its key differs from its column index.
   */
  ghost predicate Moves(s: map<int, Cell>, c: int, guarded: bool, k: int) {
    k in s && s[k].columnIndex >= c && (!guarded || k != s[k].columnIndex)
  }

  /** Key `j` is occupied once the moving cells with keys from `lo` on have moved. */
  ghost predicate InShiftedFrom(s: map<int, Cell>, c: int, guarded: bool, lo: int, j: int) {
    (lo <= j - 1 && Moves(s, c, guarded, j - 1)) || (j in s && !(lo <= j && Moves(s, c, guarded, j)))
  }

  ghost function ShiftedValue(s: map<int, Cell>, c: int, guarded: bool, lo: int, j: int): Cell
    requires InShiftedFrom(s, c, guarded, lo, j)
  {
    if lo <= j - 1 && Moves(s, c, guarded, j - 1) then s[j - 1].(columnIndex := j) else s[j]
  }

  /** The cells after the moving cells with keys from `lo` on have each moved one key up, bound to that key. */
  ghost function ShiftedFrom(s: map<int, Cell>, c: int, guarded: bool, lo: int): map<int, Cell>
  {
    map j | Lo(s) <= j <= Hi(s) && InShiftedFrom(s, c, guarded, lo, j) :: ShiftedValue(s, c, guarded, lo, j)
  }

  /** Every moving cell has moved one key up, bound to that key. */
  ghost function Shifted(s: map<int, Cell>, c: int, guarded: bool): map<int, Cell>
  {
    ShiftedFrom(s, c, guarded, Lo(s))
  }

  /** `m` is `s` once the moving cells with keys from `lo` on have moved, stated key by key. */
  ghost predicate ShiftedUpTo(m: map<int, Cell>, s: map<int, Cell>, c: int, guarded: bool, lo: int) {
    && (forall j :: j in m <==> InShiftedFrom(s, c, guarded, lo, j))
    && (forall j :: j in m ==> InShiftedFrom(s, c, guarded, lo, j) && m[j] == ShiftedValue(s, c, guarded, lo, j))
  }

  /** Before the loop starts above the highest key, nothing has moved. */
  lemma ShiftedUpToStart(s: map<int, Cell>, c: int, guarded: bool, hi: int)
    requires forall k :: k in s ==> k < hi
    ensures ShiftedUpTo(s, s, c, guarded, hi)
  {
    forall j | j in s
      ensures InShiftedFrom(s, c, guarded, hi, j)
    {
    }
  }

  /** One step of the descending shift loop: the cell under `k`, if it moves, goes to `k + 1`. */
  lemma ShiftedUpToStep(m: map<int, Cell>, s: map<int, Cell>, c: int, guarded: bool, k: int)
    requires ShiftedUpTo(m, s, c, guarded, k + 1)
    ensures Moves(s, c, guarded, k) ==> ShiftedUpTo((m - {k})[k + 1 := s[k].(columnIndex := k + 1)], s, c, guarded, k)
    ensures !Moves(s, c, guarded, k) ==> ShiftedUpTo(m, s, c, guarded, k)
  {
    if Moves(s, c, guarded, k) {
      var m' := (m - {k})[k + 1 := s[k].(columnIndex := k + 1)];
      assert InShiftedFrom(s, c, guarded, k, k + 1);
      forall j | j in m'
        ensures InShiftedFrom(s, c, guarded, k, j) && m'[j] == ShiftedValue(s, c, guarded, k, j)
      {
        if j != k + 1 {
          assert InShiftedFrom(s, c, guarded, k + 1, j);
        }
      }
      forall j | InShiftedFrom(s, c, guarded, k, j)
        ensures j in m'
      {
        if j != k + 1 {
          assert InShiftedFrom(s, c, guarded, k + 1, j);
        }
      }
    } else {
      forall j | j in m
        ensures InShiftedFrom(s, c, guarded, k, j) && m[j] == ShiftedValue(s, c, guarded, k, j)
      {
        assert InShiftedFrom(s, c, guarded, k + 1, j);
      }
      forall j | InShiftedFrom(s, c, guarded, k, j)
        ensures j in m
      {
        assert InShiftedFrom(s, c, guarded, k + 1, j);
      }
    }
  }

  /** Once the loop has passed every key, it has shifted every moving cell. */
  lemma ShiftedUpToAll(m: map<int, Cell>, s: map<int, Cell>, c: int, guarded: bool, lo: int)
    requires ShiftedUpTo(m, s, c, guarded, lo)
    requires forall k :: k in s ==> lo <= k
    ensures m == Shifted(s, c, guarded)
  {
    var b := Shifted(s, c, guarded);
    InSpan(s);
    forall j | j in m
      ensures j in b && m[j] == b[j]
    {
      assert InShiftedFrom(s, c, guarded, Lo(s), j);
    }
    forall j | j in b
      ensures j in m
    {
      assert InShiftedFrom(s, c, guarded, lo, j);
    }
  }

  /** Cells.Insert(newCell) as written: cells bound elsewhere than their key move up, then the new cell is stored. */
  ghost function InsertAsWritten(s: map<int, Cell>, newCell: Cell): map<int, Cell>
  {
    Shifted(s, newCell.columnIndex, true)[newCell.columnIndex := newCell]
  }

  /** Cells.Insert(newCell) as intended: every cell bound at or right of the new cell moves up, then it is stored. */
  ghost function InsertCorrected(s: map<int, Cell>, newCell: Cell): map<int, Cell>
  {
    Shifted(s, newCell.columnIndex, false)[newCell.columnIndex := newCell]
  }

  /** Key `j` is occupied after inserting a cell at column `c` and moving the rest right. */
  ghost predicate InInsertShifted(s: map<int, Cell>, c: int, j: int) {
    j == c || (j in s && j < c) || (j - 1 in s && j - 1 >= c)
  }

  ghost function InsertShiftedValue(s: map<int, Cell>, newCell: Cell, j: int): Cell
    requires InInsertShifted(s, newCell.columnIndex, j)
  {
    if j == newCell.columnIndex then newCell
    else if j < newCell.columnIndex then s[j]
    else s[j - 1].(columnIndex := j)
  }

  /** A row's cells with `newCell` inserted: cells at or right of its column move one step right. */
  ghost function InsertShifted(s: map<int, Cell>, newCell: Cell): map<int, Cell>
  {
    var c := newCell.columnIndex;
    map j | Min(Lo(s), c) <= j <= Max(Hi(s), c) && InInsertShifted(s, c, j) :: InsertShiftedValue(s, newCell, j)
  }

  /** After a column insert at `c`, exactly the cells under keys from `c` on move, guarded or not. */
  lemma BumpedMoves(s: map<int, Cell>, c: int, guarded: bool, k: int)
    requires Consistent(s)
    ensures Moves(BumpColumns(s, c), c, guarded, k) <==> k in s && k >= c
  {
  }

  /** One key of the shift after a column insert agrees with the shifted row. */
  lemma ShiftAfterColumnShiftAt(s: map<int, Cell>, newCell: Cell, guarded: bool, j: int)
    requires Consistent(s) && j != newCell.columnIndex
    requires j in Shifted(BumpColumns(s, newCell.columnIndex), newCell.columnIndex, guarded)
    ensures j in InsertShifted(s, newCell)
    ensures Shifted(BumpColumns(s, newCell.columnIndex), newCell.columnIndex, guarded)[j] == InsertShifted(s, newCell)[j]
  {
    var c := newCell.columnIndex;
    var b := BumpColumns(s, c);
    InSpan(s);
    InSpan(b);
    assert InShiftedFrom(b, c, guarded, Lo(b), j);
    BumpedMoves(s, c, guarded, j - 1);
    BumpedMoves(s, c, guarded, j);
    if j - 1 in s && j - 1 >= c {
      assert InInsertShifted(s, c, j);
      assert ShiftedValue(b, c, guarded, Lo(b), j) == s[j - 1].(columnIndex := j);
      assert InsertShiftedValue(s, newCell, j) == s[j - 1].(columnIndex := j);
    } else {
      assert j in s && j < c;
      assert InInsertShifted(s, c, j);
      assert ShiftedValue(b, c, guarded, Lo(b), j) == s[j];
      assert InsertShiftedValue(s, newCell, j) == s[j];
    }
  }

  lemma ShiftAfterColumnShift(s: map<int, Cell>, newCell: Cell, guarded: bool)
    requires Consistent(s)
    ensures Shifted(BumpColumns(s, newCell.columnIndex), newCell.columnIndex, guarded)[newCell.columnIndex := newCell] == InsertShifted(s, newCell)
  {
    var c := newCell.columnIndex;
    var b := BumpColumns(s, c);
    var a := Shifted(b, c, guarded)[c := newCell];
    var e := InsertShifted(s, newCell);
    InSpan(s);
    InSpan(b);
    assert InInsertShifted(s, c, c);
    forall j | j in a
      ensures j in e && a[j] == e[j]
    {
      if j != c {
        ShiftAfterColumnShiftAt(s, newCell, guarded, j);
      }
    }
    forall j | j in e
      ensures j in a
    {
      if j != c {
        BumpedMoves(s, c, guarded, j - 1);
        BumpedMoves(s, c, guarded, j);
        assert InShiftedFrom(b, c, guarded, Lo(b), j);
      }
    }
  }

  /**
   * On the path the library takes, a column insert first moves the column
   * objects; the guarded loop then moves exactly the cells bound to them,
   * so the row ends up shifted.
   */
  lemma AsWrittenAfterColumnShift(s: map<int, Cell>, newCell: Cell)
    requires Consistent(s)
    ensures InsertAsWritten(BumpColumns(s, newCell.columnIndex), newCell) == InsertShifted(s, newCell)
  {
    ShiftAfterColumnShift(s, newCell, true);
  }

  /** Without the guard, the insert also gives the shifted row on the column-insert path. */
  lemma CorrectedAfterColumnShift(s: map<int, Cell>, newCell: Cell)
    requires Consistent(s)
    ensures InsertCorrected(BumpColumns(s, newCell.columnIndex), newCell) == InsertShifted(s, newCell)
  {
    ShiftAfterColumnShift(s, newCell, false);
  }

  /** Called on a consistent row, the guarded loop moves nothing: the new cell overwrites the one at its column. */
  lemma AsWrittenOverwrites(s: map<int, Cell>, newCell: Cell)
    requires Consistent(s)
    ensures InsertAsWritten(s, newCell) == s[newCell.columnIndex := newCell]
  {
    var a := Shifted(s, newCell.columnIndex, true);
    forall j | j in a
      ensures j in s && a[j] == s[j]
    {
    }
    forall j | j in s
      ensures j in a
    {
      assert InShiftedFrom(s, newCell.columnIndex, true, Lo(s), j);
    }
    assert a == s;
  }

  /** One key other than the new cell's, shifted without the guard, agrees with the shifted row. */
  lemma CorrectedShiftsAt(s: map<int, Cell>, newCell: Cell, j: int)
    requires Consistent(s) && j != newCell.columnIndex
    requires j in Shifted(s, newCell.columnIndex, false)
    ensures j in InsertShifted(s, newCell)
    ensures Shifted(s, newCell.columnIndex, false)[j] == InsertShifted(s, newCell)[j]
  {
    var c := newCell.columnIndex;
    var a := Shifted(s, c, false);
    InSpan(s);
    assert InShiftedFrom(s, c, false, Lo(s), j) && Lo(s) <= j <= Hi(s);
    if Lo(s) <= j - 1 && Moves(s, c, false, j - 1) {
      assert j - 1 in s && j - 1 >= c;
      assert a[j] == s[j - 1].(columnIndex := j);
    } else {
      assert j in s && !Moves(s, c, false, j);
      assert j < c;
      assert a[j] == s[j];
    }
    assert InInsertShifted(s, c, j);
    assert Min(Lo(s), c) <= j <= Max(Hi(s), c);
  }

  /** Without the guard, the insert shifts a consistent row. */
  lemma CorrectedShifts(s: map<int, Cell>, newCell: Cell)
    requires Consistent(s)
    ensures InsertCorrected(s, newCell) == InsertShifted(s, newCell)
  {
    var c := newCell.columnIndex;
    var a := InsertCorrected(s, newCell);
    var e := InsertShifted(s, newCell);
    InSpan(s);
    forall j | j in a
      ensures j in e && a[j] == e[j]
    {
      if j == c {
        assert InInsertShifted(s, c, j);
      } else {
        assert j in Shifted(s, c, false);
        CorrectedShiftsAt(s, newCell, j);
      }
    }
    forall j | j in e
      ensures j in a
    {
      if j != c {
        assert InShiftedFrom(s, c, false, Lo(s), j);
      }
    }
  }

  /** Counterexample: inserting at column 1 of a row holding one cell there loses that cell. */
  lemma InsertAsWrittenLosesCell(old1: Cell, newCell: Cell)
    requires old1.columnIndex == 1 && newCell.columnIndex == 1
    ensures InsertAsWritten(map[1 := old1], newCell) == map[1 := newCell]
  {
    AsWrittenOverwrites(map[1 := old1], newCell);
  }

  /** The same insert without the guard moves the old cell to column 2. */
  lemma InsertCorrectedKeepsCell(old1: Cell, newCell: Cell)
    requires old1.columnIndex == 1 && newCell.columnIndex == 1
    ensures InsertCorrected(map[1 := old1], newCell) == map[1 := newCell, 2 := old1.(columnIndex := 2)]
  {
    var s := map[1 := old1];
    CorrectedShifts(s, newCell);
    var e := InsertShifted(s, newCell);
    InSpan(s);
    assert InInsertShifted(s, 1, 2);
    assert 1 in e && 2 in e;
    forall j | j in e
      ensures j == 1 || j == 2
    {
      assert InInsertShifted(s, 1, j);
    }
    assert e == map[1 := newCell, 2 := old1.(columnIndex := 2)];
  }

  /** The shifted row is consistent again. */
  lemma InsertShiftedIsConsistent(s: map<int, Cell>, newCell: Cell)
    requires Consistent(s)
    ensures Consistent(InsertShifted(s, newCell))
  {
    var e := InsertShifted(s, newCell);
    forall j | j in e
      ensures e[j].columnIndex == j
    {
    }
  }

  /** Key `j` is occupied after deleting column `index` and moving the cells right of it left. */
  ghost predicate InDeleteShifted(s: map<int, Cell>, index: int, j: int) {
    (j in s && j < index) || (j + 1 in s && j + 1 > index)
  }

  ghost function DeleteShiftedValue(s: map<int, Cell>, index: int, j: int): Cell
    requires InDeleteShifted(s, index, j)
  {
    if j < index then s[j] else s[j + 1].(columnIndex := j)
  }

  /** A row's cells after deleting column `index`: that cell goes and every cell right of it moves one step left. */
  ghost function DeleteShifted(s: map<int, Cell>, index: int): map<int, Cell>
  {
    map j | Lo(s) - 1 <= j < Hi(s) && InDeleteShifted(s, index, j) :: DeleteShiftedValue(s, index, j)
  }

  /** Key `j` is occupied once the ascending delete loop has handled every key below `k`. */
  ghost predicate InDeletedBelow(s: map<int, Cell>, index: int, k: int, j: int) {
    (j in s && (j < index || j >= k)) || (j + 1 in s && index < j + 1 < k)
  }

  ghost function DeletedBelowValue(s: map<int, Cell>, index: int, k: int, j: int): Cell
    requires InDeletedBelow(s, index, k, j)
  {
    if j < index || j >= k then s[j] else s[j + 1].(columnIndex := j)
  }

  /** The ascending delete loop after it has handled every key below `k`. */
  ghost function DeletedBelow(s: map<int, Cell>, index: int, k: int): map<int, Cell>
  {
    map j | Lo(s) - 1 <= j < Hi(s) && InDeletedBelow(s, index, k, j) :: DeletedBelowValue(s, index, k, j)
  }

  /** A key the snapshot lacks: the delete loop's step changes nothing. */
  lemma DeleteStepAbsent(s: map<int, Cell>, index: int, k: int)
    requires index <= k && k !in s
    ensures DeletedBelow(s, index, k + 1) == DeletedBelow(s, index, k)
  {
    var a := DeletedBelow(s, index, k + 1);
    var b := DeletedBelow(s, index, k);
    forall j | j in a
      ensures j in b && a[j] == b[j]
    {
      assert InDeletedBelow(s, index, k, j);
    }
    forall j | j in b
      ensures j in a
    {
      assert InDeletedBelow(s, index, k + 1, j);
    }
  }

  /** The deleted cell itself is removed. */
  lemma DeleteStepRemoves(s: map<int, Cell>, index: int)
    requires index in s
    ensures DeletedBelow(s, index, index + 1) == DeletedBelow(s, index, index) - {index}
  {
    var a := DeletedBelow(s, index, index + 1);
    var b := DeletedBelow(s, index, index) - {index};
    forall j | j in a
      ensures j in b && a[j] == b[j]
    {
      assert InDeletedBelow(s, index, index, j);
    }
    forall j | j in b
      ensures j in a
    {
      assert InDeletedBelow(s, index, index + 1, j);
    }
  }

  /** A cell right of the deleted one moves one key down, bound to that key. */
  lemma DeleteStepMoves(s: map<int, Cell>, index: int, k: int)
    requires index < k && k in s
    ensures DeletedBelow(s, index, k + 1) == (DeletedBelow(s, index, k) - {k})[k - 1 := s[k].(columnIndex := k - 1)]
  {
    var a := DeletedBelow(s, index, k + 1);
    var b := (DeletedBelow(s, index, k) - {k})[k - 1 := s[k].(columnIndex := k - 1)];
    assert InDeletedBelow(s, index, k + 1, k - 1);
    forall j | j in a
      ensures j in b && a[j] == b[j]
    {
      if j != k - 1 {
        assert InDeletedBelow(s, index, k, j);
      }
    }
    forall j | j in b
      ensures j in a
    {
      if j != k - 1 {
        assert InDeletedBelow(s, index, k + 1, j);
      }
    }
  }

  /** One step of the ascending delete loop. */
  lemma DeleteStep(s: map<int, Cell>, index: int, k: int)
    requires index <= k
    ensures DeletedBelow(s, index, k + 1) ==
      if k !in s then DeletedBelow(s, index, k)
      else if k == index then DeletedBelow(s, index, k) - {k}
      else (DeletedBelow(s, index, k) - {k})[k - 1 := s[k].(columnIndex := k - 1)]
  {
    if k !in s {
      DeleteStepAbsent(s, index, k);
    } else if k == index {
      DeleteStepRemoves(s, index);
    } else {
      DeleteStepMoves(s, index, k);
    }
  }

  lemma DeletedBelowStarts(s: map<int, Cell>, index: int)
    ensures DeletedBelow(s, index, index) == s
  {
    var a := DeletedBelow(s, index, index);
    forall j | j in a
      ensures j in s && a[j] == s[j]
    {
    }
    forall j | j in s
      ensures j in a
    {
      assert InDeletedBelow(s, index, index, j);
    }
  }

  lemma DeletedBelowEnds(s: map<int, Cell>, index: int, k: int)
    requires forall k' :: k' in s ==> k' < k
    ensures DeletedBelow(s, index, k) == DeleteShifted(s, index)
  {
    var a := DeletedBelow(s, index, k);
    var e := DeleteShifted(s, index);
    forall j | j in a
      ensures j in e && a[j] == e[j]
    {
      assert InDeleteShifted(s, index, j);
    }
    forall j | j in e
      ensures j in a
    {
      assert InDeletedBelow(s, index, k, j);
    }
  }

  lemma DeleteShiftedIsConsistent(s: map<int, Cell>, index: int)
    requires Consistent(s)
    ensures Consistent(DeleteShifted(s, index))
  {
    var d := DeleteShifted(s, index);
    forall j | j in d
      ensures d[j].columnIndex == j
    {
    }
  }

  /** Deleting a column right after inserting one there gives the row back. */
  lemma DeleteUndoesInsert(s: map<int, Cell>, newCell: Cell)
    requires Consistent(s)
    ensures DeleteShifted(InsertShifted(s, newCell), newCell.columnIndex) == s
  {
    var c := newCell.columnIndex;
    var i := InsertShifted(s, newCell);
    var d := DeleteShifted(i, c);
    forall j | j in d
      ensures j in s && d[j] == s[j]
    {
      UndoneKey(s, newCell, j);
    }
    forall j | j in s
      ensures j in d
    {
      RestoredKey(s, newCell, j);
    }
  }

  lemma RestoredKey(s: map<int, Cell>, newCell: Cell, j: int)
    requires j in s
    ensures j in DeleteShifted(InsertShifted(s, newCell), newCell.columnIndex)
  {
    var c := newCell.columnIndex;
    var i := InsertShifted(s, newCell);
    InSpan(s);
    InSpan(i);
    if j < c {
      assert InInsertShifted(s, c, j);
      assert j in i;
    } else {
      assert InInsertShifted(s, c, j + 1);
      assert j + 1 in i;
    }
    assert InDeleteShifted(i, c, j);
  }

  lemma UndoneKey(s: map<int, Cell>, newCell: Cell, j: int)
    requires Consistent(s)
    requires j in DeleteShifted(InsertShifted(s, newCell), newCell.columnIndex)
    ensures j in s && DeleteShifted(InsertShifted(s, newCell), newCell.columnIndex)[j] == s[j]
  {
    var c := newCell.columnIndex;
    var i := InsertShifted(s, newCell);
    InSpan(s);
    assert InDeleteShifted(i, c, j);
    if j < c {
      assert InInsertShifted(s, c, j);
      assert i[j] == s[j];
    } else {
      assert j + 1 in i;
      assert InInsertShifted(s, c, j + 1);
      assert i[j + 1] == s[j].(columnIndex := j + 1);
    }
  }

  /** Key `j` is occupied after padding indices 1..n. */
  ghost predicate InPadded(s: map<int, Cell>, n: int, j: int) {
    j in s || 1 <= j <= n
  }

  ghost function PaddedValue(s: map<int, Cell>, rowIndex: int, styleIndex: int, j: int): Cell {
    if j in s then s[j] else BlankCell(rowIndex, j, styleIndex)
  }

  /** The cells after padding indices 1..n: missing ones become blank cells in the row's style. */
  ghost function Padded(s: map<int, Cell>, n: int, rowIndex: int, styleIndex: int): map<int, Cell>
  {
    map j | Min(Lo(s), 1) <= j <= Max(Hi(s), n) && InPadded(s, n, j) :: PaddedValue(s, rowIndex, styleIndex, j)
  }

  /** Padding keeps every cell and fills every index 1..n. */
  lemma PaddedKeepsAndFills(s: map<int, Cell>, n: int, rowIndex: int, styleIndex: int)
    ensures forall k :: k in s ==> k in Padded(s, n, rowIndex, styleIndex) && Padded(s, n, rowIndex, styleIndex)[k] == s[k]
    ensures forall j :: 1 <= j <= n && j !in s ==>
      j in Padded(s, n, rowIndex, styleIndex) && Padded(s, n, rowIndex, styleIndex)[j] == BlankCell(rowIndex, j, styleIndex)
    ensures forall j :: j in Padded(s, n, rowIndex, styleIndex) ==> j in s || 1 <= j <= n
  {
    var a := Padded(s, n, rowIndex, styleIndex);
    InSpan(s);
    forall k | k in s
      ensures k in a && a[k] == s[k]
    {
      assert InPadded(s, n, k);
    }
    forall j | 1 <= j <= n && j !in s
      ensures j in a && a[j] == BlankCell(rowIndex, j, styleIndex)
    {
      assert InPadded(s, n, j);
    }
  }

  /** `m` holds the cells of `s` and a blank cell at every missing index in 1..n, and nothing else. */
  ghost predicate PaddedUpTo(m: map<int, Cell>, s: map<int, Cell>, n: int, rowIndex: int, styleIndex: int) {
    && (forall j :: j in m <==> j in s || 1 <= j <= n)
    && (forall j :: j in m ==> m[j] == PaddedValue(s, rowIndex, styleIndex, j))
  }

  /** A map padded over 1..n is the padded map. */
  lemma PaddedUpToIsPadded(m: map<int, Cell>, s: map<int, Cell>, n: int, rowIndex: int, styleIndex: int)
    requires PaddedUpTo(m, s, n, rowIndex, styleIndex)
    ensures m == Padded(s, n, rowIndex, styleIndex)
  {
    var a := Padded(s, n, rowIndex, styleIndex);
    PaddedKeepsAndFills(s, n, rowIndex, styleIndex);
    assert forall j :: j in m <==> j in a;
    forall j | j in m
      ensures m[j] == a[j]
    {
    }
  }

  /** Cell text comparison: as written, ignoreCase sends a text search to raw value equality. */
  predicate MatchesAsWritten(c: Cell, text: string, query: CellValue, ignoreCase: bool) {
    if !ignoreCase && query.TextValue? then text == query.s
    else GetValue(c) == Ok(query)
  }

  /** Cell text comparison as intended: a text search compares the displayed text, ignoring case on request. */
  predicate Matches(c: Cell, text: string, query: CellValue, ignoreCase: bool) {
    if query.TextValue? then (if ignoreCase then EqualsIgnoreCase(text, query.s) else text == query.s)
    else GetValue(c) == Ok(query)
  }

  /** The cells with keys in [lo, hi) that `p` accepts, in key order. */
  ghost function MatchesIn(s: map<int, Cell>, p: Cell -> bool, lo: int, hi: int): (r: seq<Cell>)
    ensures forall i :: 0 <= i < |r| ==> p(r[i]) && r[i] in s.Values
    decreases hi - lo
  {
    if hi <= lo then []
    else MatchesIn(s, p, lo, hi - 1) + (if hi - 1 in s && p(s[hi - 1]) then [s[hi - 1]] else [])
  }

  /** Every cell that `p` accepts, in ascending key order. */
  ghost function AllMatches(s: map<int, Cell>, p: Cell -> bool): seq<Cell>
  {
    MatchesIn(s, p, Lo(s), Hi(s))
  }

  lemma {:induction false} MatchesInComplete(s: map<int, Cell>, p: Cell -> bool, lo: int, hi: int, k: int)
    requires lo <= k < hi && k in s && p(s[k])
    ensures s[k] in MatchesIn(s, p, lo, hi)
    decreases hi - lo
  {
    if k < hi - 1 {
      MatchesInComplete(s, p, lo, hi - 1, k);
    }
  }

  /** The search finds every cell `p` accepts, and only those. */
  lemma AllMatchesExact(s: map<int, Cell>, p: Cell -> bool)
    ensures forall k :: k in s && p(s[k]) ==> s[k] in AllMatches(s, p)
    ensures forall c :: c in AllMatches(s, p) ==> p(c) && c in s.Values
  {
    forall k | k in s && p(s[k])
      ensures s[k] in AllMatches(s, p)
    {
      MatchesInComplete(s, p, Lo(s), Hi(s), k);
    }
  }

  lemma {:induction false} MatchesInSplit(s: map<int, Cell>, p: Cell -> bool, lo: int, m: int, hi: int)
    requires lo <= m <= hi
    ensures MatchesIn(s, p, lo, hi) == MatchesIn(s, p, lo, m) + MatchesIn(s, p, m, hi)
    decreases hi - m
  {
    if hi > m {
      MatchesInSplit(s, p, lo, m, hi - 1);
      var last := if hi - 1 in s && p(s[hi - 1]) then [s[hi - 1]] else [];
      assert MatchesIn(s, p, m, hi) == MatchesIn(s, p, m, hi - 1) + last;
      assert MatchesIn(s, p, lo, hi) == MatchesIn(s, p, lo, hi - 1) + last;
      assert MatchesIn(s, p, lo, m) + MatchesIn(s, p, m, hi - 1) + last == MatchesIn(s, p, lo, m) + (MatchesIn(s, p, m, hi - 1) + last);
    }
  }

  lemma {:induction false} MatchesInNoKeys(s: map<int, Cell>, p: Cell -> bool, lo: int, hi: int)
    requires forall k :: k in s ==> !(lo <= k < hi)
    ensures MatchesIn(s, p, lo, hi) == []
    decreases hi - lo
  {
    if hi > lo {
      MatchesInNoKeys(s, p, lo, hi - 1);
    }
  }

  /**
   * The comparison as written agrees with the intended one except on a
   * text search that ignores case, which it answers by the cell's value
   * alone.
   */
  lemma MatchesAsWrittenDiffersOnlyIgnoringCase(c: Cell, text: string, query: CellValue, ignoreCase: bool)
    ensures !(ignoreCase && query.TextValue?) ==> (MatchesAsWritten(c, text, query, ignoreCase) <==> Matches(c, text, query, ignoreCase))
    ensures ignoreCase && query.TextValue? ==> (MatchesAsWritten(c, text, query, ignoreCase) <==> GetValue(c) == Ok(query))
  {
  }

  /** Example of the ignore-case defect: a cell showing "Abc" is not found by "abc" with ignoreCase. */
  lemma IgnoreCaseSearchMissesCell(c: Cell)
    requires c.dataType == SharedString && c.raw == RawText("Abc")
    ensures !MatchesAsWritten(c, "Abc", TextValue("abc"), true)
    ensures Matches(c, "Abc", TextValue("abc"), true)
  {
    assert GetValue(c) == Ok(TextValue("Abc"));
    assert "Abc"[0] == 'A' && "abc"[0] == 'a';
    assert ToLower("Abc") == "abc";
    assert ToLower("abc") == "abc";
  }

  /** The search loop over one collection: keys visited in ascending order, stopping at the first match when asked. */
  method FindIn(cells: map<int, Cell>, p: Cell -> bool, firstOnly: bool) returns (r: Option<seq<Cell>>)
    ensures var all := AllMatches(cells, p);
      (r.None? <==> all == []) && (r.Some? ==> r.value == if firstOnly then all[..1] else all)
  {
    ghost var span := KeySpan(cells);
    var matches: seq<Cell> := [];
    var low := 0;
    if |cells| > 0 {
      low := GetMinKey(cells);
    }
    var high := GetMaxKey(cells);
    var k := low;
    while k <= high && !(firstOnly && |matches| > 0)
      invariant low <= k && (k <= high + 1 || k == low)
      invariant firstOnly ==> |matches| <= 1
      invariant matches == MatchesIn(cells, p, low, k)
      decreases high - k
    {
      if k in cells && p(cells[k]) {
        matches := matches + [cells[k]];
      }
      k := k + 1;
    }
    if |cells| > 0 {
      MatchesInSplit(cells, p, span.0, low, span.1);
      MatchesInNoKeys(cells, p, span.0, low);
      MatchesInSplit(cells, p, low, k, span.1);
      if k > high {
        MatchesInNoKeys(cells, p, k, span.1);
      }
    } else {
      MatchesInNoKeys(cells, p, span.0, span.1);
    }
    if |matches| > 0 {
      r := Some(matches);
    } else {
      r := None;
    }
  }

  class CellCollection {
    const parent: Parent
    var cells: map<int, Cell>

    /** A row's cell collection starts empty. */
    constructor ForRow(rowIndex: int, rowStyleIndex: int)
      ensures parent == RowParent(rowIndex, rowStyleIndex) && cells == map[]
    {
      parent := RowParent(rowIndex, rowStyleIndex);
      cells := map[];
    }

    /** A column's view holds the cells gathered from every row at that column, keyed by row. */
    constructor ForColumn(columnIndex: int, gathered: map<int, Cell>)
      ensures parent == ColumnParent(columnIndex) && cells == gathered
    {
      parent := ColumnParent(columnIndex);
      cells := gathered;
    }

    function Count(): nat
      reads this
    {
      |cells|
    }

    predicate Contains(index: int)
      reads this
    {
      index in cells
    }

    /**
     * The getter: a missing index is materialised as a blank cell carrying
     * the row's style; materialising its column fails outside 1..16384.
     */
    method Get(index: int) returns (r: Result<Cell>)
      requires parent.RowParent?
      modifies this
      ensures index in old(cells) ==> r == Ok(old(cells)[index]) && cells == old(cells)
      ensures index !in old(cells) && MinColumn <= index <= MaxColumn ==>
        r == Ok(BlankCell(parent.rowIndex, index, parent.rowStyleIndex)) && cells == old(cells)[index := r.value]
      ensures index !in old(cells) && !(MinColumn <= index <= MaxColumn) ==> r == Err(ArgumentOutOfRange) && cells == old(cells)
    {
      if index in cells {
        return Ok(cells[index]);
      }
      if !(MinColumn <= index <= MaxColumn) {
        return Err(ArgumentOutOfRange);
      }
      var cell := BlankCell(parent.rowIndex, index, parent.rowStyleIndex);
      cells := cells[index := cell];
      r := Ok(cell);
    }

    /** The setter of a row's collection stores the cell under the index, overwriting. */
    method Set(index: int, cell: Cell)
      requires parent.RowParent?
      modifies this
      ensures cells == old(cells)[index := cell]
    {
      cells := cells[index := cell];
    }

    /** Clear: every cell loses its value and style. */
    method Clear()
      modifies this
      ensures cells.Keys == old(cells).Keys
      ensures forall k :: k in cells ==> cells[k] == Cells.Clear(old(cells)[k])
    {
      var rest := cells.Keys;
      ghost var before := cells;
      while rest != {}
        invariant rest <= before.Keys && cells.Keys == before.Keys
        invariant forall k :: k in cells && k !in rest ==> cells[k] == Cells.Clear(before[k])
        invariant forall k :: k in rest ==> cells[k] == before[k]
        decreases |rest|
      {
        NonEmptyHasMember(rest);
        var k :| k in rest;
        cells := cells[k := Cells.Clear(cells[k])];
        rest := rest - {k};
      }
    }

    /** PadBlankCells for a row: indices 1..columnCount are materialised before enumeration. */
    method Pad(columnCount: int)
      requires parent.RowParent?
      modifies this
      ensures cells == Padded(old(cells), columnCount, parent.rowIndex, parent.rowStyleIndex)
    {
      ghost var before := cells;
      var index := MinColumn;
      while index <= columnCount
        invariant MinColumn <= index && (index <= columnCount + 1 || index == MinColumn)
        invariant PaddedUpTo(cells, before, index - 1, parent.rowIndex, parent.rowStyleIndex)
        decreases columnCount - index
      {
        if index !in cells {
          cells := cells[index := BlankCell(parent.rowIndex, index, parent.rowStyleIndex)];
        }
        index := index + 1;
      }
      PaddedUpToIsPadded(cells, before, columnCount, parent.rowIndex, parent.rowStyleIndex);
    }

    /** Insert(index) on a column view raises; on a row it inserts a blank default-styled cell bound to that column. */
    method Insert(index: int) returns (r: Result<Cell>)
      modifies this
      ensures parent.ColumnParent? ==> r == Err(NotImplemented) && cells == old(cells)
      ensures parent.RowParent? && !(MinColumn <= index <= MaxColumn) ==> r == Err(ArgumentOutOfRange) && cells == old(cells)
      ensures parent.RowParent? && MinColumn <= index <= MaxColumn ==>
        r == Ok(BlankCell(parent.rowIndex, index, DefaultStyleIndex)) && cells == InsertAsWritten(old(cells), r.value)
    {
      if parent.ColumnParent? {
        return Err(NotImplemented);
      }
      if !(MinColumn <= index <= MaxColumn) {
        return Err(ArgumentOutOfRange);
      }
      var cell := InsertCellAsWritten(BlankCell(parent.rowIndex, index, DefaultStyleIndex));
      r := Ok(cell);
    }

    /**
     * The shift loop of Insert(newCell): from the highest key down, a cell
     * bound to a column at or right of `c` moves one key up and is bound to
     * that key; when `guarded` (the code as written) only a cell whose key
     * differs from its column index moves.
     */
    method ShiftCells(c: int, guarded: bool)
      modifies this
      ensures cells == Shifted(old(cells), c, guarded)
    {
      var before := cells;
      var low := 0;
      if |cells| > 0 {
        low := GetMinKey(cells);
      }
      var high := GetMaxKey(cells);
      var k := high;
      var m := before;
      ShiftedUpToStart(before, c, guarded, high + 1);
      while k >= low
        invariant low - 1 <= k <= high || k == high < low
        invariant ShiftedUpTo(m, before, c, guarded, k + 1)
        decreases k - low
      {
        ShiftedUpToStep(m, before, c, guarded, k);
        if k in before && before[k].columnIndex >= c && (!guarded || k != before[k].columnIndex) {
          m := (m - {k})[k + 1 := before[k].(columnIndex := k + 1)];
        }
        k := k - 1;
      }
      ShiftedUpToAll(m, before, c, guarded, k + 1);
      cells := m;
    }

    /** Insert(newCell) as written: the guarded shift, then the new cell is stored under its column. */
    method InsertCellAsWritten(newCell: Cell) returns (r: Cell)
      modifies this
      ensures cells == InsertAsWritten(old(cells), newCell) && r == newCell
    {
      ShiftCells(newCell.columnIndex, true);
      cells := cells[newCell.columnIndex := newCell];
      r := cells[newCell.columnIndex];
    }

    /** Insert(newCell) as intended: the shift without the key test, so every cell at or right of it moves. */
    method InsertCell(newCell: Cell) returns (r: Cell)
      modifies this
      ensures cells == InsertCorrected(old(cells), newCell) && r == newCell
      ensures Consistent(old(cells)) ==> cells == InsertShifted(old(cells), newCell)
    {
      ghost var before := cells;
      ShiftCells(newCell.columnIndex, false);
      cells := cells[newCell.columnIndex := newCell];
      r := cells[newCell.columnIndex];
      if Consistent(before) {
        CorrectedShifts(before, newCell);
      }
    }

    /** The loop of Delete(index): from `index` up, each cell is removed and, unless it is the deleted one, stored one key down. */
    method ShiftLeft(index: int)
      modifies this
      ensures cells == DeleteShifted(old(cells), index)
    {
      var before := cells;
      var m := cells;
      DeletedBelowStarts(before, index);
      var high := GetMaxKey(before);
      var k := index;
      while k <= high
        invariant index <= k && (k <= high + 1 || k == index)
        invariant m == DeletedBelow(before, index, k)
        decreases high - k
      {
        DeleteStep(before, index, k);
        if k in before {
          if k != index {
            m := (m - {k})[k - 1 := before[k].(columnIndex := k - 1)];
          } else {
            m := m - {k};
          }
        }
        k := k + 1;
      }
      DeletedBelowEnds(before, index, k);
      cells := m;
    }

    /**
     * Delete(index): on a column view it raises; on a row, from the lowest
     * key up, every cell at or right of `index` is removed and, unless it is
     * the deleted one, stored one key down.
     */
    method Delete(index: int) returns (r: Result<()>)
      requires parent.RowParent? ==> Consistent(cells) && index >= MinColumn
      modifies this
      ensures parent.ColumnParent? ==> r == Err(NotImplemented) && cells == old(cells)
      ensures parent.RowParent? ==> r == Ok(()) && cells == DeleteShifted(old(cells), index) && Consistent(cells)
    {
      if parent.ColumnParent? {
        return Err(NotImplemented);
      }
      ghost var before := cells;
      ShiftLeft(index);
      DeleteShiftedIsConsistent(before, index);
      r := Ok(());
    }

    /**
     * FindCellsByValue as written, given each cell's displayed text: null
     * when nothing matches, else the matches in index order (only the
     * first when `firstOnly`).
     */
    method FindCellsAsWritten(query: CellValue, ignoreCase: bool, firstOnly: bool, textOf: Cell -> string)
      returns (r: Option<seq<Cell>>)
      ensures var all := AllMatches(cells, c => MatchesAsWritten(c, textOf(c), query, ignoreCase));
        (r.None? <==> all == []) && (r.Some? ==> r.value == if firstOnly then all[..1] else all)
    {
      r := FindCellsWith(c => MatchesAsWritten(c, textOf(c), query, ignoreCase), firstOnly);
    }

    /** FindCellsByValue as intended: text searches compare the displayed text, ignoring case on request. */
    method FindCells(query: CellValue, ignoreCase: bool, firstOnly: bool, textOf: Cell -> string)
      returns (r: Option<seq<Cell>>)
      ensures var all := AllMatches(cells, c => Matches(c, textOf(c), query, ignoreCase));
        (r.None? <==> all == []) && (r.Some? ==> r.value == if firstOnly then all[..1] else all)
    {
      r := FindCellsWith(c => Matches(c, textOf(c), query, ignoreCase), firstOnly);
    }

    /** The collection's search. */
    method FindCellsWith(p: Cell -> bool, firstOnly: bool) returns (r: Option<seq<Cell>>)
      ensures var all := AllMatches(cells, p);
        (r.None? <==> all == []) && (r.Some? ==> r.value == if firstOnly then all[..1] else all)
    {
      r := FindIn(cells, p, firstOnly);
    }
  }
}
