/**
 * The merge areas of a worksheet. Each cell carries a MergeDown (the number
 * of cells below it to merge with) and a MergeAcross (the number of cells to
 * its right); before the worksheet is written, one walk over the rows and
 * their cells turns these into "from:to" areas, folding merges that start
 * inside an area into it and clearing them.
 *
 * The worksheet is modelled by the merge settings of its cells, row by row:
 * `grid[k][j]` is the cell in row k + 1 and column j + 1, and a cell the
 * grid does not hold has no merge. `columns` holds the numbers of the
 * columns the worksheet's column collection contains.
 */
module MergeCells {
  import opened Wrappers
  import opened ColumnNames
  import Cells

  /** The merge settings of a cell: MergeDown and MergeAcross. */
  datatype Merge = Merge(down: nat, across: nat)

  /** A merge area, by the row and column numbers of its first and last cell. */
  datatype Area = Area(fromRow: int, fromColumn: int, toRow: int, toColumn: int)

  type Grid = seq<seq<Merge>>

  predicate InGrid(g: Grid, k: int, j: int) {
    0 <= k < |g| && 0 <= j < |g[k]|
  }

  /** The merge settings at row index k and column index j; none where there is no cell. */
  function At(g: Grid, k: int, j: int): (r: Merge)
    ensures !InGrid(g, k, j) ==> r == Merge(0, 0)
  {
    if InGrid(g, k, j) then g[k][j] else Merge(0, 0)
  }

  predicate SameShape(g: Grid, h: Grid) {
    |g| == |h| && forall k :: 0 <= k < |g| ==> |g[k]| == |h[k]|
  }

  /** The MergeDown setter applied to one cell (the values stored here are never negative). */
  function SetDown(g: Grid, k: int, j: int, v: nat): (r: Grid)
    requires InGrid(g, k, j)
    ensures SameShape(g, r)
    ensures forall k', j' :: At(r, k', j') == if k' == k && j' == j then At(g, k', j').(down := v) else At(g, k', j')
  {
    g[k := g[k][j := g[k][j].(down := v)]]
  }

  /** The MergeAcross setter applied to one cell. */
  function SetAcross(g: Grid, k: int, j: int, v: nat): (r: Grid)
    requires InGrid(g, k, j)
    ensures SameShape(g, r)
    ensures forall k', j' :: At(r, k', j') == if k' == k && j' == j then At(g, k', j').(across := v) else At(g, k', j')
  {
    g[k := g[k][j := g[k][j].(across := v)]]
  }

  /**
   * The loop that folds the merges below the cell at (k, j) into it, from
   * row offset i on, as written: it runs while the offset is at most the
   * cell's current MergeDown; a cell at offset i with MergeDown t > 0 adds
   * t - i + 1 to the cell's MergeDown and is set to 0.
   */
  function AbsorbDownAsWritten(g: Grid, k: int, j: int, i: nat): (r: Grid)
    requires InGrid(g, k, j) && i >= 1
    ensures SameShape(g, r)
    decreases if k + i < |g| then |g| - (k + i) else 0, g[k][j].down + 1 - i
  {
    var bound := g[k][j].down;
    if i > bound then g
    else
      var t := At(g, k + i, j).down;
      if t > 0 then
        AbsorbDownAsWritten(SetDown(SetDown(g, k, j, bound + t - i + 1), k + i, j, 0), k, j, i + 1)
      else
        AbsorbDownAsWritten(g, k, j, i + 1)
  }

  /**
   * The same loop for the merges to the right of the cell, as written: it
   * runs while the offset is below the cell's current MergeAcross and looks
   * only at columns the column collection contains.
   */
  function AbsorbAcrossAsWritten(g: Grid, columns: set<int>, k: int, j: int, i: nat): (r: Grid)
    requires InGrid(g, k, j) && i >= 1
    ensures SameShape(g, r)
    decreases if j + i < |g[k]| then |g[k]| - (j + i) else 0, g[k][j].across - i
  {
    var bound := g[k][j].across;
    if i >= bound then g
    else
      var t := if j + 1 + i in columns then At(g, k, j + i).across else 0;
      if t > 0 then
        AbsorbAcrossAsWritten(SetAcross(SetAcross(g, k, j, bound + t - i + 1), k, j + i, 0), columns, k, j, i + 1)
      else
        AbsorbAcrossAsWritten(g, columns, k, j, i + 1)
  }

  /**
   * One cell of the walk, as written: a MergeDown gives the area from the
   * cell down MergeDown rows, otherwise a MergeAcross gives the area from the
   * cell to the column MergeAcross - 1 to its right, otherwise no area.
   */
  function CellAsWritten(g: Grid, columns: set<int>, k: int, j: int): (r: (Option<Area>, Grid))
    requires InGrid(g, k, j)
    ensures SameShape(g, r.1)
  {
    var m := g[k][j];
    if m.down > 0 then
      var h := AbsorbDownAsWritten(g, k, j, 1);
      (Some(Area(k + 1, j + 1, k + 1 + h[k][j].down, j + 1)), h)
    else if m.across > 0 then
      var h := AbsorbAcrossAsWritten(g, columns, k, j, 1);
      (Some(Area(k + 1, j + 1, k + 1, j + 1 + h[k][j].across - 1)), h)
    else
      (None, g)
  }

  function OptionToSeq(a: Option<Area>): seq<Area> {
    if a.Some? then [a.value] else []
  }

  /** The walk over the cells of row index k from column index j on, in order. */
  function RowPassAsWritten(g: Grid, columns: set<int>, k: int, j: nat): (r: (seq<Area>, Grid))
    requires 0 <= k < |g|
    ensures SameShape(g, r.1)
    decreases |g[k]| - j
  {
    if j >= |g[k]| then ([], g)
    else
      var (a, h) := CellAsWritten(g, columns, k, j);
      var (rest, final) := RowPassAsWritten(h, columns, k, j + 1);
      (OptionToSeq(a) + rest, final)
  }

  /** The walk from row index k on: the rows in order. */
  function PassAsWritten(g: Grid, columns: set<int>, k: nat): (r: (seq<Area>, Grid))
    ensures SameShape(g, r.1)
    decreases |g| - k
  {
    if k >= |g| then ([], g)
    else
      var (row, h) := RowPassAsWritten(g, columns, k, 0);
      var (rest, final) := PassAsWritten(h, columns, k + 1);
      (row + rest, final)
  }

  /** One cell of the row walk: its area, if any, joins those found before it. */
  lemma RowPassStep(before: seq<Area>, g: Grid, columns: set<int>, k: int, j: nat, area: Option<Area>, h: Grid)
    requires 0 <= k < |g| && j < |g[k]| && (area, h) == CellAsWritten(g, columns, k, j)
    ensures 0 <= k < |h|
    ensures (before + RowPassAsWritten(g, columns, k, j).0, RowPassAsWritten(g, columns, k, j).1)
         == ((before + OptionToSeq(area)) + RowPassAsWritten(h, columns, k, j + 1).0, RowPassAsWritten(h, columns, k, j + 1).1)
  {
    var rest := RowPassAsWritten(h, columns, k, j + 1);
    assert RowPassAsWritten(g, columns, k, j) == (OptionToSeq(area) + rest.0, rest.1);
    assert before + (OptionToSeq(area) + rest.0) == (before + OptionToSeq(area)) + rest.0;
  }

  /** One row of the walk: its areas join those found before it. */
  lemma PassStep(before: seq<Area>, g: Grid, columns: set<int>, k: nat, row: seq<Area>, h: Grid)
    requires k < |g| && (row, h) == RowPassAsWritten(g, columns, k, 0)
    ensures (before + PassAsWritten(g, columns, k).0, PassAsWritten(g, columns, k).1)
         == ((before + row) + PassAsWritten(h, columns, k + 1).0, PassAsWritten(h, columns, k + 1).1)
  {
    var rest := PassAsWritten(h, columns, k + 1);
    assert PassAsWritten(g, columns, k) == (row + rest.0, rest.1);
    assert before + (row + rest.0) == (before + row) + rest.0;
  }

  /** An area as the worksheet writes it: the two cell addresses joined by a colon. */
  function AreaAddress(a: Area): string {
    Cells.Address(ColumnName(a.fromColumn), a.fromRow) + ":" + Cells.Address(ColumnName(a.toColumn), a.toRow)
  }

  function Addresses(areas: seq<Area>): (r: seq<string>)
    ensures |r| == |areas|
  {
    if areas == [] then [] else Addresses(areas[..|areas| - 1]) + [AreaAddress(areas[|areas| - 1])]
  }

  lemma {:induction false} AddressesAppend(a: seq<Area>, b: seq<Area>)
    ensures Addresses(a + b) == Addresses(a) + Addresses(b)
    decreases |b|
  {
    if b == [] {
      assert a + b == a;
    } else {
      var c := b[..|b| - 1];
      assert (a + b)[..|a + b| - 1] == a + c;
      AddressesAppend(a, c);
    }
  }

  /**
   * What the MergeDown loop does: every cell below the merging cell inside
   * its final area has no MergeDown left; MergeAcross values and the other
   * columns stay as they were; a merging cell keeps a positive MergeDown;
   * and with nothing merging down inside the area, nothing changes.
   */
  lemma {:induction false} AbsorbDownFacts(g: Grid, k: int, j: int, i: nat)
    requires InGrid(g, k, j) && i >= 1
    requires forall k' :: k < k' < k + i ==> At(g, k', j).down == 0
    ensures var r := AbsorbDownAsWritten(g, k, j, i);
      && InGrid(r, k, j)
      && (g[k][j].down > 0 ==> r[k][j].down > 0)
      && (forall k' :: k < k' <= k + r[k][j].down ==> At(r, k', j).down == 0)
      && (forall k', j' :: At(r, k', j').across == At(g, k', j').across)
      && (forall k', j' :: j' != j ==> At(r, k', j') == At(g, k', j'))
      && ((forall k' :: k + i <= k' <= k + g[k][j].down ==> At(g, k', j).down == 0) ==> r == g)
    decreases if k + i < |g| then |g| - (k + i) else 0, g[k][j].down + 1 - i
  {
    var bound := g[k][j].down;
    if i <= bound {
      var t := At(g, k + i, j).down;
      if t > 0 {
        var g1 := SetDown(SetDown(g, k, j, bound + t - i + 1), k + i, j, 0);
        AbsorbDownFacts(g1, k, j, i + 1);
      } else {
        AbsorbDownFacts(g, k, j, i + 1);
      }
    }
  }

  /** The same facts for the MergeAcross loop, which looks only at the columns the worksheet contains. */
  lemma {:induction false} AbsorbAcrossFacts(g: Grid, columns: set<int>, k: int, j: int, i: nat)
    requires InGrid(g, k, j) && i >= 1
    requires forall j' :: j < j' < j + i && j' + 1 in columns ==> At(g, k, j').across == 0
    ensures var r := AbsorbAcrossAsWritten(g, columns, k, j, i);
      && InGrid(r, k, j)
      && (g[k][j].across > 0 ==> r[k][j].across > 0)
      && (forall j' :: j < j' < j + r[k][j].across && j' + 1 in columns ==> At(r, k, j').across == 0)
      && (forall k', j' :: At(r, k', j').down == At(g, k', j').down)
      && (forall k', j' :: k' != k ==> At(r, k', j') == At(g, k', j'))
      && ((forall j' :: j + i <= j' < j + g[k][j].across && j' + 1 in columns ==> At(g, k, j').across == 0) ==> r == g)
    decreases if j + i < |g[k]| then |g[k]| - (j + i) else 0, g[k][j].across - i
  {
    var bound := g[k][j].across;
    if i < bound {
      var t := if j + 1 + i in columns then At(g, k, j + i).across else 0;
      if t > 0 {
        var g1 := SetAcross(SetAcross(g, k, j, bound + t - i + 1), k, j + i, 0);
        AbsorbAcrossFacts(g1, columns, k, j, i + 1);
      } else {
        AbsorbAcrossFacts(g, columns, k, j, i + 1);
      }
    }
  }

  /**
   * A cell with a MergeDown yields a column area from the cell down, whatever
   * its MergeAcross (MergeDown takes precedence, and the MergeAcross is left
   * as it was); the area spans exactly MergeDown rows below the cell when no
   * cell inside it merges down, and afterwards no cell below the first one
   * inside the area merges down.
   */
  lemma DownMergeArea(g: Grid, columns: set<int>, k: int, j: int)
    requires InGrid(g, k, j) && g[k][j].down > 0
    ensures var (a, h) := CellAsWritten(g, columns, k, j);
      && a.Some? && a.value.fromRow == k + 1 && a.value.fromColumn == j + 1
      && a.value.toColumn == j + 1 && a.value.toRow > a.value.fromRow
      && ((forall k' :: k < k' <= k + g[k][j].down ==> At(g, k', j).down == 0) ==> a.value.toRow == k + 1 + g[k][j].down)
      && (forall k' :: k < k' < a.value.toRow ==> At(h, k', j).down == 0)
      && At(h, k, j).across == g[k][j].across
  {
    AbsorbDownFacts(g, k, j, 1);
  }

  /**
   * A cell with a MergeAcross and no MergeDown yields a row area from the
   * cell to the column MergeAcross - 1 to its right (with MergeAcross as it
   * stands once the loop has folded in the merges inside the area, and as
   * given when there are none); afterwards no cell of a contained column
   * inside the area merges across.
   */
  lemma AcrossMergeArea(g: Grid, columns: set<int>, k: int, j: int)
    requires InGrid(g, k, j) && g[k][j].down == 0 && g[k][j].across > 0
    ensures var (a, h) := CellAsWritten(g, columns, k, j);
      && a.Some? && a.value.fromRow == k + 1 && a.value.toRow == k + 1 && a.value.fromColumn == j + 1
      && a.value.toColumn == j + At(h, k, j).across && a.value.toColumn >= a.value.fromColumn
      && ((forall j' :: j < j' < j + g[k][j].across && j' + 1 in columns ==> At(g, k, j').across == 0)
          ==> a.value.toColumn == j + g[k][j].across)
      && (forall j' :: j < j' < a.value.toColumn && j' + 1 in columns ==> At(h, k, j').across == 0)
  {
    AbsorbAcrossFacts(g, columns, k, j, 1);
  }

  /** A cell with neither merge yields no area and changes nothing. */
  lemma NoMergeNoArea(g: Grid, columns: set<int>, k: int, j: int)
    requires InGrid(g, k, j) && g[k][j] == Merge(0, 0)
    ensures CellAsWritten(g, columns, k, j) == (None, g)
  {
  }

  predicate NoMerges(g: Grid) {
    forall k, j :: 0 <= k < |g| && 0 <= j < |g[k]| ==> g[k][j] == Merge(0, 0)
  }

  lemma {:induction false} RowWithoutMerges(g: Grid, columns: set<int>, k: int, j: nat)
    requires 0 <= k < |g| && NoMerges(g)
    ensures RowPassAsWritten(g, columns, k, j) == ([], g)
    decreases |g[k]| - j
  {
    if j < |g[k]| {
      NoMergeNoArea(g, columns, k, j);
      RowWithoutMerges(g, columns, k, j + 1);
      var none: Option<Area> := None;
      assert OptionToSeq(none) + [] == [];
      assert RowPassAsWritten(g, columns, k, j) == (OptionToSeq(none) + [], g);
    }
  }

  /** A worksheet none of whose cells merges has no merge areas, and the walk leaves it as it was. */
  lemma {:induction false} SheetWithoutMerges(g: Grid, columns: set<int>, k: nat)
    requires NoMerges(g)
    ensures PassAsWritten(g, columns, k) == ([], g)
    decreases |g| - k
  {
    if k < |g| {
      RowWithoutMerges(g, columns, k, 0);
      SheetWithoutMerges(g, columns, k + 1);
      var empty: seq<Area> := [];
      assert empty + empty == [];
      assert PassAsWritten(g, columns, k) == (empty + empty, g);
    }
  }

  /**
   * The intended extent of a merge: `bound` cells beyond the merging one,
   * grown to take in every merge that starts inside the area, where `line[o]`
   * is the merge count of the cell o + 1 places on (read from offset o on).
   */
  function Extent(line: seq<int>, o: nat, bound: nat): nat
    decreases |line| - o
  {
    if o >= |line| || o + 1 > bound then bound
    else Extent(line, o + 1, if line[o] > 0 && o + 1 + line[o] > bound then o + 1 + line[o] else bound)
  }

  /** Every merge that starts within `e` places of the merging cell ends within them too. */
  ghost predicate Closed(line: seq<int>, e: nat) {
    forall o :: 0 <= o < |line| && o + 1 <= e && line[o] > 0 ==> o + 1 + line[o] <= e
  }

  lemma {:induction false} ExtentCovers(line: seq<int>, o: nat, bound: nat)
    requires forall o' :: 0 <= o' < o && o' < |line| && line[o'] > 0 ==> o' + 1 + line[o'] <= bound
    ensures Extent(line, o, bound) >= bound && Closed(line, Extent(line, o, bound))
    decreases |line| - o
  {
    if o < |line| && o + 1 <= bound {
      var b := if line[o] > 0 && o + 1 + line[o] > bound then o + 1 + line[o] else bound;
      ExtentCovers(line, o + 1, b);
    }
  }

  lemma {:induction false} ExtentLeast(line: seq<int>, o: nat, bound: nat, e: nat)
    requires bound <= e && Closed(line, e)
    ensures Extent(line, o, bound) <= e
    decreases |line| - o
  {
    if o < |line| && o + 1 <= bound {
      var b := if line[o] > 0 && o + 1 + line[o] > bound then o + 1 + line[o] else bound;
      ExtentLeast(line, o + 1, b, e);
    }
  }

  /** Extent is the least extent of at least `bound` places that no merge starting inside it leaves. */
  lemma ExtentIsLeastClosed(line: seq<int>, bound: nat)
    ensures Extent(line, 0, bound) >= bound && Closed(line, Extent(line, 0, bound))
    ensures forall e: nat :: e >= bound && Closed(line, e) ==> Extent(line, 0, bound) <= e
  {
    ExtentCovers(line, 0, bound);
    forall e: nat | e >= bound && Closed(line, e)
      ensures Extent(line, 0, bound) <= e
    {
      ExtentLeast(line, 0, bound, e);
    }
  }

  /** The MergeDown counts of the cells below the cell at (k, j). */
  function DownLine(g: Grid, k: int, j: int): (line: seq<int>)
    requires InGrid(g, k, j)
    ensures |line| == |g| - k - 1
    ensures forall o :: 0 <= o < |line| ==> line[o] == At(g, k + 1 + o, j).down
  {
    seq(|g| - k - 1, o requires 0 <= o < |g| - k - 1 => At(g, k + 1 + o, j).down)
  }

  /** The MergeAcross counts of the cells to the right of the cell at (k, j), 0 for columns the worksheet lacks. */
  function AcrossLine(g: Grid, columns: set<int>, k: int, j: int): (line: seq<int>)
    requires InGrid(g, k, j)
    ensures |line| == |g[k]| - j - 1
    ensures forall o :: 0 <= o < |line| ==> line[o] == if j + 2 + o in columns then At(g, k, j + 1 + o).across else 0
  {
    seq(|g[k]| - j - 1, o requires 0 <= o < |g[k]| - j - 1 => if j + 2 + o in columns then At(g, k, j + 1 + o).across else 0)
  }

  /** The cell at (k, j) merges down `e` rows, and no cell in those rows below it merges down. */
  function ClearDown(g: Grid, k: int, j: int, e: nat): (r: Grid)
    requires InGrid(g, k, j)
    ensures SameShape(g, r)
    ensures forall k', j' ::
              At(r, k', j') == if k' == k && j' == j then At(g, k', j').(down := e)
                               else if j' == j && k < k' <= k + e then At(g, k', j').(down := 0)
                               else At(g, k', j')
  {
    seq(|g|, r requires 0 <= r < |g| =>
      if r == k then g[k][j := g[k][j].(down := e)]
      else if k < r <= k + e && j < |g[r]| then g[r][j := g[r][j].(down := 0)]
      else g[r])
  }

  /** The cell at (k, j) merges across `e` columns, and no cell in those columns to its right merges across. */
  function ClearAcross(g: Grid, columns: set<int>, k: int, j: int, e: nat): (r: Grid)
    requires InGrid(g, k, j)
    ensures SameShape(g, r)
    ensures forall k', j' ::
              At(r, k', j') == if k' == k && j' == j then At(g, k', j').(across := e)
                               else if k' == k && j < j' <= j + e && j' + 1 in columns then At(g, k', j').(across := 0)
                               else At(g, k', j')
  {
    g[k := seq(|g[k]|, c requires 0 <= c < |g[k]| =>
      if c == j then g[k][j].(across := e)
      else if j < c <= j + e && c + 1 in columns then g[k][c].(across := 0)
      else g[k][c])]
  }

  /**
   * One cell of the walk as the documentation of MergeDown and MergeAcross
   * describes it: the count is the number of cells below or to the right to
   * merge with, and an area takes in the merges that start inside it.
   */
  function CellCorrected(g: Grid, columns: set<int>, k: int, j: int): (r: (Option<Area>, Grid))
    requires InGrid(g, k, j)
    ensures SameShape(g, r.1)
  {
    var m := g[k][j];
    if m.down > 0 then
      var e := Extent(DownLine(g, k, j), 0, m.down);
      (Some(Area(k + 1, j + 1, k + 1 + e, j + 1)), ClearDown(g, k, j, e))
    else if m.across > 0 then
      var e := Extent(AcrossLine(g, columns, k, j), 0, m.across);
      (Some(Area(k + 1, j + 1, k + 1, j + 1 + e)), ClearAcross(g, columns, k, j, e))
    else
      (None, g)
  }

  /** No merge that starts in the `e` rows below the cell at (k, j) reaches past them. */
  ghost predicate DownClosed(g: Grid, k: int, j: int, e: int) {
    forall k' :: k < k' <= k + e && At(g, k', j).down > 0 ==> k' + At(g, k', j).down <= k + e
  }

  /** No merge that starts in the `e` contained columns right of the cell at (k, j) reaches past them. */
  ghost predicate AcrossClosed(g: Grid, columns: set<int>, k: int, j: int, e: int) {
    forall j' :: j < j' <= j + e && j' + 1 in columns && At(g, k, j').across > 0 ==> j' + At(g, k, j').across <= j + e
  }

  lemma DownClosedIsClosed(g: Grid, k: int, j: int, e: nat)
    requires InGrid(g, k, j)
    ensures DownClosed(g, k, j, e) <==> Closed(DownLine(g, k, j), e)
  {
    var line := DownLine(g, k, j);
    if Closed(line, e) {
      forall k' | k < k' <= k + e && At(g, k', j).down > 0
        ensures k' + At(g, k', j).down <= k + e
      {
        assert line[k' - k - 1] == At(g, k', j).down;
      }
    }
  }

  lemma AcrossClosedIsClosed(g: Grid, columns: set<int>, k: int, j: int, e: nat)
    requires InGrid(g, k, j)
    ensures AcrossClosed(g, columns, k, j, e) <==> Closed(AcrossLine(g, columns, k, j), e)
  {
    var line := AcrossLine(g, columns, k, j);
    if Closed(line, e) {
      forall j' | j < j' <= j + e && j' + 1 in columns && At(g, k, j').across > 0
        ensures j' + At(g, k, j').across <= j + e
      {
        assert line[j' - j - 1] == At(g, k, j').across;
      }
    }
  }

  /**
   * The corrected MergeDown area: it starts at the cell, reaches at least
   * MergeDown rows below it, contains every MergeDown area that starts
   * inside it, is the smallest such area, and no cell below the first inside
   * it merges down afterwards.
   */
  lemma CorrectedDownArea(g: Grid, columns: set<int>, k: int, j: int)
    requires InGrid(g, k, j) && g[k][j].down > 0
    ensures var (a, h) := CellCorrected(g, columns, k, j);
      && a.Some? && a.value.fromRow == k + 1 && a.value.fromColumn == j + 1 && a.value.toColumn == j + 1
      && a.value.toRow >= k + 1 + g[k][j].down
      && DownClosed(g, k, j, a.value.toRow - k - 1)
      && (forall e: nat :: e >= g[k][j].down && DownClosed(g, k, j, e) ==> a.value.toRow <= k + 1 + e)
      && (forall k' :: k < k' < a.value.toRow ==> At(h, k', j).down == 0)
  {
    var line := DownLine(g, k, j);
    var e := Extent(line, 0, g[k][j].down);
    ExtentIsLeastClosed(line, g[k][j].down);
    DownClosedIsClosed(g, k, j, e);
    forall e': nat | e' >= g[k][j].down && DownClosed(g, k, j, e')
      ensures e <= e'
    {
      DownClosedIsClosed(g, k, j, e');
    }
  }

  /**
   * The corrected MergeAcross area: it reaches at least MergeAcross columns
   * to the right of the cell, contains every MergeAcross area that starts
   * inside it in a contained column, and is the smallest such area.
   */
  lemma CorrectedAcrossArea(g: Grid, columns: set<int>, k: int, j: int)
    requires InGrid(g, k, j) && g[k][j].down == 0 && g[k][j].across > 0
    ensures var (a, h) := CellCorrected(g, columns, k, j);
      && a.Some? && a.value.fromRow == k + 1 && a.value.toRow == k + 1 && a.value.fromColumn == j + 1
      && a.value.toColumn >= j + 1 + g[k][j].across
      && AcrossClosed(g, columns, k, j, a.value.toColumn - j - 1)
      && (forall e: nat :: e >= g[k][j].across && AcrossClosed(g, columns, k, j, e) ==> a.value.toColumn <= j + 1 + e)
      && (forall j' :: j < j' < a.value.toColumn && j' + 1 in columns ==> At(h, k, j').across == 0)
  {
    var line := AcrossLine(g, columns, k, j);
    var e := Extent(line, 0, g[k][j].across);
    ExtentIsLeastClosed(line, g[k][j].across);
    AcrossClosedIsClosed(g, columns, k, j, e);
    forall e': nat | e' >= g[k][j].across && AcrossClosed(g, columns, k, j, e')
      ensures e <= e'
    {
      AcrossClosedIsClosed(g, columns, k, j, e');
    }
  }

  /**
   * As written, a merge inside a MergeDown area can push the area past every
   * merge it contains: A1 down 2 with A2 down 1 gives A1:A4, not A1:A3.
   */
  lemma DownAbsorptionOverextends()
    ensures var g := [[Merge(2, 0)], [Merge(1, 0)], [Merge(0, 0)]];
      && CellAsWritten(g, {}, 0, 0).0 == Some(Area(1, 1, 4, 1))
      && CellCorrected(g, {}, 0, 0).0 == Some(Area(1, 1, 3, 1))
  {
    var g := [[Merge(2, 0)], [Merge(1, 0)], [Merge(0, 0)]];
    var h := SetDown(SetDown(g, 0, 0, 3), 1, 0, 0);
    assert AbsorbDownAsWritten(h, 0, 0, 4) == h;
    assert AbsorbDownAsWritten(h, 0, 0, 3) == h;
    assert AbsorbDownAsWritten(h, 0, 0, 2) == h;
    assert AbsorbDownAsWritten(g, 0, 0, 1) == h;
    assert DownLine(g, 0, 0) == [1, 0];
  }

  /**
   * As written, a merge near the end of a MergeDown area can cut the area
   * short and is dropped: A1 down 5 with A5 down 1 gives A1:A4 and clears
   * A5's merge, where the areas cover A1:A6.
   */
  lemma DownAbsorptionCutsShort()
    ensures var z := Merge(0, 0);
      var g := [[Merge(5, 0)], [z], [z], [z], [Merge(1, 0)], [z]];
      && CellAsWritten(g, {}, 0, 0).0 == Some(Area(1, 1, 4, 1))
      && At(CellAsWritten(g, {}, 0, 0).1, 4, 0).down == 0
      && CellCorrected(g, {}, 0, 0).0 == Some(Area(1, 1, 6, 1))
  {
    var z := Merge(0, 0);
    var g := [[Merge(5, 0)], [z], [z], [z], [Merge(1, 0)], [z]];
    var h := SetDown(SetDown(g, 0, 0, 3), 4, 0, 0);
    assert AbsorbDownAsWritten(h, 0, 0, 5) == h;
    assert AbsorbDownAsWritten(g, 0, 0, 4) == h;
    assert AbsorbDownAsWritten(g, 0, 0, 3) == h;
    assert AbsorbDownAsWritten(g, 0, 0, 2) == h;
    assert AbsorbDownAsWritten(g, 0, 0, 1) == h;
    assert DownLine(g, 0, 0) == [0, 0, 0, 1, 0];
  }

  /** As written, MergeAcross 1 on A1 gives the one-cell area A1:A1, where MergeDown 1 gives A1:A2. */
  lemma AcrossEndAsWritten()
    ensures var g := [[Merge(0, 1), Merge(0, 0)]];
      && CellAsWritten(g, {1, 2}, 0, 0).0 == Some(Area(1, 1, 1, 1))
      && CellCorrected(g, {1, 2}, 0, 0).0 == Some(Area(1, 1, 1, 2))
    ensures CellAsWritten([[Merge(1, 0)], [Merge(0, 0)]], {1}, 0, 0).0 == Some(Area(1, 1, 2, 1))
  {
  }

  /** The merge settings of a worksheet's cells, which the walk updates in place. */
  class MergeSheet {
    var grid: Grid
    const columns: set<int>

    constructor(grid: Grid, columns: set<int>)
      ensures this.grid == grid && this.columns == columns
    {
      this.grid := grid;
      this.columns := columns;
    }

    /** The MergeDown loop of GetMergeCellsFromWorksheet. */
    method AbsorbDown(k: int, j: int)
      requires InGrid(grid, k, j)
      modifies this
      ensures grid == AbsorbDownAsWritten(old(grid), k, j, 1)
    {
      var i := 1;
      while i <= grid[k][j].down
        invariant i >= 1 && InGrid(grid, k, j) && SameShape(old(grid), grid)
        invariant AbsorbDownAsWritten(grid, k, j, i) == AbsorbDownAsWritten(old(grid), k, j, 1)
        decreases if k + i < |grid| then |grid| - (k + i) else 0, grid[k][j].down + 1 - i
      {
        var t := At(grid, k + i, j).down;
        if t > 0 {
          grid := SetDown(grid, k, j, grid[k][j].down + t - i + 1);
          grid := SetDown(grid, k + i, j, 0);
        }
        i := i + 1;
      }
    }

    /** The MergeAcross loop of GetMergeCellsFromWorksheet. */
    method AbsorbAcross(k: int, j: int)
      requires InGrid(grid, k, j)
      modifies this
      ensures grid == AbsorbAcrossAsWritten(old(grid), columns, k, j, 1)
    {
      var i := 1;
      while i < grid[k][j].across
        invariant i >= 1 && InGrid(grid, k, j) && SameShape(old(grid), grid)
        invariant AbsorbAcrossAsWritten(grid, columns, k, j, i) == AbsorbAcrossAsWritten(old(grid), columns, k, j, 1)
        decreases if j + i < |grid[k]| then |grid[k]| - (j + i) else 0, grid[k][j].across - i
      {
        if j + 1 + i in columns {
          var t := At(grid, k, j + i).across;
          if t > 0 {
            grid := SetAcross(grid, k, j, grid[k][j].across + t - i + 1);
            grid := SetAcross(grid, k, j + i, 0);
          }
        }
        i := i + 1;
      }
    }

    /** The body of the walk for one cell. */
    method CellMerge(k: int, j: int) returns (area: Option<Area>)
      requires InGrid(grid, k, j)
      modifies this
      ensures (area, grid) == CellAsWritten(old(grid), columns, k, j)
    {
      var m := grid[k][j];
      if m.down > 0 {
        AbsorbDown(k, j);
        area := Some(Area(k + 1, j + 1, k + 1 + grid[k][j].down, j + 1));
      } else if m.across > 0 {
        AbsorbAcross(k, j);
        area := Some(Area(k + 1, j + 1, k + 1, j + 1 + grid[k][j].across - 1));
      } else {
        area := None;
      }
    }

    /** The walk over the cells of row index k. */
    method RowMerges(k: int) returns (areas: seq<Area>)
      requires 0 <= k < |grid|
      modifies this
      ensures (areas, grid) == RowPassAsWritten(old(grid), columns, k, 0)
    {
      areas := [];
      var j := 0;
      assert areas + RowPassAsWritten(grid, columns, k, j).0 == RowPassAsWritten(grid, columns, k, j).0;
      while j < |grid[k]|
        invariant SameShape(old(grid), grid) && 0 <= j <= |grid[k]|
        invariant RowPassAsWritten(old(grid), columns, k, 0)
          == (areas + RowPassAsWritten(grid, columns, k, j).0, RowPassAsWritten(grid, columns, k, j).1)
      {
        ghost var before, g0 := areas, grid;
        var area := CellMerge(k, j);
        RowPassStep(before, g0, columns, k, j, area, grid);
        areas := areas + OptionToSeq(area);
        j := j + 1;
      }
      assert areas + RowPassAsWritten(grid, columns, k, j).0 == areas;
    }

    /** GetMergeCellsFromWorksheet: the addresses of the merge areas, in walk order. */
    method GetMergeCells() returns (addresses: seq<string>)
      modifies this
      ensures addresses == Addresses(PassAsWritten(old(grid), columns, 0).0)
      ensures grid == PassAsWritten(old(grid), columns, 0).1
    {
      ghost var done: seq<Area> := [];
      addresses := [];
      var k := 0;
      assert done + PassAsWritten(grid, columns, k).0 == PassAsWritten(grid, columns, k).0;
      while k < |grid|
        invariant 0 <= k <= |grid| && SameShape(old(grid), grid)
        invariant PassAsWritten(old(grid), columns, 0)
          == (done + PassAsWritten(grid, columns, k).0, PassAsWritten(grid, columns, k).1)
        invariant addresses == Addresses(done)
      {
        ghost var before, g0 := done, grid;
        var row := RowMerges(k);
        PassStep(before, g0, columns, k, row, grid);
        AddressesAppend(done, row);
        addresses := addresses + Addresses(row);
        done := done + row;
        k := k + 1;
      }
      assert done + PassAsWritten(grid, columns, k).0 == done;
    }
  }
}
