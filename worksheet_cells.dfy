/**
 * A worksheet's cells addressed by row and column: the indexers that make
 * sure the column and the row exist (creating and padding them) before
 * reading or storing the cell in the row's own cell collection, the getter
 * by cell address, and the searches over every row in index order.
 */
module WorksheetCells {
  import opened Wrappers
  import opened Shifts
  import opened Cells
  import CC = CellCollections
  import Ro = Rows
  import Col = Columns
  import CN = ColumnNames

  /** The rows after the row getter padded them up to `index`. */
  ghost function PaddedTo(s: map<int, Ro.Row>, currentMax: int, index: int): map<int, Ro.Row> {
    Ro.PaddedRows(s, currentMax + 1, Ro.PadEnd(currentMax, index))
  }

  /** The setter rebinds the cell to the target row and column when it is bound elsewhere; nothing else of it changes. */
  function Rebound(value: Cell, rowIndex: int, columnIndex: int): (r: Cell)
    ensures r.rowIndex == rowIndex && r.columnIndex == columnIndex
    ensures r.(rowIndex := value.rowIndex, columnIndex := value.columnIndex) == value
  {
    var v := if value.rowIndex != rowIndex then value.(rowIndex := rowIndex) else value;
    if v.columnIndex != columnIndex then v.(columnIndex := columnIndex) else v
  }

  /** Every cell a search predicate accepts, row after row in the order given, each row's in column order. */
  ghost function SheetMatches(rows: seq<Ro.Row>, p: Cell -> bool): seq<Cell>
    decreases |rows|
  {
    if rows == [] then [] else SheetMatches(rows[..|rows| - 1], p) + CC.AllMatches(rows[|rows| - 1].cells, p)
  }

  lemma {:induction false} SheetMatchesAppend(a: seq<Ro.Row>, b: seq<Ro.Row>, p: Cell -> bool)
    ensures SheetMatches(a + b, p) == SheetMatches(a, p) + SheetMatches(b, p)
    decreases |b|
  {
    if b != [] {
      var b' := b[..|b| - 1];
      assert (a + b)[..|a + b| - 1] == a + b';
      SheetMatchesAppend(a, b', p);
    } else {
      assert a + b == a;
    }
  }

  /** The search over the sheet finds every accepted cell of every row given, and only accepted cells. */
  lemma {:induction false} SheetMatchesExact(rows: seq<Ro.Row>, p: Cell -> bool)
    ensures forall i, k :: 0 <= i < |rows| && k in rows[i].cells && p(rows[i].cells[k]) ==>
                           rows[i].cells[k] in SheetMatches(rows, p)
    ensures forall c :: c in SheetMatches(rows, p) ==> p(c)
    decreases |rows|
  {
    if rows != [] {
      var init := rows[..|rows| - 1];
      SheetMatchesExact(init, p);
      CC.AllMatchesExact(rows[|rows| - 1].cells, p);
      forall i, k | 0 <= i < |rows| && k in rows[i].cells && p(rows[i].cells[k])
        ensures rows[i].cells[k] in SheetMatches(rows, p)
      {
        if i < |rows| - 1 {
          assert rows[i] == init[i];
        }
      }
    }
  }

  /** The loop of FindCellsByValue: each row's matches appended in the order of the rows. */
  method CollectMatches(ordered: seq<Ro.Row>, p: Cell -> bool) returns (matches: seq<Cell>)
    ensures matches == SheetMatches(ordered, p)
  {
    matches := [];
    var i := 0;
    while i < |ordered|
      invariant 0 <= i <= |ordered|
      invariant matches == SheetMatches(ordered[..i], p)
    {
      var rowMatches := CC.FindIn(ordered[i].cells, p, false);
      if rowMatches.Some? {
        matches := matches + rowMatches.value;
      }
      assert ordered[..i + 1][..i] == ordered[..i];
      i := i + 1;
    }
    assert ordered[..i] == ordered;
  }

  /** The columns after a missing column was created with the defaults. */
  ghost function WithColumn(s: map<int, Col.Column>, columnIndex: int): map<int, Col.Column>
    requires columnIndex in s || Col.ValidColumnIndex(columnIndex)
  {
    if columnIndex in s then s else s[columnIndex := Col.DefaultColumn(columnIndex).value]
  }

  class WorksheetCells {
    const rows: Ro.RowCollection
    const columns: Col.ColumnCollection

    ghost predicate Valid()
      reads this, rows, columns
    {
      rows.Valid() && columns.Valid()
    }

    constructor(rows: Ro.RowCollection, columns: Col.ColumnCollection)
      ensures this.rows == rows && this.columns == columns
    {
      this.rows := rows;
      this.columns := columns;
    }

    /**
     * Both indexers first make sure the column exists: a missing one is
     * created with the defaults, which refuses an index outside 1..16384.
     */
    method EnsureColumn(columnIndex: int) returns (r: Result<()>)
      requires columns.Valid()
      modifies columns
      ensures columns.Valid() && columns.ranges == old(columns.ranges)
      ensures r.Ok? <==> columnIndex in old(columns.columns) || Col.ValidColumnIndex(columnIndex)
      ensures r.Err? ==> r.error == ArgumentOutOfRange && columns.columns == old(columns.columns)
      ensures r.Ok? ==> columns.columns == WithColumn(old(columns.columns), columnIndex)
    {
      if !columns.Contains(columnIndex) {
        var column := columns.Get(columnIndex);
        if column.Err? {
          return Err(column.error);
        }
      }
      r := Ok(());
    }

    /** What both indexers do first: the column is created if missing, then the rows are padded up to the row, which is read. */
    method Prepare(rowIndex: int, columnIndex: int) returns (r: Result<Ro.Row>)
      requires Valid()
      modifies rows, columns
      ensures Valid()
      ensures !(columnIndex in old(columns.columns) || Col.ValidColumnIndex(columnIndex)) ==>
                r == Err(ArgumentOutOfRange) && rows.rows == old(rows.rows)
      ensures r.Ok? ==> (columnIndex in old(columns.columns) || Col.ValidColumnIndex(columnIndex)) &&
                        columns.columns == WithColumn(old(columns.columns), columnIndex)
      ensures r.Ok? ==> rows.rows == PaddedTo(old(rows.rows), old(rows.currentMax), rowIndex) &&
                        rowIndex in rows.rows && r.value == rows.rows[rowIndex]
      ensures (Col.ValidColumnIndex(columnIndex) && Ro.ValidRowIndex(rowIndex) &&
               old(rows.Contiguous()) && old(rows.currentMax) >= 0) ==> r.Ok?
    {
      var column := EnsureColumn(columnIndex);
      if column.Err? {
        return Err(column.error);
      }
      r := ReadRow(rowIndex);
    }

    /** The rows are padded up to the row, which is then read. */
    method ReadRow(rowIndex: int) returns (r: Result<Ro.Row>)
      requires rows.Valid()
      modifies rows
      ensures rows.Valid()
      ensures r.Ok? ==> rows.rows == PaddedTo(old(rows.rows), old(rows.currentMax), rowIndex) &&
                        rowIndex in rows.rows && r.value == rows.rows[rowIndex]
      ensures (Ro.ValidRowIndex(rowIndex) && old(rows.Contiguous()) && old(rows.currentMax) >= 0) ==> r.Ok?
    {
      if Ro.ValidRowIndex(rowIndex) && rows.Contiguous() && rows.currentMax >= 0 {
        rows.GetSucceeds(rowIndex);
      }
      r := rows.Get(rowIndex);
    }

    /**
     * The (row, column) getter: the column is created if missing, the rows
     * are padded up to the row, and the row's cell collection yields the
     * cell, creating a blank one with the row's style when there is none.
     */
    method Get(rowIndex: int, columnIndex: int) returns (r: Result<Cell>)
      requires Valid()
      modifies rows, columns
      ensures Valid()
      ensures !(columnIndex in old(columns.columns) || Col.ValidColumnIndex(columnIndex)) ==>
                r == Err(ArgumentOutOfRange) && rows.rows == old(rows.rows)
      ensures r.Ok? ==> (columnIndex in old(columns.columns) || Col.ValidColumnIndex(columnIndex)) &&
                        columns.columns == WithColumn(old(columns.columns), columnIndex)
      ensures r.Ok? ==> Ro.CellAt(rows.rows, rowIndex, columnIndex) == Some(r.value)
      ensures r.Ok? ==>
        var padded := PaddedTo(old(rows.rows), old(rows.currentMax), rowIndex);
        rowIndex in padded &&
        if Ro.CellAt(padded, rowIndex, columnIndex).Some? then
          r.value == Ro.CellAt(padded, rowIndex, columnIndex).value && rows.rows == padded
        else
          r.value == BlankCell(padded[rowIndex].index, columnIndex, padded[rowIndex].styleIndex) &&
          rows.rows == Ro.StoreCell(padded, rowIndex, columnIndex, r.value)
      ensures (Col.ValidColumnIndex(columnIndex) && Ro.ValidRowIndex(rowIndex) &&
               old(rows.Contiguous()) && old(rows.currentMax) >= 0) ==> r.Ok?
    {
      var row :- Prepare(rowIndex, columnIndex);
      if columnIndex in row.cells {
        return Ok(row.cells[columnIndex]);
      }
      if !(CC.MinColumn <= columnIndex <= CC.MaxColumn) {
        return Err(ArgumentOutOfRange);
      }
      var cell := BlankCell(row.index, columnIndex, row.styleIndex);
      rows.SetCell(rowIndex, columnIndex, cell);
      r := Ok(cell);
    }

    /**
     * The (row, column) setter: the column and the row are made to exist as
     * in the getter, the cell is rebound to the row and the column, and the
     * row's cell collection stores it, replacing what was there.
     */
    method Set(rowIndex: int, columnIndex: int, value: Cell) returns (r: Result<()>)
      requires Valid()
      modifies rows, columns
      ensures Valid()
      ensures !(columnIndex in old(columns.columns) || Col.ValidColumnIndex(columnIndex)) ==>
                r == Err(ArgumentOutOfRange) && rows.rows == old(rows.rows)
      ensures r.Ok? ==> (columnIndex in old(columns.columns) || Col.ValidColumnIndex(columnIndex)) &&
                        columns.columns == WithColumn(old(columns.columns), columnIndex)
      ensures r.Ok? ==> (
        var padded := PaddedTo(old(rows.rows), old(rows.currentMax), rowIndex);
        rowIndex in padded && rows.rows == Ro.StoreCell(padded, rowIndex, columnIndex, Rebound(value, rowIndex, columnIndex)))
      ensures r.Ok? ==> Ro.CellAt(rows.rows, rowIndex, columnIndex) == Some(Rebound(value, rowIndex, columnIndex))
      ensures (Col.ValidColumnIndex(columnIndex) && Ro.ValidRowIndex(rowIndex) &&
               old(rows.Contiguous()) && old(rows.currentMax) >= 0) ==> r.Ok?
    {
      var row := Prepare(rowIndex, columnIndex);
      if row.Err? {
        return Err(row.error);
      }
      rows.SetCell(rowIndex, columnIndex, Rebound(value, rowIndex, columnIndex));
      r := Ok(());
    }

    /**
     * The getter by cell address: the address is split into row and column
     * indexes; when either is out of bounds the result is null, otherwise
     * it is the (row, column) getter's. The row is what remains after the
     * column name the converter has cached for that column is removed
     * from the address as given: the canonical upper-case name unless an
     * odd address cached another first, so a lower-case address has no
     * valid row.
     */
    method GetByAddress(converter: CN.ColumnIndexConverter, address: string) returns (r: Result<Option<Cell>>)
      requires Valid() && converter.Valid()
      modifies rows, columns, converter
      ensures Valid() && converter.Valid()
      ensures CN.CacheKept(old(converter.byNumber), converter.byNumber)
      ensures !Col.ValidColumnIndex(CN.AddressColumnIndex(address)) ==> r == Ok(None)
      ensures var columnIndex := CN.AddressColumnIndex(address);
        columnIndex > 0 ==> (
          columnIndex in converter.byNumber && (
          var rowIndex := CN.RowOfAddressAsWritten(address, converter.byNumber[columnIndex]);
          (!Ro.ValidRowIndex(rowIndex) ==> r == Ok(None)) &&
          (r.Ok? && r.value.Some? ==> Ro.CellAt(rows.rows, rowIndex, columnIndex) == r.value)))
      ensures old(converter.CanonicalNames()) && CN.IsColumnName(CN.ColumnPartOfAddress(address)) ==>
        (var columnIndex := CN.AddressColumnIndex(address);
         columnIndex > 0 && converter.CanonicalNames() && converter.byNumber[columnIndex] == CN.ColumnName(columnIndex))
    {
      var rowIndex, columnIndex := converter.CellIndexesFromAddressAsWritten(address);
      if !(Ro.ValidRowIndex(rowIndex) && Col.ValidColumnIndex(columnIndex)) {
        return Ok(None);
      }
      var cell :- Get(rowIndex, columnIndex);
      r := Ok(Some(cell));
    }

    /**
     * FindCellsByValue over the sheet: each row's matches in row order,
     * or null when no row has one.
     */
    method FindCellsWith(p: Cell -> bool) returns (r: Option<seq<Cell>>)
      ensures r.None? <==> SheetMatches(Ordered(rows.rows), p) == []
      ensures r.Some? ==> r.value == SheetMatches(Ordered(rows.rows), p)
    {
      var ordered := OrderedValues(rows.rows);
      var matches := CollectMatches(ordered, p);
      r := if |matches| > 0 then Some(matches) else None;
    }

    /** FindCellByValue over the sheet: the first match of the first row that has one, or null. */
    method FindCellWith(p: Cell -> bool) returns (r: Option<Cell>)
      ensures r.None? <==> SheetMatches(Ordered(rows.rows), p) == []
      ensures r.Some? ==> r.value == SheetMatches(Ordered(rows.rows), p)[0]
    {
      var ordered := OrderedValues(rows.rows);
      var i := 0;
      while i < |ordered|
        invariant 0 <= i <= |ordered|
        invariant SheetMatches(ordered[..i], p) == []
      {
        var rowMatch := CC.FindIn(ordered[i].cells, p, true);
        assert ordered[..i + 1][..i] == ordered[..i];
        if rowMatch.Some? {
          SheetMatchesAppend(ordered[..i + 1], ordered[i + 1..], p);
          assert ordered[..i + 1] + ordered[i + 1..] == ordered;
          return Some(rowMatch.value[0]);
        }
        i := i + 1;
      }
      assert ordered[..i] == ordered;
      r := None;
    }

    /**
     * FindCellsByValue: every row's matches by the row collection's
     * comparison, in row order, or null when there are none.
     */
    method FindCellsByValue(query: CellValue, ignoreCase: bool, textOf: Cell -> string) returns (r: Option<seq<Cell>>)
      ensures var p := (c: Cell) => CC.MatchesAsWritten(c, textOf(c), query, ignoreCase);
        (r.None? <==> SheetMatches(Ordered(rows.rows), p) == []) &&
        (r.Some? ==> r.value == SheetMatches(Ordered(rows.rows), p))
    {
      r := FindCellsWith(c => CC.MatchesAsWritten(c, textOf(c), query, ignoreCase));
    }

    /** FindCellByValue: the first match of the first row that has one, by the row collection's comparison, or null. */
    method FindCellByValue(query: CellValue, ignoreCase: bool, textOf: Cell -> string) returns (r: Option<Cell>)
      ensures var p := (c: Cell) => CC.MatchesAsWritten(c, textOf(c), query, ignoreCase);
        (r.None? <==> SheetMatches(Ordered(rows.rows), p) == []) &&
        (r.Some? ==> r.value == SheetMatches(Ordered(rows.rows), p)[0])
    {
      r := FindCellWith(c => CC.MatchesAsWritten(c, textOf(c), query, ignoreCase));
    }
  }
}
