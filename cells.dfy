/**
 * A cell as a value: its position, its typed raw value, its style index and
 * its merge and hyperlink settings, with the value classification, the
 * "used" test, the type attribute mapping and the cell address.
 */
module Cells {
  import opened Wrappers
  import opened Helpers
  import opened TimeConverter
  import opened ColumnNames

  /** The style index every new cell and every cleared cell carries. */
  const DefaultStyleIndex: int := 0

  /** The cell data types, as the spreadsheet format numbers them (Blank is the library's own -1). */
  datatype CellDataType = Blank | Boolean | Number | Error | SharedString | String | InlineString | Date

  /**
   * A value handed to a cell. `OtherInput` stands for any other object: its
   * text and, when that text parses as a double, the number it parses to.
   */
  datatype CellInput =
    | NullInput
    | BoolInput(b: bool)
    | DateInput(d: DateTime)
    | TextInput(s: string)
    | OtherInput(text: string, number: Option<real>)

  /** What a cell stores: the value it was given, with dates already turned into serial numbers. */
  datatype RawValue = RawBool(b: bool) | RawNumber(x: real) | RawText(s: string) | RawObject(text: string, number: Option<real>)

  /** The value the cell hands back. */
  datatype CellValue = BoolValue(b: bool) | NumberValue(x: real) | TextValue(s: string)

  /** The target of a hyperlink, as a cell position. */
  datatype CellRef = CellRef(rowIndex: int, columnIndex: int)

  /**
   * A cell. `columnIndex` is the index of the column it is bound to, which
   * a column shift can move before the cell's own collection catches up.
   */
  datatype Cell = Cell(
    rowIndex: int,
    columnIndex: int,
    dataType: CellDataType,
    raw: RawValue,
    styleIndex: int,
    mergeDown: nat,
    mergeAcross: nat,
    hyperlinkTo: Option<CellRef>)

  predicate ValidInput(v: CellInput) {
    v.DateInput? ==> ValidDateTime(v.d)
  }

  /** The input prints as the empty text (null counts as ""); booleans and dates never do. */
  predicate PrintsEmpty(v: CellInput) {
    match v
    case NullInput => true
    case BoolInput(_) => false
    case DateInput(_) => false
    case TextInput(s) => s == ""
    case OtherInput(t, _) => t == ""
  }

  /**
   * UpdateCellValue: empty text is Blank, then booleans, dates (stored as
   * serial numbers), strings (shared strings) and numeric objects are
   * recognised in that order; any other object is rejected.
   */
  function ClassifyValue(v: CellInput): (r: Result<(CellDataType, RawValue)>)
    requires ValidInput(v)
    ensures PrintsEmpty(v) ==> r.Ok? && r.value.0 == Blank
    ensures r.Ok? && r.value.0 == Blank ==> PrintsEmpty(v)
    ensures v.BoolInput? ==> r == Ok((Boolean, RawBool(v.b)))
    ensures v.TextInput? && v.s != "" ==> r == Ok((SharedString, RawText(v.s)))
    ensures v.DateInput? ==> (r.Ok? <==> DateTimeToSerial(v.d).Ok?)
    ensures v.DateInput? && r.Ok? ==> r.value == (Number, RawNumber(DateTimeToSerial(v.d).value))
    ensures v.OtherInput? && v.text != "" ==> (r.Ok? <==> v.number.Some?)
    ensures r.Ok? && r.value.0 == Number ==> v.DateInput? || (v.OtherInput? && v.number.Some?)
    ensures r.Err? ==> r.error == ArgumentOutOfRange
  {
    if PrintsEmpty(v) then
      Ok((Blank, if v.OtherInput? then RawObject(v.text, v.number) else RawText("")))
    else
      match v
      case BoolInput(b) => Ok((Boolean, RawBool(b)))
      case DateInput(d) =>
        var serial :- DateTimeToSerial(d);
        Ok((Number, RawNumber(serial)))
      case TextInput(s) => Ok((SharedString, RawText(s)))
      case OtherInput(t, n) => if n.Some? then Ok((Number, RawObject(t, n))) else Err(ArgumentOutOfRange)
  }

  /** The raw value suits the data type, so that reading the value back succeeds. */
  predicate WellTyped(c: Cell) {
    match c.dataType
    case Boolean => c.raw.RawBool?
    case Number => c.raw.RawNumber? || (c.raw.RawObject? && c.raw.number.Some?)
    case String => c.raw.RawText?
    case _ => true
  }

  lemma ClassifiedValuesAreWellTyped(v: CellInput, c: Cell)
    requires ValidInput(v) && ClassifyValue(v).Ok?
    requires c.dataType == ClassifyValue(v).value.0 && c.raw == ClassifyValue(v).value.1
    ensures WellTyped(c)
  {
  }

  /** The text of a raw value (ToString); only whether it is empty matters here, and a number's text never is. */
  function RawToString(raw: RawValue): string
  {
    match raw
    case RawBool(b) => if b then "True" else "False"
    case RawNumber(_) => "0"
    case RawText(s) => s
    case RawObject(t, _) => t
  }

  /** GetValue: "" for a blank cell, otherwise the raw value read as the cell's type. */
  function GetValue(c: Cell): (r: Result<CellValue>)
    ensures c.dataType == Blank ==> r == Ok(TextValue(""))
    ensures c.dataType == Boolean && c.raw.RawBool? ==> r == Ok(BoolValue(c.raw.b))
    ensures c.dataType == SharedString ==> r.Ok? && r.value.TextValue?
    ensures WellTyped(c) && c.dataType in {Blank, Boolean, Number, SharedString, String} ==> r.Ok?
    ensures c.dataType in {Error, InlineString, Date} ==> r == Err(ArgumentOutOfRange)
  {
    match c.dataType
    case Blank => Ok(TextValue(""))
    case Boolean => if c.raw.RawBool? then Ok(BoolValue(c.raw.b)) else Err(InvalidCast)
    case SharedString => Ok(TextValue(RawToString(c.raw)))
    case Number =>
      if c.raw.RawNumber? then Ok(NumberValue(c.raw.x))
      else if c.raw.RawObject? && c.raw.number.Some? then Ok(NumberValue(c.raw.number.value))
      else Err(InvalidCast)
    case String => if c.raw.RawText? then Ok(TextValue(c.raw.s)) else Err(InvalidCast)
    case _ => Err(ArgumentOutOfRange)
  }

  /** The Cell(row, column, value, styleIndex) constructor. */
  function NewCell(rowIndex: int, columnIndex: int, v: CellInput, styleIndex: int): (r: Result<Cell>)
    requires ValidInput(v)
    ensures r.Ok? <==> ClassifyValue(v).Ok?
    ensures r.Ok? ==> r.value.rowIndex == rowIndex && r.value.columnIndex == columnIndex
    ensures r.Ok? ==> r.value.styleIndex == styleIndex && (r.value.dataType, r.value.raw) == ClassifyValue(v).value
    ensures r.Ok? ==> r.value.mergeDown == 0 && r.value.mergeAcross == 0 && r.value.hyperlinkTo.None? && WellTyped(r.value)
  {
    var (t, raw) :- ClassifyValue(v);
    Ok(Cell(rowIndex, columnIndex, t, raw, styleIndex, 0, 0, None))
  }

  /** A blank cell: the constructor called with the empty text. */
  function BlankCell(rowIndex: int, columnIndex: int, styleIndex: int): (r: Cell)
    ensures r.rowIndex == rowIndex && r.columnIndex == columnIndex && r.styleIndex == styleIndex
    ensures r.dataType == Blank && GetValue(r) == Ok(TextValue("")) && WellTyped(r)
    ensures r.mergeDown == 0 && r.mergeAcross == 0 && r.hyperlinkTo.None?
  {
    Cell(rowIndex, columnIndex, Blank, RawText(""), styleIndex, 0, 0, None)
  }

  /** The Value setter: the cell is reclassified, or the setter raises and the cell is unchanged. */
  function SetValue(c: Cell, v: CellInput): (r: Result<Cell>)
    requires ValidInput(v)
    ensures r.Ok? <==> ClassifyValue(v).Ok?
    ensures r.Ok? ==> r.value == c.(dataType := ClassifyValue(v).value.0, raw := ClassifyValue(v).value.1)
  {
    var (t, raw) :- ClassifyValue(v);
    Ok(c.(dataType := t, raw := raw))
  }

  /** Clear: the value becomes blank and the style index returns to the default; merges and hyperlink stay. */
  function Clear(c: Cell): (r: Cell)
    ensures r.dataType == Blank && GetValue(r) == Ok(TextValue("")) && r.styleIndex == DefaultStyleIndex
    ensures r.rowIndex == c.rowIndex && r.columnIndex == c.columnIndex
    ensures r.mergeDown == c.mergeDown && r.mergeAcross == c.mergeAcross && r.hyperlinkTo == c.hyperlinkTo
  {
    c.(dataType := Blank, raw := RawText(""), styleIndex := DefaultStyleIndex)
  }

  /**
   * A cleared cell with no merge and no hyperlink is used exactly when the
   * text it is formatted to is not empty: clearing drops the style, so the
   * empty text its blank value renders to leaves it unused.
   */
  lemma ClearedCellIsUnused(c: Cell, text: string)
    requires c.mergeDown == 0 && c.mergeAcross == 0 && c.hyperlinkTo.None?
    ensures IsUsed(Clear(c), text) <==> text != ""
    ensures GetValue(Clear(c)) == Ok(TextValue("")) && !IsUsed(Clear(c), "")
  {
  }

  /** The MergeDown setter: negative values are ignored. */
  function SetMergeDown(c: Cell, value: int): (r: Cell)
    ensures value >= 0 ==> r == c.(mergeDown := value)
    ensures value < 0 ==> r == c
  {
    if value >= 0 then c.(mergeDown := value) else c
  }

  /** The MergeAcross setter: negative values are ignored. */
  function SetMergeAcross(c: Cell, value: int): (r: Cell)
    ensures value >= 0 ==> r == c.(mergeAcross := value)
    ensures value < 0 ==> r == c
  {
    if value >= 0 then c.(mergeAcross := value) else c
  }

  /**
   * IsUsed, given the cell's formatted text: some text, a style, a merge or
   * a hyperlink.
   */
  predicate IsUsed(c: Cell, text: string) {
    text != "" || c.styleIndex > DefaultStyleIndex || c.mergeDown > 0 || c.mergeAcross > 0 || c.hyperlinkTo.Some?
  }

  /** GetCellDataTypeFromAttributeValue: "b", "s" and "str" are recognised; anything else, or no attribute, is a number. */
  function TypeFromAttribute(attribute: string): (r: CellDataType)
    ensures r in {Boolean, SharedString, String, Number}
    ensures r == Number <==> attribute !in {"b", "s", "str"}
  {
    if attribute == "b" then Boolean
    else if attribute == "s" then SharedString
    else if attribute == "str" then String
    else Number
  }

  /** GetAttributeValueFromCellDataType: numbers and blanks have no type attribute; the others take the format's name. */
  function AttributeFromType(t: CellDataType): (r: string)
    ensures r == "" <==> t in {Number, Blank}
  {
    match t
    case Blank => ""
    case Number => ""
    case Boolean => "b"
    case Error => "e"
    case SharedString => "s"
    case String => "str"
    case InlineString => "inlineStr"
    case Date => "d"
  }

  /**
   * The type attribute round-trips for the types the reader knows; a blank
   * cell reads back as a number type (its missing value then makes it blank).
   */
  lemma TypeAttributeRoundTrip(t: CellDataType)
    ensures t in {Boolean, SharedString, String, Number} ==> TypeFromAttribute(AttributeFromType(t)) == t
    ensures t == Blank ==> TypeFromAttribute(AttributeFromType(t)) == Number
    ensures t in {Error, InlineString, Date} ==> TypeFromAttribute(AttributeFromType(t)) == Number
  {
  }

  /** The attributes written for a cell element. */
  datatype CellElement = CellElement(typeAttribute: Option<string>, styleAttribute: Option<int>, reference: string, hasValue: bool)

  /**
   * WriteCellToWriter: an unused cell is skipped; otherwise "t" only for a
   * typed cell, "s" only for a non-default style, "r" always, and a value
   * element only for a non-empty raw value.
   */
  function WriteCell(c: Cell, text: string, columnName: string): (r: Option<CellElement>)
    ensures r.None? <==> !IsUsed(c, text)
    ensures r.Some? ==> (r.value.typeAttribute.Some? <==> c.dataType !in {Number, Blank})
    ensures r.Some? && r.value.typeAttribute.Some? && c.dataType in {Boolean, SharedString, String} ==>
      TypeFromAttribute(r.value.typeAttribute.value) == c.dataType
    ensures r.Some? ==> (r.value.styleAttribute.Some? <==> c.styleIndex > DefaultStyleIndex)
    ensures r.Some? && r.value.styleAttribute.Some? ==> r.value.styleAttribute.value == c.styleIndex
    ensures r.Some? ==> r.value.reference == Address(columnName, c.rowIndex)
  {
    if !IsUsed(c, text) then None
    else
      var t := AttributeFromType(c.dataType);
      Some(CellElement(
        if t != "" then Some(t) else None,
        if c.styleIndex > DefaultStyleIndex then Some(c.styleIndex) else None,
        Address(columnName, c.rowIndex),
        RawToString(c.raw) != ""))
  }

  /** GetCellAddressByColumnNameByRowIndex: the column name followed by the row number. */
  function Address(columnName: string, rowIndex: int): (r: string)
    ensures |r| > |columnName| && r[..|columnName|] == columnName
  {
    columnName + IntToString(rowIndex)
  }

  lemma UpperAddress(name: string, row: nat)
    requires IsColumnName(name)
    ensures ToUpper(Address(name, row)) == name + NatToString(row)
  {
    var a := Address(name, row);
    assert a == name + NatToString(row);
    forall i | 0 <= i < |a|
      ensures ToUpperChar(a[i]) == a[i]
    {
      if i < |name| {
        assert a[i] == name[i];
      } else {
        assert a[i] == NatToString(row)[i - |name|];
      }
    }
    assert ToUpper(a) == a;
  }

  /** The address of the cell at (row, column) reads back as that row and column. */
  lemma AddressRoundTrip(rowIndex: nat, columnIndex: int)
    requires columnIndex > 0
    ensures AddressColumnIndex(Address(ColumnName(columnIndex), rowIndex)) == columnIndex
    ensures RowOfAddress(Address(ColumnName(columnIndex), rowIndex), ColumnName(columnIndex)) == rowIndex
  {
    var name := ColumnName(columnIndex);
    UpperAddress(name, rowIndex);
    RowOfAddressOfCellAddress(Address(name, rowIndex), name, rowIndex);
    ColumnIndexOfName(columnIndex);
  }
}
