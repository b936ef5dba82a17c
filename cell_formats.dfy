/**
 * The cell format: the five-part composite (alignment, borders, fill, font,
 * number format) that a cell's style index names. A part that was never set
 * explicitly resolves to the default entry of its table.
 */
module CellFormats {
  import opened Wrappers
  import opened Helpers
  import Al = Alignments
  import B = Borders
  import Fi = Fills
  import Fo = Fonts
  import N = NumberFormats

  const DefaultBaseFormatId: int := 0
  const DefaultStyleIndex: int := 0

  /** A workbook-level cell format; None marks a part that was never set. */
  datatype CellFormat = CellFormat(baseFormatId: int, cellFormatId: int, alignment: Option<Al.Alignment>,
                                   borders: Option<B.Borders>, fill: Option<Fi.Fill>, font: Option<Fo.Font>,
                                   numberFormat: Option<N.NumberFormat>)

  /** The default entries of the part tables (borders 0, fill 0, font 0, number format -1); None where a table lacks it. */
  datatype Defaults = Defaults(borders: Option<B.Borders>, fill: Option<Fi.Fill>, font: Option<Fo.Font>,
                               numberFormat: Option<N.NumberFormat>)

  /** A fresh workbook cell format: ids 0, only the number format set (to the default format). */
  function NewCellFormat(): (r: CellFormat)
    ensures r.baseFormatId == DefaultBaseFormatId && r.cellFormatId == DefaultStyleIndex
    ensures r.alignment.None? && r.borders.None? && r.fill.None? && r.font.None?
    ensures r.numberFormat == Some(N.DefaultNumberFormat)
  {
    CellFormat(DefaultBaseFormatId, DefaultStyleIndex, None, None, None, None, Some(N.DefaultNumberFormat))
  }

  function GetAlignment(cf: CellFormat): (r: Al.Alignment)
    ensures cf.alignment.None? ==> r == Al.DefaultAlignment
    ensures cf.alignment.Some? ==> r == cf.alignment.value
  {
    if cf.alignment.Some? then cf.alignment.value else Al.DefaultAlignment
  }

  function GetBorders(cf: CellFormat, d: Defaults): Option<B.Borders> {
    if cf.borders.Some? then cf.borders else d.borders
  }

  function GetFill(cf: CellFormat, d: Defaults): Option<Fi.Fill> {
    if cf.fill.Some? then cf.fill else d.fill
  }

  function GetFont(cf: CellFormat, d: Defaults): Option<Fo.Font> {
    if cf.font.Some? then cf.font else d.font
  }

  function GetNumberFormat(cf: CellFormat, d: Defaults): Option<N.NumberFormat> {
    if cf.numberFormat.Some? then cf.numberFormat else d.numberFormat
  }

  /**
   * Borders that can be stored and compared: all five edges present, each
   * in the slot of its own type (as the reader builds them), with defined styles.
   */
  predicate StorableBorders(b: B.Borders) {
    B.Complete(b) && forall t :: B.Slot(b, t).value.borderType == t && B.IsBorderStyle(B.Slot(b, t).value.style)
  }

  /** A fill whose pattern code is defined (the setters ignore undefined codes). */
  predicate StorableFill(f: Fi.Fill) {
    Fi.IsPatternType(f.patternType)
  }

  /** Every part resolves to an object, so comparing two such formats cannot dereference null. */
  predicate Resolved(cf: CellFormat, d: Defaults) {
    GetBorders(cf, d).Some? && StorableBorders(GetBorders(cf, d).value) &&
    GetFill(cf, d).Some? && StorableFill(GetFill(cf, d).value) &&
    GetFont(cf, d).Some? && GetNumberFormat(cf, d).Some?
  }

  /** Equals over two optional parts: a null part is a null dereference, otherwise `other` is compared with `mine`. */
  function ComparePart<T>(other: Option<T>, mine: Option<T>, eq: (T, T) -> bool): (r: Result<bool>)
    ensures r.Err? <==> other.None? || mine.None?
    ensures r.Ok? ==> r.value == eq(other.value, mine.value)
  {
    if other.None? || mine.None? then Err(NullReference) else Ok(eq(other.value, mine.value))
  }

  function CompareBorders(other: Option<B.Borders>, mine: Option<B.Borders>): Result<bool> {
    if other.None? || mine.None? then Err(NullReference) else B.BordersEqual(other.value, mine.value)
  }

  /**
   * Equals: the other format's alignment, borders, fill, font and number
   * format are compared with this one's in that order, stopping at the first
   * difference; a failing comparison propagates.
   */
  function CellFormatsEqual(mine: CellFormat, other: CellFormat, d: Defaults): (r: Result<bool>)
  {
    if !Al.AlignmentsEqual(GetAlignment(other), GetAlignment(mine)) then Ok(false)
    else
      var bordersEqual :- CompareBorders(GetBorders(other, d), GetBorders(mine, d));
      if !bordersEqual then Ok(false)
      else
        var fillsEqual :- ComparePart(GetFill(other, d), GetFill(mine, d), Fi.FillsEqual);
        if !fillsEqual then Ok(false)
        else
          var fontsEqual :- ComparePart(GetFont(other, d), GetFont(mine, d), Fo.FontsEqual);
          if !fontsEqual then Ok(false)
          else ComparePart(GetNumberFormat(other, d), GetNumberFormat(mine, d), N.NumberFormatsEqual)
  }

  /** On resolved formats, equality never fails and holds exactly when all five parts are equal. */
  lemma CellFormatsEqualMeaning(a: CellFormat, b: CellFormat, d: Defaults)
    requires Resolved(a, d) && Resolved(b, d)
    ensures CellFormatsEqual(a, b, d) == Ok(
      Al.AlignmentsEqual(GetAlignment(b), GetAlignment(a)) &&
      B.BordersEqual(GetBorders(b, d).value, GetBorders(a, d).value) == Ok(true) &&
      Fi.FillsEqual(GetFill(b, d).value, GetFill(a, d).value) &&
      Fo.FontsEqual(GetFont(b, d).value, GetFont(a, d).value) &&
      N.NumberFormatsEqual(GetNumberFormat(b, d).value, GetNumberFormat(a, d).value))
  {
    B.BordersEqualMeaning(GetBorders(b, d).value, GetBorders(a, d).value);
  }

  /** A format whose font resolves to nothing cannot be compared once the earlier parts agree. */
  lemma MissingFontFailsToCompare(a: CellFormat, d: Defaults)
    requires Resolved(a, d)
    ensures CellFormatsEqual(a, a.(font := None), d.(font := None)).Err?
  {
    var d2 := d.(font := None);
    var b := a.(font := None);
    B.BordersEqualIsEquivalence(GetBorders(a, d).value, GetBorders(a, d).value, GetBorders(a, d).value);
    Fi.FillsEqualIsEquivalence(GetFill(a, d).value, GetFill(a, d).value, GetFill(a, d).value);
    assert GetBorders(b, d2) == GetBorders(a, d2);
    if a.borders.None? {
      assert GetBorders(a, d2) == d.borders;
    }
    if a.fill.None? {
      assert GetFill(a, d2) == d.fill;
    }
    assert GetFont(b, d2).None?;
  }

  /** Resolved-format equality is an equivalence and ignores the format's own ids. */
  lemma CellFormatsEqualIsEquivalence(a: CellFormat, b: CellFormat, c: CellFormat, d: Defaults)
    requires Resolved(a, d) && Resolved(b, d) && Resolved(c, d)
    ensures CellFormatsEqual(a, a, d) == Ok(true)
    ensures CellFormatsEqual(a, b, d) == Ok(true) ==> CellFormatsEqual(b, a, d) == Ok(true)
    ensures CellFormatsEqual(a, b, d) == Ok(true) && CellFormatsEqual(b, c, d) == Ok(true) ==> CellFormatsEqual(a, c, d) == Ok(true)
  {
    CellFormatsEqualMeaning(a, a, d);
    CellFormatsEqualMeaning(a, b, d);
    CellFormatsEqualMeaning(b, a, d);
    CellFormatsEqualMeaning(b, c, d);
    CellFormatsEqualMeaning(a, c, d);
    var ba, bb, bc := GetBorders(a, d).value, GetBorders(b, d).value, GetBorders(c, d).value;
    B.BordersEqualIsEquivalence(ba, bb, bc);
    B.BordersEqualIsEquivalence(bb, ba, bc);
    B.BordersEqualIsEquivalence(bc, bb, ba);
    var fa, fb, fc := GetFill(a, d).value, GetFill(b, d).value, GetFill(c, d).value;
    Fi.FillsEqualIsEquivalence(fa, fb, fc);
    Fi.FillsEqualIsEquivalence(fb, fa, fc);
    Fi.FillsEqualIsEquivalence(fc, fb, fa);
    var oa, ob, oc := GetFont(a, d).value, GetFont(b, d).value, GetFont(c, d).value;
    Fo.FontsEqualIsEquivalence(oa, ob, oc);
    Fo.FontsEqualIsEquivalence(ob, oa, oc);
    Fo.FontsEqualIsEquivalence(oc, ob, oa);
  }

  /**
   * The copy Insert stores: the same base id, the new id, and every part as
   * its getter resolves it, so the stored copy has all parts set.
   */
  function WithId(cf: CellFormat, newId: int, d: Defaults): (r: CellFormat)
    ensures r.cellFormatId == newId && r.baseFormatId == cf.baseFormatId
    ensures r.alignment.Some? && r.alignment.value == GetAlignment(cf)
    ensures GetBorders(r, d) == GetBorders(cf, d) && GetFill(r, d) == GetFill(cf, d)
    ensures GetFont(r, d) == GetFont(cf, d) && GetNumberFormat(r, d) == GetNumberFormat(cf, d)
  {
    CellFormat(cf.baseFormatId, newId, Some(GetAlignment(cf)), GetBorders(cf, d), GetFill(cf, d),
               GetFont(cf, d), GetNumberFormat(cf, d))
  }

  /** The stored copy is resolved whenever the original is, and equal to it. */
  lemma WithIdIsEqual(cf: CellFormat, newId: int, d: Defaults)
    requires Resolved(cf, d)
    ensures Resolved(WithId(cf, newId, d), d)
    ensures CellFormatsEqual(WithId(cf, newId, d), cf, d) == Ok(true)
  {
    var r := WithId(cf, newId, d);
    CellFormatsEqualIsEquivalence(cf, cf, cf, d);
    CellFormatsEqualMeaning(r, cf, d);
    CellFormatsEqualMeaning(cf, cf, d);
  }

  /** The value of the first attribute with the given name. */
  function Attribute(attributes: seq<(string, string)>, name: string): (r: Option<string>)
    ensures r.Some? ==> exists i :: 0 <= i < |attributes| && attributes[i] == (name, r.value)
    ensures r.None? ==> forall i :: 0 <= i < |attributes| ==> attributes[i].0 != name
  {
    if attributes == [] then None
    else if attributes[0].0 == name then Some(attributes[0].1)
    else Attribute(attributes[1..], name)
  }

  lemma {:induction false} AttributeOfConcat(a: seq<(string, string)>, b: seq<(string, string)>, name: string)
    ensures Attribute(a + b, name) == if Attribute(a, name).Some? then Attribute(a, name) else Attribute(b, name)
  {
    if a == [] {
      assert a + b == b;
    } else {
      assert (a + b)[1..] == a[1..] + b;
      AttributeOfConcat(a[1..], b, name);
    }
  }

  /** A boolean attribute is set when present with the value "1". */
  predicate FlagSet(attributes: seq<(string, string)>, name: string) {
    Attribute(attributes, name) == Some("1")
  }

  /** An id attribute: missing is a null dereference, unparsable text a format error. */
  function IdAttribute(attributes: seq<(string, string)>, name: string): Result<int> {
    var text := Attribute(attributes, name);
    if text.None? then Err(NullReference) else ParseInt(text.value)
  }

  /** A table indexer: the entry under `id`, or null. */
  function Lookup<T>(table: map<int, T>, id: int): (r: Option<T>)
    ensures r.Some? <==> id in table
    ensures r.Some? ==> r.value == table[id]
  {
    if id in table then Some(table[id]) else None
  }

  /**
   * Reading one part: when the apply flag is set, the part is looked up by
   * id in its table (a missing id gives null, i.e. an unset part); otherwise
   * the part keeps its current value.
   */
  function ReadPart<T>(attributes: seq<(string, string)>, flag: string, idName: string, table: map<int, T>,
                       current: Option<T>): (r: Result<Option<T>>)
    ensures !FlagSet(attributes, flag) ==> r == Ok(current)
    ensures FlagSet(attributes, flag) && IdAttribute(attributes, idName).Ok? ==>
      r == Ok(Lookup(table, IdAttribute(attributes, idName).value))
    ensures FlagSet(attributes, flag) && IdAttribute(attributes, idName).Err? ==> r.Err?
  {
    if FlagSet(attributes, flag) then
      var id :- IdAttribute(attributes, idName);
      Ok(Lookup(table, id))
    else Ok(current)
  }

  /** The tables as seen by id (the number-format view is built-ins first, then custom formats). */
  datatype PartTables = PartTables(numberFormats: map<int, N.NumberFormat>, borders: map<int, B.Borders>,
                                   fills: map<int, Fi.Fill>, fonts: map<int, Fo.Font>)

  /** An xf element: its attributes and the attributes of its alignment child, if it has one. */
  datatype XfElement = XfElement(attributes: seq<(string, string)>, alignment: Option<seq<(string, string)>>)

  /** Reading an xf element: each part is assigned only when its apply flag is "1". */
  function ReadCellFormat(cellFormatId: int, e: XfElement, t: PartTables): (r: Result<CellFormat>)
    ensures r.Ok? ==> r.value.cellFormatId == cellFormatId && r.value.baseFormatId == DefaultBaseFormatId
    ensures r.Ok? && !FlagSet(e.attributes, "applyNumberFormat") ==> r.value.numberFormat == Some(N.DefaultNumberFormat)
    ensures r.Ok? && !FlagSet(e.attributes, "applyBorder") ==> r.value.borders.None?
    ensures r.Ok? && !FlagSet(e.attributes, "applyFill") ==> r.value.fill.None?
    ensures r.Ok? && !FlagSet(e.attributes, "applyFont") ==> r.value.font.None?
    ensures r.Ok? && !FlagSet(e.attributes, "applyAlignment") ==> r.value.alignment.None?
  {
    var cf := NewCellFormat().(cellFormatId := cellFormatId);
    var numberFormat :- ReadPart(e.attributes, "applyNumberFormat", "numFmtId", t.numberFormats, cf.numberFormat);
    var borders :- ReadPart(e.attributes, "applyBorder", "borderId", t.borders, cf.borders);
    var fill :- ReadPart(e.attributes, "applyFill", "fillId", t.fills, cf.fill);
    var font :- ReadPart(e.attributes, "applyFont", "fontId", t.fonts, cf.font);
    var alignment := if FlagSet(e.attributes, "applyAlignment") && e.alignment.Some?
                     then Some(Al.AlignmentFromAttributes(e.alignment.value)) else None;
    Ok(cf.(numberFormat := numberFormat, borders := borders, fill := fill, font := font, alignment := alignment))
  }

  function ApplyAttributes(flag: string, idName: string, id: int): seq<(string, string)> {
    [(flag, "1"), (idName, IntToString(id))]
  }

  /** The number format written: the resolved one, unless it is missing or the default (id -1). */
  function WrittenNumberFormat(cf: CellFormat, d: Defaults): Option<N.NumberFormat> {
    var nf := GetNumberFormat(cf, d);
    if nf.Some? && nf.value.numberFormatId != N.DefaultNumberFormatId then nf else None
  }

  function NumberFormatBlock(cf: CellFormat, d: Defaults): seq<(string, string)> {
    var nf := WrittenNumberFormat(cf, d);
    if nf.Some? then ApplyAttributes("applyNumberFormat", "numFmtId", nf.value.numberFormatId) else []
  }

  function BordersBlock(cf: CellFormat): seq<(string, string)> {
    if cf.borders.Some? then ApplyAttributes("applyBorder", "borderId", cf.borders.value.bordersId) else []
  }

  function FillBlock(cf: CellFormat): seq<(string, string)> {
    if cf.fill.Some? then ApplyAttributes("applyFill", "fillId", cf.fill.value.fillId) else []
  }

  function FontBlock(cf: CellFormat): seq<(string, string)> {
    if cf.font.Some? then ApplyAttributes("applyFont", "fontId", cf.font.value.fontId) else []
  }

  function AlignmentBlock(cf: CellFormat): seq<(string, string)> {
    if cf.alignment.Some? then [("applyAlignment", "1")] else []
  }

  /**
   * Writing an xf element: an apply flag and id for a non-default number
   * format and for each explicitly set borders, fill and font; an apply flag
   * and an alignment child for an explicitly set alignment.
   */
  function WriteCellFormat(cf: CellFormat, d: Defaults): XfElement
  {
    XfElement(NumberFormatBlock(cf, d) + BordersBlock(cf) + FillBlock(cf) + FontBlock(cf) + AlignmentBlock(cf),
              if cf.alignment.Some? then Some(Al.WrittenAttributes(cf.alignment.value)) else None)
  }

  /** A block that does not hold `name` is passed over by the lookup. */
  lemma SkipBlock(block: seq<(string, string)>, rest: seq<(string, string)>, name: string)
    requires forall i :: 0 <= i < |block| ==> block[i].0 != name
    ensures Attribute(block + rest, name) == Attribute(rest, name)
  {
    AttributeOfConcat(block, rest, name);
  }

  /** A block that holds `name` answers the lookup. */
  lemma FirstBlock(block: seq<(string, string)>, rest: seq<(string, string)>, name: string)
    requires Attribute(block, name).Some?
    ensures Attribute(block + rest, name) == Attribute(block, name)
  {
    AttributeOfConcat(block, rest, name);
  }

  /** The written attributes, grouped as the lookup lemmas take them apart. */
  lemma WrittenShape(cf: CellFormat, d: Defaults)
    ensures WriteCellFormat(cf, d).attributes ==
      NumberFormatBlock(cf, d) + (BordersBlock(cf) + (FillBlock(cf) + (FontBlock(cf) + AlignmentBlock(cf))))
  {
    var a0, a1, a2, a3, a4 := NumberFormatBlock(cf, d), BordersBlock(cf), FillBlock(cf), FontBlock(cf), AlignmentBlock(cf);
    assert WriteCellFormat(cf, d).attributes == a0 + a1 + a2 + a3 + a4;
    RegroupFive(a0, a1, a2, a3, a4);
  }

  lemma RegroupFive<T>(a0: seq<T>, a1: seq<T>, a2: seq<T>, a3: seq<T>, a4: seq<T>)
    ensures a0 + a1 + a2 + a3 + a4 == a0 + (a1 + (a2 + (a3 + a4)))
  {
    assert a0 + a1 + a2 + a3 == a0 + (a1 + (a2 + a3));
  }

  lemma NumberFormatLookups(cf: CellFormat, d: Defaults)
    ensures var w := WriteCellFormat(cf, d).attributes; var nf := WrittenNumberFormat(cf, d);
      Attribute(w, "applyNumberFormat") == (if nf.Some? then Some("1") else None) &&
      Attribute(w, "numFmtId") == (if nf.Some? then Some(IntToString(nf.value.numberFormatId)) else None)
  {
    WrittenShape(cf, d);
    BlockNames(cf, d);
    var a0, a1, a2, a3, a4 := NumberFormatBlock(cf, d), BordersBlock(cf), FillBlock(cf), FontBlock(cf), AlignmentBlock(cf);
    var rest := a1 + (a2 + (a3 + a4));
    if a0 != [] {
      FirstBlock(a0, rest, "applyNumberFormat");
      FirstBlock(a0, rest, "numFmtId");
    } else {
      NumberFormatNameAbsent(cf, "applyNumberFormat");
      NumberFormatNameAbsent(cf, "numFmtId");
      SkipBlock(a0, rest, "applyNumberFormat");
      SkipBlock(a0, rest, "numFmtId");
    }
  }

  /** A number-format attribute name occurs in none of the later blocks. */
  lemma NumberFormatNameAbsent(cf: CellFormat, name: string)
    requires name == "applyNumberFormat" || name == "numFmtId"
    ensures Attribute(BordersBlock(cf) + (FillBlock(cf) + (FontBlock(cf) + AlignmentBlock(cf))), name).None?
  {
    BlockNames(cf, Defaults(None, None, None, None));
    var a1, a2, a3, a4 := BordersBlock(cf), FillBlock(cf), FontBlock(cf), AlignmentBlock(cf);
    assert name != "applyBorder" && name != "borderId" && name != "applyFill" && name != "fillId";
    assert name != "applyFont" && name != "fontId" && name != "applyAlignment";
    SkipBlock(a1, a2 + (a3 + a4), name);
    SkipBlock(a2, a3 + a4, name);
    SkipBlock(a3, a4, name);
  }

  lemma BordersLookups(cf: CellFormat, d: Defaults)
    ensures var w := WriteCellFormat(cf, d).attributes;
      Attribute(w, "applyBorder") == (if cf.borders.Some? then Some("1") else None) &&
      Attribute(w, "borderId") == (if cf.borders.Some? then Some(IntToString(cf.borders.value.bordersId)) else None)
  {
    var a1, rest := BordersBlock(cf), FillBlock(cf) + (FontBlock(cf) + AlignmentBlock(cf));
    BordersNamesReachBordersBlock(cf, d, "applyBorder");
    BordersNamesReachBordersBlock(cf, d, "borderId");
    if a1 != [] {
      FirstBlock(a1, rest, "applyBorder");
      FirstBlock(a1, rest, "borderId");
    } else {
      BordersNamesAbsentAfter(cf, "applyBorder");
      BordersNamesAbsentAfter(cf, "borderId");
      SkipBlock(a1, rest, "applyBorder");
      SkipBlock(a1, rest, "borderId");
    }
  }

  /** A borders attribute name is passed over by the number-format block. */
  lemma BordersNamesReachBordersBlock(cf: CellFormat, d: Defaults, name: string)
    requires name == "applyBorder" || name == "borderId"
    ensures Attribute(WriteCellFormat(cf, d).attributes, name) ==
            Attribute(BordersBlock(cf) + (FillBlock(cf) + (FontBlock(cf) + AlignmentBlock(cf))), name)
  {
    WrittenShape(cf, d);
    BlockNames(cf, d);
    assert name != "applyNumberFormat" && name != "numFmtId";
    SkipBlock(NumberFormatBlock(cf, d), BordersBlock(cf) + (FillBlock(cf) + (FontBlock(cf) + AlignmentBlock(cf))), name);
  }

  /** A borders attribute name occurs in none of the blocks after the borders block. */
  lemma BordersNamesAbsentAfter(cf: CellFormat, name: string)
    requires name == "applyBorder" || name == "borderId"
    ensures Attribute(FillBlock(cf) + (FontBlock(cf) + AlignmentBlock(cf)), name).None?
  {
    BlockNames(cf, Defaults(None, None, None, None));
    var a2, a3, a4 := FillBlock(cf), FontBlock(cf), AlignmentBlock(cf);
    assert name != "applyFill" && name != "fillId" && name != "applyFont" && name != "fontId" && name != "applyAlignment";
    SkipBlock(a2, a3 + a4, name);
    SkipBlock(a3, a4, name);
  }

  lemma FillLookups(cf: CellFormat, d: Defaults)
    ensures var w := WriteCellFormat(cf, d).attributes;
      Attribute(w, "applyFill") == (if cf.fill.Some? then Some("1") else None) &&
      Attribute(w, "fillId") == (if cf.fill.Some? then Some(IntToString(cf.fill.value.fillId)) else None)
  {
    var a2, rest := FillBlock(cf), FontBlock(cf) + AlignmentBlock(cf);
    FillNamesReachFillBlock(cf, d, "applyFill");
    FillNamesReachFillBlock(cf, d, "fillId");
    if a2 != [] {
      FirstBlock(a2, rest, "applyFill");
      FirstBlock(a2, rest, "fillId");
    } else {
      FillNamesAbsentAfter(cf, "applyFill");
      FillNamesAbsentAfter(cf, "fillId");
      SkipBlock(a2, rest, "applyFill");
      SkipBlock(a2, rest, "fillId");
    }
  }

  /** A fill attribute name is passed over by the number-format and borders blocks. */
  lemma FillNamesReachFillBlock(cf: CellFormat, d: Defaults, name: string)
    requires name == "applyFill" || name == "fillId"
    ensures Attribute(WriteCellFormat(cf, d).attributes, name) ==
            Attribute(FillBlock(cf) + (FontBlock(cf) + AlignmentBlock(cf)), name)
  {
    WrittenShape(cf, d);
    BlockNames(cf, d);
    var a0, a1, a2, a3, a4 := NumberFormatBlock(cf, d), BordersBlock(cf), FillBlock(cf), FontBlock(cf), AlignmentBlock(cf);
    assert name != "applyNumberFormat" && name != "numFmtId" && name != "applyBorder" && name != "borderId";
    SkipBlock(a0, a1 + (a2 + (a3 + a4)), name);
    SkipBlock(a1, a2 + (a3 + a4), name);
  }

  /** A fill attribute name occurs in neither the font nor the alignment block. */
  lemma FillNamesAbsentAfter(cf: CellFormat, name: string)
    requires name == "applyFill" || name == "fillId"
    ensures Attribute(FontBlock(cf) + AlignmentBlock(cf), name).None?
  {
    BlockNames(cf, Defaults(None, None, None, None));
    assert name != "applyFont" && name != "fontId" && name != "applyAlignment";
    SkipBlock(FontBlock(cf), AlignmentBlock(cf), name);
  }

  lemma FontLookups(cf: CellFormat, d: Defaults)
    ensures var w := WriteCellFormat(cf, d).attributes;
      Attribute(w, "applyFont") == (if cf.font.Some? then Some("1") else None) &&
      Attribute(w, "fontId") == (if cf.font.Some? then Some(IntToString(cf.font.value.fontId)) else None)
  {
    WrittenShape(cf, d);
    var a0, a1, a2, a3, a4 := NumberFormatBlock(cf, d), BordersBlock(cf), FillBlock(cf), FontBlock(cf), AlignmentBlock(cf);
    FontNamesReachFontBlock(cf, d, "applyFont");
    FontNamesReachFontBlock(cf, d, "fontId");
    if a3 != [] {
      FirstBlock(a3, a4, "applyFont");
      FirstBlock(a3, a4, "fontId");
    } else {
      assert "applyFont" != "applyAlignment" && "fontId" != "applyAlignment";
      SkipBlock(a3, a4, "applyFont");
      SkipBlock(a3, a4, "fontId");
    }
  }

  /** A font attribute name is passed over by the three blocks before the font block. */
  lemma FontNamesReachFontBlock(cf: CellFormat, d: Defaults, name: string)
    requires name == "applyFont" || name == "fontId"
    ensures Attribute(WriteCellFormat(cf, d).attributes, name) == Attribute(FontBlock(cf) + AlignmentBlock(cf), name)
  {
    WrittenShape(cf, d);
    BlockNames(cf, d);
    var a0, a1, a2, a3, a4 := NumberFormatBlock(cf, d), BordersBlock(cf), FillBlock(cf), FontBlock(cf), AlignmentBlock(cf);
    assert name != "applyNumberFormat" && name != "numFmtId" && name != "applyBorder" && name != "borderId";
    assert name != "applyFill" && name != "fillId";
    SkipBlock(a0, a1 + (a2 + (a3 + a4)), name);
    SkipBlock(a1, a2 + (a3 + a4), name);
    SkipBlock(a2, a3 + a4, name);
  }

  /** Which names each block can hold. */
  lemma BlockNames(cf: CellFormat, d: Defaults)
    ensures forall i :: 0 <= i < |NumberFormatBlock(cf, d)| ==>
      NumberFormatBlock(cf, d)[i].0 == "applyNumberFormat" || NumberFormatBlock(cf, d)[i].0 == "numFmtId"
    ensures forall i :: 0 <= i < |BordersBlock(cf)| ==> BordersBlock(cf)[i].0 == "applyBorder" || BordersBlock(cf)[i].0 == "borderId"
    ensures forall i :: 0 <= i < |FillBlock(cf)| ==> FillBlock(cf)[i].0 == "applyFill" || FillBlock(cf)[i].0 == "fillId"
    ensures forall i :: 0 <= i < |FontBlock(cf)| ==> FontBlock(cf)[i].0 == "applyFont" || FontBlock(cf)[i].0 == "fontId"
    ensures forall i :: 0 <= i < |AlignmentBlock(cf)| ==> AlignmentBlock(cf)[i].0 == "applyAlignment"
  {
  }

  lemma AlignmentLookup(cf: CellFormat, d: Defaults)
    ensures Attribute(WriteCellFormat(cf, d).attributes, "applyAlignment") ==
      (if cf.alignment.Some? then Some("1") else None)
  {
    WrittenShape(cf, d);
    BlockNames(cf, d);
    var a0, a1, a2, a3, a4 := NumberFormatBlock(cf, d), BordersBlock(cf), FillBlock(cf), FontBlock(cf), AlignmentBlock(cf);
    var name := "applyAlignment";
    assert name != "applyNumberFormat" && name != "numFmtId" && name != "applyBorder" && name != "borderId";
    assert name != "applyFill" && name != "fillId" && name != "applyFont" && name != "fontId";
    SkipBlock(a0, a1 + (a2 + (a3 + a4)), name);
    SkipBlock(a1, a2 + (a3 + a4), name);
    SkipBlock(a2, a3 + a4, name);
    SkipBlock(a3, a4, name);
  }

  /**
   * On write, an apply flag appears exactly for a non-default number format
   * and for each explicitly set part.
   */
  lemma WrittenFlags(cf: CellFormat, d: Defaults)
    ensures var w := WriteCellFormat(cf, d);
      (FlagSet(w.attributes, "applyNumberFormat") <==> WrittenNumberFormat(cf, d).Some?) &&
      (FlagSet(w.attributes, "applyBorder") <==> cf.borders.Some?) &&
      (FlagSet(w.attributes, "applyFill") <==> cf.fill.Some?) &&
      (FlagSet(w.attributes, "applyFont") <==> cf.font.Some?) &&
      (FlagSet(w.attributes, "applyAlignment") <==> cf.alignment.Some?)
  {
    NumberFormatLookups(cf, d);
    BordersLookups(cf, d);
    FillLookups(cf, d);
    FontLookups(cf, d);
    AlignmentLookup(cf, d);
  }

  lemma ReadNumberFormatBack(cf: CellFormat, d: Defaults, t: PartTables)
    requires WrittenNumberFormat(cf, d).Some? ==>
      Lookup(t.numberFormats, WrittenNumberFormat(cf, d).value.numberFormatId) == WrittenNumberFormat(cf, d)
    ensures ReadPart(WriteCellFormat(cf, d).attributes, "applyNumberFormat", "numFmtId", t.numberFormats, Some(N.DefaultNumberFormat)) ==
      Ok(if WrittenNumberFormat(cf, d).Some? then WrittenNumberFormat(cf, d) else Some(N.DefaultNumberFormat))
  {
    NumberFormatLookups(cf, d);
    var nf := WrittenNumberFormat(cf, d);
    if nf.Some? {
      ParseIntToString(nf.value.numberFormatId);
    }
  }

  lemma ReadBordersBack(cf: CellFormat, d: Defaults, t: PartTables)
    requires cf.borders.Some? ==> Lookup(t.borders, cf.borders.value.bordersId) == cf.borders
    ensures ReadPart(WriteCellFormat(cf, d).attributes, "applyBorder", "borderId", t.borders, None) == Ok(cf.borders)
  {
    BordersLookups(cf, d);
    if cf.borders.Some? {
      ParseIntToString(cf.borders.value.bordersId);
    }
  }

  lemma ReadFillBack(cf: CellFormat, d: Defaults, t: PartTables)
    requires cf.fill.Some? ==> Lookup(t.fills, cf.fill.value.fillId) == cf.fill
    ensures ReadPart(WriteCellFormat(cf, d).attributes, "applyFill", "fillId", t.fills, None) == Ok(cf.fill)
  {
    FillLookups(cf, d);
    if cf.fill.Some? {
      ParseIntToString(cf.fill.value.fillId);
    }
  }

  lemma ReadFontBack(cf: CellFormat, d: Defaults, t: PartTables)
    requires cf.font.Some? ==> Lookup(t.fonts, cf.font.value.fontId) == cf.font
    ensures ReadPart(WriteCellFormat(cf, d).attributes, "applyFont", "fontId", t.fonts, None) == Ok(cf.font)
  {
    FontLookups(cf, d);
    if cf.font.Some? {
      ParseIntToString(cf.font.value.fontId);
    }
  }

  /** As the reader is written, an alignment comes back with its wrap-text flag only. */
  lemma ReadAlignmentBack(cf: CellFormat, d: Defaults)
    ensures var w := WriteCellFormat(cf, d);
      (if FlagSet(w.attributes, "applyAlignment") && w.alignment.Some?
       then Some(Al.AlignmentFromAttributes(w.alignment.value)) else None) ==
      (if cf.alignment.Some? then Some(Al.Alignment(cf.alignment.value.wrapText, 0, 0)) else None)
  {
    AlignmentLookup(cf, d);
    if cf.alignment.Some? {
      Al.ReadAfterWriteKeepsOnlyWrapText(cf.alignment.value);
    }
  }

  /** With the reader matching the camel-cased names it writes, the whole alignment would come back. */
  lemma ReadAlignmentBackCorrected(cf: CellFormat, d: Defaults)
    requires cf.alignment.Some? ==>
      0 <= cf.alignment.value.horizontal < |Al.HorizontalNames| && 0 <= cf.alignment.value.vertical < |Al.VerticalNames|
    ensures var w := WriteCellFormat(cf, d);
      (if FlagSet(w.attributes, "applyAlignment") && w.alignment.Some?
       then Some(Al.AlignmentFromAttributesCorrected(w.alignment.value)) else None) == cf.alignment
  {
    AlignmentLookup(cf, d);
    if cf.alignment.Some? {
      Al.ReadAfterWriteCorrected(cf.alignment.value);
    }
  }

  /**
   * Reading back a written format restores its explicit parts, given tables
   * that hold each written part under its own id; a number format that was
   * not written comes back as the default format, and an alignment keeps
   * only its wrap-text flag.
   */
  lemma ReadAfterWrite(cf: CellFormat, d: Defaults, t: PartTables, id: int)
    requires cf.borders.Some? ==> Lookup(t.borders, cf.borders.value.bordersId) == cf.borders
    requires cf.fill.Some? ==> Lookup(t.fills, cf.fill.value.fillId) == cf.fill
    requires cf.font.Some? ==> Lookup(t.fonts, cf.font.value.fontId) == cf.font
    requires WrittenNumberFormat(cf, d).Some? ==>
      Lookup(t.numberFormats, WrittenNumberFormat(cf, d).value.numberFormatId) == WrittenNumberFormat(cf, d)
    ensures ReadCellFormat(id, WriteCellFormat(cf, d), t) ==
      Ok(CellFormat(DefaultBaseFormatId, id,
                    if cf.alignment.Some? then Some(Al.Alignment(cf.alignment.value.wrapText, 0, 0)) else None,
                    cf.borders, cf.fill, cf.font,
                    if WrittenNumberFormat(cf, d).Some? then WrittenNumberFormat(cf, d) else Some(N.DefaultNumberFormat)))
  {
    ReadNumberFormatBack(cf, d, t);
    ReadBordersBack(cf, d, t);
    ReadFillBack(cf, d, t);
    ReadFontBack(cf, d, t);
    ReadAlignmentBack(cf, d);
  }
}
