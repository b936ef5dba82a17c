/**
 * A range of the worksheet as its styling sees it: a style index naming a
 * workbook cell format. Setting an alignment, font, fill or border property
 * on a range takes the part the stored format resolves to, changes it,
 * interns it in its own table, interns the composite with only that part
 * replaced, and makes the composite's id the range's new style index. The
 * range's addresses are plain text built from its ends.
 */
module Ranges {
  import opened Wrappers
  import opened Helpers
  import Co = Colors
  import Al = Alignments
  import B = Borders
  import Fi = Fills
  import Fo = Fonts
  import N = NumberFormats
  import CF = CellFormats
  import ST = StyleTables
  import NT = NumberFormatTables
  import CN = ColumnNames

  // ---------------------------------------------------------------------
  // Addresses
  // ---------------------------------------------------------------------

  /** The "$" that marks a fixed reference, or nothing. */
  function FixedPrefix(fixedReference: bool): string {
    if fixedReference then "$" else ""
  }

  /** GetLocalAddress: both ends, each behind the fixed-reference marker, joined by ':'. */
  function LocalAddress(address1: string, address2: string, fixedReference: bool): string {
    FixedPrefix(fixedReference) + address1 + ":" + FixedPrefix(fixedReference) + address2
  }

  predicate IsColon(c: char) {
    c == ':'
  }

  /** The two ends of an address: the text around its first ':'; none without a ':'. */
  function Ends(address: string): (r: Option<(string, string)>)
    ensures r.None? <==> ':' !in address
    ensures r.Some? ==> address == r.value.0 + ":" + r.value.1 && ':' !in r.value.0
  {
    var i := FirstIndex(address, IsColon);
    if i < 0 then
      assert forall j :: 0 <= j < |address| ==> !IsColon(address[j]);
      None
    else
      assert address == address[..i] + [address[i]] + address[i + 1..];
      assert forall j :: 0 <= j < |address[..i]| ==> address[..i][j] == address[j];
      Some((address[..i], address[i + 1..]))
  }

  /** An end without its fixed-reference marker. */
  function Unfixed(end: string): (r: string)
    ensures |end| > 0 && end[0] == '$' ==> end == "$" + r
    ensures !(|end| > 0 && end[0] == '$') ==> r == end
  {
    if |end| > 0 && end[0] == '$' then end[1..] else end
  }

  /** Splitting a local address at its ':' gives back both ends, each behind the marker. */
  lemma LocalAddressEnds(address1: string, address2: string, fixedReference: bool)
    requires ':' !in address1
    ensures Ends(LocalAddress(address1, address2, fixedReference)) ==
            Some((FixedPrefix(fixedReference) + address1, FixedPrefix(fixedReference) + address2))
  {
    var p := FixedPrefix(fixedReference);
    var s := LocalAddress(address1, address2, fixedReference);
    var first := p + address1;
    assert s == first + ":" + (p + address2);
    assert forall j :: 0 <= j < |first| ==> s[j] == first[j] && !IsColon(s[j]);
    FirstIndexIsUnique(s, IsColon, |first|);
    assert s[..|first|] == first && s[|first| + 1..] == p + address2;
  }

  /** Without the marker, the ends of a local address are the ends it was built from, when neither starts with '$'. */
  lemma UnfixedEnds(address1: string, address2: string, fixedReference: bool)
    requires ':' !in address1
    requires (address1 == [] || address1[0] != '$') && (address2 == [] || address2[0] != '$')
    ensures Ends(LocalAddress(address1, address2, fixedReference)).Some?
    ensures Unfixed(Ends(LocalAddress(address1, address2, fixedReference)).value.0) == address1
    ensures Unfixed(Ends(LocalAddress(address1, address2, fixedReference)).value.1) == address2
  {
    LocalAddressEnds(address1, address2, fixedReference);
    var p := FixedPrefix(fixedReference);
    assert Unfixed(p + address1) == address1 by { if fixedReference { assert (p + address1)[1..] == address1; } }
    assert Unfixed(p + address2) == address2 by { if fixedReference { assert (p + address2)[1..] == address2; } }
  }

  /** The text of an integer holds no ':' and does not start with '$'. */
  lemma IntToStringIsPlain(i: int)
    ensures ':' !in IntToString(i) && IntToString(i)[0] != '$'
  {
    var s := IntToString(i);
    if i < 0 {
      assert s == "-" + NatToString(-i);
      assert forall k :: 1 <= k < |s| ==> s[k] == NatToString(-i)[k - 1];
    }
  }

  /** GetLocalAddress on two row numbers. */
  function RowsAddress(row1: int, row2: int, fixedReference: bool): string {
    LocalAddress(IntToString(row1), IntToString(row2), fixedReference)
  }

  /** The row numbers are read back from the ends of a rows address. */
  lemma RowsAddressRoundTrip(row1: int, row2: int, fixedReference: bool)
    ensures Ends(RowsAddress(row1, row2, fixedReference)).Some?
    ensures ParseInt(Unfixed(Ends(RowsAddress(row1, row2, fixedReference)).value.0)) == Ok(row1)
    ensures ParseInt(Unfixed(Ends(RowsAddress(row1, row2, fixedReference)).value.1)) == Ok(row2)
  {
    IntToStringIsPlain(row1);
    IntToStringIsPlain(row2);
    UnfixedEnds(IntToString(row1), IntToString(row2), fixedReference);
    ParseIntToString(row1);
    ParseIntToString(row2);
  }

  /** GetLocalAddress on two columns, by their names. */
  function ColumnsAddress(column1: int, column2: int, fixedReference: bool): string {
    LocalAddress(CN.ColumnName(column1), CN.ColumnName(column2), fixedReference)
  }

  /** The column numbers are read back from the ends of a columns address. */
  lemma ColumnsAddressRoundTrip(column1: nat, column2: nat, fixedReference: bool)
    ensures Ends(ColumnsAddress(column1, column2, fixedReference)).Some?
    ensures CN.ColumnIndex(Unfixed(Ends(ColumnsAddress(column1, column2, fixedReference)).value.0)) == column1
    ensures CN.ColumnIndex(Unfixed(Ends(ColumnsAddress(column1, column2, fixedReference)).value.1)) == column2
  {
    var a1, a2 := CN.ColumnName(column1), CN.ColumnName(column2);
    assert ':' !in a1 && (a1 == [] || a1[0] != '$') && (a2 == [] || a2[0] != '$') by {
      if column1 > 0 { assert CN.IsColumnName(a1); }
      if column2 > 0 { assert CN.IsColumnName(a2); }
    }
    UnfixedEnds(a1, a2, fixedReference);
    CN.ColumnIndexOfName(column1);
    CN.ColumnIndexOfName(column2);
  }

  /** GetRangeAddress: the escaped sheet name, '!', then the local address. */
  function RangeAddress(escapedName: string, localAddress: string): (r: string)
    ensures |r| == |escapedName| + 1 + |localAddress|
    ensures r[..|escapedName|] == escapedName && r[|escapedName|] == '!' && r[|escapedName| + 1..] == localAddress
  {
    escapedName + "!" + localAddress
  }

  // ---------------------------------------------------------------------
  // The parts of a cell format
  // ---------------------------------------------------------------------

  /** The style index a new range carries. */
  const DefaultStyleIndex: int := CF.DefaultStyleIndex

  datatype PartKind = AlignmentKind | BordersKind | FillKind | FontKind | NumberFormatKind

  /** One part of a cell format, by kind. */
  datatype Part = AlignmentPart(alignment: Al.Alignment) | BordersPart(borders: B.Borders) | FillPart(fill: Fi.Fill)
                | FontPart(font: Fo.Font) | NumberFormatPart(numberFormat: N.NumberFormat)

  function KindOf(part: Part): PartKind {
    match part
    case AlignmentPart(_) => AlignmentKind
    case BordersPart(_) => BordersKind
    case FillPart(_) => FillKind
    case FontPart(_) => FontKind
    case NumberFormatPart(_) => NumberFormatKind
  }

  /** The part of kind `k` a cell format resolves to through its getters; none when the table lacks a default for it. */
  function PartOf(cf: CF.CellFormat, d: CF.Defaults, k: PartKind): (r: Option<Part>)
    ensures r.Some? ==> KindOf(r.value) == k
    ensures CF.Resolved(cf, d) ==> r.Some?
  {
    match k
    case AlignmentKind => Some(AlignmentPart(CF.GetAlignment(cf)))
    case BordersKind => if CF.GetBorders(cf, d).Some? then Some(BordersPart(CF.GetBorders(cf, d).value)) else None
    case FillKind => if CF.GetFill(cf, d).Some? then Some(FillPart(CF.GetFill(cf, d).value)) else None
    case FontKind => if CF.GetFont(cf, d).Some? then Some(FontPart(CF.GetFont(cf, d).value)) else None
    case NumberFormatKind =>
      if CF.GetNumberFormat(cf, d).Some? then Some(NumberFormatPart(CF.GetNumberFormat(cf, d).value)) else None
  }

  /** Two parts of one kind compared by that kind's Equals, `b` as the receiver. */
  predicate PartsEqual(a: Part, b: Part) {
    match (a, b)
    case (AlignmentPart(x), AlignmentPart(y)) => Al.AlignmentsEqual(y, x)
    case (BordersPart(x), BordersPart(y)) => B.BordersEqual(y, x) == Ok(true)
    case (FillPart(x), FillPart(y)) => Fi.FillsEqual(y, x)
    case (FontPart(x), FontPart(y)) => Fo.FontsEqual(y, x)
    case (NumberFormatPart(x), NumberFormatPart(y)) => N.NumberFormatsEqual(y, x)
    case _ => false
  }

  /** A part its table can hold and compare: complete borders with defined styles, a fill with a defined pattern. */
  predicate Storable(part: Part) {
    match part
    case BordersPart(b) => CF.StorableBorders(b)
    case FillPart(f) => CF.StorableFill(f)
    case _ => true
  }

  /** Equality of parts is an equivalence on storable parts. */
  lemma PartsEqualIsEquivalence(a: Part, b: Part, c: Part)
    requires Storable(a) && Storable(b) && Storable(c)
    ensures PartsEqual(a, a)
    ensures PartsEqual(a, b) ==> PartsEqual(b, a)
    ensures PartsEqual(a, b) && PartsEqual(b, c) ==> PartsEqual(a, c)
  {
    match a
    case BordersPart(x) =>
      var y := if b.BordersPart? then b.borders else x;
      var z := if c.BordersPart? then c.borders else x;
      B.BordersEqualIsEquivalence(x, y, z);
      B.BordersEqualIsEquivalence(y, x, z);
      B.BordersEqualIsEquivalence(z, y, x);
    case FillPart(x) =>
      var y := if b.FillPart? then b.fill else x;
      var z := if c.FillPart? then c.fill else x;
      Fi.FillsEqualIsEquivalence(x, y, z);
      Fi.FillsEqualIsEquivalence(y, x, z);
      Fi.FillsEqualIsEquivalence(z, y, x);
    case FontPart(x) =>
      var y := if b.FontPart? then b.font else x;
      var z := if c.FontPart? then c.font else x;
      Fo.FontsEqualIsEquivalence(x, y, z);
      Fo.FontsEqualIsEquivalence(y, x, z);
      Fo.FontsEqualIsEquivalence(z, y, x);
    case _ =>
  }

  /**
   * The composite a part update inserts, built by the six-argument
   * constructor over the stored format's getters: ids 0, the new part, and
   * every other part as the stored format resolves it.
   */
  function Recomposed(cf: CF.CellFormat, d: CF.Defaults, part: Part): (r: CF.CellFormat)
    ensures r.baseFormatId == CF.DefaultBaseFormatId && r.cellFormatId == CF.DefaultStyleIndex
    ensures PartOf(r, d, KindOf(part)) == Some(part)
    ensures forall k :: k != KindOf(part) ==> PartOf(r, d, k) == PartOf(cf, d, k)
    ensures CF.Resolved(cf, d) && Storable(part) ==> CF.Resolved(r, d)
  {
    CF.CellFormat(CF.DefaultBaseFormatId, CF.DefaultStyleIndex,
                  Some(if part.AlignmentPart? then part.alignment else CF.GetAlignment(cf)),
                  if part.BordersPart? then Some(part.borders) else CF.GetBorders(cf, d),
                  if part.FillPart? then Some(part.fill) else CF.GetFill(cf, d),
                  if part.FontPart? then Some(part.font) else CF.GetFont(cf, d),
                  if part.NumberFormatPart? then Some(part.numberFormat) else CF.GetNumberFormat(cf, d))
  }

  /** On resolved formats, cell-format equality is equality of the five parts. */
  lemma CellFormatsEqualByParts(a: CF.CellFormat, b: CF.CellFormat, d: CF.Defaults)
    requires CF.Resolved(a, d) && CF.Resolved(b, d)
    ensures CF.CellFormatsEqual(a, b, d) == Ok(true) <==>
            forall k :: PartsEqual(PartOf(a, d, k).value, PartOf(b, d, k).value)
  {
    CF.CellFormatsEqualMeaning(a, b, d);
    if CF.CellFormatsEqual(a, b, d) == Ok(true) {
      forall k ensures PartsEqual(PartOf(a, d, k).value, PartOf(b, d, k).value) {
        match k
        case AlignmentKind =>
        case BordersKind =>
        case FillKind =>
        case FontKind =>
        case NumberFormatKind =>
      }
    } else {
      assert !(PartsEqual(PartOf(a, d, AlignmentKind).value, PartOf(b, d, AlignmentKind).value) &&
               PartsEqual(PartOf(a, d, BordersKind).value, PartOf(b, d, BordersKind).value) &&
               PartsEqual(PartOf(a, d, FillKind).value, PartOf(b, d, FillKind).value) &&
               PartsEqual(PartOf(a, d, FontKind).value, PartOf(b, d, FontKind).value) &&
               PartsEqual(PartOf(a, d, NumberFormatKind).value, PartOf(b, d, NumberFormatKind).value));
    }
  }

  /**
   * After a part update, the stored format `updated` is equal to the
   * recomposed one: it holds a part equal to `part` and parts equal to the
   * old format's everywhere else.
   */
  ghost predicate Restyled(previous: CF.CellFormat, updated: CF.CellFormat, d: CF.Defaults, part: Part) {
    CF.CellFormatsEqual(updated, Recomposed(previous, d, part), d) == Ok(true)
  }

  /** What Restyled says part by part. */
  lemma RestyledMeaning(previous: CF.CellFormat, updated: CF.CellFormat, d: CF.Defaults, part: Part)
    requires CF.Resolved(previous, d) && CF.Resolved(updated, d) && Storable(part)
    ensures Restyled(previous, updated, d, part) <==>
            PartsEqual(PartOf(updated, d, KindOf(part)).value, part) &&
            forall k :: k != KindOf(part) ==> PartsEqual(PartOf(updated, d, k).value, PartOf(previous, d, k).value)
  {
    var r := Recomposed(previous, d, part);
    CellFormatsEqualByParts(updated, r, d);
    if PartsEqual(PartOf(updated, d, KindOf(part)).value, part) &&
       forall k :: k != KindOf(part) ==> PartsEqual(PartOf(updated, d, k).value, PartOf(previous, d, k).value) {
      forall k ensures PartsEqual(PartOf(updated, d, k).value, PartOf(r, d, k).value) {
        if k == KindOf(part) {
          assert PartOf(r, d, k).value == part;
        }
      }
    }
  }

  /** A stored format restyled with some part is restyled with every part equal to it. */
  lemma RestyledWithEqualPart(previous: CF.CellFormat, updated: CF.CellFormat, d: CF.Defaults, stored: Part, part: Part)
    requires CF.Resolved(previous, d) && CF.Resolved(updated, d) && Storable(stored) && Storable(part)
    requires KindOf(stored) == KindOf(part) && PartsEqual(part, stored)
    requires Restyled(previous, updated, d, stored)
    ensures Restyled(previous, updated, d, part)
  {
    RestyledMeaning(previous, updated, d, stored);
    RestyledMeaning(previous, updated, d, part);
    var u := PartOf(updated, d, KindOf(part)).value;
    PartsEqualIsEquivalence(part, stored, u);
    PartsEqualIsEquivalence(u, stored, part);
  }

  /**
   * Setting a part to one equal to what the format already resolves to
   * recomposes a format equal to the stored one, so interning finds the
   * stored format again.
   */
  lemma RecomposedWithEqualPart(cf: CF.CellFormat, d: CF.Defaults, part: Part)
    requires CF.Resolved(cf, d) && Storable(part)
    requires PartsEqual(PartOf(cf, d, KindOf(part)).value, part)
    ensures CF.CellFormatsEqual(cf, Recomposed(cf, d, part), d) == Ok(true)
  {
    var r := Recomposed(cf, d, part);
    CellFormatsEqualByParts(cf, r, d);
    forall k ensures PartsEqual(PartOf(cf, d, k).value, PartOf(r, d, k).value) {
      PartsEqualIsEquivalence(PartOf(cf, d, k).value, PartOf(cf, d, k).value, PartOf(cf, d, k).value);
    }
  }

  // ---------------------------------------------------------------------
  // EqualsStyle
  // ---------------------------------------------------------------------

  /**
   * EqualsStyle over the formats two ranges' style indexes name: vertical
   * alignment, wrapping, borders, fill and font, in that order, stopping at
   * the first difference; a comparison that fails propagates.
   */
  function StylesEqual(mine: CF.CellFormat, other: CF.CellFormat, d: CF.Defaults): Result<bool> {
    var a, b := CF.GetAlignment(mine), CF.GetAlignment(other);
    if b.vertical != a.vertical || b.wrapText != a.wrapText then Ok(false)
    else
      var bordersEqual :- CF.CompareBorders(CF.GetBorders(other, d), CF.GetBorders(mine, d));
      if !bordersEqual then Ok(false)
      else
        var fillsEqual :- CF.ComparePart(CF.GetFill(other, d), CF.GetFill(mine, d), Fi.FillsEqual);
        if !fillsEqual then Ok(false)
        else CF.ComparePart(CF.GetFont(other, d), CF.GetFont(mine, d), Fo.FontsEqual)
  }

  /** On resolved formats EqualsStyle never fails, and holds exactly when the five compared properties agree. */
  lemma StylesEqualMeaning(mine: CF.CellFormat, other: CF.CellFormat, d: CF.Defaults)
    requires CF.Resolved(mine, d) && CF.Resolved(other, d)
    ensures StylesEqual(mine, other, d) == Ok(
      CF.GetAlignment(other).vertical == CF.GetAlignment(mine).vertical &&
      CF.GetAlignment(other).wrapText == CF.GetAlignment(mine).wrapText &&
      PartsEqual(PartOf(mine, d, BordersKind).value, PartOf(other, d, BordersKind).value) &&
      PartsEqual(PartOf(mine, d, FillKind).value, PartOf(other, d, FillKind).value) &&
      PartsEqual(PartOf(mine, d, FontKind).value, PartOf(other, d, FontKind).value))
  {
    B.BordersEqualMeaning(CF.GetBorders(other, d).value, CF.GetBorders(mine, d).value);
  }

  /** Formats equal as cell formats are equal in style. */
  lemma CellFormatsEqualHaveEqualStyles(mine: CF.CellFormat, other: CF.CellFormat, d: CF.Defaults)
    requires CF.Resolved(mine, d) && CF.Resolved(other, d)
    requires CF.CellFormatsEqual(mine, other, d) == Ok(true)
    ensures StylesEqual(mine, other, d) == Ok(true)
  {
    CellFormatsEqualByParts(mine, other, d);
    StylesEqualMeaning(mine, other, d);
    assert PartsEqual(PartOf(mine, d, AlignmentKind).value, PartOf(other, d, AlignmentKind).value);
    assert PartsEqual(PartOf(mine, d, BordersKind).value, PartOf(other, d, BordersKind).value);
    assert PartsEqual(PartOf(mine, d, FillKind).value, PartOf(other, d, FillKind).value);
    assert PartsEqual(PartOf(mine, d, FontKind).value, PartOf(other, d, FontKind).value);
  }

  /** EqualsStyle does not look at the horizontal alignment or the number format. */
  lemma StylesEqualIgnoresHorizontalAndNumberFormat(mine: CF.CellFormat, other: CF.CellFormat, d: CF.Defaults,
                                                    horizontal: int, numberFormat: Option<N.NumberFormat>)
    ensures StylesEqual(mine, other.(alignment := Some(Al.SetHorizontal(CF.GetAlignment(other), horizontal)),
                                     numberFormat := numberFormat), d)
            == StylesEqual(mine, other, d)
  {
    var other' := other.(alignment := Some(Al.SetHorizontal(CF.GetAlignment(other), horizontal)), numberFormat := numberFormat);
    assert CF.GetAlignment(other').vertical == CF.GetAlignment(other).vertical;
    assert CF.GetAlignment(other').wrapText == CF.GetAlignment(other).wrapText;
    assert CF.GetBorders(other', d) == CF.GetBorders(other, d) && CF.GetFill(other', d) == CF.GetFill(other, d);
    assert CF.GetFont(other', d) == CF.GetFont(other, d);
  }

  // ---------------------------------------------------------------------
  // The part a range setter builds
  // ---------------------------------------------------------------------

  /** A range's alignment setters: the horizontal or vertical code, or the wrap flag. */
  datatype AlignmentChange = HorizontalChange(horizontal: int) | VerticalChange(vertical: int) | WrapTextChange(wrapText: bool)

  /** The range alignment after one setter: the stored alignment with that one property replaced. */
  function ChangedAlignment(a: Al.Alignment, c: AlignmentChange): (r: Al.Alignment)
    ensures r.horizontal == (if c.HorizontalChange? then c.horizontal else a.horizontal)
    ensures r.vertical == (if c.VerticalChange? then c.vertical else a.vertical)
    ensures r.wrapText == (if c.WrapTextChange? then c.wrapText else a.wrapText)
  {
    match c
    case HorizontalChange(h) => Al.SetHorizontal(a, h)
    case VerticalChange(v) => Al.SetVertical(a, v)
    case WrapTextChange(w) => Al.SetWrapText(a, w)
  }

  /** A range's fill setters: the pattern code, or the foreground or background colour (null allowed). */
  datatype FillChange = PatternChange(pattern: Option<int>) | ForegroundChange(foreground: Option<Co.Color>)
                      | BackgroundChange(background: Option<Co.Color>)

  /**
   * UpdateFillProperty on the range fill: the property is set as
   * SetFillProperty does, and setting the foreground over a None pattern
   * switches the pattern to Solid.
   */
  function ChangedFill(f: Fi.Fill, c: FillChange): (r: Fi.Fill)
    ensures r.fillId == f.fillId
    ensures CF.StorableFill(f) ==> CF.StorableFill(r)
    ensures c.PatternChange? ==> r.foreground == f.foreground && r.background == f.background
    ensures c.PatternChange? && c.pattern.Some? && Fi.IsPatternType(c.pattern.value) ==> r.patternType == c.pattern.value
    ensures c.PatternChange? && (c.pattern.None? || !Fi.IsPatternType(c.pattern.value)) ==> r == f
    ensures c.ForegroundChange? ==> r.background == f.background &&
                                    r.foreground == (if c.foreground.Some? then c.foreground else f.foreground) &&
                                    r.patternType == (if f.patternType == Fi.PatternNone then Fi.PatternSolid else f.patternType)
    ensures c.BackgroundChange? ==> r == (if c.background.Some? then f.(background := c.background) else f)
  {
    match c
    case PatternChange(p) => Fi.SetPatternType(f, p)
    case ForegroundChange(fg) => Fi.UpdateForeground(f, fg)
    case BackgroundChange(bg) => Fi.SetBackground(f, bg)
  }

  /**
   * Setting the style of one edge of a range's borders: the edge the
   * getter clones from the stored borders gets the style (an undefined code
   * is ignored) and goes back into its slot; the other slots keep the stored
   * edges.
   */
  function ChangedEdgeStyle(b: B.Borders, t: B.BorderType, style: int): (r: B.Borders)
    requires CF.StorableBorders(b)
    ensures CF.StorableBorders(r) && r.bordersId == b.bordersId
    ensures B.Slot(r, t).value.style == (if B.IsBorderStyle(style) then style else B.Slot(b, t).value.style)
    ensures B.Slot(r, t).value.color == Some(B.EdgeColor(B.Slot(b, t).value))
    ensures forall u :: u != t ==> B.Slot(r, u) == B.Slot(b, u)
  {
    B.CloneBorderPreserves(B.Slot(b, t).value);
    B.SetBorder(b, Some(B.SetBorderStyle(B.CloneBorder(B.Slot(b, t).value), Some(style))))
  }

  /** UpdateOuterBorderStyle: left, right, top and bottom take the style in turn; the diagonal is kept. */
  function OuterStyled(b: B.Borders, style: int): (r: B.Borders)
    requires CF.StorableBorders(b)
    ensures CF.StorableBorders(r)
  {
    ChangedEdgeStyle(ChangedEdgeStyle(ChangedEdgeStyle(ChangedEdgeStyle(b, B.Left, style), B.Right, style), B.Top, style),
                     B.Bottom, style)
  }

  /** With a defined style, the four outer edges carry it and the diagonal edge is the stored one. */
  lemma OuterStyledEdges(b: B.Borders, style: int)
    requires CF.StorableBorders(b) && B.IsBorderStyle(style)
    ensures forall t :: t != B.Diagonal ==> B.Slot(OuterStyled(b, style), t).value.style == style
    ensures B.Slot(OuterStyled(b, style), B.Diagonal) == B.Slot(b, B.Diagonal)
  {
    var b1 := ChangedEdgeStyle(b, B.Left, style);
    var b2 := ChangedEdgeStyle(b1, B.Right, style);
    var b3 := ChangedEdgeStyle(b2, B.Top, style);
    var b4 := ChangedEdgeStyle(b3, B.Bottom, style);
    assert B.Slot(b4, B.Left) == B.Slot(b3, B.Left) == B.Slot(b2, B.Left) == B.Slot(b1, B.Left);
    assert B.Slot(b4, B.Right) == B.Slot(b3, B.Right) == B.Slot(b2, B.Right);
    assert B.Slot(b4, B.Top) == B.Slot(b3, B.Top);
  }

  /** Setting an edge style respects borders equality: equal borders give equal results. */
  lemma ChangedEdgeStyleRespectsEquality(a: B.Borders, b: B.Borders, t: B.BorderType, style: int)
    requires CF.StorableBorders(a) && CF.StorableBorders(b) && B.BordersEqual(a, b) == Ok(true)
    ensures B.BordersEqual(ChangedEdgeStyle(a, t, style), ChangedEdgeStyle(b, t, style)) == Ok(true)
  {
    var a', b' := ChangedEdgeStyle(a, t, style), ChangedEdgeStyle(b, t, style);
    B.BordersEqualMeaning(a, b);
    B.BordersEqualMeaning(a', b');
    forall u ensures B.BorderEqual(B.Slot(a', u).value, B.Slot(b', u).value) {
      if u == t {
        var ea, eb := B.Slot(a, t).value, B.Slot(b, t).value;
        assert B.BorderEqual(ea, eb);
        assert B.EdgeColor(B.Slot(a', u).value) == B.EdgeColor(ea);
        assert B.EdgeColor(B.Slot(b', u).value) == B.EdgeColor(eb);
      }
    }
  }

  /**
   * Two edge updates in a row: a format restyled with borders `b1`, then
   * with an edge of its stored borders restyled, is restyled from the
   * start with that edge of `b1` restyled.
   */
  lemma RestyledEdgeAgain(c0: CF.CellFormat, c1: CF.CellFormat, c2: CF.CellFormat, d: CF.Defaults, b1: B.Borders,
                          t: B.BorderType, style: int)
    requires CF.Resolved(c0, d) && CF.Resolved(c1, d) && CF.Resolved(c2, d) && CF.StorableBorders(b1)
    requires Restyled(c0, c1, d, BordersPart(b1))
    requires Restyled(c1, c2, d, BordersPart(ChangedEdgeStyle(CF.GetBorders(c1, d).value, t, style)))
    ensures Restyled(c0, c2, d, BordersPart(ChangedEdgeStyle(b1, t, style)))
  {
    var e1 := ChangedEdgeStyle(CF.GetBorders(c1, d).value, t, style);
    var e := ChangedEdgeStyle(b1, t, style);
    RestyledMeaning(c0, c1, d, BordersPart(b1));
    RestyledMeaning(c1, c2, d, BordersPart(e1));
    RestyledMeaning(c0, c2, d, BordersPart(e));
    var bc1, bc2 := CF.GetBorders(c1, d).value, CF.GetBorders(c2, d).value;
    ChangedEdgeStyleRespectsEquality(b1, bc1, t, style);
    B.BordersEqualIsEquivalence(e, e1, bc2);
    forall k | k != BordersKind
      ensures PartsEqual(PartOf(c2, d, k).value, PartOf(c0, d, k).value)
    {
      PartsEqualIsEquivalence(PartOf(c2, d, k).value, PartOf(c1, d, k).value, PartOf(c0, d, k).value);
    }
  }

  // ---------------------------------------------------------------------
  // The stylesheet and the range
  // ---------------------------------------------------------------------

  /** The interning tables a range's style updates go through. */
  class StyleSheet {
    const fonts: ST.StyleTable<Fo.Font>
    const fills: ST.StyleTable<Fi.Fill>
    const borders: ST.StyleTable<B.Borders>
    const cellFormats: ST.StyleTable<CF.CellFormat>
    const numberFormats: NT.NumberFormatTable
    /** The default entries a cell format resolves an unset part to. */
    const d: CF.Defaults

    /** The default font, fill and borders are stored, and are the ones the cell formats resolve to. */
    ghost predicate DefaultsStored()
      reads this, fonts, fills, borders
    {
      Fo.DefaultFontId in fonts.entries && d.font == Some(fonts.entries[Fo.DefaultFontId]) &&
      Fi.DefaultFillId in fills.entries && d.fill == Some(fills.entries[Fi.DefaultFillId]) &&
      B.DefaultBordersId in borders.entries && d.borders == Some(borders.entries[B.DefaultBordersId]) &&
      d.numberFormat == Some(N.DefaultNumberFormat)
    }

    /** Every stored font, and every font a stored cell format resolves to, lists its properties once. */
    ghost predicate FontsListed()
      reads this, fonts, cellFormats
    {
      (forall k :: k in fonts.entries ==> Fo.NoDuplicates(fonts.entries[k].used)) &&
      (forall k :: k in cellFormats.entries ==>
         CF.GetFont(cellFormats.entries[k], d).Some? && Fo.NoDuplicates(CF.GetFont(cellFormats.entries[k], d).value.used))
    }

    /** The tables are the stylesheet's: each compares, copies and accepts values as its value type does. */
    ghost predicate Wired() {
      (forall f :: fonts.storable(f) && fonts.idOf(f) == f.fontId) &&
      (forall a, b :: fonts.equal(a, b) == Fo.FontsEqual(a, b)) &&
      (forall f, id :: fonts.withId(f, id) == Fo.Rebuild(f, id)) &&
      (forall f :: fills.storable(f) == CF.StorableFill(f) && fills.idOf(f) == f.fillId) &&
      (forall a, b :: fills.equal(a, b) == Fi.FillsEqual(a, b)) &&
      (forall b :: borders.storable(b) == CF.StorableBorders(b) && borders.idOf(b) == b.bordersId) &&
      (forall a, b :: borders.equal(a, b) == (B.BordersEqual(a, b) == Ok(true))) &&
      (forall c :: cellFormats.storable(c) == CF.Resolved(c, d) && cellFormats.idOf(c) == c.cellFormatId) &&
      (forall a, b :: cellFormats.equal(a, b) == (CF.CellFormatsEqual(a, b, d) == Ok(true))) &&
      (forall c, id :: cellFormats.withId(c, id) == CF.WithId(c, id, d))
    }

    ghost predicate Valid()
      reads this, fonts, fills, borders, cellFormats, numberFormats
    {
      fonts.Valid() && fills.Valid() && borders.Valid() && cellFormats.Valid() && numberFormats.Valid() &&
      Wired() && DefaultsStored() && FontsListed()
    }

    /**
     * A stylesheet holding only its default font, fill and borders, and no
     * cell format yet, and the number format table holding its default
     * entry and the built-in formats; the number format default is the
     * default format.
     */
    constructor(defaultFont: Fo.Font, defaultFill: Fi.Fill, defaultBorders: B.Borders)
      requires defaultFont.fontId == Fo.DefaultFontId && Fo.NoDuplicates(defaultFont.used)
      requires defaultFill.fillId == Fi.DefaultFillId && CF.StorableFill(defaultFill)
      requires defaultBorders.bordersId == B.DefaultBordersId && CF.StorableBorders(defaultBorders)
      ensures Valid() && fresh(fonts) && fresh(fills) && fresh(borders) && fresh(cellFormats) && fresh(numberFormats)
      ensures fonts.entries == map[Fo.DefaultFontId := defaultFont]
      ensures fills.entries == map[Fi.DefaultFillId := defaultFill]
      ensures borders.entries == map[B.DefaultBordersId := defaultBorders]
      ensures cellFormats.entries == map[]
      ensures numberFormats.custom == map[N.DefaultNumberFormatId := N.DefaultNumberFormat]
    {
      var d := CF.Defaults(Some(defaultBorders), Some(defaultFill), Some(defaultFont), Some(N.DefaultNumberFormat));
      var fonts := ST.NewFontTable();
      fonts.Add(defaultFont);
      var fills := ST.NewFillTable();
      fills.Add(defaultFill);
      var borders := ST.NewBordersTable();
      borders.Add(defaultBorders);
      var cellFormats := ST.NewCellFormatTable(d);
      var numberFormats := new NT.NumberFormatTable();
      this.d := d;
      this.fonts := fonts;
      this.fills := fills;
      this.borders := borders;
      this.cellFormats := cellFormats;
      this.numberFormats := numberFormats;
    }

    /** Every entry the five tables held before is still stored under its id. */
    ghost predicate KeptFrom(fonts0: map<int, Fo.Font>, fills0: map<int, Fi.Fill>, borders0: map<int, B.Borders>,
                             custom0: map<int, N.NumberFormat>, cellFormats0: map<int, CF.CellFormat>)
      reads this, fonts, fills, borders, numberFormats, cellFormats
    {
      ST.Kept(fonts0, fonts.entries) && ST.Kept(fills0, fills.entries) && ST.Kept(borders0, borders.entries) &&
      ST.Kept(custom0, numberFormats.custom) && ST.Kept(cellFormats0, cellFormats.entries)
    }

    /** Every stored format resolves all its parts, and its font lists each property once. */
    lemma StoredFormat(k: int)
      requires Valid() && k in cellFormats.entries
      ensures CF.Resolved(cellFormats.entries[k], d)
      ensures Fo.NoDuplicates(CF.GetFont(cellFormats.entries[k], d).value.used)
    {
      assert cellFormats.Valid();
      assert cellFormats.storable(cellFormats.entries[k]);
    }

    /** CellFormats.Insert: the first equal stored format, or a resolved copy under the first unused id. */
    method InsertCellFormat(v: CF.CellFormat) returns (stored: CF.CellFormat)
      requires Valid() && CF.Resolved(v, d) && Fo.NoDuplicates(CF.GetFont(v, d).value.used)
      modifies cellFormats
      ensures Valid()
      ensures cellFormats.InsertOutcome(old(cellFormats.entries), v, cellFormats.entries, stored)
      ensures stored.cellFormatId in cellFormats.entries && cellFormats.entries[stored.cellFormatId] == stored
    {
      stored := cellFormats.Insert(v);
      assert forall k :: k in cellFormats.entries ==>
        k in old(cellFormats.entries) || cellFormats.entries[k] == CF.WithId(v, k, d);
    }

    /** Fonts.Insert on the range's font: the first equal stored font, or a rebuilt copy under the first unused id. */
    method InsertFont(f: Fo.Font) returns (stored: Fo.Font)
      requires Valid() && Fo.NoDuplicates(f.used)
      modifies fonts
      ensures Valid()
      ensures fonts.InsertOutcome(old(fonts.entries), f, fonts.entries, stored)
      ensures ST.Kept(old(fonts.entries), fonts.entries)
      ensures Fo.FontsEqual(stored, f) && Fo.NoDuplicates(stored.used)
    {
      stored := fonts.Insert(f);
      fonts.InsertKeeps(old(fonts.entries), f, fonts.entries, stored);
      assert forall k :: k in fonts.entries ==> k in old(fonts.entries) || fonts.entries[k] == Fo.Rebuild(f, k);
    }

    /** Fills.Insert on the range's fill. */
    method InsertFill(f: Fi.Fill) returns (stored: Fi.Fill)
      requires Valid() && CF.StorableFill(f)
      modifies fills
      ensures Valid()
      ensures fills.InsertOutcome(old(fills.entries), f, fills.entries, stored)
      ensures ST.Kept(old(fills.entries), fills.entries)
      ensures Fi.FillsEqual(stored, f) && CF.StorableFill(stored)
    {
      stored := fills.Insert(f);
      fills.InsertKeeps(old(fills.entries), f, fills.entries, stored);
    }

    /**
     * What NumberFormats.Insert does to the custom formats `custom0` for
     * format `nf`, leaving `custom1` and returning `r`: a code already
     * stored changes nothing; a new code is stored under an unused id.
     */
    ghost predicate NumberFormatInserted(builtIns: map<int, N.NumberFormat>, custom0: map<int, N.NumberFormat>,
                                         nf: N.NumberFormat, custom1: map<int, N.NumberFormat>, r: N.NumberFormat)
    {
      if NT.HasCode(builtIns, nf.formatCode) || NT.HasCode(custom0, nf.formatCode) then
        custom1 == custom0
      else
        r.numberFormatId !in custom0 && custom1 == custom0[r.numberFormatId := r]
    }

    /**
     * NumberFormats.Insert on the range's number format: a stored format
     * with the same code, or a new custom entry for the code.
     */
    method InsertNumberFormat(nf: N.NumberFormat) returns (stored: N.NumberFormat)
      requires Valid()
      modifies numberFormats
      ensures Valid() && numberFormats.builtIns == old(numberFormats.builtIns)
      ensures N.NumberFormatsEqual(stored, nf)
      ensures ST.Kept(old(numberFormats.custom), numberFormats.custom)
      ensures NumberFormatInserted(numberFormats.builtIns, old(numberFormats.custom), nf, numberFormats.custom, stored)
      ensures stored.numberFormatId in numberFormats.builtIns || stored.numberFormatId in numberFormats.custom
      ensures NT.HasCode(numberFormats.builtIns, nf.formatCode) || NT.HasCode(numberFormats.custom, nf.formatCode)
      ensures NT.HasCode(old(numberFormats.builtIns), nf.formatCode) || NT.HasCode(old(numberFormats.custom), nf.formatCode) ==>
        numberFormats.custom == old(numberFormats.custom)
      ensures !NT.HasCode(old(numberFormats.builtIns), nf.formatCode) && !NT.HasCode(old(numberFormats.custom), nf.formatCode) ==>
        stored == N.NumberFormat(stored.numberFormatId, nf.formatCode, false, N.FormatNone, None) &&
        (forall k :: k in old(numberFormats.custom) ==> k < stored.numberFormatId) &&
        numberFormats.custom == old(numberFormats.custom)[stored.numberFormatId := stored]
    {
      stored := numberFormats.Insert(nf);
    }

    /** Borders.Insert on the range's borders. */
    method InsertBorders(b: B.Borders) returns (stored: B.Borders)
      requires Valid() && CF.StorableBorders(b)
      modifies borders
      ensures Valid()
      ensures borders.InsertOutcome(old(borders.entries), b, borders.entries, stored)
      ensures ST.Kept(old(borders.entries), borders.entries)
      ensures B.BordersEqual(stored, b) == Ok(true) && CF.StorableBorders(stored)
    {
      stored := borders.Insert(b);
      borders.InsertKeeps(old(borders.entries), b, borders.entries, stored);
    }

    /**
     * The table insert for a range's part: fonts, fills, borders and
     * number formats are interned in their tables; an alignment is stored
     * in the cell format itself.
     */
    method InsertPart(part: Part) returns (stored: Part)
      requires Valid() && Storable(part)
      requires part.FontPart? ==> Fo.NoDuplicates(part.font.used)
      modifies fonts, fills, borders, numberFormats
      ensures Valid()
      ensures KindOf(stored) == KindOf(part) && Storable(stored) && PartsEqual(part, stored)
      ensures stored.FontPart? ==> Fo.NoDuplicates(stored.font.used)
      ensures part.FontPart? ==>
        fonts.InsertOutcome(old(fonts.entries), part.font, fonts.entries, stored.font) && unchanged(fills, borders, numberFormats)
      ensures part.FillPart? ==>
        fills.InsertOutcome(old(fills.entries), part.fill, fills.entries, stored.fill) && unchanged(fonts, borders, numberFormats)
      ensures part.BordersPart? ==>
        borders.InsertOutcome(old(borders.entries), part.borders, borders.entries, stored.borders) && unchanged(fonts, fills, numberFormats)
      ensures part.NumberFormatPart? ==>
        NumberFormatInserted(numberFormats.builtIns, old(numberFormats.custom), part.numberFormat, numberFormats.custom, stored.numberFormat) &&
        unchanged(fonts, fills, borders)
      ensures part.AlignmentPart? ==> stored == part && unchanged(fonts, fills, borders, numberFormats)
      ensures KeptFrom(old(fonts.entries), old(fills.entries), old(borders.entries), old(numberFormats.custom), cellFormats.entries)
    {
      stored := part;
      match part {
        case FontPart(f) =>
          var g := InsertFont(f);
          stored := FontPart(g);
        case FillPart(f) =>
          var g := InsertFill(f);
          stored := FillPart(g);
        case BordersPart(b) =>
          var g := InsertBorders(b);
          stored := BordersPart(g);
        case NumberFormatPart(nf) =>
          var g := InsertNumberFormat(nf);
          stored := NumberFormatPart(g);
        case AlignmentPart(_) =>
          PartsEqualIsEquivalence(part, part, part);
      }
    }
  }

  /** A range: the style index naming its workbook cell format. */
  class Range {
    var styleIndex: int

    constructor(styleIndex: int)
      ensures this.styleIndex == styleIndex
    {
      this.styleIndex := styleIndex;
    }

    /**
     * The tail of every part update: the format at the style index is
     * recomposed with `part`, interned, and the interned format's id becomes
     * the style index.
     */
    method Recompose(sheet: StyleSheet, part: Part)
      requires sheet.Valid() && Storable(part) && styleIndex in sheet.cellFormats.entries
      requires part.FontPart? ==> Fo.NoDuplicates(part.font.used)
      modifies this, sheet.cellFormats
      ensures sheet.Valid()
      ensures styleIndex in sheet.cellFormats.entries
      ensures sheet.cellFormats.InsertOutcome(old(sheet.cellFormats.entries),
                                              Recomposed(old(sheet.cellFormats.entries[styleIndex]), sheet.d, part),
                                              sheet.cellFormats.entries, sheet.cellFormats.entries[styleIndex])
      ensures Restyled(old(sheet.cellFormats.entries[styleIndex]), sheet.cellFormats.entries[styleIndex], sheet.d, part)
      ensures ST.Kept(old(sheet.cellFormats.entries), sheet.cellFormats.entries)
    {
      var cf := sheet.cellFormats.entries[styleIndex];
      sheet.StoredFormat(styleIndex);
      var v := Recomposed(cf, sheet.d, part);
      assert CF.GetFont(v, sheet.d) == if part.FontPart? then Some(part.font) else CF.GetFont(cf, sheet.d);
      var stored := sheet.InsertCellFormat(v);
      sheet.cellFormats.InsertKeeps(old(sheet.cellFormats.entries), v, sheet.cellFormats.entries, stored);
      styleIndex := stored.cellFormatId;
    }

    /** The workbook cell format the style index names. */
    function Format(sheet: StyleSheet): CF.CellFormat
      requires styleIndex in sheet.cellFormats.entries
      reads this, sheet, sheet.cellFormats
    {
      sheet.cellFormats.entries[styleIndex]
    }

    /**
     * A setter on a range's part: the changed part is interned in its table,
     * then the composite is recomposed and interned; the stored format ends
     * up equal to the old one with the part replaced.
     */
    method Restyle(sheet: StyleSheet, part: Part)
      requires sheet.Valid() && Storable(part) && styleIndex in sheet.cellFormats.entries
      requires part.FontPart? ==> Fo.NoDuplicates(part.font.used)
      modifies this, sheet.fonts, sheet.fills, sheet.borders, sheet.numberFormats, sheet.cellFormats
      ensures sheet.Valid() && styleIndex in sheet.cellFormats.entries
      ensures Restyled(old(Format(sheet)), Format(sheet), sheet.d, part)
      ensures sheet.KeptFrom(old(sheet.fonts.entries), old(sheet.fills.entries), old(sheet.borders.entries),
                             old(sheet.numberFormats.custom), old(sheet.cellFormats.entries))
    {
      var stored := sheet.InsertPart(part);
      RecomposeEqual(sheet, stored, part);
    }

    /**
     * Recompose with a part already interned: the stored format ends up
     * equal to the old one with `part`, which the interned part equals.
     */
    method RecomposeEqual(sheet: StyleSheet, stored: Part, ghost part: Part)
      requires sheet.Valid() && Storable(stored) && Storable(part) && styleIndex in sheet.cellFormats.entries
      requires KindOf(stored) == KindOf(part) && PartsEqual(part, stored)
      requires stored.FontPart? ==> Fo.NoDuplicates(stored.font.used)
      modifies this, sheet.cellFormats
      ensures sheet.Valid() && styleIndex in sheet.cellFormats.entries
      ensures Restyled(old(Format(sheet)), Format(sheet), sheet.d, part)
      ensures ST.Kept(old(sheet.cellFormats.entries), sheet.cellFormats.entries)
    {
      ghost var previous := Format(sheet);
      sheet.StoredFormat(styleIndex);
      Recompose(sheet, stored);
      sheet.StoredFormat(styleIndex);
      RestyledWithEqualPart(previous, Format(sheet), sheet.d, stored, part);
    }

    /**
     * HorizontalAlignment, VerticalAlignment and WrapText setters: the
     * stored alignment with the one property replaced. A style index that
     * names no format is the null dereference, and nothing changes.
     */
    method SetAlignment(sheet: StyleSheet, c: AlignmentChange) returns (r: Result<()>)
      requires sheet.Valid()
      modifies this, sheet.fonts, sheet.fills, sheet.borders, sheet.numberFormats, sheet.cellFormats
      ensures sheet.Valid()
      ensures r.Err? <==> old(styleIndex) !in old(sheet.cellFormats.entries)
      ensures sheet.KeptFrom(old(sheet.fonts.entries), old(sheet.fills.entries), old(sheet.borders.entries),
                             old(sheet.numberFormats.custom), old(sheet.cellFormats.entries))
      ensures r.Err? ==> r.error == NullReference && styleIndex == old(styleIndex) &&
                         unchanged(sheet.fonts, sheet.fills, sheet.borders, sheet.numberFormats, sheet.cellFormats)
      ensures r.Ok? ==> styleIndex in sheet.cellFormats.entries &&
                        Restyled(old(Format(sheet)), Format(sheet), sheet.d,
                                 AlignmentPart(ChangedAlignment(CF.GetAlignment(old(Format(sheet))), c)))
    {
      if styleIndex !in sheet.cellFormats.entries {
        return Err(NullReference);
      }
      Restyle(sheet, AlignmentPart(ChangedAlignment(CF.GetAlignment(Format(sheet)), c)));
      r := Ok(());
    }

    /**
     * A font property setter: SetFontProperty on the font the stored format
     * resolves to (null clears the property), then the font and the
     * composite are interned.
     */
    method SetFontProperty(sheet: StyleSheet, p: Fo.FontProperty, v: Option<Fo.FontValue>) returns (r: Result<()>)
      requires sheet.Valid() && (v.Some? ==> Fo.Matches(p, v.value))
      modifies this, sheet.fonts, sheet.fills, sheet.borders, sheet.numberFormats, sheet.cellFormats
      ensures sheet.Valid()
      ensures r.Err? <==> old(styleIndex) !in old(sheet.cellFormats.entries)
      ensures sheet.KeptFrom(old(sheet.fonts.entries), old(sheet.fills.entries), old(sheet.borders.entries),
                             old(sheet.numberFormats.custom), old(sheet.cellFormats.entries))
      ensures r.Err? ==> r.error == NullReference && styleIndex == old(styleIndex) &&
                         unchanged(sheet.fonts, sheet.fills, sheet.borders, sheet.numberFormats, sheet.cellFormats)
      ensures r.Ok? ==> styleIndex in sheet.cellFormats.entries &&
                        CF.GetFont(old(Format(sheet)), sheet.d).Some? &&
                        Fo.NoDuplicates(CF.GetFont(old(Format(sheet)), sheet.d).value.used) &&
                        Restyled(old(Format(sheet)), Format(sheet), sheet.d,
                                 FontPart(Fo.SetFontProperty(CF.GetFont(old(Format(sheet)), sheet.d).value, p, v)))
    {
      if styleIndex !in sheet.cellFormats.entries {
        return Err(NullReference);
      }
      sheet.StoredFormat(styleIndex);
      var font := CF.GetFont(Format(sheet), sheet.d).value;
      Restyle(sheet, FontPart(Fo.SetFontProperty(font, p, v)));
      r := Ok(());
    }

    /** A fill property setter: UpdateFillProperty on the fill the stored format resolves to. */
    method SetFillProperty(sheet: StyleSheet, c: FillChange) returns (r: Result<()>)
      requires sheet.Valid()
      modifies this, sheet.fonts, sheet.fills, sheet.borders, sheet.numberFormats, sheet.cellFormats
      ensures sheet.Valid()
      ensures r.Err? <==> old(styleIndex) !in old(sheet.cellFormats.entries)
      ensures sheet.KeptFrom(old(sheet.fonts.entries), old(sheet.fills.entries), old(sheet.borders.entries),
                             old(sheet.numberFormats.custom), old(sheet.cellFormats.entries))
      ensures r.Err? ==> r.error == NullReference && styleIndex == old(styleIndex) &&
                         unchanged(sheet.fonts, sheet.fills, sheet.borders, sheet.numberFormats, sheet.cellFormats)
      ensures r.Ok? ==> styleIndex in sheet.cellFormats.entries &&
                        CF.GetFill(old(Format(sheet)), sheet.d).Some? &&
                        Restyled(old(Format(sheet)), Format(sheet), sheet.d,
                                 FillPart(ChangedFill(CF.GetFill(old(Format(sheet)), sheet.d).value, c)))
    {
      if styleIndex !in sheet.cellFormats.entries {
        return Err(NullReference);
      }
      sheet.StoredFormat(styleIndex);
      var fill := CF.GetFill(Format(sheet), sheet.d).value;
      Restyle(sheet, FillPart(ChangedFill(fill, c)));
      r := Ok(());
    }

    /**
     * The FormatCode setter on a range's number format. The range hands out
     * a fresh format with no code, which takes the code (a null code leaves
     * it without one); the format is interned in the number format table
     * before the stored cell format is looked up, so a style index naming
     * no format is the null dereference after the table has changed. The
     * composite with the interned number format is then interned and its id
     * becomes the style index.
     */
    method SetNumberFormatCode(sheet: StyleSheet, code: Option<string>) returns (r: Result<()>)
      requires sheet.Valid()
      modifies this, sheet.numberFormats, sheet.cellFormats
      ensures sheet.Valid() && sheet.numberFormats.builtIns == old(sheet.numberFormats.builtIns)
      ensures NT.HasCode(sheet.numberFormats.builtIns, code) || NT.HasCode(sheet.numberFormats.custom, code)
      ensures NT.HasCode(old(sheet.numberFormats.builtIns), code) || NT.HasCode(old(sheet.numberFormats.custom), code) ==>
        sheet.numberFormats.custom == old(sheet.numberFormats.custom)
      ensures r.Err? <==> old(styleIndex) !in old(sheet.cellFormats.entries)
      ensures ST.Kept(old(sheet.numberFormats.custom), sheet.numberFormats.custom)
      ensures ST.Kept(old(sheet.cellFormats.entries), sheet.cellFormats.entries)
      ensures r.Err? ==> r.error == NullReference && styleIndex == old(styleIndex) && unchanged(sheet.cellFormats)
      ensures r.Ok? ==> styleIndex in sheet.cellFormats.entries &&
                        Restyled(old(Format(sheet)), Format(sheet), sheet.d,
                                 NumberFormatPart(N.SetFormatCodeProperty(N.RangeNumberFormat, code)))
    {
      var nf := N.SetFormatCodeProperty(N.RangeNumberFormat, code);
      var g := sheet.InsertNumberFormat(nf);
      assert g.formatCode == code;
      if styleIndex !in sheet.cellFormats.entries {
        return Err(NullReference);
      }
      RecomposeEqual(sheet, NumberFormatPart(g), NumberFormatPart(nf));
      r := Ok(());
    }

    /**
     * Setting the style of one edge through the range's borders: the edge
     * cloned from the stored borders takes the style, UpdateBorder puts it
     * in its slot and interns the borders, then the composite.
     */
    method SetEdgeStyle(sheet: StyleSheet, t: B.BorderType, style: int) returns (r: Result<()>)
      requires sheet.Valid()
      modifies this, sheet.fonts, sheet.fills, sheet.borders, sheet.numberFormats, sheet.cellFormats
      ensures sheet.Valid()
      ensures r.Err? <==> old(styleIndex) !in old(sheet.cellFormats.entries)
      ensures sheet.KeptFrom(old(sheet.fonts.entries), old(sheet.fills.entries), old(sheet.borders.entries),
                             old(sheet.numberFormats.custom), old(sheet.cellFormats.entries))
      ensures r.Err? ==> r.error == NullReference && styleIndex == old(styleIndex) &&
                         unchanged(sheet.fonts, sheet.fills, sheet.borders, sheet.numberFormats, sheet.cellFormats)
      ensures r.Ok? ==> styleIndex in sheet.cellFormats.entries &&
                        CF.GetBorders(old(Format(sheet)), sheet.d).Some? &&
                        CF.StorableBorders(CF.GetBorders(old(Format(sheet)), sheet.d).value) &&
                        Restyled(old(Format(sheet)), Format(sheet), sheet.d,
                                 BordersPart(ChangedEdgeStyle(CF.GetBorders(old(Format(sheet)), sheet.d).value, t, style)))
    {
      if styleIndex !in sheet.cellFormats.entries {
        return Err(NullReference);
      }
      sheet.StoredFormat(styleIndex);
      var borders := CF.GetBorders(Format(sheet), sheet.d).value;
      Restyle(sheet, BordersPart(ChangedEdgeStyle(borders, t, style)));
      r := Ok(());
    }

    /**
     * One edge update of a sequence that started from format `c0`: the
     * stored format was restyled from `c0` with borders `b`, and after this
     * edge update it is restyled from `c0` with that edge of `b` changed.
     */
    method SetEdgeStyleAgain(sheet: StyleSheet, t: B.BorderType, style: int, ghost c0: CF.CellFormat, ghost b: B.Borders)
      requires sheet.Valid() && styleIndex in sheet.cellFormats.entries
      requires CF.Resolved(c0, sheet.d) && CF.StorableBorders(b) && Restyled(c0, Format(sheet), sheet.d, BordersPart(b))
      modifies this, sheet.fonts, sheet.fills, sheet.borders, sheet.numberFormats, sheet.cellFormats
      ensures sheet.Valid() && styleIndex in sheet.cellFormats.entries
      ensures Restyled(c0, Format(sheet), sheet.d, BordersPart(ChangedEdgeStyle(b, t, style)))
      ensures sheet.KeptFrom(old(sheet.fonts.entries), old(sheet.fills.entries), old(sheet.borders.entries),
                             old(sheet.numberFormats.custom), old(sheet.cellFormats.entries))
    {
      ghost var c1 := Format(sheet);
      sheet.StoredFormat(styleIndex);
      var _ := SetEdgeStyle(sheet, t, style);
      sheet.StoredFormat(styleIndex);
      RestyledEdgeAgain(c0, c1, Format(sheet), sheet.d, b, t, style);
    }

    /**
     * UpdateOuterBorderStyle: the left, right, top and bottom edges take the
     * style one after the other, each through its own update; the stored
     * format ends up equal to the old one with the outer edges restyled.
     */
    method UpdateOuterBorderStyle(sheet: StyleSheet, style: int) returns (r: Result<()>)
      requires sheet.Valid()
      modifies this, sheet.fonts, sheet.fills, sheet.borders, sheet.numberFormats, sheet.cellFormats
      ensures sheet.Valid()
      ensures r.Err? <==> old(styleIndex) !in old(sheet.cellFormats.entries)
      ensures sheet.KeptFrom(old(sheet.fonts.entries), old(sheet.fills.entries), old(sheet.borders.entries),
                             old(sheet.numberFormats.custom), old(sheet.cellFormats.entries))
      ensures r.Err? ==> r.error == NullReference && styleIndex == old(styleIndex) &&
                         unchanged(sheet.fonts, sheet.fills, sheet.borders, sheet.numberFormats, sheet.cellFormats)
      ensures r.Ok? ==> styleIndex in sheet.cellFormats.entries &&
                        CF.GetBorders(old(Format(sheet)), sheet.d).Some? &&
                        CF.StorableBorders(CF.GetBorders(old(Format(sheet)), sheet.d).value) &&
                        Restyled(old(Format(sheet)), Format(sheet), sheet.d,
                                 BordersPart(OuterStyled(CF.GetBorders(old(Format(sheet)), sheet.d).value, style)))
    {
      if styleIndex !in sheet.cellFormats.entries {
        return Err(NullReference);
      }
      ghost var c0 := Format(sheet);
      sheet.StoredFormat(styleIndex);
      ghost var b0 := CF.GetBorders(c0, sheet.d).value;
      B.BordersEqualIsEquivalence(b0, b0, b0);
      assert PartOf(c0, sheet.d, BordersKind) == Some(BordersPart(b0));
      RecomposedWithEqualPart(c0, sheet.d, BordersPart(b0));
      ghost var b1 := ChangedEdgeStyle(b0, B.Left, style);
      ghost var b2 := ChangedEdgeStyle(b1, B.Right, style);
      ghost var b3 := ChangedEdgeStyle(b2, B.Top, style);
      SetEdgeStyleAgain(sheet, B.Left, style, c0, b0);
      SetEdgeStyleAgain(sheet, B.Right, style, c0, b1);
      SetEdgeStyleAgain(sheet, B.Top, style, c0, b2);
      SetEdgeStyleAgain(sheet, B.Bottom, style, c0, b3);
      r := Ok(());
    }

    /**
     * EqualsStyle: compares the formats the two ranges' style indexes name;
     * an index naming no format is the null dereference.
     */
    method EqualsStyle(sheet: StyleSheet, other: Range) returns (r: Result<bool>)
      requires sheet.Valid()
      ensures styleIndex !in sheet.cellFormats.entries || other.styleIndex !in sheet.cellFormats.entries
              <==> r == Err(NullReference)
      ensures styleIndex in sheet.cellFormats.entries && other.styleIndex in sheet.cellFormats.entries ==>
              r == StylesEqual(Format(sheet), other.Format(sheet), sheet.d)
    {
      if styleIndex !in sheet.cellFormats.entries || other.styleIndex !in sheet.cellFormats.entries {
        return Err(NullReference);
      }
      sheet.StoredFormat(styleIndex);
      sheet.StoredFormat(other.styleIndex);
      StylesEqualMeaning(Format(sheet), other.Format(sheet), sheet.d);
      r := StylesEqual(Format(sheet), other.Format(sheet), sheet.d);
    }
  }
}
