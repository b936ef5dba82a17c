/**
 * Number formats: a format code, its classification (General, Numeric,
 * DateTime, ...) and the dispatch that renders a value with it.
 */
module NumberFormats {
  import opened Wrappers
  import opened Helpers
  import TimeConverter

  datatype NumberFormatType = FormatNone | FormatGeneral | FormatText | FormatNumeric | FormatFraction | FormatDateTime

  const DefaultNumberFormatId: int := -1

  /**
   * A number format. `dotNetFormatCode` is the rendering pattern derived from
   * the code; None where the derivation depends on culture settings or on the
   * regular-expression rewriting, which this model does not reproduce.
   */
  datatype NumberFormat = NumberFormat(numberFormatId: int, formatCode: Option<string>, isBuiltIn: bool,
                                       formatType: NumberFormatType, dotNetFormatCode: Option<string>)

  /** The table's default entry: id -1, empty code, General. */
  const DefaultNumberFormat: NumberFormat := NumberFormat(DefaultNumberFormatId, Some(""), false, FormatGeneral, Some(""))

  /** A range's number format before any setter runs: id 0, no code, no type. */
  const RangeNumberFormat: NumberFormat := NumberFormat(0, None, false, FormatNone, None)

  /** Number-format equality compares only the format codes. */
  predicate NumberFormatsEqual(a: NumberFormat, b: NumberFormat) {
    b.formatCode == a.formatCode
  }

  /** The text before the first ';' (the positive-number section). */
  function PositiveSection(code: string): (r: string)
    ensures ';' !in r && |r| <= |code| && r == code[..|r|]
    ensures |r| < |code| ==> code[|r|] == ';'
  {
    if code == [] then []
    else if code[0] == ';' then []
    else [code[0]] + PositiveSection(code[1..])
  }

  lemma {:induction false} PositiveSectionOfSectionFree(code: string)
    requires ';' !in code
    ensures PositiveSection(code) == code
  {
    if code != [] {
      PositiveSectionOfSectionFree(code[1..]);
    }
  }

  lemma {:induction false} PositiveSectionOfSplit(first: string, rest: string)
    requires ';' !in first
    ensures PositiveSection(first + ";" + rest) == first
  {
    if first != [] {
      assert (first + ";" + rest)[1..] == first[1..] + ";" + rest;
      PositiveSectionOfSplit(first[1..], rest);
    }
  }

  predicate StartsWith(s: string, prefix: string) {
    |prefix| <= |s| && s[..|prefix|] == prefix
  }

  /** A string whose first character differs from the prefix's does not start with it. */
  lemma HeadMismatch(s: string, prefix: string)
    requires prefix != [] && (s == [] || s[0] != prefix[0])
    ensures !StartsWith(s, prefix)
  {
    if |prefix| <= |s| {
      assert s[..|prefix|][0] == s[0];
    }
  }

  /** How many copies of `c` open the string. */
  function LeadingCount(s: string, c: char): (n: nat)
    ensures n <= |s|
    ensures forall i :: 0 <= i < n ==> s[i] == c
    ensures n < |s| ==> s[n] != c
  {
    if s == [] || s[0] != c then 0 else 1 + LeadingCount(s[1..], c)
  }

  predicate IsZero(c: char) {
    c == '0'
  }

  /**
   * The numeric pattern: at the first '0', a "#,##" right before it, a ".0+"
   * right after it, then an "E+0+", then a "%". The code counts as numeric
   * when any of these parts is present. Currency parts are not recognised.
   */
  predicate IsNumericCode(code: string)
  {
    var z := FirstIndex(code, IsZero);
    z >= 0 &&
    var thousands := z >= 4 && code[z - 4..z] == "#,##";
    var rest := code[z + 1..];
    var dLen := if StartsWith(rest, ".0") then 1 + LeadingCount(rest[1..], '0') else 0;
    var rest2 := rest[dLen..];
    var eLen := if StartsWith(rest2, "E+0") then 2 + LeadingCount(rest2[2..], '0') else 0;
    var rest3 := rest2[eLen..];
    thousands || dLen > 0 || eLen > 0 || StartsWith(rest3, "%")
  }

  /** The text an anchored pattern sees: '$' also matches before one final newline. */
  function RegexBody(code: string): (r: string)
    ensures |r| <= |code|
  {
    if |code| > 0 && code[|code| - 1] == '\n' then code[..|code| - 1] else code
  }

  /** Largest index j with 2 <= j <= hi and s[j] == ']', or -1. */
  function LastCloseBracket(s: string, hi: int): (j: int)
    requires hi < |s|
    ensures j == -1 || (2 <= j <= hi && s[j] == ']')
    ensures forall k :: j < k <= hi && 2 <= k ==> s[k] != ']'
    decreases hi
  {
    if hi < 2 then -1 else if s[hi] == ']' then hi else LastCloseBracket(s, hi - 1)
  }

  /**
   * What follows the optional leading "[...]" locale block: the block is as
   * long as possible while leaving at least one character after it.
   */
  function AfterLocaleBlock(body: string): string
  {
    if |body| >= 4 && body[0] == '[' then
      var j := LastCloseBracket(body, |body| - 2);
      if j >= 2 then body[j + 1..] else body
    else body
  }

  /** The date-time pattern: a year, month, day, hour or second letter outside the locale block. */
  predicate IsDateTimeCode(code: string)
  {
    var body := RegexBody(code);
    |body| >= 1 && '\n' !in body &&
    var rest := AfterLocaleBlock(body);
    'y' in rest || 'm' in rest || 'd' in rest || 'h' in rest || 's' in rest
  }

  /** A code of month letters only. */
  predicate IsMonthOnly(code: string)
  {
    var body := RegexBody(code);
    |body| >= 1 && forall i :: 0 <= i < |body| ==> body[i] == 'm'
  }

  /**
   * SetFormatCode's classification of a code: only the positive section is
   * examined; numeric is tried first, then date-time, and anything else is
   * General. A month-only code renders with its letters upper-cased.
   */
  function Classify(code: string): (r: (NumberFormatType, Option<string>))
  {
    var section := PositiveSection(code);
    if IsNumericCode(section) then (FormatNumeric, None)
    else if IsDateTimeCode(section) then
      (FormatDateTime, if IsMonthOnly(section) then Some(ToUpper(section)) else None)
    else (FormatGeneral, Some(""))
  }

  /** Classification never leaves the type unset and never yields Fraction or Text. */
  lemma ClassifyResultTypes(code: string)
    ensures Classify(code).0 in {FormatGeneral, FormatNumeric, FormatDateTime}
  {
  }

  /** Only the text before the first ';' decides the classification. */
  lemma ClassifyIgnoresLaterSections(first: string, rest: string)
    requires ';' !in first
    ensures Classify(first + ";" + rest) == Classify(first)
  {
    PositiveSectionOfSplit(first, rest);
    PositiveSectionOfSectionFree(first);
  }

  /** Every numeric code contains a '0'. */
  lemma NumericCodeHasZero(code: string)
    ensures IsNumericCode(code) ==> '0' in code
  {
    var z := FirstIndex(code, IsZero);
    if z >= 0 {
      assert code[z] == '0';
    }
  }

  /** A code of month letters only is DateTime and renders upper-cased. */
  lemma MonthOnlyIsDateTime(code: string)
    requires |code| >= 1 && forall i :: 0 <= i < |code| ==> code[i] == 'm'
    ensures Classify(code) == (FormatDateTime, Some(ToUpper(code)))
  {
    PositiveSectionOfSectionFree(code);
    NumericCodeHasZero(code);
    assert RegexBody(code) == code;
    assert AfterLocaleBlock(code) == code;
    assert code[0] == 'm';
  }

  /** A "#,##" right before the first '0' makes a code numeric. */
  lemma ThousandsMakeNumeric(code: string, z: int)
    requires 0 <= z < |code| && FirstIndex(code, IsZero) == z
    requires z >= 4 && code[z - 4..z] == "#,##"
    ensures IsNumericCode(code)
  {
  }

  /** A ".0" right after the first '0' makes a code numeric. */
  lemma DecimalsMakeNumeric(code: string, z: int)
    requires 0 <= z && z + 2 < |code| && FirstIndex(code, IsZero) == z
    requires code[z + 1] == '.' && code[z + 2] == '0'
    ensures IsNumericCode(code)
  {
    var rest := code[z + 1..];
    assert rest[..2] == ".0";
  }

  /** A '%' right after the first '0' makes a code numeric. */
  lemma PercentMakesNumeric(code: string, z: int)
    requires 0 <= z && z + 1 < |code| && FirstIndex(code, IsZero) == z
    requires code[z + 1] == '%'
    ensures IsNumericCode(code)
  {
    var rest := code[z + 1..];
    assert rest[0] == '%' && rest[..1] == "%";
  }

  /** Without "#,##" before the first '0' and with no '.', 'E' or '%' right after it, a code is not numeric. */
  lemma PlainZeroIsNotNumeric(code: string, z: int)
    requires 0 <= z < |code| && FirstIndex(code, IsZero) == z
    requires !(z >= 4 && code[z - 4..z] == "#,##")
    requires z + 1 == |code| || (code[z + 1] != '.' && code[z + 1] != 'E' && code[z + 1] != '%')
    ensures !IsNumericCode(code)
  {
    var rest := code[z + 1..];
    assert rest != [] ==> rest[0] == code[z + 1];
    HeadMismatch(rest, ".0");
    HeadMismatch(rest, "E+0");
    HeadMismatch(rest, "%");
    assert rest[0..] == rest;
  }

  /** A single-section code that is not numeric but matches the date pattern is DateTime. */
  lemma ClassifyDateTimeSection(code: string)
    requires ';' !in code && !IsNumericCode(code) && IsDateTimeCode(code)
    ensures Classify(code).0 == FormatDateTime
  {
    PositiveSectionOfSectionFree(code);
  }

  /** A single-section code matching the numeric pattern is Numeric. */
  lemma ClassifyNumericSection(code: string)
    requires ';' !in code && IsNumericCode(code)
    ensures Classify(code).0 == FormatNumeric
  {
    PositiveSectionOfSectionFree(code);
  }

  /** A single-section code matching neither pattern is General. */
  lemma ClassifyGeneralSection(code: string)
    requires ';' !in code && !IsNumericCode(code) && !IsDateTimeCode(code)
    ensures Classify(code) == (FormatGeneral, Some(""))
  {
    PositiveSectionOfSectionFree(code);
  }

  /** A code without a line break or a locale block that holds a date or time letter matches the date-time pattern. */
  lemma DateLetterMakesDateTime(code: string, k: int)
    requires 0 <= k < |code| && '\n' !in code && code[0] != '['
    requires code[k] == 'y' || code[k] == 'm' || code[k] == 'd' || code[k] == 'h' || code[k] == 's'
    ensures IsDateTimeCode(code)
  {
    assert code[|code| - 1] in code;
    assert RegexBody(code) == code;
    assert AfterLocaleBlock(code) == code;
  }

  /** Numeric is tried first: a code that also contains date letters is still Numeric. */
  lemma NumericWinsOverDateTime()
    ensures IsDateTimeCode("0.0 h") && IsNumericCode("0.0 h")
    ensures Classify("0.0 h").0 == FormatNumeric
  {
    var code := "0.0 h";
    assert code == ['0', '.', '0', ' ', 'h'];
    assert ';' !in code;
    FirstIndexIsUnique(code, IsZero, 0);
    DecimalsMakeNumeric(code, 0);
    DateLetterMakesDateTime(code, 4);
    ClassifyNumericSection(code);
  }

  /** Typical codes and their classes; the text code "@" classifies as General (the built-in entry carries Text itself). */
  lemma ClassifyTextCodeExample()
    ensures Classify("@") == (FormatGeneral, Some(""))
  {
    var code := "@";
    assert code == ['@'];
    assert ';' !in code && '0' !in code;
    NumericCodeHasZero(code);
    assert !IsDateTimeCode(code) by {
      assert RegexBody(code) == code;
      assert AfterLocaleBlock(code) == code;
    }
    ClassifyGeneralSection(code);
  }

  lemma ClassifyPercentExample()
    ensures Classify("0%").0 == FormatNumeric
  {
    var code := "0%";
    assert code == ['0', '%'];
    assert ';' !in code;
    FirstIndexIsUnique(code, IsZero, 0);
    PercentMakesNumeric(code, 0);
    ClassifyNumericSection(code);
  }

  lemma ClassifyThousandsExample()
    ensures Classify("#,##0").0 == FormatNumeric
  {
    var code := "#,##0";
    assert code == ['#', ',', '#', '#', '0'];
    assert ';' !in code;
    FirstIndexIsUnique(code, IsZero, 4);
    assert code[0..4] == "#,##";
    ThousandsMakeNumeric(code, 4);
    ClassifyNumericSection(code);
  }

  lemma ClassifyDateExample()
    ensures Classify("d/m/yy").0 == FormatDateTime
  {
    var code := "d/m/yy";
    assert code == ['d', '/', 'm', '/', 'y', 'y'];
    assert ';' !in code && '0' !in code;
    NumericCodeHasZero(code);
    assert IsDateTimeCode(code) by {
      assert RegexBody(code) == code;
      assert AfterLocaleBlock(code) == code;
      assert code[0] == 'd';
    }
    ClassifyDateTimeSection(code);
  }

  /** A lone "0" has none of the numeric parts and no date letter: it is General. */
  lemma ClassifyLoneZeroExample()
    ensures Classify("0").0 == FormatGeneral
  {
    var code := "0";
    assert code == ['0'];
    assert ';' !in code;
    FirstIndexIsUnique(code, IsZero, 0);
    PlainZeroIsNotNumeric(code, 0);
    assert !IsDateTimeCode(code) by {
      assert RegexBody(code) == code;
      assert AfterLocaleBlock(code) == code;
    }
    ClassifyGeneralSection(code);
  }

  lemma LocaleBlockCodeIsNotNumeric()
    ensures !IsNumericCode("[$-409]h")
  {
    var code := "[$-409]h";
    assert code == ['[', '$', '-', '4', '0', '9', ']', 'h'];
    FirstIndexIsUnique(code, IsZero, 4);
    assert code[0..4][0] == '[';
    PlainZeroIsNotNumeric(code, 4);
  }

  lemma LocaleBlockCodeIsDateTime()
    ensures IsDateTimeCode("[$-409]h")
  {
    var code := "[$-409]h";
    assert code == ['[', '$', '-', '4', '0', '9', ']', 'h'];
    assert RegexBody(code) == code;
    assert LastCloseBracket(code, 6) == 6;
    assert AfterLocaleBlock(code) == ['h'];
  }

  /** A locale block is skipped: "[$-409]h" is DateTime through its "h", although the block holds a '0'. */
  lemma ClassifyLocaleBlockExample()
    ensures Classify("[$-409]h").0 == FormatDateTime
  {
    var code := "[$-409]h";
    assert ';' !in code by {
      assert code == ['[', '$', '-', '4', '0', '9', ']', 'h'];
    }
    LocaleBlockCodeIsNotNumeric();
    LocaleBlockCodeIsDateTime();
    ClassifyDateTimeSection(code);
  }

  /** SetFormatCode: stores the code and its classification. */
  function SetFormatCode(nf: NumberFormat, code: string): (r: NumberFormat)
    ensures r.formatCode == Some(code) && (r.formatType, r.dotNetFormatCode) == Classify(code)
    ensures r.numberFormatId == nf.numberFormatId && r.isBuiltIn == nf.isBuiltIn
  {
    var (t, dotNet) := Classify(code);
    nf.(formatCode := Some(code), formatType := t, dotNetFormatCode := dotNet)
  }

  /** The FormatCode setter: ignored on built-in formats and for null. */
  function SetFormatCodeProperty(nf: NumberFormat, code: Option<string>): (r: NumberFormat)
    ensures nf.isBuiltIn || code.None? ==> r == nf
    ensures !nf.isBuiltIn && code.Some? ==> r == SetFormatCode(nf, code.value)
  {
    if nf.isBuiltIn || code.None? then nf else SetFormatCode(nf, code.value)
  }

  /** A value to render: its text (ToString) and, when its text parses as a number, that number. */
  datatype CellObject = CellObject(text: string, number: Option<real>)

  /** How a value is rendered: as its own text, or through a pattern (whose culture-specific output is not modelled). */
  datatype Rendering =
    | AsText(text: string)
    | NumericPattern(pattern: Option<string>, number: Option<real>, text: string)
    | DatePattern(pattern: Option<string>, date: TimeConverter.DateTime)

  /**
   * A format without a type and without a code: the range-level format
   * before any setter runs. Rendering it classifies a null code, whose
   * split into sections dereferences null.
   */
  predicate NullCodeUntyped(nf: NumberFormat) {
    nf.formatType == FormatNone && nf.formatCode.None?
  }

  /** The type used for rendering: a format without a type is classified first. */
  function EffectiveType(nf: NumberFormat): (NumberFormatType, Option<string>)
  {
    if nf.formatType == FormatNone then Classify(if nf.formatCode.Some? then nf.formatCode.value else "")
    else (nf.formatType, nf.dotNetFormatCode)
  }

  /**
   * GetFormattedValue: a format without a type classifies its code first,
   * which fails on a null code; then General and Text render the value's own
   * text, Numeric applies the pattern, Fraction is not implemented, and
   * DateTime renders a non-negative number as a date unless it converts to
   * the minimum date.
   */
  function GetFormattedValue(nf: NumberFormat, value: CellObject): (r: Result<Rendering>)
    ensures r.Err? <==> NullCodeUntyped(nf) || EffectiveType(nf).0 == FormatFraction
    ensures r.Err? ==> r.error == (if NullCodeUntyped(nf) then NullReference else NotImplemented)
    ensures !NullCodeUntyped(nf) && EffectiveType(nf).0 in {FormatGeneral, FormatText} ==> r == Ok(AsText(value.text))
    ensures !NullCodeUntyped(nf) && EffectiveType(nf).0 == FormatDateTime && (value.number.None? || value.number.value < 0.0) ==>
            r == Ok(AsText(value.text))
  {
    if NullCodeUntyped(nf) then Err(NullReference)
    else
      var (t, pattern) := EffectiveType(nf);
      match t
      case FormatFraction => Err(NotImplemented)
      case FormatNumeric => Ok(NumericPattern(pattern, value.number, value.text))
      case FormatDateTime =>
        if value.number.Some? && value.number.value >= 0.0 then
          match TimeConverter.SerialToDateTime(value.number.value)
          case Ok(d) => if TimeConverter.Before(TimeConverter.MinValue, d) then Ok(DatePattern(pattern, d)) else Ok(AsText(value.text))
          case Err(_) => Ok(AsText(value.text))
        else Ok(AsText(value.text))
      case _ => Ok(AsText(value.text))
  }

  /**
   * Formats whose type comes from classification of a code never raise: only
   * a stored Fraction type, or a missing type with a null code, does.
   */
  lemma FormattingNeverFailsAfterClassification(nf: NumberFormat, value: CellObject)
    requires nf.formatType != FormatFraction && !NullCodeUntyped(nf)
    ensures GetFormattedValue(nf, value).Ok?
  {
    if nf.formatType == FormatNone {
      ClassifyResultTypes(nf.formatCode.value);
    }
  }

  /** A range's own number format, before its code is set, cannot render a value: it raises a null dereference. */
  lemma RangeFormatCannotRender(value: CellObject)
    ensures GetFormattedValue(RangeNumberFormat, value) == Err(NullReference)
    ensures GetFormattedValue(SetFormatCodeProperty(RangeNumberFormat, None), value) == Err(NullReference)
  {
  }

  /** A serial past the representable range renders as plain text under a date format. */
  lemma HugeSerialRendersAsText(nf: NumberFormat, text: string)
    requires nf.formatType == FormatDateTime
    ensures GetFormattedValue(nf, CellObject(text, Some(5000000.0))) == Ok(AsText(text))
  {
    TimeConverter.OutOfRangeSerialIsMinValue();
  }

  /** The (numFmtId, formatCode) element written for a format; the default format (id -1) is never written. */
  function WrittenElement(nf: NumberFormat): (r: Option<(int, Option<string>)>)
    ensures r.None? <==> nf.numberFormatId == DefaultNumberFormatId
    ensures r.Some? ==> r.value == (nf.numberFormatId, nf.formatCode)
  {
    if nf.numberFormatId == DefaultNumberFormatId then None else Some((nf.numberFormatId, nf.formatCode))
  }

  /**
   * The built-in formats: ids below 164, fixed codes, declared types. Patterns
   * taken from culture settings are None.
   */
  const BuiltInFormats: seq<NumberFormat> := [
    NumberFormat(0, Some(""), true, FormatGeneral, Some("")),
    NumberFormat(1, Some("0"), true, FormatNumeric, Some("0")),
    NumberFormat(2, Some("0.00"), true, FormatNumeric, None),
    NumberFormat(3, Some("#,##0"), true, FormatNumeric, None),
    NumberFormat(4, Some("#,##0.00"), true, FormatNumeric, None),
    NumberFormat(9, Some("0%"), true, FormatNumeric, Some("0%")),
    NumberFormat(10, Some("0.00%"), true, FormatNumeric, None),
    NumberFormat(11, Some("0.00E+00"), true, FormatNumeric, None),
    NumberFormat(12, Some("# ?/?"), true, FormatNone, Some("")),
    NumberFormat(13, Some("# ??/??"), true, FormatNone, Some("")),
    NumberFormat(14, Some("mm-dd-yy"), true, FormatDateTime, None),
    NumberFormat(15, Some("d-mmm-yy"), true, FormatDateTime, Some("d-MMM-yy")),
    NumberFormat(16, Some("d-mmm"), true, FormatDateTime, Some("d-MMM")),
    NumberFormat(17, Some("mmm-yy"), true, FormatDateTime, Some("MMM-yy")),
    NumberFormat(18, Some("h:mm AM/PM"), true, FormatDateTime, None),
    NumberFormat(19, Some("h:mm:ss AM/PM"), true, FormatDateTime, None),
    NumberFormat(20, Some("h:mm"), true, FormatDateTime, None),
    NumberFormat(21, Some("h:mm:ss"), true, FormatDateTime, None),
    NumberFormat(22, Some("m/d/yy h:mm"), true, FormatDateTime, None),
    NumberFormat(37, Some("#,##0 ;(#,##0)"), true, FormatNumeric, None),
    NumberFormat(38, Some("#,##0 ;[Red](#,##0)"), true, FormatNumeric, None),
    NumberFormat(39, Some("#,##0.00 ;(#,##0.00)"), true, FormatNumeric, None),
    NumberFormat(40, Some("#,##0.00 ;[Red](#,##0.00)"), true, FormatNumeric, None),
    NumberFormat(45, Some("mm:ss"), true, FormatDateTime, Some("mm:ss")),
    NumberFormat(46, Some("[h]:mm:ss"), true, FormatDateTime, Some("")),
    NumberFormat(47, Some("mmss.0"), true, FormatDateTime, Some("mmss.f")),
    NumberFormat(48, Some("##0.0E+0"), true, FormatNumeric, None),
    NumberFormat(49, Some("@"), true, FormatText, Some(""))
  ]

  /** The first id available to custom formats. */
  const FirstCustomId: int := 164

  /** Built-ins are marked built-in and have ids below 164 in strictly increasing order. */
  lemma BuiltInFormatsWellFormed()
    ensures forall i :: 0 <= i < |BuiltInFormats| ==>
      0 <= BuiltInFormats[i].numberFormatId < FirstCustomId && BuiltInFormats[i].isBuiltIn
    ensures forall i, j :: 0 <= i < j < |BuiltInFormats| ==>
      BuiltInFormats[i].numberFormatId < BuiltInFormats[j].numberFormatId
  {
  }
}
