/**
 * The page setup of a worksheet: print settings whose setters ignore or
 * clamp out-of-range values, the test for whether any setting differs from
 * its default, and the attribute list the settings are written as and read
 * back from.
 */
module PageSetups {
  import opened Wrappers
  import opened Helpers

  datatype Orientation = OrientationNone | Portrait | Landscape

  datatype PageSetup = PageSetup(
    blackAndWhite: bool, copies: int, draft: bool, firstPageNumber: int,
    fitToHeight: int, fitToWidth: int, horizontalDpi: int, verticalDpi: int,
    relationshipId: Option<string>, orientation: Orientation, paperSize: int,
    scale: int, useFirstPageNumber: bool, usePrinterDefaults: bool)

  /**
   * A new page setup: one copy numbered from page 1, no fitting, 600 dpi
   * both ways, portrait on paper size 9 (A4) at 100%, and no relationship id
   * (null).
   */
  const Default: PageSetup := PageSetup(false, 1, false, 1, -1, -1, 600, 600, None, Portrait, 9, 100, false, false)

  /** What the setters keep: positive counts and resolutions, fitting of at least -1, an orientation, a scale of at most 400. */
  predicate WellFormed(p: PageSetup) {
    p.copies > 0 && p.firstPageNumber > 0 && p.fitToHeight >= -1 && p.fitToWidth >= -1
    && p.horizontalDpi > 0 && p.verticalDpi > 0 && p.orientation != OrientationNone && p.scale <= 400
  }

  // ---------------------------------------------------------------------
  // Setters
  // ---------------------------------------------------------------------

  /** Copies: a value of at most 0 is ignored. */
  function SetCopies(p: PageSetup, value: int): (r: PageSetup)
    ensures r.copies == (if value > 0 then value else p.copies)
    ensures r.(copies := p.copies) == p
    ensures WellFormed(p) ==> WellFormed(r)
  {
    if value > 0 then p.(copies := value) else p
  }

  /** First page number: a value of at most 0 is ignored. */
  function SetFirstPageNumber(p: PageSetup, value: int): (r: PageSetup)
    ensures r.firstPageNumber == (if value > 0 then value else p.firstPageNumber)
    ensures r.(firstPageNumber := p.firstPageNumber) == p
    ensures WellFormed(p) ==> WellFormed(r)
  {
    if value > 0 then p.(firstPageNumber := value) else p
  }

  /** Fit to height: a negative value stands for "not set", -1. */
  function SetFitToHeight(p: PageSetup, value: int): (r: PageSetup)
    ensures r.fitToHeight == (if value >= 0 then value else -1)
    ensures r.(fitToHeight := p.fitToHeight) == p
    ensures WellFormed(p) ==> WellFormed(r)
  {
    p.(fitToHeight := if value >= 0 then value else -1)
  }

  /**
   * Fit to width as written: a negative value leaves the width alone and
   * resets the height instead.
   */
  function SetFitToWidthAsWritten(p: PageSetup, value: int): (r: PageSetup)
    ensures value >= 0 ==> r == p.(fitToWidth := value)
    ensures value < 0 ==> r == p.(fitToHeight := -1)
    ensures WellFormed(p) ==> WellFormed(r)
  {
    if value >= 0 then p.(fitToWidth := value) else p.(fitToHeight := -1)
  }

  /** Fit to width, corrected: a negative value stands for "not set", -1, and the height is untouched. */
  function SetFitToWidth(p: PageSetup, value: int): (r: PageSetup)
    ensures r.fitToWidth == (if value >= 0 then value else -1)
    ensures r.(fitToWidth := p.fitToWidth) == p
    ensures WellFormed(p) ==> WellFormed(r)
  {
    p.(fitToWidth := if value >= 0 then value else -1)
  }

  /** Horizontal resolution: a value of at most 0 is ignored. */
  function SetHorizontalDpi(p: PageSetup, value: int): (r: PageSetup)
    ensures r.horizontalDpi == (if value > 0 then value else p.horizontalDpi)
    ensures r.(horizontalDpi := p.horizontalDpi) == p
    ensures WellFormed(p) ==> WellFormed(r)
  {
    if value > 0 then p.(horizontalDpi := value) else p
  }

  /** Vertical resolution: a value of at most 0 is ignored. */
  function SetVerticalDpi(p: PageSetup, value: int): (r: PageSetup)
    ensures r.verticalDpi == (if value > 0 then value else p.verticalDpi)
    ensures r.(verticalDpi := p.verticalDpi) == p
    ensures WellFormed(p) ==> WellFormed(r)
  {
    if value > 0 then p.(verticalDpi := value) else p
  }

  /** Orientation: `None` is ignored. */
  function SetOrientation(p: PageSetup, value: Orientation): (r: PageSetup)
    ensures r.orientation == (if value != OrientationNone then value else p.orientation)
    ensures r.(orientation := p.orientation) == p
    ensures WellFormed(p) ==> WellFormed(r)
  {
    if value != OrientationNone then p.(orientation := value) else p
  }

  /** Scale: capped at 400; there is no lower bound. */
  function SetScale(p: PageSetup, value: int): (r: PageSetup)
    ensures r.scale <= 400
    ensures value <= 400 ==> r.scale == value
    ensures r.(scale := p.scale) == p
    ensures WellFormed(p) ==> WellFormed(r)
  {
    p.(scale := if value > 400 then 400 else value)
  }

  /** As written, a negative width resets a height that was set, and the width keeps its value. */
  lemma FitToWidthAsWrittenResetsHeight()
    ensures var p := Default.(fitToHeight := 2, fitToWidth := 3);
      SetFitToWidthAsWritten(p, -1) == Default.(fitToHeight := -1, fitToWidth := 3)
      && SetFitToWidth(p, -1) == Default.(fitToHeight := 2, fitToWidth := -1)
  {
  }

  // ---------------------------------------------------------------------
  // Whether anything is to be written
  // ---------------------------------------------------------------------

  /**
   * As written: the null relationship id differs from "", and the scale is
   * compared with 400 rather than with its default of 100.
   */
  predicate HasValueAsWritten(p: PageSetup) {
    p.blackAndWhite || p.copies > 1 || p.draft || p.firstPageNumber > 1
    || p.fitToHeight != -1 || p.fitToWidth != -1 || p.horizontalDpi != 600 || p.verticalDpi != 600
    || p.relationshipId != Some("") || p.orientation != Portrait || p.paperSize != 9
    || p.scale != 400 || p.useFirstPageNumber || p.usePrinterDefaults
  }

  /** Corrected: a null or empty relationship id is no value, and the scale is compared with its default. */
  predicate HasValue(p: PageSetup) {
    p.blackAndWhite || p.copies > 1 || p.draft || p.firstPageNumber > 1
    || p.fitToHeight != -1 || p.fitToWidth != -1 || p.horizontalDpi != 600 || p.verticalDpi != 600
    || !NullOrEmpty(p.relationshipId) || p.orientation != Portrait || p.paperSize != 9
    || p.scale != 100 || p.useFirstPageNumber || p.usePrinterDefaults
  }

  predicate NullOrEmpty(s: Option<string>) {
    s.None? || s.value == ""
  }

  /** As written, a page setup nobody touched still has a value; corrected, it has none. */
  lemma DefaultHasValueAsWritten()
    ensures HasValueAsWritten(Default) && !HasValue(Default)
  {
  }

  /** Corrected, a well-formed page setup has a value exactly when it differs from a new one. */
  lemma HasValueIffChanged(p: PageSetup)
    requires WellFormed(p) && p.relationshipId != Some("")
    ensures HasValue(p) <==> p != Default
  {
  }

  // ---------------------------------------------------------------------
  // Settings one by one
  // ---------------------------------------------------------------------

  /** The settings, in the order the writer emits them. */
  datatype Setting =
    | BlackAndWhite | Copies | Draft | FirstPageNumber | FitToHeight | FitToWidth | HorizontalDpi
    | VerticalDpi | OrientationSetting | PaperSize | RelationshipId | Scale | UseFirstPageNumber
    | UsePrinterDefaults

  const WriteOrder: seq<Setting> := [
    BlackAndWhite, Copies, Draft, FirstPageNumber, FitToHeight, FitToWidth, HorizontalDpi,
    VerticalDpi, OrientationSetting, PaperSize, RelationshipId, Scale, UseFirstPageNumber,
    UsePrinterDefaults]

  /** The value of one setting, whatever its type. */
  datatype SettingValue = Flag(b: bool) | Number(n: int) | Text(t: Option<string>) | Turned(o: Orientation)

  function Get(p: PageSetup, s: Setting): SettingValue {
    match s
    case BlackAndWhite => Flag(p.blackAndWhite)
    case Copies => Number(p.copies)
    case Draft => Flag(p.draft)
    case FirstPageNumber => Number(p.firstPageNumber)
    case FitToHeight => Number(p.fitToHeight)
    case FitToWidth => Number(p.fitToWidth)
    case HorizontalDpi => Number(p.horizontalDpi)
    case VerticalDpi => Number(p.verticalDpi)
    case OrientationSetting => Turned(p.orientation)
    case PaperSize => Number(p.paperSize)
    case RelationshipId => Text(p.relationshipId)
    case Scale => Number(p.scale)
    case UseFirstPageNumber => Flag(p.useFirstPageNumber)
    case UsePrinterDefaults => Flag(p.usePrinterDefaults)
  }

  /** Two page setups that agree on every setting are the same. */
  lemma SameSettings(p: PageSetup, q: PageSetup)
    requires forall s :: Get(p, s) == Get(q, s)
    ensures p == q
  {
    assert Get(p, BlackAndWhite) == Get(q, BlackAndWhite) && Get(p, Copies) == Get(q, Copies);
    assert Get(p, Draft) == Get(q, Draft) && Get(p, FirstPageNumber) == Get(q, FirstPageNumber);
    assert Get(p, FitToHeight) == Get(q, FitToHeight) && Get(p, FitToWidth) == Get(q, FitToWidth);
    assert Get(p, HorizontalDpi) == Get(q, HorizontalDpi) && Get(p, VerticalDpi) == Get(q, VerticalDpi);
    assert Get(p, OrientationSetting) == Get(q, OrientationSetting) && Get(p, PaperSize) == Get(q, PaperSize);
    assert Get(p, RelationshipId) == Get(q, RelationshipId) && Get(p, Scale) == Get(q, Scale);
    assert Get(p, UseFirstPageNumber) == Get(q, UseFirstPageNumber);
    assert Get(p, UsePrinterDefaults) == Get(q, UsePrinterDefaults);
  }

  /** Setting `s` of `p` copied into `q`; every other setting of `q` stays. */
  function CopySetting(q: PageSetup, p: PageSetup, s: Setting): (r: PageSetup)
    ensures Get(r, s) == Get(p, s)
    ensures forall t :: t != s ==> Get(r, t) == Get(q, t)
  {
    match s
    case BlackAndWhite => q.(blackAndWhite := p.blackAndWhite)
    case Copies => q.(copies := p.copies)
    case Draft => q.(draft := p.draft)
    case FirstPageNumber => q.(firstPageNumber := p.firstPageNumber)
    case FitToHeight => q.(fitToHeight := p.fitToHeight)
    case FitToWidth => q.(fitToWidth := p.fitToWidth)
    case HorizontalDpi => q.(horizontalDpi := p.horizontalDpi)
    case VerticalDpi => q.(verticalDpi := p.verticalDpi)
    case OrientationSetting => q.(orientation := p.orientation)
    case PaperSize => q.(paperSize := p.paperSize)
    case RelationshipId => q.(relationshipId := p.relationshipId)
    case Scale => q.(scale := p.scale)
    case UseFirstPageNumber => q.(useFirstPageNumber := p.useFirstPageNumber)
    case UsePrinterDefaults => q.(usePrinterDefaults := p.usePrinterDefaults)
  }

  // ---------------------------------------------------------------------
  // Writing
  // ---------------------------------------------------------------------

  function OrientationName(o: Orientation): string {
    match o
    case OrientationNone => "None"
    case Portrait => "Portrait"
    case Landscape => "Landscape"
  }

  /** The attribute name of each setting. */
  function NameOf(s: Setting): string {
    match s
    case BlackAndWhite => "blackAndWhite"
    case Copies => "copies"
    case Draft => "draft"
    case FirstPageNumber => "firstPageNumber"
    case FitToHeight => "fitToHeight"
    case FitToWidth => "fitToWidth"
    case HorizontalDpi => "horizontalDpi"
    case VerticalDpi => "verticalDpi"
    case OrientationSetting => "orientation"
    case PaperSize => "paperSize"
    case RelationshipId => "id"
    case Scale => "scale"
    case UseFirstPageNumber => "useFirstPageNumber"
    case UsePrinterDefaults => "usePrinterDefaults"
  }

  /** The text of a written boolean. */
  function FlagText(b: bool): string {
    if b then "1" else "0"
  }

  /**
   * The attribute value written for one setting, if any: only a value other
   * than the default is written, booleans as "1", numbers as decimal text, the
   * orientation as its camel-cased member name. As written, the scale is left
   * out when it is 400, and the relationship id is written whenever it is
   * not "" (a null one as an empty value); corrected, the scale is left out
   * at 100 and a null or empty id is not written.
   */
  function ValueOf(p: PageSetup, s: Setting, asWritten: bool): Option<string> {
    match s
    case BlackAndWhite => if p.blackAndWhite then Some(FlagText(true)) else None
    case Copies => if p.copies > 1 then Some(IntToString(p.copies)) else None
    case Draft => if p.draft then Some(FlagText(true)) else None
    case FirstPageNumber => if p.firstPageNumber > 1 then Some(IntToString(p.firstPageNumber)) else None
    case FitToHeight => if p.fitToHeight > -1 then Some(IntToString(p.fitToHeight)) else None
    case FitToWidth => if p.fitToWidth > -1 then Some(IntToString(p.fitToWidth)) else None
    case HorizontalDpi => if p.horizontalDpi != 600 then Some(IntToString(p.horizontalDpi)) else None
    case VerticalDpi => if p.verticalDpi != 600 then Some(IntToString(p.verticalDpi)) else None
    case OrientationSetting =>
      if p.orientation != Portrait then ToCamelCase(Some(OrientationName(p.orientation))) else None
    case PaperSize => if p.paperSize != 9 then Some(IntToString(p.paperSize)) else None
    case RelationshipId =>
      if asWritten then (if p.relationshipId != Some("") then Some(if p.relationshipId.None? then "" else p.relationshipId.value) else None)
      else if !NullOrEmpty(p.relationshipId) then p.relationshipId else None
    case Scale => if p.scale != (if asWritten then 400 else 100) then Some(IntToString(p.scale)) else None
    case UseFirstPageNumber => if p.useFirstPageNumber then Some(FlagText(true)) else None
    case UsePrinterDefaults => if p.usePrinterDefaults then Some(FlagText(true)) else None
  }

  function AttributeOf(p: PageSetup, s: Setting, asWritten: bool): Option<(string, string)> {
    match ValueOf(p, s, asWritten)
    case Some(v) => Some((NameOf(s), v))
    case None => None
  }

  /** The attributes written for the settings `settings`, in their order. */
  function AttributesOf(p: PageSetup, settings: seq<Setting>, asWritten: bool): seq<(string, string)>
    decreases |settings|
  {
    if settings == [] then []
    else
      (match AttributeOf(p, settings[0], asWritten) case Some(a) => [a] case None => [])
      + AttributesOf(p, settings[1..], asWritten)
  }

  /** As written: the element is written under the as-written test, with the as-written attribute tests. */
  function WrittenAttributesAsWritten(p: PageSetup): seq<(string, string)> {
    if HasValueAsWritten(p) then AttributesOf(p, WriteOrder, true) else []
  }

  /** Corrected: nothing is written without a value, and a scale of 100 is left out. */
  function WrittenAttributes(p: PageSetup): seq<(string, string)> {
    if HasValue(p) then AttributesOf(p, WriteOrder, false) else []
  }

  // ---------------------------------------------------------------------
  // Reading
  // ---------------------------------------------------------------------

  /** The setting an attribute name stands for; there is none for an unknown name. */
  function SettingNamed(name: string): (r: Option<Setting>)
    ensures r.Some? ==> NameOf(r.value) == name
  {
    if name == "blackAndWhite" then Some(BlackAndWhite)
    else if name == "copies" then Some(Copies)
    else if name == "draft" then Some(Draft)
    else if name == "firstPageNumber" then Some(FirstPageNumber)
    else if name == "fitToHeight" then Some(FitToHeight)
    else if name == "fitToWidth" then Some(FitToWidth)
    else if name == "horizontalDpi" then Some(HorizontalDpi)
    else if name == "verticalDpi" then Some(VerticalDpi)
    else if name == "id" then Some(RelationshipId)
    else if name == "orientation" then Some(OrientationSetting)
    else if name == "paperSize" then Some(PaperSize)
    else if name == "scale" then Some(Scale)
    else if name == "useFirstPageNumber" then Some(UseFirstPageNumber)
    else if name == "usePrinterDefaults" then Some(UsePrinterDefaults)
    else None
  }

  /** Every setting is found again by its name. */
  lemma SettingNamedOf(s: Setting)
    ensures SettingNamed(NameOf(s)) == Some(s)
  {
    match s
    case BlackAndWhite =>
    case Copies =>
    case Draft =>
    case FirstPageNumber =>
    case FitToHeight =>
    case FitToWidth =>
    case HorizontalDpi =>
    case VerticalDpi =>
    case OrientationSetting =>
    case PaperSize =>
    case RelationshipId =>
    case Scale =>
    case UseFirstPageNumber =>
    case UsePrinterDefaults =>
  }

  /** The settings whose attribute holds an integer. */
  predicate IsNumeric(s: Setting) {
    s.Copies? || s.FirstPageNumber? || s.FitToHeight? || s.FitToWidth? || s.HorizontalDpi?
    || s.VerticalDpi? || s.PaperSize? || s.Scale?
  }

  /**
   * An integer applied to a numeric setting through its setter; a negative
   * width goes through the setter as written and resets the height.
   */
  function ApplyNumber(p: PageSetup, s: Setting, v: int): (r: PageSetup)
    requires IsNumeric(s)
    ensures WellFormed(p) ==> WellFormed(r)
    ensures !(s == FitToWidth && v < 0) ==> CopySetting(p, r, s) == r
    ensures s == FitToWidth && v < 0 ==> r == p.(fitToHeight := -1)
  {
    match s
    case Copies => var r := SetCopies(p, v); assert CopySetting(p, r, s) == r.(copies := r.copies); r
    case FirstPageNumber => var r := SetFirstPageNumber(p, v); assert CopySetting(p, r, s) == p.(firstPageNumber := r.firstPageNumber); r
    case FitToHeight => var r := SetFitToHeight(p, v); assert CopySetting(p, r, s) == p.(fitToHeight := r.fitToHeight); r
    case FitToWidth => SetFitToWidthAsWritten(p, v)
    case HorizontalDpi => var r := SetHorizontalDpi(p, v); assert CopySetting(p, r, s) == p.(horizontalDpi := r.horizontalDpi); r
    case VerticalDpi => var r := SetVerticalDpi(p, v); assert CopySetting(p, r, s) == p.(verticalDpi := r.verticalDpi); r
    case PaperSize => p.(paperSize := v)
    case Scale => var r := SetScale(p, v); assert CopySetting(p, r, s) == p.(scale := r.scale); r
  }

  /**
   * Text applied to any other setting: booleans are true only for "1", and
   * an orientation other than "landscape" or "portrait" is ignored.
   */
  function ApplyText(p: PageSetup, s: Setting, value: string): (r: PageSetup)
    requires !IsNumeric(s)
    ensures WellFormed(p) ==> WellFormed(r)
    ensures CopySetting(p, r, s) == r
  {
    match s
    case BlackAndWhite => p.(blackAndWhite := value == "1")
    case Draft => p.(draft := value == "1")
    case OrientationSetting =>
      if value == "landscape" then SetOrientation(p, Landscape)
      else if value == "portrait" then SetOrientation(p, Portrait)
      else p
    case RelationshipId => p.(relationshipId := Some(value))
    case UseFirstPageNumber => p.(useFirstPageNumber := value == "1")
    case UsePrinterDefaults => p.(usePrinterDefaults := value == "1")
  }

  /** A value applied to one setting; a numeric setting fails on text that is not an integer. */
  function ApplySetting(p: PageSetup, s: Setting, value: string): (r: Result<PageSetup>)
    ensures r.Err? <==> IsNumeric(s) && ParseInt(value).Err?
    ensures WellFormed(p) && r.Ok? ==> WellFormed(r.value)
  {
    if IsNumeric(s) then
      var v :- ParseInt(value);
      Ok(ApplyNumber(p, s, v))
    else Ok(ApplyText(p, s, value))
  }

  /** One attribute applied as the reader does; an attribute of an unknown name fails. */
  function ApplyAttribute(p: PageSetup, attribute: (string, string)): (r: Result<PageSetup>)
    ensures WellFormed(p) && r.Ok? ==> WellFormed(r.value)
    ensures SettingNamed(attribute.0).None? ==> r.Err?
  {
    match SettingNamed(attribute.0)
    case None => Err(Failure("PageSetup attribute " + attribute.0 + " not coded"))
    case Some(s) => ApplySetting(p, s, attribute.1)
  }

  /** The attributes applied in order over `p`; the first failure ends the read. */
  function ReadOver(p: PageSetup, attributes: seq<(string, string)>): Result<PageSetup>
    decreases |attributes|
  {
    if attributes == [] then Ok(p)
    else
      match ApplyAttribute(p, attributes[0])
      case Err(e) => Err(e)
      case Ok(q) => ReadOver(q, attributes[1..])
  }

  /** Reading a page setup element: its attributes applied over a new page setup. */
  method ReadPageSetup(attributes: seq<(string, string)>) returns (r: Result<PageSetup>)
    ensures r == ReadOver(Default, attributes)
    ensures r.Ok? ==> WellFormed(r.value)
  {
    var p := Default;
    var k := 0;
    while k < |attributes|
      invariant 0 <= k <= |attributes|
      invariant WellFormed(p)
      invariant ReadOver(p, attributes[k..]) == ReadOver(Default, attributes)
    {
      assert attributes[k..][0] == attributes[k] && attributes[k..][1..] == attributes[k + 1..];
      var applied := ApplyAttribute(p, attributes[k]);
      if applied.Err? {
        return Err(applied.error);
      }
      p := applied.value;
      k := k + 1;
    }
    r := Ok(p);
  }

  /** An attribute of unknown name fails the read wherever it stands. */
  lemma {:induction false} UnknownAttributeFails(p: PageSetup, attributes: seq<(string, string)>, k: int)
    requires 0 <= k < |attributes| && SettingNamed(attributes[k].0).None?
    ensures ReadOver(p, attributes).Err?
    decreases k
  {
    if k > 0 && ApplyAttribute(p, attributes[0]).Ok? {
      var q := ApplyAttribute(p, attributes[0]).value;
      assert attributes[1..][k - 1] == attributes[k];
      UnknownAttributeFails(q, attributes[1..], k - 1);
    }
  }

  // ---------------------------------------------------------------------
  // Round trip
  // ---------------------------------------------------------------------

  /**
   * What reading back the attributes of a page setup restores: the page
   * setup itself, except that the writer as written turns a null
   * relationship id into an empty one.
   */
  function ReadBack(p: PageSetup, asWritten: bool): (r: PageSetup)
    ensures WellFormed(p) ==> WellFormed(r)
    ensures forall s :: s != RelationshipId ==> Get(r, s) == Get(p, s)
  {
    if asWritten && p.relationshipId.None? then p.(relationshipId := Some("")) else p
  }

  /** The written forms of a page setup the reader takes back (a scale of 400 is not written as written). */
  predicate Readable(p: PageSetup, asWritten: bool) {
    WellFormed(p) && p.relationshipId != Some("") && (asWritten ==> p.scale != 400)
  }

  /**
   * Reading back one written setting over a page setup that still holds the
   * default for it restores that setting; a setting that is not written
   * holds its default.
   */
  lemma ReadSetting(q: PageSetup, p: PageSetup, s: Setting, asWritten: bool)
    requires Readable(p, asWritten)
    requires Get(q, s) == Get(Default, s)
    ensures ValueOf(p, s, asWritten).Some? ==>
      ApplyAttribute(q, (NameOf(s), ValueOf(p, s, asWritten).value)) == Ok(CopySetting(q, ReadBack(p, asWritten), s))
    ensures ValueOf(p, s, asWritten).None? ==> Get(ReadBack(p, asWritten), s) == Get(Default, s)
  {
    SettingNamedOf(s);
    if IsNumeric(s) {
      ReadNumber(q, p, s, asWritten);
      UnwrittenNumber(p, s, asWritten);
    } else {
      ReadText(q, p, s, asWritten);
    }
  }

  /** A written integer read back into its numeric setting. */
  lemma ReadNumber(q: PageSetup, p: PageSetup, s: Setting, asWritten: bool)
    requires IsNumeric(s) && Readable(p, asWritten) && Get(q, s) == Get(Default, s)
    ensures ValueOf(p, s, asWritten).Some? ==>
      ApplySetting(q, s, ValueOf(p, s, asWritten).value) == Ok(CopySetting(q, ReadBack(p, asWritten), s))
  {
    match s
    case Copies => ParseIntToString(p.copies);
    case FirstPageNumber => ParseIntToString(p.firstPageNumber);
    case FitToHeight => ParseIntToString(p.fitToHeight);
    case FitToWidth => ParseIntToString(p.fitToWidth);
    case HorizontalDpi => ParseIntToString(p.horizontalDpi);
    case VerticalDpi => ParseIntToString(p.verticalDpi);
    case PaperSize => ParseIntToString(p.paperSize);
    case Scale => ParseIntToString(p.scale);
  }

  /** A numeric setting that is not written holds its default. */
  lemma UnwrittenNumber(p: PageSetup, s: Setting, asWritten: bool)
    requires IsNumeric(s) && Readable(p, asWritten)
    ensures ValueOf(p, s, asWritten).None? ==> Get(ReadBack(p, asWritten), s) == Get(Default, s)
  {
  }

  /** A written flag, orientation or relationship id read back into its setting. */
  lemma ReadText(q: PageSetup, p: PageSetup, s: Setting, asWritten: bool)
    requires !IsNumeric(s) && Readable(p, asWritten) && Get(q, s) == Get(Default, s)
    ensures ValueOf(p, s, asWritten).Some? ==>
      ApplySetting(q, s, ValueOf(p, s, asWritten).value) == Ok(CopySetting(q, ReadBack(p, asWritten), s))
    ensures ValueOf(p, s, asWritten).None? ==> Get(ReadBack(p, asWritten), s) == Get(Default, s)
  {
    match s
    case OrientationSetting => ReadOrientation(q, p, asWritten);
    case RelationshipId =>
    case _ => ReadFlag(q, p, s, asWritten);
  }

  /** A written orientation read back into its setting. */
  lemma ReadOrientation(q: PageSetup, p: PageSetup, asWritten: bool)
    requires Readable(p, asWritten) && q.orientation == Default.orientation
    ensures ValueOf(p, OrientationSetting, asWritten).Some? ==>
      ApplySetting(q, OrientationSetting, ValueOf(p, OrientationSetting, asWritten).value) == Ok(CopySetting(q, ReadBack(p, asWritten), OrientationSetting))
    ensures ValueOf(p, OrientationSetting, asWritten).None? ==> ReadBack(p, asWritten).orientation == Default.orientation
  {
    if p.orientation == Landscape {
      assert ToCamelCase(Some("Landscape")).value == "landscape";
      assert ValueOf(p, OrientationSetting, asWritten) == Some("landscape");
      assert ApplySetting(q, OrientationSetting, "landscape") == Ok(q.(orientation := Landscape));
    }
  }

  /** A written flag read back into its setting. */
  lemma ReadFlag(q: PageSetup, p: PageSetup, s: Setting, asWritten: bool)
    requires s.BlackAndWhite? || s.Draft? || s.UseFirstPageNumber? || s.UsePrinterDefaults?
    requires Readable(p, asWritten) && Get(q, s) == Get(Default, s)
    ensures ValueOf(p, s, asWritten).Some? ==>
      ApplySetting(q, s, ValueOf(p, s, asWritten).value) == Ok(CopySetting(q, ReadBack(p, asWritten), s))
    ensures ValueOf(p, s, asWritten).None? ==> Get(ReadBack(p, asWritten), s) == Get(Default, s)
  {
  }

  /**
   * Reading back the attributes written for distinct settings, over a page
   * setup that holds the default for each of them, takes on exactly those
   * settings of what is read back.
   */
  lemma {:induction false} ReadSettings(q: PageSetup, p: PageSetup, settings: seq<Setting>, asWritten: bool) returns (r: PageSetup)
    requires Readable(p, asWritten)
    requires forall i, j :: 0 <= i < j < |settings| ==> settings[i] != settings[j]
    requires forall s :: s in settings ==> Get(q, s) == Get(Default, s)
    ensures ReadOver(q, AttributesOf(p, settings, asWritten)) == Ok(r)
    ensures forall s :: s in settings ==> Get(r, s) == Get(ReadBack(p, asWritten), s)
    ensures forall s :: s !in settings ==> Get(r, s) == Get(q, s)
    decreases |settings|
  {
    var b := ReadBack(p, asWritten);
    if settings == [] {
      r := q;
    } else {
      var s := settings[0];
      ReadSetting(q, p, s, asWritten);
      var q' := if ValueOf(p, s, asWritten).Some? then CopySetting(q, b, s) else q;
      forall t | t in settings[1..]
        ensures Get(q', t) == Get(Default, t)
      {
        var i :| 0 <= i < |settings[1..]| && settings[1..][i] == t;
        assert settings[i + 1] == t;
      }
      r := ReadSettings(q', p, settings[1..], asWritten);
      var head := match AttributeOf(p, s, asWritten) case Some(a) => [a] case None => [];
      var tail := AttributesOf(p, settings[1..], asWritten);
      assert AttributesOf(p, settings, asWritten) == head + tail;
      if ValueOf(p, s, asWritten).Some? {
        assert (head + tail)[0] == (NameOf(s), ValueOf(p, s, asWritten).value) && (head + tail)[1..] == tail;
      } else {
        assert head + tail == tail;
      }
      forall t | t in settings
        ensures Get(r, t) == Get(b, t)
      {
        if t != s {
          var i :| 0 <= i < |settings| && settings[i] == t;
          assert settings[1..][i - 1] == t;
        }
      }
    }
  }

  /** Every setting is written in its turn. */
  lemma InWriteOrder(s: Setting)
    ensures s in WriteOrder
  {
    match s
    case BlackAndWhite => assert WriteOrder[0] == s;
    case Copies => assert WriteOrder[1] == s;
    case Draft => assert WriteOrder[2] == s;
    case FirstPageNumber => assert WriteOrder[3] == s;
    case FitToHeight => assert WriteOrder[4] == s;
    case FitToWidth => assert WriteOrder[5] == s;
    case HorizontalDpi => assert WriteOrder[6] == s;
    case VerticalDpi => assert WriteOrder[7] == s;
    case OrientationSetting => assert WriteOrder[8] == s;
    case PaperSize => assert WriteOrder[9] == s;
    case RelationshipId => assert WriteOrder[10] == s;
    case Scale => assert WriteOrder[11] == s;
    case UseFirstPageNumber => assert WriteOrder[12] == s;
    case UsePrinterDefaults => assert WriteOrder[13] == s;
  }

  /** All the settings written in order are read back into what ReadBack says. */
  lemma ReadAllSettings(p: PageSetup, asWritten: bool)
    requires Readable(p, asWritten)
    ensures ReadOver(Default, AttributesOf(p, WriteOrder, asWritten)) == Ok(ReadBack(p, asWritten))
  {
    forall s | true
      ensures s in WriteOrder
    {
      InWriteOrder(s);
    }
    var r := ReadSettings(Default, p, WriteOrder, asWritten);
    SameSettings(r, ReadBack(p, asWritten));
  }

  /** Corrected, reading back what was written for a well-formed page setup gives the page setup itself. */
  lemma ReadWrittenRoundTrip(p: PageSetup)
    requires WellFormed(p) && p.relationshipId != Some("")
    ensures ReadOver(Default, WrittenAttributes(p)) == Ok(p)
  {
    if HasValue(p) {
      ReadAllSettings(p, false);
    } else {
      HasValueIffChanged(p);
    }
  }

  /**
   * As written, reading back what was written for a well-formed page setup
   * whose scale is not 400 gives the page setup itself, but with an empty
   * relationship id where it had none.
   */
  lemma ReadWrittenRoundTripAsWritten(p: PageSetup)
    requires WellFormed(p) && p.relationshipId != Some("") && p.scale != 400
    ensures ReadOver(Default, WrittenAttributesAsWritten(p)) == Ok(ReadBack(p, true))
    ensures p.relationshipId.None? ==> ReadOver(Default, WrittenAttributesAsWritten(p)) == Ok(p.(relationshipId := Some("")))
  {
    ReadAllSettings(p, true);
  }

  /**
   * As written, a new page setup set to a scale of 400 is written with the
   * empty relationship id as its only attribute, so what is read back has
   * the scale of a new page setup, 100.
   */
  lemma ScaleLostAsWritten()
    ensures var p := Default.(scale := 400);
      WellFormed(p) && WrittenAttributesAsWritten(p) == [("id", "")] &&
      ReadOver(Default, WrittenAttributesAsWritten(p)) == Ok(Default.(relationshipId := Some("")))
  {
    var p := Default.(scale := 400);
    assert AttributesOf(p, WriteOrder, true) == [("id", "")] by {
      var before, after := WriteOrder[..10], WriteOrder[11..];
      WriteOrderAroundId();
      OthersUnwritten(p, before + after);
      NothingWrittenSplit(p, before, [RelationshipId], after);
      IdAttribute(p);
    }
    assert HasValueAsWritten(p);
    EmptyIdRead();
  }

  /** The relationship id is written once, between the paper size and the scale. */
  lemma WriteOrderAroundId()
    ensures WriteOrder == WriteOrder[..10] + [RelationshipId] + WriteOrder[11..]
    ensures RelationshipId !in WriteOrder[..10] + WriteOrder[11..]
  {
    assert WriteOrder[..10] + WriteOrder[11..] == [BlackAndWhite, Copies, Draft, FirstPageNumber, FitToHeight, FitToWidth,
      HorizontalDpi, VerticalDpi, OrientationSetting, PaperSize, Scale, UseFirstPageNumber, UsePrinterDefaults];
  }

  /** Of a new page setup set to a scale of 400, nothing but the relationship id is written. */
  lemma OthersUnwritten(p: PageSetup, settings: seq<Setting>)
    requires p == Default.(scale := 400) && RelationshipId !in settings
    ensures forall s :: s in settings ==> ValueOf(p, s, true).None?
  {
  }

  lemma IdAttribute(p: PageSetup)
    requires p.relationshipId.None?
    ensures AttributesOf(p, [RelationshipId], true) == [("id", "")]
  {
    assert [RelationshipId][1..] == [];
  }

  lemma EmptyIdRead()
    ensures ReadOver(Default, [("id", "")]) == Ok(Default.(relationshipId := Some("")))
  {
    SettingNamedOf(RelationshipId);
    assert [("id", "")][1..] == [];
  }

  /** Settings none of which is written give no attributes. */
  lemma {:induction false} NothingWritten(p: PageSetup, settings: seq<Setting>, asWritten: bool)
    requires forall s :: s in settings ==> ValueOf(p, s, asWritten).None?
    ensures AttributesOf(p, settings, asWritten) == []
    decreases |settings|
  {
    if settings != [] {
      assert settings[0] in settings;
      NothingWritten(p, settings[1..], asWritten);
    }
  }

  /** The attributes of settings joined one after another are joined the same way. */
  lemma {:induction false} AttributesAppend(p: PageSetup, a: seq<Setting>, b: seq<Setting>, asWritten: bool)
    ensures AttributesOf(p, a + b, asWritten) == AttributesOf(p, a, asWritten) + AttributesOf(p, b, asWritten)
    decreases |a|
  {
    if a == [] {
      assert a + b == b;
    } else {
      assert (a + b)[0] == a[0] && (a + b)[1..] == a[1..] + b;
      AttributesAppend(p, a[1..], b, asWritten);
    }
  }

  /** Only the middle settings write anything: the attributes are theirs. */
  lemma NothingWrittenSplit(p: PageSetup, a: seq<Setting>, m: seq<Setting>, b: seq<Setting>)
    requires forall s :: s in a + b ==> ValueOf(p, s, true).None?
    ensures AttributesOf(p, a + m + b, true) == AttributesOf(p, m, true)
  {
    NothingWritten(p, a, true);
    NothingWritten(p, b, true);
    AttributesAppend(p, a + m, b, true);
    AttributesAppend(p, a, m, true);
  }
}
