/**
 * Colour values of the style engine. A colour is sourced from one of four
 * mutually exclusive channels (indexed palette entry, theme entry, RGB
 * string, automatic); a tint may accompany any of them. Setting a channel to
 * a new positive value clears every other channel first.
 */
module Colors {
  import opened Wrappers

  /** The five colour fields. `rgb` is None where the library holds null. Tint is only compared. */
  datatype Color = Color(indexed: int, theme: int, rgb: Option<string>, tint: real, auto: bool)

  /** Every channel cleared: what a default-constructed colour holds. */
  const Cleared: Color := Color(-1, -1, None, 0.0, false)

  /** The fields of a colour made for a range, which skips the reset. */
  const RangeDefault: Color := Color(0, 0, None, 0.0, false)

  predicate NullOrEmpty(s: Option<string>) {
    s.None? || s.value == ""
  }

  /** A colour counts as set when any channel or the tint holds a value. */
  predicate IsUsed(c: Color) {
    c.indexed > -1 || c.theme > -1 || !NullOrEmpty(c.rgb) || c.tint != 0.0 || c.auto
  }

  /** How many of the four exclusive channels hold a value. */
  function ChannelCount(c: Color): (n: nat)
    ensures n <= 4
  {
    (if c.indexed >= 0 then 1 else 0) + (if c.theme >= 0 then 1 else 0) +
    (if !NullOrEmpty(c.rgb) then 1 else 0) + (if c.auto then 1 else 0)
  }

  /**
   * The colours the setters produce when given ordinary arguments (palette
   * and theme numbers of at least -1, a null or non-empty RGB string): at most
   * one channel is in use.
   */
  predicate WellFormed(c: Color) {
    c.indexed >= -1 && c.theme >= -1 && c.rgb != Some("") && ChannelCount(c) <= 1
  }

  function Reset(c: Color): (r: Color)
    ensures !IsUsed(r) && WellFormed(r)
  {
    Cleared
  }

  /** Indexed setter: no change when equal; a value of at least 0 clears the other channels first. */
  function SetIndexed(c: Color, v: int): (r: Color)
    ensures r.indexed == v
    ensures v == c.indexed ==> r == c
    ensures v != c.indexed && v >= 0 ==> r.theme == -1 && r.rgb.None? && r.tint == 0.0 && !r.auto
    ensures v < 0 ==> r.theme == c.theme && r.rgb == c.rgb && r.tint == c.tint && r.auto == c.auto
  {
    if v == c.indexed then c
    else if v >= 0 then Reset(c).(indexed := v)
    else c.(indexed := v)
  }

  /** Theme setter: no change when equal; a value of at least 0 clears the other channels first. */
  function SetTheme(c: Color, v: int): (r: Color)
    ensures r.theme == v
    ensures v == c.theme ==> r == c
    ensures v != c.theme && v >= 0 ==> r.indexed == -1 && r.rgb.None? && r.tint == 0.0 && !r.auto
    ensures v < 0 ==> r.indexed == c.indexed && r.rgb == c.rgb && r.tint == c.tint && r.auto == c.auto
  {
    if v == c.theme then c
    else if v >= 0 then Reset(c).(theme := v)
    else c.(theme := v)
  }

  /** Rgb setter: no change when equal; a non-empty string clears the other channels first. */
  function SetRgb(c: Color, v: Option<string>): (r: Color)
    ensures r.rgb == v
    ensures v == c.rgb ==> r == c
    ensures v != c.rgb && !NullOrEmpty(v) ==> r.indexed == -1 && r.theme == -1 && r.tint == 0.0 && !r.auto
    ensures NullOrEmpty(v) ==> r.indexed == c.indexed && r.theme == c.theme && r.tint == c.tint && r.auto == c.auto
  {
    if v == c.rgb then c
    else if !NullOrEmpty(v) then Reset(c).(rgb := v)
    else c.(rgb := v)
  }

  /** Tint setter: stores the value and touches nothing else. */
  function SetTint(c: Color, v: real): (r: Color)
    ensures r.tint == v
    ensures r.indexed == c.indexed && r.theme == c.theme && r.rgb == c.rgb && r.auto == c.auto
  {
    c.(tint := v)
  }

  /** Auto setter: true clears the other channels first (even when already true). */
  function SetAuto(c: Color, v: bool): (r: Color)
    ensures r.auto == v
    ensures v ==> r.indexed == -1 && r.theme == -1 && r.rgb.None? && r.tint == 0.0
    ensures !v ==> r.indexed == c.indexed && r.theme == c.theme && r.rgb == c.rgb && r.tint == c.tint
  {
    if v then Reset(c).(auto := true) else c.(auto := false)
  }

  /** The five-argument constructor: setters in the order Indexed, Theme, Rgb, Tint, Auto over all-zero fields. */
  function FromFields(indexed: int, theme: int, rgb: Option<string>, tint: real, auto: bool): Color
  {
    var zero := Color(0, 0, None, 0.0, false);
    SetAuto(SetTint(SetRgb(SetTheme(SetIndexed(zero, indexed), theme), rgb), tint), auto)
  }

  /** The copy constructor. */
  function Copy(c: Color): Color
  {
    FromFields(c.indexed, c.theme, c.rgb, c.tint, c.auto)
  }

  /** Clone: a cleared colour, then the setters in the order Auto, Indexed, Rgb, Theme, Tint. */
  function Clone(c: Color): Color
  {
    SetTint(SetTheme(SetRgb(SetIndexed(SetAuto(Cleared, c.auto), c.indexed), c.rgb), c.theme), c.tint)
  }

  /** Equality: two used colours compare all five fields; otherwise both must be unused. */
  predicate ColorsEqual(a: Color, b: Color)
  {
    var aUsed := IsUsed(a);
    var bUsed := IsUsed(b);
    if aUsed && bUsed then
      a.indexed == b.indexed && a.theme == b.theme && a.rgb == b.rgb && a.tint == b.tint && a.auto == b.auto
    else
      aUsed == bUsed
  }

  /** Colour equality, stated without the library's case split. */
  lemma ColorsEqualMeaning(a: Color, b: Color)
    ensures ColorsEqual(a, b) <==> (a == b && IsUsed(a)) || (!IsUsed(a) && !IsUsed(b))
  {
  }

  /** Colour equality is an equivalence, which the style tables rely on to deduplicate. */
  lemma ColorsEqualIsEquivalence(a: Color, b: Color, c: Color)
    ensures ColorsEqual(a, a)
    ensures ColorsEqual(a, b) ==> ColorsEqual(b, a)
    ensures ColorsEqual(a, b) && ColorsEqual(b, c) ==> ColorsEqual(a, c)
  {
  }

  /** A default-constructed colour is unused, equal to every unused colour and to no used one. */
  lemma ClearedColorIsUnused(c: Color)
    ensures !IsUsed(Cleared)
    ensures ColorsEqual(Cleared, c) <==> !IsUsed(c)
  {
  }

  /** The fields of a colour made for a range count as used, although no setter ran. */
  lemma RangeDefaultIsUsed()
    ensures IsUsed(RangeDefault) && !WellFormed(RangeDefault)
  {
  }

  /** Setters given ordinary arguments keep at most one channel in use. */
  lemma SettersKeepWellFormed(c: Color, i: int, rgb: Option<string>, tint: real, auto: bool)
    requires WellFormed(c)
    requires i >= -1 && rgb != Some("")
    ensures WellFormed(SetIndexed(c, i)) && WellFormed(SetTheme(c, i))
    ensures WellFormed(SetRgb(c, rgb)) && WellFormed(SetTint(c, tint)) && WellFormed(SetAuto(c, auto))
  {
  }

  /** Clone reproduces every well-formed colour exactly. */
  lemma {:induction false} CloneIsExact(c: Color)
    requires WellFormed(c)
    ensures Clone(c) == c
  {
    var a := SetAuto(Cleared, c.auto);
    var b := SetIndexed(a, c.indexed);
    var d := SetRgb(b, c.rgb);
    var e := SetTheme(d, c.theme);
    if c.auto {
      assert c.indexed == -1 && c.theme == -1 && c.rgb.None?;
    } else if c.indexed >= 0 {
      assert b == Cleared.(indexed := c.indexed);
    } else if c.theme >= 0 {
      assert d == Cleared.(indexed := c.indexed);
    } else if c.rgb.Some? {
      assert d == Cleared.(rgb := c.rgb);
    }
  }

  /**
   * The copy constructor reproduces a well-formed colour unless Auto is set
   * together with a tint: Auto is applied last and its reset drops the tint.
   */
  lemma {:induction false} CopyIsExact(c: Color)
    requires WellFormed(c) && !(c.auto && c.tint != 0.0)
    ensures Copy(c) == c
  {
    var zero := Color(0, 0, None, 0.0, false);
    var a := SetIndexed(zero, c.indexed);
    var b := SetTheme(a, c.theme);
    var d := SetRgb(b, c.rgb);
    if c.auto {
      assert c.indexed == -1 && c.theme == -1 && c.rgb.None?;
    } else if c.indexed >= 0 {
      assert b.indexed == c.indexed && b.theme == -1;
    } else if c.theme >= 0 {
      assert b == Color(-1, c.theme, None, 0.0, false);
    } else if c.rgb.Some? {
      assert d == Cleared.(rgb := c.rgb);
    }
  }

  /** Where the copy constructor loses information: Auto with a tint. */
  lemma CopyDropsTintUnderAuto()
    ensures Copy(Color(-1, -1, None, 0.5, true)) == Color(-1, -1, None, 0.0, true)
  {
  }

  /** The copy constructor keeps the range colour's fields, Clone does not: the clone differs from it. */
  lemma CloneOfRangeDefault()
    ensures Copy(RangeDefault) == RangeDefault
    ensures Clone(RangeDefault) == Color(-1, 0, None, 0.0, false)
    ensures !ColorsEqual(Clone(RangeDefault), RangeDefault)
  {
  }

  /** A usable #RRGGBB code: non-empty, starting with '#', seven characters long. */
  predicate ValidateRgb(rgb: Option<string>)
  {
    !NullOrEmpty(rgb) && rgb.value[0] == '#' && |rgb.value| == 7
  }

  /** `s` without any occurrence of `ch` (string.Replace with an empty string). */
  function RemoveChar(s: string, ch: char): (r: string)
    ensures ch !in r
    ensures |r| <= |s|
    ensures ch !in s ==> r == s
  {
    if s == [] then []
    else (if s[0] == ch then [] else [s[0]]) + RemoveChar(s[1..], ch)
  }

  /** The stored form "FF" + RRGGBB to "#RRGGBB"; a one-character string makes Substring(2) fail. */
  function ConvertRgbToHtml(rgb: Option<string>): (r: Result<Option<string>>)
    ensures NullOrEmpty(rgb) ==> r == Ok(rgb)
    ensures !NullOrEmpty(rgb) ==> (r.Ok? <==> |rgb.value| >= 2)
    ensures r.Ok? && !NullOrEmpty(rgb) ==> r.value.Some? && |r.value.value| == |rgb.value| - 1
  {
    if NullOrEmpty(rgb) then Ok(rgb)
    else if |rgb.value| < 2 then Err(ArgumentOutOfRange)
    else Ok(Some("#" + rgb.value[2..]))
  }

  /** "#RRGGBB" to the stored form: "FF" in front, every '#' removed. */
  function ConvertHtmlToRgb(html: Option<string>): (r: Option<string>)
    ensures NullOrEmpty(html) ==> r == html
    ensures !NullOrEmpty(html) ==> r.Some? && |r.value| >= 2 && r.value[..2] == "FF" && '#' !in r.value[2..]
  {
    if NullOrEmpty(html) then html
    else Some("FF" + RemoveChar(html.value, '#'))
  }

  /** A valid #RRGGBB code with no other '#' survives the trip to the stored form and back. */
  lemma HtmlRoundTrip(html: string)
    requires ValidateRgb(Some(html)) && '#' !in html[1..]
    ensures ConvertRgbToHtml(ConvertHtmlToRgb(Some(html))) == Ok(Some(html))
  {
    assert html == "#" + html[1..];
    RemoveLeading(html);
  }

  lemma {:induction false} RemoveLeading(html: string)
    requires |html| > 0 && html[0] == '#' && '#' !in html[1..]
    ensures RemoveChar(html, '#') == html[1..]
  {
  }

  /** A stored "FF" form with no '#' survives the trip to #RRGGBB and back. */
  lemma RgbRoundTrip(rgb: string)
    requires |rgb| >= 2 && rgb[..2] == "FF" && '#' !in rgb
    ensures ConvertRgbToHtml(Some(rgb)).Ok?
    ensures ConvertHtmlToRgb(ConvertRgbToHtml(Some(rgb)).value) == Some(rgb)
  {
    var html := "#" + rgb[2..];
    assert html[1..] == rgb[2..];
    RemoveLeading(html);
    assert rgb == "FF" + rgb[2..];
  }
}
