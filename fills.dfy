/** Fill values: a pattern with foreground and background colours. */
module Fills {
  import opened Wrappers
  import opened Colors

  /** Pattern codes 0 (None) to 18 (Gray0625). */
  const PatternNone: int := 0
  const PatternSolid: int := 1
  const PatternCount: int := 19

  predicate IsPatternType(code: int) {
    0 <= code < PatternCount
  }

  const DefaultFillId: int := 0

  /** A fill; a colour is None until first read, when it materialises as a cleared colour. */
  datatype Fill = Fill(fillId: int, patternType: int, foreground: Option<Color>, background: Option<Color>)

  /** A new fill: Solid pattern, no colours yet. */
  function NewFill(fillId: int): (r: Fill)
    ensures r.fillId == fillId && r.patternType == PatternSolid
  {
    Fill(fillId, PatternSolid, None, None)
  }

  function ForegroundColor(f: Fill): (r: Color)
    ensures f.foreground.None? ==> !IsUsed(r)
  {
    if f.foreground.Some? then f.foreground.value else Cleared
  }

  function BackgroundColor(f: Fill): (r: Color)
    ensures f.background.None? ==> !IsUsed(r)
  {
    if f.background.Some? then f.background.value else Cleared
  }

  /** SetFillProperty for the pattern: an undefined code is ignored. */
  function SetPatternType(f: Fill, code: Option<int>): (r: Fill)
    ensures code.Some? && IsPatternType(code.value) ==> r == f.(patternType := code.value)
    ensures code.None? || !IsPatternType(code.value) ==> r == f
  {
    if code.Some? && IsPatternType(code.value) then f.(patternType := code.value) else f
  }

  /** SetFillProperty for the foreground colour: null is ignored. */
  function SetForeground(f: Fill, c: Option<Color>): (r: Fill)
    ensures c.Some? ==> r == f.(foreground := c)
    ensures c.None? ==> r == f
  {
    if c.Some? then f.(foreground := c) else f
  }

  /** SetFillProperty for the background colour: null is ignored. */
  function SetBackground(f: Fill, c: Option<Color>): (r: Fill)
    ensures c.Some? ==> r == f.(background := c)
    ensures c.None? ==> r == f
  {
    if c.Some? then f.(background := c) else f
  }

  /**
   * UpdateFillProperty for the foreground colour: store it, then switch a
   * None pattern to Solid so the colour shows.
   */
  function UpdateForeground(f: Fill, c: Option<Color>): (r: Fill)
    ensures r.fillId == f.fillId && r.background == f.background
    ensures c.Some? ==> r.foreground == c
    ensures c.None? ==> r.foreground == f.foreground
    ensures f.patternType == PatternNone ==> r.patternType == PatternSolid
    ensures f.patternType != PatternNone ==> r.patternType == f.patternType
  {
    var g := SetForeground(f, c);
    if g.patternType == PatternNone then SetPatternType(g, Some(PatternSolid)) else g
  }

  /** The five-argument constructor: pattern, foreground, background set in turn over a new fill. */
  function FromParts(fillId: int, patternType: Option<int>, foreground: Option<Color>, background: Option<Color>): Fill
  {
    SetBackground(SetForeground(SetPatternType(NewFill(fillId), patternType), foreground), background)
  }

  /** Clone: id -1, the same pattern, clones of both (materialised) colours. */
  function CloneFill(f: Fill): Fill
  {
    FromParts(-1, Some(f.patternType), Some(Clone(ForegroundColor(f))), Some(Clone(BackgroundColor(f))))
  }

  /** Fill equality: pattern type and both colours. */
  predicate FillsEqual(a: Fill, b: Fill)
  {
    b.patternType == a.patternType &&
    ColorsEqual(ForegroundColor(b), ForegroundColor(a)) &&
    ColorsEqual(BackgroundColor(b), BackgroundColor(a))
  }

  /** Fill equality ignores the id and treats a missing colour like a cleared one; it is an equivalence. */
  lemma FillsEqualIsEquivalence(a: Fill, b: Fill, c: Fill)
    ensures FillsEqual(a, a)
    ensures FillsEqual(a, b) ==> FillsEqual(b, a)
    ensures FillsEqual(a, b) && FillsEqual(b, c) ==> FillsEqual(a, c)
    ensures FillsEqual(a, a.(fillId := c.fillId))
  {
    ColorsEqualIsEquivalence(ForegroundColor(a), ForegroundColor(b), ForegroundColor(c));
    ColorsEqualIsEquivalence(BackgroundColor(a), BackgroundColor(b), BackgroundColor(c));
    ColorsEqualIsEquivalence(ForegroundColor(c), ForegroundColor(b), ForegroundColor(a));
    ColorsEqualIsEquivalence(BackgroundColor(c), BackgroundColor(b), BackgroundColor(a));
    ColorsEqualIsEquivalence(ForegroundColor(b), ForegroundColor(a), ForegroundColor(c));
    ColorsEqualIsEquivalence(BackgroundColor(b), BackgroundColor(a), BackgroundColor(c));
  }

  /** A well-formed fill (defined pattern, well-formed or absent colours) is equal to its clone. */
  lemma CloneFillIsEqual(f: Fill)
    requires IsPatternType(f.patternType)
    requires f.foreground.Some? ==> WellFormed(f.foreground.value)
    requires f.background.Some? ==> WellFormed(f.background.value)
    ensures FillsEqual(CloneFill(f), f)
    ensures CloneFill(f).fillId == -1
  {
    var fg := ForegroundColor(f);
    var bg := BackgroundColor(f);
    assert WellFormed(fg) && WellFormed(bg);
    CloneIsExact(fg);
    CloneIsExact(bg);
    ColorsEqualIsEquivalence(fg, fg, fg);
    ColorsEqualIsEquivalence(bg, bg, bg);
  }

  /** Setting a foreground colour on a pattern-less fill makes it Solid, and leaves other patterns alone. */
  lemma ForegroundMakesPatternVisible(f: Fill, c: Color)
    requires IsPatternType(f.patternType)
    ensures IsPatternType(UpdateForeground(f, Some(c)).patternType)
    ensures UpdateForeground(f, Some(c)).patternType != PatternNone
  {
  }

  /** The copy the fill table stores on Insert: the new id, the pattern and both (materialised) colours. */
  function TableCopy(f: Fill, newId: int): (r: Fill)
    ensures r.fillId == newId
    ensures IsPatternType(f.patternType) ==> r.patternType == f.patternType
    ensures ForegroundColor(r) == ForegroundColor(f) && BackgroundColor(r) == BackgroundColor(f)
  {
    FromParts(newId, Some(f.patternType), Some(ForegroundColor(f)), Some(BackgroundColor(f)))
  }

  /** A fill with a defined pattern is equal to its table copy, whatever the new id. */
  lemma TableCopyIsEqual(f: Fill, newId: int)
    requires IsPatternType(f.patternType)
    ensures IsPatternType(TableCopy(f, newId).patternType)
    ensures FillsEqual(TableCopy(f, newId), f)
  {
    ColorsEqualIsEquivalence(ForegroundColor(f), ForegroundColor(f), ForegroundColor(f));
    ColorsEqualIsEquivalence(BackgroundColor(f), BackgroundColor(f), BackgroundColor(f));
  }
}
