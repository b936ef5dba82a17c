/**
 * Font values. A font records which properties were set explicitly, in the
 * order they were first set; only those properties take part in equality.
 */
module Fonts {
  import opened Wrappers
  import opened Colors

  datatype FontProperty = Size | FontColor | Name | Bold | Italic | Underline

  /** A property value as the untyped property bag holds it. */
  datatype FontValue = SizeValue(size: real) | ColorValue(color: Color) | NameValue(name: string) | FlagValue(flag: bool)

  const DefaultFontId: int := 0

  /**
   * The fields of a font. `used` lists the explicitly set properties; the
   * fields of properties not in `used` are ignored. `color` is None while the
   * colour was never materialised.
   */
  datatype Font = Font(fontId: int, used: seq<FontProperty>, size: real, color: Option<Color>,
                       name: Option<string>, bold: bool, italic: bool, underline: bool)

  const EmptyFont: Font := Font(DefaultFontId, [], 0.0, None, None, false, false, false)

  predicate NoDuplicates<T(==)>(s: seq<T>) {
    forall i, j :: 0 <= i < j < |s| ==> s[i] != s[j]
  }

  /** The value a property takes when the setters are given it; the source casts anything else and throws. */
  predicate Matches(p: FontProperty, v: FontValue) {
    match p
    case Size => v.SizeValue?
    case FontColor => v.ColorValue?
    case Name => v.NameValue?
    case _ => v.FlagValue?
  }

  /** First occurrence of `p` removed (List.Remove). */
  function RemoveFirst(s: seq<FontProperty>, p: FontProperty): (r: seq<FontProperty>)
    ensures p !in s ==> r == s
    ensures forall q :: q in r ==> q in s
    ensures forall q :: q != p ==> (q in r <==> q in s)
    ensures NoDuplicates(s) ==> p !in r && NoDuplicates(r)
  {
    if s == [] then []
    else if s[0] == p then
      assert NoDuplicates(s) ==> s[0] !in s[1..];
      s[1..]
    else
      var rest := RemoveFirst(s[1..], p);
      assert NoDuplicates(s) ==> s[0] !in s[1..];
      [s[0]] + rest
  }

  /** The stored value of a property, set or not. */
  function FieldValue(f: Font, p: FontProperty): FontValue
  {
    match p
    case Size => SizeValue(f.size)
    case FontColor => ColorValue(if f.color.Some? then f.color.value else Cleared)
    case Name => NameValue(if f.name.Some? then f.name.value else "")
    case Bold => FlagValue(f.bold)
    case Italic => FlagValue(f.italic)
    case Underline => FlagValue(f.underline)
  }

  /** GetFontProperty: the value of an explicitly set property, None (null) for any other. */
  function GetFontProperty(f: Font, p: FontProperty): (r: Option<FontValue>)
    ensures r.Some? <==> p in f.used
    ensures r.Some? ==> Matches(p, r.value)
  {
    if p in f.used then Some(FieldValue(f, p)) else None
  }

  /** GetFontProperties: the property bag, one entry per explicitly set property. */
  function GetFontProperties(f: Font): (r: map<FontProperty, FontValue>)
    ensures r.Keys == set p | p in f.used
    ensures forall p :: p in r ==> GetFontProperty(f, p) == Some(r[p])
  {
    map p | p in f.used :: FieldValue(f, p)
  }

  /** Whether a value passes the setter's filter: a positive size, a used colour, a non-empty name. */
  predicate Accepted(v: FontValue) {
    match v
    case SizeValue(s) => s > 0.0
    case ColorValue(c) => IsUsed(c)
    case NameValue(n) => n != ""
    case FlagValue(_) => true
  }

  /** The font with property `p`'s field holding `v`; the used list is not touched. */
  function StoreValue(f: Font, p: FontProperty, v: FontValue): (r: Font)
    requires Matches(p, v)
    ensures r.used == f.used && r.fontId == f.fontId
    ensures FieldValue(r, p) == v
    ensures forall q :: q != p ==> FieldValue(r, q) == FieldValue(f, q)
  {
    match v
    case SizeValue(s) => f.(size := s)
    case ColorValue(c) => f.(color := Some(c))
    case NameValue(n) => f.(name := Some(n))
    case FlagValue(b) =>
      if p == Bold then f.(bold := b) else if p == Italic then f.(italic := b) else f.(underline := b)
  }

  /**
   * SetFontProperty: None (null) removes the property from the used list; an
   * accepted value is stored and the property marked used once; a rejected
   * value changes nothing.
   */
  function SetFontProperty(f: Font, p: FontProperty, v: Option<FontValue>): (r: Font)
    requires NoDuplicates(f.used)
    requires v.Some? ==> Matches(p, v.value)
    ensures r.fontId == f.fontId
    ensures v.None? ==> p !in r.used && GetFontProperty(r, p).None?
    ensures v.Some? && !Accepted(v.value) ==> r == f
    ensures v.Some? && Accepted(v.value) ==> GetFontProperty(r, p) == v
    ensures forall q :: q != p ==> GetFontProperty(r, q) == GetFontProperty(f, q)
    ensures NoDuplicates(r.used)
  {
    if v.None? then f.(used := RemoveFirst(f.used, p))
    else if !Accepted(v.value) then f
    else
      var g := StoreValue(f, p, v.value);
      if p in f.used then g
      else
        AppendNew(f.used, p);
        g.(used := f.used + [p])
  }

  /** A property not yet listed can be appended without listing one twice. */
  lemma AppendNew(s: seq<FontProperty>, p: FontProperty)
    requires NoDuplicates(s) && p !in s
    ensures NoDuplicates(s + [p]) && forall q :: q in s + [p] <==> q in s || q == p
  {
  }

  /** Equality of two property values: colours by colour equality, the rest by value. */
  predicate ValuesEqual(a: FontValue, b: FontValue) {
    if a.ColorValue? && b.ColorValue? then ColorsEqual(a.color, b.color) else a == b
  }

  /**
   * Font equality: the property bags have the same size and every entry of
   * this font's bag is present in the other's with an equal value.
   */
  predicate FontsEqual(a: Font, b: Font)
  {
    var pa := GetFontProperties(a);
    var pb := GetFontProperties(b);
    |pa| == |pb| && forall p :: p in pa ==> p in pb && ValuesEqual(pa[p], pb[p])
  }

  lemma {:induction false} SubsetOfEqualSize<T>(a: set<T>, b: set<T>)
    requires a <= b && |a| == |b|
    ensures a == b
  {
    if a != b {
      var x :| x in b && x !in a;
      assert a <= b - {x};
      assert |b - {x}| == |b| - 1;
      SubsetCardinality(a, b - {x});
    }
  }

  lemma {:induction false} SubsetCardinality<T>(a: set<T>, b: set<T>)
    requires a <= b
    ensures |a| <= |b|
  {
    if a != {} {
      var x :| x in a;
      SubsetCardinality(a - {x}, b - {x});
    }
  }

  /** Two fonts are equal exactly when they set the same properties to equal values. */
  lemma FontsEqualMeaning(a: Font, b: Font)
    ensures FontsEqual(a, b) <==>
      (set p | p in a.used) == (set p | p in b.used) &&
      forall p :: p in a.used ==> ValuesEqual(FieldValue(a, p), FieldValue(b, p))
  {
    var pa := GetFontProperties(a);
    var pb := GetFontProperties(b);
    var sa := set p | p in a.used;
    var sb := set p | p in b.used;
    assert pa.Keys == sa && pb.Keys == sb;
    assert |pa| == |sa| && |pb| == |sb|;
    if FontsEqual(a, b) {
      assert sa <= sb;
      SubsetOfEqualSize(sa, sb);
      forall p | p in a.used ensures ValuesEqual(FieldValue(a, p), FieldValue(b, p)) {
        assert p in pa;
      }
    }
    if sa == sb && forall p :: p in a.used ==> ValuesEqual(FieldValue(a, p), FieldValue(b, p)) {
      forall p | p in pa ensures p in pb && ValuesEqual(pa[p], pb[p]) {
        assert p in a.used;
      }
    }
  }

  /** Font equality is an equivalence, which deduplication in the font table relies on. */
  lemma FontsEqualIsEquivalence(a: Font, b: Font, c: Font)
    ensures FontsEqual(a, a)
    ensures FontsEqual(a, b) ==> FontsEqual(b, a)
    ensures FontsEqual(a, b) && FontsEqual(b, c) ==> FontsEqual(a, c)
  {
    FontsEqualMeaning(a, b);
    FontsEqualMeaning(b, a);
    FontsEqualMeaning(b, c);
    FontsEqualMeaning(a, c);
    forall x: Color, y: Color, z: Color
      ensures ColorsEqual(x, y) ==> ColorsEqual(y, x)
      ensures ColorsEqual(x, y) && ColorsEqual(y, z) ==> ColorsEqual(x, z)
    {
      ColorsEqualIsEquivalence(x, y, z);
    }
  }

  /**
   * The font the table builds for a new id: a fresh font with the id whose
   * properties are set from the bag, in the order they were first set.
   */
  function Rebuild(f: Font, newId: int): (r: Font)
    ensures r.fontId == newId && r.used == f.used
    ensures forall p :: GetFontProperty(r, p) == GetFontProperty(f, p)
  {
    Font(newId, f.used,
         if Size in f.used then f.size else 0.0,
         if FontColor in f.used then Some(FieldValue(f, FontColor).color) else None,
         if Name in f.used then Some(FieldValue(f, Name).name) else None,
         Bold in f.used && f.bold, Italic in f.used && f.italic, Underline in f.used && f.underline)
  }

  /** A rebuilt font is equal to the original, whatever its id. */
  lemma RebuildIsEqual(f: Font, newId: int)
    ensures FontsEqual(Rebuild(f, newId), f) && FontsEqual(f, Rebuild(f, newId))
  {
    FontsEqualMeaning(Rebuild(f, newId), f);
    FontsEqualMeaning(f, Rebuild(f, newId));
    forall c: Color ensures ColorsEqual(c, c) { ColorsEqualIsEquivalence(c, c, c); }
  }

  /** Setting a property and then clearing it gives a font equal to one that never had it set. */
  lemma SetThenClearIsEqual(f: Font, p: FontProperty, v: FontValue)
    requires NoDuplicates(f.used) && p !in f.used && Matches(p, v)
    ensures FontsEqual(SetFontProperty(SetFontProperty(f, p, Some(v)), p, None), f)
  {
    var g := SetFontProperty(SetFontProperty(f, p, Some(v)), p, None);
    FontsEqualMeaning(g, f);
    forall q | q in g.used ensures ValuesEqual(FieldValue(g, q), FieldValue(f, q)) {
      assert GetFontProperty(g, q) == GetFontProperty(f, q);
      forall c: Color ensures ColorsEqual(c, c) { ColorsEqualIsEquivalence(c, c, c); }
    }
  }
}
