/** Cell alignment: horizontal and vertical placement and text wrapping. */
module Alignments {
  import opened Wrappers
  import opened Helpers

  /** Horizontal codes 0 (General) to 7 (Distributed), in declaration order. */
  const HorizontalNames: seq<string> :=
    ["General", "Left", "Center", "Right", "Fill", "Justify", "CenterContinuous", "Distributed"]

  /** Vertical codes 0 (Bottom) to 4 (Distributed), in declaration order. */
  const VerticalNames: seq<string> := ["Bottom", "Top", "Center", "Justify", "Distributed"]

  /** The setters store any code: no check that it names a member. */
  datatype Alignment = Alignment(wrapText: bool, horizontal: int, vertical: int)

  /** The constructor's defaults: no wrapping, General, Bottom. */
  const DefaultAlignment: Alignment := Alignment(false, 0, 0)

  function SetWrapText(a: Alignment, v: bool): (r: Alignment)
    ensures r.wrapText == v && r.horizontal == a.horizontal && r.vertical == a.vertical
  {
    a.(wrapText := v)
  }

  function SetHorizontal(a: Alignment, v: int): (r: Alignment)
    ensures r.horizontal == v && r.wrapText == a.wrapText && r.vertical == a.vertical
  {
    a.(horizontal := v)
  }

  function SetVertical(a: Alignment, v: int): (r: Alignment)
    ensures r.vertical == v && r.wrapText == a.wrapText && r.horizontal == a.horizontal
  {
    a.(vertical := v)
  }

  /** Alignment equality: horizontal, vertical and wrap. */
  predicate AlignmentsEqual(a: Alignment, b: Alignment)
  {
    b.horizontal == a.horizontal && b.vertical == a.vertical && b.wrapText == a.wrapText
  }

  /** Alignment equality is value equality, since an alignment carries no id. */
  lemma AlignmentsEqualIsIdentity(a: Alignment, b: Alignment)
    ensures AlignmentsEqual(a, b) <==> a == b
  {
  }

  /** The name Enum.ToString gives a code: the member name, or the number when no member has that code. */
  function EnumName(names: seq<string>, code: int): string
  {
    if 0 <= code < |names| then names[code]
    else if code >= 0 then NatToString(code)
    else "-" + NatToString(-code)
  }

  /**
   * The attributes written for an alignment: wrapText as "1" only when set,
   * horizontal and vertical only when their code is positive, as camel-cased
   * member names.
   */
  function WrittenAttributes(a: Alignment): seq<(string, string)>
  {
    (if a.wrapText then [("wrapText", "1")] else []) +
    (if a.horizontal > 0 then [("horizontal", ToCamelCase(Some(EnumName(HorizontalNames, a.horizontal))).value)] else []) +
    (if a.vertical > 0 then [("vertical", ToCamelCase(Some(EnumName(VerticalNames, a.vertical))).value)] else [])
  }

  predicate Names(attributes: seq<(string, string)>, name: string) {
    exists i :: 0 <= i < |attributes| && attributes[i].0 == name
  }

  /** Default-valued parts are not written; every other part is. */
  lemma WrittenAttributesOmitDefaults(a: Alignment)
    ensures a == DefaultAlignment ==> WrittenAttributes(a) == []
    ensures Names(WrittenAttributes(a), "wrapText") <==> a.wrapText
    ensures Names(WrittenAttributes(a), "horizontal") <==> a.horizontal > 0
    ensures Names(WrittenAttributes(a), "vertical") <==> a.vertical > 0
  {
    var w := if a.wrapText then [("wrapText", "1")] else [];
    var h := if a.horizontal > 0 then [("horizontal", ToCamelCase(Some(EnumName(HorizontalNames, a.horizontal))).value)] else [];
    var v := if a.vertical > 0 then [("vertical", ToCamelCase(Some(EnumName(VerticalNames, a.vertical))).value)] else [];
    var r := w + h + v;
    assert r == WrittenAttributes(a);
    assert forall i :: 0 <= i < |r| ==> r[i] in w || r[i] in h || r[i] in v;
    if a.wrapText { assert r[0] == w[0]; }
    if a.horizontal > 0 { assert r[|w|] == h[0]; }
    if a.vertical > 0 { assert r[|w| + |h|] == v[0]; }
  }

  /** Member names paired with their codes 0, 1, 2, ... */
  function Pairs(names: seq<string>): (r: seq<(int, string)>)
    ensures |r| == |names|
    ensures forall i :: 0 <= i < |r| ==> r[i] == (i, names[i])
  {
    seq(|names|, i requires 0 <= i < |names| => (i, names[i]))
  }

  /** One attribute applied as the reader does: the boolean "1", or a case-sensitive member name. */
  function ApplyAttribute(a: Alignment, attribute: (string, string)): Alignment
  {
    var (name, value) := attribute;
    if name == "wrapText" then SetWrapText(a, value == "1")
    else if name == "horizontal" then SetHorizontal(a, EnumValueFromDescription(Pairs(HorizontalNames), value))
    else if name == "vertical" then SetVertical(a, EnumValueFromDescription(Pairs(VerticalNames), value))
    else a
  }

  /** The alignment read from a list of attributes, applied in order over a blank alignment. */
  function AlignmentFromAttributes(attributes: seq<(string, string)>): Alignment
  {
    if attributes == [] then DefaultAlignment
    else ApplyAttribute(AlignmentFromAttributes(attributes[..|attributes| - 1]), attributes[|attributes| - 1])
  }

  method ReadAlignment(attributes: seq<(string, string)>) returns (a: Alignment)
    ensures a == AlignmentFromAttributes(attributes)
  {
    a := DefaultAlignment;
    var i := 0;
    while i < |attributes|
      invariant 0 <= i <= |attributes|
      invariant a == AlignmentFromAttributes(attributes[..i])
    {
      assert attributes[..i + 1][..i] == attributes[..i];
      var (name, value) := attributes[i];
      if name == "wrapText" {
        a := SetWrapText(a, value == "1");
      } else if name == "horizontal" {
        var code := GetEnumValueFromDescription(Pairs(HorizontalNames), value);
        a := SetHorizontal(a, code);
      } else if name == "vertical" {
        var code := GetEnumValueFromDescription(Pairs(VerticalNames), value);
        a := SetVertical(a, code);
      }
      i := i + 1;
    }
    assert attributes[..i] == attributes;
  }

  /**
   * Writing emits camel-cased names ("center") while reading matches member
   * names case-sensitively ("Center"): a centred alignment reads back as General.
   */
  lemma ReadAfterWriteLosesHorizontal()
    ensures WrittenAttributes(Alignment(false, 2, 0)) == [("horizontal", "center")]
    ensures AlignmentFromAttributes(WrittenAttributes(Alignment(false, 2, 0))) == DefaultAlignment
  {
    var attrs := [("horizontal", "center")];
    assert "Center"[1..] == "enter";
    assert ToCamelCase(Some("Center")).value == "center";
    assert attrs[..0] == [];
    var pairs := Pairs(HorizontalNames);
    assert forall j :: 0 <= j < |pairs| ==> pairs[j].1 != "center" by {
      assert pairs == [(0, "General"), (1, "Left"), (2, "Center"), (3, "Right"), (4, "Fill"), (5, "Justify"),
                       (6, "CenterContinuous"), (7, "Distributed")];
    }
  }

  /** Member names that all begin with a capital letter. */
  predicate Capitalised(names: seq<string>) {
    forall i :: 0 <= i < |names| ==> |names[i]| > 0 && 'A' <= names[i][0] <= 'Z'
  }

  /** A written (camel-cased) code never matches a capitalised member name, so the reader falls back to code 0. */
  lemma WrittenNameReadsAsZero(names: seq<string>, code: int)
    requires Capitalised(names)
    ensures EnumValueFromDescription(Pairs(names), ToCamelCase(Some(EnumName(names, code))).value) == 0
  {
    var v := ToCamelCase(Some(EnumName(names, code))).value;
    var pairs := Pairs(names);
    assert forall j :: 0 <= j < |pairs| ==> pairs[j].1 != v;
  }

  lemma AppendAttributeAsWritten(s: seq<(string, string)>, attribute: (string, string))
    ensures AlignmentFromAttributes(s + [attribute]) == ApplyAttribute(AlignmentFromAttributes(s), attribute)
  {
    assert (s + [attribute])[..|s|] == s;
  }

  /**
   * What any alignment reads back as after a write: the wrap-text flag
   * survives, but a written horizontal or vertical code, camel-cased, never
   * matches a member name and reads as 0 (General, Bottom).
   */
  lemma ReadAfterWriteKeepsOnlyWrapText(a: Alignment)
    ensures AlignmentFromAttributes(WrittenAttributes(a)) == Alignment(a.wrapText, 0, 0)
  {
    assert Capitalised(HorizontalNames) && Capitalised(VerticalNames);
    var w := if a.wrapText then [("wrapText", "1")] else [];
    var h := if a.horizontal > 0 then [("horizontal", ToCamelCase(Some(EnumName(HorizontalNames, a.horizontal))).value)] else [];
    var v := if a.vertical > 0 then [("vertical", ToCamelCase(Some(EnumName(VerticalNames, a.vertical))).value)] else [];
    assert WrittenAttributes(a) == w + h + v;
    var a1 := AlignmentFromAttributes(w);
    assert a1 == Alignment(a.wrapText, 0, 0) by {
      if a.wrapText { AppendAttributeAsWritten([], w[0]); assert [] + [w[0]] == w; }
    }
    assert AlignmentFromAttributes(w + h) == Alignment(a.wrapText, 0, 0) by {
      if a.horizontal > 0 {
        AppendAttributeAsWritten(w, h[0]);
        WrittenNameReadsAsZero(HorizontalNames, a.horizontal);
      } else {
        assert w + h == w;
      }
    }
    if a.vertical > 0 {
      AppendAttributeAsWritten(w + h, v[0]);
      WrittenNameReadsAsZero(VerticalNames, a.vertical);
    } else {
      assert w + h + v == w + h;
    }
  }

  function CamelNames(names: seq<string>): (r: seq<string>)
    ensures |r| == |names|
    ensures forall i :: 0 <= i < |r| ==> r[i] == ToCamelCase(Some(names[i])).value
  {
    seq(|names|, i requires 0 <= i < |names| => ToCamelCase(Some(names[i])).value)
  }

  /** The reading the writer evidently expects: member names compared in the camel case they are written in. */
  function ApplyAttributeCorrected(a: Alignment, attribute: (string, string)): Alignment
  {
    var (name, value) := attribute;
    if name == "wrapText" then SetWrapText(a, value == "1")
    else if name == "horizontal" then SetHorizontal(a, EnumValueFromDescription(Pairs(CamelNames(HorizontalNames)), value))
    else if name == "vertical" then SetVertical(a, EnumValueFromDescription(Pairs(CamelNames(VerticalNames)), value))
    else a
  }

  function AlignmentFromAttributesCorrected(attributes: seq<(string, string)>): Alignment
  {
    if attributes == [] then DefaultAlignment
    else ApplyAttributeCorrected(AlignmentFromAttributesCorrected(attributes[..|attributes| - 1]), attributes[|attributes| - 1])
  }

  lemma LookupDistinctName(names: seq<string>, k: int)
    requires NoDuplicates(names) && 0 <= k < |names|
    ensures EnumValueFromDescription(Pairs(names), names[k]) == k
  {
    var pairs := Pairs(names);
    assert IsFirstNamed(pairs, names[k], k);
  }

  predicate NoDuplicates(names: seq<string>) {
    forall i, j :: 0 <= i < j < |names| ==> names[i] != names[j]
  }

  lemma CamelCaseInjective(x: string, y: string)
    requires |x| > 0 && 'A' <= x[0] <= 'Z' && |y| > 0 && 'A' <= y[0] <= 'Z'
    ensures ToCamelCase(Some(x)) == ToCamelCase(Some(y)) ==> x == y
  {
    if ToCamelCase(Some(x)) == ToCamelCase(Some(y)) {
      assert x == [x[0]] + x[1..] && y == [y[0]] + y[1..];
    }
  }

  /** Lower-casing the initial capital keeps distinct member names distinct. */
  lemma CamelNamesDistinct(names: seq<string>)
    requires NoDuplicates(names)
    requires forall i :: 0 <= i < |names| ==> |names[i]| > 0 && 'A' <= names[i][0] <= 'Z'
    ensures NoDuplicates(CamelNames(names))
  {
    forall i, j | 0 <= i < j < |names| ensures CamelNames(names)[i] != CamelNames(names)[j] {
      CamelCaseInjective(names[i], names[j]);
    }
  }

  lemma CamelMemberNamesDistinct()
    ensures NoDuplicates(CamelNames(HorizontalNames)) && NoDuplicates(CamelNames(VerticalNames))
  {
    CamelNamesDistinct(HorizontalNames);
    CamelNamesDistinct(VerticalNames);
  }

  lemma AppendAttribute(s: seq<(string, string)>, attribute: (string, string))
    ensures AlignmentFromAttributesCorrected(s + [attribute]) ==
            ApplyAttributeCorrected(AlignmentFromAttributesCorrected(s), attribute)
  {
    assert (s + [attribute])[..|s|] == s;
  }

  /** With the corrected reading every alignment with defined codes survives a write and a read. */
  lemma ReadAfterWriteCorrected(a: Alignment)
    requires 0 <= a.horizontal < |HorizontalNames| && 0 <= a.vertical < |VerticalNames|
    ensures AlignmentFromAttributesCorrected(WrittenAttributes(a)) == a
  {
    var hNames := CamelNames(HorizontalNames);
    var vNames := CamelNames(VerticalNames);
    var w := if a.wrapText then [("wrapText", "1")] else [];
    var h := if a.horizontal > 0 then [("horizontal", hNames[a.horizontal])] else [];
    var v := if a.vertical > 0 then [("vertical", vNames[a.vertical])] else [];
    assert WrittenAttributes(a) == w + h + v;
    assert AlignmentFromAttributesCorrected(w) == Alignment(a.wrapText, 0, 0) by {
      if a.wrapText { AppendAttribute([], w[0]); assert [] + [w[0]] == w; }
    }
    assert AlignmentFromAttributesCorrected(w + h) == Alignment(a.wrapText, a.horizontal, 0) by {
      if a.horizontal > 0 {
        CorrectedHorizontalStep(w, Alignment(a.wrapText, 0, 0), a.horizontal);
      } else {
        assert w + h == w;
      }
    }
    if a.vertical > 0 {
      CorrectedVerticalStep(w + h, Alignment(a.wrapText, a.horizontal, 0), a.vertical);
    } else {
      assert w + h + v == w + h;
    }
  }

  /** The corrected reader takes a written horizontal name back to its code. */
  lemma CorrectedHorizontalStep(prefix: seq<(string, string)>, before: Alignment, k: int)
    requires AlignmentFromAttributesCorrected(prefix) == before && 0 <= k < |HorizontalNames|
    ensures AlignmentFromAttributesCorrected(prefix + [("horizontal", CamelNames(HorizontalNames)[k])]) == before.(horizontal := k)
  {
    var names := CamelNames(HorizontalNames);
    CamelMemberNamesDistinct();
    LookupDistinctName(names, k);
    AppendAttribute(prefix, ("horizontal", names[k]));
  }

  /** The corrected reader takes a written vertical name back to its code. */
  lemma CorrectedVerticalStep(prefix: seq<(string, string)>, before: Alignment, k: int)
    requires AlignmentFromAttributesCorrected(prefix) == before && 0 <= k < |VerticalNames|
    ensures AlignmentFromAttributesCorrected(prefix + [("vertical", CamelNames(VerticalNames)[k])]) == before.(vertical := k)
  {
    var names := CamelNames(VerticalNames);
    CamelMemberNamesDistinct();
    LookupDistinctName(names, k);
    AppendAttribute(prefix, ("vertical", names[k]));
  }
}
