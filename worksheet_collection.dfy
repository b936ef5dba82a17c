/**
 * The workbook's worksheets: a sorted map from sheet index (1-based) to
 * sheet, with the indexers, insertion and deletion that shift the sheets
 * after the index, the clamping of an insert index, the uniquing of a new
 * sheet's name, and the visibility and selection setters that look at the
 * other sheets.
 */
module WorksheetCollections {
  import opened Wrappers
  import opened Helpers
  import opened Shifts
  import W = Worksheets

  datatype Visibility = Visible | Hidden | VeryHidden

  /** A worksheet as the collection sees it: its index, name, visibility and selection flag. */
  datatype Sheet = Sheet(index: int, name: string, visibility: Visibility, selected: bool)

  /** Setting a sheet's index. */
  function MoveSheet(w: Sheet, index: int): (r: Sheet)
    ensures r.index == index
    ensures r.(index := w.index) == w
  {
    w.(index := index)
  }

  lemma MoveSheetRebinds()
    ensures Rebinds(MoveSheet)
  {
    forall x: Sheet, a: int, b: int
      ensures MoveSheet(MoveSheet(x, a), b) == MoveSheet(x, b)
    {
    }
  }

  // ---------------------------------------------------------------------
  // Unique names
  // ---------------------------------------------------------------------

  /** Some existing name equals `name`, ignoring case. */
  predicate Clashes(names: seq<string>, name: string)
  {
    exists i :: 0 <= i < |names| && EqualsIgnoreCase(name, names[i])
  }

  /** The existing names, lower-cased. */
  ghost function LowerNames(names: seq<string>): set<string>
  {
    set i | 0 <= i < |names| :: ToLower(names[i])
  }

  lemma ClashIsLowerName(names: seq<string>, name: string)
    requires Clashes(names, name)
    ensures ToLower(name) in LowerNames(names)
  {
    var i :| 0 <= i < |names| && EqualsIgnoreCase(name, names[i]);
    assert ToLower(names[i]) in LowerNames(names);
  }

  /** The suffix that numbers a repeated name: " (2)", " (3)", ... */
  function VersionSuffix(version: nat): (r: string)
    ensures |r| >= 4 && r[..2] == " (" && r[|r| - 1] == ')'
  {
    " (" + NatToString(version) + ")"
  }

  /** The longest run of digits that ends `s`. */
  function TrailingDigits(s: string): (r: string)
    ensures |r| <= |s| && AllDigits(r)
    decreases |s|
  {
    if s != [] && '0' <= s[|s| - 1] <= '9' then TrailingDigits(s[..|s| - 1]) + [s[|s| - 1]] else []
  }

  /** The number in a trailing "(n)", or -1 when the text does not end that way. */
  function VersionTag(s: string): int
  {
    if |s| > 0 && s[|s| - 1] == ')' then
      var d := TrailingDigits(s[..|s| - 1]);
      if |d| > 0 then DigitsValue(d) else -1
    else -1
  }

  lemma {:induction false} TrailingDigitsAfter(q: string, d: string)
    requires AllDigits(d)
    requires |q| > 0 && !('0' <= q[|q| - 1] <= '9')
    ensures TrailingDigits(q + d) == d
    decreases |d|
  {
    if d == [] {
      assert q + d == q;
    } else {
      var init := d[..|d| - 1];
      TrailingDigitsAfter(q, init);
      assert (q + d)[..|q + d| - 1] == q + init;
      assert init + [d[|d| - 1]] == d;
    }
  }

  /** Lower-casing works piecewise. */
  lemma ToLowerAppend(a: string, b: string)
    ensures ToLower(a + b) == ToLower(a) + ToLower(b)
  {
    var l := ToLower(a + b);
    assert forall i :: 0 <= i < |l| ==> l[i] == (ToLower(a) + ToLower(b))[i];
  }

  /** Digits and punctuation are left alone by lower-casing. */
  lemma ToLowerKeepsSuffix(version: nat)
    ensures ToLower(VersionSuffix(version)) == VersionSuffix(version)
  {
    var s := VersionSuffix(version);
    var digits := NatToString(version);
    assert s == " (" + digits + ")";
    forall i | 0 <= i < |s|
      ensures ToLowerChar(s[i]) == s[i]
    {
      if 2 <= i < |s| - 1 {
        assert s[i] == digits[i - 2];
      }
    }
  }

  /** A text ending in a version suffix carries that version. */
  lemma VersionTagOf(q: string, version: nat)
    ensures VersionTag(q + VersionSuffix(version)) == version
  {
    var digits := NatToString(version);
    var s := q + VersionSuffix(version);
    assert s == (q + " (") + digits + ")";
    assert s[|s| - 1] == ')';
    assert s[..|s| - 1] == (q + " (") + digits;
    TrailingDigitsAfter(q + " (", digits);
    DigitsOfNatToString(version);
  }

  /** A name ending in a version suffix, lower-cased, still carries that version. */
  lemma VersionTagOfSuffixed(p: string, version: nat)
    ensures VersionTag(ToLower(p + VersionSuffix(version))) == version
  {
    ToLowerAppend(p, VersionSuffix(version));
    ToLowerKeepsSuffix(version);
    VersionTagOf(ToLower(p), version);
  }

  /**
   * One round of the uniquing loop on `name`: from the second round on the
   * version suffix is appended, and a name that gets too long is cut so
   * that the suffix still fits; a suffix longer than the limit makes the
   * cut fail.
   */
  function NextName(name: string, version: int): (r: Result<string>)
    requires version >= 1
    ensures r.Ok? ==> |r.value| <= W.MaxNameLength
    ensures r.Ok? && version > 1 ==> VersionTag(ToLower(r.value)) == version
    ensures version == 1 && |name| <= W.MaxNameLength ==> r == Ok(name)
    ensures r.Err? <==> version > 1 && |VersionSuffix(version)| > W.MaxNameLength
    ensures r.Err? ==> r.error == ArgumentOutOfRange
  {
    var suffix := if version > 1 then VersionSuffix(version) else "";
    if |name + suffix| > W.MaxNameLength then
      if W.MaxNameLength - |suffix| < 0 then Err(ArgumentOutOfRange)
      else
        var r := name[..W.MaxNameLength - |suffix|] + suffix;
        VersionTagOfSuffixed(name[..W.MaxNameLength - |suffix|], version);
        Ok(r)
    else
      VersionTagOfSuffixed(name, version);
      assert version == 1 ==> name + suffix == name;
      Ok(name + suffix)
  }

  /** The name the loop tries in round `version` as written: each round extends the previous round's name. */
  function CandidateAsWritten(legal: string, version: int): (r: Result<string>)
    requires version >= 1
    ensures r.Ok? && version > 2 ==> VersionTag(ToLower(r.value)) == version - 1
    decreases version
  {
    if version == 1 then Ok(legal)
    else
      match CandidateAsWritten(legal, version - 1)
      case Err(e) => Err(e)
      case Ok(previous) => NextName(previous, version - 1)
  }

  /** The name the loop tries in round `version` as intended: the legal name with that round's suffix. */
  function Candidate(legal: string, version: int): (r: Result<string>)
    requires version >= 1
    ensures r.Ok? && version > 1 ==> VersionTag(ToLower(r.value)) == version
  {
    NextName(legal, version)
  }

  /** Round `version` of the as-written loop is the first whose name is free. */
  ghost predicate FirstFreeAsWritten(names: seq<string>, legal: string, version: int)
  {
    version >= 1 &&
    (forall v :: 1 <= v < version ==> CandidateAsWritten(legal, v).Ok? && Clashes(names, CandidateAsWritten(legal, v).value)) &&
    CandidateAsWritten(legal, version).Ok? && !Clashes(names, CandidateAsWritten(legal, version).value)
  }

  /** Round `version` of the intended loop is the first whose name is free. */
  ghost predicate FirstFree(names: seq<string>, legal: string, version: int)
  {
    version >= 1 &&
    (forall v :: 1 <= v < version ==> Candidate(legal, v).Ok? && Clashes(names, Candidate(legal, v).value)) &&
    Candidate(legal, version).Ok? && !Clashes(names, Candidate(legal, version).value)
  }

  lemma LowerNamesShrink(lower: set<string>, seen: set<string>, x: string)
    requires x in lower && x !in seen
    ensures |lower - (seen + {x})| < |lower - seen|
  {
    assert lower - (seen + {x}) == (lower - seen) - {x};
  }

  /** Every round before `version` of the as-written loop produced a name that clashes. */
  ghost predicate EarlierClashAsWritten(names: seq<string>, legal: string, version: int)
  {
    forall v :: 1 <= v < version ==> CandidateAsWritten(legal, v).Ok? && Clashes(names, CandidateAsWritten(legal, v).value)
  }

  /** Every round before `version` of the intended loop produced a name that clashes. */
  ghost predicate EarlierClash(names: seq<string>, legal: string, version: int)
  {
    forall v :: 1 <= v < version ==> Candidate(legal, v).Ok? && Clashes(names, Candidate(legal, v).value)
  }

  /** The names in `seen` carry version tags from 2 up to, not including, `bound`. */
  ghost predicate TagsBelow(seen: set<string>, bound: int)
  {
    forall x :: x in seen ==> 2 <= VersionTag(x) < bound
  }

  /**
   * One round of the as-written loop keeps its invariant; from the third
   * round on, the clashing name is one more existing name used up.
   */
  lemma StepAsWritten(names: seq<string>, legal: string, version: int, current: string, seen: set<string>)
    returns (seen': set<string>)
    requires version >= 1 && CandidateAsWritten(legal, version) == Ok(current)
    requires EarlierClashAsWritten(names, legal, version) && Clashes(names, current)
    requires seen <= LowerNames(names) && TagsBelow(seen, version - 1)
    requires NextName(current, version).Ok?
    ensures CandidateAsWritten(legal, version + 1) == NextName(current, version)
    ensures EarlierClashAsWritten(names, legal, version + 1)
    ensures seen' <= LowerNames(names) && TagsBelow(seen', version)
    ensures version >= 3 ==> |LowerNames(names) - seen'| < |LowerNames(names) - seen|
    ensures version < 3 ==> seen' == seen
  {
    forall v | 1 <= v < version + 1
      ensures CandidateAsWritten(legal, v).Ok? && Clashes(names, CandidateAsWritten(legal, v).value)
    {
      if v == version {
        assert CandidateAsWritten(legal, v).value == current;
      }
    }
    seen' := seen;
    if version >= 3 {
      ClashIsLowerName(names, current);
      LowerNamesShrink(LowerNames(names), seen, ToLower(current));
      seen' := seen + {ToLower(current)};
    }
  }

  /**
   * One round of the intended loop keeps its invariant; from the second
   * round on, the clashing name is one more existing name used up.
   */
  lemma Step(names: seq<string>, legal: string, version: int, current: string, seen: set<string>)
    returns (seen': set<string>)
    requires version >= 1 && Candidate(legal, version) == Ok(current)
    requires EarlierClash(names, legal, version) && Clashes(names, current)
    requires seen <= LowerNames(names) && TagsBelow(seen, version)
    requires NextName(legal, version + 1).Ok?
    ensures Candidate(legal, version + 1) == NextName(legal, version + 1)
    ensures EarlierClash(names, legal, version + 1)
    ensures seen' <= LowerNames(names) && TagsBelow(seen', version + 1)
    ensures version >= 2 ==> |LowerNames(names) - seen'| < |LowerNames(names) - seen|
    ensures version < 2 ==> seen' == seen
  {
    forall v | 1 <= v < version + 1
      ensures Candidate(legal, v).Ok? && Clashes(names, Candidate(legal, v).value)
    {
      if v == version {
        assert Candidate(legal, v).value == current;
      }
    }
    seen' := seen;
    if version >= 2 {
      ClashIsLowerName(names, current);
      LowerNamesShrink(LowerNames(names), seen, ToLower(current));
      seen' := seen + {ToLower(current)};
    }
  }

  /** `r` is the name the as-written loop settles on for `name`: the first free round's candidate. */
  ghost predicate UniqueNameAsWritten(names: seq<string>, name: string, r: Result<string>)
  {
    exists v :: FirstFreeAsWritten(names, W.LegalName(name), v) && CandidateAsWritten(W.LegalName(name), v) == r
  }

  /** `r` is the name the intended loop settles on for `name`: the first free round's candidate. */
  ghost predicate UniqueName(names: seq<string>, name: string, r: Result<string>)
  {
    exists v :: FirstFree(names, W.LegalName(name), v) && Candidate(W.LegalName(name), v) == r
  }

  /** When the as-written loop stops, its name is the first free round's candidate. */
  lemma FoundAsWritten(names: seq<string>, name: string, legal: string, version: int, current: string)
    requires legal == W.LegalName(name)
    requires version >= 1 && CandidateAsWritten(legal, version) == Ok(current)
    requires EarlierClashAsWritten(names, legal, version) && !Clashes(names, current)
    ensures |current| <= W.MaxNameLength && UniqueNameAsWritten(names, name, Ok(current))
  {
    assert FirstFreeAsWritten(names, legal, version);
    if version > 1 {
      var previous := CandidateAsWritten(legal, version - 1);
      assert NextName(previous.value, version - 1) == Ok(current);
    }
  }

  /** When the intended loop stops, its name is the first free round's candidate. */
  lemma Found(names: seq<string>, name: string, legal: string, version: int, current: string)
    requires legal == W.LegalName(name)
    requires version >= 1 && Candidate(legal, version) == Ok(current)
    requires EarlierClash(names, legal, version) && !Clashes(names, current)
    ensures |current| <= W.MaxNameLength && UniqueName(names, name, Ok(current))
  {
    assert FirstFree(names, legal, version);
  }

  /**
   * GetUniqueWorksheetName as written: the legal name, then, while some
   * sheet has that name (ignoring case), the name with the next version
   * suffix appended to the name of the previous round.
   */
  method GetUniqueWorksheetNameAsWritten(names: seq<string>, name: string) returns (r: Result<string>)
    ensures r.Ok? ==> !Clashes(names, r.value) && |r.value| <= W.MaxNameLength
    ensures r.Ok? ==> UniqueNameAsWritten(names, name, r)
    ensures r.Err? ==> r.error == ArgumentOutOfRange
  {
    var legal := W.GetLegalWorksheetName(name);
    var current := legal;
    var version := 1;
    ghost var seen: set<string> := {};
    while Clashes(names, current)
      invariant version >= 1 && CandidateAsWritten(legal, version) == Ok(current)
      invariant EarlierClashAsWritten(names, legal, version)
      invariant seen <= LowerNames(names) && TagsBelow(seen, version - 1)
      decreases |LowerNames(names) - seen|, 3 - Min(version, 3)
    {
      var next := NextName(current, version);
      if next.Err? {
        return Err(next.error);
      }
      seen := StepAsWritten(names, legal, version, current, seen);
      current := next.value;
      version := version + 1;
    }
    FoundAsWritten(names, name, legal, version, current);
    r := Ok(current);
  }

  /** GetUniqueWorksheetName as intended: each round appends its suffix to the legal name itself. */
  method GetUniqueWorksheetName(names: seq<string>, name: string) returns (r: Result<string>)
    ensures r.Ok? ==> !Clashes(names, r.value) && |r.value| <= W.MaxNameLength
    ensures r.Ok? ==> UniqueName(names, name, r)
    ensures r.Err? ==> r.error == ArgumentOutOfRange
  {
    var legal := W.GetLegalWorksheetName(name);
    var current := legal;
    var version := 1;
    ghost var seen: set<string> := {};
    while Clashes(names, current)
      invariant version >= 1 && Candidate(legal, version) == Ok(current)
      invariant EarlierClash(names, legal, version)
      invariant seen <= LowerNames(names) && TagsBelow(seen, version)
      decreases |LowerNames(names) - seen|, 2 - Min(version, 2)
    {
      var next := NextName(legal, version + 1);
      if next.Err? {
        return Err(next.error);
      }
      seen := Step(names, legal, version, current, seen);
      current := next.value;
      version := version + 1;
    }
    Found(names, name, legal, version, current);
    r := Ok(current);
  }

  /**
   * The two loops settle on the same name while the legal name or its
   * " (2)" version is free; they part only from the third version on.
   */
  lemma UniqueNamesAgreeUpToSecondVersion(names: seq<string>, name: string)
    ensures var legal := W.LegalName(name);
      !Clashes(names, legal) ==> UniqueNameAsWritten(names, name, Ok(legal)) && UniqueName(names, name, Ok(legal))
    ensures var legal := W.LegalName(name); var second := NextName(legal, 2);
      Clashes(names, legal) && second.Ok? && !Clashes(names, second.value) ==>
        UniqueNameAsWritten(names, name, second) && UniqueName(names, name, second)
  {
    var legal := W.LegalName(name);
    if !Clashes(names, legal) {
      LegalFreeAsWritten(names, name);
      LegalFree(names, name);
    } else if NextName(legal, 2).Ok? && !Clashes(names, NextName(legal, 2).value) {
      SecondFreeAsWritten(names, name);
      SecondFree(names, name);
    }
  }

  /** A free legal name is taken in the first round of the loop as written. */
  lemma LegalFreeAsWritten(names: seq<string>, name: string)
    requires !Clashes(names, W.LegalName(name))
    ensures UniqueNameAsWritten(names, name, Ok(W.LegalName(name)))
  {
    assert FirstFreeAsWritten(names, W.LegalName(name), 1);
  }

  /** A free legal name is taken in the first round of the intended loop. */
  lemma LegalFree(names: seq<string>, name: string)
    requires !Clashes(names, W.LegalName(name))
    ensures UniqueName(names, name, Ok(W.LegalName(name)))
  {
    assert FirstFree(names, W.LegalName(name), 1);
  }

  /** Past a clashing legal name, a free " (2)" version is taken in the third round of the loop as written. */
  lemma SecondFreeAsWritten(names: seq<string>, name: string)
    requires Clashes(names, W.LegalName(name))
    requires NextName(W.LegalName(name), 2).Ok? && !Clashes(names, NextName(W.LegalName(name), 2).value)
    ensures UniqueNameAsWritten(names, name, NextName(W.LegalName(name), 2))
  {
    var legal := W.LegalName(name);
    assert NextName(legal, 1) == Ok(legal);
    assert CandidateAsWritten(legal, 1) == Ok(legal);
    assert CandidateAsWritten(legal, 2) == Ok(legal);
    assert CandidateAsWritten(legal, 3) == NextName(legal, 2);
    assert forall v :: 1 <= v < 3 ==> CandidateAsWritten(legal, v) == Ok(legal);
  }

  /** Past a clashing legal name, a free " (2)" version is taken in the second round of the intended loop. */
  lemma SecondFree(names: seq<string>, name: string)
    requires Clashes(names, W.LegalName(name))
    requires NextName(W.LegalName(name), 2).Ok? && !Clashes(names, NextName(W.LegalName(name), 2).value)
    ensures UniqueName(names, name, NextName(W.LegalName(name), 2))
  {
    var legal := W.LegalName(name);
    assert Candidate(legal, 1) == Ok(legal);
    assert FirstFree(names, legal, 2);
  }

  /** A round whose suffix fits after the name appends it unchanged. */
  lemma NextNameAppends(name: string, version: int)
    requires version > 1 && |name| + |VersionSuffix(version)| <= W.MaxNameLength
    ensures NextName(name, version) == Ok(name + VersionSuffix(version))
  {
  }

  /** The suffix of a one-digit version. */
  lemma OneDigitSuffix(version: nat)
    requires 2 <= version < 10
    ensures VersionSuffix(version) == [' ', '(', DigitChar(version), ')']
  {
  }

  lemma AsWrittenRounds()
    ensures CandidateAsWritten("A", 3) == Ok("A (2)")
    ensures CandidateAsWritten("A", 4) == Ok("A (2) (3)")
    ensures forall v :: 1 <= v < 3 ==> CandidateAsWritten("A", v) == Ok("A")
  {
    OneDigitSuffix(2);
    OneDigitSuffix(3);
    assert CandidateAsWritten("A", 2) == Ok("A");
    NextNameAppends("A", 2);
    assert "A" + VersionSuffix(2) == "A (2)";
    NextNameAppends("A (2)", 3);
    assert "A (2)" + VersionSuffix(3) == "A (2) (3)";
  }

  lemma IntendedRounds()
    ensures Candidate("A", 1) == Ok("A")
    ensures Candidate("A", 2) == Ok("A (2)")
    ensures Candidate("A", 3) == Ok("A (3)")
  {
    OneDigitSuffix(2);
    OneDigitSuffix(3);
    NextNameAppends("A", 2);
    assert "A" + VersionSuffix(2) == "A (2)";
    NextNameAppends("A", 3);
    assert "A" + VersionSuffix(3) == "A (3)";
  }

  /** No name of another length clashes. */
  lemma NoClashByLength(names: seq<string>, name: string)
    requires forall i :: 0 <= i < |names| ==> |names[i]| != |name|
    ensures !Clashes(names, name)
  {
    forall i | 0 <= i < |names|
      ensures !EqualsIgnoreCase(name, names[i])
    {
      if EqualsIgnoreCase(name, names[i]) {
        EqualsIgnoreCaseKeepsLength(name, names[i]);
      }
    }
  }

  /** Every existing name clashes with itself. */
  lemma ClashesWithExisting(names: seq<string>, i: int)
    requires 0 <= i < |names|
    ensures Clashes(names, names[i])
  {
    EqualsIgnoreCaseIsEquivalence(names[i], names[i], names[i]);
  }

  lemma AccumulatedNameIsFree(names: seq<string>)
    requires names == ["A", "A (2)"]
    ensures !Clashes(names, "A (2) (3)")
  {
    NoClashByLength(names, "A (2) (3)");
  }

  lemma IntendedNameIsFree(names: seq<string>)
    requires names == ["A", "A (2)"]
    ensures !Clashes(names, "A (3)")
  {
    if EqualsIgnoreCase("A (3)", names[0]) {
      EqualsIgnoreCaseKeepsLength("A (3)", names[0]);
      assert false;
    }
    assert ToLowerChar('3') == '3' && ToLowerChar('2') == '2';
    assert ToLower("A (3)")[3] != ToLower(names[1])[3];
  }

  lemma AccumulatedName(names: seq<string>)
    requires names == ["A", "A (2)"]
    ensures UniqueNameAsWritten(names, "A", Ok("A (2) (3)"))
  {
    W.LegalNameOfLegal("A");
    AsWrittenRounds();
    ClashesWithExisting(names, 0);
    ClashesWithExisting(names, 1);
    AccumulatedNameIsFree(names);
    assert names[0] == "A" && names[1] == "A (2)";
    forall v | 1 <= v < 4
      ensures CandidateAsWritten("A", v).Ok? && Clashes(names, CandidateAsWritten("A", v).value)
    {
      if v < 3 {
        assert CandidateAsWritten("A", v).value == names[0];
      } else {
        assert CandidateAsWritten("A", v).value == names[1];
      }
    }
    FoundAsWritten(names, "A", "A", 4, "A (2) (3)");
  }

  lemma IntendedName(names: seq<string>)
    requires names == ["A", "A (2)"]
    ensures UniqueName(names, "A", Ok("A (3)"))
  {
    W.LegalNameOfLegal("A");
    IntendedRounds();
    ClashesWithExisting(names, 0);
    ClashesWithExisting(names, 1);
    IntendedNameIsFree(names);
    assert names[0] == "A" && names[1] == "A (2)";
    forall v | 1 <= v < 3
      ensures Candidate("A", v).Ok? && Clashes(names, Candidate("A", v).value)
    {
      if v == 1 {
        assert Candidate("A", v).value == names[0];
      } else {
        assert Candidate("A", v).value == names[1];
      }
    }
    Found(names, "A", "A", 3, "A (3)");
  }

  /** With sheets "A" and "A (2)", the as-written loop settles on "A (2) (3)" where "A (3)" was meant. */
  lemma UniqueNameAccumulatesSuffixes(names: seq<string>)
    requires names == ["A", "A (2)"]
    ensures UniqueNameAsWritten(names, "A", Ok("A (2) (3)"))
    ensures UniqueName(names, "A", Ok("A (3)"))
  {
    AccumulatedName(names);
    IntendedName(names);
  }

  // ---------------------------------------------------------------------
  // The collection
  // ---------------------------------------------------------------------

  /** Some sheet of the collection has `name`, ignoring case. */
  ghost predicate NameTaken(sheets: map<int, Sheet>, name: string)
  {
    exists k :: k in sheets && EqualsIgnoreCase(name, sheets[k].name)
  }

  /** The test the name lookups apply to each sheet. */
  function Named(name: string): Sheet -> bool
  {
    (w: Sheet) => EqualsIgnoreCase(name, w.name)
  }

  /** The names of the sheets, in order. */
  function NamesOf(ordered: seq<Sheet>): (r: seq<string>)
    ensures |r| == |ordered| && forall i :: 0 <= i < |r| ==> r[i] == ordered[i].name
  {
    seq(|ordered|, i requires 0 <= i < |ordered| => ordered[i].name)
  }

  /** Each sheet listed in key order is the sheet under its own index. */
  lemma SheetsListed(sheets: map<int, Sheet>)
    requires Bound(sheets, MoveSheet)
    ensures forall t :: 0 <= t < |Ordered(sheets)| ==>
      Ordered(sheets)[t].index in sheets && sheets[Ordered(sheets)[t].index] == Ordered(sheets)[t]
  {
    var ws := Ordered(sheets);
    var keys := KeysIn(sheets, Lo(sheets), Hi(sheets));
    ValuesInKeys(sheets, Lo(sheets), Hi(sheets));
    forall t | 0 <= t < |ws|
      ensures ws[t].index == keys[t]
    {
      assert ws[t] == sheets[keys[t]];
    }
  }

  /** Every sheet is listed in key order. */
  lemma SheetsCovered(sheets: map<int, Sheet>)
    requires Bound(sheets, MoveSheet)
    ensures forall k :: k in sheets ==> exists t :: 0 <= t < |Ordered(sheets)| && Ordered(sheets)[t].index == k
  {
    var ws := Ordered(sheets);
    var keys := KeysIn(sheets, Lo(sheets), Hi(sheets));
    ValuesInKeys(sheets, Lo(sheets), Hi(sheets));
    InSpan(sheets);
    forall k | k in sheets
      ensures exists t :: 0 <= t < |ws| && ws[t].index == k
    {
      assert k in keys;
      var t :| 0 <= t < |keys| && keys[t] == k;
      assert ws[t] == sheets[k];
    }
  }

  /** Sheets listed earlier in key order have smaller indexes. */
  lemma SheetsAscending(sheets: map<int, Sheet>, t: int, u: int)
    requires Bound(sheets, MoveSheet)
    requires 0 <= t < u < |Ordered(sheets)|
    ensures Ordered(sheets)[t].index < Ordered(sheets)[u].index
  {
    var ws := Ordered(sheets);
    var keys := KeysIn(sheets, Lo(sheets), Hi(sheets));
    ValuesInKeys(sheets, Lo(sheets), Hi(sheets));
    assert ws[t] == sheets[keys[t]] && ws[u] == sheets[keys[u]];
  }

  /** A name clashes with the listed names exactly when some sheet has it. */
  lemma ClashesIffTaken(sheets: map<int, Sheet>, name: string)
    requires Bound(sheets, MoveSheet)
    ensures Clashes(NamesOf(Ordered(sheets)), name) <==> NameTaken(sheets, name)
  {
    var ws := Ordered(sheets);
    var names := NamesOf(ws);
    SheetsListed(sheets);
    SheetsCovered(sheets);
    if Clashes(names, name) {
      var i :| 0 <= i < |names| && EqualsIgnoreCase(name, names[i]);
      assert ws[i].index in sheets && EqualsIgnoreCase(name, sheets[ws[i].index].name);
    }
    if NameTaken(sheets, name) {
      var k :| k in sheets && EqualsIgnoreCase(name, sheets[k].name);
      var t :| 0 <= t < |ws| && ws[t].index == k;
      assert EqualsIgnoreCase(name, names[t]);
    }
  }

  /** A sheet with the name is found in index order exactly when some sheet has the name. */
  lemma FirstNamedFound(sheets: map<int, Sheet>, name: string)
    requires Bound(sheets, MoveSheet)
    ensures FirstIndex(Ordered(sheets), Named(name)) >= 0 <==> NameTaken(sheets, name)
  {
    var ordered := Ordered(sheets);
    SheetsListed(sheets);
    SheetsCovered(sheets);
    if NameTaken(sheets, name) {
      var k :| k in sheets && EqualsIgnoreCase(name, sheets[k].name);
      var t :| 0 <= t < |ordered| && ordered[t].index == k;
      assert Named(name)(ordered[t]);
    }
  }

  /** The sheet found is the one under its index, has the name, and no sheet with a smaller index has it. */
  lemma FirstNamedIsFirst(sheets: map<int, Sheet>, name: string)
    requires Bound(sheets, MoveSheet)
    ensures var i := FirstIndex(Ordered(sheets), Named(name));
      i >= 0 ==> (Ordered(sheets)[i].index in sheets && sheets[Ordered(sheets)[i].index] == Ordered(sheets)[i] &&
        EqualsIgnoreCase(name, Ordered(sheets)[i].name) &&
        forall k :: k in sheets && k < Ordered(sheets)[i].index ==> !EqualsIgnoreCase(name, sheets[k].name))
  {
    var ordered := Ordered(sheets);
    var i := FirstIndex(ordered, Named(name));
    if i >= 0 {
      SheetsListed(sheets);
      SheetsCovered(sheets);
      assert Named(name)(ordered[i]);
      forall k | k in sheets && k < ordered[i].index
        ensures !EqualsIgnoreCase(name, sheets[k].name)
      {
        var t :| 0 <= t < |ordered| && ordered[t].index == k;
        if t > i {
          SheetsAscending(sheets, i, t);
          assert false;
        }
        assert t < i;
        assert !Named(name)(ordered[t]);
      }
    }
  }

  /** The index a new sheet goes to: once the workbook has loaded, the value in 1..count+1 nearest the one asked for. */
  function ValidInsertIndex(hasLoaded: bool, count: nat, attempted: int): (r: int)
    ensures !hasLoaded ==> r == attempted
    ensures hasLoaded ==> 1 <= r <= count + 1
    ensures 1 <= attempted <= count + 1 ==> r == attempted
    ensures hasLoaded ==> forall x :: 1 <= x <= count + 1 ==> Dist(r, attempted) <= Dist(x, attempted)
  {
    if hasLoaded then
      if attempted < 1 then 1
      else if attempted > count + 1 then count + 1
      else attempted
    else attempted
  }

  function Dist(a: int, b: int): nat {
    if a <= b then b - a else a - b
  }

  /** The sheets that are visible. */
  function VisibleKeys(sheets: map<int, Sheet>): set<int>
  {
    set k | k in sheets && sheets[k].visibility == Visible
  }

  /** Setting a sheet's visibility as written: the change goes through unless it makes a sheet visible while at most one sheet is visible. */
  function VisibilityAfterAsWritten(sheets: map<int, Sheet>, index: int, value: Visibility): (r: map<int, Sheet>)
    requires index in sheets
    ensures r.Keys == sheets.Keys
    ensures value != Visible ==> r[index].visibility == value
    ensures value == Visible && sheets[index].visibility != Visible && |VisibleKeys(sheets)| <= 1 ==> r == sheets
  {
    if value != Visible || |VisibleKeys(sheets)| > 1 then sheets[index := sheets[index].(visibility := value)] else sheets
  }

  /** Setting a sheet's visibility as intended: hiding is refused only when it would leave no sheet visible. */
  function VisibilityAfter(sheets: map<int, Sheet>, index: int, value: Visibility): (r: map<int, Sheet>)
    requires index in sheets
    ensures r.Keys == sheets.Keys
    ensures value == Visible ==> r[index].visibility == Visible
    ensures |VisibleKeys(sheets)| > 1 ==> r[index].visibility == value
    ensures forall k :: k in sheets && k != index ==> r[k] == sheets[k]
  {
    if value == Visible || |VisibleKeys(sheets)| > 1 then sheets[index := sheets[index].(visibility := value)] else sheets
  }

  /** With the intended guard, a workbook with a visible sheet keeps one. */
  lemma VisibilityKeepsOneVisible(sheets: map<int, Sheet>, index: int, value: Visibility)
    requires index in sheets && |VisibleKeys(sheets)| >= 1
    ensures |VisibleKeys(VisibilityAfter(sheets, index, value))| >= 1
  {
    var after := VisibilityAfter(sheets, index, value);
    var before := VisibleKeys(sheets);
    if value == Visible {
      assert index in VisibleKeys(after);
    } else if |before| > 1 {
      assert before - {index} <= VisibleKeys(after);
      assert |before - {index}| >= |before| - 1;
      SubsetCard(before - {index}, VisibleKeys(after));
    } else {
      assert after == sheets;
    }
  }

  lemma SubsetCard(a: set<int>, b: set<int>)
    requires a <= b
    ensures |a| <= |b|
  {
    assert b == a + (b - a);
  }

  /** As written, hiding the only visible sheet goes through and leaves none visible. */
  lemma HidingLastVisibleAsWritten(sheet: Sheet)
    requires sheet.index == 1 && sheet.visibility == Visible
    ensures |VisibleKeys(map[1 := sheet])| == 1
    ensures VisibleKeys(VisibilityAfterAsWritten(map[1 := sheet], 1, Hidden)) == {}
  {
    assert VisibleKeys(map[1 := sheet]) == {1};
  }

  /** As written, a hidden sheet beside a single visible one cannot be shown again; as intended it can. */
  lemma ShowingRefusedAsWritten(shown: Sheet, hidden: Sheet)
    requires shown.visibility == Visible && hidden.visibility == Hidden
    ensures VisibilityAfterAsWritten(map[1 := shown, 2 := hidden], 2, Visible)[2].visibility == Hidden
    ensures VisibilityAfter(map[1 := shown, 2 := hidden], 2, Visible)[2].visibility == Visible
  {
    var sheets := map[1 := shown, 2 := hidden];
    assert VisibleKeys(sheets) == {1};
  }

  /** Marking every sheet unselected. */
  ghost function Deselected(sheets: map<int, Sheet>): (r: map<int, Sheet>)
    ensures r.Keys == sheets.Keys
    ensures forall k :: k in r ==> r[k] == sheets[k].(selected := false)
  {
    map k | k in sheets :: sheets[k].(selected := false)
  }

  /** Setting every sheet's Selected flag to false, one sheet after another in index order. */
  method DeselectAll(sheets: map<int, Sheet>) returns (m: map<int, Sheet>)
    requires Bound(sheets, MoveSheet)
    ensures m == Deselected(sheets)
  {
    var ordered := OrderedValues(sheets);
    SheetsListed(sheets);
    m := sheets;
    var i := 0;
    while i < |ordered|
      invariant 0 <= i <= |ordered|
      invariant m.Keys == sheets.Keys
      invariant forall t :: 0 <= t < i ==> m[ordered[t].index] == ordered[t].(selected := false)
      invariant forall k :: k in m ==> m[k] == sheets[k] || m[k] == sheets[k].(selected := false)
    {
      m := m[ordered[i].index := ordered[i].(selected := false)];
      i := i + 1;
    }
    SheetsCovered(sheets);
    forall k | k in sheets
      ensures m[k] == sheets[k].(selected := false)
    {
      var t :| 0 <= t < |ordered| && ordered[t].index == k;
    }
  }

  class WorksheetCollection {
    var sheets: map<int, Sheet>
    var hasLoaded: bool
    var activeTab: int

    /**
     * Every sheet carries the index it is stored under. Insert and Delete
     * select and re-key sheets by their own index; the model moves them by
     * key, which is the same thing while this holds.
     */
    ghost predicate Valid()
      reads this
    {
      Bound(sheets, MoveSheet)
    }

    constructor(hasLoaded: bool)
      ensures Valid() && sheets == map[] && this.hasLoaded == hasLoaded && activeTab == 0
    {
      sheets := map[];
      this.hasLoaded := hasLoaded;
      activeTab := 0;
    }

    /** The sheet at an index; a missing index is out of range. */
    method Get(index: int) returns (r: Result<Sheet>)
      requires Valid()
      ensures r.Ok? <==> index in sheets
      ensures r.Ok? ==> r.value == sheets[index] && r.value.index == index
      ensures r.Err? ==> r.error == ArgumentOutOfRange
    {
      if index in sheets {
        r := Ok(sheets[index]);
      } else {
        r := Err(ArgumentOutOfRange);
      }
    }

    /**
     * Storing a sheet through the index setter: the index must be in
     * 1..Count+1; a present index is overwritten, otherwise the sheet is
     * added under its own index, which fails when that key is taken.
     * The result is the key written.
     */
    method Set(index: int, value: Sheet) returns (r: Result<int>)
      modifies this
      ensures hasLoaded == old(hasLoaded) && activeTab == old(activeTab)
      ensures !(0 < index <= |old(sheets)| + 1) ==> r == Err(ArgumentOutOfRange)
      ensures 0 < index <= |old(sheets)| + 1 && index in old(sheets) ==> r == Ok(index)
      ensures 0 < index <= |old(sheets)| + 1 && index !in old(sheets) ==>
        r == if value.index in old(sheets) then Err(Failure(DuplicateKey)) else Ok(value.index)
      ensures r.Ok? ==> sheets == old(sheets)[r.value := value]
      ensures r.Err? ==> sheets == old(sheets)
      ensures old(Valid()) && r.Ok? && value.index == r.value ==> Valid()
    {
      if 0 < index <= |sheets| + 1 {
        if index in sheets {
          sheets := sheets[index := value];
          r := Ok(index);
        } else if value.index in sheets {
          r := Err(Failure(DuplicateKey));
        } else {
          sheets := sheets[value.index := value];
          r := Ok(value.index);
        }
      } else {
        r := Err(ArgumentOutOfRange);
      }
    }

    /** Whether some sheet has the name, ignoring case. */
    method ContainsName(name: string) returns (b: bool)
      requires Valid()
      ensures b <==> NameTaken(sheets, name)
    {
      var ordered := OrderedValues(sheets);
      var i := IndexOf(ordered, Named(name));
      FirstNamedFound(sheets, name);
      b := i >= 0;
    }

    /** The first sheet in index order whose name matches, ignoring case; none is out of range. */
    method GetByName(name: string) returns (r: Result<Sheet>)
      requires Valid()
      ensures r.Ok? <==> NameTaken(sheets, name)
      ensures r.Err? ==> r.error == ArgumentOutOfRange
      ensures r.Ok? ==> r.value.index in sheets && sheets[r.value.index] == r.value && EqualsIgnoreCase(name, r.value.name)
      ensures r.Ok? ==> forall k :: k in sheets && k < r.value.index ==> !EqualsIgnoreCase(name, sheets[k].name)
    {
      var found := ContainsName(name);
      if !found {
        return Err(ArgumentOutOfRange);
      }
      var ordered := OrderedValues(sheets);
      var i := IndexOf(ordered, Named(name));
      FirstNamedFound(sheets, name);
      FirstNamedIsFirst(sheets, name);
      r := Ok(ordered[i]);
    }

    /**
     * Deleting the sheet at an index: refused when it is the only sheet;
     * otherwise, when the index is present, that sheet goes and every later
     * sheet moves down by one. The result says whether a sheet went.
     */
    method Delete(index: int) returns (r: Result<bool>)
      requires Valid()
      modifies this
      ensures Valid() && hasLoaded == old(hasLoaded) && activeTab == old(activeTab)
      ensures |old(sheets)| == 1 ==> r == Err(Failure(LastWorksheet)) && sheets == old(sheets)
      ensures |old(sheets)| != 1 ==> r == Ok(index in old(sheets))
      ensures |old(sheets)| != 1 ==> sheets == if index in old(sheets) then ShiftDown(old(sheets), index, MoveSheet) else old(sheets)
    {
      if |sheets| == 1 {
        return Err(Failure(LastWorksheet));
      }
      r := Ok(index in sheets);
      if index in sheets {
        MoveSheetRebinds();
        ShiftDownBound(sheets, index, MoveSheet);
        sheets := ShiftDownKeys(sheets, index, MoveSheet);
      }
    }

    /** Inserting a sheet: the sheets at or after its index move up by one, highest first, and it takes the freed index. */
    method Insert(newSheet: Sheet) returns (r: Sheet)
      requires Valid()
      modifies this
      ensures Valid() && hasLoaded == old(hasLoaded) && activeTab == old(activeTab)
      ensures sheets == ShiftUp(old(sheets), newSheet.index, MoveSheet)[newSheet.index := newSheet]
      ensures r == newSheet
    {
      MoveSheetRebinds();
      ShiftUpBound(sheets, newSheet.index, MoveSheet, newSheet);
      sheets := ShiftUpKeys(sheets, newSheet.index, MoveSheet);
      sheets := sheets[newSheet.index := newSheet];
      r := sheets[newSheet.index];
    }

    /**
     * The name a new sheet takes: "Sheet" and its index when none is given,
     * then made legal and unique among the present sheets.
     */
    method NewSheetName(index: int, name: string) returns (r: Result<string>)
      requires Valid()
      ensures var n := if name == "" then "Sheet" + IntToString(index) else name;
        r.Ok? ==> UniqueNameAsWritten(NamesOf(Ordered(sheets)), n, r)
      ensures r.Ok? ==> !NameTaken(sheets, r.value) && |r.value| <= W.MaxNameLength
      ensures r.Err? ==> r.error == ArgumentOutOfRange
    {
      var n := if name == "" then "Sheet" + IntToString(index) else name;
      var ordered := OrderedValues(sheets);
      r := GetUniqueWorksheetNameAsWritten(NamesOf(ordered), n);
      if r.Ok? {
        ClashesIffTaken(sheets, r.value);
      }
    }

    /**
     * Inserting a new visible sheet with a name at an index: the index is
     * made valid, the name made unique, and the sheet inserted there.
     */
    method InsertNew(insertIndex: int, name: string) returns (r: Result<Sheet>)
      requires Valid()
      modifies this
      ensures Valid() && hasLoaded == old(hasLoaded) && activeTab == old(activeTab)
      ensures r.Err? ==> r.error == ArgumentOutOfRange && sheets == old(sheets)
      ensures r.Ok? ==> r.value.index == ValidInsertIndex(hasLoaded, |old(sheets)|, insertIndex)
      ensures r.Ok? ==> r.value.visibility == Visible && !r.value.selected
      ensures r.Ok? ==> !NameTaken(old(sheets), r.value.name) && |r.value.name| <= W.MaxNameLength
      ensures r.Ok? ==> sheets == ShiftUp(old(sheets), r.value.index, MoveSheet)[r.value.index := r.value]
    {
      var index := ValidInsertIndex(hasLoaded, |sheets|, insertIndex);
      var unique := NewSheetName(index, name);
      if unique.Err? {
        return Err(unique.error);
      }
      var sheet := Insert(Sheet(index, unique.value, Visible, false));
      r := Ok(sheet);
    }

    /** Adding a new visible sheet after the last: it is stored under Count+1, which fails when that key is taken. */
    method Add(name: string) returns (r: Result<Sheet>)
      requires Valid()
      modifies this
      ensures Valid() && hasLoaded == old(hasLoaded) && activeTab == old(activeTab)
      ensures r.Err? ==> sheets == old(sheets)
      ensures r.Err? ==> r.error == ArgumentOutOfRange || (r.error == Failure(DuplicateKey) && |old(sheets)| + 1 in old(sheets))
      ensures r.Ok? ==> r.value.index == |old(sheets)| + 1 && r.value.visibility == Visible && !r.value.selected
      ensures r.Ok? ==> !NameTaken(old(sheets), r.value.name) && |r.value.name| <= W.MaxNameLength
      ensures r.Ok? ==> sheets == old(sheets)[r.value.index := r.value]
    {
      var index := ValidInsertIndex(hasLoaded, |sheets|, |sheets| + 1);
      var unique := NewSheetName(index, name);
      if unique.Err? {
        return Err(unique.error);
      }
      r := AddToCollection(Sheet(index, unique.value, Visible, false));
    }

    /** Adding a sheet under its own index; the key must be free. */
    method AddToCollection(sheet: Sheet) returns (r: Result<Sheet>)
      requires Valid()
      modifies this
      ensures Valid() && hasLoaded == old(hasLoaded) && activeTab == old(activeTab)
      ensures r.Err? <==> sheet.index in old(sheets)
      ensures r.Err? ==> r.error == Failure(DuplicateKey) && sheets == old(sheets)
      ensures r.Ok? ==> r.value == sheet && sheets == old(sheets)[sheet.index := sheet]
    {
      if sheet.index in sheets {
        return Err(Failure(DuplicateKey));
      }
      sheets := sheets[sheet.index := sheet];
      r := Ok(sheet);
    }

    /** The Visibility setter of the sheet at `index`, as written. */
    method SetVisibilityAsWritten(index: int, value: Visibility)
      requires index in sheets
      modifies this
      ensures sheets == VisibilityAfterAsWritten(old(sheets), index, value)
      ensures hasLoaded == old(hasLoaded) && activeTab == old(activeTab)
    {
      var visible := VisibleKeys(sheets);
      if value != Visible || |visible| > 1 {
        sheets := sheets[index := sheets[index].(visibility := value)];
      }
    }

    /** The Visibility setter of the sheet at `index`, as intended. */
    method SetVisibility(index: int, value: Visibility)
      requires index in sheets
      modifies this
      ensures sheets == VisibilityAfter(old(sheets), index, value)
      ensures old(|VisibleKeys(sheets)|) >= 1 ==> |VisibleKeys(sheets)| >= 1
      ensures hasLoaded == old(hasLoaded) && activeTab == old(activeTab)
    {
      if |VisibleKeys(sheets)| >= 1 {
        VisibilityKeepsOneVisible(sheets, index, value);
      }
      var visible := VisibleKeys(sheets);
      if value == Visible || |visible| > 1 {
        sheets := sheets[index := sheets[index].(visibility := value)];
      }
    }

    /**
     * The Selected setter of the sheet at `index`: selecting it first
     * deselects every sheet; the sheet then takes the flag and the
     * workbook's active tab becomes its position.
     */
    method SetSelected(index: int, value: bool)
      requires Valid() && index in sheets
      modifies this
      ensures sheets == (if value then Deselected(old(sheets)) else old(sheets))[index := old(sheets)[index].(selected := value)]
      ensures value ==> forall k :: k in sheets ==> (sheets[k].selected <==> k == index)
      ensures activeTab == index - 1 && hasLoaded == old(hasLoaded)
    {
      if value {
        sheets := DeselectAll(sheets);
      }
      sheets := sheets[index := sheets[index].(selected := value)];
      activeTab := index - 1;
    }
  }

  const LastWorksheet := "Cannot delete last worksheet"
}
