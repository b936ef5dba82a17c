/**
 * The workbook's shared string table. A shared string is a plain value or,
 * once a run with a font is added, a font string: a list of runs (font and
 * text) whose concatenation is its value. Its index is written once. The
 * collection keeps the strings by index and, for plain strings only, a
 * dictionary from value to index; looking a string up adds it when it is
 * missing.
 */
module SharedStrings {
  import opened Wrappers
  import opened OfficeUtilities
  import Fo = Fonts

  /** One run of a font string: its font (none for the unformatted run) and its text. */
  datatype Run = Run(font: Option<Fo.Font>, text: string)

  /** What a shared string holds: its value, and its runs once it is a font string. */
  datatype StringData = StringData(value: string, runs: Option<seq<Run>>)

  // ---------------------------------------------------------------------
  // Values and runs
  // ---------------------------------------------------------------------

  /** string.Join("", Values): the run texts one after the other. */
  function Concat(runs: seq<Run>): string {
    if runs == [] then "" else runs[0].text + Concat(runs[1..])
  }

  /** Appending a run appends its text to the concatenation. */
  lemma {:induction false} ConcatAppend(runs: seq<Run>, run: Run)
    ensures Concat(runs + [run]) == Concat(runs) + run.text
  {
    if runs == [] {
      assert runs + [run] == [run];
    } else {
      assert (runs + [run])[1..] == runs[1..] + [run];
      ConcatAppend(runs[1..], run);
    }
  }

  /** Runs with the same texts, position by position, concatenate to the same value. */
  lemma {:induction false} ConcatOfSameTexts(a: seq<Run>, b: seq<Run>)
    requires |a| == |b| && forall i :: 0 <= i < |a| ==> a[i].text == b[i].text
    ensures Concat(a) == Concat(b)
  {
    if a != [] {
      ConcatOfSameTexts(a[1..], b[1..]);
    }
  }

  /** A font string's value is the concatenation of its runs. */
  predicate Consistent(c: StringData) {
    c.runs.Some? ==> c.value == Concat(c.runs.value)
  }

  /**
   * InitialiseForFontStrings: the runs a string has when it becomes a font
   * string; a non-empty plain value becomes a first run with no font.
   */
  function InitialRuns(c: StringData): (r: seq<Run>)
    ensures Consistent(c) ==> Concat(r) == c.value
    ensures c.runs.None? && c.value != "" ==> r == [Run(None, c.value)]
    ensures c.runs.None? && c.value == "" ==> r == []
  {
    if c.runs.Some? then c.runs.value
    else if c.value != "" then [Run(None, c.value)]
    else []
  }

  /**
   * AddFontString: the run is appended to the initial runs, and the value
   * is brought up to date with their concatenation, so it grows by the
   * run's text.
   */
  function WithFontString(c: StringData, font: Option<Fo.Font>, text: string): (r: StringData)
    ensures r.runs.Some? && Consistent(r)
    ensures Consistent(c) ==> r.value == c.value + text
    ensures |r.runs.value| == |InitialRuns(c)| + 1
    ensures r.runs.value[|r.runs.value| - 1] == Run(font, text)
    ensures c.runs.Some? ==> r.runs.value[..|c.runs.value|] == c.runs.value && |r.runs.value| == |c.runs.value| + 1
    ensures c.runs.None? && c.value != "" ==> r.runs.value == [Run(None, c.value), Run(font, text)]
    ensures c.runs.None? && c.value == "" ==> r.runs.value == [Run(font, text)]
  {
    var runs := InitialRuns(c) + [Run(font, text)];
    ConcatAppend(InitialRuns(c), Run(font, text));
    StringData(Concat(runs), Some(runs))
  }

  // ---------------------------------------------------------------------
  // Equality
  // ---------------------------------------------------------------------

  /** The fonts of two runs at one position match: both none, or both set and equal. */
  predicate FontsMatch(mine: Option<Fo.Font>, other: Option<Fo.Font>) {
    (mine.None? && other.None?) || (mine.Some? && other.Some? && Fo.FontsEqual(mine.value, other.value))
  }

  /**
   * SharedString.Equals, `mine` the receiver: two plain strings compare
   * their values; two font strings compare their run counts, their texts
   * and their fonts position by position; a plain and a font string differ.
   */
  predicate ContentsEqual(mine: StringData, other: StringData) {
    if mine.runs.None? && other.runs.None? then mine.value == other.value
    else if mine.runs.Some? && other.runs.Some? then
      |mine.runs.value| == |other.runs.value| &&
      (forall i :: 0 <= i < |mine.runs.value| ==> mine.runs.value[i].text == other.runs.value[i].text) &&
      (forall i :: 0 <= i < |mine.runs.value| ==> FontsMatch(mine.runs.value[i].font, other.runs.value[i].font))
    else false
  }

  /** Shared-string equality is an equivalence. */
  lemma ContentsEqualIsEquivalence(a: StringData, b: StringData, c: StringData)
    ensures ContentsEqual(a, a)
    ensures ContentsEqual(a, b) ==> ContentsEqual(b, a)
    ensures ContentsEqual(a, b) && ContentsEqual(b, c) ==> ContentsEqual(a, c)
  {
    if a.runs.Some? {
      var ra := a.runs.value;
      forall i | 0 <= i < |ra| ensures FontsMatch(ra[i].font, ra[i].font) {
        if ra[i].font.Some? {
          Fo.FontsEqualIsEquivalence(ra[i].font.value, ra[i].font.value, ra[i].font.value);
        }
      }
      if b.runs.Some? && |b.runs.value| == |ra| {
        var rb := b.runs.value;
        forall i | 0 <= i < |ra| && FontsMatch(ra[i].font, rb[i].font) ensures FontsMatch(rb[i].font, ra[i].font) {
          if ra[i].font.Some? {
            Fo.FontsEqualIsEquivalence(ra[i].font.value, rb[i].font.value, rb[i].font.value);
          }
        }
        if c.runs.Some? && |c.runs.value| == |ra| {
          var rc := c.runs.value;
          forall i | 0 <= i < |ra| && FontsMatch(ra[i].font, rb[i].font) && FontsMatch(rb[i].font, rc[i].font)
            ensures FontsMatch(ra[i].font, rc[i].font)
          {
            if ra[i].font.Some? {
              Fo.FontsEqualIsEquivalence(ra[i].font.value, rb[i].font.value, rc[i].font.value);
            }
          }
        }
      }
    }
  }

  /** Equal shared strings have equal values, font strings included. */
  lemma EqualContentsHaveEqualValues(a: StringData, b: StringData)
    requires Consistent(a) && Consistent(b) && ContentsEqual(a, b)
    ensures a.value == b.value
  {
    if a.runs.Some? {
      ConcatOfSameTexts(a.runs.value, b.runs.value);
    }
  }

  /**
   * A font string never equals a plain string, even with the same value: a
   * plain "abc" and "a" + "b" + "c" in three runs are different entries.
   */
  lemma PlainDiffersFromFontString(text: string)
    requires |text| == 3
    ensures var plain := StringData(text, None);
            var runs := [Run(None, text[..1]), Run(None, text[1..2]), Run(None, text[2..])];
            var styled := StringData(Concat(runs), Some(runs));
            Consistent(plain) && Consistent(styled) && styled.value == plain.value &&
            !ContentsEqual(plain, styled) && !ContentsEqual(styled, plain)
  {
    var runs := [Run(None, text[..1]), Run(None, text[1..2]), Run(None, text[2..])];
    assert Concat(runs[2..]) == text[2..];
    assert Concat(runs[1..]) == text[1..2] + text[2..];
    assert text == text[..1] + (text[1..2] + text[2..]);
  }

  // ---------------------------------------------------------------------
  // The index
  // ---------------------------------------------------------------------

  /** The Index after a series of assignments: one is taken only while the index is -1, and only when non-negative. */
  function IndexAfter(current: int, writes: seq<int>): int
    decreases |writes|
  {
    if writes == [] then current
    else IndexAfter(if current == -1 && writes[0] >= 0 then writes[0] else current, writes[1..])
  }

  /** Once the index is set, no assignment changes it. */
  lemma {:induction false} SetIndexStays(current: int, writes: seq<int>)
    requires current != -1
    ensures IndexAfter(current, writes) == current
  {
    if writes != [] {
      SetIndexStays(current, writes[1..]);
    }
  }

  /** From -1, the index is the first non-negative value assigned, and stays -1 when there is none. */
  lemma {:induction false} IndexIsWrittenOnce(writes: seq<int>)
    ensures IndexAfter(-1, writes) == -1 <==> forall i :: 0 <= i < |writes| ==> writes[i] < 0
    ensures IndexAfter(-1, writes) != -1 ==>
      exists i :: 0 <= i < |writes| && writes[i] >= 0 && IndexAfter(-1, writes) == writes[i] &&
                  forall j :: 0 <= j < i ==> writes[j] < 0
  {
    if writes != [] {
      if writes[0] >= 0 {
        SetIndexStays(writes[0], writes[1..]);
        assert IndexAfter(-1, writes) == writes[0];
      } else {
        IndexIsWrittenOnce(writes[1..]);
        assert forall i :: 1 <= i < |writes| ==> writes[i] == writes[1..][i - 1];
        if IndexAfter(-1, writes) != -1 {
          var i :| 0 <= i < |writes[1..]| && writes[1..][i] >= 0 && IndexAfter(-1, writes[1..]) == writes[1..][i] &&
                   forall j :: 0 <= j < i ==> writes[1..][j] < 0;
          assert forall j :: 0 <= j < i + 1 ==> writes[j] < 0 by {
            forall j | 0 <= j < i + 1 ensures writes[j] < 0 {
              if j > 0 {
                assert writes[j] == writes[1..][j - 1];
              }
            }
          }
        }
      }
    }
  }

  // ---------------------------------------------------------------------
  // The shared string
  // ---------------------------------------------------------------------

  class SharedString {
    var index: int
    var value: string
    var runs: Option<seq<Run>>

    /** The index is -1 or set, and a font string's value is its runs' concatenation. */
    ghost predicate Valid()
      reads this
    {
      index >= -1 && Consistent(Data())
    }

    function Data(): StringData
      reads this
    {
      StringData(value, runs)
    }

    /** A plain string with no index yet. */
    constructor(value: string)
      ensures Valid() && index == -1 && Data() == StringData(value, None)
    {
      index := -1;
      this.value := value;
      runs := None;
    }

    /** The Index setter. */
    method SetIndex(newIndex: int)
      modifies this
      ensures index == IndexAfter(old(index), [newIndex])
      ensures index == if old(index) == -1 && newIndex >= 0 then newIndex else old(index)
      ensures value == old(value) && runs == old(runs)
    {
      assert [newIndex][1..] == [];
      if index == -1 && newIndex >= 0 {
        index := newIndex;
      }
    }

    /**
     * AddFontString: the string becomes a font string (InitialiseForFontStrings),
     * the run is appended, and UpdateValue recomputes the value.
     */
    method AddFontString(font: Option<Fo.Font>, text: string)
      requires Valid()
      modifies this
      ensures Valid() && index == old(index)
      ensures Data() == WithFontString(old(Data()), font, text)
      ensures value == old(value) + text
    {
      ghost var c := Data();
      if runs.None? {
        runs := Some(if value != "" then [Run(None, value)] else []);
      }
      assert runs.value == InitialRuns(c);
      runs := Some(runs.value + [Run(font, text)]);
      value := Concat(runs.value);
    }

    /**
     * Equals: the values of two plain strings; for two font strings, the
     * texts when the counts agree, then the fonts when the counts agree,
     * and finally the counts.
     */
    method Equals(other: SharedString) returns (r: bool)
      ensures r == ContentsEqual(Data(), other.Data())
      ensures runs.None? && other.runs.None? ==> (r <==> value == other.value)
      ensures runs.None? != other.runs.None? ==> !r
    {
      if runs.None? && other.runs.None? {
        return value == other.value;
      }
      if runs.Some? && other.runs.Some? {
        var mine := runs.value;
        var theirs := other.runs.value;
        if |mine| == |theirs| {
          var i := 0;
          while i < |mine|
            invariant 0 <= i <= |mine|
            invariant forall j :: 0 <= j < i ==> mine[j].text == theirs[j].text
          {
            if mine[i].text != theirs[i].text {
              return false;
            }
            i := i + 1;
          }
          i := 0;
          while i < |mine|
            invariant 0 <= i <= |mine|
            invariant forall j :: 0 <= j < i ==> FontsMatch(mine[j].font, theirs[j].font)
          {
            if (mine[i].font.None? && theirs[i].font.Some?) || (mine[i].font.Some? && theirs[i].font.None?) {
              return false;
            } else if mine[i].font.Some? && theirs[i].font.Some? {
              if !Fo.FontsEqual(mine[i].font.value, theirs[i].font.value) {
                return false;
              }
            }
            i := i + 1;
          }
        }
        return |mine| == |theirs|;
      }
      return false;
    }
  }

  // ---------------------------------------------------------------------
  // Reading and writing one entry
  // ---------------------------------------------------------------------

  /**
   * A shared string item of the part: a text element (a plain string),
   * runs each with optional run properties (the font) and a text, or
   * anything else first.
   */
  datatype Item = TextItem(text: string) | RunsItem(runs: seq<Run>) | OtherItem

  /** What reading an item gives: the text, the runs added one by one to an empty string, or an empty string. */
  function ItemContent(item: Item): (r: StringData)
    ensures Consistent(r)
  {
    match item
    case TextItem(text) => StringData(text, None)
    case RunsItem(runs) => StringData(Concat(runs), Some(runs))
    case OtherItem => StringData("", None)
  }

  /** ReadSharedStringFromReader: a new string, and for a run item one AddFontString per run. */
  method ReadSharedString(item: Item) returns (s: SharedString)
    requires item.RunsItem? ==> |item.runs| > 0
    ensures fresh(s) && s.Valid() && s.index == -1
    ensures s.Data() == ItemContent(item)
  {
    match item {
      case TextItem(text) =>
        s := new SharedString(text);
      case OtherItem =>
        s := new SharedString("");
      case RunsItem(runs) =>
        s := new SharedString("");
        s.AddFontString(runs[0].font, runs[0].text);
        assert runs[..1] == [runs[0]];
        var i := 1;
        while i < |runs|
          invariant 1 <= i <= |runs|
          invariant s.Valid() && s.index == -1
          invariant s.runs == Some(runs[..i])
        {
          s.AddFontString(runs[i].font, runs[i].text);
          assert runs[..i + 1] == runs[..i] + [runs[i]];
          i := i + 1;
        }
        assert runs[..i] == runs;
    }
  }

  /** WriteSharedStringToWriter: a plain string as its text, a font string as its runs. */
  function WrittenItem(c: StringData): Item {
    if c.runs.None? then TextItem(c.value) else RunsItem(c.runs.value)
  }

  /** Reading a written entry gives back the entry, for every string that the library builds. */
  lemma WriteReadRoundTrip(c: StringData)
    requires Consistent(c) && (c.runs.Some? ==> |c.runs.value| > 0)
    ensures WrittenItem(c).RunsItem? ==> |WrittenItem(c).runs| > 0
    ensures ItemContent(WrittenItem(c)) == c
  {
  }

  // ---------------------------------------------------------------------
  // The collection
  // ---------------------------------------------------------------------

  /** A reference to a stored string and the string that is looked up, by content. */
  predicate IsEqualFontString(stored: StringData, sought: StringData) {
    stored.runs.Some? && ContentsEqual(stored, sought)
  }

  class SharedStringCollection {
    /** SharedStrings: the strings by index. */
    var entries: map<int, SharedString>
    /** StringDictionary: the plain strings' values and their indexes. */
    var stringDictionary: map<string, int>

    /**
     * Each string sits under its own index, the dictionary names exactly
     * the plain strings, each under its value.
     */
    ghost predicate Valid()
      reads this, entries.Values
    {
      (forall k :: k in entries ==> 0 <= k && entries[k].index == k) &&
      (forall v :: v in stringDictionary ==>
         stringDictionary[v] in entries && entries[stringDictionary[v]].runs.None? &&
         entries[stringDictionary[v]].value == v) &&
      (forall k :: k in entries && entries[k].runs.None? ==>
         entries[k].value in stringDictionary && stringDictionary[entries[k].value] == k)
    }

    /** The indexes are 0 up to Count - 1. */
    ghost predicate Dense()
      reads this
    {
      forall k :: k in entries <==> 0 <= k < |entries|
    }

    constructor()
      ensures Valid() && Dense() && entries == map[] && stringDictionary == map[]
    {
      entries := map[];
      stringDictionary := map[];
    }

    function Count(): nat
      reads this
    {
      |entries|
    }

    /** The integer indexer: the string stored under the index, or null. */
    function Get(index: int): (r: Option<SharedString>)
      reads this, entries.Values
      ensures r.Some? <==> index in entries
      ensures Valid() && r.Some? ==> r.value.index == index
    {
      if index in entries then Some(entries[index]) else None
    }

    /** Contains: a font string by equality with a stored font string, a plain string by its value. */
    function Contains(s: SharedString): (r: bool)
      reads this, entries.Values, s
    {
      if s.runs.Some? then
        exists k :: k in entries && IsEqualFontString(entries[k].Data(), s.Data())
      else
        s.value in stringDictionary
    }

    /** Contains finds exactly the stored strings equal to the one looked up. */
    lemma ContainsMeansEqualEntry(s: SharedString)
      requires Valid()
      ensures Contains(s) <==> exists k :: k in entries && ContentsEqual(entries[k].Data(), s.Data())
    {
      if s.runs.None? && Contains(s) {
        var k := stringDictionary[s.value];
        assert ContentsEqual(entries[k].Data(), s.Data());
      }
    }

    /** A string that is not contained is not one of the stored objects. */
    lemma NotContainedIsNotStored(s: SharedString)
      requires Valid() && !Contains(s)
      ensures NotStored(s)
    {
      ContentsEqualIsEquivalence(s.Data(), s.Data(), s.Data());
      ContainsMeansEqualEntry(s);
    }

    /** The string is none of the stored objects. */
    ghost predicate NotStored(s: SharedString)
      reads this
    {
      forall k :: k in entries ==> entries[k] != s
    }

    /**
     * AddDictionaryEntry: the string takes Count as its index (unless it
     * already has one), is stored under its index, and, when plain, is
     * entered in the dictionary. An index already in use is the
     * duplicate-key exception, before anything is stored.
     */
    method AddDictionaryEntry(s: SharedString) returns (r: Result<()>)
      requires Valid() && s.Valid() && NotStored(s)
      requires s.runs.None? ==> s.value !in stringDictionary
      modifies this, s
      ensures Valid() && s.Valid()
      ensures s.index == (if old(s.index) == -1 then old(|entries|) else old(s.index)) && s.Data() == old(s.Data())
      ensures s.index in old(entries) ==>
        r == Err(Failure(DuplicateKey)) && entries == old(entries) && stringDictionary == old(stringDictionary)
      ensures s.index !in old(entries) ==>
        r == Ok(()) && entries == old(entries)[s.index := s] &&
                        stringDictionary == if s.runs.None? then old(stringDictionary)[s.value := s.index]
                                            else old(stringDictionary)
    {
      s.SetIndex(|entries|);
      if s.index in entries {
        return Err(Failure(DuplicateKey));
      }
      entries := entries[s.index := s];
      if s.runs.None? {
        stringDictionary := stringDictionary[s.value := s.index];
      }
      r := Ok(());
    }

    /**
     * Add(string): a value not in the dictionary becomes a new plain
     * string, entered under Count.
     */
    method AddValue(value: string) returns (r: Result<()>)
      requires Valid()
      modifies this
      ensures Valid()
      ensures value in old(stringDictionary) ==>
        r == Ok(()) && entries == old(entries) && stringDictionary == old(stringDictionary)
      ensures value !in old(stringDictionary) && old(|entries|) in old(entries) ==>
        r == Err(Failure(DuplicateKey)) && entries == old(entries) && stringDictionary == old(stringDictionary)
      ensures value !in old(stringDictionary) && old(|entries|) !in old(entries) ==>
        var n := old(|entries|);
        r == Ok(()) && n in entries && fresh(entries[n]) && entries == old(entries)[n := entries[n]] &&
        entries[n].Data() == StringData(value, None) && stringDictionary == old(stringDictionary)[value := n]
    {
      if value in stringDictionary {
        return Ok(());
      }
      var s := new SharedString(value);
      assert NotStored(s);
      r := AddDictionaryEntry(s);
    }

    /**
     * The string indexer: Add(string), then the value's index in the
     * dictionary. A value already present keeps its index and changes
     * nothing; in a table indexed 0 to Count - 1 a new value gets index
     * Count.
     */
    method IndexOfValue(value: string) returns (r: Result<int>)
      requires Valid()
      modifies this
      ensures Valid()
      ensures value in old(stringDictionary) ==>
        r == Ok(old(stringDictionary)[value]) && entries == old(entries) && stringDictionary == old(stringDictionary)
      ensures r.Ok? ==>
        value in stringDictionary && stringDictionary[value] == r.value && r.value in entries &&
        entries[r.value].Data() == StringData(value, None)
      ensures value !in old(stringDictionary) && old(Dense()) ==>
        r == Ok(old(|entries|)) && Dense() && |entries| == old(|entries|) + 1
      ensures r.Err? ==> r.error == Failure(DuplicateKey) && entries == old(entries) && stringDictionary == old(stringDictionary)
    {
      var added := AddValue(value);
      if added.Err? {
        return Err(added.error);
      }
      r := Ok(stringDictionary[value]);
    }

    /** The first stored font string, in index order, equal to `sought`. */
    method FindEqualFontString(sought: StringData) returns (found: Option<int>)
      ensures found.None? <==> forall k :: k in entries ==> !IsEqualFontString(entries[k].Data(), sought)
      ensures found.Some? ==>
        found.value in entries && IsEqualFontString(entries[found.value].Data(), sought) &&
        forall j :: j in entries && j < found.value ==> !IsEqualFontString(entries[j].Data(), sought)
    {
      var contents := map k | k in entries :: entries[k].Data();
      found := FindFirst(contents, (c: StringData) => IsEqualFontString(c, sought));
      assert forall k :: k in entries ==> contents[k] == entries[k].Data();
    }

    /**
     * Add(SharedString): a string that is not contained is entered; then a
     * string still without an index takes the index of the first stored
     * font string equal to it, which a plain string never finds (the
     * First of LINQ raises InvalidOperation).
     */
    method AddSharedString(s: SharedString) returns (r: Result<()>)
      requires Valid() && s.Valid()
      modifies this, s
      ensures Valid() && s.Valid() && s.Data() == old(s.Data())
      ensures old(Contains(s)) && old(s.index) >= 0 ==>
        r == Ok(()) && entries == old(entries) && stringDictionary == old(stringDictionary) && s.index == old(s.index)
      ensures old(Contains(s)) && old(s.index) < 0 && s.runs.None? ==>
        r == Err(InvalidOperation) && entries == old(entries) && stringDictionary == old(stringDictionary)
      ensures old(Contains(s)) && old(s.index) < 0 && s.runs.Some? ==>
        r == Ok(()) && entries == old(entries) && stringDictionary == old(stringDictionary) &&
        s.index in entries && IsEqualFontString(entries[s.index].Data(), s.Data()) &&
        forall j :: j in entries && j < s.index ==> !IsEqualFontString(entries[j].Data(), s.Data())
      ensures !old(Contains(s)) ==>
        s.index == (if old(s.index) == -1 then old(|entries|) else old(s.index)) &&
        (r.Err? <==> s.index in old(entries)) &&
        (r.Err? ==> r.error == Failure(DuplicateKey) && entries == old(entries) &&
                    stringDictionary == old(stringDictionary)) &&
        (r.Ok? ==> entries == old(entries)[s.index := s])
    {
      if !Contains(s) {
        NotContainedIsNotStored(s);
        r := AddDictionaryEntry(s);
        return;
      }
      if s.index >= 0 {
        return Ok(());
      }
      var found := FindEqualFontString(s.Data());
      if found.None? {
        return Err(InvalidOperation);
      }
      s.SetIndex(entries[found.value].index);
      r := Ok(());
    }

    /**
     * One round of GetExistingSharedStrings: the item is read into a new
     * string, which AddDictionaryEntry enters under Count.
     */
    method EnterRead(item: Item)
      requires Valid() && Dense() && (item.RunsItem? ==> |item.runs| > 0)
      requires ItemContent(item).runs.None? ==> ItemContent(item).value !in stringDictionary
      modifies this
      ensures Valid() && Dense() && |entries| == old(|entries|) + 1
      ensures forall k :: k in old(entries) ==> entries[k] == old(entries[k])
      ensures entries[old(|entries|)].Data() == ItemContent(item)
    {
      var s := ReadSharedString(item);
      ghost var n := |entries|;
      var added := AddDictionaryEntry(s);
      assert entries.Keys == old(entries).Keys + {n};
    }

    /** The SharedString indexer: Add(SharedString), then the string's index. */
    method IndexOfSharedString(s: SharedString) returns (r: Result<int>)
      requires Valid() && s.Valid()
      modifies this, s
      ensures Valid() && s.Valid() && s.Data() == old(s.Data())
      ensures r.Ok? ==> r.value == s.index
      ensures !old(Contains(s)) && old(s.index) == -1 && old(Dense()) ==>
        r == Ok(old(|entries|)) && entries == old(entries)[r.value := s] && Dense()
      ensures old(Contains(s)) && old(s.index) == -1 && s.runs.Some? ==>
        r.Ok? && r.value in entries && IsEqualFontString(entries[r.value].Data(), s.Data()) &&
        entries == old(entries) && stringDictionary == old(stringDictionary)
    {
      ghost var n := |entries|;
      var added := AddSharedString(s);
      if added.Err? {
        return Err(added.error);
      }
      r := Ok(s.index);
      if !old(Contains(s)) && old(s.index) == -1 && old(Dense()) {
        assert s.index == n;
        assert entries.Keys == old(entries).Keys + {n};
      }
    }
  }

  /** No two plain items share a value. */
  ghost predicate PlainValuesDistinct(items: seq<Item>) {
    forall i, j :: 0 <= i < j < |items| && ItemContent(items[i]).runs.None? && ItemContent(items[j]).runs.None? ==>
      ItemContent(items[i]).value != ItemContent(items[j]).value
  }

  /**
   * The constructor's GetExistingSharedStrings: each item of the part is
   * read and entered in order. Two plain items with one value make the
   * dictionary raise the duplicate-key exception, and no table is built.
   */
  method LoadSharedStrings(items: seq<Item>) returns (r: Result<SharedStringCollection>)
    requires forall i :: 0 <= i < |items| && items[i].RunsItem? ==> |items[i].runs| > 0
    ensures r.Err? <==> !PlainValuesDistinct(items)
    ensures r.Err? ==> r.error == Failure(DuplicateKey)
    ensures r.Ok? ==> fresh(r.value) && r.value.Valid() && r.value.Dense() && |r.value.entries| == |items| &&
                      forall i :: 0 <= i < |items| ==> r.value.entries[i].Data() == ItemContent(items[i])
  {
    var table := new SharedStringCollection();
    var n := 0;
    while n < |items|
      invariant 0 <= n <= |items|
      invariant fresh(table) && table.Valid() && table.Dense() && |table.entries| == n
      invariant forall i :: 0 <= i < n ==> table.entries[i].Data() == ItemContent(items[i])
      invariant PlainValuesDistinct(items[..n])
    {
      var c := ItemContent(items[n]);
      if c.runs.None? && c.value in table.stringDictionary {
        var i := table.stringDictionary[c.value];
        assert 0 <= i < n && table.entries[i].Data() == ItemContent(items[i]);
        return Err(Failure(DuplicateKey));
      }
      forall i | 0 <= i < n && ItemContent(items[i]).runs.None?
        ensures ItemContent(items[i]).value != c.value || c.runs.Some?
      {
        assert table.entries[i].Data() == ItemContent(items[i]);
      }
      table.EnterRead(items[n]);
      n := n + 1;
    }
    assert items[..n] == items;
    r := Ok(table);
  }
}
