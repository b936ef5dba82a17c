/**
 * The defined names of a workbook: a sorted dictionary from name id to
 * defined name. Inserting a name whose sheet, name and scope are already
 * present re-parses the new addresses into the existing name; otherwise
 * the name is stored under the first unused id. The print titles and the
 * print area of a sheet are defined names with reserved names and
 * worksheet scope.
 */
module DefinedNameCollections {
  import opened Wrappers
  import opened Helpers
  import opened Shifts
  import opened OfficeUtilities
  import W = Worksheets
  import WC = WorksheetCollections
  import DN = DefinedNames

  const PrintTitlesName: string := "_xlnm.Print_Titles"
  const PrintAreaName: string := "_xlnm.Print_Area"

  /** The two lookups over the names: the indexer by sheet, name and scope, and the print-name search by sheet index. */
  datatype Query =
    | ByName(worksheet: Option<WC.Sheet>, name: string, scope: DN.Scope)
    | PrintName(sheetIndex: int, printName: string)

  /**
   * The test a lookup applies to one name. The indexer compares sheets
   * by index, names ignoring case, and scopes; the print-name search
   * compares the sheet index and the name exactly. A name without a sheet
   * (or, for the indexer, a request without one) is a null reference.
   */
  function Test(n: DN.DefinedName, q: Query): (r: Result<bool>)
    reads n
  {
    match q
    case ByName(worksheet, name, scope) =>
      if n.worksheet.None? || worksheet.None? then Err(NullReference)
      else Ok(n.worksheet.value.index == worksheet.value.index && EqualsIgnoreCase(n.name, name) && n.scope == scope)
    case PrintName(sheetIndex, printName) =>
      if n.worksheet.None? then Err(NullReference)
      else Ok(n.worksheet.value.index == sheetIndex && n.name == printName)
  }

  /**
   * FirstOrDefault over the names in id order: the first one that passes
   * the test, none when none does, and the null reference of the first
   * name that cannot be tested.
   */
  function FirstMatch(ordered: seq<DN.DefinedName>, q: Query): (r: Result<Option<DN.DefinedName>>)
    reads ordered
    ensures r.Err? ==> r.error == NullReference
    ensures r.Ok? && r.value.Some? ==> r.value.value in ordered && Test(r.value.value, q) == Ok(true)
    ensures r.Ok? && r.value.None? <==> forall i :: 0 <= i < |ordered| ==> Test(ordered[i], q) == Ok(false)
  {
    if ordered == [] then Ok(None)
    else
      match Test(ordered[0], q)
      case Err(e) => Err(e)
      case Ok(true) => Ok(Some(ordered[0]))
      case Ok(false) =>
        var rest := FirstMatch(ordered[1..], q);
        assert forall i :: 1 <= i < |ordered| ==> ordered[i] == ordered[1..][i - 1];
        rest
  }

  /** The first name that passes the test, all before it failing it, is the one found. */
  lemma {:induction false} FirstMatchIsFirst(ordered: seq<DN.DefinedName>, q: Query, i: int)
    requires 0 <= i < |ordered| && Test(ordered[i], q) == Ok(true)
    requires forall j :: 0 <= j < i ==> Test(ordered[j], q) == Ok(false)
    ensures FirstMatch(ordered, q) == Ok(Some(ordered[i]))
    decreases i
  {
    if i > 0 {
      FirstMatchIsFirst(ordered[1..], q, i - 1);
    }
  }

  /** The values in id order are exactly the stored names. */
  lemma NamesListed(names: map<int, DN.DefinedName>)
    ensures forall t :: 0 <= t < |Ordered(names)| ==> Ordered(names)[t] in names.Values
    ensures forall k :: k in names ==> names[k] in Ordered(names)
  {
    var keys := KeysIn(names, Lo(names), Hi(names));
    ValuesInKeys(names, Lo(names), Hi(names));
    InSpan(names);
    forall t | 0 <= t < |Ordered(names)|
      ensures Ordered(names)[t] in names.Values
    {
      assert Ordered(names)[t] == names[keys[t]];
    }
    forall k | k in names
      ensures names[k] in Ordered(names)
    {
      var t :| 0 <= t < |keys| && keys[t] == k;
      assert Ordered(names)[t] == names[k];
    }
  }

  /** A sheet name that GetAddressString can write and the parsing read back. */
  predicate WritableSheetName(name: string)
  {
    name != "" && name[0] != '\''
  }

  /** Local addresses that GetAddressString can write and the parsing read back. */
  predicate WritableLocals(locals: seq<string>)
  {
    |locals| >= 1 && forall i :: 0 <= i < |locals| ==> DN.PlainLocal(locals[i])
  }

  /** A local address string whose pieces GetFullAddress and the parsing carry through unchanged. */
  predicate PrintableLocal(localAddress: string)
  {
    '!' !in localAddress && '\'' !in localAddress
  }

  /** A sheet name that differs only in case from a writable one is writable. */
  lemma WritableIgnoringCase(a: string, b: string)
    requires EqualsIgnoreCase(a, b) && WritableSheetName(a)
    ensures WritableSheetName(b)
  {
    EqualsIgnoreCaseKeepsLength(a, b);
    assert ToLowerChar(a[0]) == ToLower(a)[0] == ToLower(b)[0] == ToLowerChar(b[0]);
  }

  /**
   * A print name inserted for a writable sheet: its address string, as
   * the name writes it, parses back into the sheet's own name and the
   * pieces of the local address, and the sheet the stored name resolves
   * that name to is the one asked for, up to case.
   */
  lemma PrintNameStored(sheets: map<int, WC.Sheet>, worksheetName: string, localAddress: string,
                        addresses: seq<string>, resolved: Option<WC.Sheet>, stored: Option<WC.Sheet>)
    requires WritableSheetName(worksheetName) && PrintableLocal(localAddress)
    requires var built := DN.ParsedAddresses(W.Join(W.Qualified(W.EscapedName(worksheetName), W.Split(localAddress, ',')), ','));
      built.Ok? && addresses == built.value.1 && DN.Resolved(sheets, built.value.0, resolved)
    requires DN.AddressString(addresses, resolved, false).Ok?
    requires DN.ParsedAddresses(DN.AddressString(addresses, resolved, false).value).Ok?
    requires DN.Resolved(sheets, DN.ParsedAddresses(DN.AddressString(addresses, resolved, false).value).value.0, stored)
    ensures addresses == W.Split(localAddress, ',') && resolved.Some?
    ensures DN.ParsedAddresses(DN.AddressString(addresses, resolved, false).value) == Ok((resolved.value.name, addresses))
    ensures stored.Some? && EqualsIgnoreCase(worksheetName, stored.value.name)
  {
    PrintAddressReadsBack(worksheetName, localAddress);
    var pieces := W.Split(localAddress, ',');
    assert resolved.Some? by {
      assert |pieces| >= 1;
    }
    var sheet := resolved.value;
    assert EqualsIgnoreCase(worksheetName, sheet.name);
    WritableIgnoringCase(worksheetName, sheet.name);
    PrintablePieces(localAddress);
    DN.FullAddressStringReadsBack(sheet, pieces);
    assert WC.NameTaken(sheets, sheet.name) by {
      EqualsIgnoreCaseIsEquivalence(sheet.name, sheet.name, sheet.name);
      assert sheets[sheet.index].name == sheet.name;
    }
    EqualsIgnoreCaseIsEquivalence(worksheetName, sheet.name, stored.value.name);
  }

  /** The pieces of a printable local address string are plain local addresses. */
  lemma PrintablePieces(localAddress: string)
    requires PrintableLocal(localAddress)
    ensures WritableLocals(W.Split(localAddress, ','))
  {
    var pieces := W.Split(localAddress, ',');
    forall i, c | 0 <= i < |pieces| && c in pieces[i]
      ensures c != '!' && c != '\''
    {
      DN.JoinKeepsChars(pieces, i, c);
    }
  }

  /**
   * The full address SetWorksheetPrintTitles and SetWorksheetPrintArea
   * build for a writable sheet name parses back into that name and the
   * pieces of the local address string.
   */
  lemma PrintAddressReadsBack(name: string, localAddress: string)
    requires WritableSheetName(name) && PrintableLocal(localAddress)
    ensures DN.ParsedAddresses(W.Join(W.Qualified(W.EscapedName(name), W.Split(localAddress, ',')), ','))
      == Ok((name, W.Split(localAddress, ',')))
  {
    PrintablePieces(localAddress);
    DN.AsWrittenAddressStringRoundTrip(name, W.Split(localAddress, ','));
  }

  class DefinedNameCollection {
    const book: WC.WorksheetCollection
    var names: map<int, DN.DefinedName>

    /** Every name is stored under its own id and belongs to this workbook. */
    ghost predicate Valid()
      reads this, book
    {
      book.Valid() && forall k :: k in names ==> names[k].nameId == k && names[k].book == book
    }

    constructor(book: WC.WorksheetCollection)
      requires book.Valid()
      ensures Valid() && this.book == book && names == map[]
    {
      this.book := book;
      names := map[];
    }

    /** What a lookup finds among the names as they stand. */
    ghost function Lookup(q: Query): Result<Option<DN.DefinedName>>
      reads this, names.Values
    {
      NamesListed(names);
      FirstMatch(Ordered(names), q)
    }

    /** The indexer by sheet, name and scope: FirstOrDefault over the names in id order. */
    method Find(worksheet: Option<WC.Sheet>, name: string, scope: DN.Scope) returns (r: Result<Option<DN.DefinedName>>)
      ensures r == Lookup(ByName(worksheet, name, scope))
    {
      r := Search(ByName(worksheet, name, scope));
    }

    /** The search shared by the indexer and the print-name lookups. */
    method Search(q: Query) returns (r: Result<Option<DN.DefinedName>>)
      ensures r == Lookup(q)
    {
      var ordered := OrderedValues(names);
      var i := 0;
      while i < |ordered|
        invariant 0 <= i <= |ordered|
        invariant FirstMatch(ordered, q) == FirstMatch(ordered[i..], q)
      {
        assert ordered[i..][1..] == ordered[i + 1..];
        var tested := Test(ordered[i], q);
        if tested.Err? {
          return Err(tested.error);
        }
        if tested.value {
          return Ok(Some(ordered[i]));
        }
        i := i + 1;
      }
      r := Ok(None);
    }

    method Contains(nameId: int) returns (b: bool)
      ensures b <==> nameId in names
    {
      b := nameId in names;
    }

    /** The indexer by id: the name stored under it, or none. */
    method Get(nameId: int) returns (r: Option<DN.DefinedName>)
      ensures nameId in names ==> r == Some(names[nameId])
      ensures nameId !in names ==> r == None
    {
      if nameId in names {
        r := Some(names[nameId]);
      } else {
        r := None;
      }
    }

    /** Delete: the name under the id goes; a missing id changes nothing. */
    method Delete(nameId: int)
      requires Valid()
      modifies this
      ensures Valid() && names == old(names) - {nameId}
    {
      var present := Contains(nameId);
      if present {
        names := names - {nameId};
      }
    }

    /** GenerateNewNameId: the smallest id not in use. */
    method GenerateNewNameId() returns (nameId: int)
      ensures IsFirstUnused(names.Keys, nameId)
    {
      nameId := GetFirstUnusedKey(names);
    }

    /** AddDefinedNameToCollection: stored under its own id unless that id is taken. */
    method AddDefinedNameToCollection(definedName: DN.DefinedName)
      requires Valid() && definedName.book == book
      modifies this
      ensures Valid()
      ensures names == if definedName.nameId in old(names) then old(names) else old(names)[definedName.nameId := definedName]
    {
      var present := Contains(definedName.nameId);
      if !present {
        names := names[definedName.nameId := definedName];
      }
    }

    /** The name the indexer finds for the sheet, name and scope of `d`. */
    ghost function Matching(d: DN.DefinedName): Result<Option<DN.DefinedName>>
      reads this, names.Values, d
    {
      Lookup(ByName(d.worksheet, d.name, d.scope))
    }

    /**
     * Insert: a name with the same sheet, name and scope takes the
     * addresses of the new one, written out and parsed again, and nothing
     * is added; otherwise a new name with those addresses is stored under
     * the first unused id.
     */
    method Insert(definedName: DN.DefinedName) returns (r: Result<DN.DefinedName>)
      requires Valid() && definedName.book == book
      modifies this, names.Values
      ensures Valid()
      ensures old(Matching(definedName)).Err? ==> r == Err(NullReference) && names == old(names)
      ensures old(Matching(definedName)).Ok? && old(Matching(definedName)).value.Some? ==>
        names == old(names) && (r.Ok? ==> r.value == old(Matching(definedName)).value.value)
      ensures old(Matching(definedName)) == Ok(None) && r.Ok? ==>
        fresh(r.value) && IsFirstUnused(old(names).Keys, r.value.nameId) && names == old(names)[r.value.nameId := r.value]
      ensures old(Matching(definedName)) == Ok(None) && r.Err? ==> names == old(names)
      ensures r.Ok? ==> r.value in names.Values && EqualsIgnoreCase(r.value.name, definedName.name) && r.value.scope == definedName.scope
      ensures r.Ok? ==> var written := old(DN.AddressString(definedName.addresses, definedName.worksheet, false));
        written.Ok? && var parsed := DN.ParsedAddresses(written.value);
        parsed.Ok? && r.value.addresses == parsed.value.1 && DN.Resolved(book.sheets, parsed.value.0, r.value.worksheet)
      ensures forall m :: m in old(names.Values) ==> unchanged(m) || (r.Ok? && m == r.value)
    {
      var existing := Find(definedName.worksheet, definedName.name, definedName.scope);
      if existing.Err? {
        return Err(existing.error);
      }
      if existing.value.Some? {
        var n := existing.value.value;
        assert n in names.Values by {
          NamesListed(names);
        }
        var addressString := definedName.GetAddressString(false);
        var updated := n.SetAddresses(addressString.value);
        if updated.Err? {
          return Err(updated.error);
        }
        return Ok(n);
      }
      r := InsertNew(definedName);
      if r.Ok? {
        EqualsIgnoreCaseIsEquivalence(r.value.name, r.value.name, r.value.name);
        assert names[r.value.nameId] == r.value;
      }
    }

    /** The branch of Insert that finds no name to update: a new name under the first unused id. */
    method InsertNew(definedName: DN.DefinedName) returns (r: Result<DN.DefinedName>)
      requires Valid() && definedName.book == book
      modifies this
      ensures Valid()
      ensures r.Ok? ==> fresh(r.value) && IsFirstUnused(old(names).Keys, r.value.nameId) && names == old(names)[r.value.nameId := r.value]
      ensures r.Ok? ==> r.value.name == definedName.name && r.value.scope == definedName.scope
      ensures r.Ok? ==> var written := DN.AddressString(definedName.addresses, definedName.worksheet, false);
        written.Ok? && var parsed := DN.ParsedAddresses(written.value);
        parsed.Ok? && r.value.addresses == parsed.value.1 && DN.Resolved(book.sheets, parsed.value.0, r.value.worksheet)
      ensures r.Err? ==> names == old(names)
    {
      var nameId := GenerateNewNameId();
      var addressString := definedName.GetAddressString(false);
      if addressString.Err? {
        return Err(addressString.error);
      }
      var newName := DN.NewDefinedName(book, nameId, definedName.name, addressString.value, definedName.scope);
      if newName.Err? {
        return Err(newName.error);
      }
      AddDefinedNameToCollection(newName.value);
      var stored := Get(nameId);
      r := Ok(stored.value);
    }

    /**
     * DeleteWorksheetNames: every name on the sheet with the index given
     * goes, in id order; a name without a sheet stops the walk with a
     * null reference, the names deleted before it staying deleted.
     */
    method DeleteWorksheetNames(sheetIndex: int) returns (r: Result<()>)
      requires Valid()
      modifies this
      ensures Valid()
      ensures names == old(names) - Sweep(old(Ordered(names)), sheetIndex).0
      ensures r == if Sweep(old(Ordered(names)), sheetIndex).1 then Err(NullReference) else Ok(())
      ensures r.Ok? ==> forall k :: k in old(names) ==> (k in names <==> !OnSheet(old(names)[k], sheetIndex))
    {
      SweepExact(names, sheetIndex);
      ghost var swept := Sweep(Ordered(names), sheetIndex);
      var ordered := OrderedValues(names);
      r := DeleteNamesOn(ordered, sheetIndex);
      assert swept == Sweep(ordered, sheetIndex);
    }

    /** The walk of DeleteWorksheetNames over the names as they stood when it began. */
    method DeleteNamesOn(ordered: seq<DN.DefinedName>, sheetIndex: int) returns (r: Result<()>)
      requires Valid()
      modifies this
      ensures Valid()
      ensures names == old(names) - Sweep(ordered, sheetIndex).0
      ensures r == if Sweep(ordered, sheetIndex).1 then Err(NullReference) else Ok(())
    {
      var i := 0;
      ghost var removed: set<int> := {};
      assert ordered[..0] == [];
      while i < |ordered|
        invariant 0 <= i <= |ordered|
        invariant Valid()
        invariant Sweep(ordered[..i], sheetIndex) == (removed, false)
        invariant names == old(names) - removed
      {
        var n := ordered[i];
        SweepSnoc(ordered, i, sheetIndex);
        if n.worksheet.None? {
          SweepStops(ordered, i + 1, sheetIndex);
          return Err(NullReference);
        }
        if n.worksheet.value.index == sheetIndex {
          Delete(n.nameId);
          removed := removed + {n.nameId};
        }
        i := i + 1;
      }
      assert ordered[..i] == ordered;
      r := Ok(());
    }

    /**
     * SetWorksheetPrintTitles and SetWorksheetPrintArea: a name with the
     * reserved name, worksheet scope and the full address of the local
     * address on the sheet, inserted.
     */
    method SetWorksheetPrintName(worksheet: WC.Sheet, printName: string, localAddress: string) returns (r: Result<DN.DefinedName>)
      requires Valid()
      modifies this, names.Values
      ensures Valid()
      ensures r.Ok? ==> r.value in names.Values && EqualsIgnoreCase(r.value.name, printName) && r.value.scope == DN.WorksheetScope
      ensures r.Ok? && WritableSheetName(worksheet.name) && PrintableLocal(localAddress) ==>
        r.value.addresses == W.Split(localAddress, ',') &&
        r.value.worksheet.Some? && EqualsIgnoreCase(worksheet.name, r.value.worksheet.value.name)
    {
      var fullAddress := W.GetFullAddress(worksheet.name, localAddress);
      var definedName := DN.NewDefinedName(book, -1, printName, fullAddress, DN.WorksheetScope);
      if definedName.Err? {
        return Err(definedName.error);
      }
      ghost var addresses := definedName.value.addresses;
      ghost var resolved := definedName.value.worksheet;
      r := Insert(definedName.value);
      if r.Ok? && WritableSheetName(worksheet.name) && PrintableLocal(localAddress) {
        PrintNameStored(book.sheets, worksheet.name, localAddress, addresses, resolved, r.value.worksheet);
      }
    }

    method SetWorksheetPrintTitles(worksheet: WC.Sheet, localAddress: string) returns (r: Result<DN.DefinedName>)
      requires Valid()
      modifies this, names.Values
      ensures Valid()
      ensures r.Ok? ==> r.value in names.Values && EqualsIgnoreCase(r.value.name, PrintTitlesName) && r.value.scope == DN.WorksheetScope
    {
      r := SetWorksheetPrintName(worksheet, PrintTitlesName, localAddress);
    }

    method SetWorksheetPrintArea(worksheet: WC.Sheet, localAddress: string) returns (r: Result<DN.DefinedName>)
      requires Valid()
      modifies this, names.Values
      ensures Valid()
      ensures r.Ok? ==> r.value in names.Values && EqualsIgnoreCase(r.value.name, PrintAreaName) && r.value.scope == DN.WorksheetScope
    {
      r := SetWorksheetPrintName(worksheet, PrintAreaName, localAddress);
    }

    /**
     * GetWorksheetPrintTitlesDefinedName and GetWorksheetPrintAreaDefinedName:
     * the local addresses of the first name on the sheet with the print
     * name, joined with commas; "" when there is none.
     */
    method GetWorksheetPrintName(worksheet: WC.Sheet, printName: string) returns (r: Result<string>)
      ensures var found := Lookup(PrintName(worksheet.index, printName));
        r == (if found.Err? then Err(found.error)
              else if found.value.None? then Ok("")
              else Ok(W.Join(found.value.value.addresses, ',')))
    {
      var found := Search(PrintName(worksheet.index, printName));
      if found.Err? {
        return Err(found.error);
      }
      if found.value.None? {
        return Ok("");
      }
      r := found.value.value.GetAddressString(true);
    }

    method GetWorksheetPrintTitlesDefinedName(worksheet: WC.Sheet) returns (r: Result<string>)
      ensures var found := Lookup(PrintName(worksheet.index, PrintTitlesName));
        r == (if found.Err? then Err(found.error)
              else if found.value.None? then Ok("")
              else Ok(W.Join(found.value.value.addresses, ',')))
    {
      r := GetWorksheetPrintName(worksheet, PrintTitlesName);
    }

    method GetWorksheetPrintAreaDefinedName(worksheet: WC.Sheet) returns (r: Result<string>)
      ensures var found := Lookup(PrintName(worksheet.index, PrintAreaName));
        r == (if found.Err? then Err(found.error)
              else if found.value.None? then Ok("")
              else Ok(W.Join(found.value.value.addresses, ',')))
    {
      r := GetWorksheetPrintName(worksheet, PrintAreaName);
    }
  }

  /** The ids DeleteWorksheetNames removes walking the names in id order, and whether a name without a sheet stopped the walk. */
  function Sweep(ordered: seq<DN.DefinedName>, sheetIndex: int): (r: (set<int>, bool))
    reads ordered
    ensures !r.1 ==> forall i :: 0 <= i < |ordered| ==> ordered[i].worksheet.Some?
    ensures !r.1 ==> forall i :: 0 <= i < |ordered| && OnSheet(ordered[i], sheetIndex) ==> ordered[i].nameId in r.0
  {
    if ordered == [] then ({}, false)
    else
      var before := Sweep(ordered[..|ordered| - 1], sheetIndex);
      assert forall i :: 0 <= i < |ordered| - 1 ==> ordered[..|ordered| - 1][i] == ordered[i];
      SweepStep(before, ordered[|ordered| - 1], sheetIndex)
  }

  /** One name of the walk: deleted when it lies on the sheet, the walk stopped when it has no sheet. */
  function SweepStep(before: (set<int>, bool), n: DN.DefinedName, sheetIndex: int): (set<int>, bool)
    reads n
  {
    if before.1 then before
    else if n.worksheet.None? then (before.0, true)
    else if n.worksheet.value.index == sheetIndex then (before.0 + {n.nameId}, false)
    else before
  }

  lemma SweepSnoc(ordered: seq<DN.DefinedName>, i: int, sheetIndex: int)
    requires 0 <= i < |ordered|
    ensures Sweep(ordered[..i + 1], sheetIndex) == SweepStep(Sweep(ordered[..i], sheetIndex), ordered[i], sheetIndex)
  {
    assert ordered[..i + 1][..i] == ordered[..i];
  }

  /** A name that lies on the sheet with the index given. */
  predicate OnSheet(n: DN.DefinedName, sheetIndex: int)
    reads n
  {
    n.worksheet.Some? && n.worksheet.value.index == sheetIndex
  }

  /** Once a name without a sheet has stopped the walk, the names after it are not looked at. */
  lemma {:induction false} SweepStops(ordered: seq<DN.DefinedName>, i: int, sheetIndex: int)
    requires 0 <= i <= |ordered| && Sweep(ordered[..i], sheetIndex).1
    ensures Sweep(ordered, sheetIndex) == Sweep(ordered[..i], sheetIndex)
    decreases |ordered|
  {
    if i < |ordered| {
      var shorter := ordered[..|ordered| - 1];
      assert shorter[..i] == ordered[..i];
      SweepStops(shorter, i, sheetIndex);
    } else {
      assert ordered[..i] == ordered;
    }
  }

  /** Every id the walk removes is that of a name on the sheet. */
  lemma {:induction false} SweepOnlyOnSheet(ordered: seq<DN.DefinedName>, sheetIndex: int, k: int)
    requires k in Sweep(ordered, sheetIndex).0
    ensures exists i :: 0 <= i < |ordered| && ordered[i].nameId == k && OnSheet(ordered[i], sheetIndex)
    decreases |ordered|
  {
    var shorter := ordered[..|ordered| - 1];
    if k in Sweep(shorter, sheetIndex).0 {
      SweepOnlyOnSheet(shorter, sheetIndex, k);
      var i :| 0 <= i < |shorter| && shorter[i].nameId == k && OnSheet(shorter[i], sheetIndex);
      assert ordered[i] == shorter[i];
    } else {
      assert ordered[|ordered| - 1].nameId == k && OnSheet(ordered[|ordered| - 1], sheetIndex);
    }
  }

  /**
   * A walk that no name without a sheet stops removes exactly the names
   * on the sheet, and a walk removes nothing but stored names.
   */
  lemma SweepExact(names: map<int, DN.DefinedName>, sheetIndex: int)
    requires forall k :: k in names ==> names[k].nameId == k
    ensures Sweep(Ordered(names), sheetIndex).0 <= names.Keys
    ensures !Sweep(Ordered(names), sheetIndex).1 ==>
      forall k :: k in names ==> (k in Sweep(Ordered(names), sheetIndex).0 <==> OnSheet(names[k], sheetIndex))
  {
    var ordered := Ordered(names);
    var swept := Sweep(ordered, sheetIndex);
    NamesListed(names);
    forall k | k in swept.0
      ensures k in names && OnSheet(names[k], sheetIndex)
    {
      SweepOnlyOnSheet(ordered, sheetIndex, k);
      var i :| 0 <= i < |ordered| && ordered[i].nameId == k && OnSheet(ordered[i], sheetIndex);
      assert ordered[i] in names.Values;
      var k' :| k' in names && names[k'] == ordered[i];
    }
    if !swept.1 {
      forall k | k in names && OnSheet(names[k], sheetIndex)
        ensures k in swept.0
      {
        var i :| 0 <= i < |ordered| && ordered[i] == names[k];
      }
    }
  }

  /**
   * WorksheetCollection.Delete with the workbook's names: refused when the
   * sheet is the only one; otherwise, when the index is present, the names
   * on that sheet are deleted first and then the sheet goes, every later
   * sheet moving down by one. A name without a sheet stops the name walk
   * with a null reference before any sheet is deleted.
   */
  method DeleteWorksheet(definedNames: DefinedNameCollection, index: int) returns (r: Result<bool>)
    requires definedNames.Valid()
    modifies definedNames, definedNames.book
    ensures definedNames.Valid()
    ensures definedNames.book.hasLoaded == old(definedNames.book.hasLoaded) && definedNames.book.activeTab == old(definedNames.book.activeTab)
    ensures |old(definedNames.book.sheets)| == 1 ==>
      r == Err(Failure(WC.LastWorksheet)) && definedNames.book.sheets == old(definedNames.book.sheets) && definedNames.names == old(definedNames.names)
    ensures |old(definedNames.book.sheets)| != 1 && index !in old(definedNames.book.sheets) ==>
      r == Ok(false) && definedNames.book.sheets == old(definedNames.book.sheets) && definedNames.names == old(definedNames.names)
    ensures |old(definedNames.book.sheets)| != 1 && index in old(definedNames.book.sheets) ==>
      var swept := old(Sweep(Ordered(definedNames.names), index));
      definedNames.names == old(definedNames.names) - swept.0 &&
      if swept.1 then r == Err(NullReference) && definedNames.book.sheets == old(definedNames.book.sheets)
      else r == Ok(true) && definedNames.book.sheets == ShiftDown(old(definedNames.book.sheets), index, WC.MoveSheet)
  {
    var book := definedNames.book;
    if |book.sheets| == 1 {
      return Err(Failure(WC.LastWorksheet));
    }
    if index !in book.sheets {
      return Ok(false);
    }
    ghost var ordered := Ordered(definedNames.names);
    ghost var swept := Sweep(ordered, index);
    var deleted := definedNames.DeleteWorksheetNames(index);
    assert Sweep(ordered, index) == swept;
    if deleted.Err? {
      return Err(deleted.error);
    }
    r := book.Delete(index);
  }
}
