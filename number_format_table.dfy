/**
 * The number-format collection: a fixed dictionary of built-in formats
 * (ids below 164) and a dictionary of custom formats that starts with the
 * default format (id -1) and grows by Insert.
 */
module NumberFormatTables {
  import opened Wrappers
  import opened OfficeUtilities
  import opened NumberFormats

  /** The first `n` formats of a list loaded into a dictionary by id, a later one replacing an earlier one. */
  ghost function ById(formats: seq<NumberFormat>, n: nat): map<int, NumberFormat>
    requires n <= |formats|
  {
    if n == 0 then map[]
    else ById(formats, n - 1)[formats[n - 1].numberFormatId := formats[n - 1]]
  }

  /** The built-in formats by id. */
  ghost function BuiltInMap(): map<int, NumberFormat>
  {
    ById(BuiltInFormats, |BuiltInFormats|)
  }

  /** Every format of the list has a built-in id below 164 and is marked built-in. */
  ghost predicate BuiltInShaped(formats: seq<NumberFormat>) {
    forall i :: 0 <= i < |formats| ==> 0 <= formats[i].numberFormatId < FirstCustomId && formats[i].isBuiltIn
  }

  /** Every loaded format sits under its own id, below 164, and is marked built-in; none is lost. */
  lemma {:induction false} ByIdWellFormed(formats: seq<NumberFormat>, n: nat)
    requires n <= |formats| && BuiltInShaped(formats)
    ensures forall k :: k in ById(formats, n) ==>
      ById(formats, n)[k].numberFormatId == k && 0 <= k < FirstCustomId && ById(formats, n)[k].isBuiltIn
    ensures forall i :: 0 <= i < n ==> formats[i].numberFormatId in ById(formats, n)
  {
    if n > 0 {
      ByIdWellFormed(formats, n - 1);
    }
  }

  /** The built-in dictionary: every entry under its own id, below 164, marked built-in; every built-in present. */
  lemma BuiltInMapWellFormed()
    ensures forall k :: k in BuiltInMap() ==>
      BuiltInMap()[k].numberFormatId == k && 0 <= k < FirstCustomId && BuiltInMap()[k].isBuiltIn
    ensures forall i :: 0 <= i < |BuiltInFormats| ==> BuiltInFormats[i].numberFormatId in BuiltInMap()
  {
    BuiltInFormatsWellFormed();
    ByIdWellFormed(BuiltInFormats, |BuiltInFormats|);
  }

  /** The constructor's loading loop: each format is stored under its id in list order. */
  method LoadById(formats: seq<NumberFormat>) returns (loaded: map<int, NumberFormat>)
    ensures loaded == ById(formats, |formats|)
  {
    loaded := map[];
    var i := 0;
    while i < |formats|
      invariant 0 <= i <= |formats|
      invariant loaded == ById(formats, i)
    {
      var nf := formats[i];
      loaded := loaded[nf.numberFormatId := nf];
      i := i + 1;
    }
  }

  /** Some format in the dictionary has this code. */
  ghost predicate HasCode(m: map<int, NumberFormat>, code: Option<string>) {
    exists k :: k in m && m[k].formatCode == code
  }

  /** No two formats in the dictionary share a code. */
  ghost predicate CodesDistinct(m: map<int, NumberFormat>) {
    forall j, k :: j in m && k in m && m[j].formatCode == m[k].formatCode ==> j == k
  }

  /** The string indexer as written: the custom match is looked up only after a built-in match, and replaces it. */
  function CodeLookupAsWritten(builtInMatch: Option<NumberFormat>, customMatch: Option<NumberFormat>): (r: Option<NumberFormat>)
    ensures r.Some? <==> builtInMatch.Some? && customMatch.Some?
    ensures r.Some? ==> r == customMatch
  {
    if builtInMatch.Some? then customMatch else None
  }

  /** The string indexer as intended: a built-in match, else a custom match. */
  function CodeLookup(builtInMatch: Option<NumberFormat>, customMatch: Option<NumberFormat>): (r: Option<NumberFormat>)
    ensures r.Some? <==> builtInMatch.Some? || customMatch.Some?
    ensures builtInMatch.Some? ==> r == builtInMatch
    ensures builtInMatch.None? ==> r == customMatch
  {
    if builtInMatch.Some? then builtInMatch else customMatch
  }

  /** The first format (by id) whose code is `code`. */
  method FirstWithCode(m: map<int, NumberFormat>, code: Option<string>) returns (r: Option<NumberFormat>)
    ensures r.Some? <==> HasCode(m, code)
    ensures r.Some? ==> r.value.formatCode == code && exists k :: k in m && m[k] == r.value
  {
    var key := FindFirst(m, (nf: NumberFormat) => nf.formatCode == code);
    if key.Some? {
      r := Some(m[key.value]);
    } else {
      r := None;
    }
  }

  class NumberFormatTable {
    var builtIns: map<int, NumberFormat>
    var custom: map<int, NumberFormat>

    ghost predicate Valid()
      reads this
    {
      builtIns == BuiltInMap() &&
      DefaultNumberFormatId in custom && custom[DefaultNumberFormatId] == DefaultNumberFormat &&
      (forall k :: k in custom ==> custom[k].numberFormatId == k) &&
      CodesDistinct(custom)
    }

    /** The constructor: the default format as the only custom entry, then the built-ins loaded one by one. */
    constructor()
      ensures Valid()
      ensures custom == map[DefaultNumberFormatId := DefaultNumberFormat]
      ensures forall k :: k in builtIns ==> 0 <= k < FirstCustomId && builtIns[k].isBuiltIn && builtIns[k].numberFormatId == k
    {
      custom := map[DefaultNumberFormatId := DefaultNumberFormat];
      var loaded := LoadById(BuiltInFormats);
      builtIns := loaded;
      BuiltInMapWellFormed();
    }

    /** The custom count (built-ins are not counted). */
    function Count(): nat
      reads this
    {
      |custom|
    }

    /** The id indexer: built-ins first, then custom formats, else null. */
    function Get(id: int): (r: Option<NumberFormat>)
      reads this
      ensures id in builtIns ==> r == Some(builtIns[id])
      ensures id !in builtIns && id in custom ==> r == Some(custom[id])
      ensures r.None? <==> id !in builtIns && id !in custom
    {
      if id in builtIns then Some(builtIns[id])
      else if id in custom then Some(custom[id])
      else None
    }

    /** The dictionary the cell-format reader consults: the id indexer as one map. */
    function View(): (r: map<int, NumberFormat>)
      reads this
      ensures forall id :: (id in r <==> Get(id).Some?) && (id in r ==> Get(id) == Some(r[id]))
    {
      custom + builtIns
    }

    /** Custom ids from 164 on are never shadowed by a built-in. */
    lemma CustomIdsReachCustom(id: int)
      requires Valid() && id >= FirstCustomId && id in custom
      ensures Get(id) == Some(custom[id])
    {
      BuiltInMapWellFormed();
    }

    /** The string indexer as written (see CodeLookupAsWritten). */
    method GetByCodeAsWritten(code: Option<string>) returns (r: Option<NumberFormat>)
      ensures r.Some? <==> HasCode(builtIns, code) && HasCode(custom, code)
      ensures r.Some? ==> r.value.formatCode == code && exists k :: k in custom && custom[k] == r.value
    {
      var builtInMatch := FirstWithCode(builtIns, code);
      var customMatch := FirstWithCode(custom, code);
      r := CodeLookupAsWritten(builtInMatch, customMatch);
    }

    /** The string indexer, corrected: a built-in with the code, else a custom format with it. */
    method GetByCode(code: Option<string>) returns (r: Option<NumberFormat>)
      ensures r.Some? <==> HasCode(builtIns, code) || HasCode(custom, code)
      ensures r.Some? ==> r.value.formatCode == code
      ensures HasCode(builtIns, code) ==> r.Some? && exists k :: k in builtIns && builtIns[k] == r.value
      ensures !HasCode(builtIns, code) && r.Some? ==> exists k :: k in custom && custom[k] == r.value
    {
      var builtInMatch := FirstWithCode(builtIns, code);
      var customMatch := FirstWithCode(custom, code);
      r := CodeLookup(builtInMatch, customMatch);
    }

    /** The value indexer: equality is by code, so a built-in equal format first, then a custom one. */
    method Find(nf: NumberFormat) returns (r: Option<NumberFormat>)
      ensures r.Some? <==> HasCode(builtIns, nf.formatCode) || HasCode(custom, nf.formatCode)
      ensures r.Some? ==> NumberFormatsEqual(r.value, nf)
      ensures HasCode(builtIns, nf.formatCode) ==> r.Some? && exists k :: k in builtIns && builtIns[k] == r.value
      ensures !HasCode(builtIns, nf.formatCode) && r.Some? ==> exists k :: k in custom && custom[k] == r.value
    {
      r := GetByCode(nf.formatCode);
    }

    /** GenerateNewNumberFormatId: 164 while only the default exists, else one past the greatest custom id. */
    method NewId() returns (id: int)
      requires Valid()
      ensures id !in custom && forall k :: k in custom ==> k < id
      ensures |custom| <= 1 ==> id == FirstCustomId
      ensures |custom| > 1 ==> IsMaxKey(custom.Keys, id - 1)
    {
      if |custom| > 1 {
        var high := GetMaxKey(custom);
        id := high + 1;
      } else {
        SingleCustomKey(custom.Keys);
        id := FirstCustomId;
      }
    }

    /** AddNumberFormatToCollection: skipped when a custom format has the code; a taken id raises. */
    method Add(nf: NumberFormat) returns (r: Result<bool>)
      requires Valid() && (nf.numberFormatId == DefaultNumberFormatId ==> nf == DefaultNumberFormat)
      modifies this
      ensures Valid() && builtIns == old(builtIns)
      ensures HasCode(old(custom), nf.formatCode) ==> r == Ok(false) && custom == old(custom)
      ensures !HasCode(old(custom), nf.formatCode) && nf.numberFormatId in old(custom) ==> r.Err? && custom == old(custom)
      ensures !HasCode(old(custom), nf.formatCode) && nf.numberFormatId !in old(custom) ==>
        r == Ok(true) && custom == old(custom)[nf.numberFormatId := nf]
    {
      var existing := FirstWithCode(custom, nf.formatCode);
      if existing.Some? {
        return Ok(false);
      }
      if nf.numberFormatId in custom {
        return Err(Failure("an item with the same key has already been added"));
      }
      custom := custom[nf.numberFormatId := nf];
      return Ok(true);
    }

    /**
     * Insert: an equal built-in or custom format is returned as it is;
     * otherwise a new custom format with the same code and no type yet is
     * stored under a new id.
     */
    method Insert(nf: NumberFormat) returns (r: NumberFormat)
      requires Valid()
      modifies this
      ensures Valid() && builtIns == old(builtIns)
      ensures NumberFormatsEqual(r, nf)
      ensures HasCode(old(builtIns), nf.formatCode) || HasCode(old(custom), nf.formatCode) ==> custom == old(custom)
      ensures !HasCode(old(builtIns), nf.formatCode) && !HasCode(old(custom), nf.formatCode) ==>
        r == NumberFormat(r.numberFormatId, nf.formatCode, false, FormatNone, None) &&
        r.numberFormatId !in old(custom) && (forall k :: k in old(custom) ==> k < r.numberFormatId) &&
        custom == old(custom)[r.numberFormatId := r]
      ensures r.numberFormatId in builtIns || r.numberFormatId in custom
      ensures HasCode(builtIns, nf.formatCode) || HasCode(custom, nf.formatCode)
    {
      var existing := Find(nf);
      BuiltInMapWellFormed();
      if existing.Some? {
        r := existing.value;
        return;
      }
      var id := NewId();
      r := NumberFormat(id, nf.formatCode, false, FormatNone, None);
      var added := Add(r);
      assert custom[id] == r;
    }
  }

  lemma SingleCustomKey(keys: set<int>)
    requires |keys| <= 1 && DefaultNumberFormatId in keys
    ensures keys == {DefaultNumberFormatId}
  {
    assert |keys - {DefaultNumberFormatId}| == |keys| - 1;
    assert keys - {DefaultNumberFormatId} == {};
  }

  /**
   * The string indexer as written misses a built-in code that has no custom
   * twin: "0.00" is built-in (id 2) but the lookup answers null.
   */
  lemma CodeLookupAsWrittenMissesBuiltIn()
    ensures BuiltInFormats[2].formatCode == Some("0.00")
    ensures CodeLookupAsWritten(Some(BuiltInFormats[2]), None) == None
    ensures CodeLookup(Some(BuiltInFormats[2]), None) == Some(BuiltInFormats[2])
  {
  }
}
