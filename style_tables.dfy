/**
 * The interning tables of the stylesheet. Fonts, fills, borders and cell
 * formats each live in a sorted dictionary from id to value; inserting a
 * value returns an equal stored value when there is one, and otherwise
 * stores a copy under the first unused id. The four collections differ only
 * in their value type, so one class holds the shared behaviour and a factory
 * per collection supplies the value type's id, copy and equality.
 */
module StyleTables {
  import opened Wrappers
  import opened OfficeUtilities
  import Fo = Fonts
  import Fi = Fills
  import B = Borders
  import CF = CellFormats

  /** Every entry of dictionary `m0` is still in `m1`, under the same id. */
  ghost predicate Kept<V>(m0: map<int, V>, m1: map<int, V>)
  {
    forall k :: k in m0 ==> k in m1 && m1[k] == m0[k]
  }

  class StyleTable<V(!new)> {
    /** The dictionary, keyed by each value's own id. */
    var entries: map<int, V>
    /** The id a value carries. */
    const idOf: V -> int
    /** The copy Insert stores under a new id. */
    const withId: (V, int) -> V
    /** The value type's Equals, with the stored value as receiver. */
    const equal: (V, V) -> bool
    /** The values the table can hold and compare without raising. */
    const storable: V -> bool
    /** The id the Default getter reads. */
    const defaultId: int

    /** A stored copy carries its new id, stays storable and is equal to the value it copies. */
    ghost predicate Laws()
    {
      forall v, id :: storable(v) ==> idOf(withId(v, id)) == id && storable(withId(v, id)) && equal(withId(v, id), v)
    }

    ghost predicate Valid()
      reads this
    {
      Laws() && forall k :: k in entries ==> idOf(entries[k]) == k && storable(entries[k])
    }

    constructor(idOf: V -> int, withId: (V, int) -> V, equal: (V, V) -> bool, storable: V -> bool, defaultId: int)
      requires forall v, id :: storable(v) ==> idOf(withId(v, id)) == id && storable(withId(v, id)) && equal(withId(v, id), v)
      ensures Valid() && entries == map[]
      ensures this.idOf == idOf && this.withId == withId && this.equal == equal && this.storable == storable
      ensures this.defaultId == defaultId
    {
      this.idOf := idOf;
      this.withId := withId;
      this.equal := equal;
      this.storable := storable;
      this.defaultId := defaultId;
      entries := map[];
    }

    function Count(): nat
      reads this
    {
      |entries|
    }

    /** The id indexer: null for a missing id. */
    function Get(id: int): (r: Option<V>)
      reads this
      ensures r.Some? <==> id in entries
      ensures r.Some? ==> r.value == entries[id]
    {
      if id in entries then Some(entries[id]) else None
    }

    predicate Contains(id: int)
      reads this
    {
      id in entries
    }

    /** The Default getter: null for an empty table, the entry under the default id otherwise (raising when it is missing). */
    function Default(): (r: Result<Option<V>>)
      reads this
      ensures |entries| == 0 ==> r == Ok(None)
      ensures |entries| > 0 && defaultId in entries ==> r == Ok(Some(entries[defaultId]))
      ensures |entries| > 0 && defaultId !in entries ==> r == Err(KeyNotFound)
    {
      if |entries| == 0 then Ok(None)
      else if defaultId in entries then Ok(Some(entries[defaultId]))
      else Err(KeyNotFound)
    }

    /** `k` is the first key, in ascending order, whose value is equal to `v`. */
    ghost predicate FirstEqual(m: map<int, V>, v: V, k: int)
    {
      k in m && equal(m[k], v) && forall j :: j in m && j < k ==> !equal(m[j], v)
    }

    lemma FirstEqualIsUnique(m: map<int, V>, v: V, a: int, b: int)
      requires FirstEqual(m, v, a) && FirstEqual(m, v, b)
      ensures a == b
    {
    }

    /** The value indexer: the lowest-key stored value equal to `v`, or null. */
    method Find(v: V) returns (r: Option<V>)
      ensures r.None? <==> forall k :: k in entries ==> !equal(entries[k], v)
      ensures r.Some? ==> exists k :: FirstEqual(entries, v, k) && r.value == entries[k]
    {
      var key := FindFirst(entries, x => equal(x, v));
      if key.Some? {
        r := Some(entries[key.value]);
        assert FirstEqual(entries, v, key.value);
      } else {
        r := None;
      }
    }

    /** GenerateNewId: the first unused id. */
    method NewId() returns (id: int)
      ensures IsFirstUnused(entries.Keys, id)
    {
      id := GetFirstUnusedKey(entries);
    }

    /** What Insert does to dictionary `m0` for value `v`, leaving `m1` and returning `r`. */
    ghost predicate InsertOutcome(m0: map<int, V>, v: V, m1: map<int, V>, r: V)
    {
      if exists k :: k in m0 && equal(m0[k], v) then
        m1 == m0 && exists k :: FirstEqual(m0, v, k) && r == m0[k]
      else
        IsFirstUnused(m0.Keys, idOf(r)) && r == withId(v, idOf(r)) && m1 == m0[idOf(r) := r]
    }

    /** Insert never drops or replaces a stored entry. */
    lemma InsertKeeps(m0: map<int, V>, v: V, m1: map<int, V>, r: V)
      requires InsertOutcome(m0, v, m1, r)
      ensures Kept(m0, m1)
    {
    }

    /** Inserting the same value twice: the second insert changes nothing and returns what the first returned. */
    lemma InsertIsIdempotent(m0: map<int, V>, v: V, m1: map<int, V>, r: V, m2: map<int, V>, r2: V)
      requires Laws() && storable(v)
      requires InsertOutcome(m0, v, m1, r) && InsertOutcome(m1, v, m2, r2)
      ensures m2 == m1 && r2 == r
    {
      if exists k :: k in m0 && equal(m0[k], v) {
        var k :| FirstEqual(m0, v, k) && r == m0[k];
        var k2 :| FirstEqual(m1, v, k2) && r2 == m1[k2];
        FirstEqualIsUnique(m0, v, k, k2);
      } else {
        var n := idOf(r);
        assert equal(m1[n], v);
        var k2 :| FirstEqual(m1, v, k2) && r2 == m1[k2];
        assert k2 == n;
      }
    }

    /** AddToCollection: stores a value under its own id unless that id is taken; never overwrites. */
    method Add(v: V)
      requires Valid() && storable(v)
      modifies this
      ensures Valid()
      ensures idOf(v) in old(entries) ==> entries == old(entries)
      ensures idOf(v) !in old(entries) ==> entries == old(entries)[idOf(v) := v]
    {
      if idOf(v) !in entries {
        entries := entries[idOf(v) := v];
      }
    }

    /**
     * Insert: returns the first equal stored value, or stores the value's
     * copy under the first unused id and returns the copy.
     */
    method Insert(v: V) returns (r: V)
      requires Valid() && storable(v)
      modifies this
      ensures Valid()
      ensures InsertOutcome(old(entries), v, entries, r)
      ensures idOf(r) in entries && entries[idOf(r)] == r && equal(r, v)
      ensures entries == old(entries) || (idOf(r) !in old(entries) && entries == old(entries)[idOf(r) := r])
      ensures |entries| == |old(entries)| || |entries| == |old(entries)| + 1
    {
      var found := Find(v);
      if found.Some? {
        r := found.value;
        return;
      }
      var id := NewId();
      r := withId(v, id);
      Add(r);
    }

    /** Delete: removes the id when present. */
    method Delete(id: int)
      requires Valid()
      modifies this
      ensures Valid()
      ensures entries == old(entries) - {id}
    {
      if id in entries {
        entries := entries - {id};
      }
    }

    /** Clear: removes the greatest key while more than one entry remains. */
    method Clear()
      requires Valid()
      modifies this
      ensures Valid()
      ensures |old(entries)| == 0 ==> entries == map[]
      ensures |old(entries)| > 0 ==> exists k :: IsMinKey(old(entries).Keys, k) && entries == map[k := old(entries)[k]]
    {
      if |entries| == 0 {
        return;
      }
      var low := GetMinKey(entries);
      ghost var original := entries;
      while |entries| > 1
        invariant Valid()
        invariant low in entries
        invariant forall k :: k in entries ==> k in original && entries[k] == original[k]
        decreases |entries|
      {
        var high := GetMaxKey(entries);
        MaxAboveMin(entries.Keys, low, high);
        entries := entries - {high};
      }
      SingletonKeys(entries.Keys, low);
      assert entries == map[low := original[low]];
    }
  }

  /** In a dictionary with more than one key, the greatest key lies above a least one. */
  lemma MaxAboveMin(keys: set<int>, low: int, high: int)
    requires |keys| > 1 && low in keys && IsMaxKey(keys, high)
    requires forall k :: k in keys ==> low <= k
    ensures low < high
  {
    assert |keys - {low}| == |keys| - 1;
    NonEmptyHasMember(keys - {low});
    var k :| k in keys - {low};
  }

  lemma SingletonKeys(keys: set<int>, x: int)
    requires |keys| <= 1 && x in keys
    ensures keys == {x}
  {
    assert |keys - {x}| == |keys| - 1;
    assert keys - {x} == {};
  }

  /** The font collection: fonts compare by their used properties; Insert stores a rebuilt font. */
  method NewFontTable() returns (t: StyleTable<Fo.Font>)
    ensures fresh(t) && t.Valid() && t.entries == map[] && t.defaultId == Fo.DefaultFontId
    ensures forall a, b :: t.equal(a, b) == Fo.FontsEqual(a, b)
    ensures forall f, id :: t.withId(f, id) == Fo.Rebuild(f, id)
    ensures forall f :: t.storable(f) && t.idOf(f) == f.fontId
  {
    forall f: Fo.Font, id: int ensures Fo.FontsEqual(Fo.Rebuild(f, id), f) {
      Fo.RebuildIsEqual(f, id);
    }
    t := new StyleTable((f: Fo.Font) => f.fontId, (f: Fo.Font, id: int) => Fo.Rebuild(f, id),
                        (a: Fo.Font, b: Fo.Font) => Fo.FontsEqual(a, b), (f: Fo.Font) => true, Fo.DefaultFontId);
  }

  /** The fill collection: fills compare by pattern and colours; only defined patterns are stored. */
  method NewFillTable() returns (t: StyleTable<Fi.Fill>)
    ensures fresh(t) && t.Valid() && t.entries == map[] && t.defaultId == Fi.DefaultFillId
    ensures forall a, b :: t.equal(a, b) == Fi.FillsEqual(a, b)
    ensures forall f, id :: t.withId(f, id) == Fi.TableCopy(f, id)
    ensures forall f :: t.storable(f) == CF.StorableFill(f) && t.idOf(f) == f.fillId
  {
    forall f: Fi.Fill, id: int | CF.StorableFill(f)
      ensures CF.StorableFill(Fi.TableCopy(f, id)) && Fi.FillsEqual(Fi.TableCopy(f, id), f)
    {
      Fi.TableCopyIsEqual(f, id);
    }
    t := new StyleTable((f: Fi.Fill) => f.fillId, (f: Fi.Fill, id: int) => Fi.TableCopy(f, id),
                        (a: Fi.Fill, b: Fi.Fill) => Fi.FillsEqual(a, b), (f: Fi.Fill) => CF.StorableFill(f), Fi.DefaultFillId);
  }

  /** The borders collection: Insert stores clones of the five edges; only complete borders are stored. */
  method NewBordersTable() returns (t: StyleTable<B.Borders>)
    ensures fresh(t) && t.Valid() && t.entries == map[] && t.defaultId == B.DefaultBordersId
    ensures forall a, b :: t.equal(a, b) == (B.BordersEqual(a, b) == Ok(true))
    ensures forall b, id :: CF.StorableBorders(b) ==> t.withId(b, id) == B.CloneEdges(b, id)
    ensures forall b :: t.storable(b) == CF.StorableBorders(b) && t.idOf(b) == b.bordersId
  {
    forall b: B.Borders, id: int | CF.StorableBorders(b)
      ensures CF.StorableBorders(B.CloneEdges(b, id)) && B.BordersEqual(B.CloneEdges(b, id), b) == Ok(true)
    {
      B.CloneEdgesIsEqual(b, id);
      forall e ensures B.Slot(B.CloneEdges(b, id), e).value.borderType == e && B.IsBorderStyle(B.Slot(B.CloneEdges(b, id), e).value.style) {
        B.CloneBorderPreserves(B.Slot(b, e).value);
      }
    }
    t := new StyleTable((b: B.Borders) => b.bordersId,
                        (b: B.Borders, id: int) => if CF.StorableBorders(b) then B.CloneEdges(b, id) else b.(bordersId := id),
                        (a: B.Borders, b: B.Borders) => B.BordersEqual(a, b) == Ok(true),
                        (b: B.Borders) => CF.StorableBorders(b), B.DefaultBordersId);
  }

  /** The cell-format collection: composites compare part by part, resolving unset parts to `d`'s defaults. */
  method NewCellFormatTable(d: CF.Defaults) returns (t: StyleTable<CF.CellFormat>)
    ensures fresh(t) && t.Valid() && t.entries == map[] && t.defaultId == CF.DefaultStyleIndex
    ensures forall a, b :: t.equal(a, b) == (CF.CellFormatsEqual(a, b, d) == Ok(true))
    ensures forall c, id :: t.withId(c, id) == CF.WithId(c, id, d)
    ensures forall c :: t.storable(c) == CF.Resolved(c, d) && t.idOf(c) == c.cellFormatId
  {
    forall c: CF.CellFormat, id: int | CF.Resolved(c, d)
      ensures CF.Resolved(CF.WithId(c, id, d), d) && CF.CellFormatsEqual(CF.WithId(c, id, d), c, d) == Ok(true)
    {
      CF.WithIdIsEqual(c, id, d);
    }
    t := new StyleTable((c: CF.CellFormat) => c.cellFormatId, (c: CF.CellFormat, id: int) => CF.WithId(c, id, d),
                        (a: CF.CellFormat, b: CF.CellFormat) => CF.CellFormatsEqual(a, b, d) == Ok(true),
                        (c: CF.CellFormat) => CF.Resolved(c, d), CF.DefaultStyleIndex);
  }
}
