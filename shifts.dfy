/**
 * The shift that every grid collection (cells of a row, rows, columns,
 * worksheets) performs on its int-keyed map: an insert at `index` moves
 * every entry from `index` on one key up, visiting keys in descending
 * order; a delete at `index` drops that entry and moves every entry above
 * it one key down, visiting keys in ascending order. A moved entry is
 * rebound to its new key by `relabel` (a row's index, a column's index).
 */
module Shifts {
  import opened OfficeUtilities

  function Min(a: int, b: int): int {
    if a < b then a else b
  }

  function Max(a: int, b: int): int {
    if a < b then b else a
  }

  /** A range [lo, hi) holding every key. */
  ghost function KeySpan<V>(s: map<int, V>): (r: (int, int))
    ensures forall k :: k in s ==> r.0 <= k < r.1
    decreases |s|
  {
    if |s| == 0 then (0, 0)
    else
      NonEmptyHasMember(s.Keys);
      var k :| k in s;
      var rest := KeySpan(s - {k});
      assert forall k' :: k' in s ==> k' == k || k' in s - {k};
      (Min(k, rest.0), Max(k + 1, rest.1))
  }

  ghost function Lo<V>(s: map<int, V>): int {
    KeySpan(s).0
  }

  ghost function Hi<V>(s: map<int, V>): int {
    KeySpan(s).1
  }

  lemma InSpan<V>(s: map<int, V>)
    ensures forall k :: k in s ==> Lo(s) <= k < Hi(s)
  {
  }

  /** Every entry is bound to its own key: rebinding it there changes nothing. */
  ghost predicate Bound<V>(s: map<int, V>, relabel: (V, int) -> V) {
    forall k :: k in s ==> relabel(s[k], k) == s[k]
  }

  /** Rebinding twice is rebinding once to the last key. */
  ghost predicate Rebinds<V(!new)>(relabel: (V, int) -> V) {
    forall x, a, b :: relabel(relabel(x, a), b) == relabel(x, b)
  }

  // ---------------------------------------------------------------------
  // Shift up (insert)
  // ---------------------------------------------------------------------

  ghost predicate InShiftUp<V>(s: map<int, V>, index: int, j: int) {
    (j in s && j < index) || (j - 1 in s && j - 1 >= index)
  }

  ghost function ShiftUpValue<V>(s: map<int, V>, index: int, relabel: (V, int) -> V, j: int): V
    requires InShiftUp(s, index, j)
  {
    if j < index then s[j] else relabel(s[j - 1], j)
  }

  /** Every entry from `index` on moved one key up and rebound there; `index` itself is left free. */
  ghost function ShiftUp<V>(s: map<int, V>, index: int, relabel: (V, int) -> V): map<int, V>
  {
    map j | Lo(s) <= j <= Hi(s) && InShiftUp(s, index, j) :: ShiftUpValue(s, index, relabel, j)
  }

  /** What the insert shift does, key by key. */
  lemma ShiftUpAt<V>(s: map<int, V>, index: int, relabel: (V, int) -> V)
    ensures index !in ShiftUp(s, index, relabel)
    ensures forall j :: j < index ==> (j in ShiftUp(s, index, relabel) <==> j in s)
    ensures forall j :: j < index && j in s ==> ShiftUp(s, index, relabel)[j] == s[j]
    ensures forall j :: j > index ==> (j in ShiftUp(s, index, relabel) <==> j - 1 in s)
    ensures forall j :: j > index && j - 1 in s ==> ShiftUp(s, index, relabel)[j] == relabel(s[j - 1], j)
  {
    var r := ShiftUp(s, index, relabel);
    InSpan(s);
    forall j | j < index && j in s
      ensures j in r
    {
      assert InShiftUp(s, index, j);
    }
    forall j | j > index && j - 1 in s
      ensures j in r
    {
      assert InShiftUp(s, index, j);
    }
  }

  /** The descending loop after it has moved every affected key above `k`. */
  /** What the insert shift does at one key. */
  lemma ShiftUpKey<V>(s: map<int, V>, index: int, relabel: (V, int) -> V, j: int)
    ensures j < index ==> (j in ShiftUp(s, index, relabel) <==> j in s)
    ensures j < index && j in s ==> ShiftUp(s, index, relabel)[j] == s[j]
    ensures j == index ==> j !in ShiftUp(s, index, relabel)
    ensures j > index ==> (j in ShiftUp(s, index, relabel) <==> j - 1 in s)
    ensures j > index && j - 1 in s ==> ShiftUp(s, index, relabel)[j] == relabel(s[j - 1], j)
  {
    ShiftUpAt(s, index, relabel);
  }

  ghost predicate InShiftedUpAbove<V>(s: map<int, V>, index: int, k: int, j: int) {
    (j in s && (j < index || j <= k)) || (j - 1 in s && j - 1 >= index && j - 1 > k)
  }

  ghost function ShiftedUpAboveValue<V>(s: map<int, V>, index: int, relabel: (V, int) -> V, k: int, j: int): V
    requires InShiftedUpAbove(s, index, k, j)
  {
    if j in s && (j < index || j <= k) then s[j] else relabel(s[j - 1], j)
  }

  ghost function ShiftedUpAbove<V>(s: map<int, V>, index: int, relabel: (V, int) -> V, k: int): map<int, V>
  {
    map j | Lo(s) <= j <= Hi(s) && InShiftedUpAbove(s, index, k, j) :: ShiftedUpAboveValue(s, index, relabel, k, j)
  }

  lemma ShiftUpStart<V>(s: map<int, V>, index: int, relabel: (V, int) -> V, k: int)
    requires forall j :: j in s ==> j <= k
    ensures ShiftedUpAbove(s, index, relabel, k) == s
  {
    var a := ShiftedUpAbove(s, index, relabel, k);
    InSpan(s);
    forall j | j in s
      ensures j in a
    {
      assert InShiftedUpAbove(s, index, k, j);
    }
  }

  /** One step: the entry under `k`, if any, moves to `k + 1`, which the previous steps have freed. */
  lemma ShiftUpStep<V>(s: map<int, V>, index: int, relabel: (V, int) -> V, k: int)
    requires k >= index
    ensures ShiftedUpAbove(s, index, relabel, k - 1) ==
      if k in s then (ShiftedUpAbove(s, index, relabel, k) - {k})[k + 1 := relabel(s[k], k + 1)]
      else ShiftedUpAbove(s, index, relabel, k)
  {
    var a := ShiftedUpAbove(s, index, relabel, k - 1);
    var b := ShiftedUpAbove(s, index, relabel, k);
    var b' := if k in s then (b - {k})[k + 1 := relabel(s[k], k + 1)] else b;
    InSpan(s);
    if k in s {
      assert InShiftedUpAbove(s, index, k - 1, k + 1);
    }
    forall j | j in a
      ensures j in b' && a[j] == b'[j]
    {
      if j != k + 1 || k !in s {
        assert InShiftedUpAbove(s, index, k, j);
      }
    }
    forall j | j in b'
      ensures j in a
    {
      if j != k + 1 || k !in s {
        assert InShiftedUpAbove(s, index, k - 1, j);
      }
    }
    assert a == b';
  }

  lemma ShiftUpEnd<V>(s: map<int, V>, index: int, relabel: (V, int) -> V, k: int)
    requires k < index
    ensures ShiftedUpAbove(s, index, relabel, k) == ShiftUp(s, index, relabel)
  {
    var a := ShiftedUpAbove(s, index, relabel, k);
    var e := ShiftUp(s, index, relabel);
    forall j | j in a
      ensures j in e && a[j] == e[j]
    {
      assert InShiftUp(s, index, j);
    }
    forall j | j in e
      ensures j in a
    {
      assert InShiftedUpAbove(s, index, k, j);
    }
  }

  /** The insert loop: affected keys visited from the highest down, each entry moved one key up. */
  method ShiftUpKeys<V>(s: map<int, V>, index: int, relabel: (V, int) -> V) returns (r: map<int, V>)
    ensures r == ShiftUp(s, index, relabel)
  {
    var high := GetMaxKey(s);
    var k := high;
    r := s;
    ShiftUpStart(s, index, relabel, high);
    while k >= index
      invariant k <= high
      invariant r == ShiftedUpAbove(s, index, relabel, k)
      decreases k - index
    {
      ShiftUpStep(s, index, relabel, k);
      if k in s {
        r := (r - {k})[k + 1 := relabel(s[k], k + 1)];
      }
      k := k - 1;
    }
    ShiftUpEnd(s, index, relabel, k);
  }

  /** With every key at most `bound`, the insert shift puts every key at most `bound + 1`, and `bound + 1` is taken exactly when `bound` was. */
  lemma ShiftUpTop<V>(s: map<int, V>, index: int, relabel: (V, int) -> V, bound: int)
    requires forall k :: k in s ==> k <= bound
    requires index <= bound
    ensures forall k :: k in ShiftUp(s, index, relabel) ==> k <= bound + 1
    ensures bound + 1 in ShiftUp(s, index, relabel) <==> bound in s
  {
    ShiftUpAt(s, index, relabel);
  }

  /** The insert shift keeps every entry bound to its key, and so does storing a new entry in the freed slot. */
  lemma ShiftUpBound<V(!new)>(s: map<int, V>, index: int, relabel: (V, int) -> V, v: V)
    requires Bound(s, relabel) && Rebinds(relabel) && relabel(v, index) == v
    ensures Bound(ShiftUp(s, index, relabel)[index := v], relabel)
  {
    ShiftUpAt(s, index, relabel);
  }

  // ---------------------------------------------------------------------
  // Shift down (delete)
  // ---------------------------------------------------------------------

  ghost predicate InShiftDown<V>(s: map<int, V>, index: int, j: int) {
    (j in s && j < index) || (j + 1 in s && j + 1 > index)
  }

  ghost function ShiftDownValue<V>(s: map<int, V>, index: int, relabel: (V, int) -> V, j: int): V
    requires InShiftDown(s, index, j)
  {
    if j < index then s[j] else relabel(s[j + 1], j)
  }

  /** The entry under `index` dropped and every entry above it moved one key down and rebound there. */
  ghost function ShiftDown<V>(s: map<int, V>, index: int, relabel: (V, int) -> V): map<int, V>
  {
    map j | Lo(s) - 1 <= j < Hi(s) && InShiftDown(s, index, j) :: ShiftDownValue(s, index, relabel, j)
  }

  /** What the delete shift does, key by key. */
  lemma ShiftDownAt<V>(s: map<int, V>, index: int, relabel: (V, int) -> V)
    ensures forall j :: j < index ==> (j in ShiftDown(s, index, relabel) <==> j in s)
    ensures forall j :: j < index && j in s ==> ShiftDown(s, index, relabel)[j] == s[j]
    ensures forall j :: j >= index ==> (j in ShiftDown(s, index, relabel) <==> j + 1 in s)
    ensures forall j :: j >= index && j + 1 in s ==> ShiftDown(s, index, relabel)[j] == relabel(s[j + 1], j)
  {
    var r := ShiftDown(s, index, relabel);
    InSpan(s);
    forall j | j < index && j in s
      ensures j in r
    {
      assert InShiftDown(s, index, j);
    }
    forall j | j >= index && j + 1 in s
      ensures j in r
    {
      assert InShiftDown(s, index, j);
    }
  }

  /** The ascending loop after it has handled every key below `k`. */
  ghost predicate InShiftedDownBelow<V>(s: map<int, V>, index: int, k: int, j: int) {
    (j in s && (j < index || j >= k)) || (j + 1 in s && index < j + 1 < k)
  }

  ghost function ShiftedDownBelowValue<V>(s: map<int, V>, index: int, relabel: (V, int) -> V, k: int, j: int): V
    requires InShiftedDownBelow(s, index, k, j)
  {
    if j < index || j >= k then s[j] else relabel(s[j + 1], j)
  }

  ghost function ShiftedDownBelow<V>(s: map<int, V>, index: int, relabel: (V, int) -> V, k: int): map<int, V>
  {
    map j | Lo(s) - 1 <= j < Hi(s) && InShiftedDownBelow(s, index, k, j) :: ShiftedDownBelowValue(s, index, relabel, k, j)
  }

  lemma ShiftDownStart<V>(s: map<int, V>, index: int, relabel: (V, int) -> V)
    ensures ShiftedDownBelow(s, index, relabel, index) == s
  {
    var a := ShiftedDownBelow(s, index, relabel, index);
    InSpan(s);
    forall j | j in s
      ensures j in a
    {
      assert InShiftedDownBelow(s, index, index, j);
    }
  }

  /** One step: the entry under `k` is removed and, unless it is the deleted one, stored one key down. */
  lemma ShiftDownStep<V>(s: map<int, V>, index: int, relabel: (V, int) -> V, k: int)
    requires index <= k
    ensures ShiftedDownBelow(s, index, relabel, k + 1) ==
      if k !in s then ShiftedDownBelow(s, index, relabel, k)
      else if k == index then ShiftedDownBelow(s, index, relabel, k) - {k}
      else (ShiftedDownBelow(s, index, relabel, k) - {k})[k - 1 := relabel(s[k], k - 1)]
  {
    var a := ShiftedDownBelow(s, index, relabel, k + 1);
    var b := ShiftedDownBelow(s, index, relabel, k);
    var b' := if k !in s then b else if k == index then b - {k} else (b - {k})[k - 1 := relabel(s[k], k - 1)];
    InSpan(s);
    if k in s && k != index {
      assert InShiftedDownBelow(s, index, k + 1, k - 1);
    }
    forall j | j in a
      ensures j in b' && a[j] == b'[j]
    {
      if j != k - 1 || k !in s || k == index {
        assert InShiftedDownBelow(s, index, k, j);
      }
    }
    forall j | j in b'
      ensures j in a
    {
      if j != k - 1 || k !in s || k == index {
        assert InShiftedDownBelow(s, index, k + 1, j);
      }
    }
    assert a == b';
  }

  lemma ShiftDownEnd<V>(s: map<int, V>, index: int, relabel: (V, int) -> V, k: int)
    requires forall j :: j in s ==> j < k
    ensures ShiftedDownBelow(s, index, relabel, k) == ShiftDown(s, index, relabel)
  {
    var a := ShiftedDownBelow(s, index, relabel, k);
    var e := ShiftDown(s, index, relabel);
    forall j | j in a
      ensures j in e && a[j] == e[j]
    {
      assert InShiftDown(s, index, j);
    }
    forall j | j in e
      ensures j in a
    {
      assert InShiftedDownBelow(s, index, k, j);
    }
  }

  /** The delete loop: keys visited from `index` up, each entry removed and, unless deleted, moved one key down. */
  method ShiftDownKeys<V>(s: map<int, V>, index: int, relabel: (V, int) -> V) returns (r: map<int, V>)
    ensures r == ShiftDown(s, index, relabel)
  {
    var high := GetMaxKey(s);
    var k := index;
    r := s;
    ShiftDownStart(s, index, relabel);
    while k <= high
      invariant index <= k && (k <= high + 1 || k == index)
      invariant r == ShiftedDownBelow(s, index, relabel, k)
      decreases high - k
    {
      ShiftDownStep(s, index, relabel, k);
      if k in s {
        if k != index {
          r := (r - {k})[k - 1 := relabel(s[k], k - 1)];
        } else {
          r := r - {k};
        }
      }
      k := k + 1;
    }
    ShiftDownEnd(s, index, relabel, k);
  }

  /** The delete shift keeps every entry bound to its key. */
  lemma ShiftDownBound<V(!new)>(s: map<int, V>, index: int, relabel: (V, int) -> V)
    requires Bound(s, relabel) && Rebinds(relabel)
    ensures Bound(ShiftDown(s, index, relabel), relabel)
  {
    ShiftDownAt(s, index, relabel);
  }

  /** Key by key: after the insert shift and the delete shift, key `j` holds what it held before. */
  lemma UndoneAt<V(!new)>(s: map<int, V>, index: int, relabel: (V, int) -> V, v: V, j: int)
    requires Bound(s, relabel) && Rebinds(relabel)
    ensures var d := ShiftDown(ShiftUp(s, index, relabel)[index := v], index, relabel);
      (j in d <==> j in s) && (j in s ==> d[j] == s[j])
  {
    var e := ShiftUp(s, index, relabel);
    var u := e[index := v];
    ShiftUpAt(s, index, relabel);
    ShiftDownAt(u, index, relabel);
    if j >= index {
      assert j + 1 in u <==> j in s;
      if j in s {
        assert u[j + 1] == relabel(s[j], j + 1);
        assert relabel(relabel(s[j], j + 1), j) == relabel(s[j], j);
      }
    }
  }

  /** Deleting at `index` right after inserting there gives the map back. */
  lemma ShiftDownUndoesShiftUp<V(!new)>(s: map<int, V>, index: int, relabel: (V, int) -> V, v: V)
    requires Bound(s, relabel) && Rebinds(relabel)
    ensures ShiftDown(ShiftUp(s, index, relabel)[index := v], index, relabel) == s
  {
    var d := ShiftDown(ShiftUp(s, index, relabel)[index := v], index, relabel);
    forall j | j in d
      ensures j in s && d[j] == s[j]
    {
      UndoneAt(s, index, relabel, v, j);
    }
    forall j | j in s
      ensures j in d
    {
      UndoneAt(s, index, relabel, v, j);
    }
  }

  // ---------------------------------------------------------------------
  // Enumeration in key order
  // ---------------------------------------------------------------------

  /** The values under keys lo..hi-1, in ascending key order. */
  ghost function ValuesIn<V>(m: map<int, V>, lo: int, hi: int): seq<V>
    decreases hi - lo
  {
    if hi <= lo then [] else ValuesIn(m, lo, hi - 1) + (if hi - 1 in m then [m[hi - 1]] else [])
  }

  /** The values of a sorted dictionary as its enumerator yields them. */
  ghost function Ordered<V>(m: map<int, V>): seq<V> {
    ValuesIn(m, Lo(m), Hi(m))
  }

  /** The present keys among lo..hi-1, ascending. */
  ghost function KeysIn<V>(m: map<int, V>, lo: int, hi: int): seq<int>
    decreases hi - lo
  {
    if hi <= lo then [] else KeysIn(m, lo, hi - 1) + (if hi - 1 in m then [hi - 1] else [])
  }

  /**
   * The enumeration yields the value of each present key in lo..hi-1 once,
   * in strictly ascending key order, and nothing else.
   */
  lemma {:induction false} ValuesInKeys<V>(m: map<int, V>, lo: int, hi: int)
    ensures |KeysIn(m, lo, hi)| == |ValuesIn(m, lo, hi)|
    ensures forall i :: 0 <= i < |KeysIn(m, lo, hi)| ==>
      lo <= KeysIn(m, lo, hi)[i] < hi && KeysIn(m, lo, hi)[i] in m && ValuesIn(m, lo, hi)[i] == m[KeysIn(m, lo, hi)[i]]
    ensures forall i, j :: 0 <= i < j < |KeysIn(m, lo, hi)| ==> KeysIn(m, lo, hi)[i] < KeysIn(m, lo, hi)[j]
    ensures forall k :: lo <= k < hi && k in m ==> k in KeysIn(m, lo, hi)
    decreases hi - lo
  {
    if hi > lo {
      ValuesInKeys(m, lo, hi - 1);
    }
  }

  /** Widening the range upwards over keys that are absent changes nothing. */
  lemma {:induction false} ValuesInHigh<V>(m: map<int, V>, lo: int, hi: int, hi': int)
    requires hi <= hi' && forall k :: hi <= k < hi' ==> k !in m
    ensures ValuesIn(m, lo, hi') == ValuesIn(m, lo, hi)
    decreases hi' - hi
  {
    if hi < hi' {
      ValuesInHigh(m, lo, hi, hi' - 1);
      if hi' - 1 < lo {
        assert ValuesIn(m, lo, hi') == [];
      }
    }
  }

  /** Widening the range downwards over keys that are absent changes nothing. */
  lemma {:induction false} ValuesInLow<V>(m: map<int, V>, lo': int, lo: int, hi: int)
    requires lo' <= lo && forall k :: lo' <= k < lo ==> k !in m
    ensures ValuesIn(m, lo', hi) == ValuesIn(m, lo, hi)
    decreases hi - lo'
  {
    if hi > lo' {
      ValuesInLow(m, lo', lo, hi - 1);
    }
  }

  /** The enumeration is empty exactly when the dictionary is. */
  lemma OrderedEmpty<V>(m: map<int, V>)
    ensures |Ordered(m)| == 0 <==> |m| == 0
  {
    InSpan(m);
    ValuesInKeys(m, Lo(m), Hi(m));
    if |m| > 0 {
      var k :| k in m;
      assert k in KeysIn(m, Lo(m), Hi(m));
    }
  }

  /** The enumeration: every key from the least to the greatest is visited and the present ones yield their values. */
  method OrderedValues<V>(m: map<int, V>) returns (r: seq<V>)
    ensures r == Ordered(m)
  {
    InSpan(m);
    if |m| == 0 {
      assert m == map[];
      return [];
    }
    var least := GetMinKey(m);
    var greatest := GetMaxKey(m);
    var k := least;
    r := [];
    while k <= greatest
      invariant least <= k <= greatest + 1
      invariant r == ValuesIn(m, least, k)
      decreases greatest - k
    {
      if k in m {
        r := r + [m[k]];
      }
      k := k + 1;
    }
    ValuesInHigh(m, least, greatest + 1, Hi(m));
    ValuesInLow(m, Lo(m), least, Hi(m));
  }
}
