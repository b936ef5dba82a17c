/**
 * Key helpers shared by every int-keyed sorted dictionary of the library:
 * the first unused key, the greatest and least key, the first entry (in key
 * order) that satisfies a test, and the enumerator that walks the keys.
 */
module OfficeUtilities {
  import opened Wrappers

  /** `key` is the smallest non-negative integer that is not a key. */
  ghost predicate IsFirstUnused(keys: set<int>, key: int) {
    0 <= key && key !in keys && forall j :: 0 <= j < key ==> j in keys
  }

  /** `r` is the greatest key, or -1 when there are no keys. */
  ghost predicate IsMaxKey(keys: set<int>, r: int) {
    if keys == {} then r == -1 else r in keys && forall k :: k in keys ==> k <= r
  }

  /** `r` is the least key of a non-empty key set. */
  ghost predicate IsMinKey(keys: set<int>, r: int) {
    r in keys && forall k :: k in keys ==> r <= k
  }

  /** `r` is the first key, in ascending order, whose value passes `p`; None when no value does. */
  ghost predicate IsFirstMatch<V>(m: map<int, V>, p: V -> bool, r: Option<int>) {
    match r
    case None => forall k :: k in m ==> !p(m[k])
    case Some(k) => k in m && p(m[k]) && forall j :: j in m && j < k ==> !p(m[j])
  }

  ghost predicate StrictlyIncreasing(s: seq<int>) {
    forall i, j :: 0 <= i < j < |s| ==> s[i] < s[j]
  }

  /** A non-empty set has a member (used before picking one). */
  lemma NonEmptyHasMember(s: set<int>)
    requires s != {}
    ensures exists x :: x in s
  {
    if forall x :: x !in s {
      assert false;
    }
  }

  /** A set holding all of 0..n-1 has at least n elements. */
  lemma {:induction false} CoveredPrefixBound(keys: set<int>, n: nat)
    requires forall j :: 0 <= j < n ==> j in keys
    ensures n <= |keys|
  {
    if n > 0 {
      CoveredPrefixBound(keys - {n - 1}, n - 1);
    }
  }

  /** The smallest non-negative key not in the dictionary, found by counting up from 0. */
  method GetFirstUnusedKey<V>(m: map<int, V>) returns (key: int)
    ensures IsFirstUnused(m.Keys, key)
  {
    key := 0;
    while key in m
      invariant 0 <= key
      invariant forall j :: 0 <= j < key ==> j in m
      decreases |m.Keys| - key
    {
      CoveredPrefixBound(m.Keys, key + 1);
      key := key + 1;
    }
  }

  /** Only one key is the first unused key. */
  lemma FirstUnusedIsUnique(keys: set<int>, a: int, b: int)
    requires IsFirstUnused(keys, a) && IsFirstUnused(keys, b)
    ensures a == b
  {
  }

  /**
   * Removing a key below the first unused key makes that key the first
   * unused one: a deleted id is handed out again by the next insert.
   */
  lemma DeletedKeyIsReused(keys: set<int>, first: int, k: int)
    requires IsFirstUnused(keys, first)
    requires 0 <= k < first
    ensures IsFirstUnused(keys - {k}, k)
  {
  }

  /** Adding the first unused key moves the first unused key strictly up. */
  lemma FirstUnusedGrowsOnInsert(keys: set<int>, first: int, next: int)
    requires IsFirstUnused(keys, first)
    requires IsFirstUnused(keys + {first}, next)
    ensures first < next
  {
    assert first in keys + {first};
  }

  /** The greatest key, or -1 for an empty dictionary. */
  method GetMaxKey<V>(m: map<int, V>) returns (r: int)
    ensures IsMaxKey(m.Keys, r)
  {
    if |m| == 0 {
      assert m.Keys == {} by {
        assert |m.Keys| == 0;
      }
      return -1;
    }
    assert m.Keys != {} by {
      assert |m.Keys| > 0;
    }
    NonEmptyHasMember(m.Keys);
    var k0 :| k0 in m.Keys;
    r := k0;
    var rest := m.Keys - {k0};
    var seen: set<int> := {k0};
    while rest != {}
      invariant rest + seen == m.Keys && rest !! seen
      invariant r in seen && forall k :: k in seen ==> k <= r
      decreases |rest|
    {
      NonEmptyHasMember(rest);
      var k :| k in rest;
      if r < k {
        r := k;
      }
      rest := rest - {k};
      seen := seen + {k};
    }
  }

  /** The least key of a non-empty dictionary. */
  method GetMinKey<V>(m: map<int, V>) returns (r: int)
    requires |m| > 0
    ensures IsMinKey(m.Keys, r)
  {
    assert m.Keys != {} by {
      assert |m.Keys| > 0;
    }
    NonEmptyHasMember(m.Keys);
    var k0 :| k0 in m.Keys;
    r := k0;
    var rest := m.Keys - {k0};
    var seen: set<int> := {k0};
    while rest != {}
      invariant rest + seen == m.Keys && rest !! seen
      invariant r in seen && forall k :: k in seen ==> r <= k
      decreases |rest|
    {
      NonEmptyHasMember(rest);
      var k :| k in rest;
      if k < r {
        r := k;
      }
      rest := rest - {k};
      seen := seen + {k};
    }
  }

  /**
   * The first entry in ascending key order whose value passes `p`, as the
   * library's FirstOrDefault over a sorted dictionary's values. Each key is
   * visited once and the least passing key is kept, which gives the same
   * answer because `p` has no effects.
   */
  method FindFirst<V>(m: map<int, V>, p: V -> bool) returns (r: Option<int>)
    ensures IsFirstMatch(m, p, r)
  {
    r := None;
    var rest := m.Keys;
    var seen: set<int> := {};
    while rest != {}
      invariant rest + seen == m.Keys && rest !! seen
      invariant r.None? ==> forall k :: k in seen ==> !p(m[k])
      invariant r.Some? ==> r.value in seen && p(m[r.value])
      invariant r.Some? ==> forall j :: j in seen && j < r.value ==> !p(m[j])
      decreases |rest|
    {
      NonEmptyHasMember(rest);
      var k :| k in rest;
      if p(m[k]) && (r.None? || k < r.value) {
        r := Some(k);
      }
      rest := rest - {k};
      seen := seen + {k};
    }
  }

  /**
   * The enumerator handed out by every sorted-dictionary collection: it walks
   * the integers from just below the least key up to the greatest key and
   * stops at each one present. `yielded` records the keys produced so far.
   */
  class GenericEnumerator<V> {
    const values: map<int, V>
    var currentIndex: int
    var maxValue: int
    ghost var yielded: seq<int>

    ghost predicate Valid()
      reads this
    {
      IsMaxKey(values.Keys, maxValue) &&
      StrictlyIncreasing(yielded) &&
      (forall i :: 0 <= i < |yielded| ==> yielded[i] in values && yielded[i] <= currentIndex) &&
      (forall k :: k in values && k <= currentIndex ==> k in yielded)
    }

    constructor (values: map<int, V>)
      ensures Valid() && this.values == values && yielded == []
    {
      this.values := values;
      new;
      Reset();
    }

    /** Back to the start: just below the least key (0 when empty), bounded by the greatest key. */
    method Reset()
      modifies this
      ensures Valid() && yielded == []
      ensures |values| == 0 ==> currentIndex == 0
      ensures |values| > 0 ==> IsMinKey(values.Keys, currentIndex + 1)
    {
      if |values| == 0 {
        currentIndex := 0;
      } else {
        var least := GetMinKey(values);
        currentIndex := least - 1;
      }
      maxValue := GetMaxKey(values);
      yielded := [];
    }

    /**
     * Advances to the next present key. On true the new position is the
     * next key above the old one; on false every key has been produced.
     */
    method MoveNext() returns (more: bool)
      requires Valid()
      modifies this
      ensures Valid() && maxValue == old(maxValue)
      ensures more ==> currentIndex in values && old(currentIndex) < currentIndex
      ensures more ==> forall k :: old(currentIndex) < k < currentIndex ==> k !in values
      ensures more ==> yielded == old(yielded) + [currentIndex]
      ensures !more ==> yielded == old(yielded) && forall k :: k in values ==> k in yielded
    {
      currentIndex := currentIndex + 1;
      if currentIndex > maxValue {
        return false;
      }
      while currentIndex !in values
        invariant old(currentIndex) < currentIndex <= maxValue
        invariant forall k :: old(currentIndex) < k < currentIndex ==> k !in values
        invariant yielded == old(yielded) && maxValue == old(maxValue)
        decreases maxValue - currentIndex
      {
        currentIndex := currentIndex + 1;
        if currentIndex > maxValue {
          return false;
        }
      }
      yielded := yielded + [currentIndex];
      return true;
    }

    /** The value at the current position; a position that is not a key raises KeyNotFound. */
    function Current(): (r: Result<V>)
      reads this
      ensures r.Ok? <==> currentIndex in values
      ensures r.Ok? ==> r.value == values[currentIndex]
    {
      if currentIndex in values then Ok(values[currentIndex]) else Err(KeyNotFound)
    }
  }
}
