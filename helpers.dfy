/**
 * General-purpose helpers: enum lookup by name, camel-casing, and the
 * sequence search helpers IndexOf, Offset, Next and Previous.
 * Letter case is folded over ASCII only.
 */
module Helpers {
  import opened Wrappers

  function ToLowerChar(c: char): (r: char)
    ensures 'A' <= c <= 'Z' ==> r as int == c as int + 32
    ensures !('A' <= c <= 'Z') ==> r == c
  {
    if 'A' <= c <= 'Z' then (c as int + 32) as char else c
  }

  function ToUpperChar(c: char): (r: char)
    ensures 'a' <= c <= 'z' ==> r as int == c as int - 32
    ensures !('a' <= c <= 'z') ==> r == c
  {
    if 'a' <= c <= 'z' then (c as int - 32) as char else c
  }

  function ToLower(s: string): (r: string)
    ensures |r| == |s|
    ensures forall i :: 0 <= i < |s| ==> r[i] == ToLowerChar(s[i])
  {
    if s == [] then [] else [ToLowerChar(s[0])] + ToLower(s[1..])
  }

  function ToUpper(s: string): (r: string)
    ensures |r| == |s|
    ensures forall i :: 0 <= i < |s| ==> r[i] == ToUpperChar(s[i])
  {
    if s == [] then [] else [ToUpperChar(s[0])] + ToUpper(s[1..])
  }

  function DigitChar(d: int): (r: char)
    requires 0 <= d < 10
    ensures '0' <= r <= '9'
  {
    ('0' as int + d) as char
  }

  /** Decimal digits of a natural number, without leading zeros. */
  function NatToString(n: nat): (r: string)
    ensures |r| > 0 && forall i :: 0 <= i < |r| ==> '0' <= r[i] <= '9'
  {
    if n < 10 then [DigitChar(n)] else NatToString(n / 10) + [DigitChar(n % 10)]
  }

  /** Decimal text of an integer: a '-' before the digits of a negative number. */
  function IntToString(i: int): (r: string)
    ensures |r| > 0
  {
    if i >= 0 then NatToString(i) else "-" + NatToString(-i)
  }

  predicate AllDigits(s: string) {
    forall i :: 0 <= i < |s| ==> '0' <= s[i] <= '9'
  }

  /** The number a string of decimal digits denotes. */
  function DigitsValue(s: string): nat
    requires AllDigits(s)
  {
    if s == [] then 0 else DigitsValue(s[..|s| - 1]) * 10 + (s[|s| - 1] as int - '0' as int)
  }

  /** int.Parse on plain decimal text: optional '-', then at least one digit; anything else is a format error. */
  function ParseInt(s: string): (r: Result<int>)
    ensures r.Ok? <==> (|s| > 0 && AllDigits(s)) || (|s| > 1 && s[0] == '-' && AllDigits(s[1..]))
  {
    if |s| > 0 && AllDigits(s) then Ok(DigitsValue(s) as int)
    else if |s| > 1 && s[0] == '-' && AllDigits(s[1..]) then Ok(-(DigitsValue(s[1..]) as int))
    else Err(InvalidCast)
  }

  lemma {:induction false} DigitsOfNatToString(n: nat)
    ensures AllDigits(NatToString(n)) && DigitsValue(NatToString(n)) == n
  {
    if n >= 10 {
      DigitsOfNatToString(n / 10);
      var s := NatToString(n);
      assert s[..|s| - 1] == NatToString(n / 10);
    }
  }

  /** Parsing the text of an integer gives the integer back. */
  lemma ParseIntToString(i: int)
    ensures ParseInt(IntToString(i)) == Ok(i)
  {
    if i >= 0 {
      DigitsOfNatToString(i);
    } else {
      DigitsOfNatToString(-i);
      var s := IntToString(i);
      assert s[1..] == NatToString(-i);
      assert !AllDigits(s) by { assert s[0] == '-'; }
    }
  }

  /** Case-insensitive string equality (ASCII folding). */
  predicate EqualsIgnoreCase(a: string, b: string)
  {
    ToLower(a) == ToLower(b)
  }

  lemma EqualsIgnoreCaseIsEquivalence(a: string, b: string, c: string)
    ensures EqualsIgnoreCase(a, a)
    ensures EqualsIgnoreCase(a, b) ==> EqualsIgnoreCase(b, a)
    ensures EqualsIgnoreCase(a, b) && EqualsIgnoreCase(b, c) ==> EqualsIgnoreCase(a, c)
  {
  }

  /** Equal strings of different length never compare equal, whatever the case. */
  lemma EqualsIgnoreCaseKeepsLength(a: string, b: string)
    requires EqualsIgnoreCase(a, b)
    ensures |a| == |b|
  {
    assert |ToLower(a)| == |ToLower(b)|;
  }

  /** Lower-cases the first character of a non-empty string; null and "" pass through. */
  function ToCamelCase(value: Option<string>): (r: Option<string>)
    ensures value.None? || value.value == "" ==> r == value
    ensures value.Some? && value.value != "" ==>
      r.Some? && |r.value| == |value.value| && r.value[0] == ToLowerChar(value.value[0]) &&
      r.value[1..] == value.value[1..]
  {
    if value.None? || value.value == "" then value
    else Some([ToLowerChar(value.value[0])] + value.value[1..])
  }

  /** Member `i` is the first whose name equals `description`. */
  ghost predicate IsFirstNamed(members: seq<(int, string)>, description: string, i: int)
  {
    0 <= i < |members| && members[i].1 == description &&
    forall j :: 0 <= j < i ==> members[j].1 != description
  }

  /**
   * The value of the first member whose name equals `description`
   * (case-sensitive), or 0, the default value of every enum type, when none
   * does. Members are listed with their names in value order.
   */
  function EnumValueFromDescription(members: seq<(int, string)>, description: string): (r: int)
    ensures (exists i :: IsFirstNamed(members, description, i) && r == members[i].0) ||
            ((forall j :: 0 <= j < |members| ==> members[j].1 != description) && r == 0)
  {
    if members == [] then 0
    else if members[0].1 == description then
      assert IsFirstNamed(members, description, 0);
      members[0].0
    else
      var r := EnumValueFromDescription(members[1..], description);
      FirstNamedInTail(members, description);
      r
  }

  lemma FirstNamedInTail(members: seq<(int, string)>, description: string)
    requires |members| > 0 && members[0].1 != description
    ensures forall i :: IsFirstNamed(members[1..], description, i) ==> IsFirstNamed(members, description, i + 1)
  {
    forall i | IsFirstNamed(members[1..], description, i) ensures IsFirstNamed(members, description, i + 1) {
      assert forall j :: 1 <= j <= i ==> members[j] == members[1..][j - 1];
    }
  }

  /** Walks the members in order and returns on the first name match. */
  method GetEnumValueFromDescription(members: seq<(int, string)>, description: string) returns (r: int)
    ensures r == EnumValueFromDescription(members, description)
  {
    var i := 0;
    while i < |members|
      invariant 0 <= i <= |members|
      invariant EnumValueFromDescription(members[i..], description) == EnumValueFromDescription(members, description)
    {
      if members[i].1 == description {
        return members[i].0;
      }
      assert members[i..][1..] == members[i + 1..];
      i := i + 1;
    }
    return 0;
  }

  /** The index of the first element passing `p`, or -1: the reference for IndexOf. */
  function FirstIndex<T>(items: seq<T>, p: T -> bool): (r: int)
    ensures -1 <= r < |items|
    ensures r >= 0 ==> p(items[r])
    ensures forall j :: 0 <= j < |items| && (r < 0 || j < r) ==> !p(items[j])
  {
    if items == [] then -1
    else if p(items[0]) then 0
    else
      var rest := FirstIndex(items[1..], p);
      if rest < 0 then -1 else rest + 1
  }

  /** FirstIndex is the unique index meeting its contract. */
  lemma FirstIndexIsUnique<T>(items: seq<T>, p: T -> bool, k: int)
    requires -1 <= k < |items|
    requires k >= 0 ==> p(items[k])
    requires forall j :: 0 <= j < |items| && (k < 0 || j < k) ==> !p(items[j])
    ensures FirstIndex(items, p) == k
  {
  }

  /** Counts along the sequence and stops at the first element passing `p`. */
  method IndexOf<T>(items: seq<T>, p: T -> bool) returns (index: int)
    ensures index == FirstIndex(items, p)
  {
    index := 0;
    while index < |items|
      invariant 0 <= index <= |items|
      invariant forall j :: 0 <= j < index ==> !p(items[j])
    {
      if p(items[index]) {
        FirstIndexIsUnique(items, p, index);
        return;
      }
      index := index + 1;
    }
    FirstIndexIsUnique(items, p, -1);
    index := -1;
  }

  /** The element `offset` places after the first match, when that position exists; None is default(T). */
  method Offset<T>(items: seq<T>, p: T -> bool, offset: int) returns (r: Option<T>)
    ensures var k := FirstIndex(items, p) + offset;
      if 0 <= k < |items| then r == Some(items[k]) else r == None
  {
    var index := IndexOf(items, p);
    var offsetIndex := index + offset;
    if offsetIndex >= 0 && offsetIndex < |items| {
      return Some(items[offsetIndex]);
    }
    return None;
  }

  method Next<T>(items: seq<T>, p: T -> bool) returns (r: Option<T>)
    ensures FirstIndex(items, p) >= 0 ==>
      (FirstIndex(items, p) + 1 < |items| ==> r == Some(items[FirstIndex(items, p) + 1])) &&
      (FirstIndex(items, p) + 1 == |items| ==> r == None)
    ensures FirstIndex(items, p) < 0 ==> (items == [] ==> r == None) && (items != [] ==> r == Some(items[0]))
  {
    r := Offset(items, p, 1);
  }

  method Previous<T>(items: seq<T>, p: T -> bool) returns (r: Option<T>)
    ensures FirstIndex(items, p) > 0 ==> r == Some(items[FirstIndex(items, p) - 1])
    ensures FirstIndex(items, p) <= 0 ==> r == None
  {
    r := Offset(items, p, -1);
  }
}
