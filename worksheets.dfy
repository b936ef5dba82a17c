/**
 * The string rules of a worksheet: the legal form of a sheet name, the
 * escaped (quoted) name used in front of addresses, and the full address
 * built from a comma-separated list of local addresses.
 */
module Worksheets {
  import opened Helpers
  import Ranges

  /** The characters a sheet name may not hold; each becomes '_'. */
  const IllegalCharacters: string := "/\\:[]?*"

  /** The longest name a sheet may have. */
  const MaxNameLength: int := 31

  /** `s` with every `c` replaced by `d` (string.Replace on characters). */
  function ReplaceChar(s: string, c: char, d: char): (r: string)
    ensures |r| == |s|
    ensures forall i :: 0 <= i < |s| ==> r[i] == if s[i] == c then d else s[i]
  {
    if s == [] then [] else [if s[0] == c then d else s[0]] + ReplaceChar(s[1..], c, d)
  }

  /** `s` with each character of `chars` replaced by '_'. */
  function Replaced(s: string, chars: string): (r: string)
    ensures |r| == |s|
    ensures forall i :: 0 <= i < |s| ==> r[i] == if s[i] in chars then '_' else s[i]
  {
    seq(|s|, i requires 0 <= i < |s| => if s[i] in chars then '_' else s[i])
  }

  /** One leading and then one trailing apostrophe removed. */
  function StripApostrophes(s: string): (r: string)
    ensures |s| - 2 <= |r| <= |s|
    ensures (|s| == 0 || (s[0] != '\'' && s[|s| - 1] != '\'')) ==> r == s
    ensures |s| >= 2 && s[0] == '\'' && s[|s| - 1] == '\'' ==> r == s[1..|s| - 1]
  {
    var a := if |s| > 0 && s[0] == '\'' then s[1..] else s;
    if |a| > 0 && a[|a| - 1] == '\'' then a[..|a| - 1] else a
  }

  /** "history", in any case, is reserved for the change-history sheet. */
  predicate IsReservedName(name: string)
  {
    EqualsIgnoreCase(name, "history")
  }

  /** No character of `s` is one a sheet name may not hold. */
  predicate NoIllegal(s: string)
  {
    forall i :: 0 <= i < |s| ==> s[i] !in IllegalCharacters
  }

  lemma ReplacedIsLegal(s: string)
    ensures NoIllegal(Replaced(s, IllegalCharacters))
  {
    assert '_' !in IllegalCharacters;
  }

  /** Cutting, stripping and appending a space keep a name free of illegal characters. */
  lemma NoIllegalParts(s: string, i: int, j: int)
    requires NoIllegal(s) && 0 <= i <= j <= |s|
    ensures NoIllegal(s[i..j]) && NoIllegal(s + " ")
  {
    assert ' ' !in IllegalCharacters;
    assert forall k :: 0 <= k < |s| + 1 ==> (s + " ")[k] == if k < |s| then s[k] else ' ';
  }

  /**
   * GetLegalWorksheetName: illegal characters become '_', one leading and
   * one trailing apostrophe go, the reserved name "history" (in any case)
   * gets a trailing space, and the name is cut to 31 characters.
   */
  function LegalName(name: string): (r: string)
    ensures |r| <= MaxNameLength
    ensures NoIllegal(r)
  {
    var replaced := Replaced(name, IllegalCharacters);
    ReplacedIsLegal(name);
    var stripped := StripApostrophes(replaced);
    StripKeepsLegal(replaced);
    var reserved := if IsReservedName(stripped) then stripped + " " else stripped;
    NoIllegalParts(stripped, 0, 0);
    NoIllegalParts(reserved, 0, if |reserved| > MaxNameLength then MaxNameLength else |reserved|);
    if |reserved| > MaxNameLength then reserved[..MaxNameLength] else reserved
  }

  lemma StripKeepsLegal(s: string)
    requires NoIllegal(s)
    ensures NoIllegal(StripApostrophes(s))
  {
    var a := if |s| > 0 && s[0] == '\'' then s[1..] else s;
    NoIllegalParts(s, if |s| > 0 && s[0] == '\'' then 1 else 0, |s|);
    NoIllegalParts(a, 0, if |a| > 0 && a[|a| - 1] == '\'' then |a| - 1 else |a|);
  }

  /** A name already in legal form. */
  predicate IsLegal(name: string)
  {
    |name| <= MaxNameLength &&
    (forall i :: 0 <= i < |name| ==> name[i] !in IllegalCharacters) &&
    (|name| > 0 ==> name[0] != '\'' && name[|name| - 1] != '\'') &&
    !IsReservedName(name)
  }

  /** A name in legal form is its own legal name. */
  lemma LegalNameOfLegal(name: string)
    requires IsLegal(name)
    ensures LegalName(name) == name
  {
    assert Replaced(name, IllegalCharacters) == name;
  }

  /** The reserved name, in whatever case, gets a trailing space and nothing else. */
  lemma LegalNameOfReserved(name: string)
    requires NoIllegal(name) && IsReservedName(name)
    requires |name| > 0 ==> name[0] != '\'' && name[|name| - 1] != '\''
    ensures LegalName(name) == name + " "
  {
    assert Replaced(name, IllegalCharacters) == name;
    EqualsIgnoreCaseKeepsLength(name, "history");
  }

  /** Replacing the characters of `chars` one after the other, as the source's loop does. */
  method ReplaceEach(name: string, chars: string) returns (r: string)
    requires '_' !in chars
    ensures r == Replaced(name, chars)
  {
    r := name;
    var i := 0;
    while i < |chars|
      invariant 0 <= i <= |chars|
      invariant r == Replaced(name, chars[..i])
    {
      assert forall c :: c in chars[..i + 1] <==> c in chars[..i] || c == chars[i];
      r := ReplaceChar(r, chars[i], '_');
      i := i + 1;
    }
    assert chars[..i] == chars;
  }

  /** One leading and then one trailing apostrophe removed, as the source trims them. */
  method StripEnds(s: string) returns (r: string)
    ensures r == StripApostrophes(s)
  {
    r := s;
    if |r| > 0 && r[0] == '\'' {
      r := r[1..];
    }
    if |r| > 0 && r[|r| - 1] == '\'' {
      r := r[..|r| - 1];
    }
  }

  method GetLegalWorksheetName(name: string) returns (r: string)
    ensures r == LegalName(name)
  {
    var replaced := ReplaceEach(name, IllegalCharacters);
    r := StripEnds(replaced);
    if IsReservedName(r) {
      r := r + " ";
    }
    if |r| > MaxNameLength {
      r := r[..MaxNameLength];
    }
  }

  /** Apostrophes come in pairs: the escaped form of a sheet name between its quotes. */
  predicate PairedApostrophes(s: string)
    decreases |s|
  {
    s == [] ||
    (s[0] != '\'' && PairedApostrophes(s[1..])) ||
    (|s| >= 2 && s[0] == '\'' && s[1] == '\'' && PairedApostrophes(s[2..]))
  }

  /** Every apostrophe doubled (string.Replace("'", "''")). */
  function DoubleApostrophes(s: string): (r: string)
    ensures PairedApostrophes(r)
    ensures |r| >= |s|
    ensures '\'' !in s ==> r == s
  {
    if s == [] then []
    else
      var rest := DoubleApostrophes(s[1..]);
      var r := (if s[0] == '\'' then "''" else [s[0]]) + rest;
      assert r[1..] == rest || r[2..] == rest;
      r
  }

  /** EscapedName: the name between apostrophes, its own apostrophes doubled. */
  function EscapedName(name: string): (r: string)
    ensures |r| >= |name| + 2 && r[0] == '\'' && r[|r| - 1] == '\''
    ensures PairedApostrophes(r[1..|r| - 1])
  {
    var r := "'" + DoubleApostrophes(name) + "'";
    assert r[1..|r| - 1] == DoubleApostrophes(name);
    r
  }

  /** string.Join with a one-character separator. */
  function Join(parts: seq<string>, sep: char): string
    decreases |parts|
  {
    if |parts| == 0 then ""
    else if |parts| == 1 then parts[0]
    else parts[0] + [sep] + Join(parts[1..], sep)
  }

  /** string.Split on a single character: the pieces between separators, empty ones kept. */
  function Split(s: string, sep: char): (r: seq<string>)
    ensures |r| >= 1
    ensures forall i :: 0 <= i < |r| ==> sep !in r[i]
    ensures Join(r, sep) == s
    decreases |s|
  {
    if s == [] then [""]
    else
      var rest := Split(s[1..], sep);
      if s[0] == sep then
        assert Join([""] + rest, sep) == [sep] + Join(rest, sep) by {
          assert ([""] + rest)[1..] == rest;
        }
        [""] + rest
      else
        var r := [[s[0]] + rest[0]] + rest[1..];
        assert Join(r, sep) == [s[0]] + Join(rest, sep) by {
          if |rest| > 1 {
            assert r[1..] == rest[1..];
          }
        }
        r
  }

  /** Splitting a join of separator-free pieces gives the pieces back. */
  lemma {:induction false} SplitJoin(parts: seq<string>, sep: char)
    requires |parts| >= 1
    requires forall i :: 0 <= i < |parts| ==> sep !in parts[i]
    ensures Split(Join(parts, sep), sep) == parts
    decreases |parts|, |parts[0]|
  {
    var p := parts[0];
    if p == [] {
      if |parts| == 1 {
      } else {
        var tail := parts[1..];
        SplitJoin(tail, sep);
        assert Join(parts, sep) == [sep] + Join(tail, sep);
        SplitCons(sep, Join(tail, sep), sep);
      }
    } else {
      var shorter := [p[1..]] + parts[1..];
      assert forall i :: 1 <= i < |shorter| ==> shorter[i] == parts[i];
      SplitJoin(shorter, sep);
      assert shorter[1..] == parts[1..];
      assert Join(parts, sep) == [p[0]] + Join(shorter, sep);
      SplitCons(p[0], Join(shorter, sep), sep);
      assert [p[0]] + p[1..] == p;
    }
  }

  /** Splitting a string one character longer at the front. */
  lemma SplitCons(c: char, t: string, sep: char)
    ensures Split([c] + t, sep) ==
      if c == sep then [""] + Split(t, sep) else [[c] + Split(t, sep)[0]] + Split(t, sep)[1..]
  {
    assert ([c] + t)[1..] == t;
  }

  /** Each local address behind the escaped name and '!'. */
  function Qualified(escapedName: string, locals: seq<string>): (r: seq<string>)
    ensures |r| == |locals|
    ensures forall i :: 0 <= i < |locals| ==> r[i] == Ranges.RangeAddress(escapedName, locals[i])
  {
    seq(|locals|, i requires 0 <= i < |locals| => Ranges.RangeAddress(escapedName, locals[i]))
  }

  /**
   * GetFullAddress: the comma-separated local addresses, each behind the
   * escaped sheet name and '!', joined again with commas.
   */
  method GetFullAddress(name: string, localAddressString: string) returns (r: string)
    ensures r == Join(Qualified(EscapedName(name), Split(localAddressString, ',')), ',')
  {
    var escapedName := EscapedName(name);
    var localAddresses := Split(localAddressString, ',');
    var addresses: seq<string> := [];
    var i := 0;
    while i < |localAddresses|
      invariant 0 <= i <= |localAddresses|
      invariant addresses == Qualified(escapedName, localAddresses[..i])
    {
      addresses := addresses + [Ranges.RangeAddress(escapedName, localAddresses[i])];
      i := i + 1;
    }
    assert localAddresses[..i] == localAddresses;
    r := Join(addresses, ',');
  }

  /** A single local address gets the same full form as a range's address. */
  lemma FullAddressOfOne(name: string, local: string)
    requires ',' !in local
    ensures Join(Qualified(EscapedName(name), Split(local, ',')), ',') == Ranges.RangeAddress(EscapedName(name), local)
  {
    SplitJoin([local], ',');
  }

  /** When the sheet name has no comma, splitting the full address at commas gives one qualified address per local one. */
  lemma FullAddressParts(name: string, localAddressString: string)
    requires ',' !in name
    ensures var locals := Split(localAddressString, ',');
      Split(Join(Qualified(EscapedName(name), locals), ','), ',') == Qualified(EscapedName(name), locals)
  {
    var e := EscapedName(name);
    var locals := Split(localAddressString, ',');
    var q := Qualified(e, locals);
    forall i | 0 <= i < |q|
      ensures ',' !in q[i]
    {
      NoCommaInEscaped(name);
    }
    SplitJoin(q, ',');
  }

  lemma NoCommaInEscaped(name: string)
    requires ',' !in name
    ensures ',' !in EscapedName(name)
  {
    NoCommaDoubled(name);
  }

  lemma {:induction false} NoCommaDoubled(s: string)
    requires ',' !in s
    ensures ',' !in DoubleApostrophes(s)
    decreases |s|
  {
    if s != [] {
      NoCommaDoubled(s[1..]);
    }
  }
}
