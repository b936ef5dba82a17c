/**
 * Column letters and column numbers: the bijective base-26 numbering
 * "A".."Z", "AA".. of spreadsheet columns, the column part of a cell
 * address, and the converter that memoises both directions.
 */
module ColumnNames {
  import opened Wrappers
  import opened Helpers

  /** The letter before 'A': a letter's digit value is its code minus this. */
  const BaseAscii: int := 'A' as int - 1

  predicate IsLetter(c: char) {
    'A' <= c <= 'Z'
  }

  /** A non-empty run of upper-case letters: exactly the names of columns 1, 2, .... */
  predicate IsColumnName(s: string) {
    |s| > 0 && forall i :: 0 <= i < |s| ==> IsLetter(s[i])
  }

  /** The digit of the last letter of column `i`: 1..26, where 26 stands for 'Z'. */
  function LastDigit(i: int): (m: int)
    requires i > 0
    ensures 1 <= m <= 26 && (i - m) % 26 == 0
  {
    if i % 26 == 0 then 26 else i % 26
  }

  /** The name of column `i`; empty for `i <= 0`. */
  function ColumnName(i: int): (r: string)
    ensures i <= 0 <==> r == ""
    ensures i > 0 ==> IsColumnName(r)
    decreases i
  {
    if i <= 0 then ""
    else
      var m := LastDigit(i);
      ColumnName((i - m) / 26) + [(BaseAscii + m) as char]
  }

  /** The number a column name denotes, read as base 26 with digits '@'=0 .. 'Z'=26 (any character is accepted). */
  function ColumnIndex(s: string): int
  {
    if s == [] then 0 else ColumnIndex(s[..|s| - 1]) * 26 + (s[|s| - 1] as int - BaseAscii)
  }

  lemma {:induction false} ColumnIndexOfNamePositive(s: string)
    requires IsColumnName(s)
    ensures ColumnIndex(s) > 0
  {
    if |s| > 1 {
      ColumnIndexOfNamePositive(s[..|s| - 1]);
    }
  }

  /** Reading back the name of a column gives its number. */
  lemma {:induction false} ColumnIndexOfName(i: int)
    requires i >= 0
    ensures ColumnIndex(ColumnName(i)) == i
    decreases i
  {
    if i > 0 {
      var m := LastDigit(i);
      var q := (i - m) / 26;
      ColumnIndexOfName(q);
      var s := ColumnName(i);
      assert s[..|s| - 1] == ColumnName(q);
      assert q * 26 == i - m;
    }
  }

  /** The arithmetic step of ColumnNameOfIndex: peeling the last digit off 26q + m gives back q and m. */
  lemma PeelLastDigit(q: int, m: int)
    requires q >= 0 && 1 <= m <= 26
    ensures LastDigit(q * 26 + m) == m && (q * 26 + m - m) / 26 == q
  {
    if m == 26 {
      assert q * 26 + m == (q + 1) * 26;
    } else {
      assert (q * 26 + m) % 26 == m;
    }
  }

  /** Every column name is the name of the number it denotes: the numbering is a bijection. */
  lemma {:induction false} ColumnNameOfIndex(s: string)
    requires IsColumnName(s)
    ensures ColumnName(ColumnIndex(s)) == s
  {
    var p := s[..|s| - 1];
    var m := s[|s| - 1] as int - BaseAscii;
    var q := ColumnIndex(p);
    if p != [] {
      ColumnIndexOfNamePositive(p);
      ColumnNameOfIndex(p);
    }
    PeelLastDigit(q, m);
    assert ColumnIndex(s) == q * 26 + m;
    assert s == p + [(BaseAscii + m) as char];
  }

  /** Examples of the numbering. */
  lemma ColumnNameExamples()
    ensures ColumnName(1) == "A" && ColumnName(26) == "Z" && ColumnName(27) == "AA"
    ensures ColumnName(16384) == "XFD"
  {
    assert ColumnName(0) == "";
    assert ColumnName(1) == "A";
    assert LastDigit(26) == 26;
    assert ColumnName(26) == "Z";
    assert LastDigit(27) == 1;
    assert ColumnName(27) == ColumnName(1) + "A";
    assert LastDigit(16384) == 4;
    assert (16384 - 4) / 26 == 630;
    assert LastDigit(630) == 6;
    assert (630 - 6) / 26 == 24;
    assert ColumnName(24) == "X";
    assert ColumnName(630) == "XF";
  }

  /** GetColumnNameFromColumnIndex1: letters are prepended from the last one while the index stays positive. */
  method ColumnNameFromIndex(columnIndex: int) returns (r: string)
    ensures r == ColumnName(columnIndex)
  {
    r := "";
    var i := columnIndex;
    while i > 0
      invariant ColumnName(columnIndex) == ColumnName(i) + r
      decreases i
    {
      var m := i % 26;
      if m == 0 {
        m := 26;
      }
      r := [(BaseAscii + m) as char] + r;
      i := (i - m) / 26;
    }
  }

  /** 26 to the power `n`. */
  function Pow26(n: nat): (r: nat)
    ensures r > 0
  {
    if n == 0 then 1 else 26 * Pow26(n - 1)
  }

  /** GetColumnIndexFromColumnName: each character weighted by 26 to the power of the characters after it. */
  method ColumnIndexFromName(columnName: string) returns (r: int)
    ensures r == ColumnIndex(columnName)
  {
    r := 0;
    var k := 0;
    while k < |columnName|
      invariant 0 <= k <= |columnName|
      invariant r == ColumnIndex(columnName[..k]) * Pow26(|columnName| - k)
    {
      var digit := columnName[k] as int - BaseAscii;
      var weight := Pow26(|columnName| - k - 1);
      assert columnName[..k + 1][..k] == columnName[..k];
      assert Pow26(|columnName| - k) == 26 * weight;
      r := r + weight * digit;
      k := k + 1;
    }
    assert columnName[..k] == columnName;
  }

  predicate IsDigit(c: char) {
    '0' <= c <= '9'
  }

  /** The string with every decimal digit removed. */
  function StripDigits(s: string): (r: string)
    ensures forall i :: 0 <= i < |r| ==> !IsDigit(r[i]) && r[i] in s
    ensures |r| <= |s|
  {
    if s == [] then []
    else if IsDigit(s[0]) then StripDigits(s[1..])
    else [s[0]] + StripDigits(s[1..])
  }

  lemma {:induction false} StripDigitsOfLetters(name: string, digits: string)
    requires forall i :: 0 <= i < |name| ==> IsLetter(name[i])
    requires forall i :: 0 <= i < |digits| ==> IsDigit(digits[i])
    ensures StripDigits(name + digits) == name
  {
    if name == [] {
      StripDigitsOfDigits(digits);
      assert name + digits == digits;
    } else {
      StripDigitsOfLetters(name[1..], digits);
      assert (name + digits)[1..] == name[1..] + digits;
    }
  }

  lemma {:induction false} StripDigitsOfDigits(digits: string)
    requires forall i :: 0 <= i < |digits| ==> IsDigit(digits[i])
    ensures StripDigits(digits) == ""
  {
    if digits != [] {
      StripDigitsOfDigits(digits[1..]);
    }
  }

  /** GetColumnNameFromCellAddress: a range address has no column part; otherwise the upper-cased address without digits. */
  function ColumnPartOfAddress(address: string): (r: string)
    ensures ':' in address ==> r == ""
    ensures ':' !in address ==> |r| <= |address| && forall i :: 0 <= i < |r| ==> !IsDigit(r[i]) && !('a' <= r[i] <= 'z')
  {
    if ':' in address then "" else StripDigits(ToUpper(address))
  }

  /** The column number an address denotes, 0 when it has no column part. */
  function AddressColumnIndex(address: string): int
  {
    var name := ColumnPartOfAddress(address);
    if name == "" then 0 else ColumnIndex(name)
  }

  /** The text with every occurrence of `pattern` removed, scanning left to right (string.Replace with ""). */
  function RemoveAll(s: string, pattern: string): (r: string)
    requires |pattern| > 0
    ensures |r| <= |s|
    decreases |s|
  {
    if |s| < |pattern| then s
    else if s[..|pattern|] == pattern then RemoveAll(s[|pattern|..], pattern)
    else [s[0]] + RemoveAll(s[1..], pattern)
  }

  lemma {:induction false} RemoveAllMissing(s: string, pattern: string)
    requires |pattern| > 0 && IsLetter(pattern[0])
    requires forall i :: 0 <= i < |s| ==> IsDigit(s[i])
    ensures RemoveAll(s, pattern) == s
    decreases |s|
  {
    if |s| >= |pattern| {
      assert s[..|pattern|][0] != pattern[0];
      RemoveAllMissing(s[1..], pattern);
    }
  }

  lemma RemoveAllPrefix(name: string, digits: string)
    requires IsColumnName(name)
    requires forall i :: 0 <= i < |digits| ==> IsDigit(digits[i])
    ensures RemoveAll(name + digits, name) == digits
  {
    var s := name + digits;
    assert s[..|name|] == name;
    assert s[|name|..] == digits;
    RemoveAllMissing(digits, name);
  }

  /** int.TryParse: the parsed number, or 0 when the text is not an integer. */
  function TryParse(s: string): (r: int)
    ensures ParseInt(s).Ok? ==> r == ParseInt(s).value
    ensures ParseInt(s).Err? ==> r == 0
  {
    match ParseInt(s)
    case Ok(v) => v
    case Err(_) => 0
  }

  /** The row part as written: the column name is removed from the address as given, case-sensitively. */
  function RowOfAddressAsWritten(address: string, columnName: string): int
    requires |columnName| > 0
  {
    TryParse(RemoveAll(address, columnName))
  }

  /** The row part as intended: the column name is removed from the upper-cased address it was taken from. */
  function RowOfAddress(address: string, columnName: string): int
    requires |columnName| > 0
  {
    TryParse(RemoveAll(ToUpper(address), columnName))
  }

  lemma ToUpperOfUpper(s: string)
    requires forall i :: 0 <= i < |s| ==> !('a' <= s[i] <= 'z')
    ensures ToUpper(s) == s
  {
  }

  /**
   * An address whose upper-cased form is a column name followed by a row
   * number, such as "a1" or "B12", gives back that column and that row.
   */
  lemma RowOfAddressOfCellAddress(address: string, name: string, row: nat)
    requires IsColumnName(name)
    requires ToUpper(address) == name + NatToString(row)
    ensures ColumnPartOfAddress(address) == name
    ensures AddressColumnIndex(address) == ColumnIndex(name)
    ensures RowOfAddress(address, name) == row
  {
    var digits := NatToString(row);
    forall k | 0 <= k < |address|
      ensures address[k] != ':'
    {
      assert ToUpper(address)[k] == ToUpperChar(address[k]);
      if k < |name| {
        assert (name + digits)[k] == name[k];
      } else {
        assert (name + digits)[k] == digits[k - |name|];
      }
    }
    StripDigitsOfLetters(name, digits);
    RemoveAllPrefix(name, digits);
    DigitsOfNatToString(row);
    ParseIntToString(row);
  }

  /** The as-written row part of "a1" is 0, though the address names row 1. */
  lemma LowerCaseAddressLosesRow()
    ensures ColumnPartOfAddress("a1") == "A" && AddressColumnIndex("a1") == 1
    ensures ColumnName(1) == "A"
    ensures RowOfAddressAsWritten("a1", "A") == 0
    ensures RowOfAddress("a1", "A") == 1
  {
    assert ToUpper("a1") == "A1";
    assert StripDigits("A1") == "A";
    assert RemoveAll("a1", "A") == "a1" by {
      assert "a1"[..1] != "A";
      assert RemoveAll("1", "A") == "1";
    }
    assert ParseInt("a1").Err?;
    RowOfAddressOfCellAddress("a1", "A", 1);
  }

  /**
   * The reader as written gives back column and row of an upper-case cell
   * address such as "B12".
   */
  lemma CellIndexesOfUpperCaseAddress(address: string, name: string, row: nat)
    requires IsColumnName(name)
    requires address == name + NatToString(row)
    ensures AddressColumnIndex(address) > 0
    ensures ColumnName(AddressColumnIndex(address)) == name
    ensures RowOfAddressAsWritten(address, ColumnName(AddressColumnIndex(address))) == row
  {
    DigitsOfNatToString(row);
    var digits := NatToString(row);
    forall i | 0 <= i < |address|
      ensures !('a' <= address[i] <= 'z')
    {
      if i >= |name| {
        assert address[i] == digits[i - |name|];
      }
    }
    ToUpperOfUpper(address);
    CellIndexesOfCellAddress(address, name, row);
  }

  /**
   * The reader as written finds no row in a cell address whose column part
   * is in lower case, such as "b12": nothing is removed from it, and what
   * remains starts with a letter.
   */
  lemma LowerCaseAddressHasNoRow(address: string, name: string, row: nat)
    requires IsColumnName(name)
    requires ToUpper(address) == name + NatToString(row)
    requires |address| > 0 && 'a' <= address[0] <= 'z'
    ensures AddressColumnIndex(address) == ColumnIndex(name)
    ensures RowOfAddressAsWritten(address, name) == 0
  {
    RowOfAddressOfCellAddress(address, name, row);
    var rest := RemoveAll(address, name);
    assert |rest| > 0 && rest[0] == address[0] by {
      if |address| >= |name| {
        assert address[..|name|][0] != name[0];
      }
    }
    assert !AllDigits(rest) by {
      assert !IsDigit(rest[0]);
    }
  }

  /** Every entry of the earlier cache is still there, unchanged. */
  ghost predicate CacheKept(before: map<int, string>, after: map<int, string>)
  {
    forall i :: i in before ==> i in after && after[i] == before[i]
  }

  /**
   * The converter's memo tables. Every cached name denotes its cached
   * number, whichever direction added it, and every number cached by name
   * is also cached by number.
   */
  class ColumnIndexConverter {
    var byNumber: map<int, string>
    var byName: map<string, int>

    ghost predicate Valid()
      reads this
    {
      (forall i :: i in byNumber ==> ColumnIndex(byNumber[i]) == i) &&
      (forall n :: n in byName ==> byName[n] == ColumnIndex(n)) &&
      (forall n :: n in byName ==> byName[n] in byNumber)
    }

    /** Every positive cached number holds its canonical name. */
    ghost predicate CanonicalNames()
      reads this
    {
      forall i :: i in byNumber && i > 0 ==> byNumber[i] == ColumnName(i)
    }

    constructor()
      ensures Valid() && CanonicalNames()
      ensures byNumber == map[] && byName == map[]
    {
      byNumber := map[];
      byName := map[];
    }

    /** UpdateIndexes: each direction is added only when its key is absent. */
    method UpdateIndexes(columnIndex: int, columnName: string)
      requires Valid() && ColumnIndex(columnName) == columnIndex
      modifies this
      ensures Valid()
      ensures byNumber == if columnIndex in old(byNumber) then old(byNumber) else old(byNumber)[columnIndex := columnName]
      ensures byName == if columnName in old(byName) then old(byName) else old(byName)[columnName := columnIndex]
    {
      if columnIndex !in byNumber {
        byNumber := byNumber[columnIndex := columnName];
      }
      if columnName !in byName {
        byName := byName[columnName := columnIndex];
      }
    }

    /** GetColumnIndexFromCellAddress: the cache never changes the answer. */
    method IndexFromAddress(address: string) returns (r: int)
      requires Valid()
      modifies this
      ensures Valid() && r == AddressColumnIndex(address)
      ensures CacheKept(old(byNumber), byNumber)
      ensures var n := ColumnPartOfAddress(address);
        n != "" ==> r in byNumber && (r !in old(byNumber) ==> byNumber[r] == n)
      ensures var n := ColumnPartOfAddress(address);
        old(CanonicalNames()) && (n == "" || IsColumnName(n)) ==> CanonicalNames()
    {
      var name := ColumnPartOfAddress(address);
      if name != "" {
        if name !in byName {
          var index := ColumnIndexFromName(name);
          if IsColumnName(name) {
            ColumnNameOfIndex(name);
            ColumnIndexOfNamePositive(name);
          }
          UpdateIndexes(index, name);
        }
        r := byName[name];
      } else {
        r := 0;
      }
    }

    /**
     * GetColumnNameFromColumnIndex: "" for a non-positive index; otherwise a
     * name denoting the index, which is the canonical one unless an odd
     * address cached another name for it first.
     */
    method NameFromIndex(columnIndex: int) returns (r: string)
      requires Valid()
      modifies this
      ensures Valid()
      ensures columnIndex <= 0 ==> r == ""
      ensures columnIndex > 0 ==> ColumnIndex(r) == columnIndex
      ensures columnIndex > 0 ==> columnIndex in byNumber && r == byNumber[columnIndex]
      ensures CacheKept(old(byNumber), byNumber)
      ensures columnIndex > 0 && (columnIndex !in old(byNumber) || old(CanonicalNames())) ==> r == ColumnName(columnIndex)
      ensures old(CanonicalNames()) ==> CanonicalNames()
    {
      if columnIndex > 0 {
        if columnIndex !in byNumber {
          var name := ColumnNameFromIndex(columnIndex);
          ColumnIndexOfName(columnIndex);
          UpdateIndexes(columnIndex, name);
        }
        r := byNumber[columnIndex];
      } else {
        r := "";
      }
    }

    /** GetCellIndexesFromCellAddress as written: the row text is what remains of the address as given. */
    method CellIndexesFromAddressAsWritten(address: string) returns (rowIndex: int, columnIndex: int)
      requires Valid()
      modifies this
      ensures Valid()
      ensures columnIndex == AddressColumnIndex(address)
      ensures columnIndex <= 0 ==> rowIndex == 0
      ensures columnIndex > 0 ==> columnIndex in byNumber && rowIndex == RowOfAddressAsWritten(address, byNumber[columnIndex])
      ensures CacheKept(old(byNumber), byNumber)
      ensures columnIndex > 0 && columnIndex !in old(byNumber) ==> byNumber[columnIndex] == ColumnPartOfAddress(address)
      ensures old(CanonicalNames()) && IsColumnName(ColumnPartOfAddress(address)) ==>
        columnIndex > 0 && CanonicalNames() && rowIndex == RowOfAddressAsWritten(address, ColumnName(columnIndex))
    {
      rowIndex := 0;
      columnIndex := IndexFromAddress(address);
      if IsColumnName(ColumnPartOfAddress(address)) {
        ColumnIndexOfNamePositive(ColumnPartOfAddress(address));
      }
      if columnIndex > 0 {
        var name := NameFromIndex(columnIndex);
        rowIndex := TryParse(RemoveAll(address, name));
      }
    }

    /** GetCellIndexesFromCellAddress, corrected: the row text is what remains of the upper-cased address. */
    method CellIndexesFromAddress(address: string) returns (rowIndex: int, columnIndex: int)
      requires Valid()
      modifies this
      ensures Valid()
      ensures columnIndex == AddressColumnIndex(address)
      ensures columnIndex <= 0 ==> rowIndex == 0
      ensures columnIndex > 0 ==> columnIndex in byNumber && rowIndex == RowOfAddress(address, byNumber[columnIndex])
      ensures CacheKept(old(byNumber), byNumber)
      ensures columnIndex > 0 && columnIndex !in old(byNumber) ==> byNumber[columnIndex] == ColumnPartOfAddress(address)
      ensures old(CanonicalNames()) && IsColumnName(ColumnPartOfAddress(address)) ==>
        columnIndex > 0 && CanonicalNames() && rowIndex == RowOfAddress(address, ColumnName(columnIndex))
    {
      rowIndex := 0;
      columnIndex := IndexFromAddress(address);
      if IsColumnName(ColumnPartOfAddress(address)) {
        ColumnIndexOfNamePositive(ColumnPartOfAddress(address));
      }
      if columnIndex > 0 {
        var name := NameFromIndex(columnIndex);
        rowIndex := TryParse(RemoveAll(ToUpper(address), name));
      }
    }
  }

  /** The corrected reader gives back column and row of any cell address, in either case. */
  lemma CellIndexesOfCellAddress(address: string, name: string, row: nat)
    requires IsColumnName(name)
    requires ToUpper(address) == name + NatToString(row)
    ensures AddressColumnIndex(address) > 0
    ensures ColumnName(AddressColumnIndex(address)) == name
    ensures RowOfAddress(address, ColumnName(AddressColumnIndex(address))) == row
  {
    RowOfAddressOfCellAddress(address, name, row);
    ColumnIndexOfNamePositive(name);
    ColumnNameOfIndex(name);
  }
  /** The cached name "@A" denotes column 1, and removing it from "A5" leaves no row number. */
  lemma StrayNameFacts()
    ensures ColumnPartOfAddress("@A1") == "@A" && AddressColumnIndex("@A1") == 1
    ensures RowOfAddressAsWritten("A5", "@A") == 0
  {
    assert ToUpper("@A1") == "@A1";
    assert StripDigits("@A1") == "@A" by { assert "@A1"[1..][1..] == "1"; }
    assert ColumnIndex("@A") == 1 by { assert "@A"[..1] == "@"; assert "@"[..0] == ""; }
    assert RemoveAll("A5", "@A") == "A5" by { assert "A5"[..2] != "@A"; assert "A5"[1..] == "5"; }
    assert !AllDigits("A5") by { assert !('0' <= "A5"[0] <= '9'); }
  }

  /** "A5" names column 1, and removing its canonical name "A" leaves row 5. */
  lemma CanonicalAddressFacts()
    ensures ColumnPartOfAddress("A5") == "A" && IsColumnName("A") && AddressColumnIndex("A5") == 1
    ensures ColumnName(1) == "A" && RowOfAddressAsWritten("A5", "A") == 5
  {
    assert ToUpper("A5") == "A5";
    StripDigitsOfLetters("A", "5");
    assert "A" + "5" == "A5";
    RemoveAllPrefix("A", "5");
    ColumnNameExamples();
    assert DigitsValue("5") == 5 by { assert "5"[..0] == ""; }
  }

  /**
   * The cache keeps the first name it saw for a number: on a fresh
   * converter, reading a second address of the same column removes the
   * first address's column text from it, whatever the second one spells.
   */
  method ReadAfter(first: string, second: string) returns (column: int, row: int)
    requires AddressColumnIndex(first) > 0 && AddressColumnIndex(second) == AddressColumnIndex(first)
    ensures column == AddressColumnIndex(second)
    ensures row == RowOfAddressAsWritten(second, ColumnPartOfAddress(first))
  {
    var converter := new ColumnIndexConverter();
    var _, _ := converter.CellIndexesFromAddressAsWritten(first);
    row, column := converter.CellIndexesFromAddressAsWritten(second);
  }

  /**
   * A stray '@' before the column letters caches "@A" for column 1, and a
   * later "A5" on the same converter then removes "@A" rather than "A"
   * and reads row 0; a fresh converter reads row 5.
   */
  method PoisonedCache() returns (column: int, row: int, freshRow: int)
    ensures column == 1 && row == 0 && freshRow == 5
  {
    StrayNameFacts();
    CanonicalAddressFacts();
    column, row := ReadAfter("@A1", "A5");
    var other := new ColumnIndexConverter();
    var otherColumn;
    freshRow, otherColumn := other.CellIndexesFromAddressAsWritten("A5");
  }
}
