/**
 * Defined names: a name for one or more ranges of one worksheet. The
 * workbook stores it as a comma-separated list of fully qualified
 * addresses ('My Sheet'!A1:B2); a defined name keeps the sheet those
 * addresses point to and the local addresses after each '!'.
 *
 * The parsing is split in three: cutting the list at its commas, undoing
 * the doubled apostrophes of quoted sheet names, and separating each
 * address into sheet name and local address.
 */
module DefinedNames {
  import opened Wrappers
  import opened Helpers
  import W = Worksheets
  import WC = WorksheetCollections
  import Ranges

  // ---------------------------------------------------------------------
  // String searches
  // ---------------------------------------------------------------------

  /** string.IndexOf(c, start): the first position at or after start holding c, or -1. */
  function IndexFrom(s: string, c: char, start: int): (r: int)
    requires 0 <= start <= |s|
    ensures r == -1 || (start <= r < |s| && s[r] == c)
    ensures forall i :: start <= i < (if r < 0 then |s| else r) ==> s[i] != c
    decreases |s| - start
  {
    if start == |s| then -1 else if s[start] == c then start else IndexFrom(s, c, start + 1)
  }

  /** string.LastIndexOf(c): the last position holding c, or -1. */
  function LastIndex(s: string, c: char): (r: int)
    ensures -1 <= r < |s|
    ensures r >= 0 ==> s[r] == c
    ensures forall i :: r < i < |s| ==> s[i] != c
  {
    if s == [] then -1 else if s[|s| - 1] == c then |s| - 1 else LastIndex(s[..|s| - 1], c)
  }

  // ---------------------------------------------------------------------
  // Doubled apostrophes
  // ---------------------------------------------------------------------

  /** string.Replace("''", "'"): read left to right, each pair of apostrophes becomes one. */
  function Unescape(s: string): (r: string)
    ensures |r| <= |s|
    ensures '\'' !in s ==> r == s
    decreases |s|
  {
    if |s| >= 2 && s[0] == '\'' && s[1] == '\'' then "'" + Unescape(s[2..])
    else if s == [] then []
    else
      assert s == [s[0]] + s[1..];
      [s[0]] + Unescape(s[1..])
  }

  /** Unescaping the doubled form of a text gives the text back, whatever follows it. */
  lemma {:induction false} UnescapeDoubledPrefix(x: string, t: string)
    ensures Unescape(W.DoubleApostrophes(x) + t) == x + Unescape(t)
    decreases |x|
  {
    if x != [] {
      var c, y := x[0], x[1..];
      var rest := W.DoubleApostrophes(y) + t;
      assert W.DoubleApostrophes(x) + t == W.DoubleApostrophes([c]) + rest;
      assert Unescape(W.DoubleApostrophes([c]) + rest) == [c] + (y + Unescape(t)) by {
        UnescapeDoubledChar(c, rest);
        UnescapeDoubledPrefix(y, t);
      }
      Regroup(x, Unescape(t));
    } else {
      assert W.DoubleApostrophes([]) == [];
      assert [] + t == t;
      assert [] + Unescape(t) == Unescape(t);
    }
  }

  lemma Regroup(x: string, u: string)
    requires x != []
    ensures [x[0]] + (x[1..] + u) == x + u
  {
    assert x == [x[0]] + x[1..];
  }

  /** One doubled character at the front unescapes to itself. */
  lemma UnescapeDoubledChar(c: char, rest: string)
    ensures Unescape(W.DoubleApostrophes([c]) + rest) == [c] + Unescape(rest)
  {
    if c == '\'' {
      var u := "''" + rest;
      assert W.DoubleApostrophes([c]) == "''";
      assert u[2..] == rest;
    } else {
      var u := [c] + rest;
      assert W.DoubleApostrophes([c]) == [c];
      assert u[1..] == rest;
    }
  }

  /** Doubling the apostrophes and unescaping them again is the identity. */
  lemma UnescapeDoubled(x: string)
    ensures Unescape(W.DoubleApostrophes(x)) == x
  {
    UnescapeDoubledPrefix(x, []);
    assert W.DoubleApostrophes(x) + [] == W.DoubleApostrophes(x);
  }

  /** An escaped text, whose apostrophes come in pairs, is what doubling its unescaped form gives. */
  lemma {:induction false} DoubledUnescaped(s: string)
    requires W.PairedApostrophes(s)
    ensures W.DoubleApostrophes(Unescape(s)) == s
    decreases |s|
  {
    if s != [] {
      if s[0] == '\'' {
        DoubledUnescaped(s[2..]);
        assert Unescape(s) == "'" + Unescape(s[2..]);
        assert ("'" + Unescape(s[2..]))[1..] == Unescape(s[2..]);
        assert s == "''" + s[2..];
      } else {
        DoubledUnescaped(s[1..]);
        assert Unescape(s) == [s[0]] + Unescape(s[1..]);
        assert ([s[0]] + Unescape(s[1..]))[1..] == Unescape(s[1..]);
        assert s == [s[0]] + s[1..];
      }
    }
  }

  /** A text with no two adjacent apostrophes is left as it is. */
  lemma {:induction false} UnescapeWithoutPairs(s: string)
    requires forall i :: 0 <= i < |s| - 1 ==> !(s[i] == '\'' && s[i + 1] == '\'')
    ensures Unescape(s) == s
    decreases |s|
  {
    if s != [] {
      UnescapeWithoutPairs(s[1..]);
      assert s == [s[0]] + s[1..];
    }
  }

  // ---------------------------------------------------------------------
  // Cutting the address list at its commas, as written
  // ---------------------------------------------------------------------

  /**
   * The scan for the apostrophe that closes a quoted sheet name. While the
   * character after the candidate is another apostrophe the pair is an
   * escaped one and the scan moves to the next apostrophe. Reading the
   * character after the last one is out of range. When no apostrophe is
   * left the candidate becomes -1 and the next read is the first character
   * again; coming back to -1 a second time repeats the same steps forever.
   */
  function ClosingQuote(s: string, endQuote: int, restarted: bool): (r: Result<int>)
    requires -1 <= endQuote < |s|
    ensures r.Ok? ==> -1 <= r.value < |s| - 1 && s[r.value + 1] != '\''
    ensures r.Err? ==> r.error == ArgumentOutOfRange || r.error == DoesNotTerminate
    decreases if restarted then 0 else 1, |s| - endQuote
  {
    if endQuote + 1 >= |s| then Err(ArgumentOutOfRange)
    else if s[endQuote + 1] != '\'' then Ok(endQuote)
    else
      var next := IndexFrom(s, '\'', endQuote + 2);
      if next >= 0 then ClosingQuote(s, next, restarted)
      else if restarted then Err(DoesNotTerminate)
      else ClosingQuote(s, -1, true)
  }

  /**
   * Where the address starting at current ends, given the next comma: when
   * an apostrophe follows current (before or after that comma), the first
   * comma after its closing apostrophe; a closing position of -1 is then
   * an out-of-range start for the comma search.
   */
  function AddressEnd(s: string, current: int, commaIndex: int): (r: Result<int>)
    requires 0 <= current <= commaIndex < |s| && s[commaIndex] == ','
    ensures r.Ok? ==> -1 <= r.value < |s| && (r.value >= 0 ==> s[r.value] == ',')
    ensures IndexFrom(s, '\'', current) < 0 ==> r == Ok(commaIndex)
  {
    var quoteIndex := IndexFrom(s, '\'', current);
    if quoteIndex < 0 then Ok(commaIndex)
    else
      var closing := ClosingQuote(s, IndexFrom(s, '\'', quoteIndex + 1), false);
      if closing.Err? then Err(closing.error)
      else if closing.value < 0 then Err(ArgumentOutOfRange)
      else Ok(IndexFrom(s, ',', closing.value))
  }

  /**
   * The comma that ends the address starting at current; none when it is
   * the last address. An end before current would be a negative
   * substring length.
   */
  function NextComma(s: string, current: int): (r: Result<Option<int>>)
    requires 0 <= current <= |s|
    ensures r.Ok? && r.value.Some? ==> current <= r.value.value < |s| && s[r.value.value] == ','
    ensures IndexFrom(s, ',', current) < 0 ==> r == Ok(None)
  {
    var commaIndex := IndexFrom(s, ',', current);
    if commaIndex < 0 then Ok(None)
    else
      var end := AddressEnd(s, current, commaIndex);
      if end.Err? then Err(end.error)
      else if end.value < 0 then Ok(None)
      else if end.value < current then Err(ArgumentOutOfRange)
      else Ok(Some(end.value))
  }

  /** The addresses from position current on, as the loop cuts them, each unescaped. */
  function AddressesFromAsWritten(s: string, current: int): (r: Result<seq<string>>)
    requires 0 <= current <= |s|
    ensures r.Ok? ==> |r.value| >= 1
    decreases |s| - current
  {
    match NextComma(s, current)
    case Err(e) => Err(e)
    case Ok(None) => Ok([Unescape(s[current..])])
    case Ok(Some(end)) => Prepend([Unescape(s[current..end])], AddressesFromAsWritten(s, end + 1))
  }

  /** Addresses found so far, in front of what the rest of the string yields. */
  function Prepend(found: seq<string>, rest: Result<seq<string>>): (r: Result<seq<string>>)
  {
    match rest
    case Err(e) => Err(e)
    case Ok(more) => Ok(found + more)
  }

  lemma AddressesFromStep(s: string, current: int, end: int)
    requires 0 <= current <= |s| && NextComma(s, current) == Ok(Some(end))
    ensures AddressesFromAsWritten(s, current) == Prepend([Unescape(s[current..end])], AddressesFromAsWritten(s, end + 1))
  {
  }

  lemma AddressesFromLast(s: string, current: int)
    requires 0 <= current <= |s| && NextComma(s, current) == Ok(None)
    ensures AddressesFromAsWritten(s, current) == Ok([Unescape(s[current..])])
  {
  }

  lemma AddressesFromFailure(s: string, current: int, found: seq<string>)
    requires 0 <= current <= |s| && NextComma(s, current).Err?
    ensures Prepend(found, AddressesFromAsWritten(s, current)) == Err(NextComma(s, current).error)
  {
  }

  /** One round of the loop: the address before the comma joins those found. */
  lemma AddressesFromAdvance(s: string, current: int, end: int, found: seq<string>)
    requires 0 <= current <= |s| && NextComma(s, current) == Ok(Some(end))
    ensures Prepend(found, AddressesFromAsWritten(s, current))
         == Prepend(found + [Unescape(s[current..end])], AddressesFromAsWritten(s, end + 1))
  {
    AddressesFromStep(s, current, end);
    PrependTwice(found, Unescape(s[current..end]), AddressesFromAsWritten(s, end + 1));
  }

  lemma PrependTwice(found: seq<string>, address: string, rest: Result<seq<string>>)
    ensures Prepend(found, Prepend([address], rest)) == Prepend(found + [address], rest)
  {
    if rest.Ok? {
      assert found + ([address] + rest.value) == (found + [address]) + rest.value;
    }
  }

  /**
   * One round of the loop of DefinedName.GetAddressesFromAddressString: the next comma; when an
   * apostrophe follows the current position, the apostrophe closing it,
   * past any doubled ones, and the first comma after that.
   */
  method FindNextComma(s: string, currentIndex: int) returns (r: Result<Option<int>>)
    requires 0 <= currentIndex <= |s|
    ensures r == NextComma(s, currentIndex)
  {
    var commaIndex := IndexFrom(s, ',', currentIndex);
    if commaIndex < 0 {
      return Ok(None);
    }
    var quoteIndex := IndexFrom(s, '\'', currentIndex);
    if quoteIndex >= 0 {
      var closing := FindClosingQuote(s, IndexFrom(s, '\'', quoteIndex + 1));
      if closing.Err? {
        return Err(closing.error);
      }
      if closing.value < 0 {
        return Err(ArgumentOutOfRange);
      }
      commaIndex := IndexFrom(s, ',', closing.value);
    }
    if commaIndex < 0 {
      return Ok(None);
    }
    if commaIndex < currentIndex {
      return Err(ArgumentOutOfRange);
    }
    r := Ok(Some(commaIndex));
  }

  /**
   * The inner loop of that round: while the apostrophe found is followed
   * by another, move on to the next apostrophe, starting over from -1 once
   * when none is left.
   */
  method FindClosingQuote(s: string, start: int) returns (r: Result<int>)
    requires -1 <= start < |s|
    ensures r == ClosingQuote(s, start, false)
  {
    var endQuoteIndex := start;
    var restarted := false;
    while true
      invariant -1 <= endQuoteIndex < |s|
      invariant ClosingQuote(s, endQuoteIndex, restarted) == ClosingQuote(s, start, false)
      decreases if restarted then 0 else 1, |s| - endQuoteIndex
    {
      if endQuoteIndex + 1 >= |s| {
        return Err(ArgumentOutOfRange);
      }
      if s[endQuoteIndex + 1] != '\'' {
        return Ok(endQuoteIndex);
      }
      var next := IndexFrom(s, '\'', endQuoteIndex + 2);
      if next < 0 {
        if restarted {
          return Err(DoesNotTerminate);
        }
        restarted := true;
      }
      endQuoteIndex := next;
    }
  }

  /**
   * GetAddressesFromAddressString as written: the loop over comma
   * positions, then the rest as the last address. Where the loop would run
   * forever the method stops with DoesNotTerminate.
   */
  method GetAddressesFromAddressStringAsWritten(addressString: string) returns (r: Result<seq<string>>)
    ensures r == AddressesFromAsWritten(addressString, 0)
  {
    var s := addressString;
    ghost var total := AddressesFromAsWritten(s, 0);
    var addresses: seq<string> := [];
    var currentIndex := 0;
    assert Prepend([], AddressesFromAsWritten(s, 0)) == AddressesFromAsWritten(s, 0) by {
      if AddressesFromAsWritten(s, 0).Ok? {
        assert [] + AddressesFromAsWritten(s, 0).value == AddressesFromAsWritten(s, 0).value;
      }
    }
    while currentIndex >= 0
      invariant 0 <= currentIndex <= |s|
      invariant total == Prepend(addresses, AddressesFromAsWritten(s, currentIndex))
      decreases |s| - currentIndex
    {
      var next := FindNextComma(s, currentIndex);
      if next.Err? {
        assert total == Err(next.error) by {
          AddressesFromFailure(s, currentIndex, addresses);
        }
        return Err(next.error);
      }
      if next.value.None? {
        assert total == Ok(addresses + [Unescape(s[currentIndex..])]) by {
          AddressesFromLast(s, currentIndex);
        }
        break;
      }
      var commaIndex := next.value.value;
      var address := Unescape(s[currentIndex..commaIndex]);
      ghost var found, previous := addresses, currentIndex;
      addresses := addresses + [address];
      currentIndex := commaIndex + 1;
      assert total == Prepend(addresses, AddressesFromAsWritten(s, currentIndex)) by {
        AddressesFromAdvance(s, previous, commaIndex, found);
      }
    }
    r := Ok(addresses + [Unescape(s[currentIndex..])]);
  }

  // ---------------------------------------------------------------------
  // Cutting the address list at the commas outside quotes
  // ---------------------------------------------------------------------

  /** The number of apostrophes in a text. */
  function Quotes(s: string): nat
  {
    if s == [] then 0 else Quotes(s[..|s| - 1]) + (if s[|s| - 1] == '\'' then 1 else 0)
  }

  /** An odd number of apostrophes: a quoted sheet name is open. Doubled apostrophes inside it cancel. */
  predicate InQuotes(s: string)
  {
    Quotes(s) % 2 == 1
  }

  /** Every comma of the text lies inside a quoted sheet name. */
  predicate CommasQuoted(s: string)
  {
    forall i :: 0 <= i < |s| && s[i] == ',' ==> InQuotes(s[..i])
  }

  lemma QuotesSnoc(s: string, c: char)
    ensures Quotes(s + [c]) == Quotes(s) + (if c == '\'' then 1 else 0)
  {
    assert (s + [c])[..|s|] == s;
  }

  lemma {:induction false} QuotesAppend(a: string, b: string)
    ensures Quotes(a + b) == Quotes(a) + Quotes(b)
    decreases |b|
  {
    if b != [] {
      var b' := b[..|b| - 1];
      QuotesAppend(a, b');
      assert a + b == (a + b') + [b[|b| - 1]];
      assert b == b' + [b[|b| - 1]];
      QuotesSnoc(a + b', b[|b| - 1]);
      QuotesSnoc(b', b[|b| - 1]);
    } else {
      assert a + b == a;
    }
  }

  lemma CommasQuotedSnoc(s: string, c: char)
    requires CommasQuoted(s) && (c == ',' ==> InQuotes(s))
    ensures CommasQuoted(s + [c])
  {
    var t := s + [c];
    forall i | 0 <= i < |t| && t[i] == ','
      ensures InQuotes(t[..i])
    {
      if i < |s| {
        assert t[..i] == s[..i];
      } else {
        assert t[..i] == s;
      }
    }
  }

  lemma CommasQuotedPrefix(s: string, k: int)
    requires CommasQuoted(s) && 0 <= k <= |s|
    ensures CommasQuoted(s[..k])
  {
    forall i | 0 <= i < k && s[..k][i] == ','
      ensures InQuotes(s[..k][..i])
    {
      assert s[..k][..i] == s[..i];
    }
  }

  /**
   * Splitting at the commas outside quotes: the text read so far for the
   * current address is carried along; a comma ends it only when no quote
   * is open in it.
   */
  function SplitQuoted(s: string, piece: string): (r: seq<string>)
    ensures |r| >= 1
    decreases |s|
  {
    if s == [] then [piece]
    else if s[0] == ',' && !InQuotes(piece) then [piece] + SplitQuoted(s[1..], "")
    else SplitQuoted(s[1..], piece + [s[0]])
  }

  /** Each piece unescaped. */
  function Unescaped(pieces: seq<string>): (r: seq<string>)
    ensures |r| == |pieces| && forall i :: 0 <= i < |pieces| ==> r[i] == Unescape(pieces[i])
  {
    seq(|pieces|, i requires 0 <= i < |pieces| => Unescape(pieces[i]))
  }

  /**
   * The addresses of an address list as evidently intended: cut at the
   * commas outside quoted sheet names, each address unescaped.
   */
  function Addresses(s: string): (r: seq<string>)
    ensures |r| >= 1
  {
    Unescaped(SplitQuoted(s, ""))
  }

  /** Nothing is lost or added: the pieces joined with commas are the text. */
  lemma {:induction false} SplitQuotedJoin(s: string, piece: string)
    ensures W.Join(SplitQuoted(s, piece), ',') == piece + s
    decreases |s|
  {
    if s == [] {
      assert piece + s == piece;
    } else if s[0] == ',' && !InQuotes(piece) {
      var rest := SplitQuoted(s[1..], "");
      SplitQuotedJoin(s[1..], "");
      JoinCons(piece, rest);
      assert "" + s[1..] == s[1..];
      assert s == [','] + s[1..];
    } else {
      SplitQuotedJoin(s[1..], piece + [s[0]]);
      assert s == [s[0]] + s[1..];
    }
  }

  lemma Regroup3(a: string, b: string, c: string)
    ensures a + b + c == a + (b + c)
  {
  }

  lemma JoinCons(p: string, rest: seq<string>)
    requires |rest| >= 1
    ensures W.Join([p] + rest, ',') == p + ([','] + W.Join(rest, ','))
  {
    var parts := [p] + rest;
    var j := W.Join(rest, ',');
    assert W.Join(parts, ',') == p + [','] + j by {
      assert parts[0] == p && parts[1..] == rest && |parts| >= 2;
    }
    Regroup3(p, [','], j);
  }

  /** Pieces that keep their commas inside quotes, every piece but the last with its quotes closed. */
  predicate CutAtUnquotedCommas(r: seq<string>)
  {
    (forall i :: 0 <= i < |r| ==> CommasQuoted(r[i])) &&
    (forall i :: 0 <= i < |r| - 1 ==> !InQuotes(r[i]))
  }

  /**
   * The cuts are at unquoted commas only: every piece keeps its commas
   * inside quotes, and every piece but the last closes all its quotes.
   */
  lemma {:induction false} SplitQuotedPieces(s: string, piece: string)
    requires CommasQuoted(piece)
    ensures CutAtUnquotedCommas(SplitQuoted(s, piece))
    decreases |s|
  {
    if s == [] {
    } else if s[0] == ',' && !InQuotes(piece) {
      SplitQuotedPieces(s[1..], "");
      var rest := SplitQuoted(s[1..], "");
      var r := [piece] + rest;
      assert SplitQuoted(s, piece) == r;
      forall i | 0 <= i < |r|
        ensures CommasQuoted(r[i]) && (i < |r| - 1 ==> !InQuotes(r[i]))
      {
        if i > 0 {
          assert r[i] == rest[i - 1];
        }
      }
    } else {
      CommasQuotedSnoc(piece, s[0]);
      SplitQuotedPieces(s[1..], piece + [s[0]]);
      assert SplitQuoted(s, piece) == SplitQuoted(s[1..], piece + [s[0]]);
    }
  }

  /** A stretch whose commas are all quoted is taken into the current piece whole. */
  lemma {:induction false} SplitQuotedConsumes(t: string, u: string, piece: string)
    requires CommasQuoted(piece + t)
    ensures SplitQuoted(t + u, piece) == SplitQuoted(u, piece + t)
    decreases |t|
  {
    if t == [] {
      assert t + u == u && piece + t == piece;
    } else {
      var p := piece + [t[0]];
      assert p + t[1..] == piece + t by {
        assert t == [t[0]] + t[1..];
      }
      assert (t + u)[0] == t[0] && (t + u)[1..] == t[1..] + u;
      assert t[0] == ',' ==> InQuotes(piece) by {
        assert (piece + t)[|piece|] == t[0] && (piece + t)[..|piece|] == piece;
      }
      CommasQuotedPrefix(piece + t, |p|);
      assert (piece + t)[..|p|] == p;
      SplitQuotedConsumes(t[1..], u, p);
    }
  }

  /**
   * Joining addresses that keep their commas quoted and close their quotes,
   * then splitting, gives the addresses back.
   */
  lemma {:induction false} SplitQuotedJoined(parts: seq<string>)
    requires |parts| >= 1
    requires forall i :: 0 <= i < |parts| ==> CommasQuoted(parts[i]) && !InQuotes(parts[i])
    ensures SplitQuoted(W.Join(parts, ','), "") == parts
    decreases |parts|
  {
    var p := parts[0];
    assert "" + p == p;
    if |parts| == 1 {
      SplitQuotedConsumes(p, [], "");
      assert p + [] == p;
    } else {
      var rest := parts[1..];
      var u := [','] + W.Join(rest, ',');
      assert W.Join(parts, ',') == p + u;
      SplitQuotedConsumes(p, u, "");
      assert u[0] == ',' && u[1..] == W.Join(rest, ',');
      SplitQuotedJoined(rest);
      assert parts == [p] + rest;
    }
  }

  /** Without a comma the list is one address, as written and as intended. */
  lemma WithoutCommas(s: string)
    requires ',' !in s
    ensures AddressesFromAsWritten(s, 0) == Ok([Unescape(s)])
    ensures Addresses(s) == [Unescape(s)]
  {
    assert s[0..] == s;
    assert CommasQuoted("" + s);
    SplitQuotedConsumes(s, [], "");
    assert s + [] == s && "" + s == s;
  }

  /**
   * GetAddressesFromAddressString as intended: a scan that tracks whether
   * a quoted sheet name is open and cuts at the other commas.
   */
  method GetAddressesFromAddressString(addressString: string) returns (r: seq<string>)
    ensures r == Addresses(addressString)
  {
    var s := addressString;
    var pieces: seq<string> := [];
    var piece := "";
    var inQuote := false;
    var i := 0;
    while i < |s|
      invariant 0 <= i <= |s|
      invariant inQuote == InQuotes(piece)
      invariant pieces + SplitQuoted(s[i..], piece) == SplitQuoted(s, "")
    {
      assert s[i..][0] == s[i] && s[i..][1..] == s[i + 1..];
      if s[i] == ',' && !inQuote {
        assert pieces + SplitQuoted(s[i..], piece) == (pieces + [piece]) + SplitQuoted(s[i + 1..], "");
        pieces := pieces + [piece];
        piece := "";
        inQuote := false;
      } else {
        QuotesSnoc(piece, s[i]);
        if s[i] == '\'' {
          inQuote := !inQuote;
        }
        piece := piece + [s[i]];
      }
      i := i + 1;
    }
    assert s[i..] == [];
    r := Unescaped(pieces + [piece]);
  }

  // ---------------------------------------------------------------------
  // The two splitters compared
  // ---------------------------------------------------------------------

  lemma {:induction false} QuotesOfQuoteFree(s: string)
    requires '\'' !in s
    ensures Quotes(s) == 0
    decreases |s|
  {
    if s != [] {
      assert '\'' !in s[..|s| - 1] by {
        assert forall i :: 0 <= i < |s| - 1 ==> s[..|s| - 1][i] == s[i];
      }
      QuotesOfQuoteFree(s[..|s| - 1]);
    }
  }

  /** Without apostrophes the intended split is string.Split at every comma. */
  lemma {:induction false} SplitQuotedQuoteFree(s: string, piece: string)
    requires '\'' !in s && Quotes(piece) == 0
    ensures SplitQuoted(s, piece) == [piece + W.Split(s, ',')[0]] + W.Split(s, ',')[1..]
    decreases |s|
  {
    if s == [] {
      assert piece + "" == piece;
    } else {
      var rest := W.Split(s[1..], ',');
      assert '\'' !in s[1..] by {
        assert forall i :: 0 <= i < |s| - 1 ==> s[1..][i] == s[i + 1];
      }
      if s[0] == ',' {
        SplitQuotedQuoteFree(s[1..], "");
        assert "" + rest[0] == rest[0];
        assert [rest[0]] + rest[1..] == rest;
        assert W.Split(s, ',') == [""] + rest;
        assert ([""] + rest)[1..] == rest;
        assert piece + "" == piece;
      } else {
        QuotesSnoc(piece, s[0]);
        SplitQuotedQuoteFree(s[1..], piece + [s[0]]);
        assert W.Split(s, ',') == [[s[0]] + rest[0]] + rest[1..];
        assert piece + [s[0]] + rest[0] == piece + ([s[0]] + rest[0]);
      }
    }
  }

  /** string.Split at a comma with no comma before it: the text up to it, then the split of the rest. */
  lemma {:induction false} SplitAtFirstComma(t: string, k: int)
    requires 0 <= k < |t| && t[k] == ',' && ',' !in t[..k]
    ensures W.Split(t, ',') == [t[..k]] + W.Split(t[k + 1..], ',')
    decreases k
  {
    if k == 0 {
      assert t[1..] == t[k + 1..];
    } else {
      assert t[0] != ',' by {
        assert t[..k][0] == t[0];
      }
      var u := t[1..][..k - 1];
      assert ',' !in u by {
        assert forall i :: 0 <= i < k - 1 ==> u[i] == t[..k][i + 1];
      }
      SplitAtFirstComma(t[1..], k - 1);
      assert t[1..][k..] == t[k + 1..];
      var rest := W.Split(t[1..], ',');
      assert rest[0] == t[1..][..k - 1] && rest[1..] == W.Split(t[k + 1..], ',');
      assert [t[0]] + t[1..][..k - 1] == t[..k];
    }
  }

  /** Without a comma string.Split gives the text alone. */
  lemma SplitWithoutComma(t: string)
    requires ',' !in t
    ensures W.Split(t, ',') == [t]
  {
    W.SplitJoin([t], ',');
  }

  lemma {:induction false} AsWrittenQuoteFree(s: string, current: int)
    requires '\'' !in s && 0 <= current <= |s|
    ensures AddressesFromAsWritten(s, current) == Ok(W.Split(s[current..], ','))
    decreases |s| - current
  {
    var comma := IndexFrom(s, ',', current);
    if comma < 0 {
      var t := s[current..];
      assert ',' !in t && '\'' !in t by {
        assert forall i :: 0 <= i < |t| ==> t[i] == s[current + i];
      }
      SplitWithoutComma(t);
    } else {
      AsWrittenQuoteFree(s, comma + 1);
      AsWrittenQuoteFreeRound(s, current, comma);
      SplitQuoteFreeRound(s, current, comma);
    }
  }

  lemma NextCommaQuoteFree(s: string, current: int, comma: int)
    requires '\'' !in s && 0 <= current <= |s|
    requires comma == IndexFrom(s, ',', current) && comma >= 0
    ensures NextComma(s, current) == Ok(Some(comma))
  {
    assert IndexFrom(s, '\'', current) < 0;
  }

  /** One round of the loop on a list without apostrophes: the text up to the next comma, unchanged. */
  lemma AsWrittenQuoteFreeRound(s: string, current: int, comma: int)
    requires '\'' !in s && 0 <= current <= |s|
    requires comma == IndexFrom(s, ',', current) && comma >= 0
    ensures AddressesFromAsWritten(s, current) == Prepend([s[current..comma]], AddressesFromAsWritten(s, comma + 1))
  {
    var head := s[current..comma];
    NextCommaQuoteFree(s, current, comma);
    AddressesFromStep(s, current, comma);
    assert '\'' !in head by {
      assert forall i :: 0 <= i < |head| ==> head[i] == s[current + i];
    }
  }

  /** string.Split peels off the text up to the first comma. */
  lemma SplitQuoteFreeRound(s: string, current: int, comma: int)
    requires 0 <= current <= |s|
    requires comma == IndexFrom(s, ',', current) && comma >= 0
    ensures W.Split(s[current..], ',') == [s[current..comma]] + W.Split(s[comma + 1..], ',')
  {
    assert ',' !in s[current..comma] by {
      forall i | 0 <= i < comma - current
        ensures s[current..comma][i] != ','
      {
        assert s[current..comma][i] == s[current + i];
      }
    }
    SplitAtComma(s, current, comma);
  }

  /** The same cut, stated on positions of the whole text. */
  lemma SplitAtComma(s: string, current: int, comma: int)
    requires 0 <= current <= comma < |s| && s[comma] == ',' && ',' !in s[current..comma]
    ensures W.Split(s[current..], ',') == [s[current..comma]] + W.Split(s[comma + 1..], ',')
  {
    var t := s[current..];
    var k := comma - current;
    assert t[..k] == s[current..comma];
    SplitAtFirstComma(t, k);
    assert t[k + 1..] == s[comma + 1..];
  }

  /**
   * On a list without apostrophes the loop as written and the intended
   * split agree, and both are string.Split at every comma.
   */
  lemma SplittersAgreeWithoutQuotes(s: string)
    requires '\'' !in s
    ensures AddressesFromAsWritten(s, 0) == Ok(W.Split(s, ','))
    ensures Addresses(s) == W.Split(s, ',')
  {
    assert AddressesFromAsWritten(s, 0) == Ok(W.Split(s, ',')) by {
      AsWrittenQuoteFree(s, 0);
      assert s[0..] == s;
    }
    var parts := W.Split(s, ',');
    assert SplitQuoted(s, "") == parts by {
      assert Quotes("") == 0;
      SplitQuotedQuoteFree(s, "");
      assert "" + parts[0] == parts[0] && [parts[0]] + parts[1..] == parts;
    }
    assert Unescaped(parts) == parts by {
      forall i | 0 <= i < |parts|
        ensures Unescape(parts[i]) == parts[i]
      {
        if '\'' in parts[i] {
          JoinKeepsChars(parts, i, '\'');
          assert false;
        }
      }
    }
  }

  /** A character of one of the pieces is a character of their join. */
  lemma {:induction false} JoinKeepsChars(parts: seq<string>, i: int, c: char)
    requires 0 <= i < |parts| && c in parts[i]
    ensures c in W.Join(parts, ',')
    decreases |parts|
  {
    if |parts| > 1 {
      var j := W.Join(parts, ',');
      assert j == parts[0] + [','] + W.Join(parts[1..], ',');
      if i == 0 {
        var k :| 0 <= k < |parts[0]| && parts[0][k] == c;
        assert j[k] == c;
      } else {
        JoinKeepsChars(parts[1..], i - 1, c);
        var rest := W.Join(parts[1..], ',');
        var k :| 0 <= k < |rest| && rest[k] == c;
        assert j[|parts[0]| + 1 + k] == c;
      }
    }
  }

  /**
   * The apostrophe search of the loop as written starts at the current
   * position rather than stopping at the next comma, so a quoted sheet
   * name in the second address swallows the comma before it: two
   * addresses come back as one.
   */
  lemma QuotedSecondAddressAsWritten()
    ensures AddressesFromAsWritten("A!A1,'B'!B2", 0) == Ok(["A!A1,'B'!B2"])
  {
    var s := "A!A1,'B'!B2";
    assert IndexFrom(s, ',', 0) == 4;
    assert IndexFrom(s, '\'', 0) == 5;
    assert IndexFrom(s, '\'', 6) == 7;
    assert ClosingQuote(s, 7, false) == Ok(7);
    assert IndexFrom(s, ',', 7) == -1;
    assert NextComma(s, 0) == Ok(None);
    UnescapeWithoutPairs(s);
  }

  /** The intended split of the same list gives both addresses. */
  lemma QuotedSecondAddress()
    ensures Addresses("A!A1,'B'!B2") == ["A!A1", "'B'!B2"]
  {
    var a, b := "A!A1", "'B'!B2";
    assert Quotes(a) == 0 by {
      QuotesOfQuoteFree(a);
    }
    QuotesOfB();
    TwoAddresses(a, b);
    assert a + [','] + b == "A!A1,'B'!B2";
  }

  /** Two addresses, neither with an open quote nor an unquoted comma, come back apart. */
  lemma TwoAddresses(a: string, b: string)
    requires CommasQuoted(a) && !InQuotes(a) && CommasQuoted(b) && !InQuotes(b)
    requires forall i :: 0 <= i < |a| - 1 ==> !(a[i] == '\'' && a[i + 1] == '\'')
    requires forall i :: 0 <= i < |b| - 1 ==> !(b[i] == '\'' && b[i + 1] == '\'')
    ensures Addresses(a + [','] + b) == [a, b]
  {
    assert W.Join([a, b], ',') == a + [','] + b by {
      assert [a, b][1..] == [b];
    }
    SplitQuotedJoined([a, b]);
    UnescapeWithoutPairs(a);
    UnescapeWithoutPairs(b);
  }

  lemma QuotesOfB()
    ensures Quotes("'B'!B2") == 2
  {
    var p1 := [] + ['\''];
    var p2 := p1 + ['B'];
    var p3 := p2 + ['\''];
    var p4 := p3 + ['!'];
    var p5 := p4 + ['B'];
    var p6 := p5 + ['2'];
    QuotesSnoc([], '\'');
    QuotesSnoc(p1, 'B');
    QuotesSnoc(p2, '\'');
    QuotesSnoc(p3, '!');
    QuotesSnoc(p4, 'B');
    QuotesSnoc(p5, '2');
    assert p6 == "'B'!B2";
  }

  // ---------------------------------------------------------------------
  // Sheet name and local addresses
  // ---------------------------------------------------------------------

  /** The local address: the text after the last '!', the whole address when it has none. */
  function LocalPart(address: string): (r: string)
    ensures '!' !in r
    ensures |r| <= |address| && address[|address| - |r|..] == r
  {
    var sep := LastIndex(address, '!');
    var r := address[sep + 1..];
    assert '!' !in r by {
      forall i | 0 <= i < |r|
        ensures r[i] != '!'
      {
        assert r[i] == address[sep + 1 + i];
      }
    }
    r
  }

  /** Quotes around a text: it starts and ends with an apostrophe (one apostrophe alone does too). */
  predicate Quoted(name: string)
  {
    |name| > 0 && name[0] == '\'' && name[|name| - 1] == '\''
  }

  /**
   * The sheet name of an address: the text before its last '!', without
   * the apostrophes around it. An address without '!' is out of range,
   * and so is one whose name is a single apostrophe.
   */
  function SheetPart(address: string): (r: Result<string>)
    ensures r.Err? ==> r.error == ArgumentOutOfRange
    ensures r.Err? <==> ('!' !in address || address[..LastIndex(address, '!')] == "'")
  {
    var sep := LastIndex(address, '!');
    if sep < 0 then
      Err(ArgumentOutOfRange)
    else
      var name := address[..sep];
      if Quoted(name) then
        if |name| < 2 then Err(ArgumentOutOfRange) else Ok(name[1..|name| - 1])
      else
        Ok(name)
  }

  /**
   * GetLocalAddresses from the address at hand on, with the sheet name
   * found so far: the first address that gives a non-empty sheet name
   * names the sheet, and every address contributes its local part.
   */
  function LocalAddressesFrom(addresses: seq<string>, name: string): (r: Result<(string, seq<string>)>)
    ensures r.Err? ==> r.error == ArgumentOutOfRange
    ensures r.Ok? ==> |r.value.1| == |addresses|
    ensures r.Ok? ==> forall i :: 0 <= i < |addresses| ==> r.value.1[i] == LocalPart(addresses[i])
    decreases |addresses|
  {
    if addresses == [] then Ok((name, []))
    else
      var named := if name == "" then SheetPart(addresses[0]) else Ok(name);
      if named.Err? then Err(named.error)
      else
        var rest := LocalAddressesFrom(addresses[1..], named.value);
        if rest.Err? then rest
        else Ok((rest.value.0, [LocalPart(addresses[0])] + rest.value.1))
  }

  /** GetLocalAddresses: the sheet name and the local addresses of a list of addresses. */
  function LocalAddresses(addresses: seq<string>): (r: Result<(string, seq<string>)>)
  {
    LocalAddressesFrom(addresses, "")
  }

  /** The local parts, one per address. */
  function LocalParts(addresses: seq<string>): (r: seq<string>)
    ensures |r| == |addresses| && forall i :: 0 <= i < |r| ==> r[i] == LocalPart(addresses[i])
  {
    seq(|addresses|, i requires 0 <= i < |addresses| => LocalPart(addresses[i]))
  }

  /** Once a sheet name is known nothing can fail: the name stays and every address gives its local part. */
  lemma {:induction false} NamedLocalAddresses(addresses: seq<string>, name: string)
    requires name != ""
    ensures LocalAddressesFrom(addresses, name) == Ok((name, LocalParts(addresses)))
    decreases |addresses|
  {
    if addresses != [] {
      NamedLocalAddresses(addresses[1..], name);
      assert LocalParts(addresses) == [LocalPart(addresses[0])] + LocalParts(addresses[1..]);
    }
  }

  /** The sheet name comes from the first address when that one names a sheet. */
  lemma FirstAddressNamesSheet(addresses: seq<string>, name: string)
    requires |addresses| >= 1 && SheetPart(addresses[0]) == Ok(name) && name != ""
    ensures LocalAddresses(addresses) == Ok((name, LocalParts(addresses)))
  {
    NamedLocalAddresses(addresses[1..], name);
    assert LocalParts(addresses) == [LocalPart(addresses[0])] + LocalParts(addresses[1..]);
  }

  /** An address without '!' before any sheet is named is out of range. */
  lemma FirstAddressUnnamed(addresses: seq<string>)
    requires |addresses| >= 1 && '!' !in addresses[0]
    ensures LocalAddresses(addresses) == Err(ArgumentOutOfRange)
  {
  }

  /**
   * GetLocalAddresses as the loop over the addresses; the Substring calls
   * that the source lets fail end it with ArgumentOutOfRange.
   */
  method GetLocalAddresses(addresses: seq<string>) returns (r: Result<(string, seq<string>)>)
    ensures r == LocalAddresses(addresses)
  {
    ghost var total := LocalAddresses(addresses);
    var worksheetName := "";
    var localAddresses: seq<string> := [];
    var i := 0;
    assert total == Prefixed([], LocalAddressesFrom(addresses[i..], worksheetName)) by {
      assert addresses[i..] == addresses;
      if total.Ok? {
        assert [] + total.value.1 == total.value.1;
      }
    }
    while i < |addresses|
      invariant 0 <= i <= |addresses|
      invariant total == Prefixed(localAddresses, LocalAddressesFrom(addresses[i..], worksheetName))
    {
      var address := addresses[i];
      var separatorPosition := LastIndex(address, '!');
      ghost var found, previous, name := localAddresses, i, worksheetName;
      if worksheetName == "" {
        var named := SheetPart(address);
        if named.Err? {
          assert total == Err(named.error) by {
            LocalAddressesStep(addresses, i, worksheetName);
          }
          return Err(named.error);
        }
        worksheetName := named.value;
      }
      localAddresses := localAddresses + [address[separatorPosition + 1..]];
      i := i + 1;
      assert total == Prefixed(localAddresses, LocalAddressesFrom(addresses[i..], worksheetName)) by {
        LocalAddressesStep(addresses, previous, name);
        PrefixedTwice(found, LocalPart(address), LocalAddressesFrom(addresses[i..], worksheetName));
      }
    }
    assert total == Ok((worksheetName, localAddresses)) by {
      assert addresses[i..] == [];
      assert localAddresses + [] == localAddresses;
    }
    r := Ok((worksheetName, localAddresses));
  }

  /** Local addresses found so far, in front of what the rest of the list yields. */
  function Prefixed(found: seq<string>, rest: Result<(string, seq<string>)>): Result<(string, seq<string>)>
  {
    match rest
    case Err(e) => Err(e)
    case Ok((name, more)) => Ok((name, found + more))
  }

  lemma PrefixedTwice(found: seq<string>, local: string, rest: Result<(string, seq<string>)>)
    ensures Prefixed(found, Prefixed([local], rest)) == Prefixed(found + [local], rest)
  {
    if rest.Ok? {
      assert found + ([local] + rest.value.1) == (found + [local]) + rest.value.1;
    }
  }

  /** One round of the loop over the addresses. */
  lemma LocalAddressesStep(addresses: seq<string>, i: int, name: string)
    requires 0 <= i < |addresses|
    ensures var named := if name == "" then SheetPart(addresses[i]) else Ok(name);
      LocalAddressesFrom(addresses[i..], name)
        == (if named.Err? then Err(named.error)
            else Prefixed([LocalPart(addresses[i])], LocalAddressesFrom(addresses[i + 1..], named.value)))
  {
    assert addresses[i..][0] == addresses[i] && addresses[i..][1..] == addresses[i + 1..];
  }

  // ---------------------------------------------------------------------
  // Parsing what GetAddressString writes
  // ---------------------------------------------------------------------

  /** The last c sits at k when k holds c and nothing after it does. */
  lemma LastIndexAt(s: string, k: int, c: char)
    requires 0 <= k < |s| && s[k] == c
    requires forall i :: k < i < |s| ==> s[i] != c
    ensures LastIndex(s, c) == k
  {
  }

  /** The local part of a qualified address is the local address it was built from. */
  lemma LocalPartOfRangeAddress(escapedName: string, local: string)
    requires '!' !in local
    ensures LocalPart(Ranges.RangeAddress(escapedName, local)) == local
  {
    var a := Ranges.RangeAddress(escapedName, local);
    assert forall i :: |escapedName| < i < |a| ==> a[i] == local[i - |escapedName| - 1];
    LastIndexAt(a, |escapedName|, '!');
  }

  /** The sheet name of an address whose sheet is quoted is the text between the quotes. */
  lemma SheetPartOfRangeAddress(name: string, local: string)
    requires '!' !in local
    ensures SheetPart(Ranges.RangeAddress("'" + name + "'", local)) == Ok(name)
  {
    var quoted := "'" + name + "'";
    var a := Ranges.RangeAddress(quoted, local);
    assert forall i :: |quoted| < i < |a| ==> a[i] == local[i - |quoted| - 1];
    LastIndexAt(a, |quoted|, '!');
    assert a[..|quoted|] == quoted && quoted[1..|quoted| - 1] == name;
  }

  /** In a text whose apostrophes come in pairs, an even number of them precede every other character and the end. */
  lemma {:induction false} PairedQuotesEven(p: string, j: int)
    requires W.PairedApostrophes(p) && 0 <= j <= |p| && (j == |p| || p[j] != '\'')
    ensures Quotes(p[..j]) % 2 == 0
    decreases |p|
  {
    if j > 0 {
      if p[0] == '\'' {
        assert j >= 2 && W.PairedApostrophes(p[2..]);
        PairedQuotesEven(p[2..], j - 2);
        assert p[..j] == "''" + p[2..][..j - 2];
        QuotesAppend("''", p[2..][..j - 2]);
        QuotesOfPair();
      } else {
        assert W.PairedApostrophes(p[1..]);
        PairedQuotesEven(p[1..], j - 1);
        assert p[..j] == [p[0]] + p[1..][..j - 1];
        QuotesAppend([p[0]], p[1..][..j - 1]);
        QuotesOfChar(p[0]);
      }
    }
  }

  /** Text a local address may hold: no '!', no comma and no apostrophe. */
  predicate PlainLocal(local: string)
  {
    '!' !in local && ',' !in local && '\'' !in local
  }

  /** A single apostrophe counts one, any other character none. */
  lemma QuotesOfChar(c: char)
    ensures Quotes([c]) == if c == '\'' then 1 else 0
  {
    QuotesSnoc([], c);
    assert [] + [c] == [c];
  }

  lemma QuotesOfPair()
    ensures Quotes("''") == 2
  {
    QuotesSnoc("'", '\'');
    QuotesOfChar('\'');
    assert "'" + "'" == "''";
  }

  /** The commas after an opening apostrophe and inside a text whose apostrophes come in pairs are quoted. */
  lemma CommasAfterQuote(d: string, tail: string)
    requires W.PairedApostrophes(d) && ',' !in tail
    ensures CommasQuoted(['\''] + (d + tail))
  {
    var a := ['\''] + (d + tail);
    forall i | 0 <= i < |a| && a[i] == ','
      ensures InQuotes(a[..i])
    {
      assert 1 <= i <= |d|;
      assert d[i - 1] == ',';
      var u := d[..i - 1];
      assert a[..i] == ['\''] + u;
      assert Quotes(u) % 2 == 0 by {
        PairedQuotesEven(d, i - 1);
      }
      QuotesAppend(['\''], u);
      QuotesOfChar('\'');
    }
  }

  /** A qualified address keeps its commas inside the quoted sheet name and closes its quotes. */
  lemma QualifiedQuotesClosed(name: string, local: string)
    requires PlainLocal(local)
    ensures var a := Ranges.RangeAddress(W.EscapedName(name), local);
      CommasQuoted(a) && !InQuotes(a)
  {
    EscapedAddressShape(name, local);
    EscapedQuotesClosed(name, local);
  }

  lemma EscapedQuotesClosed(name: string, local: string)
    requires PlainLocal(local)
    ensures var a := ['\''] + (W.DoubleApostrophes(name) + ("'!" + local));
      CommasQuoted(a) && !InQuotes(a)
  {
    var d := W.DoubleApostrophes(name);
    var tail := "'!" + local;
    assert ',' !in tail by {
      assert forall i :: 2 <= i < |tail| ==> tail[i] == local[i - 2];
    }
    CommasAfterQuote(d, tail);
    assert Quotes(d) % 2 == 0 by {
      PairedQuotesEven(d, |d|);
      assert d[..|d|] == d;
    }
    assert Quotes(d + tail) == Quotes(d) + 1 by {
      QuotesOfTail(local);
      QuotesAppend(d, tail);
    }
    assert !InQuotes(['\''] + (d + tail)) by {
      assert Quotes(['\''] + (d + tail)) == 1 + Quotes(d + tail) by {
        QuotesAppend(['\''], d + tail);
        QuotesOfChar('\'');
      }
    }
  }

  lemma QuotesOfTail(local: string)
    requires '\'' !in local
    ensures Quotes("'!" + local) == 1
  {
    QuotesAppend("'!", local);
    QuotesOfQuoteFree(local);
    QuotesSnoc("'", '!');
    QuotesOfChar('\'');
    assert "'" + ['!'] == "'!";
  }

  /** Unescape leaves a character in front that does not open a pair of apostrophes. */
  lemma UnescapeCons(c: char, x: string)
    requires !(c == '\'' && |x| > 0 && x[0] == '\'')
    ensures Unescape([c] + x) == [c] + Unescape(x)
  {
    assert ([c] + x)[1..] == x;
  }

  /** A qualified address with an escaped sheet name, grouped as opening quote, escaped name, and the rest. */
  lemma EscapedAddressShape(name: string, local: string)
    ensures Ranges.RangeAddress(W.EscapedName(name), local) == ['\''] + (W.DoubleApostrophes(name) + ("'!" + local))
  {
  }

  /** A qualified address with a quoted sheet name, grouped the same way. */
  lemma QuotedAddressShape(name: string, local: string)
    ensures ['\''] + (name + ("'!" + local)) == Ranges.RangeAddress("'" + name + "'", local)
  {
  }

  /** Unescaping a qualified address whose sheet name does not start with an apostrophe gives the name back between quotes. */
  lemma UnescapeQualified(name: string, local: string)
    requires name != "" && name[0] != '\''
    requires '\'' !in local
    ensures Unescape(Ranges.RangeAddress(W.EscapedName(name), local)) == Ranges.RangeAddress("'" + name + "'", local)
  {
    var tail := "'!" + local;
    EscapedAddressShape(name, local);
    OpeningQuoteKept(name, tail);
    DoubledNameThenTail(name, local);
    QuotedAddressShape(name, local);
  }

  /** The apostrophe opening an escaped name is not the first of a pair when the name does not start with one. */
  lemma OpeningQuoteKept(name: string, tail: string)
    requires name != "" && name[0] != '\''
    ensures Unescape(['\''] + (W.DoubleApostrophes(name) + tail)) == ['\''] + Unescape(W.DoubleApostrophes(name) + tail)
  {
    var d := W.DoubleApostrophes(name);
    assert d[0] == name[0] by {
      assert d == [name[0]] + W.DoubleApostrophes(name[1..]);
    }
    UnescapeCons('\'', d + tail);
  }

  /** Unescaping the doubled name and the text after it gives the name back. */
  lemma DoubledNameThenTail(name: string, local: string)
    requires '\'' !in local
    ensures Unescape(W.DoubleApostrophes(name) + ("'!" + local)) == name + ("'!" + local)
  {
    var tail := "'!" + local;
    UnescapeDoubledPrefix(name, tail);
    assert forall i :: 2 <= i < |tail| ==> tail[i] == local[i - 2];
    UnescapeWithoutPairs(tail);
  }

  /**
   * What GetAddressString writes for a sheet reads back as the same sheet
   * name and the same local addresses, provided the name does not start
   * with an apostrophe (a legal sheet name never does) and the local
   * addresses hold no '!', comma or apostrophe.
   */
  lemma AddressStringRoundTrip(name: string, locals: seq<string>)
    requires name != "" && name[0] != '\''
    requires |locals| >= 1 && forall i :: 0 <= i < |locals| ==> PlainLocal(locals[i])
    ensures Addresses(W.Join(W.Qualified(W.EscapedName(name), locals), ',')) == Unescaped(W.Qualified(W.EscapedName(name), locals))
    ensures LocalAddresses(Addresses(W.Join(W.Qualified(W.EscapedName(name), locals), ','))) == Ok((name, locals))
  {
    var q := W.Qualified(W.EscapedName(name), locals);
    var quoted := "'" + name + "'";
    var u := Unescaped(q);
    assert Addresses(W.Join(q, ',')) == u by {
      forall i | 0 <= i < |q|
        ensures CommasQuoted(q[i]) && !InQuotes(q[i])
      {
        QualifiedQuotesClosed(name, locals[i]);
      }
      SplitQuotedJoined(q);
    }
    forall i | 0 <= i < |u|
      ensures u[i] == Ranges.RangeAddress(quoted, locals[i]) && LocalPart(u[i]) == locals[i]
    {
      UnescapeQualified(name, locals[i]);
      LocalPartOfRangeAddress(quoted, locals[i]);
    }
    SheetPartOfRangeAddress(name, locals[0]);
    FirstAddressNamesSheet(u, name);
    assert LocalParts(u) == locals;
  }

  /** The first apostrophe of a text whose apostrophes come in pairs is doubled, and pairs follow the two. */
  lemma {:induction false} PairedFirstQuote(p: string, k: int)
    requires W.PairedApostrophes(p) && 0 <= k < |p| && p[k] == '\''
    requires forall i :: 0 <= i < k ==> p[i] != '\''
    ensures k + 1 < |p| && p[k + 1] == '\'' && W.PairedApostrophes(p[k + 2..])
  {
    if k > 0 {
      assert W.PairedApostrophes(p[1..]);
      PairedFirstQuote(p[1..], k - 1);
      assert p[1..][k + 1..] == p[k + 2..];
    }
  }

  /**
   * The search for the closing apostrophe, started inside a quoted name
   * whose own apostrophes are doubled, stops at the quote that closes it.
   */
  lemma {:induction false} ClosingOverPairs(s: string, j: int, e: int, close: int, restarted: bool)
    requires 0 <= j <= close < |s| - 1 && e == IndexFrom(s, '\'', j)
    requires W.PairedApostrophes(s[j..close]) && s[close] == '\'' && s[close + 1] != '\''
    ensures ClosingQuote(s, e, restarted) == Ok(close)
    decreases close - j
  {
    assert j <= e <= close;
    if e == close {
      ClosingQuoteStops(s, close, restarted);
    } else {
      DoubledBeforeClose(s, j, close, e);
      ClosingOverPairs(s, e + 2, IndexFrom(s, '\'', e + 2), close, restarted);
      ClosingQuoteSkipsPair(s, e, close, restarted);
    }
  }

  /** Inside a quoted name whose apostrophes are doubled, an apostrophe before the closing one is the first of a pair. */
  lemma DoubledBeforeClose(s: string, j: int, close: int, e: int)
    requires 0 <= j <= e < close < |s| && W.PairedApostrophes(s[j..close])
    requires s[e] == '\'' && forall i :: j <= i < e ==> s[i] != '\''
    ensures e + 2 <= close && s[e + 1] == '\'' && W.PairedApostrophes(s[e + 2..close])
  {
    var p := s[j..close];
    assert forall i :: 0 <= i < e - j ==> p[i] != '\'' by {
      forall i | 0 <= i < e - j
        ensures p[i] != '\''
      {
        assert p[i] == s[j + i];
      }
    }
    PairedFirstQuote(p, e - j);
    assert s[e + 1] == p[e - j + 1];
    assert p[e - j + 2..] == s[e + 2..close];
  }

  /** An apostrophe not followed by another one closes the quoted name. */
  lemma ClosingQuoteStops(s: string, close: int, restarted: bool)
    requires 0 <= close < |s| - 1 && s[close + 1] != '\''
    ensures ClosingQuote(s, close, restarted) == Ok(close)
  {
  }

  /** A doubled apostrophe is skipped: the search goes on from the next apostrophe. */
  lemma ClosingQuoteSkipsPair(s: string, e: int, close: int, restarted: bool)
    requires 0 <= e && e + 2 <= close < |s| && s[e + 1] == '\'' && s[close] == '\''
    ensures ClosingQuote(s, e, restarted) == ClosingQuote(s, IndexFrom(s, '\'', e + 2), restarted)
  {
    assert IndexFrom(s, '\'', e + 2) >= 0;
  }

  /** With no c from start up to end, the search for c finds the one at end, or none when end is the end of the text. */
  lemma {:induction false} IndexAfterGap(s: string, c: char, start: int, end: int)
    requires 0 <= start <= end <= |s| && forall i :: start <= i < end ==> s[i] != c
    requires end < |s| ==> s[end] == c
    ensures IndexFrom(s, c, start) == if end < |s| then end else -1
    decreases end - start
  {
    if start < end {
      IndexAfterGap(s, c, start + 1, end);
    }
  }

  /** A list of qualified addresses is its first address, then a comma and the others. */
  lemma JoinQualifiedCons(escapedName: string, locals: seq<string>)
    requires |locals| >= 1
    ensures W.Qualified(escapedName, locals)[1..] == W.Qualified(escapedName, locals[1..])
    ensures |locals| == 1 ==> W.Join(W.Qualified(escapedName, locals), ',') == Ranges.RangeAddress(escapedName, locals[0])
    ensures |locals| > 1 ==>
      W.Join(W.Qualified(escapedName, locals), ',') == Ranges.RangeAddress(escapedName, locals[0]) + [','] + W.Join(W.Qualified(escapedName, locals[1..]), ',')
  {
    var q := W.Qualified(escapedName, locals);
    assert q[1..] == W.Qualified(escapedName, locals[1..]);
  }

  /**
   * The comma the loop as written finds after an address that starts with
   * a quoted name whose apostrophes are doubled: the one that ends the
   * address, or none when the address runs to the end.
   */
  lemma QuotedAddressNextComma(s: string, current: int, d: string, local: string, end: int)
    requires 0 <= current < end <= |s| && W.PairedApostrophes(d) && PlainLocal(local)
    requires s[current..end] == ['\''] + (d + ("'!" + local))
    requires end < |s| ==> s[end] == ','
    ensures NextComma(s, current) == if end == |s| then Ok(None) else Ok(Some(end))
  {
    var close := current + 1 + |d|;
    QuotedAddressLayout(s, current, d, local, end);
    assert forall i :: close <= i < end ==> s[i] != ',' by {
      forall i | close + 2 <= i < end
        ensures s[i] != ','
      {
        assert s[i] == s[close + 2..end][i - close - 2];
      }
    }
    NextCommaAfterQuote(s, current, close, end);
  }

  /** Where the parts of a quoted address sit in the whole text. */
  lemma QuotedAddressLayout(s: string, current: int, d: string, local: string, end: int)
    requires 0 <= current < end <= |s|
    requires s[current..end] == ['\''] + (d + ("'!" + local))
    ensures current + 1 + |d| + 2 + |local| == end
    ensures s[current] == '\'' && s[current + 1..current + 1 + |d|] == d
    ensures s[current + 1 + |d|] == '\'' && s[current + 2 + |d|] == '!'
    ensures s[current + 3 + |d|..end] == local
  {
    var x := s[current..end];
    var close := current + 1 + |d|;
    assert s[current] == x[0];
    assert s[current + 1..close] == d by {
      forall i | 0 <= i < |d|
        ensures s[current + 1..close][i] == d[i]
      {
        assert s[current + 1 + i] == x[1 + i];
      }
    }
    assert s[close] == x[1 + |d|] && s[close + 1] == x[2 + |d|];
    assert s[close + 2..end] == local by {
      forall i | 0 <= i < |local|
        ensures s[close + 2..end][i] == local[i]
      {
        assert s[close + 2 + i] == x[3 + |d| + i];
      }
    }
  }

  /**
   * The comma the loop as written finds after a quoted name whose
   * apostrophes are doubled and which is followed by no comma up to end.
   */
  lemma NextCommaAfterQuote(s: string, current: int, close: int, end: int)
    requires 0 <= current < close && close + 1 < end <= |s|
    requires s[current] == '\'' && W.PairedApostrophes(s[current + 1..close])
    requires s[close] == '\'' && s[close + 1] != '\'' && forall i :: close <= i < end ==> s[i] != ','
    requires end < |s| ==> s[end] == ','
    ensures NextComma(s, current) == if end == |s| then Ok(None) else Ok(Some(end))
  {
    var after := IndexFrom(s, ',', close);
    IndexAfterGap(s, ',', close, end);
    var commaIndex := IndexFrom(s, ',', current);
    if commaIndex >= 0 {
      assert IndexFrom(s, '\'', current) == current;
      ClosingOverPairs(s, current + 1, IndexFrom(s, '\'', current + 1), close, false);
      assert AddressEnd(s, current, commaIndex) == Ok(after);
    }
  }

  /**
   * The loop as written cuts a list of addresses all qualified by the same
   * escaped sheet name where the intended split does: at the comma after
   * each address.
   */
  lemma {:induction false} AsWrittenQualified(s: string, current: int, name: string, locals: seq<string>)
    requires 0 <= current <= |s| && |locals| >= 1
    requires forall i :: 0 <= i < |locals| ==> PlainLocal(locals[i])
    requires s[current..] == W.Join(W.Qualified(W.EscapedName(name), locals), ',')
    ensures AddressesFromAsWritten(s, current) == Ok(Unescaped(W.Qualified(W.EscapedName(name), locals)))
    decreases |locals|, 1
  {
    var q := W.Qualified(W.EscapedName(name), locals);
    var a := q[0];
    var end := current + |a|;
    var tail := W.Join(W.Qualified(W.EscapedName(name), locals[1..]), ',');
    JoinQualifiedCons(W.EscapedName(name), locals);
    EscapedAddressShape(name, locals[0]);
    assert |locals| > 1 ==> s[current..] == a + [','] + tail;
    assert end <= |s| && s[current..end] == a by {
      assert s[current..][..|a|] == a;
    }
    assert |locals| == 1 <==> end == |s|;
    assert |locals| > 1 ==> s[end] == ',' && s[end + 1..] == tail by {
      if |locals| > 1 {
        assert s[current..][|a|] == ',';
        assert s[current..][|a| + 1..] == tail;
      }
    }
    QuotedAddressNextComma(s, current, W.DoubleApostrophes(name), locals[0], end);
    if |locals| == 1 {
      AddressesFromLast(s, current);
      assert s[current..] == a;
      assert Unescaped(q) == [Unescape(a)];
    } else {
      AsWrittenQualifiedStep(s, current, end, name, locals);
    }
  }

  /** A round of AsWrittenQualified that finds a comma: the first address, then the others. */
  lemma {:induction false} AsWrittenQualifiedStep(s: string, current: int, end: int, name: string, locals: seq<string>)
    requires 0 <= current < end < |s| && |locals| > 1
    requires forall i :: 0 <= i < |locals| ==> PlainLocal(locals[i])
    requires NextComma(s, current) == Ok(Some(end))
    requires s[current..end] == Ranges.RangeAddress(W.EscapedName(name), locals[0])
    requires s[end + 1..] == W.Join(W.Qualified(W.EscapedName(name), locals[1..]), ',')
    ensures AddressesFromAsWritten(s, current) == Ok(Unescaped(W.Qualified(W.EscapedName(name), locals)))
    decreases |locals|, 0
  {
    var rest := locals[1..];
    assert forall i :: 0 <= i < |rest| ==> PlainLocal(rest[i]) by {
      forall i | 0 <= i < |rest|
        ensures PlainLocal(rest[i])
      {
        assert rest[i] == locals[i + 1];
      }
    }
    var escapedName := W.EscapedName(name);
    var next := end + 1;
    AsWrittenQualified(s, next, name, rest);
    AddressesFromNext(s, current, end, next);
    UnescapedQualifiedCons(escapedName, locals);
    PrependFirst(AddressesFromAsWritten(s, current), Unescape(s[current..end]), AddressesFromAsWritten(s, next),
                 Unescaped(W.Qualified(escapedName, rest)), Unescaped(W.Qualified(escapedName, locals)));
  }

  /** AddressesFromStep, with the position after the comma named. */
  lemma AddressesFromNext(s: string, current: int, end: int, next: int)
    requires 0 <= current <= |s| && NextComma(s, current) == Ok(Some(end)) && next == end + 1
    ensures 0 <= next <= |s|
    ensures AddressesFromAsWritten(s, current) == Prepend([Unescape(s[current..end])], AddressesFromAsWritten(s, next))
  {
    AddressesFromStep(s, current, end);
  }

  /** An address in front of the addresses that follow it. */
  lemma PrependFirst(all: Result<seq<string>>, first: string, more: Result<seq<string>>, rest: seq<string>, whole: seq<string>)
    requires all == Prepend([first], more) && more == Ok(rest) && whole == [first] + rest
    ensures all == Ok(whole)
  {
  }

  /** Unescaping a list of qualified addresses: the first address unescaped, then the others. */
  lemma UnescapedQualifiedCons(escapedName: string, locals: seq<string>)
    requires |locals| >= 1
    ensures Unescaped(W.Qualified(escapedName, locals)) ==
            [Unescape(Ranges.RangeAddress(escapedName, locals[0]))] + Unescaped(W.Qualified(escapedName, locals[1..]))
  {
    var a := Unescaped(W.Qualified(escapedName, locals));
    var b := [Unescape(Ranges.RangeAddress(escapedName, locals[0]))] + Unescaped(W.Qualified(escapedName, locals[1..]));
    assert |a| == |b|;
    forall i | 1 <= i < |a|
      ensures a[i] == b[i]
    {
      assert locals[1..][i - 1] == locals[i];
    }
  }

  /**
   * What SetAddresses reads from an address string: the addresses as the
   * loop cuts them, then the sheet name and the local parts.
   */
  function ParsedAddresses(addressString: string): Result<(string, seq<string>)>
  {
    match AddressesFromAsWritten(addressString, 0)
    case Err(e) => Err(e)
    case Ok(addresses) => LocalAddresses(addresses)
  }

  /**
   * The reading as written takes back what GetAddressString writes: the
   * same sheet name and the same local addresses, under the conditions of
   * AddressStringRoundTrip.
   */
  lemma AsWrittenAddressStringRoundTrip(name: string, locals: seq<string>)
    requires name != "" && name[0] != '\''
    requires |locals| >= 1 && forall i :: 0 <= i < |locals| ==> PlainLocal(locals[i])
    ensures ParsedAddresses(W.Join(W.Qualified(W.EscapedName(name), locals), ',')) == Ok((name, locals))
  {
    var s := W.Join(W.Qualified(W.EscapedName(name), locals), ',');
    assert s[0..] == s;
    AsWrittenQualified(s, 0, name, locals);
    AddressStringRoundTrip(name, locals);
  }

  /** On a list without apostrophes the reading is string.Split at every comma, then the local parts. */
  lemma ParsedWithoutQuotes(addressString: string)
    requires '\'' !in addressString
    ensures ParsedAddresses(addressString) == LocalAddresses(W.Split(addressString, ','))
  {
    SplittersAgreeWithoutQuotes(addressString);
  }

  // ---------------------------------------------------------------------
  // The defined name
  // ---------------------------------------------------------------------

  /** DefinedNameScope: a name belongs to the whole workbook or to one worksheet. */
  datatype Scope = WorkbookScope | WorksheetScope

  /**
   * The sheet a parsed name resolves to: when some sheet has that name,
   * ignoring case, the first such sheet in index order; otherwise none.
   */
  ghost predicate Resolved(sheets: map<int, WC.Sheet>, name: string, worksheet: Option<WC.Sheet>)
  {
    if WC.NameTaken(sheets, name) then
      worksheet.Some? && worksheet.value.index in sheets && sheets[worksheet.value.index] == worksheet.value &&
      EqualsIgnoreCase(name, worksheet.value.name) &&
      forall k :: k in sheets && k < worksheet.value.index ==> !EqualsIgnoreCase(name, sheets[k].name)
    else
      worksheet.None?
  }

  /**
   * GetAddressString: the local addresses joined with commas, or each one
   * behind the escaped name of the sheet and '!'; without a sheet there
   * is nothing to take the name from.
   */
  function AddressString(addresses: seq<string>, worksheet: Option<WC.Sheet>, useLocal: bool): (r: Result<string>)
  {
    if useLocal then Ok(W.Join(addresses, ','))
    else if addresses == [] then Ok("")
    else if worksheet.None? then Err(NullReference)
    else Ok(W.Join(W.Qualified(W.EscapedName(worksheet.value.name), addresses), ','))
  }

  /**
   * The full address string of a name on a sheet with a legal name reads
   * back as the same sheet name and local addresses.
   */
  lemma FullAddressStringReadsBack(sheet: WC.Sheet, addresses: seq<string>)
    requires sheet.name != "" && sheet.name[0] != '\''
    requires |addresses| >= 1 && forall i :: 0 <= i < |addresses| ==> PlainLocal(addresses[i])
    ensures AddressString(addresses, Some(sheet), false).Ok?
    ensures ParsedAddresses(AddressString(addresses, Some(sheet), false).value) == Ok((sheet.name, addresses))
  {
    AsWrittenAddressStringRoundTrip(sheet.name, addresses);
  }

  class DefinedName {
    const book: WC.WorksheetCollection
    const nameId: int
    const name: string
    const scope: Scope
    var addresses: seq<string>
    var worksheet: Option<WC.Sheet>

    /** The bare name: no addresses and no sheet until SetAddresses. */
    constructor Empty(book: WC.WorksheetCollection, nameId: int, name: string, scope: Scope)
      ensures this.book == book && this.nameId == nameId && this.name == name && this.scope == scope
      ensures addresses == [] && worksheet == None
    {
      this.book := book;
      this.nameId := nameId;
      this.name := name;
      this.scope := scope;
      addresses := [];
      worksheet := None;
    }

    /** IEquatable: the same name ignoring case, and the same scope; the id and the addresses do not count. */
    predicate Equals(other: DefinedName)
    {
      EqualsIgnoreCase(other.name, name) && other.scope == scope
    }

    /**
     * SetAddresses: split the address string, take the sheet name and the
     * local addresses apart, and look the sheet up by name. A failure
     * leaves the name as it was.
     */
    method SetAddresses(addressString: string) returns (r: Result<()>)
      requires book.Valid()
      modifies this
      ensures var parsed := ParsedAddresses(addressString);
        if parsed.Err? then r == Err(parsed.error) && unchanged(this)
        else r == Ok(()) && addresses == parsed.value.1 && Resolved(book.sheets, parsed.value.0, worksheet)
    {
      var all := GetAddressesFromAddressStringAsWritten(addressString);
      if all.Err? {
        return Err(all.error);
      }
      var parsed := GetLocalAddresses(all.value);
      if parsed.Err? {
        return Err(parsed.error);
      }
      var worksheetName := parsed.value.0;
      var found: Option<WC.Sheet> := None;
      var contains := book.ContainsName(worksheetName);
      if contains {
        var byName := book.GetByName(worksheetName);
        found := Some(byName.value);
      }
      worksheet := found;
      addresses := parsed.value.1;
      r := Ok(());
    }

    /** GetAddressString, the loop over the local addresses. */
    method GetAddressString(useLocal: bool) returns (r: Result<string>)
      ensures r == AddressString(addresses, worksheet, useLocal)
    {
      if useLocal {
        return Ok(W.Join(addresses, ','));
      }
      var qualified: seq<string> := [];
      var i := 0;
      while i < |addresses|
        invariant 0 <= i <= |addresses|
        invariant i > 0 ==> worksheet.Some? && qualified == W.Qualified(W.EscapedName(worksheet.value.name), addresses[..i])
        invariant i == 0 ==> qualified == []
      {
        if worksheet.None? {
          return Err(NullReference);
        }
        qualified := qualified + [Ranges.RangeAddress(W.EscapedName(worksheet.value.name), addresses[i])];
        i := i + 1;
      }
      assert i > 0 ==> addresses[..i] == addresses;
      r := Ok(W.Join(qualified, ','));
    }
  }

  /** Equals is an equivalence on defined names. */
  lemma EqualsIsEquivalence(a: DefinedName, b: DefinedName, c: DefinedName)
    ensures a.Equals(a)
    ensures a.Equals(b) ==> b.Equals(a)
    ensures a.Equals(b) && b.Equals(c) ==> a.Equals(c)
  {
    EqualsIgnoreCaseIsEquivalence(a.name, b.name, c.name);
    EqualsIgnoreCaseIsEquivalence(c.name, b.name, a.name);
  }

  /**
   * The DefinedName constructor: a bare name whose addresses are then set
   * from the address string; when those cannot be parsed there is no name.
   */
  method NewDefinedName(book: WC.WorksheetCollection, nameId: int, name: string, addressString: string, scope: Scope)
    returns (r: Result<DefinedName>)
    requires book.Valid()
    ensures var parsed := ParsedAddresses(addressString);
      (r.Ok? <==> parsed.Ok?) && (r.Err? ==> r.error == parsed.error)
    ensures r.Ok? ==> fresh(r.value) && r.value.book == book && r.value.nameId == nameId && r.value.name == name
    ensures r.Ok? ==> r.value.scope == scope && r.value.addresses == ParsedAddresses(addressString).value.1
    ensures r.Ok? ==> Resolved(book.sheets, ParsedAddresses(addressString).value.0, r.value.worksheet)
  {
    var definedName := new DefinedName.Empty(book, nameId, name, scope);
    var outcome := definedName.SetAddresses(addressString);
    if outcome.Err? {
      return Err(outcome.error);
    }
    r := Ok(definedName);
  }
}
