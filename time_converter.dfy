/**
 * Conversion between spreadsheet serial dates and calendar date-times.
 * Serial 0 is taken as 1899-12-30; dates before 1900-03-01 are shifted by a
 * day to absorb the fictitious 1900-02-29 that spreadsheets count.
 */
module TimeConverter {
  import opened Wrappers

  /** A date-time as a day number since 0001-01-01 plus the millisecond of that day. */
  datatype DateTime = DateTime(day: int, ms: int)

  const MsPerDay: int := 86400000
  /** 9999-12-31, the last representable day. */
  const MaxDay: int := 3652058
  /** 1899-12-30, the base the serial is counted from. */
  const BaseExcelDay: int := 693593
  /** 1900-01-01: dates on this day are written as a time of day only. */
  const BaseExternalDay: int := 693595
  /** 1900-03-01: dates before it are shifted by one day. */
  const AdditionalExcelDay: int := 693654

  const MinValue: DateTime := DateTime(0, 0)

  predicate ValidDateTime(d: DateTime) {
    0 <= d.day <= MaxDay && 0 <= d.ms < MsPerDay
  }

  /** Before compares instants. */
  predicate Before(a: DateTime, b: DateTime) {
    a.day < b.day || (a.day == b.day && a.ms < b.ms)
  }

  /** Math.Round with its default rounding: to nearest, ties to even. */
  function RoundHalfEven(x: real): (r: int)
    ensures x - 1.0 / 2.0 <= r as real <= x + 1.0 / 2.0
    ensures r as real - x == 1.0 / 2.0 || x - r as real == 1.0 / 2.0 ==> r % 2 == 0
  {
    var f := x.Floor;
    var diff := x - f as real;
    if diff < 1.0 / 2.0 then f
    else if diff > 1.0 / 2.0 then f + 1
    else if f % 2 == 0 then f else f + 1
  }

  /** DateTime.Add of a whole number of milliseconds; leaving the representable range throws. */
  function AddMs(d: DateTime, ms: int): (r: Result<DateTime>)
    requires ValidDateTime(d)
    ensures r.Ok? ==> ValidDateTime(r.value)
    ensures r.Ok? ==> r.value.day * MsPerDay + r.value.ms == d.day * MsPerDay + d.ms + ms
  {
    var total := d.day * MsPerDay + d.ms + ms;
    if total < 0 || total >= (MaxDay + 1) * MsPerDay then Err(ArgumentOutOfRange)
    else Ok(DateTime(total / MsPerDay, total % MsPerDay))
  }

  /** GetCorrectedDateFromExcel: one day later for instants before 1900-03-01. */
  function CorrectedFromExcel(d: DateTime): DateTime
  {
    if d.day < AdditionalExcelDay then d.(day := d.day + 1) else d
  }

  /**
   * GetDateTimeValueFromDoubleValue: whole days added to 1899-12-30, then hours
   * and minutes by flooring and seconds by rounding the remainder, then the
   * 1900 correction. A negative serial is an invalid cast; a serial beyond the
   * last representable instant gives MinValue.
   */
  function SerialToDateTime(value: real): (r: Result<DateTime>)
    ensures value < 0.0 <==> r == Err(InvalidCast)
    ensures r.Ok? ==> ValidDateTime(r.value)
  {
    if value < 0.0 then Err(InvalidCast)
    else
      var days := value.Floor;
      var timePart := value - days as real;
      var hours := (timePart * 24.0).Floor;
      var afterHours := timePart - hours as real / 24.0;
      var minutes := (afterHours * 1440.0).Floor;
      var afterMinutes := afterHours - minutes as real / 1440.0;
      var seconds := RoundHalfEven(afterMinutes * 86400.0);
      if BaseExcelDay + days > MaxDay then Ok(MinValue)
      else
        match AddMs(DateTime(BaseExcelDay + days, 0), ((hours * 60 + minutes) * 60 + seconds) * 1000)
        case Err(_) => Ok(MinValue)
        case Ok(d) => Ok(CorrectedFromExcel(d))
  }

  /** TimeSpan components truncate toward zero. */
  function TruncatingDiv(a: int, b: int): (r: int)
    requires b > 0
    ensures a >= 0 ==> r == a / b
    ensures a < 0 ==> r == -((-a) / b)
  {
    if a >= 0 then a / b else -((-a) / b)
  }

  /**
   * GetDoubleValueFromDateTimeValue: an instant on 1900-01-01 keeps only its
   * time of day; any other instant before 1900-03-01 moves one day back
   * (which fails on the first representable day). The serial counts days from
   * 1899-12-30, with milliseconds dropped.
   */
  function DateTimeToSerial(d: DateTime): (r: Result<real>)
    requires ValidDateTime(d)
    ensures r.Err? <==> d.day == 0
  {
    var moved :=
      if d.day == BaseExternalDay then Ok(DateTime(BaseExcelDay, d.ms))
      else if d.day < AdditionalExcelDay then (if d.day == 0 then Err(ArgumentOutOfRange) else Ok(d.(day := d.day - 1)))
      else Ok(d);
    match moved
    case Err(e) => Err(e)
    case Ok(v) =>
      var spanMs := (v.day - BaseExcelDay) * MsPerDay + v.ms;
      Ok(TruncatingDiv(spanMs, 1000) as real / 86400.0)
  }

  lemma {:induction false} FloorOfQuotient(a: int, b: int)
    requires a >= 0 && b > 0
    ensures (a as real / b as real).Floor == a / b
  {
    var q := a / b;
    var r := a % b;
    assert a == q * b + r;
    assert a as real / b as real == q as real + r as real / b as real;
    assert 0.0 <= r as real / b as real < 1.0;
  }

  lemma {:induction false} FloorOfWholePlusFraction(n: int, s: int)
    requires 0 <= s < 86400
    ensures (n as real + s as real / 86400.0).Floor == n
  {
    assert 0.0 <= s as real / 86400.0 < 1.0;
  }

  /** Taking whole units of `unit` seconds off a day fraction of `r` seconds: the floor and the remaining fraction. */
  lemma {:induction false} WholeUnits(r: int, unit: int, perDay: int)
    requires 0 <= r && unit > 0 && unit * perDay == 86400
    ensures (r as real / 86400.0 * perDay as real).Floor == r / unit
    ensures r as real / 86400.0 - (r / unit) as real / perDay as real == (r % unit) as real / 86400.0
  {
    assert r as real / 86400.0 * perDay as real == r as real / unit as real;
    FloorOfQuotient(r, unit);
    assert r == r / unit * unit + r % unit;
    assert (r / unit) as real / perDay as real == (r / unit * unit) as real / 86400.0;
  }

  /** The time-of-day steps recover whole hours, minutes and seconds exactly. */
  lemma {:induction false} TimeOfDaySteps(s: int)
    requires 0 <= s < 86400
    ensures var t := s as real / 86400.0;
      var h := (t * 24.0).Floor;
      var a := t - h as real / 24.0;
      var m := (a * 1440.0).Floor;
      var b := a - m as real / 1440.0;
      h == s / 3600 && m == (s % 3600) / 60 && RoundHalfEven(b * 86400.0) == s % 60
  {
    var t := s as real / 86400.0;
    WholeUnits(s, 3600, 24);
    var a := t - (s / 3600) as real / 24.0;
    assert a == (s % 3600) as real / 86400.0;
    WholeUnits(s % 3600, 60, 1440);
    var r := (s % 3600) % 60;
    var b := a - ((s % 3600) / 60) as real / 1440.0;
    assert b == r as real / 86400.0;
    assert b * 86400.0 == r as real;
    RoundHalfEvenOfWhole(r);
    SecondsOfHour(s);
  }

  /** A whole number rounds to itself. */
  lemma RoundHalfEvenOfWhole(n: int)
    ensures RoundHalfEven(n as real) == n
  {
    assert (n as real).Floor == n;
  }

  /** The seconds left after whole hours and then whole minutes are the seconds left after whole minutes. */
  lemma SecondsOfHour(s: int)
    requires 0 <= s
    ensures (s % 3600) % 60 == s % 60
  {
    var q := s / 3600;
    var q2 := (s % 3600) / 60;
    var r := (s % 3600) % 60;
    assert s == (q * 60 + q2) * 60 + r;
  }

  /** Reading the serial n + s/86400 for a day offset n and a second of day s. */
  lemma {:induction false} ReadWholeSeconds(n: int, s: int)
    requires 0 <= n && BaseExcelDay + n <= MaxDay && 0 <= s < 86400
    ensures SerialToDateTime(n as real + s as real / 86400.0) ==
            Ok(CorrectedFromExcel(DateTime(BaseExcelDay + n, s * 1000)))
  {
    var value := n as real + s as real / 86400.0;
    FloorOfWholePlusFraction(n, s);
    assert value - n as real == s as real / 86400.0;
    TimeOfDaySteps(s);
    var total := (s / 3600 * 60 + (s % 3600) / 60) * 60 + s % 60;
    assert total == s;
    var added := AddMs(DateTime(BaseExcelDay + n, 0), total * 1000);
    assert added == Ok(DateTime(BaseExcelDay + n, s * 1000)) by {
      var t := (BaseExcelDay + n) * MsPerDay + s * 1000;
      assert t / MsPerDay == BaseExcelDay + n && t % MsPerDay == s * 1000;
    }
  }

  /** The serial written for an instant from 1900-03-01 on: whole days since 1899-12-30 plus the fraction of the day. */
  lemma {:induction false} WriteWholeSeconds(d: DateTime)
    requires ValidDateTime(d) && d.day >= AdditionalExcelDay && d.ms % 1000 == 0
    ensures DateTimeToSerial(d) == Ok((d.day - BaseExcelDay) as real + (d.ms / 1000) as real / 86400.0)
  {
    var n := d.day - BaseExcelDay;
    var s := d.ms / 1000;
    assert n * MsPerDay + d.ms == (n * 86400 + s) * 1000;
    assert TruncatingDiv(n * MsPerDay + d.ms, 1000) == n * 86400 + s;
    assert (n * 86400 + s) as real / 86400.0 == n as real + s as real / 86400.0;
  }

  /**
   * From 1900-03-01 on, an instant with whole seconds survives conversion to
   * a serial and back.
   */
  lemma SerialRoundTrip(d: DateTime)
    requires ValidDateTime(d) && d.day >= AdditionalExcelDay && d.ms % 1000 == 0
    ensures DateTimeToSerial(d).Ok?
    ensures SerialToDateTime(DateTimeToSerial(d).value) == Ok(d)
  {
    WriteWholeSeconds(d);
    ReadWholeSeconds(d.day - BaseExcelDay, d.ms / 1000);
    assert d.ms / 1000 * 1000 == d.ms;
  }

  /**
   * The serial written for an instant from 1900-01-02 to 1900-02-28: it is
   * moved one day back first, so its serial is one less than its day count.
   */
  lemma {:induction false} EarlyWrite(d: DateTime)
    requires ValidDateTime(d) && BaseExcelDay < d.day < AdditionalExcelDay && d.day != BaseExternalDay
    requires d.ms % 1000 == 0
    ensures DateTimeToSerial(d) == Ok((d.day - 1 - BaseExcelDay) as real + (d.ms / 1000) as real / 86400.0)
  {
    var n := d.day - 1 - BaseExcelDay;
    var s := d.ms / 1000;
    assert n * MsPerDay + d.ms == (n * 86400 + s) * 1000;
    assert TruncatingDiv(n * MsPerDay + d.ms, 1000) == n * 86400 + s;
    assert (n * 86400 + s) as real / 86400.0 == n as real + s as real / 86400.0;
  }

  /**
   * From 1900-01-02 to 1900-02-28 the day moved back on writing is moved
   * forward again on reading, so such an instant with whole seconds
   * survives the round trip too.
   */
  lemma EarlyRoundTrip(d: DateTime)
    requires ValidDateTime(d) && BaseExcelDay < d.day < AdditionalExcelDay && d.day != BaseExternalDay
    requires d.ms % 1000 == 0
    ensures DateTimeToSerial(d).Ok?
    ensures SerialToDateTime(DateTimeToSerial(d).value) == Ok(d)
  {
    EarlyWrite(d);
    ReadWholeSeconds(d.day - 1 - BaseExcelDay, d.ms / 1000);
    assert d.ms / 1000 * 1000 == d.ms;
  }

  /** Serials 60 and 61 both read as 1900-03-01: the fictitious 1900-02-29 has no date of its own. */
  lemma LeapDayCollapses()
    ensures SerialToDateTime(60.0) == Ok(DateTime(AdditionalExcelDay, 0))
    ensures SerialToDateTime(61.0) == Ok(DateTime(AdditionalExcelDay, 0))
    ensures SerialToDateTime(1.0) == Ok(DateTime(BaseExternalDay, 0))
  {
    assert (60.0).Floor == 60 && (61.0).Floor == 61 && (1.0).Floor == 1;
    assert RoundHalfEven(0.0) == 0;
  }

  /** An instant on 1900-01-01 is written as its time of day, so it reads back one day earlier. */
  lemma BaseExternalDayIsTimeOnly(ms: int)
    requires 0 <= ms < MsPerDay && ms % 1000 == 0
    ensures DateTimeToSerial(DateTime(BaseExternalDay, ms)) == Ok((ms / 1000) as real / 86400.0)
    ensures SerialToDateTime((ms / 1000) as real / 86400.0) == Ok(DateTime(BaseExternalDay - 1, ms))
  {
    var s := ms / 1000;
    assert TruncatingDiv(ms, 1000) == s;
    ReadWholeSeconds(0, s);
    assert 0 as real + s as real / 86400.0 == s as real / 86400.0;
    assert s * 1000 == ms;
  }

  /** Half seconds round to the even second. */
  lemma SecondsRoundHalfToEven()
    ensures SerialToDateTime(1000.0 + (1.0 / 2.0) / 86400.0) == Ok(DateTime(BaseExcelDay + 1000, 0))
    ensures SerialToDateTime(1000.0 + (3.0 / 2.0) / 86400.0) == Ok(DateTime(BaseExcelDay + 1000, 2000))
  {
    assert (1000.0 + (1.0 / 2.0) / 86400.0).Floor == 1000;
    assert (1000.0 + (3.0 / 2.0) / 86400.0).Floor == 1000;
    assert ((1.0 / 2.0) / 86400.0 * 24.0).Floor == 0;
    assert ((3.0 / 2.0) / 86400.0 * 24.0).Floor == 0;
    assert ((1.0 / 2.0) / 86400.0 * 1440.0).Floor == 0;
    assert ((3.0 / 2.0) / 86400.0 * 1440.0).Floor == 0;
    assert RoundHalfEven(1.0 / 2.0) == 0;
    assert RoundHalfEven(3.0 / 2.0) == 2;
  }

  /** A serial past 9999-12-31 gives MinValue rather than an error. */
  lemma OutOfRangeSerialIsMinValue()
    ensures SerialToDateTime(5000000.0) == Ok(MinValue)
  {
    assert (5000000.0).Floor == 5000000;
  }
}
