/**
 * JavaScript `Date` values as the analysis uses them: construction from UNIX
 * seconds, the UTC month key of `toISOString().slice(0, 7)` and the local
 * calendar year of `getFullYear()`.
 */
module Calendar {
  import opened Digits
  import opened JsValues

  /** A `Date`: an invalid date, or a time value in whole milliseconds since 1970-01-01T00:00Z. */
  datatype Instant = Invalid | At(ms: int)

  /** The largest magnitude of a valid time value (section 21.4.1.1 of ECMA-262). */
  const MaxTimeValue: int := 8_640_000_000_000_000

  const MsPerDay: int := 86_400_000

  /** Truncation toward zero, as ToIntegerOrInfinity does. */
  function Truncate(x: real): (n: int)
    ensures x >= 0.0 ==> n as real <= x < n as real + 1.0
    ensures x < 0.0 ==> n as real - 1.0 < x <= n as real
  {
    if x >= 0.0 then x.Floor else -((-x).Floor)
  }

  /**
   * `new Date(seconds * 1000)`: the product is clipped by TimeClip (section
   * 21.4.1.31 of ECMA-262). `undefined * 1000` and `NaN * 1000` are NaN, while
   * `null * 1000` is 0.
   */
  function FromSeconds(seconds: Reading): (d: Instant)
    ensures seconds.Num? ==>
              (d.At? <==> -MaxTimeValue as real <= seconds.amount * 1000.0 <= MaxTimeValue as real)
    ensures seconds.Num? && d.At? ==> d.ms == Truncate(seconds.amount * 1000.0)
    ensures seconds.Null? ==> d == At(0)
    ensures seconds.Undefined? || seconds.NotANumber? ==> d == Invalid
    ensures d.At? ==> -MaxTimeValue <= d.ms <= MaxTimeValue
  {
    match seconds
    case Num(s) =>
      var t := s * 1000.0;
      if -MaxTimeValue as real <= t <= MaxTimeValue as real then At(Truncate(t)) else Invalid
    case Null => At(0)
    case _ => Invalid
  }

  /** A proleptic Gregorian year and month (1 = January). */
  datatype CivilMonth = CivilMonth(year: int, month: int)

  /**
   * The civil year and month of a day count since 1970-01-01, by the
   * era-based days-to-civil conversion (eras of 400 years, years starting in
   * March). `/` and `%` are floor division here, as the conversion needs.
   */
  function CivilFromDays(days: int): CivilMonth
  {
    var z := days + 719_468;
    var era := z / 146_097;
    var doe := z % 146_097;
    var yoe := (doe - doe / 1_460 + doe / 36_524 - doe / 146_096) / 365;
    var doy := doe - (365 * yoe + yoe / 4 - yoe / 100);
    var mp := (5 * doy + 2) / 153;
    var m := if mp < 10 then mp + 3 else mp - 9;
    CivilMonth(yoe + era * 400 + (if m <= 2 then 1 else 0), m)
  }

  /**
   * The day count since 1970-01-01 of the first day of a month: the inverse
   * direction of `CivilFromDays`, by the same era-based method.
   */
  function DaysFromCivil(year: int, month: int): int
  {
    var y := if month <= 2 then year - 1 else year;
    var era := y / 400;
    var yoe := y - era * 400;
    var mp := if month > 2 then month - 3 else month + 9;
    var doy := (153 * mp + 2) / 5;
    var doe := yoe * 365 + yoe / 4 - yoe / 100 + doy;
    era * 146_097 + doe - 719_468
  }

  /** Euclidean division is determined by its quotient and remainder equation. */
  lemma DivModUnique(z: int, d: int, q: int, r: int)
    requires d > 0 && z == q * d + r && 0 <= r < d
    ensures z / d == q && z % d == r
  {
    var q' := z / d;
    if q' > q {
      MulMonotone(q', q + 1, d);
    } else if q' < q {
      MulMonotone(q, q' + 1, d);
    }
  }

  lemma MulMonotone(a: int, b: int, d: int)
    requires a >= b && d >= 0
    ensures a * d >= b * d
  {
    var k := a - b;
    assert a * d == b * d + k * d;
  }

  /** The year-of-era step of `CivilFromDays` recovers the year of era of a first day. */
  lemma YearOfEra(yoe: int, doy: int)
    requires 0 <= yoe < 400 && 0 <= doy <= 337
    ensures var doe := yoe * 365 + yoe / 4 - yoe / 100 + doy;
      (doe - doe / 1_460 + doe / 36_524 - doe / 146_096) / 365 == yoe
  {
    var doe := yoe * 365 + yoe / 4 - yoe / 100 + doy;
    var c, r := yoe / 100, yoe % 100;
    DivModUnique(yoe, 4, 25 * c + r / 4, r % 4);
    var q, s := yoe / 4, yoe % 4;
    DivModUnique(doe, 36_524, c, 365 * r + r / 4 + doy);
    DivModUnique(doe, 146_096, 0, doe);
    var e := 365 * s + q - c + doy;
    assert doe == q * 1_460 + e;
    var k := if e < 1_460 then 0 else 1;
    DivModUnique(doe, 1_460, q + k, e - 1_460 * k);
    var n := doe - doe / 1_460 + doe / 36_524 - doe / 146_096;
    assert n == yoe * 365 + doy - k;
    DivModUnique(n, 365, yoe, doy - k);
  }

  /** The month step of `CivilFromDays` recovers the March-based month from its first day. */
  lemma MonthOfYearDay(mp: int)
    requires 0 <= mp < 12
    ensures (5 * ((153 * mp + 2) / 5) + 2) / 153 == mp
    ensures (153 * mp + 2) / 5 <= 337
  {
  }

  /** The day count of the first day of a month converts back to that month. */
  lemma CivilFromDaysOfFirst(year: int, month: int)
    requires 1 <= month <= 12
    ensures CivilFromDays(DaysFromCivil(year, month)) == CivilMonth(year, month)
  {
    var era, doe, yoe, doy := FirstDayParts(year, month);
    YearOfEra(yoe, doy);
    CivilFromEraDay(DaysFromCivil(year, month), era, doe, yoe, doy);
  }

  /** The era, day of era, year of era and day of year that `DaysFromCivil` passes through. */
  lemma FirstDayParts(year: int, month: int) returns (era: int, doe: int, yoe: int, doy: int)
    requires 1 <= month <= 12
    ensures DaysFromCivil(year, month) + 719_468 == era * 146_097 + doe
    ensures 0 <= yoe < 400 && 0 <= doy <= 337 && 0 <= doe < 146_097
    ensures doe == yoe * 365 + yoe / 4 - yoe / 100 + doy
    ensures var mp := (5 * doy + 2) / 153;
      var m := if mp < 10 then mp + 3 else mp - 9;
      m == month && yoe + era * 400 + (if m <= 2 then 1 else 0) == year
  {
    var y := if month <= 2 then year - 1 else year;
    era := y / 400;
    yoe := y - era * 400;
    var mp := if month > 2 then month - 3 else month + 9;
    doy := (153 * mp + 2) / 5;
    MonthOfYearDay(mp);
    doe := yoe * 365 + yoe / 4 - yoe / 100 + doy;
  }

  /** `CivilFromDays` of a day given by its era and its day of era, once the steps inside are known. */
  lemma CivilFromEraDay(days: int, era: int, doe: int, yoe: int, doy: int)
    requires 0 <= doe < 146_097 && days + 719_468 == era * 146_097 + doe
    requires (doe - doe / 1_460 + doe / 36_524 - doe / 146_096) / 365 == yoe
    requires doy == doe - (365 * yoe + yoe / 4 - yoe / 100)
    ensures var mp := (5 * doy + 2) / 153;
      var m := if mp < 10 then mp + 3 else mp - 9;
      CivilFromDays(days) == CivilMonth(yoe + era * 400 + (if m <= 2 then 1 else 0), m)
  {
    var z := days + 719_468;
    DivModUnique(z, 146_097, era, doe);
    CivilFromDaysSteps(days, era, doe);
  }

  /** `CivilFromDays` once its era and day of era are known. */
  lemma CivilFromDaysSteps(days: int, era: int, doe: int)
    requires (days + 719_468) / 146_097 == era && (days + 719_468) % 146_097 == doe
    ensures var yoe := (doe - doe / 1_460 + doe / 36_524 - doe / 146_096) / 365;
      var doy := doe - (365 * yoe + yoe / 4 - yoe / 100);
      var mp := (5 * doy + 2) / 153;
      var m := if mp < 10 then mp + 3 else mp - 9;
      CivilFromDays(days) == CivilMonth(yoe + era * 400 + (if m <= 2 then 1 else 0), m)
  {
  }

  /** The UTC calendar month of a time value. */
  function UtcMonth(ms: int): CivilMonth
  {
    CivilFromDays(ms / MsPerDay)
  }

  /**
   * `getFullYear()`: the year of local time, that is of the time value shifted
   * by the host's offset from UTC at that instant (`offset`, in milliseconds).
   */
  function LocalYear(ms: int, offset: int -> int): int
  {
    CivilFromDays((ms + offset(ms)) / MsPerDay).year
  }

  /** The local calendar month of a time value on a host with the given offset, as `toLocaleString` shows it. */
  function LocalMonth(ms: int, offset: int -> int): CivilMonth
  {
    CivilFromDays((ms + offset(ms)) / MsPerDay)
  }

  /**
   * The first seven characters of the ISO string of a date in the given
   * month: `YYYY-MM` for years 0..9999 and the expanded form `+YYYYYY` or
   * `-YYYYYY` otherwise (section 21.4.1.32 of ECMA-262), which keeps the year
   * but cuts the month off.
   */
  function MonthKeyOf(c: CivilMonth): (key: string)
    ensures |key| == 7
  {
    if 0 <= c.year <= 9999 then
      Padded(c.year, 4) + "-" + Padded(c.month % 100, 2)
    else
      (if c.year < 0 then "-" else "+") + Padded(if c.year < 0 then -c.year else c.year, 6)
  }

  /** `new Date(ms).toISOString().slice(0, 7)` for a valid time value. */
  function MonthKey(ms: int): (key: string)
    ensures |key| == 7
  {
    MonthKeyOf(UtcMonth(ms))
  }

  /** The year a month key names, read back from its characters. */
  function KeyYear(key: string): int
    requires |key| == 7
  {
    var c := key[0];
    if c == '+' || c == '-' then
      var digits := key[1..];
      var v: int := if AllDigits(digits) then Value(digits) else 0;
      if c == '-' then -v else v
    else
      var digits := key[..4];
      if AllDigits(digits) then Value(digits) else 0
  }

  /** Every valid time value lies in a year of at most six digits (the range is about +-275760). */
  lemma YearOfValidTime(ms: int)
    requires -MaxTimeValue <= ms <= MaxTimeValue
    ensures -1_000_000 < UtcMonth(ms).year < 1_000_000
  {
    var days := ms / MsPerDay;
    assert -100_000_001 <= days <= 100_000_000;
  }

  /** A month key determines its year: reading the year back from the key gives the month's year. */
  lemma KeyYearOfMonthKey(c: CivilMonth)
    requires -1_000_000 < c.year < 1_000_000
    ensures KeyYear(MonthKeyOf(c)) == c.year
  {
    var key := MonthKeyOf(c);
    if 0 <= c.year <= 9999 {
      assert key[..4] == Padded(c.year, 4);
      PaddedValue(c.year, 4);
    } else {
      var mag := if c.year < 0 then -c.year else c.year;
      assert key[1..] == Padded(mag, 6);
      PaddedValue(mag, 6);
    }
  }

  /**
   * Two valid time values with the same month key lie in the same UTC year,
   * whichever form the key takes.
   */
  lemma SameMonthKeySameUtcYear(a: int, b: int)
    requires -MaxTimeValue <= a <= MaxTimeValue
    requires -MaxTimeValue <= b <= MaxTimeValue
    requires MonthKey(a) == MonthKey(b)
    ensures UtcMonth(a).year == UtcMonth(b).year
  {
    YearOfValidTime(a);
    YearOfValidTime(b);
    KeyYearOfMonthKey(UtcMonth(a));
    KeyYearOfMonthKey(UtcMonth(b));
  }

  /** On a host whose clock is UTC, `getFullYear()` is the UTC year. */
  lemma LocalYearOnUtcHost(ms: int, offset: int -> int)
    requires offset(ms) == 0
    ensures LocalYear(ms, offset) == UtcMonth(ms).year
  {
  }

  /**
   * On a host five hours behind UTC, 2020-01-01T01:00Z (1577840400 seconds)
   * gets the month key "2020-01" but the local year 2019.
   */
  lemma MonthAndYearDisagreeWestOfUtc(offset: int -> int)
    requires offset(1_577_840_400_000) == -18_000_000
    ensures MonthKey(1_577_840_400_000) == "2020-01"
    ensures LocalYear(1_577_840_400_000, offset) == 2019
  {
    assert 1_577_840_400_000 / MsPerDay == 18_262;
    CivilFromDaysExample1();
    assert (1_577_840_400_000 + offset(1_577_840_400_000)) / MsPerDay == 18_261;
    CivilFromDaysExample2();
    PaddedExamples();
  }

  lemma PaddedExamples()
    ensures Padded(2020, 4) == "2020" && Padded(1, 2) == "01"
  {
    assert DigitChar(0) == '0' && DigitChar(1) == '1' && DigitChar(2) == '2';
    assert Padded(2, 1) == [DigitChar(2)];
    assert Padded(20, 2) == [DigitChar(2), DigitChar(0)];
    assert Padded(202, 3) == [DigitChar(2), DigitChar(0), DigitChar(2)];
    assert Padded(2020, 4) == [DigitChar(2), DigitChar(0), DigitChar(2), DigitChar(0)];
    assert Padded(1, 2) == [DigitChar(0), DigitChar(1)];
  }

  lemma CivilFromDaysExample1()
    ensures CivilFromDays(18_262) == CivilMonth(2020, 1)
  {
    var z := 18_262 + 719_468;
    assert z / 146_097 == 5 && z % 146_097 == 7_245;
    assert (7_245 - 7_245 / 1_460 + 7_245 / 36_524 - 7_245 / 146_096) / 365 == 19;
    assert (5 * 306 + 2) / 153 == 10;
  }

  lemma CivilFromDaysExample2()
    ensures CivilFromDays(18_261) == CivilMonth(2019, 12)
  {
    var z := 18_261 + 719_468;
    assert z / 146_097 == 5 && z % 146_097 == 7_244;
    assert (7_244 - 7_244 / 1_460 + 7_244 / 36_524 - 7_244 / 146_096) / 365 == 19;
    assert (5 * 305 + 2) / 153 == 9;
  }
}
