/**
 * `formatUtils`: the decisions of the string formatters the analysis output
 * goes through, with `toFixed(2)` worked out over exact numbers.
 */
module FormatUtils {
  import opened Wrappers
  import opened JsValues
  import opened Digits
  import opened Strings

  /*
   * `toFixed(2)` (section 21.1.3.3 of ECMA-262)
   */

  /** The integer nearest to 100·x, the larger one on a tie. */
  function Hundredths(x: real): (n: nat)
    requires x >= 0.0
    ensures n as real - 0.5 <= 100.0 * x < n as real + 0.5
  {
    (100.0 * x + 0.5).Floor
  }

  function Zeros(k: nat): (r: string)
    ensures |r| == k
    ensures forall i :: 0 <= i < k ==> r[i] == '0'
  {
    seq(k, _ => '0')
  }

  /**
   * The digits of `n`, zero-padded on the left to at least three, with a
   * decimal point before the last two.
   */
  function FixedPoint(n: nat): string
  {
    var m := Decimal(n);
    var padded := if |m| <= 2 then Zeros(3 - |m|) + m else m;
    var k := |padded|;
    padded[..k - 2] + "." + padded[k - 2..]
  }

  /** A numeral of three or more digits ends in the two-digit numeral of its last two digits. */
  lemma DecimalSplit(n: nat)
    requires n >= 100
    ensures Decimal(n) == Decimal(n / 100) + Padded(n % 100, 2)
  {
    var q, r := n / 100, n % 100;
    var tens, units := r / 10, r % 10;
    assert n == 100 * q + 10 * tens + units && 0 <= tens < 10 && 0 <= units < 10;
    assert n / 10 == 10 * q + tens && n % 10 == units;
    assert n / 10 / 10 == q && n / 10 % 10 == tens;
    assert Decimal(n) == Decimal(n / 10) + [DigitChar(units)];
    assert Decimal(n / 10) == Decimal(q) + [DigitChar(tens)];
    assert Padded(r, 2) == Padded(tens, 1) + [DigitChar(units)];
    assert Padded(tens, 1) == [DigitChar(tens)];
  }

  /** The fixed-point numeral is the whole part, a point, and the two-digit remainder. */
  lemma FixedPointParts(n: nat)
    ensures FixedPoint(n) == Decimal(n / 100) + "." + Padded(n % 100, 2)
  {
    var m := Decimal(n);
    if n < 10 {
      assert m == [DigitChar(n)];
      assert Padded(n, 2) == [DigitChar(0)] + [DigitChar(n)];
    } else if n < 100 {
      assert Decimal(n / 10) == [DigitChar(n / 10)];
      assert m == [DigitChar(n / 10)] + [DigitChar(n % 10)];
      assert Padded(n, 2) == [DigitChar(n / 10 % 10)] + [DigitChar(n % 10)];
    } else {
      DecimalSplit(n);
      var padded := m;
      assert padded[..|m| - 2] == Decimal(n / 100);
      assert padded[|m| - 2..] == Padded(n % 100, 2);
    }
  }

  /**
   * `x.toFixed(2)`: NaN and the infinities are spelled out, a negative number
   * gets a minus sign before the numeral of its magnitude, and the numeral is
   * the magnitude rounded to hundredths.
   */
  function ToFixed2(x: Number): (r: string)
    ensures x.NaN? ==> r == "NaN"
    ensures x.PosInfinity? ==> r == "Infinity"
    ensures x.NegInfinity? ==> r == "-Infinity"
    ensures |r| >= 3
  {
    match x
    case NaN => "NaN"
    case PosInfinity => "Infinity"
    case NegInfinity => "-Infinity"
    case Finite(v) =>
      var n := Hundredths(if v < 0.0 then -v else v);
      FixedPointParts(n);
      (if v < 0.0 then "-" else "") + FixedPoint(n)
  }

  /** A rendering starts with a minus sign exactly for negative numbers, and a finite one ends in a digit. */
  lemma ToFixed2Shape(x: Number)
    ensures var r := ToFixed2(x);
      (r[0] == '-' <==> x.Negative()) && (x.Finite? ==> IsDigit(r[|r| - 1]))
  {
    if x.Finite? {
      var v := x.value;
      var n := Hundredths(if v < 0.0 then -v else v);
      FixedPointParts(n);
      assert Decimal(n / 100)[0] == FixedPoint(n)[0];
    }
  }

  /** Reads a numeral of the form `digits.dd`, optionally after a minus sign. */
  function ReadFixed(s: string): Option<real>
  {
    if |s| > 0 && s[0] == '-' then
      match ReadUnsigned(s[1..])
      case Some(v) => Some(-v)
      case None => None
    else ReadUnsigned(s)
  }

  function ReadUnsigned(s: string): Option<real>
  {
    var parts := Split(s, '.');
    if |parts| == 2 && |parts[0]| >= 1 && AllDigits(parts[0]) && |parts[1]| == 2 && AllDigits(parts[1]) then
      Some(Value(parts[0]) as real + Value(parts[1]) as real / 100.0)
    else None
  }

  /** The fixed-point numeral of `n` reads back as `n` hundredths. */
  lemma ReadFixedPoint(n: nat)
    ensures ReadUnsigned(FixedPoint(n)) == Some(n as real / 100.0)
  {
    var whole, frac := Decimal(n / 100), Padded(n % 100, 2);
    FixedPointParts(n);
    assert '.' !in whole by {
      assert forall i :: 0 <= i < |whole| ==> IsDigit(whole[i]);
    }
    assert '.' !in frac by {
      assert forall i :: 0 <= i < |frac| ==> IsDigit(frac[i]);
    }
    SplitPrefix(whole, frac, '.');
    SplitOfPiece(frac, '.');
    assert whole + "." + frac == whole + ['.'] + frac;
    DecimalValue(n / 100);
    assert Pow10(2) == 100;
    PaddedValue(n % 100, 2);
    assert n == 100 * (n / 100) + n % 100;
  }

  /** `toFixed(2)` reads back as a number within half a hundredth of the value rounded. */
  lemma ToFixed2ReadsBack(v: real)
    ensures ReadFixed(ToFixed2(Finite(v))).Some?
    ensures -0.005 <= ReadFixed(ToFixed2(Finite(v))).value - v <= 0.005
  {
    var a := if v < 0.0 then -v else v;
    var n := Hundredths(a);
    ReadFixedPoint(n);
    FixedPointParts(n);
    var s := ToFixed2(Finite(v));
    if v < 0.0 {
      assert s[1..] == FixedPoint(n);
    } else {
      assert s == FixedPoint(n);
      assert s[0] == Decimal(n / 100)[0];
    }
  }

  /** A number given in hundredths is rendered exactly. */
  lemma ToFixed2OfHundredths(n: nat)
    ensures ToFixed2(Finite(n as real / 100.0)) == Decimal(n / 100) + "." + Padded(n % 100, 2)
  {
    assert Hundredths(n as real / 100.0) == n;
    FixedPointParts(n);
  }

  /** Rendering a negative number is rendering its magnitude after a minus sign. */
  lemma ToFixed2OfNegative(v: real)
    requires v > 0.0
    ensures ToFixed2(Finite(-v)) == "-" + ToFixed2(Finite(v))
  {
  }

  /*
   * compactCurrency
   */

  /** `x / unit` in JavaScript for a positive unit. */
  function Scaled(x: Number, unit: real): (r: Number)
    requires unit > 0.0
    ensures r.Negative() <==> x.Negative()
    ensures r.Finite? <==> x.Finite?
  {
    if x.Finite? then Finite(x.value / unit) else x
  }

  /** The unit `compactCurrency` states an amount in. */
  datatype Magnitude = Billions | Millions | Thousands | Units {
    function Unit(): (u: real)
      ensures u >= 1.0
    {
      match this
      case Billions => 1e9
      case Millions => 1e6
      case Thousands => 1e3
      case Units => 1.0
    }

    function Letter(): (s: string)
      ensures |s| <= 1
    {
      match this
      case Billions => "B"
      case Millions => "M"
      case Thousands => "K"
      case Units => ""
    }
  }

  /** The largest unit the magnitude of the amount reaches. */
  function MagnitudeOf(x: Number): (m: Magnitude)
    ensures m == Billions <==> x.MagnitudeAtLeast(1e9)
    ensures m == Millions <==> x.MagnitudeAtLeast(1e6) && !x.MagnitudeAtLeast(1e9)
    ensures m == Thousands <==> x.MagnitudeAtLeast(1e3) && !x.MagnitudeAtLeast(1e6)
    ensures m == Units <==> !x.MagnitudeAtLeast(1e3)
  {
    if x.MagnitudeAtLeast(1e9) then Billions
    else if x.MagnitudeAtLeast(1e6) then Millions
    else if x.MagnitudeAtLeast(1e3) then Thousands
    else Units
  }

  /** An amount stated in a unit: a dollar sign, the amount in that unit with two decimals, the unit's letter. */
  function InUnit(x: Number, m: Magnitude): (r: string)
    ensures |r| >= 4 && r[0] == '$'
  {
    "$" + ToFixed2(Scaled(x, m.Unit())) + m.Letter()
  }

  /**
   * `compactCurrency`: "$0" for 0 and NaN; otherwise a dollar sign, the
   * amount in billions, millions, thousands or units (the largest its
   * magnitude reaches) with two decimals, and the letter of that unit.
   */
  function CompactCurrency(x: Number): (r: string)
    ensures |r| >= 2 && r[0] == '$'
    ensures r == "$0" <==> x.Falsy()
    ensures !x.Falsy() ==> r == InUnit(x, MagnitudeOf(x))
  {
    if x.Falsy() then "$0" else InUnit(x, MagnitudeOf(x))
  }

  /**
   * The unit letter can be read off the end: "B", "M" or "K" exactly when the
   * magnitude reaches that unit and no larger one, a digit when it reaches
   * none; a minus sign follows the dollar sign exactly for negative amounts.
   */
  lemma CompactCurrencyShape(x: Number)
    ensures var r := CompactCurrency(x);
      (r[|r| - 1] == 'B' <==> x.MagnitudeAtLeast(1e9)) &&
      (r[|r| - 1] == 'M' <==> x.MagnitudeAtLeast(1e6) && !x.MagnitudeAtLeast(1e9)) &&
      (r[|r| - 1] == 'K' <==> x.MagnitudeAtLeast(1e3) && !x.MagnitudeAtLeast(1e6)) &&
      (IsDigit(r[|r| - 1]) <==> !x.MagnitudeAtLeast(1e3)) &&
      (r[1] == '-' <==> x.Negative())
  {
    var r := CompactCurrency(x);
    if !x.Falsy() {
      var m := MagnitudeOf(x);
      var t := ToFixed2(Scaled(x, m.Unit()));
      ToFixed2Shape(Scaled(x, m.Unit()));
      assert r[1] == t[0];
      if m == Units {
        assert x.Finite?;
        assert r[|r| - 1] == t[|t| - 1];
      } else {
        assert r[|r| - 1] == m.Letter()[0];
      }
    }
  }

  /**
   * The figure of a compact amount stated in unit `m` (between the dollar
   * sign and the unit letter), read back and multiplied by the unit, is
   * within half a hundredth of a unit of `v`.
   */
  predicate ReadsBackAs(r: string, m: Magnitude, v: real) {
    |r| >= 1 + |m.Letter()| &&
    ReadFixed(r[1..|r| - |m.Letter()|]).Some? &&
    -0.005 * m.Unit() <= ReadFixed(r[1..|r| - |m.Letter()|]).value * m.Unit() - v <= 0.005 * m.Unit()
  }

  /** A non-zero amount can be read back from its compact rendering, up to rounding in its unit. */
  lemma CompactCurrencyReadsBack(v: real)
    requires v != 0.0
    ensures ReadsBackAs(CompactCurrency(Finite(v)), MagnitudeOf(Finite(v)), v)
  {
    var m := MagnitudeOf(Finite(v));
    assert CompactCurrency(Finite(v)) == InUnit(Finite(v), m);
    InUnitReadsBack(v, m);
  }

  lemma InUnitReadsBack(v: real, m: Magnitude)
    ensures ReadsBackAs(InUnit(Finite(v), m), m, v)
  {
    var u := m.Unit();
    InUnitOfFinite(v, m);
    FigureReadsBack(v / u, m.Letter());
    ScaleBound(ReadFixed(ToFixed2(Finite(v / u))).value, v, u);
    ReadsBackFrom(InUnit(Finite(v), m), m, v, ToFixed2(Finite(v / u)));
  }

  lemma InUnitOfFinite(v: real, m: Magnitude)
    ensures InUnit(Finite(v), m) == "$" + ToFixed2(Finite(v / m.Unit())) + m.Letter()
  {
    assert Scaled(Finite(v), m.Unit()) == Finite(v / m.Unit());
  }

  /** The figure between the dollar sign and the letter reads back within half a hundredth of `q`. */
  lemma FigureReadsBack(q: real, letter: string)
    ensures var r := "$" + ToFixed2(Finite(q)) + letter;
      |r| >= 1 + |letter| && r[1..|r| - |letter|] == ToFixed2(Finite(q))
    ensures ReadFixed(ToFixed2(Finite(q))).Some?
    ensures -0.005 <= ReadFixed(ToFixed2(Finite(q))).value - q <= 0.005
  {
    Figure(ToFixed2(Finite(q)), letter);
    ToFixed2ReadsBack(q);
  }

  /** A figure within half a hundredth of `v / u`, scaled by `u`, is within half a hundredth of a unit of `v`. */
  lemma ScaleBound(x: real, v: real, u: real)
    requires u > 0.0
    requires -0.005 <= x - v / u <= 0.005
    ensures -0.005 * u <= x * u - v <= 0.005 * u
  {
    var d := x - v / u;
    assert x * u - v == d * u;
    assert -0.005 * u <= d * u <= 0.005 * u;
  }

  lemma ReadsBackFrom(r: string, m: Magnitude, v: real, t: string)
    requires |r| >= 1 + |m.Letter()| && r[1..|r| - |m.Letter()|] == t
    requires ReadFixed(t).Some?
    requires -0.005 * m.Unit() <= ReadFixed(t).value * m.Unit() - v <= 0.005 * m.Unit()
    ensures ReadsBackAs(r, m, v)
  {
  }

  lemma Figure(t: string, letter: string)
    ensures var r := "$" + t + letter; r[1..|r| - |letter|] == t
  {
  }

  /** Negating a non-zero amount puts a minus sign after the dollar sign and changes nothing else. */
  lemma CompactCurrencyOfNegative(v: real)
    requires v > 0.0
    ensures CompactCurrency(Finite(-v)) == "$-" + CompactCurrency(Finite(v))[1..]
  {
    var m := MagnitudeOf(Finite(v));
    assert MagnitudeOf(Finite(-v)) == m;
    InUnitOfNegative(v, m);
  }

  lemma InUnitOfNegative(v: real, m: Magnitude)
    requires v > 0.0
    ensures InUnit(Finite(-v), m) == "$-" + InUnit(Finite(v), m)[1..]
  {
    var u := m.Unit();
    assert Scaled(Finite(v), u) == Finite(v / u);
    var t := ToFixed2(Finite(v / u));
    assert InUnit(Finite(v), m) == "$" + t + m.Letter();
    ScaledNegation(v, m);
    ToFixed2OfNegative(v / u);
    assert InUnit(Finite(-v), m) == "$" + ("-" + t) + m.Letter();
    Unsigned(t, m.Letter());
  }

  lemma ScaledNegation(v: real, m: Magnitude)
    ensures Scaled(Finite(-v), m.Unit()) == Finite(-(v / m.Unit()))
  {
    match m
    case Billions =>
    case Millions =>
    case Thousands =>
    case Units =>
  }

  lemma Unsigned(t: string, letter: string)
    ensures "$" + ("-" + t) + letter == "$-" + ("$" + t + letter)[1..]
  {
    assert ("$" + t + letter)[1..] == t + letter;
  }

  lemma CompactCurrencyOfZero()
    ensures CompactCurrency(Finite(0.0)) == "$0"
  {
  }

  /** `toFixed(2)` of an amount given in hundredths, from the numerals of its two parts. */
  lemma ToFixed2Is(n: nat, whole: string, frac: string)
    requires Decimal(n / 100) == whole && Padded(n % 100, 2) == frac
    ensures ToFixed2(Finite(n as real / 100.0)) == whole + "." + frac
  {
    ToFixed2OfHundredths(n);
  }

  /** `compactCurrency` of an amount whose unit and figure are known. */
  lemma CompactCurrencyIs(x: Number, m: Magnitude, figure: string)
    requires !x.Falsy() && MagnitudeOf(x) == m && ToFixed2(Scaled(x, m.Unit())) == figure
    ensures CompactCurrency(x) == "$" + figure + m.Letter()
  {
  }

  lemma CompactCurrencyOfUnits()
    ensures CompactCurrency(Finite(500.0)) == "$500.00"
  {
    assert ToFixed2(Finite(50_000 as real / 100.0)) == "500.00" by {
      assert Decimal(500) == "500" by {
        assert DigitChar(0) == '0' && DigitChar(5) == '5';
        assert Decimal(500) == Decimal(50) + [DigitChar(0)];
        assert Decimal(50) == Decimal(5) + [DigitChar(0)];
      }
      assert Padded(0, 2) == "00" by {
        assert DigitChar(0) == '0';
      }
      ToFixed2Is(50_000, "500", "00");
    }
    assert Scaled(Finite(500.0), 1.0) == Finite(50_000 as real / 100.0);
    CompactCurrencyIs(Finite(500.0), Units, "500.00");
  }

  lemma CompactCurrencyOfThousands()
    ensures CompactCurrency(Finite(1500.0)) == "$1.50K"
  {
    assert ToFixed2(Finite(150 as real / 100.0)) == "1.50" by {
      assert Padded(50, 2) == "50" by {
        assert DigitChar(0) == '0' && DigitChar(5) == '5';
      }
      ToFixed2Is(150, "1", "50");
    }
    assert Scaled(Finite(1500.0), 1e3) == Finite(150 as real / 100.0);
    CompactCurrencyIs(Finite(1500.0), Thousands, "1.50");
  }

  lemma CompactCurrencyOfMillions()
    ensures CompactCurrency(Finite(2_500_000.0)) == "$2.50M"
  {
    assert ToFixed2(Finite(250 as real / 100.0)) == "2.50" by {
      assert Padded(50, 2) == "50" by {
        assert DigitChar(0) == '0' && DigitChar(5) == '5';
      }
      ToFixed2Is(250, "2", "50");
    }
    assert Scaled(Finite(2_500_000.0), 1e6) == Finite(250 as real / 100.0);
    CompactCurrencyIs(Finite(2_500_000.0), Millions, "2.50");
  }

  lemma CompactCurrencyOfBillions()
    ensures CompactCurrency(Finite(3_200_000_000.0)) == "$3.20B"
  {
    assert ToFixed2(Finite(320 as real / 100.0)) == "3.20" by {
      assert Padded(20, 2) == "20" by {
        assert DigitChar(0) == '0' && DigitChar(2) == '2';
      }
      ToFixed2Is(320, "3", "20");
    }
    assert Scaled(Finite(3_200_000_000.0), 1e9) == Finite(320 as real / 100.0);
    CompactCurrencyIs(Finite(3_200_000_000.0), Billions, "3.20");
  }

  /*
   * changePercent
   */

  /**
   * `changePercent`: a plus sign for values at or above zero (infinity too),
   * then the value with two decimals and a percent sign. NaN has no sign.
   */
  function ChangePercent(x: Number): (r: string)
    ensures |r| >= 4 && r[|r| - 1] == '%'
    ensures r[0] == '+' <==> x.AtLeastZero()
    ensures r[0] == '-' <==> x.Negative()
    ensures x.NaN? ==> r == "NaN%"
  {
    ToFixed2Shape(x);
    (if x.AtLeastZero() then "+" else "") + ToFixed2(x) + "%"
  }

  /** The signed figure before the percent sign reads back within half a hundredth of the value. */
  lemma ChangePercentReadsBack(v: real)
    ensures var r := ChangePercent(Finite(v));
      var start := if v >= 0.0 then 1 else 0;
      ReadFixed(r[start..|r| - 1]).Some? &&
      -0.005 <= ReadFixed(r[start..|r| - 1]).value - v <= 0.005
  {
    var r := ChangePercent(Finite(v));
    var start := if v >= 0.0 then 1 else 0;
    assert r[start..|r| - 1] == ToFixed2(Finite(v));
    ToFixed2ReadsBack(v);
  }

  lemma ChangePercentOfGain()
    ensures ChangePercent(Finite(50.0)) == "+50.00%"
  {
    assert Decimal(50) == "50" by {
      assert DigitChar(0) == '0' && DigitChar(5) == '5';
      assert Decimal(50) == Decimal(5) + [DigitChar(0)];
    }
    assert Padded(0, 2) == "00" by {
      assert DigitChar(0) == '0';
    }
    ToFixed2Is(5_000, "50", "00");
    assert 50.0 == 5_000 as real / 100.0;
  }

  lemma ChangePercentOfLoss()
    ensures ChangePercent(Finite(-12.5)) == "-12.50%"
  {
    assert Decimal(12) == "12" by {
      assert DigitChar(1) == '1' && DigitChar(2) == '2';
      assert Decimal(12) == Decimal(1) + [DigitChar(2)];
    }
    assert Padded(50, 2) == "50" by {
      assert DigitChar(0) == '0' && DigitChar(5) == '5';
    }
    ToFixed2Is(1_250, "12", "50");
    assert 12.5 == 1_250 as real / 100.0;
    ToFixed2OfNegative(12.5);
  }

  /** A tie rounds up: 0.125 becomes "0.13". */
  lemma ToFixed2RoundsTiesUp()
    ensures ToFixed2(Finite(0.125)) == "0.13"
  {
    HundredthsOfTie();
    assert Padded(13, 2) == "13" by {
      assert DigitChar(1) == '1' && DigitChar(3) == '3';
      assert Padded(13, 2) == Padded(1, 1) + [DigitChar(3)];
    }
    FixedPointIs(13, "0", "13");
  }

  lemma HundredthsOfTie()
    ensures Hundredths(0.125) == 13
  {
    assert 100.0 * 0.125 + 0.5 == 13.0;
  }

  lemma FixedPointIs(n: nat, whole: string, frac: string)
    requires Decimal(n / 100) == whole && Padded(n % 100, 2) == frac
    ensures FixedPoint(n) == whole + "." + frac
  {
    FixedPointParts(n);
  }

  /*
   * volatility
   */

  const VolatilityThresholds: seq<real> := [0.1, 0.25, 0.5, 1.0]
  const VolatilityLabels: seq<string> := ["Very Low", "Low", "Moderate", "High", "Very High"]

  /** How many of the thresholds the value is not below. */
  function Reached(x: Number, thresholds: seq<real>): (n: nat)
    ensures n <= |thresholds|
  {
    if |thresholds| == 0 then 0
    else (if x.Below(thresholds[0]) then 0 else 1) + Reached(x, thresholds[1..])
  }

  /**
   * `volatility`: the label of the band the value falls in, the band being
   * the number of thresholds the value has reached. NaN, below nothing,
   * reaches every band.
   */
  function Volatility(x: Number): (r: string)
    ensures r == VolatilityLabels[Reached(x, VolatilityThresholds)]
    ensures x.NaN? || x.PosInfinity? ==> r == "Very High"
    ensures x.NegInfinity? ==> r == "Very Low"
  {
    var t := VolatilityThresholds;
    assert t[1..] == [0.25, 0.5, 1.0] && t[2..] == [0.5, 1.0] && t[3..] == [1.0] && t[4..] == [];
    assert Reached(x, t[4..]) == 0;
    assert Reached(x, t[3..]) == if x.Below(1.0) then 0 else 1;
    assert Reached(x, t[2..]) == (if x.Below(0.5) then 0 else 1) + Reached(x, t[3..]);
    assert Reached(x, t[1..]) == (if x.Below(0.25) then 0 else 1) + Reached(x, t[2..]);
    assert Reached(x, t) == (if x.Below(0.1) then 0 else 1) + Reached(x, t[1..]);
    if x.Below(0.1) then "Very Low"
    else if x.Below(0.25) then "Low"
    else if x.Below(0.5) then "Moderate"
    else if x.Below(1.0) then "High"
    else "Very High"
  }

  /** A larger value reaches at least as many thresholds. */
  lemma {:induction false} ReachedMonotone(a: real, b: real, thresholds: seq<real>)
    requires a <= b
    ensures Reached(Finite(a), thresholds) <= Reached(Finite(b), thresholds)
    decreases |thresholds|
  {
    if |thresholds| > 0 {
      ReachedMonotone(a, b, thresholds[1..]);
    }
  }

  /**
   * A larger value never gets a lower volatility label: the label of `b` is
   * the label of `a` or one listed after it.
   */
  lemma VolatilityMonotone(a: real, b: real)
    requires a <= b
    ensures Volatility(Finite(b)) in VolatilityLabels[Reached(Finite(a), VolatilityThresholds)..]
  {
    var i, j := Reached(Finite(a), VolatilityThresholds), Reached(Finite(b), VolatilityThresholds);
    ReachedMonotone(a, b, VolatilityThresholds);
    assert VolatilityLabels[j] == VolatilityLabels[i..][j - i];
  }

  /*
   * number, currency and percentage
   */

  /** An argument of the loosely typed formatters: a number, a string or `null`. */
  datatype Loose = Numeric(n: Number) | Textual(s: string) | NullInput

  /** `!num`. */
  predicate LooseFalsy(x: Loose) {
    x.NullInput? || (x.Numeric? && x.n.Falsy()) || (x.Textual? && x.s == "")
  }

  /** `Number(num)`, where `toNumber` is the string-to-number conversion, which is not modelled. */
  function Coerce(x: Loose, toNumber: string -> Number): Number
  {
    match x
    case Numeric(n) => n
    case Textual(s) => toNumber(s)
    case NullInput => Finite(0.0)
  }

  /** The arguments every one of the three formatters prints its default for. */
  predicate Blank(x: Loose, toNumber: string -> Number) {
    LooseFalsy(x) || Coerce(x, toNumber).NaN?
  }

  /** A formatter's output: a fixed text, or a value handed to `toLocaleString` with its fraction digits. */
  datatype Rendering = Literal(text: string) | Localized(prefix: string, value: Number, minFraction: nat, maxFraction: nat)

  /** `number`: "0" for blank arguments, else the value with up to two decimals. */
  function FormatNumber(x: Loose, toNumber: string -> Number): (r: Rendering)
    ensures r.Literal? <==> Blank(x, toNumber)
    ensures r.Literal? ==> r.text == "0"
    ensures r.Localized? ==> r == Localized("", Coerce(x, toNumber), 0, 2) && !r.value.NaN?
  {
    if LooseFalsy(x) then Literal("0")
    else
      var value := Coerce(x, toNumber);
      if value.NaN? then Literal("0") else Localized("", value, 0, 2)
  }

  /** `currency`: "$0.00" for blank arguments, else a dollar sign and the value with two decimals. */
  function FormatCurrency(x: Loose, toNumber: string -> Number): (r: Rendering)
    ensures r.Literal? <==> Blank(x, toNumber)
    ensures r.Literal? ==> r.text == "$0.00"
    ensures r.Localized? ==> r == Localized("$", Coerce(x, toNumber), 2, 2) && !r.value.NaN?
  {
    if LooseFalsy(x) then Literal("$0.00")
    else
      var value := Coerce(x, toNumber);
      if value.NaN? then Literal("$0.00") else Localized("$", value, 2, 2)
  }

  /** `percentage`: "0%" exactly for blank arguments, else the value with two decimals and a percent sign. */
  function FormatPercentage(x: Loose, toNumber: string -> Number): (r: string)
    ensures |r| >= 2
    ensures r == "0%" <==> Blank(x, toNumber)
    ensures !Blank(x, toNumber) ==> r[..|r| - 1] == ToFixed2(Coerce(x, toNumber)) && r[|r| - 1] == '%'
  {
    if LooseFalsy(x) then "0%"
    else
      var value := Coerce(x, toNumber);
      if value.NaN? then "0%" else ToFixed2(value) + "%"
  }

  /** The three formatters fall back to their defaults on the same arguments. */
  lemma DefaultsAgree(x: Loose, toNumber: string -> Number)
    ensures FormatNumber(x, toNumber).Literal? <==> FormatCurrency(x, toNumber).Literal?
    ensures FormatCurrency(x, toNumber).Literal? <==> FormatPercentage(x, toNumber) == "0%"
  {
  }

  /** For a number argument the `isNaN` test never fires: `!num` has already caught NaN. */
  lemma NaNTestOnlyForText(n: Number, toNumber: string -> Number)
    ensures Blank(Numeric(n), toNumber) <==> n.Falsy()
  {
  }
}
