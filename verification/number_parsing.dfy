/** `parseInt(s)` with no radix argument (section 19.2.5 of ECMA-262), over exact values. */
module NumberParsing {
  import opened Digits
  import opened JsValues

  /** The WhiteSpace and LineTerminator code points, which `parseInt` skips at the start. */
  predicate IsSpace(c: char) {
    || c == '\t' || c == '\U{B}' || c == '\U{C}' || c == ' ' || c == '\U{A0}' || c == '\U{FEFF}'
    || c == '\n' || c == '\r' || c == '\U{2028}' || c == '\U{2029}'
    || c == '\U{1680}' || ('\U{2000}' <= c <= '\U{200A}') || c == '\U{202F}' || c == '\U{205F}' || c == '\U{3000}'
  }

  /** `s` without its leading white space. */
  function TrimStart(s: string): (r: string)
    ensures |r| <= |s| && r == s[|s| - |r|..]
    ensures |r| > 0 ==> !IsSpace(r[0])
    ensures forall i :: 0 <= i < |s| - |r| ==> IsSpace(s[i])
  {
    if |s| > 0 && IsSpace(s[0]) then TrimStart(s[1..]) else s
  }

  predicate IsHexDigit(c: char) {
    IsDigit(c) || 'a' <= c <= 'f' || 'A' <= c <= 'F'
  }

  /** A digit of radix 16 when `hex` holds, of radix 10 otherwise. */
  predicate IsRadixDigit(c: char, hex: bool) {
    if hex then IsHexDigit(c) else IsDigit(c)
  }

  function RadixDigitValue(c: char, hex: bool): (d: nat)
    requires IsRadixDigit(c, hex)
    ensures d < (if hex then 16 else 10)
  {
    if IsDigit(c) then DigitValue(c)
    else if 'a' <= c <= 'f' then c as int - 'a' as int + 10
    else c as int - 'A' as int + 10
  }

  /** The longest prefix of `s` made of radix digits. */
  function DigitRun(s: string, hex: bool): (r: string)
    ensures |r| <= |s| && r == s[..|r|]
    ensures forall i :: 0 <= i < |r| ==> IsRadixDigit(r[i], hex)
    ensures |r| < |s| ==> !IsRadixDigit(s[|r|], hex)
  {
    if |s| > 0 && IsRadixDigit(s[0], hex) then [s[0]] + DigitRun(s[1..], hex) else ""
  }

  /** The value of a run of radix digits, read left to right. */
  function RadixValue(s: string, hex: bool): nat
    requires forall i :: 0 <= i < |s| ==> IsRadixDigit(s[i], hex)
  {
    if |s| == 0 then 0
    else (if hex then 16 else 10) * RadixValue(s[..|s| - 1], hex) + RadixDigitValue(s[|s| - 1], hex)
  }

  /** The sign, the radix and the digit run that `parseInt` reads from `s`. */
  datatype Scan = Scan(negative: bool, hex: bool, digits: string)

  function ScanInt(s: string): (r: Scan)
    ensures forall i :: 0 <= i < |r.digits| ==> IsRadixDigit(r.digits[i], r.hex)
  {
    ScanTrimmed(TrimStart(s))
  }

  /** The scan of a string whose leading white space is already gone. */
  function ScanTrimmed(t: string): (r: Scan)
    ensures forall i :: 0 <= i < |r.digits| ==> IsRadixDigit(r.digits[i], r.hex)
  {
    var negative := |t| > 0 && t[0] == '-';
    var u := if |t| > 0 && (t[0] == '-' || t[0] == '+') then t[1..] else t;
    var hex := |u| >= 2 && u[0] == '0' && (u[1] == 'x' || u[1] == 'X');
    Scan(negative, hex, DigitRun(if hex then u[2..] else u, hex))
  }

  /**
   * `parseInt(s)`: NaN exactly when no digit follows the white space, the
   * sign and a `0x` prefix; negative only after a minus sign. A negative zero is
   * returned as 0.
   */
  function ParseInt(s: string): (r: Number)
    ensures r.NaN? <==> |ScanInt(s).digits| == 0
    ensures r.Finite? <==> |ScanInt(s).digits| > 0
    ensures r.Finite? && r.value < 0.0 ==> ScanInt(s).negative
  {
    var scan := ScanInt(s);
    if |scan.digits| == 0 then NaN
    else
      var magnitude := RadixValue(scan.digits, scan.hex);
      Finite(if scan.negative then -(magnitude as real) else magnitude as real)
  }

  /** Decimal digits read in radix 10 have their decimal value. */
  lemma {:induction false} DecimalRadixValue(s: string)
    requires AllDigits(s)
    ensures RadixValue(s, false) == Value(s)
  {
    if |s| > 0 {
      DecimalRadixValue(s[..|s| - 1]);
    }
  }

  /** A run of digits stops at the first character that is not one. */
  lemma {:induction false} DigitRunStops(d: string, tail: string, hex: bool)
    requires forall i :: 0 <= i < |d| ==> IsRadixDigit(d[i], hex)
    requires |tail| == 0 || !IsRadixDigit(tail[0], hex)
    ensures DigitRun(d + tail, hex) == d
  {
    if |d| > 0 {
      assert (d + tail)[1..] == d[1..] + tail;
      DigitRunStops(d[1..], tail, hex);
      assert [d[0]] + d[1..] == d;
    } else {
      assert d + tail == tail;
    }
  }

  /**
   * Reading back a numeral: `parseInt` of `n` in decimal, followed by
   * anything that is not a digit, gives `n`, except that "0" followed by "x"
   * is a hexadecimal prefix.
   */
  lemma ParseIntOfDecimal(n: nat, tail: string)
    requires |tail| == 0 || !IsDigit(tail[0])
    requires n == 0 && |tail| > 0 ==> tail[0] != 'x' && tail[0] != 'X'
    ensures ParseInt(Decimal(n) + tail) == Finite(n as real)
  {
    ScanOfDecimal(n, tail);
    DecimalRadixValue(Decimal(n));
    DecimalValue(n);
  }

  /** A decimal numeral is read as an unsigned decimal digit run. */
  lemma ScanOfDecimal(n: nat, tail: string)
    requires |tail| == 0 || !IsDigit(tail[0])
    requires n == 0 && |tail| > 0 ==> tail[0] != 'x' && tail[0] != 'X'
    ensures ScanInt(Decimal(n) + tail) == Scan(false, false, Decimal(n))
  {
    var d := Decimal(n);
    var s := d + tail;
    assert s[0] == d[0] && IsDigit(d[0]);
    assert TrimStart(s) == s;
    NoHexPrefix(n, tail);
    DigitRunStops(d, tail, false);
  }

  /** Only the numeral "0" can be followed by an `x`, and the precondition rules that out. */
  lemma NoHexPrefix(n: nat, tail: string)
    requires n == 0 && |tail| > 0 ==> tail[0] != 'x' && tail[0] != 'X'
    ensures var s := Decimal(n) + tail; !(|s| >= 2 && s[0] == '0' && (s[1] == 'x' || s[1] == 'X'))
  {
    var d := Decimal(n);
    var s := d + tail;
    assert s[0] == d[0];
    if n < 10 {
      assert d == [DigitChar(n)];
      if |s| >= 2 && s[0] == '0' {
        assert n == 0;
        assert s[1] == tail[0];
      }
    } else {
      assert |d| >= 2;
      assert s[1] == d[1];
    }
  }

  /** Leading white space does not change what `parseInt` reads. */
  lemma ParseIntSkipsSpace(c: char, s: string)
    requires IsSpace(c)
    ensures ParseInt([c] + s) == ParseInt(s)
  {
    var t := [c] + s;
    assert t[0] == c && t[1..] == s;
    assert TrimStart(t) == TrimStart(s);
  }

  /** A leading minus sign negates the number read. */
  lemma ParseIntOfNegative(n: nat)
    ensures ParseInt("-" + Decimal(n)) == Finite(-(n as real))
  {
    ScanOfNegative(n);
    DecimalRadixValue(Decimal(n));
    DecimalValue(n);
  }

  /** A minus sign before a decimal numeral is read as a negative decimal digit run. */
  lemma ScanOfNegative(n: nat)
    ensures ScanInt("-" + Decimal(n)) == Scan(true, false, Decimal(n))
  {
    var d := Decimal(n);
    var s := "-" + d;
    assert TrimStart(s) == s;
    assert s[1..] == d;
    NotHexStart(d);
    DigitRunStops(d, "", false);
    assert d + "" == d;
  }

  /** A decimal numeral never starts with a `0x` prefix. */
  lemma NotHexStart(d: string)
    requires AllDigits(d)
    ensures !(|d| >= 2 && d[0] == '0' && (d[1] == 'x' || d[1] == 'X'))
  {
    if |d| >= 2 {
      assert IsDigit(d[1]);
    }
  }
}
