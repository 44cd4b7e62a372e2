/**
 * The few JavaScript value shapes the analysis reads from loosely typed JSON
 * records, together with JavaScript's truthiness and `isNaN` on them.
 */
module JsValues {

  /** A JavaScript number as a formatter sees it: finite (kept exactly as a real), NaN or infinite. */
  datatype Number = Finite(value: real) | NaN | PosInfinity | NegInfinity {

    /** `!x` in JavaScript: 0 and NaN are the falsy numbers. */
    predicate Falsy() {
      this == Finite(0.0) || NaN?
    }

    /** `x >= 0` in JavaScript (every comparison with NaN is false). */
    predicate AtLeastZero() {
      (Finite? && value >= 0.0) || PosInfinity?
    }

    /** `x < 0` in JavaScript. */
    predicate Negative() {
      (Finite? && value < 0.0) || NegInfinity?
    }

    /** `x < t` in JavaScript for a finite threshold `t`. */
    predicate Below(t: real) {
      (Finite? && value < t) || NegInfinity?
    }

    /** `Math.abs(x) >= t` in JavaScript for a finite threshold `t`. */
    predicate MagnitudeAtLeast(t: real) {
      (Finite? && (value >= t || -value >= t)) || PosInfinity? || NegInfinity?
    }
  }

  /**
   * A numeric property of a JSON record: missing, `null`, NaN or a finite
   * number. Infinite readings, which JSON cannot carry, are not representable.
   */
  datatype Reading = Undefined | Null | NotANumber | Num(amount: real) {

    /** `typeof x === "number"`: NaN is a number too. */
    predicate IsNumber() {
      NotANumber? || Num?
    }

    /** `!!x`: only a non-zero number is truthy. */
    predicate Truthy() {
      Num? && amount != 0.0
    }

    /** `isNaN(x)`, which first converts with `Number(x)`: `Number(undefined)` is NaN, `Number(null)` is 0. */
    predicate IsNaN() {
      Undefined? || NotANumber?
    }
  }

  /** A string property of a JSON record: missing, `null` or a string. */
  datatype Text = Absent | NullText | Str(s: string) {

    /** `!!x`: only a non-empty string is truthy. */
    predicate Truthy() {
      Str? && s != ""
    }

    /** `x || fallback` for a string fallback. */
    function Or(fallback: string): (r: string)
      ensures Truthy() ==> r == s
      ensures !Truthy() ==> r == fallback
    {
      if Truthy() then s else fallback
    }

    /** `${x}` in a template literal, which is also how `x` becomes a property key. */
    function Interpolate(): (r: string)
      ensures Str? ==> r == s
    {
      match this
      case Absent => "undefined"
      case NullText => "null"
      case Str(v) => v
    }
  }
}
