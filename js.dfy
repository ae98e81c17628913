/**
 * The parts of JavaScript's runtime behaviour that the route handlers rely
 * on: the loosely typed values a parsed request carries, truthiness (`!x`,
 * `x || null`), `Number.isInteger`, `String.prototype.trim` and
 * `String.prototype.toLowerCase`.
 */
module Js {
  import opened Text

  /** A JavaScript number: a real value, NaN, or one of the two infinities. */
  datatype JsNumber = NaN | PosInfinity | NegInfinity | Finite(value: real)

  /** A value read from a parsed request body, query string or cookie jar. */
  datatype JsValue =
    | Undefined
    | Null
    | Bool(b: bool)
    | Num(n: JsNumber)
    | Str(s: string)
    | Object            // arrays and plain objects; always truthy

  /** JavaScript truthiness: `false`, `0`, `NaN`, `""`, `null` and `undefined` are falsy. */
  predicate Truthy(v: JsValue) {
    match v
    case Undefined => false
    case Null => false
    case Bool(b) => b
    case Num(n) => !(n.NaN? || n == Finite(0.0))
    case Str(s) => s != ""
    case Object => true
  }

  /** `Number.isInteger(x)`: finite and without a fractional part. */
  predicate IsInteger(x: JsNumber) {
    x.Finite? && x.value.Floor as real == x.value
  }

  /** The integer an `IsInteger` number denotes. */
  function IntegerValue(x: JsNumber): (n: int)
    requires IsInteger(x)
    ensures n as real == x.value
  {
    x.value.Floor
  }

  /**
   * The characters `trim` removes: ECMAScript WhiteSpace (tab, vertical tab,
   * form feed, space, no-break space, zero-width no-break space and the
   * Space_Separator category) and LineTerminator (LF, CR, U+2028, U+2029).
   */
  predicate IsWhiteSpace(c: char) {
    var n := c as int;
    || n == 0x09 || n == 0x0A || n == 0x0B || n == 0x0C || n == 0x0D
    || n == 0x20 || n == 0xA0 || n == 0x1680 || (0x2000 <= n <= 0x200A)
    || n == 0x2028 || n == 0x2029 || n == 0x202F || n == 0x205F
    || n == 0x3000 || n == 0xFEFF
  }

  /** `String.prototype.trim`. */
  function Trim(s: string): (r: string)
    ensures r == [] || (!IsWhiteSpace(r[0]) && !IsWhiteSpace(r[|r| - 1]))
  {
    Strip(s, IsWhiteSpace)
  }

  /**
   * `String.prototype.toLowerCase`, restricted to the ASCII letters; the full
   * Unicode case mapping is not modelled.
   */
  function ToLowerCase(s: string): (r: string)
    ensures |r| == |s|
  {
    ToLowerAscii(s)
  }
}
