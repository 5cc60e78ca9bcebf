/**
  The small part of the JavaScript value model that the file handle depends on:
  the kinds of argument a caller can pass, truthiness (`if (!x)`), the `typeof`
  tests, string conversion (`"text" + x`) and the two ways a call can end
  (it returns a value or it throws).
 */
module JsValues {

  /** `Number.MAX_SAFE_INTEGER`, 2^53 - 1: up to this magnitude every
      integer is exactly a JavaScript number, and converting it to a string
      prints its exact decimal digits. */
  const MAX_SAFE_INTEGER := 9_007_199_254_740_991

  /** The integer numbers the model represents: the safe integers. */
  type SafeInt = n: int | -MAX_SAFE_INTEGER <= n <= MAX_SAFE_INTEGER

  /** A JavaScript value as far as the file handle can tell values apart.
      Numbers are safe integers; `Func` carries the
      function's source text, which is what converting a function to a
      string yields; `Obj` is a plain object. */
  datatype Value =
    | Undefined
    | Null
    | Bool(b: bool)
    | Num(n: SafeInt)
    | Str(s: string)
    | Func(source: string)
    | Obj

  /** `!!v`: the falsy values are undefined, null, false, 0 and "". */
  predicate Truthy(v: Value) {
    match v
    case Undefined => false
    case Null => false
    case Bool(b) => b
    case Num(n) => n != 0
    case Str(s) => s != ""
    case Func(_) => true
    case Obj => true
  }

  /** `typeof v == 'string'` */
  predicate IsString(v: Value) {
    v.Str?
  }

  /** `typeof v == 'function'` */
  predicate IsFunction(v: Value) {
    v.Func?
  }

  function DigitChar(d: nat): (c: char)
    requires d < 10
    ensures '0' <= c <= '9'
    ensures c as int - '0' as int == d
  {
    ('0' as int + d) as char
  }

  predicate AllDigits(r: string) {
    forall k :: 0 <= k < |r| ==> '0' <= r[k] <= '9'
  }

  /** The number a string of decimal digits denotes (0 for the empty string). */
  function DecimalValue(digits: string): nat
    requires AllDigits(digits)
  {
    if |digits| == 0 then 0
    else DecimalValue(digits[..|digits| - 1]) * 10 + (digits[|digits| - 1] as int - '0' as int)
  }

  /** Decimal digits of a natural number, most significant first, without
      leading zeros. */
  function NatToDecimal(n: nat): (r: string)
    ensures |r| > 0
    ensures AllDigits(r)
    ensures r[0] == '0' ==> n == 0 && |r| == 1
  {
    if n < 10 then [DigitChar(n)] else NatToDecimal(n / 10) + [DigitChar(n % 10)]
  }

  /** Reading back the digits of `n` gives `n`. */
  lemma {:induction false} DecimalRoundTrip(n: nat)
    ensures DecimalValue(NatToDecimal(n)) == n
  {
    var r := NatToDecimal(n);
    if n >= 10 {
      DecimalRoundTrip(n / 10);
      assert r[..|r| - 1] == NatToDecimal(n / 10);
    }
  }

  /** The string a value turns into when it is concatenated with a string. */
  function ToString(v: Value): (r: string)
    ensures v.Str? ==> r == v.s
    ensures v.Num? ==> |r| > 0 && (r[0] == '-' <==> v.n < 0)
    ensures v.Num? ==>
      var digits := if v.n < 0 then r[1..] else r;
      && |digits| > 0
      && AllDigits(digits)
      && DecimalValue(digits) == (if v.n < 0 then -v.n else v.n)
      && (digits[0] == '0' ==> v.n == 0 && |digits| == 1)
  {
    match v
    case Undefined => "undefined"
    case Null => "null"
    case Bool(b) => if b then "true" else "false"
    case Num(n) =>
      var m := if n < 0 then -n else n;
      DecimalRoundTrip(m);
      if n < 0 then
        assert ("-" + NatToDecimal(m))[1..] == NatToDecimal(m);
        "-" + NatToDecimal(m)
      else
        NatToDecimal(m)
    case Str(s) => s
    case Func(source) => source
    case Obj => "[object Object]"
  }

  /** What a `throw` throws: an `Error` built with a message, or the
      `TypeError` the engine raises when a non-function is called. */
  datatype Exception = Error(message: string) | TypeError

  /** How a call ends: it returns a value, or it throws. */
  datatype Completion<T> = Normal(value: T) | Throw(exception: Exception)
}
