/**
 * The few JavaScript runtime notions the news endpoint relies on: values that
 * may be absent, truthiness of strings and the `||` fallback operator, thrown
 * values, and the decimal rendering of a number inside a template literal.
 */
module JsValues {

  /** A field that may be `undefined` or `null` in the upstream JSON. */
  datatype Option<+T> = None | Some(value: T)

  /** What a `throw` can carry: an `Error` object (with its message) or any other value. */
  datatype Thrown = ErrorObject(message: string) | OtherValue

  /** The outcome of an expression that may throw. */
  datatype Attempt<+T> = Done(value: T) | Threw(thrown: Thrown)

  /** A possibly absent string is truthy when it is present and not the empty string. */
  predicate Truthy(o: Option<string>) {
    o.Some? && o.value != ""
  }

  /** `o || fallback` for a possibly absent string. */
  function OrElse(o: Option<string>, fallback: string): (r: string)
    ensures Truthy(o) ==> r == o.value
    ensures !Truthy(o) ==> r == fallback
    ensures fallback != "" ==> r != ""
  {
    if Truthy(o) then o.value else fallback
  }

  predicate IsDigit(c: char) {
    '0' <= c <= '9'
  }

  function DigitChar(d: nat): (c: char)
    requires d < 10
    ensures IsDigit(c)
  {
    ('0' as int + d) as char
  }

  function DigitValue(c: char): (d: nat)
    requires IsDigit(c)
    ensures d < 10 && DigitChar(d) == c
  {
    (c as int - '0' as int) as nat
  }

  /**
   * How `${n}` renders a non-negative integer: its decimal digits, with no
   * leading zero unless the number is zero itself.
   */
  function NumberToString(n: nat): (r: string)
    ensures |r| >= 1
    ensures forall i :: 0 <= i < |r| ==> IsDigit(r[i])
    ensures r[0] == '0' ==> n == 0 && r == "0"
  {
    if n < 10 then [DigitChar(n)] else NumberToString(n / 10) + [DigitChar(n % 10)]
  }

  /** Reads a string of decimal digits back as a number. */
  function ParseDecimal(s: string): (n: nat)
    requires forall i :: 0 <= i < |s| ==> IsDigit(s[i])
  {
    if s == [] then 0 else ParseDecimal(s[..|s| - 1]) * 10 + DigitValue(s[|s| - 1])
  }

  /** The decimal rendering is read back as the same number. */
  lemma {:induction false} ParseNumberToString(n: nat)
    ensures ParseDecimal(NumberToString(n)) == n
  {
    var r := NumberToString(n);
    if n >= 10 {
      var front := NumberToString(n / 10);
      assert r[..|r| - 1] == front;
      assert DigitValue(r[|r| - 1]) == n % 10;
      ParseNumberToString(n / 10);
    }
  }

  /** Different numbers render differently. */
  lemma NumberToStringInjective(m: nat, n: nat)
    requires NumberToString(m) == NumberToString(n)
    ensures m == n
  {
    ParseNumberToString(m);
    ParseNumberToString(n);
  }
}
