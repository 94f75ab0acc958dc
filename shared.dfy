/**
 * Small value-level helpers used by both lists: an optional value (Rust's
 * `Option<T>`), element-wise mapping (`Iterator::map`), joining strings with a
 * separator (`[String]::join`) and the decimal rendering of integers (the
 * `Display` of Rust's integer types, used only by the client scenarios).
 */
module Shared {

  datatype Option<+T> = None | Some(value: T)

  /** `s` with `f` applied to every element, in order. */
  function Map<A, B>(f: A -> B, s: seq<A>): (r: seq<B>)
    ensures |r| == |s|
    ensures forall i :: 0 <= i < |s| ==> r[i] == f(s[i])
  {
    if s == [] then [] else [f(s[0])] + Map(f, s[1..])
  }

  /** The summed lengths of `parts`. */
  function TotalLength(parts: seq<string>): nat
  {
    if parts == [] then 0 else |parts[0]| + TotalLength(parts[1..])
  }

  /**
   * The parts, in order, with `sep` between consecutive parts and nowhere
   * else: empty for no parts, the first part up front, and one separator
   * fewer than there are parts.
   */
  function Join(parts: seq<string>, sep: string): (r: string)
    ensures parts == [] ==> r == ""
    ensures parts != [] ==> parts[0] <= r && |r| == TotalLength(parts) + (|parts| - 1) * |sep|
  {
    if |parts| == 0 then ""
    else if |parts| == 1 then parts[0]
    else parts[0] + sep + Join(parts[1..], sep)
  }

  /** The character of decimal digit `d`. */
  function Digit(d: nat): (c: char)
    requires d < 10
    ensures '0' <= c <= '9' && c as int - '0' as int == d
  {
    ('0' as int + d) as char
  }

  /** The number a string of decimal digits denotes, most significant digit first. */
  function DigitsValue(s: string): nat
    requires forall i :: 0 <= i < |s| ==> '0' <= s[i] <= '9'
  {
    if s == [] then 0 else DigitsValue(s[..|s| - 1]) * 10 + (s[|s| - 1] as int - '0' as int)
  }

  /** Decimal digits of `n`, most significant first, without leading zeros. */
  function Natural(n: nat): (s: string)
    ensures |s| >= 1
    ensures forall i :: 0 <= i < |s| ==> '0' <= s[i] <= '9'
    ensures DigitsValue(s) == n
    ensures |s| == 1 <==> n < 10
    ensures |s| > 1 ==> s[0] != '0'
    decreases n
  {
    if n < 10 then [Digit(n)]
    else
      var front := Natural(n / 10);
      assert (front + [Digit(n % 10)])[..|front|] == front;
      front + [Digit(n % 10)]
  }

  /**
   * Decimal rendering of an integer: a '-' exactly for negative values,
   * followed by the digits of its magnitude.
   */
  function Decimal(n: int): (s: string)
    ensures |s| >= 1 && (s[0] == '-' <==> n < 0)
    ensures var digits := if n < 0 then s[1..] else s;
      digits != [] && (forall i :: 0 <= i < |digits| ==> '0' <= digits[i] <= '9')
      && (|digits| > 1 ==> digits[0] != '0')
      && DigitsValue(digits) == (if n < 0 then -n else n)
  {
    if n < 0 then "-" + Natural(-n) else Natural(n)
  }
}
