/** Decimal conversions of Go's strconv package: `Itoa` and `ParseInt(s, 10, 64)`. */
module Decimal {
  import opened Types

  predicate IsDigit(c: char) {
    '0' <= c <= '9'
  }

  predicate AllDigits(s: string) {
    forall i :: 0 <= i < |s| ==> IsDigit(s[i])
  }

  function DigitChar(d: nat): (c: char)
    requires d < 10
    ensures IsDigit(c)
  {
    ('0' as int + d) as char
  }

  function DigitValue(c: char): nat
    requires IsDigit(c)
  {
    c as int - '0' as int
  }

  /** Decimal digits of n, most significant first, without leading zeros. */
  function NatToString(n: nat): (s: string)
    ensures 1 <= |s| && AllDigits(s)
    ensures s[0] == '0' ==> n == 0
  {
    if n < 10 then [DigitChar(n)] else NatToString(n / 10) + [DigitChar(n % 10)]
  }

  /** `strconv.Itoa`. */
  function Itoa(n: int): string {
    if n < 0 then "-" + NatToString(-n) else NatToString(n)
  }

  /** Value of a string of decimal digits, most significant first. */
  function DigitsValue(s: string): nat
    requires AllDigits(s)
  {
    if s == [] then 0 else DigitsValue(s[..|s| - 1]) * 10 + DigitValue(s[|s| - 1])
  }

  /**
   * `strconv.ParseInt(s, 10, 64)`: an optional sign, then at least one decimal digit,
   * and a value in the int64 range; `None` stands for the syntax and range errors.
   */
  function ParseInt(s: string): (r: Option<int>)
    ensures r.Some? ==> -MaxInt64 - 1 <= r.value <= MaxInt64
  {
    var negative := |s| > 0 && s[0] == '-';
    var digits := if |s| > 0 && (s[0] == '+' || s[0] == '-') then s[1..] else s;
    if |digits| == 0 || !AllDigits(digits) then None
    else
      var v: int := DigitsValue(digits);
      if negative then (if v > MaxInt64 + 1 then None else Some(-v))
      else (if v > MaxInt64 then None else Some(v))
  }

  lemma {:induction false} DigitsValueOfNatToString(n: nat)
    ensures DigitsValue(NatToString(n)) == n
  {
    if n >= 10 {
      var s := NatToString(n);
      assert s[..|s| - 1] == NatToString(n / 10);
      DigitsValueOfNatToString(n / 10);
    }
  }

  /** `ParseInt` undoes `Itoa` on the int64 range. */
  lemma ParseIntOfItoa(n: int)
    requires -MaxInt64 - 1 <= n <= MaxInt64
    ensures ParseInt(Itoa(n)) == Some(n)
  {
    var s := Itoa(n);
    if n < 0 {
      var t := NatToString(-n);
      assert s == "-" + t && s[0] == '-' && s[1..] == t;
      DigitsValueOfNatToString(-n);
    } else {
      assert s == NatToString(n) && IsDigit(s[0]);
      DigitsValueOfNatToString(n);
    }
  }

  /** A string of digits that does not start with a sign parses to its digit value. */
  lemma ParseIntOfDigits(s: string)
    requires 1 <= |s| && AllDigits(s) && DigitsValue(s) <= MaxInt64
    ensures ParseInt(s) == Some(DigitsValue(s))
  {
    assert IsDigit(s[0]);
  }
}
