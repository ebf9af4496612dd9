/**
 * Decimal text and 32-bit ints as Java handles them: `Integer.parseInt(s)` and the
 * decimal rendering used when an int or a long is concatenated to a string.
 */
module JreNumbers {
  import opened JreText

  const INT_MIN: int := -0x8000_0000
  const INT_MAX: int := 0x7FFF_FFFF

  predicate IsDigit(c: char)
  {
    '0' <= c <= '9'
  }

  predicate AllDigits(s: string)
  {
    forall i :: 0 <= i < |s| ==> IsDigit(s[i])
  }

  /** The number that a string of decimal digits denotes, most significant first. */
  function DigitsValue(s: string): nat
    requires AllDigits(s)
  {
    if s == [] then 0 else DigitsValue(s[..|s| - 1]) * 10 + (s[|s| - 1] as int - '0' as int)
  }

  /** The decimal digits of `n`, without leading zeros. */
  function NatToDecimal(n: nat): (r: string)
    ensures r != [] && AllDigits(r)
    ensures DigitsValue(r) == n
  {
    var last := ('0' as int + n % 10) as char;
    if n < 10 then [last]
    else
      var prefix := NatToDecimal(n / 10);
      assert (prefix + [last])[..|prefix|] == prefix;
      prefix + [last]
  }

  /** `"" + i` for an int or a long: a minus sign for negative values, then the digits. */
  function IntToString(i: int): (r: string)
    ensures r != [] && NoChar(r, ' ') && NoChar(r, ':')
  {
    if i < 0 then "-" + NatToDecimal(-i) else NatToDecimal(i)
  }

  /** The text after an optional leading sign. */
  function Magnitude(s: string): string
  {
    if s != [] && (s[0] == '-' || s[0] == '+') then s[1..] else s
  }

  /** The value of a signed digit string: its digits' value, negated after a minus sign. */
  function SignedValue(s: string): int
    requires AllDigits(Magnitude(s))
  {
    if s != [] && s[0] == '-' then -(DigitsValue(Magnitude(s)) as int) else DigitsValue(Magnitude(s))
  }

  /**
   * `Integer.parseInt(s)`: an optional sign, then at least one digit, with a value
   * in the int range; anything else is a NumberFormatException (`None`).
   */
  function ParseInt(s: string): (r: Option<int>)
    ensures r.Some? ==> INT_MIN <= r.value <= INT_MAX
    ensures r.Some? ==> Magnitude(s) != [] && AllDigits(Magnitude(s)) && r.value == SignedValue(s)
    ensures Magnitude(s) != [] && AllDigits(Magnitude(s)) && INT_MIN <= SignedValue(s) <= INT_MAX ==> r.Some?
  {
    if s == [] then None
    else
      var digits := if s[0] == '-' || s[0] == '+' then s[1..] else s;
      if digits == [] || !AllDigits(digits) then None
      else
        var v: int := if s[0] == '-' then -(DigitsValue(digits) as int) else DigitsValue(digits);
        if INT_MIN <= v <= INT_MAX then Some(v) else None
  }

  /** Zeros in front of a digit string do not change its value. */
  lemma {:induction false} LeadingZeros(k: nat, d: string)
    requires AllDigits(d)
    ensures AllDigits(Repeat('0', k) + d) && DigitsValue(Repeat('0', k) + d) == DigitsValue(d)
    decreases |d| + k
  {
    var z := Repeat('0', k) + d;
    assert AllDigits(z) by {
      assert forall i :: 0 <= i < |z| ==> z[i] == if i < k then '0' else d[i - k];
    }
    if d != [] {
      var init := d[..|d| - 1];
      LeadingZeros(k, init);
      assert z[..|z| - 1] == Repeat('0', k) + init;
    } else if k > 0 {
      LeadingZeros(k - 1, d);
      assert z[..|z| - 1] == Repeat('0', k - 1) + d;
    }
  }

  /** A sign in front of digits is read as the sign, and the digits as the magnitude. */
  lemma SignedText(sign: string, m: string)
    requires sign == "" || sign == "-" || sign == "+"
    requires m != [] && AllDigits(m)
    ensures Magnitude(sign + m) == m
    ensures SignedValue(sign + m) == if sign == "-" then -(DigitsValue(m) as int) else DigitsValue(m)
  {
    if sign == "" {
      assert sign + m == m;
      assert IsDigit(m[0]);
    } else {
      assert (sign + m)[1..] == m;
    }
  }

  /**
   * A sign (a plus only before a value that is not negative) and leading
   * zeros in front of an int's decimal digits are accepted, and the text
   * parses to that int: "+05" and "007" are 5 and 7.
   */
  lemma ParseIntPadded(i: int, k: nat, plus: bool)
    requires INT_MIN <= i <= INT_MAX
    ensures var sign := if i < 0 then "-" else if plus then "+" else "";
      ParseInt(sign + (Repeat('0', k) + NatToDecimal(if i < 0 then -i else i))) == Some(i)
  {
    var sign := if i < 0 then "-" else if plus then "+" else "";
    var d := NatToDecimal(if i < 0 then -i else i);
    LeadingZeros(k, d);
    SignedText(sign, Repeat('0', k) + d);
  }

  /** Rendering an int and parsing it back gives the int again. */
  lemma ParseIntOfString(i: int)
    requires INT_MIN <= i <= INT_MAX
    ensures ParseInt(IntToString(i)) == Some(i)
  {
    var s := IntToString(i);
    if i < 0 {
      assert s[1..] == NatToDecimal(-i);
    }
  }
}
