/** The pieces of PHP's string/integer conversions that the shortcode handler
    relies on: `is_numeric`, the `(int)` cast and the decimal rendering of an
    integer produced by string concatenation. Only ASCII decimal integers are
    modelled (see README, "Left out"). */
module PhpStrings {

  predicate IsDigit(c: char) {
    '0' <= c <= '9'
  }

  function DigitValue(c: char): (v: nat)
    requires IsDigit(c)
    ensures v < 10
  {
    (c as int) - ('0' as int)
  }

  function DigitChar(v: nat): (c: char)
    requires v < 10
    ensures IsDigit(c) && DigitValue(c) == v
  {
    (('0' as int) + v) as char
  }

  predicate AllDigits(s: string) {
    forall i :: 0 <= i < |s| ==> IsDigit(s[i])
  }

  function Pow10(n: nat): (p: nat)
    ensures p >= 1
  {
    if n == 0 then 1 else 10 * Pow10(n - 1)
  }

  /** The value of a string of decimal digits, most significant digit first. */
  function DigitsValue(s: string): nat
    requires AllDigits(s)
    decreases |s|
  {
    if s == [] then 0 else 10 * DigitsValue(s[..|s| - 1]) + DigitValue(s[|s| - 1])
  }

  /** A string of k digits denotes a value below 10^k. */
  lemma {:induction false} DigitsValueBound(s: string)
    requires AllDigits(s)
    ensures DigitsValue(s) < Pow10(|s|)
  {
    if s != [] {
      var init := s[..|s| - 1];
      DigitsValueBound(init);
      assert DigitsValue(init) + 1 <= Pow10(|init|);
      calc {
        DigitsValue(s);
        10 * DigitsValue(init) + DigitValue(s[|s| - 1]);
      <= 10 * DigitsValue(init) + 9;
      < 10 * (DigitsValue(init) + 1);
      <= 10 * Pow10(|init|);
      }
    }
  }

  /** Decimal rendering of a non-negative PHP integer, as string
      concatenation with `.` produces it: no sign, no leading zero. */
  function NatToString(n: nat): (s: string)
    ensures |s| >= 1 && AllDigits(s)
    ensures s[0] == '0' <==> n == 0
    ensures n == 0 ==> s == "0"
    ensures |s| > 1 ==> s[0] != '0'
    decreases n
  {
    if n < 10 then [DigitChar(n)] else NatToString(n / 10) + [DigitChar(n % 10)]
  }

  /** Reading back the rendering of n gives n. */
  lemma {:induction false} NatToStringRoundTrip(n: nat)
    ensures DigitsValue(NatToString(n)) == n
  {
    var s := NatToString(n);
    if n < 10 {
      assert s[..|s| - 1] == [];
    } else {
      NatToStringRoundTrip(n / 10);
      assert s[..|s| - 1] == NatToString(n / 10);
    }
  }

  /** Distinct counts are rendered as distinct strings. */
  lemma NatToStringInjective(a: nat, b: nat)
    ensures NatToString(a) == NatToString(b) ==> a == b
  {
    NatToStringRoundTrip(a);
    NatToStringRoundTrip(b);
  }

  /** `is_numeric`, restricted to decimal integers: an optional sign followed
      by at least one digit, and nothing else. Equivalently, the digits the
      cast reads make up everything after the sign. */
  predicate IsNumeric(s: string)
    ensures IsNumeric(s) <==> |Unsigned(s)| > 0 && DigitPrefix(Unsigned(s)) == Unsigned(s)
  {
    if |s| > 0 && (s[0] == '+' || s[0] == '-') then |s| > 1 && AllDigits(s[1..])
    else |s| > 0 && AllDigits(s)
  }

  /** s without its leading sign, if it has one. */
  function Unsigned(s: string): string {
    if |s| > 0 && (s[0] == '+' || s[0] == '-') then s[1..] else s
  }

  /** The longest run of digits at the start of s. */
  function DigitPrefix(s: string): (p: string)
    ensures |p| <= |s| && p == s[..|p|] && AllDigits(p)
    ensures |p| < |s| ==> !IsDigit(s[|p|])
  {
    if s == [] || !IsDigit(s[0]) then [] else [s[0]] + DigitPrefix(s[1..])
  }

  /** The `(int)` cast of a string: an optional sign, then as many digits as
      follow it; a string with no digits after its sign casts to 0. */
  function IntCast(s: string): (v: int)
    ensures (Unsigned(s) == [] || !IsDigit(Unsigned(s)[0])) ==> v == 0
    ensures |s| > 0 && s[0] == '-' ==> v <= 0
    ensures (|s| == 0 || s[0] != '-') ==> v >= 0
  {
    var magnitude: int := DigitsValue(DigitPrefix(Unsigned(s)));
    if |s| > 0 && s[0] == '-' then -magnitude else magnitude
  }

  /** The digit run of digits followed by a non-digit is those digits. */
  lemma {:induction false} DigitPrefixStops(digits: string, rest: string)
    requires AllDigits(digits)
    requires rest == [] || !IsDigit(rest[0])
    ensures DigitPrefix(digits + rest) == digits
  {
    if digits == [] {
      assert digits + rest == rest;
    } else {
      assert (digits + rest)[0] == digits[0];
      assert (digits + rest)[1..] == digits[1..] + rest;
      DigitPrefixStops(digits[1..], rest);
      assert [digits[0]] + digits[1..] == digits;
    }
  }

  /** Prefixing a sign: Unsigned strips exactly it, and the string is
      negative exactly when the sign is "-". */
  lemma SignedSplit(sign: string, t: string)
    requires sign == "" || sign == "+" || sign == "-"
    requires |t| > 0 && IsDigit(t[0])
    ensures Unsigned(sign + t) == t
    ensures (sign + t)[0] == '-' <==> sign == "-"
  {
    if sign == "" {
      assert sign + t == t;
    } else {
      assert (sign + t)[0] == sign[0] && (sign + t)[1..] == t;
    }
  }

  /** The cast reads an optional sign and then stops at the first non-digit:
      "3rd" casts to 3, "-3rd" to -3 and "+3rd" to 3. */
  lemma CastStopsAtNonDigit(sign: string, digits: string, rest: string)
    requires sign == "" || sign == "+" || sign == "-"
    requires |digits| > 0 && AllDigits(digits)
    requires rest == [] || !IsDigit(rest[0])
    ensures IntCast(sign + digits + rest)
         == if sign == "-" then -(DigitsValue(digits) as int) else DigitsValue(digits)
  {
    var t := digits + rest;
    assert sign + digits + rest == sign + t;
    assert t[0] == digits[0];
    SignedSplit(sign, t);
    DigitPrefixStops(digits, rest);
  }

  /** On a numeric string the cast reads every character: the value is the
      signed value of all its digits. */
  lemma NumericCast(s: string)
    requires IsNumeric(s)
    ensures s[0] == '-' ==> IntCast(s) == -(DigitsValue(s[1..]) as int)
    ensures s[0] == '+' ==> IntCast(s) == DigitsValue(s[1..])
    ensures s[0] != '-' && s[0] != '+' ==> IntCast(s) == DigitsValue(s)
  {
  }

  /** A 4-character numeric string casts to a value in -999..9999. */
  lemma FourCharNumericRange(s: string)
    requires IsNumeric(s) && |s| == 4
    ensures -999 <= IntCast(s) <= 9999
  {
    NumericCast(s);
    if s[0] == '+' || s[0] == '-' {
      DigitsValueBound(s[1..]);
      assert Pow10(3) == 1000;
    } else {
      DigitsValueBound(s);
      assert Pow10(4) == 10000;
    }
  }
}
