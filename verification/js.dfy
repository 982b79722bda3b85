/** The JavaScript value semantics the love chest depends on: thrown errors,
    `parseInt` (section 19.2.5 of ECMA-262) and the decimal rendering of an
    integral number (Number::toString, section 6.1.6.1.20 of ECMA-262). */
module Js {

  /** A thrown JavaScript error, reduced to its `name` and `message`. */
  datatype JsError = JsError(name: string, message: string)

  /** A number produced by `parseInt`: an integer or NaN. */
  datatype JsNumber = Finite(value: int) | NaN

  /** The radix argument of `parseInt`: `10`, or not given at all. */
  datatype Radix = Ten | Absent

  const MaxSafeInteger: int := 9007199254740991

  /** Integers a JavaScript number holds exactly. */
  predicate IsSafeInteger(n: int) {
    -MaxSafeInteger <= n <= MaxSafeInteger
  }

  /** StrWhiteSpaceChar: the WhiteSpace and LineTerminator code points. */
  predicate IsWhiteSpace(c: char) {
    var k := c as int;
    || 0x09 <= k <= 0x0D
    || k == 0x20 || k == 0xA0 || k == 0x1680
    || 0x2000 <= k <= 0x200A
    || k == 0x2028 || k == 0x2029 || k == 0x202F || k == 0x205F
    || k == 0x3000 || k == 0xFEFF
  }

  /** The string without its leading white space. */
  function TrimStart(s: string): (t: string)
    ensures |t| <= |s| && t == s[|s| - |t|..]
    ensures |t| == 0 || !IsWhiteSpace(t[0])
    ensures forall i :: 0 <= i < |s| - |t| ==> IsWhiteSpace(s[i])
  {
    if |s| > 0 && IsWhiteSpace(s[0]) then TrimStart(s[1..]) else s
  }

  /** The value of an alphanumeric digit (0-9, a-z, A-Z); 36 for any other character. */
  function DigitValue(c: char): nat {
    if '0' <= c <= '9' then c as int - '0' as int
    else if 'a' <= c <= 'z' then c as int - 'a' as int + 10
    else if 'A' <= c <= 'Z' then c as int - 'A' as int + 10
    else 36
  }

  /** The longest prefix of `s` made of digits of the given base. */
  function DigitPrefix(s: string, base: nat): (z: string)
    ensures |z| <= |s| && z == s[..|z|]
    ensures forall i :: 0 <= i < |z| ==> DigitValue(z[i]) < base
    ensures |z| == |s| || DigitValue(s[|z|]) >= base
  {
    if |s| > 0 && DigitValue(s[0]) < base then [s[0]] + DigitPrefix(s[1..], base) else []
  }

  /** The value of a digit string, most significant digit first. */
  function DigitsValue(ds: string, base: nat): nat {
    if |ds| == 0 then 0 else DigitsValue(ds[..|ds| - 1], base) * base + DigitValue(ds[|ds| - 1])
  }

  /** `parseInt(s)` or `parseInt(s, 10)`: skip leading white space, read an
      optional sign, then read the magnitude; NaN if there is no digit. */
  function ParseInt(s: string, radix: Radix): (r: JsNumber)
  {
    var t := TrimStart(s);
    if |t| > 0 && t[0] == '-' then Negate(ParseMagnitude(t[1..], radix))
    else if |t| > 0 && t[0] == '+' then ParseMagnitude(t[1..], radix)
    else ParseMagnitude(t, radix)
  }

  /** The unsigned part of `parseInt`: strip a `0x`/`0X` prefix when no radix
      is given (switching to base 16), then take the longest run of digits. */
  function ParseMagnitude(u: string, radix: Radix): (r: JsNumber)
    ensures r.Finite? ==> r.value >= 0
  {
    var hex := radix == Absent && |u| >= 2 && u[0] == '0' && (u[1] == 'x' || u[1] == 'X');
    var base := if hex then 16 else 10;
    var z := DigitPrefix(if hex then u[2..] else u, base);
    if |z| == 0 then NaN else Finite(DigitsValue(z, base))
  }

  function Negate(x: JsNumber): JsNumber {
    match x
    case Finite(v) => Finite(-v)
    case NaN => NaN
  }

  /** The decimal digit character for `d`. */
  function DigitChar(d: nat): (c: char)
    requires d < 10
    ensures DigitValue(c) == d
  {
    "0123456789"[d]
  }

  /** The decimal digits of a natural number, without leading zeros. */
  function NatDigits(n: nat): (r: string)
    ensures |r| > 0
    ensures forall i :: 0 <= i < |r| ==> '0' <= r[i] <= '9'
    ensures r[0] == '0' ==> n == 0 && |r| == 1
  {
    if n < 10 then [DigitChar(n)] else NatDigits(n / 10) + [DigitChar(n % 10)]
  }

  /** `String(n)` for an integral number within the safe range: decimal, with
      a leading `-` for negative values. */
  function NumberToString(n: int): (r: string)
    requires IsSafeInteger(n)
  {
    if n < 0 then "-" + NatDigits(-n) else NatDigits(n)
  }

  lemma {:induction false} NatDigitsValue(n: nat)
    ensures DigitsValue(NatDigits(n), 10) == n
    decreases n
  {
    if n >= 10 {
      var ds := NatDigits(n);
      assert ds[..|ds| - 1] == NatDigits(n / 10);
      NatDigitsValue(n / 10);
    }
  }

  lemma {:induction false} DigitPrefixOfDigits(s: string)
    requires forall i :: 0 <= i < |s| ==> '0' <= s[i] <= '9'
    ensures DigitPrefix(s, 10) == s
    decreases |s|
  {
    if |s| > 0 {
      DigitPrefixOfDigits(s[1..]);
    }
  }

  /** Unsigned decimal digits without leading zeros parse to their value. */
  lemma ParseMagnitudeDigits(m: nat, radix: Radix)
    ensures ParseMagnitude(NatDigits(m), radix) == Finite(m)
  {
    var ds := NatDigits(m);
    assert !(|ds| >= 2 && ds[0] == '0');
    NatDigitsValue(m);
    DigitPrefixOfDigits(ds);
  }

  /** Writing a safe integer as a string and reading it back with `parseInt`,
      with or without radix 10, gives the integer back. */
  lemma ParseIntNumberToString(n: int, radix: Radix)
    requires IsSafeInteger(n)
    ensures ParseInt(NumberToString(n), radix) == Finite(n)
  {
    var s := NumberToString(n);
    assert !IsWhiteSpace(s[0]);
    assert TrimStart(s) == s;
    if n < 0 {
      assert s[1..] == NatDigits(-n);
      ParseMagnitudeDigits(-n, radix);
    } else {
      ParseMagnitudeDigits(n, radix);
    }
  }
}
