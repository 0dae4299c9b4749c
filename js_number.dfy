/** The three JavaScript number conversions the validators rely on: `Number(string)`
    (ECMAScript StringToNumber), `Number.prototype.toString()` (Number::toString) and
    `parseInt(string, 10)`. A finite number is represented by the shortest decimal
    that denotes it, `mantissa * 10^exponent`; binary rounding is not modelled. */
module JsNumber {
  import opened Strings
  import opened Wrappers

  datatype Decimal = Decimal(mantissa: int, exponent: int)

  datatype Number = Finite(d: Decimal) | Infinity(negative: bool) | NaN

  function FromInt(n: int): Number {
    Finite(Decimal(n, 0))
  }

  /** `mantissa * 10^exponent` has no fractional part. */
  predicate IsWhole(d: Decimal) {
    d.exponent >= 0 || d.mantissa % Pow10(-d.exponent) == 0
  }

  /** `!isNaN(x) && x % 1 === 0`: infinities give NaN under `% 1`. */
  predicate IsInteger(x: Number) {
    x.Finite? && IsWhole(x.d)
  }

  // ---------------------------------------------------------------------------
  // Relational comparison of an integer with a number

  /** `mantissa * 10^exponent < n`, compared without leaving the integers. */
  predicate DecimalBelow(d: Decimal, n: int) {
    if d.exponent >= 0 then d.mantissa * Pow10(d.exponent) < n
    else d.mantissa < n * Pow10(-d.exponent)
  }

  /** `mantissa * 10^exponent > n`. */
  predicate DecimalAbove(d: Decimal, n: int) {
    if d.exponent >= 0 then d.mantissa * Pow10(d.exponent) > n
    else d.mantissa > n * Pow10(-d.exponent)
  }

  /** `n > x`: a comparison with NaN is false and the infinities compare by sign. */
  predicate IntGreater(n: int, x: Number) {
    match x
    case NaN => false
    case Infinity(negative) => negative
    case Finite(d) => DecimalBelow(d, n)
  }

  /** `n < x`. */
  predicate IntLess(n: int, x: Number) {
    match x
    case NaN => false
    case Infinity(negative) => !negative
    case Finite(d) => DecimalAbove(d, n)
  }

  /** On an integer-valued number the comparisons are those of the integers. */
  lemma CompareWithInteger(n: int, m: int)
    ensures IntGreater(n, FromInt(m)) <==> n > m
    ensures IntLess(n, FromInt(m)) <==> n < m
  {
  }

  /** A number is never both below and above the same integer, and a larger integer
      stays above a number a smaller one is above. */
  lemma {:induction false} CompareMonotone(n: int, n': int, x: Number)
    requires n <= n'
    ensures !(IntGreater(n, x) && IntLess(n, x))
    ensures IntGreater(n, x) ==> IntGreater(n', x)
    ensures IntLess(n', x) ==> IntLess(n, x)
  {
    if x.Finite? && x.d.exponent < 0 {
      var p := Pow10(-x.d.exponent);
      MultiplyMonotone(n, n', p);
    }
  }

  lemma MultiplyMonotone(n: int, n': int, p: nat)
    requires n <= n'
    ensures n * p <= n' * p
  {
    assert n' * p - n * p == (n' - n) * p;
  }

  // ---------------------------------------------------------------------------
  // Number::toString

  /** Strips trailing zeros from the mantissa, keeping the value. */
  function Normalize(m: nat, e: int): (r: (nat, int))
    requires m > 0
    ensures r.0 > 0 && r.0 % 10 != 0
    ensures r.1 >= e && r.0 * Pow10(r.1 - e) == m
    decreases m
  {
    if m % 10 == 0 then
      var r := Normalize(m / 10, e + 1);
      assert Pow10(r.1 - e) == 10 * Pow10(r.1 - e - 1);
      assert r.0 * Pow10(r.1 - e) == 10 * (r.0 * Pow10(r.1 - (e + 1)));
      r
    else (m, e)
  }

  /** The text of a finite positive number, following steps 5 to 10 of Number::toString. */
  function PositiveToString(m: nat, e: int): string
    requires m > 0
  {
    var (s, e') := Normalize(m, e);
    var digits := NatToString(s);
    var k := |digits|;
    var n := k + e';
    if k <= n <= 21 then digits + Zeros(n - k)
    else if 0 < n <= 21 then digits[..n] + "." + digits[n..]
    else if -6 < n <= 0 then "0." + Zeros(-n) + digits
    else
      var exp := n - 1;
      digits[..1] + (if k == 1 then "" else "." + digits[1..]) + "e"
      + (if exp >= 0 then "+" + NatToString(exp) else "-" + NatToString(-exp))
  }

  /** `x.toString()`, equivalently `String(x)` and template interpolation. */
  function ToString(x: Number): string {
    match x
    case NaN => "NaN"
    case Infinity(negative) => if negative then "-Infinity" else "Infinity"
    case Finite(d) =>
      if d.mantissa == 0 then "0"
      else if d.mantissa < 0 then "-" + PositiveToString(-d.mantissa, d.exponent)
      else PositiveToString(d.mantissa, d.exponent)
  }

  /** An integer below `10^21` in magnitude prints as its plain decimal notation. */
  lemma ToStringOfInteger(n: int)
    requires -(Pow10(21) as int) < n < Pow10(21)
    ensures ToString(FromInt(n)) == IntToString(n)
  {
    if n != 0 {
      var a := if n < 0 then -n else n;
      PositiveToStringOfInteger(a);
    }
  }

  lemma PositiveToStringOfInteger(a: nat)
    requires 0 < a < Pow10(21)
    ensures PositiveToString(a, 0) == NatToString(a)
  {
    var (s, z) := Normalize(a, 0);
    assert z >= 0 && s * Pow10(z) == a;
    NatToStringShift(s, z);
    var digits := NatToString(s);
    assert NatToString(a) == digits + Zeros(z);
    NatToStringLength(a, 21);
  }

  // ---------------------------------------------------------------------------
  // StringToNumber, as applied by Number(string) and isNaN(string)

  /** WhiteSpace and LineTerminator code points, which StringToNumber and parseInt skip. */
  predicate IsStrWhiteSpaceChar(c: char) {
    c == '\t' || c == '\U{B}' || c == '\U{C}' || c == ' ' || c == '\U{A0}' || c == '\U{FEFF}'
    || c == '\U{1680}' || '\U{2000}' <= c <= '\U{200A}' || c == '\U{202F}' || c == '\U{205F}'
    || c == '\U{3000}' || IsLineTerminator(c)
  }

  function TrimStart(s: string): (t: string)
    ensures |t| <= |s| && t == s[|s| - |t|..]
    ensures t != [] ==> !IsStrWhiteSpaceChar(t[0])
  {
    if s != [] && IsStrWhiteSpaceChar(s[0]) then TrimStart(s[1..]) else s
  }

  function TrimEnd(s: string): (t: string)
    ensures |t| <= |s| && t == s[..|t|]
    ensures t != [] ==> !IsStrWhiteSpaceChar(t[|t| - 1])
  {
    if s != [] && IsStrWhiteSpaceChar(s[|s| - 1]) then TrimEnd(s[..|s| - 1]) else s
  }

  /** The value of an ExponentPart (`e`/`E`, an optional sign, digits), or 0 for none. */
  function ExponentPart(s: string): Option<int> {
    if s == [] then Some(0)
    else if s[0] != 'e' && s[0] != 'E' then None
    else
      var r := s[1..];
      var negative := r != [] && r[0] == '-';
      var digits := if r != [] && (r[0] == '-' || r[0] == '+') then r[1..] else r;
      if digits != [] && AllDigits(digits) then
        var v: int := DigitsValue(digits);
        Some(if negative then -v else v)
      else None
  }

  /** StrUnsignedDecimalLiteral without `Infinity`: `digits [. digits] [exp]` or `. digits [exp]`. */
  function UnsignedDecimal(u: string): Option<Decimal> {
    var i := LeadingDigitCount(u);
    var intPart := u[..i];
    var afterInt := u[i..];
    var hasPoint := afterInt != [] && afterInt[0] == '.';
    var afterPoint := if hasPoint then afterInt[1..] else afterInt;
    var j := if hasPoint then LeadingDigitCount(afterPoint) else 0;
    var frac := afterPoint[..j];
    if |intPart| + |frac| == 0 then None
    else
      match ExponentPart(afterPoint[j..])
      case None => None
      case Some(exp) => Some(Decimal(DigitsValue(intPart + frac), exp - |frac|))
  }

  /** StrNumericLiteral: a signed decimal, `Infinity`, or a `0x`/`0o`/`0b` integer. */
  function NumericLiteral(t: string): Number
    requires t != []
  {
    if |t| >= 3 && t[0] == '0' && t[1] in "xXoObB" then
      var radix := if t[1] in "xX" then 16 else if t[1] in "oO" then 8 else 2;
      var digits := t[2..];
      if AllRadixDigits(digits, radix) then
        Finite(Decimal(RadixValue(digits, radix), 0))
      else NaN
    else
      var negative := t[0] == '-';
      var u := if t[0] == '-' || t[0] == '+' then t[1..] else t;
      if u == "Infinity" then Infinity(negative)
      else
        match UnsignedDecimal(u)
        case None => NaN
        case Some(d) => Finite(if negative then Decimal(-d.mantissa, d.exponent) else d)
  }

  /** `Number(s)`: surrounding white space is ignored and a blank string is 0. */
  function StringToNumber(s: string): Number {
    var t := TrimEnd(TrimStart(s));
    if t == [] then FromInt(0) else NumericLiteral(t)
  }

  /** The notation of every integer reads back as that integer. */
  lemma StringToNumberOfInteger(n: int)
    ensures StringToNumber(IntToString(n)) == FromInt(n)
  {
    var s := IntToString(n);
    var a: nat := if n < 0 then -n else n;
    var digits := NatToString(a);
    NoWhiteSpaceInNumeral(n);
    assert TrimEnd(TrimStart(s)) == s;
    UnsignedDecimalOfDigits(digits);
    NatToStringValue(a);
    if n < 0 {
      assert s == "-" + digits && s[1..] == digits;
      assert NumericLiteral(s) == Finite(Decimal(n, 0));
    } else {
      assert s == digits;
      assert NumericLiteral(s) == Finite(Decimal(a, 0));
    }
  }

  lemma UnsignedDecimalOfDigits(d: string)
    requires |d| >= 1 && AllDigits(d)
    ensures UnsignedDecimal(d) == Some(Decimal(DigitsValue(d), 0))
  {
    AllDigitsLeadingCount(d);
    assert d[..|d|] == d && d[|d|..] == [];
    assert d + [] == d;
  }

  lemma NoWhiteSpaceInNumeral(n: int)
    ensures TrimStart(IntToString(n)) == IntToString(n)
    ensures TrimEnd(IntToString(n)) == IntToString(n)
  {
    var s := IntToString(n);
    var digits := NatToString(if n < 0 then -n else n);
    assert s == digits || s == "-" + digits;
    assert s[|s| - 1] == digits[|digits| - 1];
    assert s[0] == '-' || s[0] == digits[0];
    NumeralCharIsNotWhiteSpace(s[0]);
    NumeralCharIsNotWhiteSpace(s[|s| - 1]);
  }

  lemma NumeralCharIsNotWhiteSpace(c: char)
    requires IsDigit(c) || c == '-'
    ensures !IsStrWhiteSpaceChar(c)
  {
  }

  lemma {:induction false} AllDigitsLeadingCount(s: string)
    requires AllDigits(s)
    ensures LeadingDigitCount(s) == |s|
  {
    if s != [] {
      AllDigitsLeadingCount(s[1..]);
    }
  }

  // ---------------------------------------------------------------------------
  // parseInt(string, 10)

  /** `parseInt(s, 10)`: the longest run of decimal digits after leading white space
      and an optional sign; `None` stands for NaN. */
  function ParseInt(s: string): Option<int> {
    var t := TrimStart(s);
    if t != [] && t[0] == '-' then
      match LeadingInteger(t[1..])
      case None => None
      case Some(v) => Some(-v)
    else if t != [] && t[0] == '+' then LeadingInteger(t[1..])
    else LeadingInteger(t)
  }

  /** The value of the leading run of decimal digits of `u`, if there is one. */
  function LeadingInteger(u: string): Option<int> {
    var k := LeadingDigitCount(u);
    if k == 0 then None else Some(DigitsValue(u[..k]) as int)
  }

  /** parseInt reads the leading integer and ignores whatever follows its last digit. */
  lemma ParseIntPrefix(n: int, rest: string)
    requires rest == [] || !IsDigit(rest[0])
    ensures ParseInt(IntToString(n) + rest) == Some(n)
  {
    var a: nat := if n < 0 then -n else n;
    var digits := NatToString(a);
    NatToStringValue(a);
    LeadingIntegerOfDigits(digits, rest);
    if n < 0 {
      NegativeNotation(n, rest);
      ParseIntOfNegativeNumeral(IntToString(n) + rest, digits + rest);
    } else {
      assert IntToString(n) + rest == digits + rest;
      assert digits[0] == (digits + rest)[0];
      ParseIntOfUnsignedNumeral(digits + rest);
    }
  }

  lemma NegativeNotation(n: int, rest: string)
    requires n < 0
    ensures var s := IntToString(n) + rest; s != [] && s[0] == '-' && s[1..] == NatToString(-n) + rest
  {
    assert IntToString(n) == "-" + NatToString(-n);
  }

  /** A string that starts with a digit is read from its first character. */
  lemma ParseIntOfUnsignedNumeral(s: string)
    requires s != [] && IsDigit(s[0])
    ensures ParseInt(s) == LeadingInteger(s)
  {
    TrimStartNumeral(s);
  }

  /** A string that starts with `-` is read as the negated integer after the sign. */
  lemma ParseIntOfNegativeNumeral(s: string, u: string)
    requires s != [] && s[0] == '-' && s[1..] == u
    ensures LeadingInteger(u).Some? ==> ParseInt(s) == Some(-LeadingInteger(u).value)
  {
    TrimStartNumeral(s);
  }

  lemma LeadingIntegerOfDigits(digits: string, rest: string)
    requires |digits| >= 1 && AllDigits(digits)
    requires rest == [] || !IsDigit(rest[0])
    ensures LeadingInteger(digits + rest) == Some(DigitsValue(digits) as int)
  {
    var u := digits + rest;
    LeadingDigitsOfNumeral(digits, rest);
    assert u[..|digits|] == digits;
  }

  lemma TrimStartNumeral(u: string)
    requires u != [] && (IsDigit(u[0]) || u[0] == '-')
    ensures TrimStart(u) == u
  {
    assert !IsStrWhiteSpaceChar(u[0]);
  }

  lemma {:induction false} LeadingDigitsOfNumeral(digits: string, rest: string)
    requires AllDigits(digits)
    requires rest == [] || !IsDigit(rest[0])
    ensures LeadingDigitCount(digits + rest) == |digits|
  {
    if digits != [] {
      assert (digits + rest)[1..] == digits[1..] + rest;
      LeadingDigitsOfNumeral(digits[1..], rest);
    }
  }
}
