/** Character classes, decimal digit strings and splitting on a separator: the
    string primitives the validators and the JavaScript number conversions use. */
module Strings {

  predicate IsDigit(c: char) { '0' <= c <= '9' }

  predicate AllDigits(s: string) { forall i | 0 <= i < |s| :: IsDigit(s[i]) }

  predicate IsHexDigit(c: char) { IsDigit(c) || 'a' <= c <= 'f' || 'A' <= c <= 'F' }

  /** The line terminators of ECMAScript, which `.` in a regular expression does not match. */
  predicate IsLineTerminator(c: char) {
    c == '\n' || c == '\r' || c == '\U{2028}' || c == '\U{2029}'
  }

  predicate IsAsciiLetter(c: char) { 'a' <= c <= 'z' || 'A' <= c <= 'Z' }

  /** The digit value of `0`-`9`, `a`-`z` and `A`-`Z` (10 to 35), as used for radixes up to 36. */
  function AlnumValue(c: char): (v: nat)
    requires IsDigit(c) || IsAsciiLetter(c)
    ensures v < 36
    ensures IsDigit(c) <==> v < 10
  {
    if IsDigit(c) then c as int - '0' as int
    else if 'a' <= c <= 'z' then c as int - 'a' as int + 10
    else c as int - 'A' as int + 10
  }

  /** `c` is a digit of the given radix. */
  predicate IsRadixDigit(c: char, radix: nat) {
    (IsDigit(c) || IsAsciiLetter(c)) && AlnumValue(c) < radix
  }

  predicate AllRadixDigits(s: string, radix: nat) {
    forall i | 0 <= i < |s| :: IsRadixDigit(s[i], radix)
  }

  /** The value of a numeral in the given radix, most significant digit first. */
  function RadixValue(s: string, radix: nat): nat
    requires AllRadixDigits(s, radix)
  {
    if s == [] then 0
    else
      RadixDigitsInit(s, radix);
      var v := RadixValue(s[..|s| - 1], radix);
      var d := AlnumValue(s[|s| - 1]);
      NatProduct(v, radix);
      v * radix + d
  }

  lemma RadixDigitsInit(s: string, radix: nat)
    requires s != [] && AllRadixDigits(s, radix)
    ensures AllRadixDigits(s[..|s| - 1], radix) && IsRadixDigit(s[|s| - 1], radix)
  {
    var init := s[..|s| - 1];
    assert forall i | 0 <= i < |init| :: init[i] == s[i];
  }

  lemma NatProduct(a: nat, b: nat)
    ensures a * b >= 0
  {
  }

  function DigitChar(d: nat): (c: char)
    requires d < 10
    ensures IsDigit(c) && c as int - '0' as int == d
  {
    (48 + d) as char
  }

  function DigitVal(c: char): (d: nat)
    requires IsDigit(c)
    ensures d < 10 && DigitChar(d) == c
  {
    c as int - '0' as int
  }

  function Pow10(k: nat): (p: nat)
    ensures p >= 1
  {
    if k == 0 then 1 else 10 * Pow10(k - 1)
  }

  /** `k` copies of the digit zero. */
  function Zeros(k: nat): (z: string)
    ensures |z| == k && forall i | 0 <= i < k :: z[i] == '0'
  {
    if k == 0 then "" else Zeros(k - 1) + "0"
  }

  /** The value of a string of decimal digits, most significant first. */
  function DigitsValue(s: string): nat
    requires AllDigits(s)
  {
    if s == [] then 0 else DigitsValue(s[..|s| - 1]) * 10 + DigitVal(s[|s| - 1])
  }

  /** The canonical decimal notation of `n`: no leading zero unless `n` is zero. */
  function NatToString(n: nat): (s: string)
    ensures |s| >= 1 && AllDigits(s)
    ensures s[0] == '0' ==> n == 0 && |s| == 1
  {
    if n < 10 then [DigitChar(n)] else NatToString(n / 10) + [DigitChar(n % 10)]
  }

  function IntToString(n: int): (s: string)
    ensures |s| >= 1
  {
    if n < 0 then "-" + NatToString(-n) else NatToString(n)
  }

  /** A string of digits without a superfluous leading zero. */
  predicate IsCanonicalNumeral(s: string) {
    |s| >= 1 && AllDigits(s) && (s[0] == '0' ==> |s| == 1)
  }

  lemma {:induction false} NatToStringValue(n: nat)
    ensures DigitsValue(NatToString(n)) == n
  {
    if n >= 10 {
      NatToStringValue(n / 10);
      var s := NatToString(n);
      assert s[..|s| - 1] == NatToString(n / 10);
    }
  }

  lemma {:induction false} DigitsValuePrefix(s: string)
    requires |s| >= 1 && AllDigits(s)
    ensures AllDigits(s[..|s| - 1])
    ensures DigitsValue(s) == DigitsValue(s[..|s| - 1]) * 10 + DigitVal(s[|s| - 1])
  {
  }

  lemma {:induction false} DigitsValueLeadingDigit(s: string)
    requires |s| >= 2 && AllDigits(s) && s[0] != '0'
    ensures DigitsValue(s) >= Pow10(|s| - 1)
  {
    var p := s[..|s| - 1];
    if |s| == 2 {
      assert p == [s[0]];
      assert DigitsValue(p) == DigitVal(s[0]);
    } else {
      DigitsValueLeadingDigit(p);
    }
  }

  lemma {:induction false} DigitsValueBound(s: string)
    requires AllDigits(s)
    ensures DigitsValue(s) < Pow10(|s|)
  {
    if s != [] {
      DigitsValueBound(s[..|s| - 1]);
    }
  }

  /** A canonical numeral is exactly the notation of its value. */
  lemma {:induction false} CanonicalNumeralRoundTrip(s: string)
    requires IsCanonicalNumeral(s)
    ensures NatToString(DigitsValue(s)) == s
  {
    var n := DigitsValue(s);
    if |s| == 1 {
      assert s[..|s| - 1] == [];
      assert DigitsValue(s[..|s| - 1]) == 0;
      assert n == DigitVal(s[0]);
    } else {
      var p := s[..|s| - 1];
      DigitsValueLeadingDigit(s);
      assert n >= 10 by {
        assert Pow10(|s| - 1) >= 10 by { Pow10Monotone(1, |s| - 1); }
      }
      assert IsCanonicalNumeral(p) by { assert p[0] == s[0]; }
      CanonicalNumeralRoundTrip(p);
      assert n / 10 == DigitsValue(p) && n % 10 == DigitVal(s[|s| - 1]);
      assert s == p + [s[|s| - 1]];
    }
  }

  lemma {:induction false} Pow10Monotone(i: nat, j: nat)
    requires i <= j
    ensures Pow10(i) <= Pow10(j)
  {
    if i < j {
      Pow10Monotone(i, j - 1);
    }
  }

  /** The notation of `n` has at most `k` digits exactly when `n < 10^k`. */
  lemma {:induction false} NatToStringLength(n: nat, k: nat)
    requires k >= 1
    ensures |NatToString(n)| <= k <==> n < Pow10(k)
  {
    var s := NatToString(n);
    NatToStringValue(n);
    if |s| <= k {
      DigitsValueBound(s);
      Pow10Monotone(|s|, k);
    } else {
      DigitsValueLeadingDigit(s);
      Pow10Monotone(k, |s| - 1);
    }
  }

  /** Appending `k` zeros to the notation of a positive number multiplies it by `10^k`. */
  lemma {:induction false} NatToStringShift(n: nat, k: nat)
    requires n > 0
    ensures NatToString(n * Pow10(k)) == NatToString(n) + Zeros(k)
  {
    if k > 0 {
      NatToStringShift(n, k - 1);
      var m := n * Pow10(k - 1);
      ShiftByOne(n, k);
      NatToStringTimesTen(m);
      assert Zeros(k) == Zeros(k - 1) + "0";
      assert NatToString(n) + Zeros(k - 1) + "0" == NatToString(n) + Zeros(k);
    }
  }

  lemma ShiftByOne(n: nat, k: nat)
    requires n > 0 && k > 0
    ensures n * Pow10(k) == (n * Pow10(k - 1)) * 10 && n * Pow10(k - 1) >= 1
  {
    assert Pow10(k) == 10 * Pow10(k - 1);
  }

  lemma NatToStringTimesTen(m: nat)
    requires m >= 1
    ensures NatToString(m * 10) == NatToString(m) + "0"
  {
    var p := m * 10;
    assert p >= 10 && p / 10 == m && p % 10 == 0;
    assert DigitChar(0) == '0';
  }

  /** The number of leading decimal digits of `s`. */
  function LeadingDigitCount(s: string): (k: nat)
    ensures k <= |s| && AllDigits(s[..k])
    ensures k < |s| ==> !IsDigit(s[k])
  {
    if s == [] || !IsDigit(s[0]) then 0
    else
      var k := 1 + LeadingDigitCount(s[1..]);
      assert s[..k] == [s[0]] + s[1..][..k - 1];
      k
  }

  /** The position of the first `c` in `s`, or `|s|` when there is none. */
  function IndexOf(s: string, c: char): (i: nat)
    ensures i <= |s| && c !in s[..i]
    ensures i < |s| ==> s[i] == c
  {
    if s == [] then 0
    else if s[0] == c then 0
    else
      var i := 1 + IndexOf(s[1..], c);
      assert s[..i] == [s[0]] + s[1..][..i - 1];
      i
  }

  /** `parts` glued together with `sep` between consecutive parts. */
  function Join(parts: seq<string>, sep: char): string
    requires |parts| >= 1
  {
    if |parts| == 1 then parts[0] else parts[0] + [sep] + Join(parts[1..], sep)
  }

  /** `s` cut at every occurrence of `sep`; the inverse of `Join`. */
  function Split(s: string, sep: char): (parts: seq<string>)
    ensures |parts| >= 1
    ensures forall i | 0 <= i < |parts| :: sep !in parts[i]
    ensures Join(parts, sep) == s
    decreases |s|
  {
    var i := IndexOf(s, sep);
    if i == |s| then
      assert s[..i] == s;
      [s]
    else
      var rest := Split(s[i + 1..], sep);
      var parts := [s[..i]] + rest;
      assert parts[1..] == rest;
      assert s == s[..i] + [sep] + s[i + 1..];
      parts
  }

  /** Splitting undoes joining, as long as no part contains the separator. */
  lemma {:induction false} SplitJoin(parts: seq<string>, sep: char)
    requires |parts| >= 1
    requires forall i | 0 <= i < |parts| :: sep !in parts[i]
    ensures Split(Join(parts, sep), sep) == parts
  {
    if |parts| == 1 {
      IndexOfAbsent(parts[0], sep);
    } else {
      var rest := parts[1..];
      assert forall i | 0 <= i < |rest| :: rest[i] == parts[i + 1];
      SplitAfterFirst(parts[0], sep, Join(rest, sep));
      SplitJoin(rest, sep);
      assert parts == [parts[0]] + rest;
    }
  }

  /** A part without the separator, the separator, then anything: the part comes first. */
  lemma SplitAfterFirst(p: string, sep: char, rest: string)
    requires sep !in p
    ensures Split(p + [sep] + rest, sep) == [p] + Split(rest, sep)
  {
    var s := p + [sep] + rest;
    IndexOfAfter(p, sep, rest);
    assert s[..|p|] == p;
    assert s[|p| + 1..] == rest;
  }

  lemma {:induction false} IndexOfAbsent(s: string, c: char)
    requires c !in s
    ensures IndexOf(s, c) == |s|
  {
    if s != [] {
      assert s[0] in s;
      assert forall x | x in s[1..] :: x in s;
      IndexOfAbsent(s[1..], c);
    }
  }

  lemma {:induction false} IndexOfAfter(p: string, c: char, rest: string)
    requires c !in p
    ensures IndexOf(p + [c] + rest, c) == |p|
  {
    var s := p + [c] + rest;
    if p != [] {
      assert p[0] in p;
      assert s[0] == p[0];
      assert s[1..] == p[1..] + [c] + rest;
      assert forall x | x in p[1..] :: x in p;
      IndexOfAfter(p[1..], c, rest);
    }
  }
}
