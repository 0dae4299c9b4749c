/** The regular expressions of the validators, each written out as a predicate on
    characters, beside an independent description of the strings it is meant to
    accept. Both validator files use the same expressions. Unless noted, `$` is
    JavaScript's (end of input only) and every expression is anchored with `^`. */
module Patterns {
  import opened Strings

  /** The input without the leading `-` that `-?` consumes. Backtracking cannot leave
      the `-` unconsumed, because `[0-9]+` would then have to match it. */
  function StripMinus(s: string): (t: string)
    ensures s != [] && s[0] == '-' ==> t == s[1..]
    ensures !(s != [] && s[0] == '-') ==> t == s
  {
    if s != [] && s[0] == '-' then s[1..] else s
  }

  // ---------------------------------------------------------------------------
  // float(): ^-?[0-9]+([\.\,][0-9]*)?$

  /** `[0-9]+` must take the whole leading digit run, since the next character may
      only be a separator or the end. */
  predicate MatchesFloat(s: string) {
    var t := StripMinus(s);
    var i := LeadingDigitCount(t);
    i >= 1 && (i == |t| || ((t[i] == '.' || t[i] == ',') && AllDigits(t[i + 1..])))
  }

  /** The same expression read as a regular-expression engine does: either only
      digits, or digits, a `.` or `,`, and digits, for SOME split point. */
  predicate FloatSplit(s: string) {
    var t := StripMinus(s);
    (|t| >= 1 && AllDigits(t)) || exists j | 1 <= j < |t| :: SeparatorAt(t, j)
  }

  /** Digits before `j`, a `.` or `,` at `j`, and digits after it. */
  predicate SeparatorAt(t: string, j: nat) {
    j < |t| && AllDigits(t[..j]) && (t[j] == '.' || t[j] == ',') && AllDigits(t[j + 1..])
  }

  lemma FloatSplitIsFirstNonDigit(s: string)
    ensures MatchesFloat(s) <==> FloatSplit(s)
  {
    var t := StripMinus(s);
    var i := LeadingDigitCount(t);
    if MatchesFloat(s) && i < |t| {
      assert SeparatorAt(t, i);
    }
    if FloatSplit(s) {
      if |t| >= 1 && AllDigits(t) {
        AllDigitsCount(t);
      } else {
        var j :| 1 <= j < |t| && SeparatorAt(t, j);
        SplitIsFirstNonDigit(t, j);
      }
    }
  }

  /** The strings of the `float` unit tests that are accepted. */
  lemma FloatPatternAccepts()
    ensures MatchesFloat("10.") && MatchesFloat("10,11") && MatchesFloat("-10.11")
    ensures MatchesFloat("0") && MatchesFloat("0.1") && MatchesFloat("10") && MatchesFloat("10.11")
    ensures MatchesFloat("10.1")
  {
    AcceptsTrailing();
    AcceptsFractions();
    AcceptsNegativeFraction();
    AcceptsOneDecimal();
  }

  /** A single decimal after the separator. */
  lemma AcceptsOneDecimal()
    ensures MatchesFloat("10.1")
  {
    assert LeadingDigitCount("10.1") == 2;
  }

  /** Integer parts alone, and one without decimals after the separator. */
  lemma AcceptsTrailing()
    ensures MatchesFloat("10.") && MatchesFloat("0") && MatchesFloat("10")
  {
    assert LeadingDigitCount("10.") == 2;
  }

  /** Both separators, followed by decimals. */
  lemma AcceptsFractions()
    ensures MatchesFloat("10,11") && MatchesFloat("10.11") && MatchesFloat("0.1")
  {
    assert LeadingDigitCount("10,11") == 2;
    assert LeadingDigitCount("10.11") == 2;
    assert LeadingDigitCount("0.1") == 1;
  }

  /** The minus sign before the integer part. */
  lemma AcceptsNegativeFraction()
    ensures MatchesFloat("-10.11")
  {
    assert StripMinus("-10.11") == "10.11";
    assert LeadingDigitCount("10.11") == 2;
  }

  /** The strings of the `float` unit tests that are rejected. */
  lemma FloatPatternRejects()
    ensures !MatchesFloat("10a11") && !MatchesFloat("10..11") && !MatchesFloat(".10")
    ensures !MatchesFloat("aaa") && !MatchesFloat("10.1.") && !MatchesFloat("10.a")
  {
    RejectsBadSeparators();
    RejectsBadDecimals();
  }

  /** No digit before the separator, or a letter in its place. */
  lemma RejectsBadSeparators()
    ensures !MatchesFloat("10a11") && !MatchesFloat(".10") && !MatchesFloat("aaa")
  {
    assert LeadingDigitCount("10a11") == 2;
  }

  /** A non-digit among the decimals. */
  lemma RejectsBadDecimals()
    ensures !MatchesFloat("10..11") && !MatchesFloat("10.1.") && !MatchesFloat("10.a")
  {
    assert LeadingDigitCount("10..11") == 2 && "10..11"[3] == '.';
    assert LeadingDigitCount("10.1.") == 2 && "10.1."[4] == '.';
    assert LeadingDigitCount("10.a") == 2 && "10.a"[3] == 'a';
  }

  // ---------------------------------------------------------------------------
  // float(n): ^-?[0-9]+(.[0-9]{1,n})?$ with an unescaped `.`

  /** The first non-digit, if any, must be the character `.` matches (anything but a
      line terminator), preceded by at least one digit and followed by 1 to `n` digits. */
  predicate MatchesBoundedFloat(s: string, n: nat) {
    var t := StripMinus(s);
    var i := LeadingDigitCount(t);
    i >= 1
    && (i == |t|
        || (!IsLineTerminator(t[i]) && 1 <= |t| - i - 1 <= n && AllDigits(t[i + 1..])))
  }

  /** The same expression read as a regular-expression engine does: either only
      digits, or digits, one character, and 1 to `n` digits, for SOME split point. */
  predicate BoundedFloatSplit(s: string, n: nat) {
    var t := StripMinus(s);
    (|t| >= 1 && AllDigits(t)) || exists j | 1 <= j < |t| :: SplitAt(t, j, n)
  }

  /** Digits before `j`, a character other than a line terminator at `j`, and 1 to `n`
      digits after it. */
  predicate SplitAt(t: string, j: nat, n: nat) {
    j < |t| && AllDigits(t[..j]) && !IsLineTerminator(t[j]) && 1 <= |t| - j - 1 <= n && AllDigits(t[j + 1..])
  }

  lemma BoundedFloatSplitIsFirstNonDigit(s: string, n: nat)
    ensures MatchesBoundedFloat(s, n) <==> BoundedFloatSplit(s, n)
  {
    if MatchesBoundedFloat(s, n) {
      MatchIsSplit(s, n);
    }
    if BoundedFloatSplit(s, n) {
      SplitIsMatch(s, n);
    }
  }

  lemma MatchIsSplit(s: string, n: nat)
    requires MatchesBoundedFloat(s, n)
    ensures BoundedFloatSplit(s, n)
  {
    var t := StripMinus(s);
    var i := LeadingDigitCount(t);
    if i < |t| {
      assert SplitAt(t, i, n);
    }
  }

  lemma SplitIsMatch(s: string, n: nat)
    requires BoundedFloatSplit(s, n)
    ensures MatchesBoundedFloat(s, n)
  {
    var t := StripMinus(s);
    if |t| >= 1 && AllDigits(t) {
      AllDigitsCount(t);
    } else {
      var j :| 1 <= j < |t| && SplitAt(t, j, n);
      SplitIsFirstNonDigit(t, j);
    }
  }

  /** In a string that is not all digits, digits, one character and digits can only
      be split at the first non-digit. */
  lemma SplitIsFirstNonDigit(t: string, j: nat)
    requires j < |t| && AllDigits(t[..j]) && AllDigits(t[j + 1..]) && !AllDigits(t)
    ensures LeadingDigitCount(t) == j
  {
    assert t == t[..j] + [t[j]] + t[j + 1..];
    DigitBetweenDigits(t[..j], t[j], t[j + 1..]);
    LeadingDigitCountAt(t, j);
  }

  lemma DigitBetweenDigits(a: string, c: char, b: string)
    requires AllDigits(a) && AllDigits(b)
    ensures IsDigit(c) ==> AllDigits(a + [c] + b)
  {
  }

  /** Digits up to a non-digit at `j`: the leading run ends at `j`. */
  lemma LeadingDigitCountAt(t: string, j: nat)
    requires j < |t| && AllDigits(t[..j]) && !IsDigit(t[j])
    ensures LeadingDigitCount(t) == j
  {
  }

  lemma {:induction false} AllDigitsCount(t: string)
    requires AllDigits(t)
    ensures LeadingDigitCount(t) == |t|
  {
    if t != [] {
      AllDigitsCount(t[1..]);
    }
  }

  /** The bounded expression with its separator restricted to `.` or `,`, as in the
      unbounded one. */
  predicate MatchesBoundedFloatIntended(s: string, n: nat) {
    var t := StripMinus(s);
    var i := LeadingDigitCount(t);
    i >= 1
    && (i == |t|
        || ((t[i] == '.' || t[i] == ',') && 1 <= |t| - i - 1 <= n && AllDigits(t[i + 1..])))
  }

  /** `10.` has a separator and no decimals: only the unbounded expression accepts it. */
  lemma TrailingSeparator(n: nat)
    ensures MatchesFloat("10.") && !MatchesBoundedFloat("10.", n)
  {
    assert LeadingDigitCount("10.") == 2;
  }

  /** `10a5` has a letter where the separator belongs: only the bounded expression,
      as written, accepts it. */
  lemma LetterSeparator()
    ensures MatchesBoundedFloat("10a5", 2)
    ensures !MatchesFloat("10a5") && !MatchesBoundedFloatIntended("10a5", 2)
  {
    assert LeadingDigitCount("10a5") == 2;
    assert "10a5"[3..] == "5";
  }

  /** The corrected bounded pattern is the unbounded one with 1 to `n` decimals
      whenever a separator is present. */
  lemma BoundedFloatIntendedIsFloat(s: string, n: nat)
    ensures MatchesBoundedFloatIntended(s, n) <==>
      MatchesFloat(s)
      && var t := StripMinus(s);
         var i := LeadingDigitCount(t);
         i == |t| || 1 <= |t| - i - 1 <= n
  {
  }

  /** Both readings agree on every string whose separator is `.` or `,`, and the
      corrected one never accepts more. */
  lemma BoundedFloatIntendedAgrees(s: string, n: nat)
    ensures MatchesBoundedFloatIntended(s, n) ==> MatchesBoundedFloat(s, n)
    ensures var t := StripMinus(s);
      var i := LeadingDigitCount(t);
      (i == |t| || t[i] == '.' || t[i] == ',') ==> (MatchesBoundedFloat(s, n) <==> MatchesBoundedFloatIntended(s, n))
  {
  }

  // ---------------------------------------------------------------------------
  // base(b): ^[0-{b-1}]+$ for b <= 10, ^[0-9a-{e}A-{E}]+$ for b > 10, where
  // e = (b - 1).toString(b)

  /** `(base - 1).toString(base)` for a base above 10: its single letter digit. */
  function EndLetter(base: int): (c: char)
    requires 11 <= base <= 36
    ensures 'a' <= c <= 'z'
  {
    ('a' as int + (base - 11)) as char
  }

  function ToUpper(c: char): (u: char)
    requires 'a' <= c <= 'z'
    ensures 'A' <= u <= 'Z'
  {
    (c as int - 32) as char
  }

  /** The character class built from `base`. */
  predicate InBaseClass(c: char, base: int)
    requires 1 <= base <= 36
  {
    if base <= 10 then '0' <= c <= DigitChar(base - 1)
    else IsDigit(c) || 'a' <= c <= EndLetter(base) || 'A' <= c <= ToUpper(EndLetter(base))
  }

  predicate MatchesBase(s: string, base: int)
    requires 1 <= base <= 36
  {
    |s| >= 1 && forall i | 0 <= i < |s| :: InBaseClass(s[i], base)
  }

  /** The class holds exactly the characters whose digit value is below the base. */
  lemma BaseClassIsDigitValue(c: char, base: int)
    requires 1 <= base <= 36
    ensures InBaseClass(c, base) <==> IsRadixDigit(c, base)
  {
  }

  // ---------------------------------------------------------------------------
  // macAddress: ^([0-9A-Fa-f]{2}[:-]){5}([0-9A-Fa-f]{2})$

  predicate MatchesMacAddress(s: string) {
    |s| == 17
    && forall i | 0 <= i < 17 :: if i % 3 == 2 then s[i] == ':' || s[i] == '-' else IsHexDigit(s[i])
  }

  predicate IsHexPair(g: string) { |g| == 2 && IsHexDigit(g[0]) && IsHexDigit(g[1]) }

  /** Groups of two characters with one separator between consecutive groups. */
  function MacJoin(groups: seq<string>, seps: seq<char>): string
    requires |groups| == |seps| + 1
  {
    if seps == [] then groups[0] else groups[0] + [seps[0]] + MacJoin(groups[1..], seps[1..])
  }

  lemma {:induction false} MacJoinAt(groups: seq<string>, seps: seq<char>)
    requires |groups| == |seps| + 1
    requires forall k | 0 <= k < |groups| :: |groups[k]| == 2
    ensures |MacJoin(groups, seps)| == 3 * |seps| + 2
    ensures forall i | 0 <= i < 3 * |seps| + 2 ::
      MacJoin(groups, seps)[i] == if i % 3 == 2 then seps[i / 3] else groups[i / 3][i % 3]
  {
    if seps != [] {
      MacJoinAt(groups[1..], seps[1..]);
      var s := MacJoin(groups, seps);
      var r := MacJoin(groups[1..], seps[1..]);
      assert s == groups[0] + [seps[0]] + r;
      forall i | 3 <= i < 3 * |seps| + 2
        ensures s[i] == if i % 3 == 2 then seps[i / 3] else groups[i / 3][i % 3]
      {
        assert s[i] == r[i - 3];
        assert (i - 3) / 3 == i / 3 - 1 && (i - 3) % 3 == i % 3;
      }
    }
  }

  /** The six two-character groups of a 17-character string. */
  function MacGroups(s: string): (g: seq<string>)
    requires |s| == 17
    ensures |g| == 6 && forall k | 0 <= k < 6 :: |g[k]| == 2
  {
    seq(6, k requires 0 <= k < 6 => s[3 * k..3 * k + 2])
  }

  /** The five characters between the groups. */
  function MacSeparators(s: string): (p: seq<char>)
    requires |s| == 17
    ensures |p| == 5
  {
    seq(5, k requires 0 <= k < 5 => s[3 * k + 2])
  }

  /** Six hex pairs joined by `:` or `-`, in any mixture, form a MAC address. */
  lemma MacAddressFromGroups(groups: seq<string>, seps: seq<char>)
    requires |groups| == 6 && |seps| == 5
    requires forall k | 0 <= k < 6 :: IsHexPair(groups[k])
    requires forall k | 0 <= k < 5 :: seps[k] == ':' || seps[k] == '-'
    ensures MatchesMacAddress(MacJoin(groups, seps))
  {
    MacJoinAt(groups, seps);
    var s := MacJoin(groups, seps);
    forall i | 0 <= i < 17
      ensures if i % 3 == 2 then s[i] == ':' || s[i] == '-' else IsHexDigit(s[i])
    {
      if i % 3 != 2 {
        assert IsHexPair(groups[i / 3]);
      }
    }
  }

  /** Every MAC address is six hex pairs joined by `:` or `-`. */
  lemma MacAddressIsGroups(s: string)
    requires MatchesMacAddress(s)
    ensures s == MacJoin(MacGroups(s), MacSeparators(s))
    ensures forall k | 0 <= k < 6 :: IsHexPair(MacGroups(s)[k])
    ensures forall k | 0 <= k < 5 :: MacSeparators(s)[k] == ':' || MacSeparators(s)[k] == '-'
  {
    MacJoinOfGroups(s);
    MacGroupsAreHexPairs(s);
    MacSeparatorsAreSeparators(s);
  }

  lemma MacJoinOfGroups(s: string)
    requires |s| == 17
    ensures s == MacJoin(MacGroups(s), MacSeparators(s))
  {
    var g := MacGroups(s);
    var p := MacSeparators(s);
    MacJoinAt(g, p);
    var r := MacJoin(g, p);
    forall i | 0 <= i < 17 ensures r[i] == s[i] {
      if i % 3 != 2 {
        assert g[i / 3] == s[3 * (i / 3)..3 * (i / 3) + 2];
      }
    }
  }

  lemma MacGroupsAreHexPairs(s: string)
    requires MatchesMacAddress(s)
    ensures forall k | 0 <= k < 6 :: IsHexPair(MacGroups(s)[k])
  {
    var g := MacGroups(s);
    forall k | 0 <= k < 6 ensures IsHexPair(g[k]) {
      assert g[k][0] == s[3 * k] && g[k][1] == s[3 * k + 1];
      assert (3 * k) % 3 == 0 && (3 * k + 1) % 3 == 1;
    }
  }

  lemma MacSeparatorsAreSeparators(s: string)
    requires MatchesMacAddress(s)
    ensures forall k | 0 <= k < 5 :: MacSeparators(s)[k] == ':' || MacSeparators(s)[k] == '-'
  {
    forall k | 0 <= k < 5 ensures MacSeparators(s)[k] == ':' || MacSeparators(s)[k] == '-' {
      assert (3 * k + 2) % 3 == 2;
    }
  }

  // ---------------------------------------------------------------------------
  // ipAddress: ^(?!.*\.$)((?!0\d)(1?\d?\d|25[0-5]|2[0-4]\d)(\.|$)){4}$

  /** The lookahead `(?!.*\.$)`: the input does not end in a `.` reachable by `.*`. */
  predicate NoTrailingDot(s: string) {
    !(|s| >= 1 && s[|s| - 1] == '.' && forall i | 0 <= i < |s| - 1 :: !IsLineTerminator(s[i]))
  }

  /** One repetition's octet: `(?!0\d)` followed by one of the three alternatives. With
      backtracking, an alternative must cover the whole text up to the next `.` or the
      end, so the repetition accepts the union of the three. */
  predicate RegexOctet(p: string) {
    !(|p| >= 2 && p[0] == '0' && IsDigit(p[1]))
    && ((AllDigits(p) && (|p| == 1 || |p| == 2 || (|p| == 3 && p[0] == '1')))
        || (|p| == 3 && p[0] == '2' && p[1] == '5' && '0' <= p[2] <= '5')
        || (|p| == 3 && p[0] == '2' && '0' <= p[1] <= '4' && IsDigit(p[2])))
  }

  /** Each repetition ends in `.` or the end, and a repetition needs a digit, so only
      the fourth can end at the end: the input is four `.`-separated octets. */
  predicate MatchesIpAddress(s: string) {
    NoTrailingDot(s)
    && var parts := Split(s, '.');
    |parts| == 4 && forall i | 0 <= i < 4 :: RegexOctet(parts[i])
  }

  /** `dec-octet` of section 3.2.2 of RFC 3986. */
  predicate DecOctet(p: string) {
    (|p| == 1 && IsDigit(p[0]))
    || (|p| == 2 && '1' <= p[0] <= '9' && IsDigit(p[1]))
    || (|p| == 3 && p[0] == '1' && IsDigit(p[1]) && IsDigit(p[2]))
    || (|p| == 3 && p[0] == '2' && '0' <= p[1] <= '4' && IsDigit(p[2]))
    || (|p| == 3 && p[0] == '2' && p[1] == '5' && '0' <= p[2] <= '5')
  }

  /** `IPv4address = dec-octet "." dec-octet "." dec-octet "." dec-octet`. */
  predicate IsIPv4Address(s: string) {
    var parts := Split(s, '.');
    |parts| == 4 && forall i | 0 <= i < 4 :: DecOctet(parts[i])
  }

  lemma RegexOctetIsDecOctet(p: string)
    ensures RegexOctet(p) <==> DecOctet(p)
  {
  }

  /** A dec-octet is the canonical notation of a number from 0 to 255. */
  lemma DecOctetIsSmallNumeral(p: string)
    ensures DecOctet(p) <==> IsCanonicalNumeral(p) && DigitsValue(p) <= 255
  {
    if DecOctet(p) {
      assert AllDigits(p);
      DigitsValueOfShort(p);
    }
    if IsCanonicalNumeral(p) && DigitsValue(p) <= 255 {
      if |p| >= 4 {
        DigitsValueLeadingDigit(p);
        Pow10Monotone(3, |p| - 1);
      }
      DigitsValueOfShort(p);
    }
  }

  lemma DigitsValueOfShort(p: string)
    requires AllDigits(p) && 1 <= |p| <= 3
    ensures |p| == 1 ==> DigitsValue(p) == DigitVal(p[0])
    ensures |p| == 2 ==> DigitsValue(p) == 10 * DigitVal(p[0]) + DigitVal(p[1])
    ensures |p| == 3 ==> DigitsValue(p) == 100 * DigitVal(p[0]) + 10 * DigitVal(p[1]) + DigitVal(p[2])
  {
    var q := p[..|p| - 1];
    if |p| >= 2 {
      var r := q[..|q| - 1];
      if |p| == 3 {
        assert r[..0] == [];
      }
      assert r == p[..|p| - 2];
    } else {
      assert q == [];
    }
  }

  /** The lookahead adds nothing: the expression accepts exactly RFC 3986 IPv4 addresses. */
  lemma IpAddressPatternIsRfc3986(s: string)
    ensures MatchesIpAddress(s) <==> IsIPv4Address(s)
  {
    var parts := Split(s, '.');
    forall i | 0 <= i < |parts| ensures RegexOctet(parts[i]) <==> DecOctet(parts[i]) {
      RegexOctetIsDecOctet(parts[i]);
    }
    if IsIPv4Address(s) {
      assert Join(parts, '.') == parts[0] + ['.'] + Join(parts[1..], '.');
      assert Join(parts[1..], '.') == parts[1] + ['.'] + Join(parts[2..], '.');
      assert Join(parts[2..], '.') == parts[2] + ['.'] + Join(parts[3..], '.');
      assert Join(parts[3..], '.') == parts[3];
      assert s[|s| - 1] == parts[3][|parts[3]| - 1];
      assert IsDigit(parts[3][|parts[3]| - 1]);
    }
  }

  /** The dotted-decimal text of four octet values. */
  function DottedQuad(a: nat, b: nat, c: nat, d: nat): string {
    Join([NatToString(a), NatToString(b), NatToString(c), NatToString(d)], '.')
  }

  /** Four values from 0 to 255 in dotted-decimal notation are accepted. */
  lemma DottedQuadIsIpAddress(a: nat, b: nat, c: nat, d: nat)
    requires a <= 255 && b <= 255 && c <= 255 && d <= 255
    ensures MatchesIpAddress(DottedQuad(a, b, c, d))
  {
    var parts := [NatToString(a), NatToString(b), NatToString(c), NatToString(d)];
    forall i | 0 <= i < 4 ensures '.' !in parts[i] && DecOctet(parts[i]) {
      var n := [a, b, c, d][i];
      assert parts[i] == NatToString(n);
      NatToStringValue(n);
      DecOctetIsSmallNumeral(parts[i]);
      assert forall x | x in parts[i] :: IsDigit(x);
    }
    SplitJoin(parts, '.');
    IpAddressPatternIsRfc3986(DottedQuad(a, b, c, d));
  }

  /** Every accepted address is the dotted-decimal text of its four octet values. */
  lemma IpAddressIsDottedQuad(s: string)
    requires MatchesIpAddress(s)
    ensures var p := Split(s, '.');
      && (forall i | 0 <= i < 4 :: AllDigits(p[i]) && DigitsValue(p[i]) <= 255)
      && s == DottedQuad(DigitsValue(p[0]), DigitsValue(p[1]), DigitsValue(p[2]), DigitsValue(p[3]))
  {
    IpAddressPatternIsRfc3986(s);
    var p := Split(s, '.');
    forall i | 0 <= i < 4 ensures IsCanonicalNumeral(p[i]) && DigitsValue(p[i]) <= 255
      && NatToString(DigitsValue(p[i])) == p[i]
    {
      DecOctetIsSmallNumeral(p[i]);
      CanonicalNumeralRoundTrip(p[i]);
    }
    assert p == [p[0], p[1], p[2], p[3]];
  }
}
