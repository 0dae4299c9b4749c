/** The validation rules of `morms/src/validators.ts`. A rule is built from its
    parameters and an optional message and is a total function from a field value to
    an outcome; `Validate` runs a list of rules and stops at the first failure. */
module Validators {
  import opened Strings
  import opened Wrappers
  import opened JsNumber
  import opened Patterns

  /** A value a rule may be given: `undefined` and `null` are both `Absent`. */
  datatype Value = Absent | Num(n: Number) | Text(s: string)

  datatype Outcome = Outcome(valid: bool, text: string)

  type Validator = Value -> Outcome

  function ValidResult(): Outcome {
    Outcome(true, "")
  }

  function InvalidResult(text: string): Outcome {
    Outcome(false, text)
  }

  /** `""`, `null` or `undefined`. */
  predicate IsEmptyValue(v: Value)
    ensures IsEmptyValue(v) ==> !v.Num?
    ensures v.Text? ==> (IsEmptyValue(v) <==> |v.s| == 0)
  {
    v == Absent || v == Text("")
  }

  /** `value.toString()`. */
  function ToStr(v: Value): string
    requires v != Absent
  {
    match v
    case Num(n) => JsNumber.ToString(n)
    case Text(s) => s
  }

  /** `Number(value)`. */
  function ToNumber(v: Value): Number
    requires v != Absent
  {
    match v
    case Num(n) => n
    case Text(s) => StringToNumber(s)
  }

  /** The text a numeric parameter has inside a template literal. */
  function Show(n: int): string {
    JsNumber.ToString(FromInt(n))
  }

  /** The message of a rule: the caller's `errorText` when given, else the default. */
  function Message(default: string, errorText: Option<string>): (m: string)
    ensures errorText.Some? ==> m == errorText.value
    ensures errorText.None? ==> m == default
  {
    errorText.GetOr(default)
  }

  /** The outcome a rule returns once it has decided: valid with an empty text, or
      invalid with the rule's message. */
  function Verdict(ok: bool, message: string): (o: Outcome)
    ensures o.valid == ok
    ensures ok ==> o.text == ""
    ensures !ok ==> o.text == message
  {
    if ok then ValidResult() else InvalidResult(message)
  }

  // ---------------------------------------------------------------------------
  // validate

  /** What `validate` returns: the first invalid outcome, else the valid result. */
  function ChainResult(v: Value, validators: seq<Validator>): Outcome {
    if validators == [] then ValidResult()
    else
      var o := validators[0](v);
      if !o.valid then o else ChainResult(v, validators[1..])
  }

  /** Runs the rules in order on `input`, returning the first failure unchanged.
      `evaluated` counts the rules applied: none after the first failure. */
  method Validate(input: string, validators: seq<Validator>) returns (r: Outcome, ghost evaluated: nat)
    ensures r == ChainResult(Text(input), validators)
    ensures r.valid <==> forall i | 0 <= i < |validators| :: validators[i](Text(input)).valid
    ensures r.valid ==> r == ValidResult() && evaluated == |validators|
    ensures !r.valid ==> 1 <= evaluated <= |validators| && r == validators[evaluated - 1](Text(input))
    ensures forall i | 0 <= i < evaluated - 1 :: validators[i](Text(input)).valid
  {
    var i := 0;
    while i < |validators|
      invariant 0 <= i <= |validators|
      invariant forall j | 0 <= j < i :: validators[j](Text(input)).valid
      invariant ChainResult(Text(input), validators) == ChainResult(Text(input), validators[i..])
    {
      var result := validators[i](Text(input));
      assert validators[i..][1..] == validators[i + 1..];
      if !result.valid {
        return result, i + 1;
      }
      i := i + 1;
    }
    return ValidResult(), i;
  }

  /** The chain is valid exactly when every rule accepts, and an invalid chain's
      outcome is that of a rule all of whose predecessors accept. */
  lemma {:induction false} ChainFirstFailure(v: Value, validators: seq<Validator>)
    ensures ChainResult(v, validators).valid <==> forall i | 0 <= i < |validators| :: validators[i](v).valid
    ensures ChainResult(v, validators).valid ==> ChainResult(v, validators) == ValidResult()
    ensures !ChainResult(v, validators).valid ==>
      exists k | 0 <= k < |validators| ::
        ChainResult(v, validators) == validators[k](v) && forall i | 0 <= i < k :: validators[i](v).valid
  {
    if validators != [] && validators[0](v).valid {
      var rest := validators[1..];
      ChainFirstFailure(v, rest);
      assert forall i | 1 <= i < |validators| :: validators[i] == rest[i - 1];
      if !ChainResult(v, rest).valid {
        var k :| 0 <= k < |rest| && ChainResult(v, rest) == rest[k](v) && forall i | 0 <= i < k :: rest[i](v).valid;
        assert ChainResult(v, validators) == validators[k + 1](v);
      }
    }
  }

  /** Running two lists in sequence is running their concatenation. */
  lemma {:induction false} ChainAppend(v: Value, a: seq<Validator>, b: seq<Validator>)
    ensures ChainResult(v, a + b) == if ChainResult(v, a).valid then ChainResult(v, b) else ChainResult(v, a)
  {
    if a != [] {
      assert (a + b)[0] == a[0];
      assert (a + b)[1..] == a[1..] + b;
      ChainAppend(v, a[1..], b);
    } else {
      assert a + b == b;
    }
  }

  // ---------------------------------------------------------------------------
  // The rules

  function Required(errorText: Option<string>): (check: Validator)
    ensures forall v :: check(v) == Verdict(!IsEmptyValue(v), Message("This field is required", errorText))
  {
    v => if IsEmptyValue(v) then InvalidResult(Message("This field is required", errorText)) else ValidResult()
  }

  /** `!isNaN(Number(value)) && Number(value) % 1 === 0`. */
  function Integer(errorText: Option<string>): (check: Validator)
    ensures forall v :: check(v) ==
              Verdict(IsEmptyValue(v) || IsInteger(ToNumber(v)), Message("Must be a whole number", errorText))
  {
    v =>
      if IsEmptyValue(v) then ValidResult()
      else if IsInteger(ToNumber(v)) then ValidResult()
      else InvalidResult(Message("Must be a whole number", errorText))
  }

  /** The pattern `float` selects: unbounded, or with at most `maxDecimals` decimals. */
  predicate FloatPattern(maxDecimals: Option<nat>, s: string) {
    match maxDecimals
    case None => MatchesFloat(s)
    case Some(n) => MatchesBoundedFloat(s, n)
  }

  function FloatDefaultMessage(maxDecimals: Option<nat>): string {
    match maxDecimals
    case None => "Must be a number"
    case Some(n) => "Must be a number with a maximum of " + Show(n) + " decimals"
  }

  function Float(maxDecimals: Option<nat>, errorText: Option<string>): (check: Validator)
    requires maxDecimals.Some? ==> maxDecimals.value >= 1
    ensures forall v :: check(v) ==
              Verdict(IsEmptyValue(v) || FloatPattern(maxDecimals, ToStr(v)), Message(FloatDefaultMessage(maxDecimals), errorText))
  {
    v =>
      if IsEmptyValue(v) then ValidResult()
      else if FloatPattern(maxDecimals, ToStr(v)) then ValidResult()
      else InvalidResult(Message(FloatDefaultMessage(maxDecimals), errorText))
  }

  function Base(base: int, errorText: Option<string>): (check: Validator)
    requires 1 <= base <= 36
    ensures forall v :: check(v) ==
              Verdict(IsEmptyValue(v) || MatchesBase(ToStr(v), base), Message("Must be a base " + Show(base) + " number", errorText))
  {
    v =>
      if IsEmptyValue(v) then ValidResult()
      else if MatchesBase(ToStr(v), base) then ValidResult()
      else InvalidResult(Message("Must be a base " + Show(base) + " number", errorText))
  }

  /** `parseInt(value.toString(), 10) > maxVal`; a NaN on either side compares false. */
  predicate ParsesAbove(s: string, maxVal: Number) {
    ParseInt(s).Some? && IntGreater(ParseInt(s).value, maxVal)
  }

  /** `parseInt(value.toString(), 10) < minVal`. */
  predicate ParsesBelow(s: string, minVal: Number) {
    ParseInt(s).Some? && IntLess(ParseInt(s).value, minVal)
  }

  /** Despite its name, rejects values whose leading integer exceeds `maxVal`. */
  function GreaterThan(maxVal: Number, errorText: Option<string>): (check: Validator)
    ensures forall v :: check(v) ==
              Verdict(IsEmptyValue(v) || !ParsesAbove(ToStr(v), maxVal), Message("Must be smaller than " + JsNumber.ToString(maxVal), errorText))
  {
    v =>
      if IsEmptyValue(v) then ValidResult()
      else if ParsesAbove(ToStr(v), maxVal) then InvalidResult(Message("Must be smaller than " + JsNumber.ToString(maxVal), errorText))
      else ValidResult()
  }

  /** Despite its name, rejects values whose leading integer is below `minVal`. */
  function LesserThan(minVal: Number, errorText: Option<string>): (check: Validator)
    ensures forall v :: check(v) ==
              Verdict(IsEmptyValue(v) || !ParsesBelow(ToStr(v), minVal), Message("Must be larger than " + JsNumber.ToString(minVal), errorText))
  {
    v =>
      if IsEmptyValue(v) then ValidResult()
      else if ParsesBelow(ToStr(v), minVal) then InvalidResult(Message("Must be larger than " + JsNumber.ToString(minVal), errorText))
      else ValidResult()
  }

  function MacAddress(errorText: Option<string>): (check: Validator)
    ensures forall v :: check(v) ==
              Verdict(IsEmptyValue(v) || MatchesMacAddress(ToStr(v)), Message("Not a valid MAC address", errorText))
  {
    v =>
      if IsEmptyValue(v) then ValidResult()
      else if !MatchesMacAddress(ToStr(v)) then InvalidResult(Message("Not a valid MAC address", errorText))
      else ValidResult()
  }

  function IpAddress(errorText: Option<string>): (check: Validator)
    ensures forall v :: check(v) ==
              Verdict(IsEmptyValue(v) || MatchesIpAddress(ToStr(v)), Message("Not a valid IP address", errorText))
  {
    v =>
      if IsEmptyValue(v) then ValidResult()
      else if !MatchesIpAddress(ToStr(v)) then InvalidResult(Message("Not a valid IP address", errorText))
      else ValidResult()
  }

  /** `value.toString().length < min`, with `min` any number. */
  function MinLength(min: Number, errorText: Option<string>): (check: Validator)
    ensures forall v :: check(v) ==
              Verdict(IsEmptyValue(v) || !IntLess(|ToStr(v)|, min), Message("Must at least be " + JsNumber.ToString(min) + " characters long", errorText))
  {
    v =>
      if IsEmptyValue(v) then ValidResult()
      else if IntLess(|ToStr(v)|, min) then InvalidResult(Message("Must at least be " + JsNumber.ToString(min) + " characters long", errorText))
      else ValidResult()
  }

  /** `value.toString().length > max`. */
  function MaxLength(max: Number, errorText: Option<string>): (check: Validator)
    ensures forall v :: check(v) ==
              Verdict(IsEmptyValue(v) || !IntGreater(|ToStr(v)|, max), Message("Must at most be " + JsNumber.ToString(max) + " characters long", errorText))
  {
    v =>
      if IsEmptyValue(v) then ValidResult()
      else if IntGreater(|ToStr(v)|, max) then InvalidResult(Message("Must at most be " + JsNumber.ToString(max) + " characters long", errorText))
      else ValidResult()
  }

  /** `float(maxDecimals)` with the separator escaped: `^-?[0-9]+([.,][0-9]{1,n})?$`. */
  function FloatCorrected(maxDecimals: Option<nat>, errorText: Option<string>): (check: Validator)
    requires maxDecimals.Some? ==> maxDecimals.value >= 1
    ensures forall v :: check(v) ==
              Verdict(IsEmptyValue(v) || FloatPatternCorrected(maxDecimals, ToStr(v)),
                      Message(FloatDefaultMessage(maxDecimals), errorText))
  {
    v =>
      if IsEmptyValue(v) then ValidResult()
      else if FloatPatternCorrected(maxDecimals, ToStr(v)) then ValidResult()
      else InvalidResult(Message(FloatDefaultMessage(maxDecimals), errorText))
  }

  predicate FloatPatternCorrected(maxDecimals: Option<nat>, s: string) {
    match maxDecimals
    case None => MatchesFloat(s)
    case Some(n) => MatchesBoundedFloatIntended(s, n)
  }

  // ---------------------------------------------------------------------------
  // Properties of the rules

  /** `""`, `null` and `undefined` fail `required` and pass every other rule. */
  lemma EmptyValuesPassAllButRequired(v: Value, e: Option<string>, maxDecimals: Option<nat>, base: int, bound: Number)
    requires IsEmptyValue(v)
    requires maxDecimals.Some? ==> maxDecimals.value >= 1
    requires 1 <= base <= 36
    ensures Required(e)(v) == InvalidResult(Message("This field is required", e))
    ensures Integer(e)(v) == ValidResult() && Float(maxDecimals, e)(v) == ValidResult()
    ensures Base(base, e)(v) == ValidResult()
    ensures GreaterThan(bound, e)(v) == ValidResult() && LesserThan(bound, e)(v) == ValidResult()
    ensures MacAddress(e)(v) == ValidResult() && IpAddress(e)(v) == ValidResult()
    ensures MinLength(bound, e)(v) == ValidResult() && MaxLength(bound, e)(v) == ValidResult()
  {
  }

  /** The cases of the `required` unit tests. */
  lemma RequiredCases()
    ensures Required(None)(Text("some string")).valid
    ensures Required(None)(Num(FromInt(12312))).valid
    ensures !Required(None)(Text("")).valid && !Required(None)(Absent).valid
  {
  }

  /** Every integer passes `integer`, as a number and as its decimal notation. */
  lemma IntegerAcceptsIntegers(n: int, e: Option<string>)
    ensures Integer(e)(Num(FromInt(n))).valid
    ensures Integer(e)(Text(IntToString(n))).valid
  {
    StringToNumberOfInteger(n);
    IntegerOfParsedText(e, IntToString(n), FromInt(n));
    assert IsInteger(FromInt(n));
  }

  lemma IntegerOfParsedText(e: Option<string>, s: string, x: Number)
    requires s != "" && StringToNumber(s) == x
    ensures Integer(e)(Text(s)).valid <==> IsInteger(x)
  {
  }

  /** A number with a fractional part fails `integer`. */
  lemma IntegerRejectsFractions(m: int, k: nat, e: Option<string>)
    requires k >= 1 && m % Pow10(k) != 0
    ensures Integer(e)(Num(Finite(Decimal(m, -(k as int))))) == InvalidResult(Message("Must be a whole number", e))
  {
  }

  /** A string that `Number` cannot read fails `integer`. */
  lemma IntegerRejectsNonNumbers(s: string, e: Option<string>)
    requires s != "" && StringToNumber(s) == NaN
    ensures Integer(e)(Text(s)) == InvalidResult(Message("Must be a whole number", e))
  {
  }

  /** The number cases of the `integer` unit tests that are not integers. */
  lemma IntegerCases()
    ensures !Integer(None)(Num(Finite(Decimal(961, -2)))).valid
    ensures !Integer(None)(Num(Finite(Decimal(-1001, -1)))).valid
  {
    IntegerRejectsFraction(961, 2);
    IntegerRejectsFraction(-1001, 1);
  }

  lemma IntegerRejectsFraction(m: int, k: nat)
    requires k >= 1 && m % Pow10(k) != 0
    ensures !Integer(None)(Num(Finite(Decimal(m, -(k as int))))).valid
  {
    IntegerRejectsFractions(m, k, None);
  }

  /** The string case of the `integer` unit tests that is not an integer. */
  lemma IntegerRejectsWord()
    ensures !Integer(None)(Text("some string")).valid
  {
    WordIsNotANumber();
    IntegerRejectsNonNumbers("some string", None);
  }

  lemma WordIsNotANumber()
    ensures StringToNumber("some string") == NaN
  {
    var s := "some string";
    assert !IsStrWhiteSpaceChar(s[0]);
    assert TrimStart(s) == s;
    assert !IsStrWhiteSpaceChar(s[|s| - 1]);
    assert TrimEnd(s) == s;
    assert LeadingDigitCount(s) == 0;
    assert UnsignedDecimal(s) == None;
  }

  /** A string passes `float` exactly when it is empty or matches the selected pattern. */
  lemma FloatOfText(maxDecimals: Option<nat>, e: Option<string>, s: string)
    requires maxDecimals.Some? ==> maxDecimals.value >= 1
    ensures Float(maxDecimals, e)(Text(s)).valid <==> s == "" || FloatPattern(maxDecimals, s)
  {
  }

  /** A number passes `float` exactly when its printed form matches the selected pattern. */
  lemma FloatOfNumber(maxDecimals: Option<nat>, e: Option<string>, x: Number)
    requires maxDecimals.Some? ==> maxDecimals.value >= 1
    ensures Float(maxDecimals, e)(Num(x)).valid <==> FloatPattern(maxDecimals, JsNumber.ToString(x))
  {
  }

  /** The string cases of the `float` unit tests. */
  lemma FloatTextCases()
    ensures Float(None, None)(Text("10.")).valid && Float(None, None)(Text("10,11")).valid
    ensures Float(None, None)(Text("-10.11")).valid && Float(None, None)(Text("0")).valid
    ensures Float(None, None)(Text("10")).valid && Float(None, None)(Text("10.1")).valid
    ensures Float(None, None)(Text("10.11")).valid
    ensures !Float(None, None)(Text("10a11")).valid && !Float(None, None)(Text("10..11")).valid
    ensures !Float(None, None)(Text(".10")).valid && !Float(None, None)(Text("aaa")).valid
    ensures !Float(None, None)(Text("10.1.")).valid && !Float(None, None)(Text("10.a")).valid
  {
    FloatPatternAccepts();
    FloatPatternRejects();
    FloatOfText(None, None, "10.");
    FloatOfText(None, None, "10,11");
    FloatOfText(None, None, "-10.11");
    FloatOfText(None, None, "0");
    FloatOfText(None, None, "10");
    FloatOfText(None, None, "10.1");
    FloatOfText(None, None, "10.11");
    FloatOfText(None, None, "10a11");
    FloatOfText(None, None, "10..11");
    FloatOfText(None, None, ".10");
    FloatOfText(None, None, "aaa");
    FloatOfText(None, None, "10.1.");
    FloatOfText(None, None, "10.a");
  }

  /** The number cases of the `float` unit tests: `.10`, `0`, `10` (also written `10.`),
      `10.1`, `10.11` and `-10.11` print as `0.1`, `0`, `10`, `10.1`, `10.11` and `-10.11`. */
  lemma FloatNumberCases()
    ensures Float(None, None)(Num(Finite(Decimal(1, -1)))).valid
    ensures Float(None, None)(Num(FromInt(0))).valid
    ensures Float(None, None)(Num(FromInt(10))).valid
    ensures Float(None, None)(Num(Finite(Decimal(101, -1)))).valid
    ensures Float(None, None)(Num(Finite(Decimal(1011, -2)))).valid
    ensures Float(None, None)(Num(Finite(Decimal(-1011, -2)))).valid
  {
    PrintedFloatCases();
    FloatPatternAccepts();
    FloatOfNumber(None, None, Finite(Decimal(1, -1)));
    FloatOfNumber(None, None, FromInt(0));
    FloatOfNumber(None, None, FromInt(10));
    FloatOfNumber(None, None, Finite(Decimal(101, -1)));
    FloatOfNumber(None, None, Finite(Decimal(1011, -2)));
    FloatOfNumber(None, None, Finite(Decimal(-1011, -2)));
  }

  lemma PrintedFloatCases()
    ensures JsNumber.ToString(Finite(Decimal(1, -1))) == "0.1"
    ensures JsNumber.ToString(FromInt(0)) == "0"
    ensures JsNumber.ToString(FromInt(10)) == "10"
    ensures JsNumber.ToString(Finite(Decimal(101, -1))) == "10.1"
    ensures JsNumber.ToString(Finite(Decimal(1011, -2))) == "10.11"
    ensures JsNumber.ToString(Finite(Decimal(-1011, -2))) == "-10.11"
  {
    PrintsTenth();
    PrintsTen();
    PrintsHundredths();
    PrintsTenths();
  }

  lemma PrintsTenths()
    ensures PositiveToString(101, -1) == "10.1"
  {
    assert Normalize(101, -1) == (101, -1);
    assert NatToString(101) == "101";
  }

  lemma PrintsTenth()
    ensures PositiveToString(1, -1) == "0.1"
  {
    PrintsBelowOne(1, -1);
    assert NatToString(1) == "1" && Zeros(0) == "";
    assert "0." + "" + "1" == "0.1";
  }

  /** Step 9 of Number::toString: a number below one, with fewer than six zeros after the point. */
  lemma PrintsBelowOne(m: nat, e: int)
    requires m > 0 && m % 10 != 0 && -6 < |NatToString(m)| + e <= 0
    ensures PositiveToString(m, e) == "0." + Zeros(-(|NatToString(m)| + e)) + NatToString(m)
  {
    assert Normalize(m, e) == (m, e);
  }

  lemma PrintsTen()
    ensures PositiveToString(10, 0) == "10"
  {
    assert Normalize(10, 0) == (1, 1);
  }

  lemma PrintsHundredths()
    ensures PositiveToString(1011, -2) == "10.11"
  {
    assert Normalize(1011, -2) == (1011, -2);
    assert NatToString(1011) == "1011";
  }

  /** With a maximum, any single character may stand between the integer part and the
      decimals, while the unbounded mode rejects the same string. */
  lemma FloatAcceptsAnySeparator()
    ensures Float(Some(2), None)(Text("10a5")).valid
    ensures !Float(None, None)(Text("10a5")).valid
    ensures !FloatCorrected(Some(2), None)(Text("10a5")).valid
  {
    LetterSeparator();
    FloatOfText(Some(2), None, "10a5");
    FloatOfText(None, None, "10a5");
    FloatCorrectedOfText(Some(2), None, "10a5");
  }

  lemma FloatCorrectedOfText(maxDecimals: Option<nat>, e: Option<string>, s: string)
    requires maxDecimals.Some? ==> maxDecimals.value >= 1
    ensures FloatCorrected(maxDecimals, e)(Text(s)).valid <==> s == "" || FloatPatternCorrected(maxDecimals, s)
  {
  }

  /** The corrected rule accepts exactly the unbounded floats whose decimals, when there
      is a separator, number from 1 to `n`. */
  lemma FloatCorrectedIsBoundedFloat(n: nat, e: Option<string>, s: string)
    requires n >= 1
    ensures FloatCorrected(Some(n), e)(Text(s)).valid <==>
      s == "" || (Float(None, e)(Text(s)).valid
                  && var t := StripMinus(s);
                     var i := LeadingDigitCount(t);
                     i == |t| || 1 <= |t| - i - 1 <= n)
  {
    BoundedFloatIntendedIsFloat(s, n);
  }

  /** `base` accepts exactly the non-empty strings of digits whose values are below the base. */
  lemma BaseAcceptsDigitsBelowBase(base: int, e: Option<string>, s: string)
    requires 1 <= base <= 36
    ensures Base(base, e)(Text(s)).valid <==> s == "" || forall i | 0 <= i < |s| :: IsRadixDigit(s[i], base)
  {
    forall i | 0 <= i < |s| ensures InBaseClass(s[i], base) <==> IsRadixDigit(s[i], base) {
      BaseClassIsDigitValue(s[i], base);
    }
  }

  /** A `0x` prefix is rejected unless `x` is itself a digit of the base (base 34 and
      up), and a `0b` prefix unless the base exceeds 11. */
  lemma BaseRejectsPrefixes(base: int, e: Option<string>, s: string)
    requires 1 <= base <= 36
    ensures Base(base, e)(Text("0x" + s)).valid <==> base > 33 && forall i | 0 <= i < |s| :: IsRadixDigit(s[i], base)
    ensures Base(base, e)(Text("0b" + s)).valid <==> base > 11 && forall i | 0 <= i < |s| :: IsRadixDigit(s[i], base)
  {
    BaseOfPrefixed(base, e, 'x', s);
    BaseOfPrefixed(base, e, 'b', s);
    assert "0x" + s == ['0', 'x'] + s && "0b" + s == ['0', 'b'] + s;
  }

  lemma BaseOfPrefixed(base: int, e: Option<string>, c: char, s: string)
    requires 1 <= base <= 36 && IsAsciiLetter(c)
    ensures Base(base, e)(Text(['0', c] + s)).valid <==>
      AlnumValue(c) < base && forall i | 0 <= i < |s| :: IsRadixDigit(s[i], base)
  {
    var t := ['0', c] + s;
    BaseAcceptsDigitsBelowBase(base, e, t);
    assert forall i | 0 <= i < |s| :: t[i + 2] == s[i];
    if AlnumValue(c) < base && forall i | 0 <= i < |s| :: IsRadixDigit(s[i], base) {
      forall i | 0 <= i < |t| ensures IsRadixDigit(t[i], base) {
        if i >= 2 { assert IsRadixDigit(s[i - 2], base); }
      }
    }
    if forall i | 0 <= i < |t| :: IsRadixDigit(t[i], base) {
      assert IsRadixDigit(t[1], base);
    }
  }

  /** The leading integer of a value that starts with the notation of `n` is `n`, so the
      rule compares `n` with the bound; with an integer bound, the bound itself passes
      `greaterThan(maxVal)`. */
  lemma GreaterThanOfLeadingInteger(maxVal: Number, e: Option<string>, n: int, rest: string)
    requires rest == [] || !IsDigit(rest[0])
    ensures GreaterThan(maxVal, e)(Text(IntToString(n) + rest)).valid <==> !IntGreater(n, maxVal)
    ensures forall m :: maxVal == FromInt(m) ==> (GreaterThan(maxVal, e)(Text(IntToString(n) + rest)).valid <==> n <= m)
  {
    var s := IntToString(n) + rest;
    ParseIntPrefix(n, rest);
    GreaterThanOfParsed(maxVal, e, s, n);
  }

  lemma LesserThanOfLeadingInteger(minVal: Number, e: Option<string>, n: int, rest: string)
    requires rest == [] || !IsDigit(rest[0])
    ensures LesserThan(minVal, e)(Text(IntToString(n) + rest)).valid <==> !IntLess(n, minVal)
    ensures forall m :: minVal == FromInt(m) ==> (LesserThan(minVal, e)(Text(IntToString(n) + rest)).valid <==> n >= m)
  {
    var s := IntToString(n) + rest;
    ParseIntPrefix(n, rest);
    LesserThanOfParsed(minVal, e, s, n);
  }

  lemma GreaterThanOfParsed(maxVal: Number, e: Option<string>, s: string, n: int)
    requires s != "" && ParseInt(s) == Some(n)
    ensures GreaterThan(maxVal, e)(Text(s)).valid <==> !IntGreater(n, maxVal)
  {
  }

  lemma LesserThanOfParsed(minVal: Number, e: Option<string>, s: string, n: int)
    requires s != "" && ParseInt(s) == Some(n)
    ensures LesserThan(minVal, e)(Text(s)).valid <==> !IntLess(n, minVal)
  {
  }

  /** An integer number below `10^21` in magnitude prints in plain notation, so the
      bound rules compare it as it is. */
  lemma BoundsOfIntegerNumber(bound: Number, e: Option<string>, n: int)
    requires -(Pow10(21) as int) < n < Pow10(21)
    ensures GreaterThan(bound, e)(Num(FromInt(n))).valid <==> !IntGreater(n, bound)
    ensures LesserThan(bound, e)(Num(FromInt(n))).valid <==> !IntLess(n, bound)
  {
    var s := IntToString(n);
    ToStringOfInteger(n);
    ParseIntPrefix(n, []);
    assert s + [] == s;
    GreaterThanOfNumber(bound, e, FromInt(n), s, n);
    LesserThanOfNumber(bound, e, FromInt(n), s, n);
  }

  lemma GreaterThanOfNumber(maxVal: Number, e: Option<string>, x: Number, s: string, n: int)
    requires JsNumber.ToString(x) == s && ParseInt(s) == Some(n)
    ensures GreaterThan(maxVal, e)(Num(x)).valid <==> !IntGreater(n, maxVal)
  {
  }

  lemma LesserThanOfNumber(minVal: Number, e: Option<string>, x: Number, s: string, n: int)
    requires JsNumber.ToString(x) == s && ParseInt(s) == Some(n)
    ensures LesserThan(minVal, e)(Num(x)).valid <==> !IntLess(n, minVal)
  {
  }

  /** With an integer bound an integer number passes exactly when it is within it. */
  lemma BoundsOfIntegers(bound: int, e: Option<string>, n: int)
    requires -(Pow10(21) as int) < n < Pow10(21)
    ensures GreaterThan(FromInt(bound), e)(Num(FromInt(n))).valid <==> n <= bound
    ensures LesserThan(FromInt(bound), e)(Num(FromInt(n))).valid <==> n >= bound
  {
    BoundsOfIntegerNumber(FromInt(bound), e, n);
    CompareWithInteger(n, bound);
  }

  /** A fractional bound separates the integers on either side of it, and the message
      prints it in decimal notation: under `greaterThan(99.5)` 99 passes and 100 fails,
      under `lesserThan(99.5)` the reverse. */
  lemma FractionalBoundCases()
    ensures GreaterThan(Finite(Decimal(995, -1)), None)(Num(FromInt(99))).valid
    ensures GreaterThan(Finite(Decimal(995, -1)), None)(Num(FromInt(100))) == InvalidResult("Must be smaller than 99.5")
    ensures !LesserThan(Finite(Decimal(995, -1)), None)(Num(FromInt(99))).valid
    ensures LesserThan(Finite(Decimal(995, -1)), None)(Num(FromInt(100))).valid
  {
    var x := Finite(Decimal(995, -1));
    FractionalBoundCompares();
    BoundsOfIntegerNumber(x, None, 99);
    BoundsOfIntegerNumber(x, None, 100);
    GreaterThanRejection(x, None, Num(FromInt(100)));
    PrintsNinetyNineAndAHalf();
  }

  /** A value `greaterThan` rejects gets the rule's message. */
  lemma GreaterThanRejection(maxVal: Number, e: Option<string>, v: Value)
    requires !GreaterThan(maxVal, e)(v).valid
    ensures GreaterThan(maxVal, e)(v) == InvalidResult(Message("Must be smaller than " + JsNumber.ToString(maxVal), e))
  {
  }

  lemma FractionalBoundCompares()
    ensures IntGreater(100, Finite(Decimal(995, -1))) && !IntGreater(99, Finite(Decimal(995, -1)))
    ensures IntLess(99, Finite(Decimal(995, -1))) && !IntLess(100, Finite(Decimal(995, -1)))
  {
    assert Pow10(1) == 10;
  }

  lemma PrintsNinetyNineAndAHalf()
    ensures "Must be smaller than " + JsNumber.ToString(Finite(Decimal(995, -1))) == "Must be smaller than 99.5"
  {
    assert Normalize(995, -1) == (995, -1);
    assert NatToString(995) == "995";
    assert JsNumber.ToString(Finite(Decimal(995, -1))) == "99.5";
  }

  /** With an integer bound the length rules compare the length of the text. */
  lemma LengthBoundsOfIntegers(bound: int, e: Option<string>, v: Value)
    ensures MinLength(FromInt(bound), e)(v).valid <==> IsEmptyValue(v) || |ToStr(v)| >= bound
    ensures MaxLength(FromInt(bound), e)(v).valid <==> IsEmptyValue(v) || |ToStr(v)| <= bound
  {
    if !IsEmptyValue(v) {
      CompareWithInteger(|ToStr(v)|, bound);
    }
  }

  /** A bound that is not a number lets every value through both comparisons. */
  lemma NaNBoundAcceptsAll(v: Value, e: Option<string>)
    ensures GreaterThan(NaN, e)(v).valid && LesserThan(NaN, e)(v).valid
    ensures MinLength(NaN, e)(v).valid && MaxLength(NaN, e)(v).valid
  {
  }

  /** The cases of the `greaterThan` and `lesserThan` unit tests. */
  lemma BoundCases()
    ensures GreaterThan(FromInt(5), None)(Num(FromInt(1))).valid && GreaterThan(FromInt(5), None)(Num(FromInt(5))).valid
    ensures GreaterThan(FromInt(5), None)(Num(FromInt(-100))).valid
    ensures !GreaterThan(FromInt(5), None)(Num(FromInt(7))).valid && !GreaterThan(FromInt(5), None)(Num(FromInt(999999999999))).valid
    ensures LesserThan(FromInt(5), None)(Num(FromInt(7))).valid && LesserThan(FromInt(5), None)(Num(FromInt(999999999999))).valid
    ensures LesserThan(FromInt(5), None)(Num(FromInt(5))).valid
    ensures !LesserThan(FromInt(5), None)(Num(FromInt(1))).valid && !LesserThan(FromInt(5), None)(Num(FromInt(-100))).valid
  {
    BoundsOfIntegers(5, None, 1);
    BoundsOfIntegers(5, None, 5);
    BoundsOfIntegers(5, None, -100);
    BoundsOfIntegers(5, None, 7);
    BoundsOfIntegers(5, None, 999999999999);
  }

  /** `ipAddress` accepts exactly the RFC 3986 IPv4 addresses, which are the dotted
      quads of values from 0 to 255. */
  lemma IpAddressAcceptsIPv4(e: Option<string>, s: string)
    ensures IpAddress(e)(Text(s)).valid <==> s == "" || IsIPv4Address(s)
  {
    IpAddressPatternIsRfc3986(s);
  }

  lemma IpAddressAcceptsDottedQuads(e: Option<string>, a: nat, b: nat, c: nat, d: nat)
    requires a <= 255 && b <= 255 && c <= 255 && d <= 255
    ensures IpAddress(e)(Text(DottedQuad(a, b, c, d))).valid
  {
    DottedQuadIsIpAddress(a, b, c, d);
  }

  /** `macAddress` accepts six hex pairs joined by `:` or `-`, mixed freely, and nothing else. */
  lemma MacAddressAcceptsGroups(e: Option<string>, groups: seq<string>, seps: seq<char>)
    requires |groups| == 6 && |seps| == 5
    requires forall k | 0 <= k < 6 :: IsHexPair(groups[k])
    requires forall k | 0 <= k < 5 :: seps[k] == ':' || seps[k] == '-'
    ensures MacAddress(e)(Text(MacJoin(groups, seps))).valid
  {
    MacAddressFromGroups(groups, seps);
  }

  lemma MacAddressOnlyGroups(e: Option<string>, s: string)
    requires s != "" && MacAddress(e)(Text(s)).valid
    ensures s == MacJoin(MacGroups(s), MacSeparators(s))
    ensures forall k | 0 <= k < 6 :: IsHexPair(MacGroups(s)[k])
    ensures forall k | 0 <= k < 5 :: MacSeparators(s)[k] == ':' || MacSeparators(s)[k] == '-'
  {
    MacAddressIsGroups(s);
  }

  /** A supplied message replaces the default and changes nothing else. */
  lemma CustomMessageReplacesDefault(e: string, v: Value)
    ensures Required(Some(e))(v) == Verdict(Required(None)(v).valid, e)
    ensures Integer(Some(e))(v) == Verdict(Integer(None)(v).valid, e)
    ensures MacAddress(Some(e))(v) == Verdict(MacAddress(None)(v).valid, e)
    ensures IpAddress(Some(e))(v) == Verdict(IpAddress(None)(v).valid, e)
  {
  }

  /** The same for the rules that take a parameter. */
  lemma CustomMessageReplacesDefaultWithParameter(e: string, v: Value, maxDecimals: Option<nat>, base: int, bound: Number)
    requires maxDecimals.Some? ==> maxDecimals.value >= 1
    requires 1 <= base <= 36
    ensures Float(maxDecimals, Some(e))(v) == Verdict(Float(maxDecimals, None)(v).valid, e)
    ensures Base(base, Some(e))(v) == Verdict(Base(base, None)(v).valid, e)
    ensures GreaterThan(bound, Some(e))(v) == Verdict(GreaterThan(bound, None)(v).valid, e)
    ensures LesserThan(bound, Some(e))(v) == Verdict(LesserThan(bound, None)(v).valid, e)
    ensures MinLength(bound, Some(e))(v) == Verdict(MinLength(bound, None)(v).valid, e)
    ensures MaxLength(bound, Some(e))(v) == Verdict(MaxLength(bound, None)(v).valid, e)
  {
  }
}
