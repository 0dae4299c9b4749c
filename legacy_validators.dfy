/** The older rule set of `src/form/validators.tsx`. Its rules take the same values
    and give the same outcomes as those of `morms/src/validators.ts`, except that
    `float` always has a maximum number of decimals, the bounds are called `maxValue`
    and `minValue`, and `base` calls `value.match` without converting the value to a
    string first, which throws a TypeError for a number. */
module LegacyValidators {
  import opened Strings
  import opened Wrappers
  import opened JsNumber
  import opened Patterns
  import opened Validators

  /** How a call of a rule ends: with an outcome, or with a thrown TypeError. */
  datatype Completion = Returned(outcome: Outcome) | TypeError

  type LegacyValidator = Value -> Completion

  /** What `validate` does: the first invalid outcome, else the valid result; an
      exception ends the run. */
  function LegacyChain(v: Value, validators: seq<LegacyValidator>): Completion {
    if validators == [] then Returned(ValidResult())
    else
      match validators[0](v)
      case TypeError => TypeError
      case Returned(o) => if !o.valid then Returned(o) else LegacyChain(v, validators[1..])
  }

  /** Runs the rules in order on `input`; an exception thrown by a rule escapes. */
  method Validate(input: string, validators: seq<LegacyValidator>) returns (r: Completion)
    ensures r == LegacyChain(Text(input), validators)
    ensures r == Returned(ValidResult()) <==>
      forall i | 0 <= i < |validators| :: validators[i](Text(input)).Returned? && validators[i](Text(input)).outcome.valid
    ensures r.Returned? && !r.outcome.valid ==>
      exists k | 0 <= k < |validators| :: r == validators[k](Text(input))
  {
    var i := 0;
    while i < |validators|
      invariant 0 <= i <= |validators|
      invariant forall j | 0 <= j < i :: validators[j](Text(input)).Returned? && validators[j](Text(input)).outcome.valid
      invariant LegacyChain(Text(input), validators) == LegacyChain(Text(input), validators[i..])
    {
      var result := validators[i](Text(input));
      assert validators[i..][1..] == validators[i + 1..];
      if result.TypeError? {
        return TypeError;
      }
      if !result.outcome.valid {
        return result;
      }
      i := i + 1;
    }
    return Returned(ValidResult());
  }

  /** A chain passes exactly when every rule returns a pass. */
  lemma {:induction false} LegacyChainAllPass(v: Value, validators: seq<LegacyValidator>)
    ensures LegacyChain(v, validators) == Returned(ValidResult()) <==>
      forall i | 0 <= i < |validators| :: validators[i](v).Returned? && validators[i](v).outcome.valid
  {
    if validators != [] && validators[0](v).Returned? && validators[0](v).outcome.valid {
      LegacyChainAllPass(v, validators[1..]);
      assert forall i | 1 <= i < |validators| :: validators[i] == validators[1..][i - 1];
    }
  }

  lemma {:induction false} LegacyChainFirstFailure(v: Value, validators: seq<LegacyValidator>)
    ensures LegacyChain(v, validators) == Returned(ValidResult()) <==>
      forall i | 0 <= i < |validators| :: validators[i](v).Returned? && validators[i](v).outcome.valid
    ensures !(LegacyChain(v, validators).Returned? && LegacyChain(v, validators).outcome.valid) ==>
      exists k | 0 <= k < |validators| ::
        LegacyChain(v, validators) == validators[k](v)
        && forall i | 0 <= i < k :: validators[i](v).Returned? && validators[i](v).outcome.valid
  {
    LegacyChainAllPass(v, validators);
    if validators != [] && validators[0](v).Returned? && validators[0](v).outcome.valid {
      var rest := validators[1..];
      LegacyChainFirstFailure(v, rest);
      assert forall i | 1 <= i < |validators| :: validators[i] == rest[i - 1];
      if !(LegacyChain(v, rest).Returned? && LegacyChain(v, rest).outcome.valid) {
        var k :| 0 <= k < |rest| && LegacyChain(v, rest) == rest[k](v)
          && forall i | 0 <= i < k :: rest[i](v).Returned? && rest[i](v).outcome.valid;
        assert LegacyChain(v, validators) == validators[k + 1](v);
      }
    }
  }

  /** A chain whose rules all return on `v` returns on `v`. */
  lemma {:induction false} ReturningRulesDoNotThrow(v: Value, validators: seq<LegacyValidator>)
    requires forall i | 0 <= i < |validators| :: validators[i](v).Returned?
    ensures LegacyChain(v, validators).Returned?
  {
    if validators != [] {
      assert forall i | 0 <= i < |validators[1..]| :: validators[1..][i] == validators[i + 1];
      ReturningRulesDoNotThrow(v, validators[1..]);
    }
  }

  /** A rule that never throws, seen as a legacy rule. */
  function Lift(check: Validator): (lifted: LegacyValidator)
    ensures forall v :: lifted(v) == Returned(check(v))
  {
    v => Returned(check(v))
  }

  /** A chain of rules that never throw runs as the current `validate` does. */
  lemma {:induction false} LiftedChain(v: Value, checks: seq<Validator>)
    ensures LegacyChain(v, seq(|checks|, i requires 0 <= i < |checks| => Lift(checks[i]))) == Returned(ChainResult(v, checks))
  {
    var lifted := seq(|checks|, i requires 0 <= i < |checks| => Lift(checks[i]));
    if checks != [] {
      assert lifted[0] == Lift(checks[0]);
      assert lifted[1..] == seq(|checks[1..]|, i requires 0 <= i < |checks[1..]| => Lift(checks[1..][i]));
      LiftedChain(v, checks[1..]);
    }
  }

  // ---------------------------------------------------------------------------
  // The rules

  function LegacyRequired(errorText: Option<string>): (check: LegacyValidator)
    ensures forall v :: check(v) == Returned(Verdict(!IsEmptyValue(v), Message("This field is required", errorText)))
  {
    v => if IsEmptyValue(v) then Returned(InvalidResult(Message("This field is required", errorText))) else Returned(ValidResult())
  }

  /** `!isNaN(value) && Number(value) % 1 === 0`; `isNaN` coerces as `Number` does. */
  function LegacyInteger(errorText: Option<string>): (check: LegacyValidator)
    ensures forall v :: check(v) ==
              Returned(Verdict(IsEmptyValue(v) || IsInteger(ToNumber(v)), Message("Must be a whole number", errorText)))
  {
    v =>
      if IsEmptyValue(v) then Returned(ValidResult())
      else if ToNumber(v) != NaN && IsInteger(ToNumber(v)) then Returned(ValidResult())
      else Returned(InvalidResult(Message("Must be a whole number", errorText)))
  }

  /** Only the bounded pattern, with its unescaped `.`. */
  function LegacyFloat(maxDecimals: nat, errorText: Option<string>): (check: LegacyValidator)
    requires maxDecimals >= 1
    ensures forall v :: check(v) ==
              Returned(Verdict(IsEmptyValue(v) || MatchesBoundedFloat(ToStr(v), maxDecimals),
                               Message("Must be a number with a maximum of " + Show(maxDecimals) + " decimals", errorText)))
  {
    v =>
      if IsEmptyValue(v) then Returned(ValidResult())
      else if MatchesBoundedFloat(ToStr(v), maxDecimals) then Returned(ValidResult())
      else Returned(InvalidResult(Message("Must be a number with a maximum of " + Show(maxDecimals) + " decimals", errorText)))
  }

  /** `value.match(regex)`: strings only; a number has no `match` method. */
  function LegacyBase(base: int, errorText: Option<string>): (check: LegacyValidator)
    requires 1 <= base <= 36
    ensures forall v: Value | v.Num? :: check(v) == TypeError
    ensures forall v: Value | !v.Num? :: check(v) ==
              Returned(Verdict(IsEmptyValue(v) || MatchesBase(v.s, base), Message("Must be a base " + Show(base) + " number", errorText)))
  {
    v =>
      if IsEmptyValue(v) then Returned(ValidResult())
      else match v
        case Num(_) => TypeError
        case Text(s) =>
          if MatchesBase(s, base) then Returned(ValidResult())
          else Returned(InvalidResult(Message("Must be a base " + Show(base) + " number", errorText)))
  }

  /** `parseInt(value, 10) > maxVal`; `parseInt` reads `value` as a string, and `maxVal`
      may be any number. */
  function MaxValue(maxVal: Number, errorText: Option<string>): (check: LegacyValidator)
    ensures forall v :: check(v) ==
              Returned(Verdict(IsEmptyValue(v) || !ParsesAbove(ToStr(v), maxVal), Message("Must be smaller than " + JsNumber.ToString(maxVal), errorText)))
  {
    v =>
      if IsEmptyValue(v) then Returned(ValidResult())
      else if ParsesAbove(ToStr(v), maxVal) then Returned(InvalidResult(Message("Must be smaller than " + JsNumber.ToString(maxVal), errorText)))
      else Returned(ValidResult())
  }

  function MinValue(minVal: Number, errorText: Option<string>): (check: LegacyValidator)
    ensures forall v :: check(v) ==
              Returned(Verdict(IsEmptyValue(v) || !ParsesBelow(ToStr(v), minVal), Message("Must be larger than " + JsNumber.ToString(minVal), errorText)))
  {
    v =>
      if IsEmptyValue(v) then Returned(ValidResult())
      else if ParsesBelow(ToStr(v), minVal) then Returned(InvalidResult(Message("Must be larger than " + JsNumber.ToString(minVal), errorText)))
      else Returned(ValidResult())
  }

  /** `pattern.test(value)` reads `value` as a string. */
  function LegacyMacAddress(errorText: Option<string>): (check: LegacyValidator)
    ensures forall v :: check(v) ==
              Returned(Verdict(IsEmptyValue(v) || MatchesMacAddress(ToStr(v)), Message("Not a valid MAC address", errorText)))
  {
    v =>
      if IsEmptyValue(v) then Returned(ValidResult())
      else if !MatchesMacAddress(ToStr(v)) then Returned(InvalidResult(Message("Not a valid MAC address", errorText)))
      else Returned(ValidResult())
  }

  function LegacyIpAddress(errorText: Option<string>): (check: LegacyValidator)
    ensures forall v :: check(v) ==
              Returned(Verdict(IsEmptyValue(v) || MatchesIpAddress(ToStr(v)), Message("Not a valid IP address", errorText)))
  {
    v =>
      if IsEmptyValue(v) then Returned(ValidResult())
      else if !MatchesIpAddress(ToStr(v)) then Returned(InvalidResult(Message("Not a valid IP address", errorText)))
      else Returned(ValidResult())
  }

  function LegacyMinLength(min: Number, errorText: Option<string>): (check: LegacyValidator)
    ensures forall v :: check(v) ==
              Returned(Verdict(IsEmptyValue(v) || !IntLess(|ToStr(v)|, min), Message("Must at least be " + JsNumber.ToString(min) + " characters long", errorText)))
  {
    v =>
      if IsEmptyValue(v) then Returned(ValidResult())
      else if IntLess(|ToStr(v)|, min) then Returned(InvalidResult(Message("Must at least be " + JsNumber.ToString(min) + " characters long", errorText)))
      else Returned(ValidResult())
  }

  function LegacyMaxLength(max: Number, errorText: Option<string>): (check: LegacyValidator)
    ensures forall v :: check(v) ==
              Returned(Verdict(IsEmptyValue(v) || !IntGreater(|ToStr(v)|, max), Message("Must at most be " + JsNumber.ToString(max) + " characters long", errorText)))
  {
    v =>
      if IsEmptyValue(v) then Returned(ValidResult())
      else if IntGreater(|ToStr(v)|, max) then Returned(InvalidResult(Message("Must at most be " + JsNumber.ToString(max) + " characters long", errorText)))
      else Returned(ValidResult())
  }

  // ---------------------------------------------------------------------------
  // Agreement with the current rule set

  /** Every older rule but `base` behaves as its current counterpart, with `float(n)`
      the current `float` with a maximum and `maxValue`/`minValue` the current
      `greaterThan`/`lesserThan`. */
  lemma LegacyRulesAgree(v: Value, e: Option<string>, n: nat, bound: Number)
    requires n >= 1
    ensures LegacyRequired(e)(v) == Returned(Required(e)(v))
    ensures LegacyInteger(e)(v) == Returned(Integer(e)(v))
    ensures LegacyFloat(n, e)(v) == Returned(Float(Some(n), e)(v))
    ensures MaxValue(bound, e)(v) == Returned(GreaterThan(bound, e)(v))
    ensures MinValue(bound, e)(v) == Returned(LesserThan(bound, e)(v))
    ensures LegacyMacAddress(e)(v) == Returned(MacAddress(e)(v))
    ensures LegacyIpAddress(e)(v) == Returned(IpAddress(e)(v))
    ensures LegacyMinLength(bound, e)(v) == Returned(MinLength(bound, e)(v))
    ensures LegacyMaxLength(bound, e)(v) == Returned(MaxLength(bound, e)(v))
  {
  }

  /** `maxValue(99.5)` rejects 100 with the bound printed as written, and accepts 99. */
  lemma LegacyFractionalBound(e: Option<string>)
    ensures MaxValue(Finite(Decimal(995, -1)), None)(Num(FromInt(100))) == Returned(InvalidResult("Must be smaller than 99.5"))
    ensures MaxValue(Finite(Decimal(995, -1)), None)(Num(FromInt(99))) == Returned(ValidResult())
  {
    LegacyRulesAgree(Num(FromInt(100)), None, 1, Finite(Decimal(995, -1)));
    LegacyRulesAgree(Num(FromInt(99)), None, 1, Finite(Decimal(995, -1)));
    FractionalBoundCases();
  }

  /** The older `base` agrees with the current one on strings and absent values, and
      throws on every non-empty number, where the current one converts it first. */
  lemma LegacyBaseAgreesOnText(v: Value, e: Option<string>, base: int)
    requires 1 <= base <= 36
    ensures !v.Num? ==> LegacyBase(base, e)(v) == Returned(Base(base, e)(v))
    ensures v.Num? ==> LegacyBase(base, e)(v) == TypeError
    ensures v.Num? ==> Base(base, e)(v) == Base(base, e)(Text(JsNumber.ToString(v.n)))
  {
  }

  /** `validate` passes its input as a string, so no older rule throws inside it. */
  lemma LegacyBaseReturnsOnText(s: string, e: Option<string>, base: int)
    requires 1 <= base <= 36
    ensures LegacyBase(base, e)(Text(s)).Returned?
  {
  }

  /** Without the unbounded mode, a separator with no decimals after it is rejected. */
  lemma LegacyFloatRejectsTrailingSeparator(n: nat, e: Option<string>)
    requires n >= 1
    ensures !LegacyFloat(n, e)(Text("10.")).outcome.valid
    ensures Float(None, e)(Text("10.")).valid
  {
    TrailingSeparator(n);
    LegacyFloatOfText(n, e, "10.");
    FloatOfText(None, e, "10.");
  }

  lemma LegacyFloatOfText(n: nat, e: Option<string>, s: string)
    requires n >= 1
    ensures LegacyFloat(n, e)(Text(s)).Returned?
    ensures LegacyFloat(n, e)(Text(s)).outcome.valid <==> s == "" || MatchesBoundedFloat(s, n)
  {
  }
}
