/** `src/form/IPInput.tsx`: a field that checks for an IP address before the caller's
    own rules and passes every other property to the older field coordinator. */
module IPInput {
  import opened Wrappers
  import JsNumber
  import opened Validators
  import opened LegacyValidators
  import opened Patterns
  import opened LegacyFormState
  import opened LegacyFieldInput

  /** The properties of a field. */
  datatype FieldProps = FieldProps(
    fieldLabel: string,
    value: string,
    validators: Option<seq<LegacyValidator>>,
    hasOnChange: bool,
    hasOnBlur: bool)

  /** `[ipAddress(), ...(validators || [])]`. */
  function AllValidators(validators: Option<seq<LegacyValidator>>): (chain: seq<LegacyValidator>)
    ensures |chain| == 1 + |validators.GetOr([])|
    ensures forall v :: chain[0](v) == LegacyIpAddress(None)(v)
    ensures chain[1..] == validators.GetOr([])
  {
    [LegacyIpAddress(None)] + validators.GetOr([])
  }

  /** The properties handed to the field coordinator: only `validators` is replaced. */
  function FieldPropsOf(props: FieldProps): (inner: FieldProps)
    ensures inner.fieldLabel == props.fieldLabel && inner.value == props.value
    ensures inner.hasOnChange == props.hasOnChange && inner.hasOnBlur == props.hasOnBlur
    ensures inner.validators.Some? && inner.validators.value == AllValidators(props.validators)
  {
    props.(validators := Some(AllValidators(props.validators)))
  }

  /** Renders the field: a coordinator built from the adjusted properties. */
  method Render(props: FieldProps, form: LegacyForm?) returns (input: LegacyFormInput)
    ensures fresh(input)
    ensures input.fieldLabel == props.fieldLabel && input.value == props.value && input.form == form
    ensures input.hasOnChange == props.hasOnChange && input.hasOnBlur == props.hasOnBlur
    ensures input.validators == Some(AllValidators(props.validators))
    ensures input.helperText == "" && input.effects == []
  {
    var inner := FieldPropsOf(props);
    input := new LegacyFormInput(inner.fieldLabel, inner.value, inner.validators, form, inner.hasOnChange, inner.hasOnBlur);
  }

  /** The chain checks the address first and runs the caller's rules only on a valid one. */
  lemma ChainChecksAddressFirst(v: Value, validators: Option<seq<LegacyValidator>>)
    ensures LegacyChain(v, AllValidators(validators)) ==
      if IpAddress(None)(v).valid then LegacyChain(v, validators.GetOr([])) else Returned(IpAddress(None)(v))
  {
    LegacyRulesAgree(v, None, 1, JsNumber.NaN);
    var chain := AllValidators(validators);
    assert chain[1..] == validators.GetOr([]);
  }

  /** A non-empty malformed address yields the IP message, and no caller rule runs. */
  lemma MalformedAddressShortCircuits(s: string, validators: Option<seq<LegacyValidator>>)
    requires s != "" && !IsIPv4Address(s)
    ensures LegacyChain(Text(s), AllValidators(validators)) == Returned(InvalidResult("Not a valid IP address"))
  {
    ChainChecksAddressFirst(Text(s), validators);
    IpAddressAcceptsIPv4(None, s);
  }

  /** Without caller rules the chain is the address check alone. */
  lemma NoCallerRules(v: Value)
    ensures LegacyChain(v, AllValidators(None)) == Returned(IpAddress(None)(v))
  {
    ChainChecksAddressFirst(v, None);
  }
}
