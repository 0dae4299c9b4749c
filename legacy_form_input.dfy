/** The field coordinator of `src/form/FormInput.tsx`, wired to the older store and the
    older rules. It behaves as the current one, except that a rule which throws ends
    the validation before the text is kept or the validity reported. */
module LegacyFieldInput {
  import opened Wrappers
  import opened Validators
  import opened LegacyValidators
  import opened FormState
  import opened LegacyFormState
  import opened FieldInput

  class LegacyFormInput {
    const fieldLabel: string
    const value: string
    const validators: Option<seq<LegacyValidator>>
    /** The form whose contexts the field reads; `null` outside any form. */
    const form: LegacyForm?
    const hasOnChange: bool
    const hasOnBlur: bool
    var helperText: string
    var effects: seq<Effect>

    constructor(fieldLabel: string, value: string, validators: Option<seq<LegacyValidator>>, form: LegacyForm?, hasOnChange: bool, hasOnBlur: bool)
      ensures this.fieldLabel == fieldLabel && this.value == value && this.validators == validators && this.form == form
      ensures this.hasOnChange == hasOnChange && this.hasOnBlur == hasOnBlur
      ensures helperText == "" && effects == []
    {
      this.fieldLabel := fieldLabel;
      this.value := value;
      this.validators := validators;
      this.form := form;
      this.hasOnChange := hasOnChange;
      this.hasOnBlur := hasOnBlur;
      helperText := "";
      effects := [];
    }

    function Rules(): seq<LegacyValidator>
      reads this
    {
      validators.GetOr([])
    }

    function Store(): Validations
      reads this, form
    {
      if form == null then map[] else form.validations
    }

    predicate ShouldShowValidationError()
      reads this, form
      ensures ShouldShowValidationError() ==> form != null && fieldLabel in form.validations
      ensures ShouldShowValidationError() <==>
        form != null && fieldLabel in form.validations && form.validations[fieldLabel].showError && helperText != ""
    {
      fieldLabel in Store() && Store()[fieldLabel].showError && helperText != ""
    }

    function DisplayedHelperText(): (shown: string)
      reads this, form
      ensures shown != "" <==> ShouldShowValidationError()
      ensures shown != "" ==> shown == helperText
    {
      if ShouldShowValidationError() then helperText else ""
    }

    /** `validateValue`; `threw` says that a rule threw and nothing was recorded. */
    method ValidateValue(v: string) returns (threw: bool)
      modifies this, form
      ensures threw <==> LegacyChain(Text(v), Rules()).TypeError?
      ensures threw ==> helperText == old(helperText) && effects == old(effects)
      ensures threw && form != null ==> form.validations == old(form.validations)
      ensures !threw ==>
        var o := LegacyChain(Text(v), Rules()).outcome;
        && helperText == o.text
        && effects == old(effects) + [ReportValidity(fieldLabel, o.valid)]
        && (form != null ==> form.validations == LegacyOnValidated(old(form.validations), fieldLabel, o.valid))
    {
      var result := LegacyValidators.Validate(v, validators.GetOr([]));
      if result.TypeError? {
        return true;
      }
      helperText := result.outcome.text;
      effects := effects + [ReportValidity(fieldLabel, result.outcome.valid)];
      if form != null {
        form.OnValidate(fieldLabel, result.outcome.valid);
      }
      return false;
    }

    method Mount() returns (threw: bool)
      modifies this, form
      ensures threw <==> LegacyChain(Text(value), Rules()).TypeError?
      ensures threw ==> helperText == old(helperText) && effects == old(effects)
      ensures threw && form != null ==> form.validations == old(form.validations)
      ensures !threw ==>
        var o := LegacyChain(Text(value), Rules()).outcome;
        && helperText == o.text
        && effects == old(effects) + [ReportValidity(fieldLabel, o.valid)]
        && (form != null ==> form.validations == LegacyOnValidated(old(form.validations), fieldLabel, o.valid))
    {
      threw := ValidateValue(value);
    }

    method HandleOnChange(newValue: string) returns (threw: bool)
      modifies this, form
      ensures threw <==> LegacyChain(Text(newValue), Rules()).TypeError?
      ensures var forwarded := if hasOnChange then [CallerOnChange(newValue)] else [];
        threw ==> effects == old(effects) + forwarded
      ensures threw ==> helperText == old(helperText)
      ensures threw && form != null ==> form.validations == old(form.validations)
      ensures !threw ==>
        var o := LegacyChain(Text(newValue), Rules()).outcome;
        var forwarded := if hasOnChange then [CallerOnChange(newValue)] else [];
        && helperText == o.text
        && effects == old(effects) + forwarded + [ReportValidity(fieldLabel, o.valid)]
        && (form != null ==> form.validations == LegacyOnValidated(old(form.validations), fieldLabel, o.valid))
    {
      if hasOnChange {
        effects := effects + [CallerOnChange(newValue)];
      }
      threw := ValidateValue(newValue);
    }

    method HandleOnBlur()
      modifies this, form
      ensures helperText == old(helperText)
      ensures effects == old(effects) + (if hasOnBlur then [CallerOnBlur] else []) + [ReportBlur(fieldLabel)]
      ensures form != null ==> form.validations == LegacyBlurred(old(form.validations), fieldLabel)
    {
      if hasOnBlur {
        effects := effects + [CallerOnBlur];
      }
      effects := effects + [ReportBlur(fieldLabel)];
      if form != null {
        form.HandleOnBlurValidation(fieldLabel);
      }
    }
  }
}
