/** The field coordinator of `morms/src/FormInput.tsx`. It keeps the text of its last
    validation, runs its rules when mounted and on every change, reports its validity
    and its blurs to the enclosing form, and forwards change and blur events to the
    caller's own handlers first. Outside a form (`form == null`) it sees the default
    contexts: an empty store and handlers that do nothing. */
module FieldInput {
  import opened Wrappers
  import opened Validators
  import opened FormState

  /** The calls a field makes, in order: to the caller's handlers and to the form's. */
  datatype Effect =
    | CallerOnChange(value: string)
    | CallerOnBlur
    | ReportValidity(fieldname: string, valid: bool)
    | ReportBlur(fieldname: string)

  class FormInput {
    const fieldLabel: string
    /** The `value` prop, validated on mount. */
    const value: string
    const validators: Option<seq<Validator>>
    /** The form whose contexts the field reads; `null` outside any form. */
    const form: Form?
    const hasOnChange: bool
    const hasOnBlur: bool
    var helperText: string
    var effects: seq<Effect>

    constructor(fieldLabel: string, value: string, validators: Option<seq<Validator>>, form: Form?, hasOnChange: bool, hasOnBlur: bool)
      ensures this.fieldLabel == fieldLabel && this.value == value && this.validators == validators && this.form == form
      ensures this.hasOnChange == hasOnChange && this.hasOnBlur == hasOnBlur
      ensures helperText == "" && effects == []
    {
      this.fieldLabel := fieldLabel;
      this.value := value;
      this.validators := validators;
      this.form := form;
      this.hasOnChange := hasOnChange;
      this.hasOnBlur := hasOnBlur;
      helperText := "";
      effects := [];
    }

    /** The rules in force: the `validators` prop, or none. */
    function Rules(): seq<Validator>
      reads this
    {
      validators.GetOr([])
    }

    /** The store the field reads from its context. */
    function Store(): Validations
      reads this, form
    {
      if form == null then map[] else form.validations
    }

    /** The error is shown when the store shows it for this label and there is a text. */
    predicate ShouldShowValidationError()
      reads this, form
      ensures ShouldShowValidationError() ==> form != null && fieldLabel in form.validations
      ensures ShouldShowValidationError() <==>
        form != null && fieldLabel in form.validations && form.validations[fieldLabel].showError && helperText != ""
    {
      fieldLabel in Store() && Store()[fieldLabel].showError && helperText != ""
    }

    /** The helper text displayed under the field: the message while the error is shown,
        nothing otherwise. */
    function DisplayedHelperText(): (shown: string)
      reads this, form
      ensures shown != "" <==> ShouldShowValidationError()
      ensures shown != "" ==> shown == helperText
    {
      if ShouldShowValidationError() then helperText else ""
    }

    /** `validateValue`: runs the rules, keeps the text, reports the validity. */
    method ValidateValue(v: string)
      modifies this, form
      ensures helperText == ChainResult(Text(v), Rules()).text
      ensures effects == old(effects) + [ReportValidity(fieldLabel, ChainResult(Text(v), Rules()).valid)]
      ensures form != null ==>
        form.validations == OnValidated(old(form.validations), fieldLabel, ChainResult(Text(v), Rules()).valid)
        && form.submitCalls == old(form.submitCalls)
    {
      var result, _ := Validate(v, validators.GetOr([]));
      helperText := result.text;
      effects := effects + [ReportValidity(fieldLabel, result.valid)];
      if form != null {
        form.OnValidate(fieldLabel, result.valid);
      }
    }

    /** The mount effect validates the initial value, without any change event. */
    method Mount()
      modifies this, form
      ensures helperText == ChainResult(Text(value), Rules()).text
      ensures effects == old(effects) + [ReportValidity(fieldLabel, ChainResult(Text(value), Rules()).valid)]
      ensures form != null ==>
        form.validations == OnValidated(old(form.validations), fieldLabel, ChainResult(Text(value), Rules()).valid)
        && form.submitCalls == old(form.submitCalls)
    {
      ValidateValue(value);
    }

    /** A change goes to the caller's `onChange` first, then the new value is validated. */
    method HandleOnChange(newValue: string)
      modifies this, form
      ensures helperText == ChainResult(Text(newValue), Rules()).text
      ensures effects == old(effects) + (if hasOnChange then [CallerOnChange(newValue)] else [])
                         + [ReportValidity(fieldLabel, ChainResult(Text(newValue), Rules()).valid)]
      ensures form != null ==>
        form.validations == OnValidated(old(form.validations), fieldLabel, ChainResult(Text(newValue), Rules()).valid)
        && form.submitCalls == old(form.submitCalls)
    {
      if hasOnChange {
        effects := effects + [CallerOnChange(newValue)];
      }
      ValidateValue(newValue);
    }

    /** A blur goes to the caller's `onBlur` first, then the label goes to the form. */
    method HandleOnBlur()
      modifies this, form
      ensures helperText == old(helperText)
      ensures effects == old(effects) + (if hasOnBlur then [CallerOnBlur] else []) + [ReportBlur(fieldLabel)]
      ensures form != null ==>
        form.validations == Blurred(old(form.validations), fieldLabel) && form.submitCalls == old(form.submitCalls)
    {
      if hasOnBlur {
        effects := effects + [CallerOnBlur];
      }
      effects := effects + [ReportBlur(fieldLabel)];
      if form != null {
        form.HandleOnBlurValidation(fieldLabel);
      }
    }
  }

  /** Outside a form no error is ever shown, since the default store is empty. */
  lemma NoErrorOutsideForm(input: FormInput)
    requires input.form == null
    ensures !input.ShouldShowValidationError() && input.DisplayedHelperText() == ""
  {
  }

  /** A field whose last validation passed shows no error, whatever the store says,
      because a valid outcome has an empty text. */
  lemma ValidFieldShowsNoError(input: FormInput, v: string)
    requires input.helperText == ChainResult(Text(v), input.Rules()).text
    requires ChainResult(Text(v), input.Rules()).valid
    ensures !input.ShouldShowValidationError()
  {
    ChainFirstFailure(Text(v), input.Rules());
  }

  /** A field with no rules accepts everything and reports itself valid. */
  lemma NoRulesAcceptEverything(v: string)
    ensures ChainResult(Text(v), Option<seq<Validator>>.None.GetOr([])) == ValidResult()
  {
  }

  /** A field mounted in a fresh form joins the store with its error hidden, and the
      form's validity is then that field's validity. */
  method MountInFreshForm(fieldLabel: string, value: string, validators: Option<seq<Validator>>) returns (form: Form, input: FormInput)
    ensures fieldLabel in form.validations && !form.validations[fieldLabel].showError
    ensures form.validations[fieldLabel].isValid == ChainResult(Text(value), validators.GetOr([])).valid
    ensures form.validations.Keys == {fieldLabel}
    ensures !input.ShouldShowValidationError()
  {
    form := new Form(false);
    input := new FormInput(fieldLabel, value, validators, form, false, false);
    input.Mount();
  }
}
