/** The submit coordinator of `morms/src/SubmitButton.tsx`: a button that starts a
    submission on every click and, after it, remembers whether the form was invalid so
    that it can show a fixed message. Outside a form (`form == null`) the default
    context reports the form invalid and its click handler does nothing. */
module Submit {
  import opened Wrappers
  import opened FormState

  const ErrorMessage := "Not all fields are filled in correctly"

  class SubmitButton {
    /** The form whose submit context the button reads; `null` outside any form. */
    const form: Form?
    /** `noErrorText !== undefined && noErrorText`. */
    const noErrorText: bool
    var showError: bool

    constructor(form: Form?, noErrorText: bool)
      ensures this.form == form && this.noErrorText == noErrorText
      ensures !showError
    {
      this.form := form;
      this.noErrorText := noErrorText;
      showError := false;
    }

    /** The `isValid` of the submit context. */
    predicate ContextIsValid()
      reads this, form
    {
      form != null && AllValid(form.validations)
    }

    /** Starts the submission, then remembers whether the form was invalid. */
    method HandleOnClick()
      modifies this, form
      ensures showError == !old(ContextIsValid())
      ensures form != null ==>
        form.validations == RevealAll(old(form.validations))
        && form.submitCalls == old(form.submitCalls) + if form.hasOnSubmit && AllValid(old(form.validations)) then 1 else 0
    {
      var isValid := false;
      if form != null {
        isValid := form.IsValid();
        form.HandleOnSubmit();
      }
      if isValid {
        showError := false;
        return;
      }
      showError := true;
    }

    /** The text rendered above the button, if any. */
    function ErrorText(): (text: Option<string>)
      reads this
      ensures text.Some? <==> showError && !noErrorText
      ensures text.Some? ==> text.value == ErrorMessage
    {
      if noErrorText then None
      else if !showError then None
      else Some(ErrorMessage)
    }
  }

  /** A click inside a form leaves the flag equal to the form's validity, read before
      or after the click: every error is revealed but no validity changes. */
  method ClickReflectsValidity(form: Form, button: SubmitButton) returns (valid: bool)
    requires button.form == form
    modifies form, button
    ensures valid == AllValid(form.validations)
    ensures button.showError == !valid
    ensures forall k | k in form.validations :: form.validations[k].showError
  {
    button.HandleOnClick();
    SubmitDecisionUnaffectedByReveal(old(form.validations));
    valid := form.IsValid();
  }

  /** Outside a form every click raises the message, unless it is turned off. */
  method ClickOutsideForm(noErrorText: bool) returns (text: Option<string>)
    ensures text == if noErrorText then None else Some(ErrorMessage)
  {
    var button := new SubmitButton(null, noErrorText);
    button.HandleOnClick();
    text := button.ErrorText();
  }

  /** A fresh form with one invalid field: the first click shows the message and does
      not submit; after the field turns valid, the next click hides it and submits. */
  method SubmitScenario(fieldname: string) returns (first: Option<string>, second: Option<string>, submits: nat)
    ensures first == Some(ErrorMessage) && second == None && submits == 1
  {
    var form := new Form(true);
    var button := new SubmitButton(form, false);
    form.OnValidate(fieldname, false);
    button.HandleOnClick();
    first := button.ErrorText();
    assert form.submitCalls == 0;
    form.OnValidate(fieldname, true);
    assert form.validations == map[fieldname := FieldValidation(true, true)];
    button.HandleOnClick();
    second := button.ErrorText();
    submits := form.submitCalls;
  }
}
