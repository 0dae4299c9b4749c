/** The older validation store of `src/form/Form.tsx`. The entries are those of the
    current store; the reducer knows only `set`, there is no submit handler, and a
    report keeps a shown error shown whatever the field's previous validity. */
module LegacyFormState {
  import opened FormState

  datatype LegacyAction =
    | Set(fieldname: string, showError: bool, isValid: bool)
    | Other

  /** `validationReducer`: `set` rewrites one entry, any other action keeps the store. */
  function LegacyReduce(fields: Validations, action: LegacyAction): (r: Validations)
    ensures action.Set? ==>
      r.Keys == fields.Keys + {action.fieldname}
      && r[action.fieldname] == FieldValidation(action.showError, action.isValid)
      && forall k | k in fields && k != action.fieldname :: r[k] == fields[k]
    ensures action.Other? ==> r == fields
  {
    match action
    case Set(f, showError, isValid) => fields[f := FieldValidation(showError, isValid)]
    case Other => fields
  }

  /** The older guard: the error stays shown whenever it is shown now. */
  predicate LegacyKeepsShowError(fields: Validations, fieldname: string) {
    fieldname in fields && fields[fieldname].showError
  }

  function LegacyOnValidated(fields: Validations, fieldname: string, valid: bool): Validations {
    LegacyReduce(fields, Set(fieldname, LegacyKeepsShowError(fields, fieldname), valid))
  }

  function LegacyBlurred(fields: Validations, fieldname: string): Validations {
    if Present(fields, fieldname) then
      var isValid := LookedUpValidity(fields, fieldname);
      LegacyReduce(fields, Set(fieldname, !isValid, isValid))
    else fields
  }

  class LegacyForm {
    var validations: Validations

    constructor()
      ensures validations == map[]
    {
      validations := map[];
    }

    method Dispatch(action: LegacyAction)
      modifies this
      ensures validations == LegacyReduce(old(validations), action)
    {
      validations := LegacyReduce(validations, action);
    }

    method OnValidate(fieldname: string, valid: bool)
      modifies this
      ensures validations == LegacyOnValidated(old(validations), fieldname, valid)
    {
      var showError := false;
      if fieldname in validations && validations[fieldname].showError {
        showError := true;
      }
      Dispatch(Set(fieldname, showError, valid));
    }

    method HandleOnBlurValidation(fieldname: string)
      modifies this
      ensures validations == LegacyBlurred(old(validations), fieldname)
    {
      if fieldname in validations || fieldname in InheritedNames {
        var isValid := fieldname in validations && validations[fieldname].isValid;
        if !isValid {
          Dispatch(Set(fieldname, true, isValid));
        } else {
          Dispatch(Set(fieldname, false, isValid));
        }
      }
    }
  }

  // ---------------------------------------------------------------------------
  // Properties

  /** The two guards differ in exactly one case: a shown error on a field whose last
      report was valid. */
  lemma GuardsDifferOnlyWhenShownAndValid(fields: Validations, fieldname: string)
    ensures LegacyKeepsShowError(fields, fieldname) != KeepsShowError(fields, fieldname) <==>
      fieldname in fields && fields[fieldname].showError && fields[fieldname].isValid
  {
  }

  /** So the two stores agree on every report except in that case. */
  lemma ReportsAgreeOutsideThatCase(fields: Validations, fieldname: string, valid: bool)
    requires !(fieldname in fields && fields[fieldname].showError && fields[fieldname].isValid)
    ensures LegacyOnValidated(fields, fieldname, valid) == OnValidated(fields, fieldname, valid)
  {
  }

  /** Blurring works as in the current store. */
  lemma BlurAgrees(fields: Validations, fieldname: string)
    ensures LegacyBlurred(fields, fieldname) == Blurred(fields, fieldname)
  {
  }

  /** A report writes only its own entry. */
  lemma LegacyOnValidatedChangesOnlyItsField(fields: Validations, fieldname: string, valid: bool, other: string)
    requires other != fieldname
    ensures var r := LegacyOnValidated(fields, fieldname, valid);
      && fieldname in r && r[fieldname].isValid == valid
      && r[fieldname].showError == LegacyKeepsShowError(fields, fieldname)
      && (other in r <==> other in fields)
      && (other in fields ==> r[other] == fields[other])
  {
  }

  datatype LegacyEvent = Typed(valid: bool) | Left

  function LegacyStep(fields: Validations, fieldname: string, e: LegacyEvent): Validations {
    match e
    case Typed(valid) => LegacyOnValidated(fields, fieldname, valid)
    case Left => LegacyBlurred(fields, fieldname)
  }

  function LegacyRun(fields: Validations, fieldname: string, events: seq<LegacyEvent>): Validations
    decreases |events|
  {
    if events == [] then fields else LegacyRun(LegacyStep(fields, fieldname, events[0]), fieldname, events[1..])
  }

  /** A shown error stays shown through any edits, valid or not. */
  lemma {:induction false} ShownErrorPersistsThroughEdits(fields: Validations, fieldname: string, events: seq<LegacyEvent>)
    requires fieldname in fields && fields[fieldname].showError
    requires forall i | 0 <= i < |events| :: events[i].Typed?
    ensures var r := LegacyRun(fields, fieldname, events);
      fieldname in r && r[fieldname].showError
    decreases |events|
  {
    if events != [] {
      var next := LegacyStep(fields, fieldname, events[0]);
      assert next[fieldname].showError;
      assert forall i | 0 <= i < |events[1..]| :: events[1..][i] == events[i + 1];
      ShownErrorPersistsThroughEdits(next, fieldname, events[1..]);
    }
  }

  /** Only a blur while valid hides a shown error; a blur while invalid keeps it. */
  lemma BlurWhileValidHidesError(fields: Validations, fieldname: string)
    requires fieldname in fields
    ensures LegacyBlurred(fields, fieldname)[fieldname].showError <==> !fields[fieldname].isValid
  {
  }

  /** One field through: an invalid edit, a blur, two valid edits and a blur. The error
      appears on the blur, survives both valid edits (the current store hides it on
      the second) and disappears on the final blur. */
  lemma LegacyShowErrorTrace(fieldname: string)
    ensures var s1 := LegacyStep(map[], fieldname, Typed(false));
      var s2 := LegacyStep(s1, fieldname, Left);
      var s3 := LegacyStep(s2, fieldname, Typed(true));
      var s4 := LegacyStep(s3, fieldname, Typed(true));
      var s5 := LegacyStep(s4, fieldname, Left);
      && s2[fieldname] == FieldValidation(true, false)
      && s3[fieldname] == FieldValidation(true, true)
      && s4[fieldname] == FieldValidation(true, true)
      && OnValidated(s3, fieldname, true)[fieldname] == FieldValidation(false, true)
      && s5[fieldname] == FieldValidation(false, true)
  {
  }
}
