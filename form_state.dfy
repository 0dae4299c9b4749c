/** The validation store of `morms/src/Form.tsx`: a map from field label to whether
    the field is valid and whether its error is shown, the reducer that updates it, the
    aggregate validity, and the three handlers a form gives its fields and its submit
    button. Each event is applied to the latest state, one after another. */
module FormState {

  datatype FieldValidation = FieldValidation(showError: bool, isValid: bool)

  type Validations = map<string, FieldValidation>

  /** The reducer's actions; `Unrecognised` stands for any other action object. */
  datatype Action =
    | SetValidation(fieldname: string, showError: bool, isValid: bool)
    | EnableAllShowError
    | Unrecognised

  // ---------------------------------------------------------------------------
  // Specification

  /** Every entry has its error shown, with its validity kept. */
  function RevealAll(fields: Validations): (r: Validations)
    ensures r.Keys == fields.Keys
    ensures forall k | k in r :: r[k].showError && r[k].isValid == fields[k].isValid
  {
    map k | k in fields :: FieldValidation(true, fields[k].isValid)
  }

  /** The new store the reducer returns. */
  function Reduce(fields: Validations, action: Action): Validations {
    match action
    case SetValidation(f, showError, isValid) => fields[f := FieldValidation(showError, isValid)]
    case EnableAllShowError => RevealAll(fields)
    case Unrecognised => fields
  }

  /** The form is valid when no entry is invalid; an empty store is valid. */
  predicate AllValid(fields: Validations) {
    forall k | k in fields :: fields[k].isValid
  }

  /** A report keeps the error shown only if it is shown now and the field was invalid. */
  predicate KeepsShowError(fields: Validations, fieldname: string) {
    fieldname in fields && fields[fieldname].showError && !fields[fieldname].isValid
  }

  /** The store after a field reports its validity. */
  function OnValidated(fields: Validations, fieldname: string, valid: bool): Validations {
    Reduce(fields, SetValidation(fieldname, KeepsShowError(fields, fieldname), valid))
  }

  /** The properties every object literal inherits from `Object.prototype`: looking one
      of them up in a store without its own entry finds the inherited member, not
      `undefined`. */
  const InheritedNames: set<string> := {
    "constructor", "hasOwnProperty", "isPrototypeOf", "propertyIsEnumerable",
    "toLocaleString", "toString", "valueOf", "__proto__",
    "__defineGetter__", "__defineSetter__", "__lookupGetter__", "__lookupSetter__"
  }

  /** `validations[fieldname] !== undefined`. */
  predicate Present(fields: Validations, fieldname: string) {
    fieldname in fields || fieldname in InheritedNames
  }

  /** `validations[fieldname].isValid` where the lookup succeeds. An inherited member
      has no `isValid`; the `undefined` it gives is only ever negated or conjoined,
      where it acts as `false`. */
  function LookedUpValidity(fields: Validations, fieldname: string): bool {
    fieldname in fields && fields[fieldname].isValid
  }

  /** The store after a field loses focus: a label the lookup finds shows its error
      exactly when it is not valid, and keeps its validity. */
  function Blurred(fields: Validations, fieldname: string): Validations {
    if Present(fields, fieldname) then
      var isValid := LookedUpValidity(fields, fieldname);
      Reduce(fields, SetValidation(fieldname, !isValid, isValid))
    else fields
  }

  // ---------------------------------------------------------------------------
  // The reducer and the aggregate validity

  /** `validationReducer`: `set` rewrites one entry, `enableAllShowError` builds a new
      store entry by entry, anything else returns the store as it is. */
  method ValidationReducer(fields: Validations, action: Action) returns (r: Validations)
    ensures r == Reduce(fields, action)
    ensures action.SetValidation? ==>
      r.Keys == fields.Keys + {action.fieldname}
      && r[action.fieldname] == FieldValidation(action.showError, action.isValid)
      && forall k | k in fields && k != action.fieldname :: r[k] == fields[k]
    ensures action.EnableAllShowError? ==>
      r.Keys == fields.Keys && forall k | k in r :: r[k] == FieldValidation(true, fields[k].isValid)
    ensures action.Unrecognised? ==> r == fields
  {
    match action {
      case SetValidation(f, showError, isValid) =>
        r := fields[f := FieldValidation(showError, isValid)];
      case EnableAllShowError =>
        var newFields: Validations := map[];
        var remaining := fields.Keys;
        while remaining != {}
          invariant remaining <= fields.Keys
          invariant newFields.Keys == fields.Keys - remaining
          invariant forall k | k in newFields :: newFields[k] == FieldValidation(true, fields[k].isValid)
          decreases |remaining|
        {
          var field :| field in remaining;
          newFields := newFields[field := FieldValidation(true, fields[field].isValid)];
          remaining := remaining - {field};
        }
        r := newFields;
      case Unrecognised =>
        r := fields;
    }
  }

  /** The `isValid` memo: false at the first invalid entry, true otherwise. */
  method ComputeIsValid(fields: Validations) returns (valid: bool)
    ensures valid <==> forall k | k in fields :: fields[k].isValid
  {
    var remaining := fields.Keys;
    while remaining != {}
      invariant remaining <= fields.Keys
      invariant forall k | k in fields && k !in remaining :: fields[k].isValid
      decreases |remaining|
    {
      var field :| field in remaining;
      if !fields[field].isValid {
        return false;
      }
      remaining := remaining - {field};
    }
    return true;
  }

  // ---------------------------------------------------------------------------
  // The form component

  class Form {
    /** The reducer's current state. */
    var validations: Validations
    /** Whether the caller supplied `onSubmit`. */
    const hasOnSubmit: bool
    /** How many times the caller's `onSubmit` has been called. */
    var submitCalls: nat

    constructor(hasOnSubmit: bool)
      ensures validations == map[] && this.hasOnSubmit == hasOnSubmit && submitCalls == 0
    {
      validations := map[];
      this.hasOnSubmit := hasOnSubmit;
      submitCalls := 0;
    }

    method Dispatch(action: Action)
      modifies this
      ensures validations == Reduce(old(validations), action)
      ensures submitCalls == old(submitCalls)
    {
      validations := ValidationReducer(validations, action);
    }

    method IsValid() returns (valid: bool)
      ensures valid == AllValid(validations)
    {
      valid := ComputeIsValid(validations);
    }

    /** A field reports its validity; its error stays shown only if it was shown and
        the field was invalid. */
    method OnValidate(fieldname: string, valid: bool)
      modifies this
      ensures validations == OnValidated(old(validations), fieldname, valid)
      ensures submitCalls == old(submitCalls)
    {
      var showError := false;
      if fieldname in validations && validations[fieldname].showError && !validations[fieldname].isValid {
        showError := true;
      }
      Dispatch(SetValidation(fieldname, showError, valid));
    }

    method HandleOnBlurValidation(fieldname: string)
      modifies this
      ensures validations == Blurred(old(validations), fieldname)
      ensures submitCalls == old(submitCalls)
    {
      if fieldname in validations || fieldname in InheritedNames {
        var isValid := fieldname in validations && validations[fieldname].isValid;
        if !isValid {
          Dispatch(SetValidation(fieldname, true, isValid));
        } else {
          Dispatch(SetValidation(fieldname, false, isValid));
        }
      }
    }

    /** Reveals every error, then calls `onSubmit` if there is one and the form was
        valid when the submission started. */
    method HandleOnSubmit()
      modifies this
      ensures validations == RevealAll(old(validations))
      ensures submitCalls == old(submitCalls) + if hasOnSubmit && AllValid(old(validations)) then 1 else 0
    {
      var isValid := IsValid();
      Dispatch(EnableAllShowError);
      if hasOnSubmit && isValid {
        submitCalls := submitCalls + 1;
      }
    }
  }

  // ---------------------------------------------------------------------------
  // Properties of the transitions

  /** An empty store is valid. */
  lemma EmptyFormIsValid()
    ensures AllValid(map[])
  {
  }

  /** A report writes only its own entry: every other entry is as before, and the
      reported entry holds the reported validity. */
  lemma OnValidatedChangesOnlyItsField(fields: Validations, fieldname: string, valid: bool, other: string)
    requires other != fieldname
    ensures var r := OnValidated(fields, fieldname, valid);
      && fieldname in r && r[fieldname].isValid == valid
      && (other in r <==> other in fields)
      && (other in fields ==> r[other] == fields[other])
  {
  }

  /** The first report of a field never shows its error, and neither does a report that
      follows a valid one or one whose error is hidden. */
  lemma OnValidatedShowsErrorOnlyIfShownAndInvalid(fields: Validations, fieldname: string, valid: bool)
    ensures OnValidated(fields, fieldname, valid)[fieldname].showError <==>
      fieldname in fields && fields[fieldname].showError && !fields[fieldname].isValid
    ensures fieldname !in fields ==> !OnValidated(fields, fieldname, valid)[fieldname].showError
  {
  }

  /** Blurring a known field shows its error exactly when it is invalid and leaves its
      validity and every other entry alone; blurring an unknown label changes nothing,
      unless it names an inherited property, which gains an invalid entry with its
      error shown. */
  lemma BlurredShowsErrorIffInvalid(fields: Validations, fieldname: string)
    ensures fieldname !in fields && fieldname !in InheritedNames ==> Blurred(fields, fieldname) == fields
    ensures fieldname !in fields && fieldname in InheritedNames ==>
      Blurred(fields, fieldname) == fields[fieldname := FieldValidation(true, false)]
    ensures fieldname in fields ==>
      var r := Blurred(fields, fieldname);
      && r.Keys == fields.Keys
      && r[fieldname] == FieldValidation(!fields[fieldname].isValid, fields[fieldname].isValid)
      && forall k | k in fields && k != fieldname :: r[k] == fields[k]
  {
  }

  /** The aggregate after each transition: a report replaces one validity, a reveal
      leaves the aggregate as it was, and so does a blur, except that blurring an
      inherited property without an entry makes the form invalid. */
  lemma AllValidAfterTransitions(fields: Validations, fieldname: string, valid: bool)
    ensures AllValid(OnValidated(fields, fieldname, valid)) <==>
      valid && forall k | k in fields && k != fieldname :: fields[k].isValid
    ensures AllValid(Blurred(fields, fieldname)) ==
      (AllValid(fields) && (fieldname in fields || fieldname !in InheritedNames))
    ensures AllValid(RevealAll(fields)) == AllValid(fields)
  {
    var r := OnValidated(fields, fieldname, valid);
    assert fieldname in r && r[fieldname].isValid == valid;
    if AllValid(r) {
      forall k | k in fields && k != fieldname ensures fields[k].isValid {
        assert r[k] == fields[k];
      }
    }
    if valid && forall k | k in fields && k != fieldname :: fields[k].isValid {
      forall k | k in r ensures r[k].isValid {
        if k != fieldname {
          assert r[k] == fields[k];
        }
      }
    }
    if fieldname in fields {
      var b := Blurred(fields, fieldname);
      if AllValid(fields) {
        forall k | k in b ensures b[k].isValid {
          if k != fieldname {
            assert b[k] == fields[k];
          }
        }
      }
      if AllValid(b) {
        forall k | k in fields ensures fields[k].isValid {
          assert b[k].isValid;
        }
      }
    } else if fieldname in InheritedNames {
      var b := Blurred(fields, fieldname);
      assert fieldname in b && !b[fieldname].isValid;
    }
  }

  /** Reading the aggregate before or after the reveal gives the same answer, so the
      submit decision does not depend on which state it reads. */
  lemma SubmitDecisionUnaffectedByReveal(fields: Validations)
    ensures AllValid(RevealAll(fields)) <==> AllValid(fields)
  {
    AllValidAfterTransitions(fields, "", true);
  }

  // ---------------------------------------------------------------------------
  // Traces of one field

  datatype Event = Changed(valid: bool) | Blur | Submit

  /** The store after one event concerning the field `fieldname`. */
  function Step(fields: Validations, fieldname: string, e: Event): Validations {
    match e
    case Changed(valid) => OnValidated(fields, fieldname, valid)
    case Blur => Blurred(fields, fieldname)
    case Submit => RevealAll(fields)
  }

  function Run(fields: Validations, fieldname: string, events: seq<Event>): Validations
    decreases |events|
  {
    if events == [] then fields else Run(Step(fields, fieldname, events[0]), fieldname, events[1..])
  }

  predicate OnlyEdits(events: seq<Event>) {
    forall i | 0 <= i < |events| :: events[i].Changed?
  }

  predicate Hidden(fields: Validations, fieldname: string) {
    fieldname !in fields || !fields[fieldname].showError
  }

  /** Typing alone never reveals a hidden error. */
  lemma {:induction false} EditsNeverReveal(fields: Validations, fieldname: string, events: seq<Event>)
    requires Hidden(fields, fieldname) && OnlyEdits(events)
    ensures Hidden(Run(fields, fieldname, events), fieldname)
    decreases |events|
  {
    if events != [] {
      var next := Step(fields, fieldname, events[0]);
      assert events[0].Changed?;
      assert Hidden(next, fieldname);
      assert OnlyEdits(events[1..]) by {
        forall i | 0 <= i < |events[1..]| ensures events[1..][i].Changed? {
          assert events[1..][i] == events[i + 1];
        }
      }
      EditsNeverReveal(next, fieldname, events[1..]);
    }
  }

  /** Invalid reports keep a shown error shown. */
  lemma {:induction false} InvalidEditsKeepErrorShown(fields: Validations, fieldname: string, events: seq<Event>)
    requires fieldname in fields && fields[fieldname] == FieldValidation(true, false)
    requires forall i | 0 <= i < |events| :: events[i] == Changed(false)
    ensures var r := Run(fields, fieldname, events);
      fieldname in r && r[fieldname] == FieldValidation(true, false)
    decreases |events|
  {
    if events != [] {
      var next := Step(fields, fieldname, events[0]);
      assert next[fieldname] == FieldValidation(true, false);
      assert forall i | 0 <= i < |events[1..]| :: events[1..][i] == events[i + 1];
      InvalidEditsKeepErrorShown(next, fieldname, events[1..]);
    }
  }

  /** Whatever came before, two valid reports in a row leave the error hidden. */
  lemma TwoValidReportsHideError(fields: Validations, fieldname: string)
    ensures Run(fields, fieldname, [Changed(true), Changed(true)])[fieldname] == FieldValidation(false, true)
  {
    var once := Step(fields, fieldname, Changed(true));
    assert [Changed(true), Changed(true)][1..] == [Changed(true)];
    assert Run(once, fieldname, [Changed(true)]) == Step(once, fieldname, Changed(true)) by {
      assert [Changed(true)][1..] == [];
    }
  }

  /** The store of one field through: an invalid edit, a blur, an invalid edit, then two
      valid edits. The error appears on the blur, survives the first valid edit because
      the field was invalid until then, and disappears on the second. */
  lemma ShowErrorTrace(fieldname: string)
    ensures var s1 := Step(map[], fieldname, Changed(false));
      var s2 := Step(s1, fieldname, Blur);
      var s3 := Step(s2, fieldname, Changed(false));
      var s4 := Step(s3, fieldname, Changed(true));
      var s5 := Step(s4, fieldname, Changed(true));
      && s1[fieldname] == FieldValidation(false, false)
      && s2[fieldname] == FieldValidation(true, false)
      && s3[fieldname] == FieldValidation(true, false)
      && s4[fieldname] == FieldValidation(true, true)
      && s5[fieldname] == FieldValidation(false, true)
  {
  }
}
