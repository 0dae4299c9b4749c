# morms form validation, modelled in Dafny

morms is a small React form library. A form holds a store that maps each field label to
two flags: whether the field is valid and whether its error is shown. Each field runs a
list of validation rules on its text. It reports the result to the form, and it shows the
rule's message only while the store says so. A submit button reveals every error and
calls the caller's `onSubmit` only when every field is valid. The repository holds two
generations of this logic:

- the current one in `morms/src/`;
- an older one in `src/form/`, which has its own rules, store and field, plus an IP
  address field built on them.

This project models both generations without the rendering. Terms used below:

- **Rules** are closures from a value to an outcome. A value is absent, a JavaScript
  number or a string; an outcome is `{valid, text}`.
- **The regular expressions** are written out as character-level predicates. Each one
  is proved equal to an independent description of what it accepts. For example, the
  IPv4 expression is proved to accept exactly the `IPv4address` of section 3.2.2 of
  RFC 3986, and exactly the dotted-decimal text of four values from 0 to 255.
- **The store** is a class with a `map` field. Its reducer and its validity check are
  loops, as in the source. The handlers are methods proved against specification
  functions; lemmas then state what the handlers preserve and how a field's flags
  evolve over a trace of events.
- **The field and the submit button** are classes. Their effects on the outside world
  are an ordered log and a counter:
  - the calls a field makes to the caller's handlers and to the form;
  - the number of `onSubmit` calls.

Files (one module each):

| file | module | models |
|---|---|---|
| `wrappers.dfy` | `Wrappers` | `Option` |
| `strings.dfy` | `Strings` | decimal digits and numerals, split and join |
| `js_number.dfy` | `JsNumber` | `Number(string)`, `Number.prototype.toString`, `parseInt(s, 10)` |
| `patterns.dfy` | `Patterns` | the regular expressions of both rule sets |
| `validators.dfy` | `Validators` | `morms/src/validators.ts` |
| `legacy_validators.dfy` | `LegacyValidators` | `src/form/validators.tsx` |
| `form_state.dfy` | `FormState` | `morms/src/Form.tsx` |
| `legacy_form_state.dfy` | `LegacyFormState` | `src/form/Form.tsx` |
| `form_input.dfy` | `FieldInput` | `morms/src/FormInput.tsx` |
| `legacy_form_input.dfy` | `LegacyFieldInput` | `src/form/FormInput.tsx` |
| `submit_button.dfy` | `Submit` | `morms/src/SubmitButton.tsx` |
| `ip_input.dfy` | `IPInput` | `src/form/IPInput.tsx` |

### Where the code was followed over its description

- **The store's guard.** A field's report keeps its error shown only when the error was
  shown and the field was invalid before the report (`morms/src/Form.tsx`). So after a
  shown error, the first valid report still leaves the error shown, and only the next
  report hides it: a valid edit after a shown error does not hide it at once. The model
  follows the code; see `FormState.ShowErrorTrace`.
- **The `0x`/`0b` prefix.** The doc comment of `base` says a `0x` or `0b` prefix is
  rejected. That holds only while `x` or `b` is not itself a digit of the base. The model
  follows the code, which accepts `0x1` in base 34 and `0b1` in base 12; see
  `Validators.BaseRejectsPrefixes`.

## Model

The two field coordinators, `src/form/FormInput.tsx` and `morms/src/FormInput.tsx`, each define
`shouldShowValidationError` and the displayed helper text the same way; the model keeps
both copies, one per generation, on purpose.

| member | source | states |
|---|---|---|
| Validators.Validate | morms/src/validators.ts:13-25 | the loop returns the first invalid outcome unchanged, with every earlier rule valid and no later rule applied; if no rule fails it returns `{true, ""}`; the result is valid iff every rule accepts |
| Validators.ChainFirstFailure | morms/src/validators.ts:13-25 | the chain is valid iff every rule accepts; a valid chain gives `{true, ""}`; an invalid chain gives the outcome of some rule all of whose predecessors accept |
| Validators.ChainAppend | morms/src/validators.ts:13-25 | running two lists one after the other is running their concatenation |
| Validators.Message | morms/src/validators.ts:35-38 | a supplied `errorText` is the message; otherwise the default is |
| Validators.Verdict | morms/src/validators.ts:267-273 | a valid outcome has empty text; an invalid one carries the message |
| Validators.Required | morms/src/validators.ts:34-46 | invalid with the message exactly for an empty value, valid otherwise |
| Validators.Integer | morms/src/validators.ts:59-76 | an empty value passes; otherwise valid iff `Number(value)` is finite and whole |
| Validators.Float | morms/src/validators.ts:91-114 | an empty value passes; otherwise valid iff the printed value matches the expression selected by `maxDecimals`, with the message selected likewise |
| Validators.Base | morms/src/validators.ts:129-151 | an empty value passes; otherwise valid iff the printed value matches the character class built from the base |
| Validators.GreaterThan | morms/src/validators.ts:153-170 | invalid only when the leading integer of the printed value exists and exceeds the bound, which may be any number (a fraction, an infinity, NaN); the message prints the bound as `toString` does |
| Validators.LesserThan | morms/src/validators.ts:172-189 | invalid only when the leading integer exists and is below the bound, which may be any number; the message prints the bound |
| Validators.MacAddress | morms/src/validators.ts:191-209 | an empty value passes; otherwise valid iff the MAC expression matches |
| Validators.IpAddress | morms/src/validators.ts:211-229 | an empty value passes; otherwise valid iff the IPv4 expression matches |
| Validators.MinLength | morms/src/validators.ts:231-247 | invalid only when the length of the printed value is below the minimum, which may be any number; the message prints it |
| Validators.MaxLength | morms/src/validators.ts:249-265 | invalid only when the length of the printed value exceeds the maximum, which may be any number; the message prints it |
| Validators.EmptyValuesPassAllButRequired | morms/src/validators.ts:275-277 | `""` and absent values fail `required` and pass every other rule |
| Validators.RequiredCases | morms/src/validators.spec.ts:6-31 | the `required` unit-test cases |
| Validators.IntegerAcceptsIntegers | morms/src/validators.ts:65-75 | every integer passes `integer`, both as a number and as its decimal text |
| Validators.IntegerRejectsFractions | morms/src/validators.ts:70-74 | a number with a fractional part fails `integer` with its message |
| Validators.IntegerRejectsNonNumbers | morms/src/validators.ts:70-74 | a non-empty string that `Number` reads as NaN fails `integer` |
| Validators.IntegerCases | morms/src/validators.spec.ts:33-79 | `9.61` and `-100.1` fail `integer` |
| Validators.IntegerRejectsWord | morms/src/validators.spec.ts:33-79 | `"some string"` fails `integer` |
| Validators.FloatOfText | morms/src/validators.ts:104-113 | a string passes `float` iff it is empty or matches the selected expression (the contract of `Validators.Float` specialised to text) |
| Validators.FloatOfNumber | morms/src/validators.ts:109 | a number passes `float` iff its `toString` matches the selected expression (the contract of `Validators.Float` specialised to numbers) |
| Validators.FloatTextCases | morms/src/validators.spec.ts:81-151 | the string cases of the `float` unit tests, accepted and rejected |
| Validators.FloatNumberCases | morms/src/validators.spec.ts:81-151 | the number cases of the `float` unit tests: `.10`, `0`, `10` (also written `10.`), `10.1`, `10.11` and `-10.11` pass |
| Validators.FloatAcceptsAnySeparator | morms/src/validators.ts:96 | with a maximum of 2 decimals `"10a5"` is accepted, while the unbounded rule and the corrected rule reject it |
| Validators.FloatCorrected | morms/src/validators.ts:91-114 | the rule with the separator of the bounded expression restricted to `.` or `,` |
| Validators.FloatCorrectedIsBoundedFloat | morms/src/validators.ts:92-97 | the corrected bounded rule accepts exactly the unbounded floats whose decimals, when a separator is present, number 1 to n |
| Validators.BaseAcceptsDigitsBelowBase | morms/src/validators.ts:129-151 | a string passes `base(b)` iff it is empty or every character is a digit whose value is below b |
| Validators.BaseRejectsPrefixes | morms/src/validators.ts:119-120 | `"0x…"` passes only in base 34 and up, and `"0b…"` only above base 11, in each case when the rest are digits of the base |
| Validators.GreaterThanOfLeadingInteger | morms/src/validators.ts:165 | a value that starts with the notation of n passes `greaterThan(max)` iff n > max is false; with an integer bound, iff n ≤ max, so the bound itself passes |
| Validators.LesserThanOfLeadingInteger | morms/src/validators.ts:184 | a value that starts with the notation of n passes `lesserThan(min)` iff n < min is false; with an integer bound, iff n ≥ min |
| Validators.BoundsOfIntegerNumber | morms/src/validators.ts:164-165 | an integer number below 10^21 in magnitude is compared as it is by both bound rules |
| Validators.BoundsOfIntegers | morms/src/validators.ts:164-165 | with an integer bound, an integer number passes `greaterThan` iff it is at most the bound and `lesserThan` iff it is at least the bound |
| Validators.FractionalBoundCases | morms/src/validators.ts:153-189 | under `greaterThan(99.5)` 99 passes and 100 fails with "Must be smaller than 99.5"; under `lesserThan(99.5)` the reverse |
| Validators.GreaterThanRejection | morms/src/validators.ts:153-167 | a value `greaterThan` rejects gets the message built from the printed bound, or the caller's text |
| Validators.NaNBoundAcceptsAll | morms/src/validators.ts:165-265 | with a NaN bound every comparison is false, so the two bound rules and the two length rules accept every value |
| Validators.LengthBoundsOfIntegers | morms/src/validators.ts:241-259 | with an integer bound, `minLength` passes iff the text is at least that long and `maxLength` iff it is at most that long |
| Validators.BoundCases | morms/src/validators.spec.ts:154-217 | the `greaterThan(5)` and `lesserThan(5)` unit-test cases |
| Validators.IpAddressAcceptsIPv4 | morms/src/validators.ts:212 | `ipAddress` accepts exactly the empty string and the RFC 3986 IPv4 addresses |
| Validators.IpAddressAcceptsDottedQuads | morms/src/validators.ts:212 | four values from 0 to 255 in dotted-decimal notation pass `ipAddress` |
| Validators.MacAddressAcceptsGroups | morms/src/validators.ts:192 | six hex pairs joined by `:` or `-`, mixed freely, pass `macAddress` |
| Validators.MacAddressOnlyGroups | morms/src/validators.ts:192 | every non-empty string that passes `macAddress` is six hex pairs joined by `:` or `-` |
| Validators.CustomMessageReplacesDefault | morms/src/validators.ts:35-38 | for `required`, `integer`, `macAddress` and `ipAddress`, a supplied message changes the text of an invalid outcome and nothing else |
| Validators.CustomMessageReplacesDefaultWithParameter | morms/src/validators.ts:35-38 | the same for `float`, `base`, `greaterThan`, `lesserThan`, `minLength` and `maxLength`, whatever their parameter |
| Validators.IsEmptyValue | morms/src/validators.ts:275-277 | only `undefined`, `null` and the empty string are empty: no number, not even `0`, and no non-empty text |
| Patterns.StripMinus | morms/src/validators.ts:92 | `-?` removes a leading `-` whenever there is one, and otherwise leaves the input as it is |
| Patterns.FloatSplitIsFirstNonDigit | morms/src/validators.ts:92 | matching the unbounded expression at the first non-digit is the same as matching it with the separator at any split point |
| Patterns.BoundedFloatSplitIsFirstNonDigit | morms/src/validators.ts:96 | matching the bounded expression at the first non-digit is the same as matching it at any split point |
| Patterns.BoundedFloatIntendedIsFloat | morms/src/validators.ts:92-96 | the corrected bounded expression is the unbounded one with 1 to n decimals after a separator |
| Patterns.BoundedFloatIntendedAgrees | morms/src/validators.ts:96 | the corrected expression never accepts more, and both agree whenever the separator is `.` or `,` |
| Patterns.BaseClassIsDigitValue | morms/src/validators.ts:131-141 | the character class is exactly the characters whose digit value is below the base |
| Patterns.MacAddressFromGroups | morms/src/validators.ts:192 | joining six hex pairs with `:` or `-` matches the expression |
| Patterns.MacAddressIsGroups | morms/src/validators.ts:192 | a matching string is the join of its six groups and five separators |
| Patterns.RegexOctetIsDecOctet | morms/src/validators.ts:212 | the octet alternatives under `(?!0\d)` are exactly RFC 3986 `dec-octet` |
| Patterns.DecOctetIsSmallNumeral | morms/src/validators.ts:212 | a `dec-octet` is the canonical notation of a number from 0 to 255 |
| Patterns.IpAddressPatternIsRfc3986 | morms/src/validators.ts:212 | the expression, with its lookahead, accepts exactly the RFC 3986 `IPv4address` strings |
| Patterns.DottedQuadIsIpAddress | morms/src/validators.ts:212 | the dotted-decimal text of four values from 0 to 255 matches |
| Patterns.IpAddressIsDottedQuad | morms/src/validators.ts:212 | every match is the dotted-decimal text of its four octet values, each at most 255 |
| JsNumber.ToStringOfInteger | morms/src/validators.ts:109 | an integer below 10^21 in magnitude prints as its plain decimal notation |
| JsNumber.StringToNumberOfInteger | morms/src/validators.ts:70 | `Number` reads the notation of every integer back as that integer |
| JsNumber.ParseIntPrefix | morms/src/validators.ts:165 | `parseInt` of an integer's notation followed by a non-digit is that integer |
| JsNumber.CompareWithInteger | morms/src/validators.ts:165-184 | comparing an integer with an integer-valued number is the comparison of the two integers |
| JsNumber.CompareMonotone | morms/src/validators.ts:165-184 | no integer is both above and below a number, and a larger integer stays above a number a smaller one is above |
| LegacyValidators.Validate | src/form/validators.tsx:10-22 | the loop returns the first invalid outcome, or `{true, ""}` when every rule returns valid; a rule that throws ends the run |
| LegacyValidators.LegacyChainAllPass | src/form/validators.tsx:10-22 | the chain returns the valid result iff every rule returns valid |
| LegacyValidators.LegacyChainFirstFailure | src/form/validators.tsx:10-22 | the chain returns the valid result iff every rule returns valid; otherwise its completion is that of some rule all of whose predecessors returned valid |
| LegacyValidators.ReturningRulesDoNotThrow | src/form/validators.tsx:10-22 | a chain of rules that all return on a value returns on it |
| LegacyValidators.Lift | src/form/validators.tsx:10-22 | a rule that never throws, seen as an older rule, returns its outcome |
| LegacyValidators.LiftedChain | src/form/validators.tsx:10-22 | on rules that never throw, the older `validate` yields what the current one does |
| LegacyValidators.LegacyRequired | src/form/validators.tsx:24-36 | invalid exactly for an empty value |
| LegacyValidators.LegacyInteger | src/form/validators.tsx:38-53 | an empty value passes; otherwise valid iff the value is not NaN and is whole |
| LegacyValidators.LegacyFloat | src/form/validators.tsx:56-72 | only the bounded expression, with the unescaped `.` |
| LegacyValidators.LegacyBase | src/form/validators.tsx:74-95 | every non-empty number throws a TypeError; strings and absent values are checked as by the current rule |
| LegacyValidators.MaxValue | src/form/validators.tsx:97-112 | invalid only when `parseInt` of the value exists and exceeds the bound, which may be any number; the message prints the bound |
| LegacyValidators.MinValue | src/form/validators.tsx:114-129 | invalid only when `parseInt` of the value exists and is below the bound, which may be any number; the message prints the bound |
| LegacyValidators.LegacyMacAddress | src/form/validators.tsx:131-147 | valid iff empty or a MAC address |
| LegacyValidators.LegacyIpAddress | src/form/validators.tsx:150-166 | valid iff empty or an IPv4 address |
| LegacyValidators.LegacyMinLength | src/form/validators.tsx:168-184 | invalid only when the length is below the minimum, which may be any number |
| LegacyValidators.LegacyMaxLength | src/form/validators.tsx:186-202 | invalid only when the length exceeds the maximum, which may be any number |
| LegacyValidators.LegacyRulesAgree | src/form/validators.tsx:24-202 | every older rule but `base` returns what its current counterpart returns, for every bound |
| LegacyValidators.LegacyFractionalBound | src/form/validators.tsx:97-112 | `maxValue(99.5)` rejects 100 with "Must be smaller than 99.5" and accepts 99 |
| LegacyValidators.LegacyBaseAgreesOnText | src/form/validators.tsx:74-95 | the older `base` agrees with the current one except on numbers, where it throws and the current one checks the printed number |
| LegacyValidators.LegacyBaseReturnsOnText | src/form/validators.tsx:86 | on a string the older `base` never throws |
| LegacyValidators.LegacyFloatRejectsTrailingSeparator | src/form/validators.tsx:56-72 | `"10."` fails the older `float(n)` for every n and passes the current unbounded `float` |
| FormState.RevealAll | morms/src/Form.tsx:49-57 | every entry has its error shown, with its validity kept and no key added or removed |
| FormState.ValidationReducer | morms/src/Form.tsx:37-59 | `set` rewrites one entry and keeps every other; the loop of `enableAllShowError` builds the revealed store over the same keys; any other action returns the store as it is |
| FormState.ComputeIsValid | morms/src/Form.tsx:88-95 | the loop answers true iff every entry is valid |
| FormState.Form.constructor | morms/src/Form.tsx:84-86 | the store starts empty and `onSubmit` has not been called |
| FormState.Form.Dispatch | morms/src/Form.tsx:86 | the store becomes the reducer's result |
| FormState.Form.IsValid | morms/src/Form.tsx:88-95 | the memo is the aggregate validity of the current store |
| FormState.Form.OnValidate | morms/src/Form.tsx:97-109 | the reported entry gets the reported validity and keeps its error shown only if it was shown and invalid |
| FormState.Form.HandleOnBlurValidation | morms/src/Form.tsx:111-120 | a known field shows its error iff it is invalid; an inherited `Object.prototype` name without an entry gains one that shows its error and is invalid; any other unknown label changes nothing |
| FormState.Form.HandleOnSubmit | morms/src/Form.tsx:122-128 | every error is revealed, and `onSubmit` is called once iff it is supplied and the form was valid |
| FormState.EmptyFormIsValid | morms/src/Form.tsx:88-95 | an empty store is valid |
| FormState.OnValidatedChangesOnlyItsField | morms/src/Form.tsx:37-47 | a report writes only its own entry |
| FormState.OnValidatedShowsErrorOnlyIfShownAndInvalid | morms/src/Form.tsx:97-109 | after a report the error is shown iff it was shown and the field was invalid; a first report never shows it |
| FormState.BlurredShowsErrorIffInvalid | morms/src/Form.tsx:111-120 | blurring a known field sets `showError` to `!isValid`, keeps its validity and every other entry; blurring an inherited name without an entry adds an entry with the error shown and validity false; any other unknown label is a no-op |
| FormState.AllValidAfterTransitions | morms/src/Form.tsx:88-128 | after a report the form is valid iff the reported validity and every other entry are; a reveal leaves validity as it was, and so does a blur unless it adds an entry for an inherited name, which makes the form invalid |
| FormState.SubmitDecisionUnaffectedByReveal | morms/src/Form.tsx:122-128 | the validity read before the reveal equals the one read after it |
| FormState.EditsNeverReveal | morms/src/Form.tsx:97-109 | typing alone never shows a hidden error |
| FormState.InvalidEditsKeepErrorShown | morms/src/Form.tsx:100-106 | invalid reports keep a shown error shown |
| FormState.TwoValidReportsHideError | morms/src/Form.tsx:100-106 | two valid reports in a row always leave the error hidden |
| FormState.ShowErrorTrace | morms/src/Form.tsx:97-120 | invalid edit: hidden; blur: shown; invalid edit: shown; first valid edit: still shown; second: hidden |
| LegacyFormState.LegacyReduce | src/form/Form.tsx:29-42 | `set` rewrites only the named entry; any other action returns the store unchanged |
| LegacyFormState.LegacyForm.OnValidate | src/form/Form.tsx:54-64 | the reported entry keeps its error shown whenever it was shown |
| LegacyFormState.LegacyForm.HandleOnBlurValidation | src/form/Form.tsx:66-76 | a known field shows its error iff it is invalid; an inherited `Object.prototype` name without an entry gains one that shows its error and is invalid; any other unknown label changes nothing |
| LegacyFormState.GuardsDifferOnlyWhenShownAndValid | src/form/Form.tsx:59-61 | the older and the current guard differ exactly on a shown error of a valid field |
| LegacyFormState.ReportsAgreeOutsideThatCase | src/form/Form.tsx:54-64 | outside that case the two stores record a report identically |
| LegacyFormState.BlurAgrees | src/form/Form.tsx:66-76 | the two stores blur identically |
| LegacyFormState.LegacyOnValidatedChangesOnlyItsField | src/form/Form.tsx:29-42 | a report writes only its own entry |
| LegacyFormState.ShownErrorPersistsThroughEdits | src/form/Form.tsx:59-61 | a shown error stays shown through any sequence of edits, valid or not |
| LegacyFormState.BlurWhileValidHidesError | src/form/Form.tsx:69-74 | after a blur the error is shown iff the field is invalid |
| LegacyFormState.LegacyShowErrorTrace | src/form/Form.tsx:54-76 | an error shown by a blur survives two valid edits and disappears at the next blur |
| FieldInput.FormInput.ShouldShowValidationError | morms/src/FormInput.tsx:49-55 | the error shows only inside a form whose store has an entry for the label, and then exactly when that entry shows it and the helper text is not empty |
| FieldInput.FormInput.DisplayedHelperText | morms/src/FormInput.tsx:84-88 | the helper text is displayed iff the error is shown, and it is then the text of the last validation |
| FieldInput.FormInput.ValidateValue | morms/src/FormInput.tsx:35-47 | the helper text becomes the chain's text; the validity is reported once, after anything logged before |
| FieldInput.FormInput.Mount | morms/src/FormInput.tsx:73-75 | the initial value is validated and reported, with no change event |
| FieldInput.FormInput.HandleOnChange | morms/src/FormInput.tsx:57-63 | the caller's `onChange` is called first, then the new value is validated and reported |
| FieldInput.FormInput.HandleOnBlur | morms/src/FormInput.tsx:65-71 | the caller's `onBlur` is called first, then the label is reported; the helper text is kept |
| FieldInput.NoErrorOutsideForm | morms/src/Form.tsx:61-82 | outside a form the default store is empty, so no error is ever displayed |
| FieldInput.ValidFieldShowsNoError | morms/src/FormInput.tsx:49-55 | a field whose last validation passed shows no error, whatever the store says |
| FieldInput.NoRulesAcceptEverything | morms/src/FormInput.tsx:37 | with no rules every value is valid with an empty text |
| FieldInput.MountInFreshForm | morms/src/FormInput.tsx:73-75 | a field mounted in a new form is its only entry, with its error hidden and its validity the chain's |
| LegacyFieldInput.LegacyFormInput.ShouldShowValidationError | src/form/FormInput.tsx:45-51 | the same decision over the older store |
| LegacyFieldInput.LegacyFormInput.DisplayedHelperText | src/form/FormInput.tsx:80-84 | the helper text is displayed iff the error is shown |
| LegacyFieldInput.LegacyFormInput.ValidateValue | src/form/FormInput.tsx:35-43 | on a returned chain the helper text and the report are the chain's; a throw records nothing |
| LegacyFieldInput.LegacyFormInput.Mount | src/form/FormInput.tsx:69-71 | the initial value is validated once; when a rule throws, the helper text, the effects and the store stay as they were |
| LegacyFieldInput.LegacyFormInput.HandleOnChange | src/form/FormInput.tsx:53-59 | the caller's `onChange` is called first, then the new value is validated; when a rule throws, only that call is recorded, and the helper text and the store stay as they were |
| LegacyFieldInput.LegacyFormInput.HandleOnBlur | src/form/FormInput.tsx:61-67 | the caller's `onBlur` is called first, then the label is reported |
| Submit.SubmitButton.constructor | morms/src/SubmitButton.tsx:33 | the flag starts false |
| Submit.SubmitButton.HandleOnClick | morms/src/SubmitButton.tsx:35-44 | the form's submit always runs first; afterwards the flag is the negation of the validity the button read |
| Submit.SubmitButton.ErrorText | morms/src/SubmitButton.tsx:46-55 | the fixed message is rendered iff the flag is set and `noErrorText` is not |
| Submit.ClickReflectsValidity | morms/src/SubmitButton.tsx:35-44 | after a click inside a form the flag is the negation of the form's validity, and every error is revealed |
| Submit.ClickOutsideForm | morms/src/Form.tsx:77-82 | outside a form a click always raises the message, unless it is turned off |
| Submit.SubmitScenario | morms/src/SubmitButton.tsx:35-55 | on one invalid field a click shows the message and does not submit; once the field is valid the next click hides it and submits once |
| IPInput.AllValidators | src/form/IPInput.tsx:17 | the chain is the IP rule followed by the caller's rules in their order |
| IPInput.FieldPropsOf | src/form/IPInput.tsx:16-18 | every property but `validators` passes through unchanged |
| IPInput.Render | src/form/IPInput.tsx:15-19 | the field is built from the passed-through properties and the extended chain |
| IPInput.ChainChecksAddressFirst | src/form/IPInput.tsx:17 | the caller's rules run only on an address the IP rule accepts |
| IPInput.MalformedAddressShortCircuits | src/form/IPInput.tsx:17 | a non-empty malformed address yields the IP message and no caller rule runs |
| IPInput.NoCallerRules | src/form/IPInput.tsx:17 | with no caller rules the chain is the IP rule alone |

## Left out

- React machinery is not modelled: hooks, context providers and re-rendering. Each
  event sees the latest store, and events apply one after another. The stale render
  snapshot that `onValidate` reads in `morms/src/Form.tsx` is not modelled.
- Rendering, styling and the `label`/`helperText` props of `TextField` are not modelled.
  `morms/src/PasswordInput.tsx`, `src/TextInput.tsx`, `morms/src/index.ts`, the demo
  applications and the compiled `lib/` output are not part of this model.
- The `console.log` calls of `src/form/Form.tsx` are left out (output only).
- The caller's `onChange`, `onBlur` and `onSubmit` are unknown code. They appear as
  entries of a field's effect log and as a call counter on the form.
- Binary floating point is not modelled. A number is the shortest decimal that denotes
  it, so rounding, overflow and precision loss are outside the model. Printing follows
  Number::toString on that decimal, exponent notation included (`1e+21`, `1e-7`).
- `Number(string)` reads white space, a signed decimal with an optional exponent,
  `Infinity`, and unsigned `0x`, `0o` and `0b` integers. Any other text is NaN, as in
  JavaScript; that includes numeric separators such as `1_000`.
- Strings are sequences of Unicode characters. JavaScript's `length` counts UTF-16 code
  units, which differs for characters outside the Basic Multilingual Plane.
- Patterns.MatchesBoundedFloat: its unescaped `.` takes one character, where JavaScript's
  takes one UTF-16 code unit. So `float(2)` applied to `10😀5` is rejected by JavaScript,
  because the low surrogate is not `[0-9]`, but the model accepts it.
- Validators.Base: requires a base from 1 to 36. Outside that range the source builds an
  expression that either throws or no longer describes digits of the base.
- LegacyValidators.LegacyBase: requires a base from 1 to 36, for the same reason.
- Validators.Float: requires `maxDecimals`, when given, to be at least 1. With 0 the
  expression `{1,0}` is a SyntaxError in JavaScript.
- LegacyValidators.LegacyFloat: requires `maxDecimals` of at least 1, for the same reason.
- A bound is a number as the rest of the model has it: a finite decimal, an infinity or
  NaN. Binary rounding of the bound is not modelled.
- An inherited `Object.prototype` member has no `isValid`. A blur of such a name without
  an entry stores `undefined` there. The model stores `false`, because the source only
  ever negates that value (`!isValid`) or conjoins it, and `undefined` then acts as
  `false`.
- FormState.RevealAll: does not model a store with its own `__proto__` entry. The loop of
  `enableAllShowError` writes `newFields["__proto__"]` by assignment, and that replaces
  the prototype of the new object instead of adding an entry. The model keeps the entry.
- FormState.ValidationReducer: does not model that `__proto__` case either, for the same
  reason.
- The `showAllValidationErrors` prop of a field (`morms/src/FormInput.tsx`) is declared
  but never read, and has no counterpart here.

## Findings

| source | as written | input that shows it | evidently intended | confidence | as-written member | corrected member |
|---|---|---|---|---|---|---|
| morms/src/validators.ts:96 | the bounded `float` expression `^-?[0-9]+(.[0-9]{1,n})?$` leaves its `.` unescaped, so any character other than a line terminator separates the decimals | `"10a5"` with `maxDecimals` 2 is valid | the separator of the unbounded expression, `.` or `,` | not executed | Validators.FloatAcceptsAnySeparator | Validators.FloatCorrectedIsBoundedFloat |
| src/form/validators.tsx:57 | the older `float(maxDecimals)` has the same unescaped `.` | `"10a5"` with `maxDecimals` 2 is valid | the separator `.` or `,` | not executed | LegacyValidators.LegacyFloat | Patterns.BoundedFloatIntendedIsFloat |
