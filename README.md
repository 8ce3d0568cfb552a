# Form field-state and validation engine

A Dafny model of the form engine of a small React "create user" form. The form keeps
one piece of state, `formFieldStatuses`: a list of `{name, value, valid?}` records, at
most one per field when descriptor names are unique. A value change stores the new
value. A blur stores `isFormInputValid` for the field: the result of the first
descriptor's validator, or `true` when no descriptor has the name or the first one has
no validator. Cancel clears the list. Submit re-validates every field that is both
`required` and has a `validator`. If all of them are valid and an `onSubmit` callback
is present, it hands that callback one record per descriptor and clears the list; if
all are valid and there is no callback, the list is left as it is. Otherwise it marks
the failing fields `valid: false` and keeps their values.

Layout:

- `wrappers.dfy` (`Wrappers`): `Option`, the model of TypeScript's optional properties.
- `input.dfy` (`Input`): input values (`string | number | undefined`), input kinds and
  JavaScript truthiness.
- `form_types.dfy` (`FormTypes`): field states, field descriptors, submitted records,
  and name-uniqueness predicates.
- `form_utils.dfy` (`FormUtils`): the pure helpers of `FormUtils.ts` as functions, and
  lemmas about them.
- `form.dfy` (`Form`): the values the handlers compute, as functions. The component
  itself is class `Form`, with `formFieldStatuses` as a field and one method per event
  handler.

A descriptor's validator is a field of type `Option<FormFieldState -> bool>`. It is an
arbitrary total predicate, and every property holds for every validator. The concrete
validators and the descriptor table are not in the modelled files, so no regular
expression is assumed.

Behaviour of the code worth noting:

- Input kinds are the code's `text | email | checkbox | radio | radiogroup`.
- A name with no descriptor is valid: `isFormInputValid` returns `true`.
- Checkbox normalisation is JavaScript truthiness: `""`, `0` and `undefined` become
  `false`.
- A field that was never touched is submitted as `""`, including an untouched radio
  group, because the default record's value is `""`.
- After a rejected submit, the failing fields' entries move to the end of the list.
  Lookups by name are unaffected.

## Model

| member | source | states |
|---|---|---|
| FormUtils.DefaultStatus | src/components/Form/FormUtils.ts:15 | the default record carries the requested name, the empty (falsy) value `""` and no validity |
| FormUtils.GetFormInputStatus | src/components/Form/FormUtils.ts:8-16 | the result carries the requested name; it is the first stored entry with that name, or `{name, value: "", valid unset}` when there is none; never fails |
| FormUtils.GetFormValue | src/components/Form/FormUtils.ts:18-28 | for a checkbox the result is a boolean, true iff the value is neither `undefined`, `""` nor `0`; every other kind, including an absent kind (default "text"), returns the value unchanged |
| FormUtils.Without | src/components/Form/FormUtils.ts:31-33 | the filter keeps exactly the entries whose name is not among the given names, and is no longer than its input |
| FormUtils.WithoutCount | src/components/Form/FormUtils.ts:31-33 | every entry whose name is kept occurs in the result as often as in the input, so nothing else is dropped |
| FormUtils.WithoutAppend | src/components/Form/FormUtils.ts:31-33 | the filter distributes over concatenation, so kept entries keep their relative order |
| FormUtils.WithoutIdempotent | src/components/Form/FormUtils.ts:31-33 | filtering twice by the same names equals filtering once |
| FormUtils.WithoutUnique | src/components/Form/FormUtils.ts:31-33 | filtering a list with unique names yields unique names |
| FormUtils.UpdateFormFieldStatus | src/components/Form/FormUtils.ts:30-38 | the new record is the last element; no other entry has its name; the entries before it are the input minus that name; a lookup of that name returns the new record |
| FormUtils.UpdateIdempotent | src/components/Form/FormUtils.ts:30-38 | applying the same record twice gives the same list as applying it once |
| FormUtils.UpdateUnique | src/components/Form/FormUtils.ts:30-38 | replace-or-append keeps names unique |
| FormUtils.GetAppend | src/components/Form/FormUtils.ts:8-16 | a lookup in a concatenation uses the first part when it holds the name, and the second part otherwise |
| FormUtils.GetWithout | src/components/Form/FormUtils.ts:31-33 | dropping other names does not change what a lookup returns |
| FormUtils.GetUpdateOther | src/components/Form/FormUtils.ts:30-38 | after an update, every other name looks up exactly as before |
| FormUtils.FindFormInput | src/components/Form/FormUtils.ts:47 | the descriptor lookup returns the first descriptor of that name; none iff no descriptor has that name |
| FormUtils.IsFormInputValid | src/components/Form/FormUtils.ts:46-56 | true when no descriptor has the name or the first one has no validator; otherwise equals that validator applied to the field's looked-up state |
| FormUtils.ValidityIsLocal | src/components/Form/FormUtils.ts:46-56 | a field's validity depends only on its own looked-up state |
| FormUtils.Enforced | src/components/Form/FormUtils.ts:42 | a descriptor covered by submit-time validation always has a validator; a descriptor that is not required is never covered |
| FormUtils.CheckEach | src/components/Form/FormUtils.ts:41-43 | every result entry is a descriptor of the slice that is required and has a validator, tagged with the given validity of its name (`validateFormInputs` passes `isFormInputValid`) |
| FormUtils.CheckEachComplete | src/components/Form/FormUtils.ts:41-43 | every required descriptor with a validator gets its tagged entry |
| FormUtils.CheckEachAppend | src/components/Form/FormUtils.ts:41-43 | validation distributes over concatenation of the table, so results come in descriptor order |
| FormUtils.ValidateFormInputs | src/components/Form/FormUtils.ts:40-44 | the result holds exactly the required descriptors that have a validator, each tagged with `isFormInputValid` (soundness and completeness) |
| Form.FailingNames | src/components/Form/Form.tsx:39 | a name is in the failing-name list iff some tagged entry with that name is invalid; the list is no longer than its input |
| Form.InvalidNames | src/components/Form/Form.tsx:39 | there are no more invalid names than descriptors; with unique descriptor names no name is reported invalid twice |
| Form.FailingCheckedMember | src/components/Form/Form.tsx:39 | a name fails validation of a table slice iff a required descriptor with a validator in that slice carries it and the validity rejects it |
| Form.InvalidNamesMember | src/components/Form/Form.tsx:39 | a name is reported invalid iff it names a required descriptor with a validator whose field is invalid |
| Form.FormValidIff | src/components/Form/Form.tsx:39-40 | the form is valid (no invalid names) iff every required field with a validator is valid |
| FormUtils.CheckEachUnique | src/components/Form/FormUtils.ts:41-43 | validating a table with unique names yields entries with unique names |
| Form.FailingNamesDistinct | src/components/Form/Form.tsx:39 | failing names taken from entries with unique names are distinct |
| Form.WithValue | src/components/Form/Form.tsx:74-93 | after a value change the field has the new value and its old validity (unset if it was absent); every other field looks up as before; names stay unique |
| Form.WithValueIdempotent | src/components/Form/Form.tsx:74-93 | setting the same value twice equals setting it once |
| Form.WithValidity | src/components/Form/Form.tsx:96-101 | after a blur the field's validity is `isFormInputValid` and its value is kept (`""` if never touched); every other field looks up as before; names stay unique |
| Form.CheckboxOnValue | src/components/Form/Form.tsx:113 | the checked value is truthy: the descriptor's own value when truthy, otherwise "on" |
| Form.CheckboxValue | src/components/Form/Form.tsx:125 | the stored checkbox value is truthy iff the box was checked: the on-value when checked, `undefined` otherwise |
| Form.IsChecked | src/components/Form/Form.tsx:114 | a box shown checked has a truthy stored value; a box with no stored entry is shown unchecked |
| Form.CheckboxRoundTrip | src/components/Form/Form.tsx:113-127 | after checking or unchecking, the box shows exactly that state and submits exactly that boolean |
| Form.SubmittedData | src/components/Form/Form.tsx:43-52 | one record per descriptor, in descriptor order, with its name, label, type and the normalised stored value |
| Form.SubmittedDataOfEmptyState | src/components/Form/Form.tsx:43-52 | an untouched form submits `false` for each checkbox and `""` for every other field |
| Form.MarkedInvalid | src/components/Form/Form.tsx:61-65 | one record per failing name, with that name, the stored value and `valid: false` |
| Form.GetMarked | src/components/Form/Form.tsx:61-65 | looking up a failing name in the marked list gives its stored value with `valid: false` |
| Form.RejectedLookups | src/components/Form/Form.tsx:68 | in the merged list, failing names look up as their stored value with `valid: false`; all other names look up unchanged |
| Form.RejectedUnique | src/components/Form/Form.tsx:68 | the merged list has unique names when the state did and the failing names are distinct |
| Form.RejectedStatuses | src/components/Form/Form.tsx:61-70 | each failing field keeps its value and becomes invalid; all other fields look up unchanged; unique names are kept |
| Form.Form.constructor | src/components/Form/Form.tsx:30-34 | the component starts with an empty state, the given descriptor table and the given callback presence |
| Form.Form.ChangeValue | src/components/Form/Form.tsx:74-93 | the text handler replaces the state with the value-change transition |
| Form.Form.ChangeCheckbox | src/components/Form/Form.tsx:113-127 | the checkbox handler stores the on-value when checked and `undefined` otherwise; the box then shows that state and submits that boolean |
| Form.Form.ChangeRadioGroup | src/components/Form/Form.tsx:139-145 | the radio-group handler replaces the state with the value-change transition |
| Form.Form.Blur | src/components/Form/Form.tsx:96-101 | the blur handler replaces the state with the blur transition |
| Form.Form.Cancel | src/components/Form/Form.tsx:170 | cancel empties the state, so every lookup returns the default record |
| Form.Form.Submit | src/components/Form/Form.tsx:36-72 | the callback fires iff it is present and every required field with a validator is valid; it then receives the submitted records and the state is cleared. With no callback and a valid form, the state is unchanged. Otherwise the failing fields become invalid with their values kept and other fields are unchanged. In every case no field's value changes unless the state was cleared, and unique names are kept when descriptor names are unique |

## Left out

- Rendering (`Form.tsx` lines 103-181 apart from the handlers), CSS modules and the presentational components are not modelled.
- DOM events are abstracted. Each handler takes the new value or the checked flag directly. `preventDefault` has no counterpart.
- The application shell, which keeps past submissions and picks card colours, is not part of this model.
- Concrete validators (letters only, email shape, positive age) are not in the modelled files. A validator is an arbitrary total predicate.
- Numbers are integers. JavaScript floating point, including `NaN`, is not modelled. It would only matter for the truthiness of a checkbox value.
- React's asynchronous state setter is modelled as direct assignment. Each handler reads the state of the last render, and one handler runs to completion before the next.
- `updateFormValueHandler`'s `else` branch (`Form.tsx` lines 85-90) is unreachable, because `getFormInputStatus` always returns a record. It is modelled by the one reachable branch.
- The checkbox and radio-group handlers take the index of a rendered descriptor of the right kind, because those closures exist only for such descriptors.
