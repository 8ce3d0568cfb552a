/**
 * The form component of src/components/Form/Form.tsx without its rendering: the
 * one piece of state it owns, `formFieldStatuses`, and the event handlers that
 * replace it. The values the handlers compute are pure functions; the component
 * is a class whose methods assign the new state.
 */
module Form {
  import opened Wrappers
  import opened Input
  import opened FormTypes
  import opened FormUtils

  // ---------------------------------------------------------------------------
  // Value change and blur

  /** The state after the field `inputName` is given `value`, its validity kept
      (`{...getFormInputStatus(...), value}` stored with `updateFormFieldStatus`). */
  function WithValue(statuses: seq<FormFieldState>, inputName: string, value: InputValue): (r: seq<FormFieldState>)
    ensures GetFormInputStatus(r, inputName) ==
            FormFieldState(inputName, value, GetFormInputStatus(statuses, inputName).valid)
    ensures forall other :: other != inputName ==>
              GetFormInputStatus(r, other) == GetFormInputStatus(statuses, other)
    ensures UniqueNames(statuses) ==> UniqueNames(r)
  {
    var state := GetFormInputStatus(statuses, inputName).(value := value);
    GetUpdateOther(statuses, state);
    UpdateUnique(statuses, state);
    UpdateFormFieldStatus(statuses, state)
  }

  /** The state after the field `inputName` loses focus: its validity becomes
      `isFormInputValid`, its value is kept. */
  function WithValidity(statuses: seq<FormFieldState>, inputs: seq<FormInput>, inputName: string): (r: seq<FormFieldState>)
    ensures GetFormInputStatus(r, inputName) ==
            FormFieldState(inputName, GetFormInputStatus(statuses, inputName).value,
                           Some(IsFormInputValid(statuses, inputs, inputName)))
    ensures forall other :: other != inputName ==>
              GetFormInputStatus(r, other) == GetFormInputStatus(statuses, other)
    ensures UniqueNames(statuses) ==> UniqueNames(r)
  {
    var state := GetFormInputStatus(statuses, inputName).(valid := Some(IsFormInputValid(statuses, inputs, inputName)));
    GetUpdateOther(statuses, state);
    UpdateUnique(statuses, state);
    UpdateFormFieldStatus(statuses, state)
  }

  // ---------------------------------------------------------------------------
  // Checkbox

  /** The value a checked box stores: the descriptor's own value if truthy, else "on". */
  function CheckboxOnValue(formInput: FormInput): (r: InputValue)
    ensures Truthy(r)
    ensures Truthy(formInput.value) ==> r == formInput.value
    ensures !Truthy(formInput.value) ==> r == Str("on")
  {
    if Truthy(formInput.value) then formInput.value else Str("on")
  }

  /** The value the checkbox handler stores: the on-value when checked, `undefined` otherwise. */
  function CheckboxValue(formInput: FormInput, checked: bool): (r: InputValue)
    ensures Truthy(r) == checked
    ensures checked ==> r == CheckboxOnValue(formInput)
    ensures !checked ==> r == Undef
  {
    if checked then CheckboxOnValue(formInput) else Undef
  }

  /** The box is shown checked iff the stored value is its on-value. */
  predicate IsChecked(statuses: seq<FormFieldState>, formInput: FormInput): (r: bool)
    ensures r ==> Truthy(GetFormInputStatus(statuses, formInput.name).value)
    ensures Absent(statuses, formInput.name) ==> !r
  {
    GetFormInputStatus(statuses, formInput.name).value == CheckboxOnValue(formInput)
  }

  // ---------------------------------------------------------------------------
  // Submit

  /** Names of the entries that failed validation (`.filter(!valid).map(name)`). */
  function FailingNames(checked: seq<Checked>): (r: seq<string>)
    ensures |r| <= |checked|
    ensures forall name :: name in r <==>
              exists i :: 0 <= i < |checked| && !checked[i].valid && checked[i].input.name == name
  {
    if checked == [] then []
    else
      var rest := checked[1..];
      assert forall i :: 0 <= i < |rest| ==> rest[i] == checked[i + 1];
      assert forall i :: 1 <= i < |checked| ==> checked[i] == rest[i - 1];
      (if checked[0].valid then [] else [checked[0].input.name]) + FailingNames(rest)
  }

  /** The names of the enforced fields that are invalid in `statuses`. */
  function InvalidNames(statuses: seq<FormFieldState>, inputs: seq<FormInput>): (r: seq<string>)
    ensures |r| <= |inputs|
    ensures UniqueInputNames(inputs) ==> Distinct(r)
  {
    var checked := ValidateFormInputs(statuses, inputs);
    if UniqueInputNames(inputs) then
      CheckEachUnique(Validity(statuses, inputs), inputs);
      FailingNamesDistinct(checked);
      FailingNames(checked)
    else
      FailingNames(checked)
  }

  /** The records handed to `onSubmit`: one per descriptor, in table order. */
  function SubmittedData(statuses: seq<FormFieldState>, inputs: seq<FormInput>): (r: seq<FormData>)
    ensures |r| == |inputs|
    ensures forall i :: 0 <= i < |inputs| ==>
              && r[i].name == inputs[i].name
              && r[i].labelText == inputs[i].labelText
              && r[i].inputType == inputs[i].inputType
              && r[i].value == GetFormValue(GetFormInputStatus(statuses, inputs[i].name).value, inputs[i].inputType)
  {
    seq(|inputs|, i requires 0 <= i < |inputs| =>
      FormData(inputs[i].name, inputs[i].labelText, inputs[i].inputType,
               GetFormValue(GetFormInputStatus(statuses, inputs[i].name).value, inputs[i].inputType)))
  }

  /** The stored state of each named field with `valid` forced to false. */
  function MarkedInvalid(statuses: seq<FormFieldState>, names: seq<string>): (r: seq<FormFieldState>)
    ensures |r| == |names|
    ensures forall k :: 0 <= k < |names| ==>
              r[k] == FormFieldState(names[k], GetFormInputStatus(statuses, names[k]).value, Some(false))
  {
    if names == [] then []
    else [GetFormInputStatus(statuses, names[0]).(valid := Some(false))] + MarkedInvalid(statuses, names[1..])
  }

  /** The state after a rejected submit: the entries of the other fields, then the
      failing fields marked invalid. */
  function RejectedStatuses(statuses: seq<FormFieldState>, invalid: seq<string>): (r: seq<FormFieldState>)
    ensures forall name :: name in invalid ==>
              GetFormInputStatus(r, name) ==
              FormFieldState(name, GetFormInputStatus(statuses, name).value, Some(false))
    ensures forall name :: name !in invalid ==>
              GetFormInputStatus(r, name) == GetFormInputStatus(statuses, name)
    ensures UniqueNames(statuses) && Distinct(invalid) ==> UniqueNames(r)
  {
    RejectedLookups(statuses, invalid);
    RejectedUnique(statuses, invalid);
    Without(statuses, invalid) + MarkedInvalid(statuses, invalid)
  }

  // ---------------------------------------------------------------------------
  // The component

  class Form {
    /** The descriptor table (`props.formInputs`). */
    const formInputs: seq<FormInput>
    /** Whether the `onSubmit` prop is given. */
    const hasOnSubmit: bool
    /** The component's state. */
    var formFieldStatuses: seq<FormFieldState>

    constructor (formInputs: seq<FormInput>, hasOnSubmit: bool)
      ensures this.formInputs == formInputs && this.hasOnSubmit == hasOnSubmit
      ensures formFieldStatuses == []
    {
      this.formInputs := formInputs;
      this.hasOnSubmit := hasOnSubmit;
      formFieldStatuses := [];
    }

    /** `updateFormValueHandler(inputName)`: a text-like input changed to `value`. */
    method ChangeValue(inputName: string, value: InputValue)
      modifies this
      ensures formFieldStatuses == WithValue(old(formFieldStatuses), inputName, value)
    {
      formFieldStatuses := WithValue(formFieldStatuses, inputName, value);
    }

    /** The `onChange` of the checkbox rendered for descriptor `idx`. */
    method ChangeCheckbox(idx: nat, checked: bool)
      requires idx < |formInputs| && formInputs[idx].inputType == Some(Checkbox)
      modifies this
      ensures formFieldStatuses ==
              WithValue(old(formFieldStatuses), formInputs[idx].name, CheckboxValue(formInputs[idx], checked))
      ensures IsChecked(formFieldStatuses, formInputs[idx]) == checked
      ensures GetFormValue(GetFormInputStatus(formFieldStatuses, formInputs[idx].name).value, Some(Checkbox)) == Flag(checked)
    {
      formFieldStatuses := WithValue(formFieldStatuses, formInputs[idx].name, CheckboxValue(formInputs[idx], checked));
    }

    /** The `onChange` of the radio group rendered for descriptor `idx`. */
    method ChangeRadioGroup(idx: nat, value: InputValue)
      requires idx < |formInputs| && formInputs[idx].inputType == Some(RadioGroup)
      modifies this
      ensures formFieldStatuses == WithValue(old(formFieldStatuses), formInputs[idx].name, value)
    {
      formFieldStatuses := WithValue(formFieldStatuses, formInputs[idx].name, value);
    }

    /** `validateFormInputHandler(formInputs, inputName)`: the field lost focus. */
    method Blur(inputName: string)
      modifies this
      ensures formFieldStatuses == WithValidity(old(formFieldStatuses), formInputs, inputName)
    {
      formFieldStatuses := WithValidity(formFieldStatuses, formInputs, inputName);
    }

    /** The Cancel button: all field state is dropped. */
    method Cancel()
      modifies this
      ensures formFieldStatuses == []
      ensures forall name :: GetFormInputStatus(formFieldStatuses, name) == DefaultStatus(name)
    {
      formFieldStatuses := [];
    }

    /** `onSubmitHandler`: emit the form data and clear the state when every
        enforced field is valid; otherwise mark the failing fields invalid.
        `submitted` is the argument `onSubmit` is called with, if it is called. */
    method Submit() returns (submitted: Option<seq<FormData>>)
      modifies this
      ensures var invalid := InvalidNames(old(formFieldStatuses), formInputs);
              if invalid == [] && hasOnSubmit then
                && submitted == Some(SubmittedData(old(formFieldStatuses), formInputs))
                && formFieldStatuses == []
              else if invalid == [] then
                submitted == None && formFieldStatuses == old(formFieldStatuses)
              else
                submitted == None && formFieldStatuses == RejectedStatuses(old(formFieldStatuses), invalid)
      ensures submitted.Some? <==>
              hasOnSubmit &&
              forall j :: 0 <= j < |formInputs| && Enforced(formInputs[j]) ==>
                IsFormInputValid(old(formFieldStatuses), formInputs, formInputs[j].name)
      ensures submitted.Some? ==>
              forall name :: GetFormInputStatus(formFieldStatuses, name) == DefaultStatus(name)
      ensures submitted.None? ==>
              forall name :: GetFormInputStatus(formFieldStatuses, name).value ==
                             GetFormInputStatus(old(formFieldStatuses), name).value
      ensures UniqueNames(old(formFieldStatuses)) && UniqueInputNames(formInputs) ==> UniqueNames(formFieldStatuses)
    {
      var invalidFormInputNames := InvalidNames(formFieldStatuses, formInputs);
      var isFormValid := |invalidFormInputNames| == 0;
      FormValidIff(formFieldStatuses, formInputs);
      submitted := None;

      if hasOnSubmit && isFormValid {
        submitted := Some(SubmittedData(formFieldStatuses, formInputs));
        formFieldStatuses := [];
      }

      if !isFormValid {
        formFieldStatuses := RejectedStatuses(formFieldStatuses, invalidFormInputNames);
      }
    }
  }

  // ---------------------------------------------------------------------------
  // Lemmas

  /** A field name is among the invalid names iff it names an enforced descriptor
      whose field is invalid. */
  lemma InvalidNamesMember(statuses: seq<FormFieldState>, inputs: seq<FormInput>, name: string)
    ensures name in InvalidNames(statuses, inputs) <==>
            exists j :: 0 <= j < |inputs| && inputs[j].name == name && Enforced(inputs[j]) &&
                        !IsFormInputValid(statuses, inputs, name)
  {
    var isValid := Validity(statuses, inputs);
    assert InvalidNames(statuses, inputs) == FailingNames(CheckEach(isValid, inputs));
    FailingCheckedMember(isValid, inputs, name);
  }

  /** A name fails validation of `part` iff an enforced descriptor of `part` carries it
      and `isValid` rejects it. */
  lemma FailingCheckedMember(isValid: string -> bool, part: seq<FormInput>, name: string)
    ensures name in FailingNames(CheckEach(isValid, part)) <==>
            exists j :: 0 <= j < |part| && part[j].name == name && Enforced(part[j]) && !isValid(name)
  {
    var checked := CheckEach(isValid, part);
    if name in FailingNames(checked) {
      var i :| 0 <= i < |checked| && !checked[i].valid && checked[i].input.name == name;
      var j :| 0 <= j < |part| && part[j] == checked[i].input;
      assert part[j].name == name && Enforced(part[j]) && !isValid(name);
    }
    if exists j :: 0 <= j < |part| && part[j].name == name && Enforced(part[j]) && !isValid(name) {
      var j :| 0 <= j < |part| && part[j].name == name && Enforced(part[j]) && !isValid(name);
      CheckEachComplete(isValid, part, j);
      var i :| 0 <= i < |checked| && checked[i] == Checked(part[j], isValid(part[j].name));
      assert !checked[i].valid && checked[i].input.name == name;
    }
  }

  /** The form is valid (no invalid names) iff every enforced field is valid. */
  lemma FormValidIff(statuses: seq<FormFieldState>, inputs: seq<FormInput>)
    ensures InvalidNames(statuses, inputs) == [] <==>
            forall j :: 0 <= j < |inputs| && Enforced(inputs[j]) ==> IsFormInputValid(statuses, inputs, inputs[j].name)
  {
    var invalid := InvalidNames(statuses, inputs);
    if invalid != [] {
      InvalidNamesMember(statuses, inputs, invalid[0]);
    }
    forall j | 0 <= j < |inputs| && Enforced(inputs[j]) && !IsFormInputValid(statuses, inputs, inputs[j].name)
      ensures invalid != []
    {
      InvalidNamesMember(statuses, inputs, inputs[j].name);
    }
  }

  /** The failing names of entries with unique names are distinct. */
  lemma {:induction false} FailingNamesDistinct(checked: seq<Checked>)
    requires UniqueChecked(checked)
    ensures Distinct(FailingNames(checked))
  {
    if checked != [] {
      var rest := checked[1..];
      FailingNamesDistinct(rest);
      if !checked[0].valid {
        var r := FailingNames(checked);
        assert r == [checked[0].input.name] + FailingNames(rest);
        forall k | 1 <= k < |r| ensures r[0] != r[k] {
          assert r[k] == FailingNames(rest)[k - 1];
          assert r[k] in FailingNames(rest);
          var i :| 0 <= i < |rest| && !rest[i].valid && rest[i].input.name == r[k];
          assert checked[i + 1] == rest[i];
        }
      }
    }
  }

  /** A lookup of a marked name finds its marked entry. */
  lemma {:induction false} GetMarked(statuses: seq<FormFieldState>, names: seq<string>, name: string)
    requires name in names
    ensures GetFormInputStatus(MarkedInvalid(statuses, names), name) ==
            FormFieldState(name, GetFormInputStatus(statuses, name).value, Some(false))
  {
    var marked := MarkedInvalid(statuses, names);
    if names[0] != name {
      GetMarked(statuses, names[1..], name);
      assert marked == [marked[0]] + MarkedInvalid(statuses, names[1..]);
      GetAppend([marked[0]], MarkedInvalid(statuses, names[1..]), name);
    }
  }

  /** What lookups see after a rejected submit. */
  lemma RejectedLookups(statuses: seq<FormFieldState>, invalid: seq<string>)
    ensures forall name :: name in invalid ==>
              GetFormInputStatus(Without(statuses, invalid) + MarkedInvalid(statuses, invalid), name) ==
              FormFieldState(name, GetFormInputStatus(statuses, name).value, Some(false))
    ensures forall name :: name !in invalid ==>
              GetFormInputStatus(Without(statuses, invalid) + MarkedInvalid(statuses, invalid), name) ==
              GetFormInputStatus(statuses, name)
  {
    var kept := Without(statuses, invalid);
    var marked := MarkedInvalid(statuses, invalid);
    forall name | name in invalid
      ensures GetFormInputStatus(kept + marked, name) ==
              FormFieldState(name, GetFormInputStatus(statuses, name).value, Some(false))
    {
      GetAppend(kept, marked, name);
      assert Absent(kept, name) by {
        forall j | 0 <= j < |kept| ensures kept[j].name != name {
          assert kept[j] in kept;
        }
      }
      GetMarked(statuses, invalid, name);
    }
    forall name | name !in invalid
      ensures GetFormInputStatus(kept + marked, name) == GetFormInputStatus(statuses, name)
    {
      GetAppend(kept, marked, name);
      GetWithout(statuses, invalid, name);
    }
  }

  /** A rejected submit keeps names unique when the failing names are distinct. */
  lemma RejectedUnique(statuses: seq<FormFieldState>, invalid: seq<string>)
    ensures UniqueNames(statuses) && Distinct(invalid) ==>
            UniqueNames(Without(statuses, invalid) + MarkedInvalid(statuses, invalid))
  {
    if !(UniqueNames(statuses) && Distinct(invalid)) {
      return;
    }
    var kept := Without(statuses, invalid);
    var marked := MarkedInvalid(statuses, invalid);
    WithoutUnique(statuses, invalid);
    var r := kept + marked;
    forall i, k | 0 <= i < k < |r| ensures r[i].name != r[k].name {
      if k >= |kept| && i < |kept| {
        assert r[i] == kept[i] && kept[i] in kept;
        assert r[k].name == invalid[k - |kept|];
      }
    }
  }

  /** Setting the same value twice is setting it once. */
  lemma WithValueIdempotent(statuses: seq<FormFieldState>, inputName: string, value: InputValue)
    ensures WithValue(WithValue(statuses, inputName, value), inputName, value) == WithValue(statuses, inputName, value)
  {
    var state := GetFormInputStatus(statuses, inputName).(value := value);
    UpdateIdempotent(statuses, state);
  }

  /** Checking or unchecking a box is what the box then shows, and what it submits. */
  lemma CheckboxRoundTrip(statuses: seq<FormFieldState>, formInput: FormInput, checked: bool)
    ensures IsChecked(WithValue(statuses, formInput.name, CheckboxValue(formInput, checked)), formInput) == checked
    ensures GetFormValue(GetFormInputStatus(WithValue(statuses, formInput.name, CheckboxValue(formInput, checked)),
                                            formInput.name).value, Some(Checkbox)) == Flag(checked)
  {
  }

  /** An untouched form submits a blank string for every field except a checkbox,
      which submits false. */
  lemma SubmittedDataOfEmptyState(inputs: seq<FormInput>)
    ensures forall i :: 0 <= i < |inputs| ==>
              SubmittedData([], inputs)[i].value ==
              if inputs[i].inputType == Some(Checkbox) then Flag(false) else Raw(Str(""))
  {
  }
}
