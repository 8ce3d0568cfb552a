/**
 * The pure field-state helpers of src/components/Form/FormUtils.ts: lookup by
 * name, replace-or-append by name, output normalisation and validation.
 */
module FormUtils {
  import opened Wrappers
  import opened Input
  import opened FormTypes

  /** The record a lookup yields for a field with no stored entry: `{name, value: ""}`. */
  function DefaultStatus(inputName: string): (r: FormFieldState)
    ensures r.name == inputName && r.value == Str("") && !Truthy(r.value) && r.valid.None?
  {
    FormFieldState(inputName, Str(""), None)
  }

  /** `getFormInputStatus`: the first stored entry named `inputName`, or the default record. */
  function GetFormInputStatus(statuses: seq<FormFieldState>, inputName: string): (r: FormFieldState)
    ensures r.name == inputName
    ensures Absent(statuses, inputName) ==> r == DefaultStatus(inputName)
    ensures forall i :: (0 <= i < |statuses| && statuses[i].name == inputName &&
                         forall j :: 0 <= j < i ==> statuses[j].name != inputName) ==> r == statuses[i]
  {
    if statuses == [] then DefaultStatus(inputName)
    else if statuses[0].name == inputName then statuses[0]
    else GetFormInputStatus(statuses[1..], inputName)
  }

  /** `getFormValue`: a checkbox value becomes a boolean, any other kind passes through;
      an absent kind counts as "text". */
  function GetFormValue(formValue: InputValue, inputType: Option<InputType>): (r: OutputValue)
    ensures inputType == Some(Checkbox) ==>
              r == Flag(formValue != Undef && formValue != Str("") && formValue != Num(0))
    ensures inputType != Some(Checkbox) ==> r == Raw(formValue)
  {
    match inputType.GetOr(Text)
    case Checkbox => Flag(Truthy(formValue))
    case _ => Raw(formValue)
  }

  /** The entries whose names are not among `names`, in their original order
      (the `filter` of `updateFormFieldStatus` and of the submit handler). */
  function Without(statuses: seq<FormFieldState>, names: seq<string>): (r: seq<FormFieldState>)
    ensures |r| <= |statuses|
    ensures forall e :: e in r <==> e in statuses && e.name !in names
  {
    if statuses == [] then []
    else
      (if statuses[0].name in names then [] else [statuses[0]]) + Without(statuses[1..], names)
  }

  /** `updateFormFieldStatus`: drop every entry named `state.name`, then append `state`. */
  function UpdateFormFieldStatus(statuses: seq<FormFieldState>, state: FormFieldState): (r: seq<FormFieldState>)
    ensures |r| >= 1 && r[|r| - 1] == state
    ensures forall i :: 0 <= i < |r| - 1 ==> r[i].name != state.name
    ensures r[..|r| - 1] == Without(statuses, [state.name])
    ensures GetFormInputStatus(r, state.name) == state
  {
    var kept := Without(statuses, [state.name]);
    assert forall i :: 0 <= i < |kept| ==> kept[i] in kept;
    kept + [state]
  }

  /** The first descriptor named `inputName` (`formInputs.find`). */
  function FindFormInput(inputs: seq<FormInput>, inputName: string): (r: Option<FormInput>)
    ensures r.None? <==> forall j :: 0 <= j < |inputs| ==> inputs[j].name != inputName
    ensures forall i :: (0 <= i < |inputs| && inputs[i].name == inputName &&
                         forall j :: 0 <= j < i ==> inputs[j].name != inputName) ==> r == Some(inputs[i])
  {
    if inputs == [] then None
    else if inputs[0].name == inputName then Some(inputs[0])
    else FindFormInput(inputs[1..], inputName)
  }

  /** `isFormInputValid`: valid unless the first descriptor of that name has a
      validator that rejects the field's stored state. */
  function IsFormInputValid(statuses: seq<FormFieldState>, inputs: seq<FormInput>, inputName: string): (r: bool)
    ensures (forall j :: 0 <= j < |inputs| ==> inputs[j].name != inputName) ==> r
    ensures forall i :: (0 <= i < |inputs| && inputs[i].name == inputName &&
                         forall j :: 0 <= j < i ==> inputs[j].name != inputName) ==>
                          (r <==> inputs[i].validator.None? ||
                                  inputs[i].validator.value(GetFormInputStatus(statuses, inputName)))
  {
    var formInput := FindFormInput(inputs, inputName);
    var formInputStatus := GetFormInputStatus(statuses, inputName);
    if formInput.Some? && formInput.value.validator.Some? then formInput.value.validator.value(formInputStatus)
    else true
  }

  /** A descriptor the submit-time validation covers: `required && validator`. */
  predicate Enforced(formInput: FormInput): (r: bool)
    ensures r ==> formInput.validator.Some?
    ensures !formInput.required ==> !r
  {
    formInput.required && formInput.validator.Some?
  }

  /** A descriptor tagged with its validity (`{...formInput, valid}`). */
  datatype Checked = Checked(input: FormInput, valid: bool)

  /** The `filter`/`map` of `validateFormInputs` over a slice `part` of the
      descriptor table, each enforced descriptor tagged with `isValid` of its name. */
  function CheckEach(isValid: string -> bool, part: seq<FormInput>): (r: seq<Checked>)
    ensures |r| <= |part|
    ensures forall i :: 0 <= i < |r| ==>
              r[i].input in part && Enforced(r[i].input) && r[i].valid == isValid(r[i].input.name)
  {
    if part == [] then []
    else
      (if Enforced(part[0]) then [Checked(part[0], isValid(part[0].name))] else [])
      + CheckEach(isValid, part[1..])
  }

  /** `isFormInputValid` against fixed statuses and descriptors, as a function of the name. */
  function Validity(statuses: seq<FormFieldState>, inputs: seq<FormInput>): string -> bool {
    inputName => IsFormInputValid(statuses, inputs, inputName)
  }

  /** `validateFormInputs`: the enforced descriptors, in table order, each tagged
      with `isFormInputValid`. */
  function ValidateFormInputs(statuses: seq<FormFieldState>, inputs: seq<FormInput>): (r: seq<Checked>)
    ensures forall i :: 0 <= i < |r| ==>
              r[i].input in inputs && Enforced(r[i].input) &&
              r[i].valid == IsFormInputValid(statuses, inputs, r[i].input.name)
    ensures forall j :: 0 <= j < |inputs| && Enforced(inputs[j]) ==>
              exists i :: 0 <= i < |r| && r[i] == Checked(inputs[j], IsFormInputValid(statuses, inputs, inputs[j].name))
  {
    var isValid := Validity(statuses, inputs);
    forall j | 0 <= j < |inputs| && Enforced(inputs[j])
      ensures exists i :: 0 <= i < |CheckEach(isValid, inputs)| &&
                CheckEach(isValid, inputs)[i] == Checked(inputs[j], isValid(inputs[j].name))
    {
      CheckEachComplete(isValid, inputs, j);
    }
    CheckEach(isValid, inputs)
  }

  // ---------------------------------------------------------------------------
  // Lemmas

  /** Every enforced descriptor of `part` gets its tagged entry. */
  lemma {:induction false} CheckEachComplete(isValid: string -> bool, part: seq<FormInput>, j: nat)
    requires j < |part| && Enforced(part[j])
    ensures exists i :: 0 <= i < |CheckEach(isValid, part)| &&
              CheckEach(isValid, part)[i] == Checked(part[j], isValid(part[j].name))
  {
    var head := if Enforced(part[0]) then [Checked(part[0], isValid(part[0].name))] else [];
    var rest := CheckEach(isValid, part[1..]);
    var r := CheckEach(isValid, part);
    assert r == head + rest;
    if j == 0 {
      assert r[0] == Checked(part[j], isValid(part[j].name));
    } else {
      CheckEachComplete(isValid, part[1..], j - 1);
      var k :| 0 <= k < |rest| && rest[k] == Checked(part[j], isValid(part[j].name));
      assert r[|head| + k] == rest[k];
    }
  }

  /** Validation keeps descriptor order: it distributes over concatenation of the table. */
  lemma {:induction false} CheckEachAppend(isValid: string -> bool, a: seq<FormInput>, b: seq<FormInput>)
    ensures CheckEach(isValid, a + b) == CheckEach(isValid, a) + CheckEach(isValid, b)
  {
    if a == [] {
      assert a + b == b;
    } else {
      var head := if Enforced(a[0]) then [Checked(a[0], isValid(a[0].name))] else [];
      CheckEachConsAppend(isValid, a, b);
      CheckEachAppend(isValid, a[1..], b);
      ConcatAssoc(head, CheckEach(isValid, a[1..]), CheckEach(isValid, b));
    }
  }

  /** One unfolding of `CheckEach` on a concatenation whose first part is not empty. */
  lemma CheckEachConsAppend(isValid: string -> bool, a: seq<FormInput>, b: seq<FormInput>)
    requires a != []
    ensures CheckEach(isValid, a + b) ==
            (if Enforced(a[0]) then [Checked(a[0], isValid(a[0].name))] else []) + CheckEach(isValid, a[1..] + b)
  {
    assert (a + b)[0] == a[0];
    assert (a + b)[1..] == a[1..] + b;
  }

  /** Filtering by name keeps order: it distributes over concatenation. */
  lemma {:induction false} WithoutAppend(a: seq<FormFieldState>, b: seq<FormFieldState>, names: seq<string>)
    ensures Without(a + b, names) == Without(a, names) + Without(b, names)
  {
    if a == [] {
      assert a + b == b;
    } else {
      var head := if a[0].name in names then [] else [a[0]];
      WithoutConsAppend(a, b, names);
      WithoutAppend(a[1..], b, names);
      ConcatAssoc(head, Without(a[1..], names), Without(b, names));
    }
  }

  /** One unfolding of `Without` on a concatenation whose first part is not empty. */
  lemma WithoutConsAppend(a: seq<FormFieldState>, b: seq<FormFieldState>, names: seq<string>)
    requires a != []
    ensures Without(a + b, names) == (if a[0].name in names then [] else [a[0]]) + Without(a[1..] + b, names)
  {
    assert (a + b)[0] == a[0];
    assert (a + b)[1..] == a[1..] + b;
  }

  /** Concatenation is associative. */
  lemma ConcatAssoc<T>(x: seq<T>, y: seq<T>, z: seq<T>)
    ensures x + (y + z) == (x + y) + z
  {
  }

  /** Filtering drops no entry it keeps by name: each such entry occurs as often as before. */
  lemma {:induction false} WithoutCount(statuses: seq<FormFieldState>, names: seq<string>, e: FormFieldState)
    requires e.name !in names
    ensures multiset(Without(statuses, names))[e] == multiset(statuses)[e]
  {
    if statuses != [] {
      assert statuses == [statuses[0]] + statuses[1..];
      WithoutCount(statuses[1..], names, e);
    }
  }

  /** Filtering twice by the same names is filtering once. */
  lemma {:induction false} WithoutIdempotent(statuses: seq<FormFieldState>, names: seq<string>)
    ensures Without(Without(statuses, names), names) == Without(statuses, names)
  {
    if statuses != [] {
      WithoutIdempotent(statuses[1..], names);
      var head := if statuses[0].name in names then [] else [statuses[0]];
      WithoutAppend(head, Without(statuses[1..], names), names);
      if head != [] {
        assert head[1..] == [];
      }
    }
  }

  /** Filtering keeps names unique. */
  lemma {:induction false} WithoutUnique(statuses: seq<FormFieldState>, names: seq<string>)
    requires UniqueNames(statuses)
    ensures UniqueNames(Without(statuses, names))
  {
    if statuses != [] {
      var rest := Without(statuses[1..], names);
      WithoutUnique(statuses[1..], names);
      if statuses[0].name !in names {
        var r := [statuses[0]] + rest;
        forall j | 1 <= j < |r| ensures r[0].name != r[j].name {
          assert r[j] == rest[j - 1];
          assert rest[j - 1] in statuses[1..];
        }
      }
    }
  }

  /** A lookup in a concatenation looks in the first part, and only then in the second. */
  lemma {:induction false} GetAppend(a: seq<FormFieldState>, b: seq<FormFieldState>, name: string)
    ensures GetFormInputStatus(a + b, name) ==
            if Absent(a, name) then GetFormInputStatus(b, name) else GetFormInputStatus(a, name)
  {
    if a != [] {
      assert (a + b)[1..] == a[1..] + b;
      GetAppend(a[1..], b, name);
    } else {
      assert a + b == b;
    }
  }

  /** Dropping other names does not change what a lookup of `name` returns. */
  lemma {:induction false} GetWithout(statuses: seq<FormFieldState>, names: seq<string>, name: string)
    requires name !in names
    ensures GetFormInputStatus(Without(statuses, names), name) == GetFormInputStatus(statuses, name)
  {
    if statuses != [] {
      GetWithout(statuses[1..], names, name);
      var head := if statuses[0].name in names then [] else [statuses[0]];
      GetAppend(head, Without(statuses[1..], names), name);
    }
  }

  /** After an update of `state.name`, every other name looks up as before. */
  lemma GetUpdateOther(statuses: seq<FormFieldState>, state: FormFieldState)
    ensures forall other :: other != state.name ==>
              GetFormInputStatus(UpdateFormFieldStatus(statuses, state), other) == GetFormInputStatus(statuses, other)
  {
    var kept := Without(statuses, [state.name]);
    forall other | other != state.name
      ensures GetFormInputStatus(kept + [state], other) == GetFormInputStatus(statuses, other)
    {
      GetAppend(kept, [state], other);
      GetWithout(statuses, [state.name], other);
    }
  }

  /** `updateFormFieldStatus` is idempotent. */
  lemma UpdateIdempotent(statuses: seq<FormFieldState>, state: FormFieldState)
    ensures UpdateFormFieldStatus(UpdateFormFieldStatus(statuses, state), state) == UpdateFormFieldStatus(statuses, state)
  {
    var kept := Without(statuses, [state.name]);
    WithoutAppend(kept, [state], [state.name]);
    WithoutIdempotent(statuses, [state.name]);
    assert Without([state], [state.name]) == [];
  }

  /** `updateFormFieldStatus` keeps names unique. */
  lemma UpdateUnique(statuses: seq<FormFieldState>, state: FormFieldState)
    ensures UniqueNames(statuses) ==> UniqueNames(UpdateFormFieldStatus(statuses, state))
  {
    if UniqueNames(statuses) {
      WithoutUnique(statuses, [state.name]);
    }
  }

  /** The validity of a field depends on its own stored state only. */
  lemma ValidityIsLocal(s1: seq<FormFieldState>, s2: seq<FormFieldState>, inputs: seq<FormInput>, inputName: string)
    requires GetFormInputStatus(s1, inputName) == GetFormInputStatus(s2, inputName)
    ensures IsFormInputValid(s1, inputs, inputName) == IsFormInputValid(s2, inputs, inputName)
  {
  }

  /** No two tagged entries share a name. */
  predicate UniqueChecked(checked: seq<Checked>) {
    forall i, k :: 0 <= i < k < |checked| ==> checked[i].input.name != checked[k].input.name
  }

  /** Validation of a table with unique names yields unique names. */
  lemma {:induction false} CheckEachUnique(isValid: string -> bool, part: seq<FormInput>)
    requires UniqueInputNames(part)
    ensures UniqueChecked(CheckEach(isValid, part))
  {
    if part != [] {
      var rest := CheckEach(isValid, part[1..]);
      CheckEachUnique(isValid, part[1..]);
      if Enforced(part[0]) {
        var r := CheckEach(isValid, part);
        assert r == [Checked(part[0], isValid(part[0].name))] + rest;
        forall k | 1 <= k < |r| ensures r[0].input.name != r[k].input.name {
          assert r[k] == rest[k - 1];
          var j :| 0 <= j < |part[1..]| && part[1..][j] == rest[k - 1].input;
          assert part[j + 1] == rest[k - 1].input;
        }
      }
    }
  }
}
