/** The records of src/components/Form/FormTypes.ts. */
module FormTypes {
  import opened Wrappers
  import opened Input

  /** One stored field state `{name, value, valid?}`; `valid` is unset until the
      field has been validated. */
  datatype FormFieldState = FormFieldState(name: string, value: InputValue, valid: Option<bool>)

  /** A field descriptor of the form's `formInputs` table. `required` is false when
      the property is absent; `validator` is an arbitrary total predicate on the
      field's stored state. */
  datatype FormInput = FormInput(
    name: string,
    labelText: Option<string>,
    inputType: Option<InputType>,
    value: InputValue,
    required: bool,
    validator: Option<FormFieldState -> bool>)

  /** One record of the data handed to the `onSubmit` callback. */
  datatype FormData = FormData(name: string, labelText: Option<string>, inputType: Option<InputType>, value: OutputValue)

  /** No two stored entries share a name. */
  predicate UniqueNames(statuses: seq<FormFieldState>) {
    forall i, j :: 0 <= i < j < |statuses| ==> statuses[i].name != statuses[j].name
  }

  /** No two descriptors share a name. */
  predicate UniqueInputNames(inputs: seq<FormInput>) {
    forall i, j :: 0 <= i < j < |inputs| ==> inputs[i].name != inputs[j].name
  }

  /** No string occurs twice. */
  predicate Distinct(names: seq<string>) {
    forall i, j :: 0 <= i < j < |names| ==> names[i] != names[j]
  }

  /** No stored entry is named `name`. */
  predicate Absent(statuses: seq<FormFieldState>, name: string) {
    forall j :: 0 <= j < |statuses| ==> statuses[j].name != name
  }
}
