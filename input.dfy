/**
 * The value types the form's inputs produce (src/components/Input/Input.tsx).
 * Only what the form engine reads is modelled: the raw input value, the input
 * kind and JavaScript truthiness of a raw value.
 */
module Input {

  /** `InputValue = string | number | undefined`. Numbers are modelled as integers. */
  datatype InputValue = Str(s: string) | Num(n: int) | Undef

  /** `InputType = "text" | "email" | "checkbox" | "radio" | "radiogroup"`. */
  datatype InputType = Text | Email | Checkbox | Radio | RadioGroup

  /** What a submitted record carries: a raw value, or the boolean a checkbox is
      normalised to (`InputValue | InputRadioValue`). */
  datatype OutputValue = Raw(raw: InputValue) | Flag(flag: bool)

  /** JavaScript truthiness of an input value: `!!v`. */
  predicate Truthy(v: InputValue) {
    match v
    case Str(s) => s != ""
    case Num(n) => n != 0
    case Undef => false
  }
}
