/**
 * Submitted HTML forms.  A form maps each field name to its (first) value.
 * Reading a required field that is absent makes the web framework abort the
 * request with "400 Bad Request" before the handler does anything else.
 */
module Forms {
  import opened Wrappers

  type Form = map<string, string>

  /** `form.get(name, default)`: the submitted value, or `default` when the field is absent. */
  function FieldOr(form: Form, name: string, default: string): (v: string)
    ensures name in form ==> v == form[name]
    ensures name !in form ==> v == default
  {
    if name in form then form[name] else default
  }

  /** `form.get(name) if form.get(name) else None`: absent and empty both give no value. */
  function NonEmptyField(form: Form, name: string): (v: Option<string>)
    ensures v.Some? <==> name in form && form[name] != ""
    ensures v.Some? ==> v.value == form[name]
  {
    if name in form && form[name] != "" then Some(form[name]) else None
  }

}
