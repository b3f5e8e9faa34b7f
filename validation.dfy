/** The request validation rules the controllers use, as predicates on the submitted
    values: `required`, `nullable`, `max:N` on strings. */
module Validation {
  import opened Wrappers
  import opened Text

  /** The `max:255` of a `string` column. */
  const MaxString: nat := 255

  /** `required` on a string: present and not blank after trimming. */
  predicate Present(s: string)
  {
    Trim(s) != ""
  }

  /** `required|string|max:n` */
  predicate RequiredString(s: string, n: nat)
  {
    Present(s) && |s| <= n
  }

  /** `nullable|string|max:n` */
  predicate NullableString(s: Option<string>, n: nat)
  {
    s.None? || |s.value| <= n
  }

  /** PHP truthiness of a request parameter: absent, `""` and `"0"` are false. */
  predicate Truthy(s: Option<string>)
  {
    s.Some? && s.value != "" && s.value != "0"
  }
}
