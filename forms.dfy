/** The part of the form-validation library the booking code uses: reading a
    posted field, and the three checks `Required`, `MinLength` and `IsEmail`,
    each of which records one error per failing field. Whether an address is
    well-formed is decided by the library's own rule, which is a parameter
    (`isEmail`) here. */
module Forms {
  import opened Text

  /** Posted form values by field name. */
  type Form = map<string, string>

  /** `r.Form.Get(key)`: the value, or "" when the field was not posted. */
  function Get(form: Form, key: string): string {
    if key in form then form[key] else ""
  }

  datatype Problem = Blank | ShorterThan(min: nat) | NotAnEmail

  datatype FieldError = FieldError(field: string, problem: Problem)

  /** One `Blank` error for each listed field that is empty, in list order. */
  function Required(form: Form, fields: seq<string>): (errs: seq<FieldError>)
    ensures forall e :: e in errs <==> e.problem == Blank && e.field in fields && Get(form, e.field) == ""
  {
    if fields == [] then []
    else
      (if Get(form, fields[0]) == "" then [FieldError(fields[0], Blank)] else [])
      + Required(form, fields[1..])
  }

  /** An error when the field's value is shorter than `n` bytes. Counted in
      characters, a value of `n` or more always passes, one of fewer than
      `n / 4` never does, and an ASCII value passes exactly at `n`. */
  function MinLength(form: Form, field: string, n: nat): (errs: seq<FieldError>)
    ensures errs == [] <==> ByteLen(Get(form, field)) >= n
    ensures errs != [] ==> errs == [FieldError(field, ShorterThan(n))]
    ensures |Get(form, field)| >= n ==> errs == []
    ensures 4 * |Get(form, field)| < n ==> errs == [FieldError(field, ShorterThan(n))]
    ensures (forall i :: 0 <= i < |Get(form, field)| ==> Get(form, field)[i] as int < 0x80) ==>
              (errs == [] <==> |Get(form, field)| >= n)
  {
    if ByteLen(Get(form, field)) < n then [FieldError(field, ShorterThan(n))] else []
  }

  /** An error when the field's value is not a well-formed address. */
  function IsEmail(form: Form, field: string, isEmail: string -> bool): (errs: seq<FieldError>)
    ensures errs == [] <==> isEmail(Get(form, field))
    ensures errs != [] ==> errs == [FieldError(field, NotAnEmail)]
  {
    if isEmail(Get(form, field)) then [] else [FieldError(field, NotAnEmail)]
  }
}
