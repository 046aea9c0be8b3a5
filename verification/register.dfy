/**
 The cross-field validator of the registration form: the confirmation must
 equal the password.
 */
module Register {
  import opened Common

  /** A form control's value and its current error object (`null` when valid). */
  datatype Control = Control(value: string, errors: Option<map<string, bool>>)

  /** The controls the validator looks up; `form.get` returns `null` for a missing one. */
  datatype Form = Form(password: Option<Control>, confirmPassword: Option<Control>)

  const MismatchKey: string := "passwordMismatch"

  /** The error object `{ passwordMismatch: true }`. */
  function MismatchError(): map<string, bool>
  {
    map[MismatchKey := true]
  }

  /** The validator's return value and the form after its `setErrors` side effect. */
  datatype Validation = Validation(result: Option<map<string, bool>>, form: Form)

  ghost predicate Mismatch(f: Form)
  {
    f.password.Some? && f.confirmPassword.Some? && f.password.value.value != f.confirmPassword.value.value
  }

  /**
   passwordMatchValidator: on a mismatch the confirmation control's errors are
   replaced by `{ passwordMismatch: true }` and the same object is returned;
   otherwise `null` and no change.
   */
  function PasswordMatchValidator(f: Form): (v: Validation)
    ensures v.result.Some? <==> Mismatch(f)
    ensures v.result.Some? ==> v.result.value == MismatchError()
    ensures Mismatch(f) ==> v.form == f.(confirmPassword := Some(f.confirmPassword.value.(errors := Some(MismatchError()))))
    ensures !Mismatch(f) ==> v.form == f
    ensures v.form.password == f.password
  {
    match (f.password, f.confirmPassword)
    case (Some(pw), Some(cpw)) =>
      if pw.value != cpw.value then
        Validation(Some(MismatchError()), f.(confirmPassword := Some(cpw.(errors := Some(MismatchError())))))
      else Validation(None, f)
    case _ => Validation(None, f)
  }

  /** Equal values always validate, whatever errors the controls carry. */
  lemma EqualPasswordsValidate(pw: string, e1: Option<map<string, bool>>, e2: Option<map<string, bool>>)
    ensures PasswordMatchValidator(Form(Some(Control(pw, e1)), Some(Control(pw, e2)))).result == None
  {
  }

  /** Running the validator again on its own output gives the same verdict and the same form. */
  lemma ValidatorIdempotent(f: Form)
    ensures PasswordMatchValidator(PasswordMatchValidator(f).form) == PasswordMatchValidator(f)
  {
  }
}
