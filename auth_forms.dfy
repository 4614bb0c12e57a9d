/** The submit handlers of the register and login pages
    (frontend/src/pages/Auth/Register.js and Login.js): a fixed chain of checks whose
    first failure is shown as an error toast, or else the dispatch of the request. */
module AuthForms {

  /** What `handleSubmit` does: show an error toast (and dispatch nothing), or dispatch
      the request with this payload. */
  datatype Submission<T> = Rejected(message: string) | Dispatched(payload: T)

  const FillAllFields: string := "Please fill in all fields"
  const InvalidEmail: string := "Please enter a valid email"
  const PasswordsDiffer: string := "Passwords do not match"
  const PasswordTooShort: string := "Password must be at least 6 characters"
  const MinPasswordLength: nat := 6

  predicate HasAt(email: string) {
    '@' in email
  }

  // ---------------------------------------------------------------------------
  // Register

  datatype RegisterForm = RegisterForm(
    name: string,
    email: string,
    password: string,
    confirmPassword: string,
    department: string,
    role: string)

  /** The form's initial state: every field empty, the role select on `employee`. */
  const InitialRegisterForm: RegisterForm := RegisterForm("", "", "", "", "", "employee")

  /** The data sent to the register request: the form without `confirmPassword`. */
  datatype RegisterData = RegisterData(
    name: string,
    email: string,
    password: string,
    department: string,
    role: string)

  function SubmitRegister(f: RegisterForm): (s: Submission<RegisterData>)
    ensures s.Dispatched? ==> HasAt(f.email) && f.password == f.confirmPassword && |f.password| >= MinPasswordLength
    ensures s.Dispatched? ==> s.payload.email == f.email && s.payload.password == f.password && s.payload.role == f.role
  {
    if f.name == "" || f.email == "" || f.password == "" || f.confirmPassword == "" || f.department == "" then
      Rejected(FillAllFields)
    else if !HasAt(f.email) then
      Rejected(InvalidEmail)
    else if f.password != f.confirmPassword then
      Rejected(PasswordsDiffer)
    else if |f.password| < MinPasswordLength then
      Rejected(PasswordTooShort)
    else
      Dispatched(RegisterData(f.name, f.email, f.password, f.department, f.role))
  }

  /** The register checks: each message is reported exactly when its check fails and
      every check before it passes, so only the first failure is ever shown. */
  lemma RegisterFirstFailure(f: RegisterForm)
    ensures var filled := f.name != "" && f.email != "" && f.password != "" && f.confirmPassword != "" && f.department != "";
      && (SubmitRegister(f) == Rejected(FillAllFields) <==> !filled)
      && (SubmitRegister(f) == Rejected(InvalidEmail) <==> filled && !HasAt(f.email))
      && (SubmitRegister(f) == Rejected(PasswordsDiffer) <==> filled && HasAt(f.email) && f.password != f.confirmPassword)
      && (SubmitRegister(f) == Rejected(PasswordTooShort) <==>
            filled && HasAt(f.email) && f.password == f.confirmPassword && |f.password| < 6)
  {
  }

  /** A form passing every check is dispatched with all its fields except the
      confirmation, unchanged; a form failing any check dispatches nothing. */
  lemma RegisterAccepted(f: RegisterForm)
    ensures SubmitRegister(f).Dispatched? <==>
      && f.name != "" && f.email != "" && f.password != "" && f.confirmPassword != "" && f.department != ""
      && HasAt(f.email) && f.password == f.confirmPassword && |f.password| >= 6
    ensures SubmitRegister(f).Dispatched? ==>
      var p := SubmitRegister(f).payload;
      p.name == f.name && p.email == f.email && p.password == f.password
      && p.department == f.department && p.role == f.role
  {
  }

  /** A mismatched confirmation is reported before a too-short password, and an
      untouched role stays `employee`. */
  lemma RegisterExamples()
    ensures SubmitRegister(RegisterForm("Ann", "ann@x.org", "abc", "abd", "Sales", "employee")) == Rejected(PasswordsDiffer)
    ensures SubmitRegister(InitialRegisterForm.(name := "Ann", email := "ann@x.org", password := "secret",
                                                confirmPassword := "secret", department := "Sales"))
            == Dispatched(RegisterData("Ann", "ann@x.org", "secret", "Sales", "employee"))
  {
    assert HasAt("ann@x.org") by { assert "ann@x.org"[3] == '@'; }
  }

  // ---------------------------------------------------------------------------
  // Login

  datatype LoginForm = LoginForm(email: string, password: string)

  function SubmitLogin(f: LoginForm): (s: Submission<LoginForm>)
    ensures s.Dispatched? <==> f.email != "" && f.password != "" && HasAt(f.email)
    ensures s.Dispatched? ==> s.payload == f
  {
    if f.email == "" || f.password == "" then Rejected(FillAllFields)
    else if !HasAt(f.email) then Rejected(InvalidEmail)
    else Dispatched(f)
  }

  /** The login checks: an empty field is reported before a missing `@`, and a form
      passing both is dispatched unchanged. */
  lemma LoginOutcomes(f: LoginForm)
    ensures SubmitLogin(f) == Rejected(FillAllFields) <==> f.email == "" || f.password == ""
    ensures SubmitLogin(f) == Rejected(InvalidEmail) <==> f.email != "" && f.password != "" && !HasAt(f.email)
    ensures SubmitLogin(f).Dispatched? <==> f.email != "" && f.password != "" && HasAt(f.email)
    ensures SubmitLogin(f).Dispatched? ==> SubmitLogin(f).payload == f
  {
  }
}
