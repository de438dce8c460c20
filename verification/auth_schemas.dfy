/** The validation rules of the sign-in, forgot-password, reset-password and
    sign-up forms (features/auth/schemas/auth-schemas.ts). A schema yields the
    list of issues it finds, each with the field it is reported on; an empty
    list means the form may be submitted. Whether a text is an email address
    is decided by the validation library's own pattern, which is taken as a
    parameter. */
module AuthSchemas {
  import opened Wrappers

  const InvalidEmail := "Invalid email address"
  const ShortPassword := "Password must be at least 6 characters"
  const PasswordsDiffer := "Passwords must match"
  const ShortName := "Name must be at least 2 characters"

  const MinPassword: nat := 6
  const MinName: nat := 2

  datatype Field = Name | Email | Password | ConfirmPassword

  datatype Issue = Issue(field: Field, message: string)

  type EmailCheck = string -> bool

  /** The issue of one rule, if the rule fails. */
  function Check(ok: bool, field: Field, message: string): (r: seq<Issue>)
    ensures |r| <= 1
    ensures r == [] <==> ok
  {
    if ok then [] else [Issue(field, message)]
  }

  function EmailIssues(validEmail: EmailCheck, email: string): seq<Issue> {
    Check(validEmail(email), Email, InvalidEmail)
  }

  function PasswordIssues(password: string): seq<Issue> {
    Check(|password| >= MinPassword, Password, ShortPassword)
  }

  /** The object's field checks do not stop the refinement: the
      password-match rule is checked too and reported on `confirmPassword`. */
  function MatchIssues(password: string, confirm: string): seq<Issue> {
    Check(password == confirm, ConfirmPassword, PasswordsDiffer)
  }

  function SignInIssues(validEmail: EmailCheck, email: string, password: string): (r: seq<Issue>)
    ensures r == [] <==> validEmail(email) && |password| >= 6
    ensures forall i :: 0 <= i < |r| ==> r[i].field in {Email, Password}
  {
    EmailIssues(validEmail, email) + PasswordIssues(password)
  }

  function ForgotPasswordIssues(validEmail: EmailCheck, email: string): (r: seq<Issue>)
    ensures r == [] <==> validEmail(email)
    ensures forall i :: 0 <= i < |r| ==> r[i] == Issue(Email, InvalidEmail)
  {
    EmailIssues(validEmail, email)
  }

  function ResetPasswordIssues(password: string, confirm: string): (r: seq<Issue>)
    ensures r == [] <==> |password| >= 6 && password == confirm
    ensures Issue(ConfirmPassword, PasswordsDiffer) in r <==> password != confirm
    ensures Issue(Password, ShortPassword) in r <==> |password| < 6
  {
    PasswordIssues(password) + MatchIssues(password, confirm)
  }

  datatype SignUpForm = SignUpForm(name: string, email: string, password: string, confirmPassword: string)

  function SignUpIssues(validEmail: EmailCheck, f: SignUpForm): (r: seq<Issue>)
    ensures r == [] <==>
      |f.name| >= 2 && validEmail(f.email) && |f.password| >= 6 && f.password == f.confirmPassword
    ensures |r| <= 4
  {
    Check(|f.name| >= MinName, Name, ShortName)
      + EmailIssues(validEmail, f.email)
      + PasswordIssues(f.password)
      + MatchIssues(f.password, f.confirmPassword)
  }

  /** The message the form shows under a field: the first issue reported on
      it. */
  function FieldError(issues: seq<Issue>, field: Field): (r: Option<string>)
    ensures r.Some? <==> exists i :: 0 <= i < |issues| && issues[i].field == field
    ensures r.Some? ==> Issue(field, r.value) in issues
  {
    if |issues| == 0 then None
    else if issues[0].field == field then Some(issues[0].message)
    else FieldError(issues[1..], field)
  }

  /** The message each sign-up field should show, rule by rule. */
  function ExpectedSignUpError(validEmail: EmailCheck, f: SignUpForm, field: Field): Option<string> {
    match field
    case Name => if |f.name| < 2 then Some(ShortName) else None
    case Email => if validEmail(f.email) then None else Some(InvalidEmail)
    case Password => if |f.password| < 6 then Some(ShortPassword) else None
    case ConfirmPassword => if f.password != f.confirmPassword then Some(PasswordsDiffer) else None
  }

  /** Every field shows exactly the message of its own rule, and only when
      that rule is broken: no rule's failure is reported on another field. */
  lemma SignUpMessages(validEmail: EmailCheck, f: SignUpForm, field: Field)
    ensures FieldError(SignUpIssues(validEmail, f), field) == ExpectedSignUpError(validEmail, f, field)
  {
    var n := Check(|f.name| >= MinName, Name, ShortName);
    var e := EmailIssues(validEmail, f.email);
    var p := PasswordIssues(f.password);
    var c := MatchIssues(f.password, f.confirmPassword);
    assert SignUpIssues(validEmail, f) == n + (e + (p + c));
    FieldErrorConcat(n, e + (p + c), field);
    FieldErrorConcat(e, p + c, field);
    FieldErrorConcat(p, c, field);
    assert FieldError(n, field) == (if field == Name then ExpectedSignUpError(validEmail, f, Name) else None);
    assert FieldError(e, field) == (if field == Email then ExpectedSignUpError(validEmail, f, Email) else None);
    assert FieldError(p, field) == (if field == Password then ExpectedSignUpError(validEmail, f, Password) else None);
    assert FieldError(c, field) == (if field == ConfirmPassword then ExpectedSignUpError(validEmail, f, ConfirmPassword) else None);
  }

  lemma {:induction false} FieldErrorConcat(a: seq<Issue>, b: seq<Issue>, field: Field)
    ensures FieldError(a + b, field) ==
      (if FieldError(a, field).Some? then FieldError(a, field) else FieldError(b, field))
  {
    if |a| > 0 {
      assert (a + b)[1..] == a[1..] + b;
      FieldErrorConcat(a[1..], b, field);
    } else {
      assert a + b == b;
    }
  }

  /** Credentials that pass the sign-up form also pass the sign-in form. */
  lemma SignUpPassesSignIn(validEmail: EmailCheck, f: SignUpForm)
    requires SignUpIssues(validEmail, f) == []
    ensures SignInIssues(validEmail, f.email, f.password) == []
    ensures ResetPasswordIssues(f.password, f.confirmPassword) == []
  {
  }
}
