/** The register page: the ordered client-side checks of `handleSubmit`, and
    the request it sends when all of them pass. */
module RegisterPage {
  import opened Text
  import AuthApi

  /** The form's six inputs, as typed. */
  datatype FormData = FormData(username: string, password: string, confirmPassword: string,
                               email: string, firstName: string, lastName: string)

  const EnterUsername: string := "Please enter your username"
  const EnterEmail: string := "Please enter your email"
  const EnterPassword: string := "Please enter your password"
  const PasswordsDiffer: string := "Passwords do not match"
  const PasswordTooShort: string := "Password must be at least 6 characters long"
  const MinPasswordLength: nat := 6

  /** What submitting does: show an error, or send the register request with
      the inputs untrimmed. */
  datatype Submission = Rejected(error: string) | Submitted(request: AuthApi.RegisterForm)

  /** `handleSubmit`: blank username, blank email, blank password, mismatched
      confirmation and short password are checked in this order, and the
      first that fails is the error shown. */
  function HandleSubmit(f: FormData): (r: Submission)
    ensures IsBlank(f.username) ==> r == Rejected(EnterUsername)
    ensures !IsBlank(f.username) && IsBlank(f.email) ==> r == Rejected(EnterEmail)
    ensures !IsBlank(f.username) && !IsBlank(f.email) && IsBlank(f.password) ==> r == Rejected(EnterPassword)
    ensures !IsBlank(f.username) && !IsBlank(f.email) && !IsBlank(f.password) &&
            f.password != f.confirmPassword ==>
      r == Rejected(PasswordsDiffer)
    ensures !IsBlank(f.username) && !IsBlank(f.email) && !IsBlank(f.password) &&
            f.password == f.confirmPassword && |f.password| < MinPasswordLength ==>
      r == Rejected(PasswordTooShort)
    ensures r.Submitted? <==>
      !IsBlank(f.username) && !IsBlank(f.email) && !IsBlank(f.password) &&
      f.password == f.confirmPassword && |f.password| >= MinPasswordLength
    ensures r.Submitted? ==>
      r.request == AuthApi.RegisterForm(f.username, f.password, f.email, f.firstName, f.lastName)
  {
    TrimEmptyIffBlank(f.username);
    TrimEmptyIffBlank(f.email);
    TrimEmptyIffBlank(f.password);
    if Trim(f.username) == "" then Rejected(EnterUsername)
    else if Trim(f.email) == "" then Rejected(EnterEmail)
    else if Trim(f.password) == "" then Rejected(EnterPassword)
    else if f.password != f.confirmPassword then Rejected(PasswordsDiffer)
    else if |f.password| < MinPasswordLength then Rejected(PasswordTooShort)
    else Submitted(AuthApi.RegisterForm(f.username, f.password, f.email, f.firstName, f.lastName))
  }

  /** A request the page sends always passes the server's own required-field
      check, so the server never answers it with that 400. */
  lemma {:induction false} SubmittedPassesRequiredFields(f: FormData)
    requires HandleSubmit(f).Submitted?
    ensures var req := HandleSubmit(f).request;
      req.username != "" && req.password != "" && req.email != ""
  {
    assert IsBlank("");
  }

  /** The blank checks trim but the length check does not: six spaces are
      refused as a missing password, while a five-letter password with one
      leading space is long enough. */
  lemma LengthCountsSpaces()
    ensures HandleSubmit(FormData("admin", "      ", "      ", "a@b", "", "")) == Rejected(EnterPassword)
    ensures HandleSubmit(FormData("admin", " abcde", " abcde", "a@b", "", "")).Submitted?
  {
    assert IsJsSpace(' ');
    assert !IsJsSpace('a');
    assert " abcde"[1] == 'a';
    assert !IsBlank(" abcde");
    assert !IsBlank("admin") by { assert "admin"[0] == 'a'; }
    assert !IsBlank("a@b") by { assert "a@b"[0] == 'a'; }
  }
}
