/**
 The sign-up form (src/pages/RegisterPage.tsx): the two client-side checks
 and their order, the sign-up request with its profile metadata, and what
 the visitor sees afterwards.
 */
module Registration {

  import opened Common
  import opened Schema

  datatype RegisterForm = RegisterForm(fullName: string, email: string, password: string, confirmPassword: string, role: Role)

  /** The form as first shown: empty fields, the student role preselected. */
  const EmptyRegisterForm := RegisterForm("", "", "", "", User)

  const MismatchText := "Passwords do not match"
  const TermsText := "Please agree to the terms and conditions"
  const CreatedText := "Account created successfully! Please check your email to verify."

  /** The profile data attached to the new account. */
  datatype SignUpMetadata = SignUpMetadata(fullName: string, role: string)

  datatype SignUpRequest = SignUpRequest(email: string, password: string, data: SignUpMetadata)

  /** The first failing check, if any: the password confirmation is checked before the terms box. */
  function ValidationError(f: RegisterForm, agreed: bool): (e: Option<string>)
    ensures f.password != f.confirmPassword ==> e == Some(MismatchText)
    ensures f.password == f.confirmPassword && !agreed ==> e == Some(TermsText)
    ensures e.None? <==> f.password == f.confirmPassword && agreed
  {
    if f.password != f.confirmPassword then Some(MismatchText)
    else if !agreed then Some(TermsText)
    else None
  }

  function SignUpRequestOf(f: RegisterForm): (r: SignUpRequest)
    ensures r.email == f.email && r.password == f.password
    ensures r.data.fullName == f.fullName && r.data.role == RoleName(f.role)
  {
    SignUpRequest(f.email, f.password, SignUpMetadata(f.fullName, RoleName(f.role)))
  }

  /**
   One submission of the form. `loadingTrace` lists the values given to the
   button's loading flag in order; `signUpError` is the answer of the sign-up
   call when it is made (`None` for success).
   */
  datatype Submission = Submission(
    request: Option<SignUpRequest>,
    toast: string,
    loadingTrace: seq<bool>,
    navigateTo: Option<string>
  )

  function HandleRegister(f: RegisterForm, agreed: bool, signUpError: Option<string>): (s: Submission)
    ensures s.request.Some? <==> ValidationError(f, agreed).None?
    ensures s.request.None? ==> s.toast == ValidationError(f, agreed).value && s.loadingTrace == [] && s.navigateTo.None?
    ensures s.request.Some? ==> s.request.value == SignUpRequestOf(f) && s.loadingTrace == [true, false]
    ensures s.navigateTo.Some? <==> s.request.Some? && signUpError.None?
    ensures s.navigateTo.Some? ==> s.navigateTo.value == "/login" && s.toast == CreatedText
    ensures s.request.Some? && signUpError.Some? ==>
              s.toast == (if signUpError.value != "" then signUpError.value else "Failed to create account")
  {
    match ValidationError(f, agreed)
    case Some(msg) => Submission(None, msg, [], None)
    case None =>
      var toast := match signUpError
        case None => CreatedText
        case Some(m) => if m != "" then m else "Failed to create account";
      Submission(Some(SignUpRequestOf(f)), toast, [true, false], if signUpError.None? then Some("/login") else None)
  }

  /**
   A mismatch is reported whatever the terms box says; only a matching pair
   with the box unticked reports the terms; either way nothing is sent and
   the loading flag is never touched.
   */
  lemma ValidationOrder(f: RegisterForm, agreed: bool, answer: Option<string>)
    ensures f.password != f.confirmPassword ==>
              HandleRegister(f, agreed, answer) == Submission(None, MismatchText, [], None)
    ensures f.password == f.confirmPassword && !agreed ==>
              HandleRegister(f, agreed, answer) == Submission(None, TermsText, [], None)
  {
  }

  /** Whatever the outcome, the loading flag ends cleared and was only ever set after both checks passed. */
  lemma LoadingEndsCleared(f: RegisterForm, agreed: bool, answer: Option<string>)
    ensures var s := HandleRegister(f, agreed, answer);
      && (|s.loadingTrace| > 0 ==> s.loadingTrace[|s.loadingTrace| - 1] == false)
      && (true in s.loadingTrace ==> f.password == f.confirmPassword && agreed)
  {
  }

  /** Left as first shown, the form signs the visitor up as a student. */
  lemma DefaultRoleIsStudent(fullName: string, email: string, password: string)
    ensures var f := EmptyRegisterForm.(fullName := fullName, email := email, password := password, confirmPassword := password);
      HandleRegister(f, true, None).request == Some(SignUpRequest(email, password, SignUpMetadata(fullName, "user")))
  {
  }
}
