/**
 * The login form of frontend/src/pages/Login.tsx: the validation schema of its
 * two fields and the hand-off of the user ID to the OTP screen.
 */
module LoginForm {
  import opened Wrappers
  import opened JsText
  import opened JsRegex
  import OtpScreen

  const UserIdMinLength: nat := 8
  const UserIdMaxLength: nat := 12
  const PasswordMinLength: nat := 8

  /** `/^[a-zA-Z0-9]+$/`. */
  const AlphanumericPattern: Pattern := Pattern([], IsAsciiAlnum, 1, None)

  /** `.required()` on a string field: not empty. */
  predicate Required(s: string) { s != "" }

  /** The four rules on `userId`: required, `.min(8)`, `.max(12)`, alphanumeric. */
  predicate UserIdAccepted(u: string)
    ensures UserIdAccepted(u) ==> forall i :: 0 <= i < |u| ==> IsAsciiAlnum(u[i])
    ensures |u| < UserIdMinLength || |u| > UserIdMaxLength ==> !UserIdAccepted(u)
  {
    Required(u) && |u| >= UserIdMinLength && |u| <= UserIdMaxLength && Test(AlphanumericPattern, u)
  }

  /** The two rules on `password`: required, `.min(8)`. */
  predicate PasswordAccepted(p: string)
    ensures |p| >= PasswordMinLength ==> PasswordAccepted(p)
  {
    Required(p) && |p| >= PasswordMinLength
  }

  /** The whole schema: both fields pass, so neither is empty. */
  predicate LoginAccepted(userId: string, password: string)
    ensures LoginAccepted(userId, password) ==> userId != "" && password != ""
  {
    UserIdAccepted(userId) && PasswordAccepted(password)
  }

  /** A user ID is accepted exactly when it has 8 to 12 characters, all ASCII letters or digits. */
  lemma UserIdAcceptedIff(u: string)
    ensures UserIdAccepted(u) <==>
      UserIdMinLength <= |u| <= UserIdMaxLength && forall i :: 0 <= i < |u| ==> IsAsciiAlnum(u[i])
    ensures UserIdAccepted(u) ==> Required(u)
  {
    TestMeans(AlphanumericPattern, u);
  }

  /** The password takes any characters: only its length of at least 8 matters. */
  lemma PasswordAcceptedIff(p: string)
    ensures PasswordAccepted(p) <==> |p| >= PasswordMinLength
  {
  }

  /** What submitting the form leads to. */
  datatype LoginResult =
    | Invalid                         // the schema rejects a field: `onSubmit` is not called
    | CredentialsRejected             // the catch branch of `onSubmit`: an error notice
    | ToOtp(state: Option<string>)    // `navigate('/verify-otp', { state: { userId } })`

  /**
   * Submitting the form: validation first, then `onSubmit`, whose simulated
   * login call succeeds or (in the catch branch) fails as `loginSucceeded` says.
   */
  function SubmitLogin(userId: string, password: string, loginSucceeded: bool): (r: LoginResult)
    ensures !LoginAccepted(userId, password) <==> r == Invalid
    ensures r.ToOtp? <==> LoginAccepted(userId, password) && loginSucceeded
    ensures r.ToOtp? ==> r.state == Some(userId)
  {
    if !LoginAccepted(userId, password) then Invalid
    else if loginSucceeded then ToOtp(Some(userId))
    else CredentialsRejected
  }

  /**
   * A user ID handed over by the login form always satisfies the OTP screen's
   * session check: the screen stays, and its mount starts the first dispatch.
   */
  lemma HandOffKeepsSession(userId: string, password: string)
    requires LoginAccepted(userId, password)
    ensures var r := SubmitLogin(userId, password, true);
      r.ToOtp? && OtpScreen.SessionPresent(r.state)
      && OtpScreen.Mount(r.state, OtpScreen.AsWritten).route == OtpScreen.VerifyOtp
      && OtpScreen.Mount(r.state, OtpScreen.AsWritten).dispatching == 1
  {
    UserIdAcceptedIff(userId);
  }
}
