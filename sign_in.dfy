/** The sign-in form of client/src/Components/SignIn.tsx and the session it starts. */
module SignInForm {
  import opened Common
  import opened Forms
  import RegexCheck
  import UserSlice

  datatype SignInFields = SignInFields(loginId: string, password: string)

  datatype SignInField = LoginId | Password

  /** The login-id rule (SignIn.tsx:14): a bare ten-digit 6-9 phone, or the email pattern. */
  predicate LoginIdAccepted(loginId: string) {
    RegexCheck.IsBarePhone(loginId) || RegexCheck.IsEmail(loginId)
  }

  /** `signInSchema` (SignIn.tsx:11-18). */
  function SignInIssues(f: SignInFields): (r: seq<Issue<SignInField>>)
    ensures r == [] <==> LoginIdAccepted(f.loginId) && |f.password| >= 8
    ensures LoginId in Fields(r) <==> !LoginIdAccepted(f.loginId)
    ensures Password in Fields(r) <==> |f.password| < 8
  {
    var login := Check(LoginIdAccepted(f.loginId), LoginId, "Must be a valid email or phone number");
    var password := Check(|f.password| >= 8, Password, "Password must be at least 8 characters long");
    FieldsConcat(login, password);
    login + password
  }

  /** Every login id the form lets through is one the server's `validateLoginId` accepts. */
  lemma AcceptedLoginIdIsValid(loginId: string)
    requires LoginIdAccepted(loginId)
    ensures RegexCheck.ValidateLoginId(loginId)
  {
  }

  /** The converse fails: the server takes a `+91` phone that the form refuses. */
  lemma PrefixedPhoneOnlyOnServer()
    ensures RegexCheck.ValidateLoginId("+919876543210")
    ensures !LoginIdAccepted("+919876543210")
  {
    var s := "+919876543210";
    RegexCheck.PrefixedPhone("9876543210", '-');
    assert s == "+91" + "9876543210";
    RegexCheck.PhoneHasNoAt(s);
    RegexCheck.EmailAndPhoneDisjoint(s);
  }

  /** The session `setUser` receives after a successful sign-in (SignIn.tsx:40-42): the id
      the server answered with and the login id as typed. */
  function SignedInSession(responseId: string, f: SignInFields): (p: UserSlice.UserState)
    ensures p.id == Some(responseId) && p.loginId == f.loginId
  {
    UserSlice.UserState(Some(responseId), f.loginId)
  }

  /** The success branch of `onSubmit`: the session takes the signed-in account. */
  method OnSignInSuccess(session: UserSlice.Session, responseId: string, f: SignInFields)
    modifies session
    ensures session.State() == SignedInSession(responseId, f)
  {
    session.SetUser(SignedInSession(responseId, f));
  }
}
