/** The sign-up form of client/src/Components/SignUp.tsx. The email format check is zod's
    own and enters as the parameter `zodEmail`. */
module SignUpForm {
  import opened Forms
  import RegexCheck

  datatype SignUpFields = SignUpFields(
    email: string,
    firstName: string,
    lastName: string,
    phone: string,
    interests: seq<string>,
    dateOfBirth: string,
    password: string,
    confirmPassword: string)

  /** The fields of the form. */
  datatype SignUpField = Email | FirstName | LastName | Phone | Interests | DateOfBirth | Password | ConfirmPassword

  const PhoneMessage := "Please enter a valid 10-digit phone number"
  const MismatchMessage := "Passwords do not match"

  /** The phone rule (SignUp.tsx:18-23): an empty phone, or ten digits starting with 6-9. */
  predicate PhoneRuleOk(phone: string) {
    phone == "" || RegexCheck.IsBarePhone(phone)
  }

  /** Every field rule, stated directly. */
  predicate FieldsOk(f: SignUpFields, zodEmail: string -> bool) {
    && zodEmail(f.email)
    && f.firstName != "" && f.lastName != ""
    && PhoneRuleOk(f.phone)
    && |f.interests| >= 1
    && f.dateOfBirth != ""
    && |f.password| >= 8
    && f.confirmPassword != ""
  }

  /** The personal-detail rules of `signUpSchema` (SignUp.tsx:15-23). */
  function DetailIssues(f: SignUpFields, zodEmail: string -> bool): (r: seq<Issue<SignUpField>>)
    ensures r == [] <==> zodEmail(f.email) && f.firstName != "" && f.lastName != "" && PhoneRuleOk(f.phone)
    ensures Phone in Fields(r) <==> !PhoneRuleOk(f.phone)
    ensures Password !in Fields(r)
  {
    var email := Check(zodEmail(f.email), Email, "Please enter a valid email address");
    var first := Check(|f.firstName| >= 1, FirstName, "First name is required");
    var last := Check(|f.lastName| >= 1, LastName, "Last name is required");
    var phone := Check(PhoneRuleOk(f.phone), Phone, PhoneMessage);
    FieldsConcat(email, first);
    FieldsConcat(email + first, last);
    FieldsConcat(email + first + last, phone);
    email + first + last + phone
  }

  /** The remaining field rules of `signUpSchema` (SignUp.tsx:24-27). */
  function AccountIssues(f: SignUpFields): (r: seq<Issue<SignUpField>>)
    ensures r == [] <==> |f.interests| >= 1 && f.dateOfBirth != "" && |f.password| >= 8 && f.confirmPassword != ""
    ensures Phone !in Fields(r)
    ensures Password in Fields(r) <==> |f.password| < 8
  {
    var interests := Check(|f.interests| >= 1, Interests, "Select at least one interest");
    var birth := Check(|f.dateOfBirth| >= 1, DateOfBirth, "Date of birth is required");
    var password := Check(|f.password| >= 8, Password, "Password must be at least 8 characters long");
    var confirm := Check(|f.confirmPassword| >= 1, ConfirmPassword, "Please confirm your password");
    FieldsConcat(interests, birth);
    FieldsConcat(interests + birth, password);
    FieldsConcat(interests + birth + password, confirm);
    interests + birth + password + confirm
  }

  /** `signUpSchema` (SignUp.tsx:13-32). The password-match refinement runs even when a
      field rule failed; its message goes on `confirmPassword`, after every field issue. */
  function SignUpIssues(f: SignUpFields, zodEmail: string -> bool): (r: seq<Issue<SignUpField>>)
    ensures r == [] <==> FieldsOk(f, zodEmail) && f.password == f.confirmPassword
    ensures f.password != f.confirmPassword ==> |r| > 0 && r[|r| - 1] == Issue(ConfirmPassword, MismatchMessage)
    ensures Phone in Fields(r) <==> !PhoneRuleOk(f.phone)
    ensures Password in Fields(r) <==> |f.password| < 8
  {
    var details := DetailIssues(f, zodEmail);
    var account := AccountIssues(f);
    var refine := Check(f.password == f.confirmPassword, ConfirmPassword, MismatchMessage);
    FieldsConcat(details, account);
    FieldsConcat(details + account, refine);
    details + account + refine
  }

  /** A non-empty phone this form accepts is one the server's `isPhone` accepts. */
  lemma AcceptedPhoneIsServerPhone(f: SignUpFields, zodEmail: string -> bool)
    requires SignUpIssues(f, zodEmail) == [] && f.phone != ""
    ensures RegexCheck.IsPhone(f.phone)
  {
  }

  /** A phone the server accepts only in its prefixed form ("+91" with or without one
      separator) is refused here, with an issue on the phone field. */
  lemma PrefixedPhoneRefused(f: SignUpFields, zodEmail: string -> bool)
    requires RegexCheck.IsPhone(f.phone) && !RegexCheck.IsBarePhone(f.phone)
    ensures Phone in Fields(SignUpIssues(f, zodEmail))
    ensures SignUpIssues(f, zodEmail) != []
  {
    RegexCheck.PhoneShape(f.phone);
  }
}
