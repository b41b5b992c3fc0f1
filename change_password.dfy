/** The change-password form of client/src/Components/ChangePassword.tsx. */
module ChangePasswordForm {
  import opened Forms

  datatype PasswordFields = PasswordFields(currentPassword: string, newPassword: string, confirmNewPassword: string)

  /** The body sent to the server (ChangePassword.tsx:46-49): the confirmation stays behind. */
  datatype PasswordPayload = PasswordPayload(currentPassword: string, newPassword: string)

  datatype PasswordField = CurrentPassword | NewPassword | ConfirmNewPassword

  const MismatchMessage := "Passwords do not match"

  predicate PasswordFormOk(f: PasswordFields) {
    && |f.currentPassword| >= 8 && |f.newPassword| >= 8 && |f.confirmNewPassword| >= 8
    && f.newPassword == f.confirmNewPassword
  }

  /** `passwordSchema` (ChangePassword.tsx:11-20): three length rules, then the match
      refinement, reported on `confirmNewPassword` whatever the length rules found. */
  function PasswordIssues(f: PasswordFields): (r: seq<Issue<PasswordField>>)
    ensures r == [] <==> PasswordFormOk(f)
    ensures f.newPassword != f.confirmNewPassword ==> |r| > 0 && r[|r| - 1] == Issue(ConfirmNewPassword, MismatchMessage)
    ensures CurrentPassword in Fields(r) <==> |f.currentPassword| < 8
    ensures NewPassword in Fields(r) <==> |f.newPassword| < 8
  {
    var current := Check(|f.currentPassword| >= 8, CurrentPassword, "Current password must be at least 8 characters");
    var next := Check(|f.newPassword| >= 8, NewPassword, "New password must be at least 8 characters");
    var confirm := Check(|f.confirmNewPassword| >= 8, ConfirmNewPassword, "Confirm password must be at least 8 characters");
    var refine := Check(f.newPassword == f.confirmNewPassword, ConfirmNewPassword, MismatchMessage);
    FieldsConcat(current, next);
    FieldsConcat(current + next, confirm);
    FieldsConcat(current + next + confirm, refine);
    current + next + confirm + refine
  }

  /** The payload built from accepted fields. */
  function Payload(f: PasswordFields): (p: PasswordPayload)
    ensures p.currentPassword == f.currentPassword && p.newPassword == f.newPassword
  {
    PasswordPayload(f.currentPassword, f.newPassword)
  }

  /** Nothing relates the current password to the new one: reusing it is accepted. */
  lemma ReuseAccepted(password: string)
    requires |password| >= 8
    ensures PasswordIssues(PasswordFields(password, password, password)) == []
  {
  }
}
