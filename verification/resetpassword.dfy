/**
 * The reset-password page of src/app/reset-password/page.tsx: the two
 * password fields, the checks made before the new password is sent, and
 * the loading, error and success state around the update. The
 * authentication provider's answers are parameters.
 */
module ResetPassword {
  import opened Optional

  /** The shortest password accepted. */
  const MinPasswordLength: nat := 6

  /**
   * The message the checks give, in order: the two fields must match, then
   * the password must have at least six characters; None when both pass.
   */
  function PasswordProblem(password: string, confirmPassword: string): (r: Option<string>)
    ensures password != confirmPassword ==> r == Some("Passwords do not match")
    ensures password == confirmPassword && |password| < 6 ==> r == Some("Password must be at least 6 characters")
    ensures r.None? <==> password == confirmPassword && |password| >= 6
  {
    if password != confirmPassword then Some("Passwords do not match")
    else if |password| < MinPasswordLength then Some("Password must be at least 6 characters")
    else None
  }

  /** The page's state. */
  class ResetPasswordState {
    var password: string
    var confirmPassword: string
    var loading: bool
    var error: Option<string>
    var success: bool

    constructor()
      ensures password == "" && confirmPassword == ""
      ensures !loading && error == None && !success
    {
      password := "";
      confirmPassword := "";
      loading := false;
      error := None;
      success := false;
    }

    /** The password field's onChange. */
    method SetPassword(s: string)
      modifies this
      ensures password == s && confirmPassword == old(confirmPassword)
      ensures loading == old(loading) && error == old(error) && success == old(success)
    {
      password := s;
    }

    /** The confirmation field's onChange. */
    method SetConfirmPassword(s: string)
      modifies this
      ensures confirmPassword == s && password == old(password)
      ensures loading == old(loading) && error == old(error) && success == old(success)
    {
      confirmPassword := s;
    }

    /** The mount effect: a failed session lookup shows that the link is invalid or expired. */
    method AuthCallback(sessionFailed: bool)
      modifies this
      ensures sessionFailed ==> error == Some("Invalid or expired reset link")
      ensures !sessionFailed ==> error == old(error)
      ensures password == old(password) && confirmPassword == old(confirmPassword)
      ensures loading == old(loading) && success == old(success)
    {
      if sessionFailed {
        error := Some("Invalid or expired reset link");
      }
    }

    /**
     * handleSubmit, with the provider's error message (None on success) as
     * a parameter. A check that fails shows its message and sends nothing,
     * leaving `loading` and `success` alone. Otherwise the update is sent:
     * a provider error shows its message and leaves `success` alone,
     * success clears the error and sets `success`; `loading` ends false.
     */
    method HandleSubmit(providerError: Option<string>) returns (updateSent: bool)
      modifies this
      ensures updateSent <==> PasswordProblem(old(password), old(confirmPassword)).None?
      ensures !updateSent ==> error == PasswordProblem(old(password), old(confirmPassword))
      ensures !updateSent ==> loading == old(loading) && success == old(success)
      ensures updateSent && providerError.Some? ==> error == providerError && success == old(success) && !loading
      ensures updateSent && providerError.None? ==> error == None && success && !loading
      ensures password == old(password) && confirmPassword == old(confirmPassword)
    {
      if password != confirmPassword {
        error := Some("Passwords do not match");
        return false;
      }
      if |password| < 6 {
        error := Some("Password must be at least 6 characters");
        return false;
      }
      loading := true;
      error := None;
      updateSent := true;
      if providerError.Some? {
        error := providerError;
      } else {
        success := true;
      }
      loading := false;
    }
  }

  /** The mismatch is reported even when the password is also too short: that check comes first. */
  lemma MismatchReportedFirst(password: string, confirmPassword: string)
    requires password != confirmPassword && |password| < 6
    ensures PasswordProblem(password, confirmPassword) == Some("Passwords do not match")
  {
  }
}
