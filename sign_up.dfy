/**
  The sign-up form: its ordered password checks and the submit handler that clears the error,
  runs the checks and, when they pass, calls `signUp(email, password)`.
  Lengths count characters.
 */
module SignUp {
  import opened Wrappers

  const PASSWORDS_DO_NOT_MATCH: string := "Passwords do not match"
  const PASSWORD_TOO_SHORT: string := "Password must be at least 6 characters"
  const MIN_PASSWORD_LENGTH: int := 6

  /** The message of the first check that fails, mismatch before length; `None` when both pass. */
  function Validate(password: string, confirmPassword: string): (r: Option<string>)
    ensures r.None? <==> password == confirmPassword && |password| >= MIN_PASSWORD_LENGTH
    ensures r.Some? ==> r.value in {PASSWORDS_DO_NOT_MATCH, PASSWORD_TOO_SHORT}
  {
    if password != confirmPassword then Some(PASSWORDS_DO_NOT_MATCH)
    else if |password| < MIN_PASSWORD_LENGTH then Some(PASSWORD_TOO_SHORT)
    else None
  }

  /** A mismatch is reported whatever the length, so a short mismatched password reports the mismatch. */
  lemma MismatchReportedFirst(password: string, confirmPassword: string)
    requires password != confirmPassword
    ensures Validate(password, confirmPassword) == Some(PASSWORDS_DO_NOT_MATCH)
  {
  }

  /** The length message appears exactly for matching passwords shorter than six characters. */
  lemma ShortPasswordReported(password: string, confirmPassword: string)
    ensures Validate(password, confirmPassword) == Some(PASSWORD_TOO_SHORT)
        <==> password == confirmPassword && |password| < MIN_PASSWORD_LENGTH
  {
  }

  /** The form's state: the three inputs and the error line under them. */
  class SignUpForm {
    var email: string
    var password: string
    var confirmPassword: string
    var error: string

    constructor()
      ensures email == "" && password == "" && confirmPassword == "" && error == ""
    {
      email, password, confirmPassword, error := "", "", "", "";
    }

    /**
      `handleSubmit`. `signUpFailure` is the message `signUp` rejects with, `None` when it
      completes. The result is the arguments `signUp` was called with, `None` when it was not called.
     */
    method HandleSubmit(signUpFailure: Option<string>) returns (call: Option<(string, string)>)
      modifies this`error
      ensures call.Some? <==> Validate(password, confirmPassword).None?
      ensures call.Some? ==> call.value == (email, password)
      ensures error == match Validate(password, confirmPassword)
                       case Some(message) => message
                       case None => signUpFailure.GetOr("")
    {
      error := "";
      if password != confirmPassword {
        error := PASSWORDS_DO_NOT_MATCH;
        return None;
      }
      if |password| < MIN_PASSWORD_LENGTH {
        error := PASSWORD_TOO_SHORT;
        return None;
      }
      call := Some((email, password));
      if signUpFailure.Some? {
        error := signUpFailure.value;
      }
    }
  }
}
