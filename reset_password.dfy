/**
 * The reset-password form's submit handler. It checks the length before the
 * match, and it does not touch the loading flag when validation fails. If both
 * checks pass, it asks the auth service to update the password. The service's
 * answer then shows an error or moves the app to "/home".
 *
 * As with sign-up, the handler is split at its `await`: `Submit` and `Complete`.
 */
module ResetPassword {
  import opened Wrappers
  import opened Passwords
  import SignUp

  const HOME_ROUTE := "/home"

  /** The validation message, if any: a short password is reported before a mismatch. */
  function ResetCheck(password: string, confirmPassword: string): (r: Option<string>)
    ensures r == None <==> password == confirmPassword && !TooShort(password)
    ensures r == Some(TOO_SHORT_MESSAGE) <==> TooShort(password)
    ensures r == Some(MISMATCH_MESSAGE) <==> !TooShort(password) && password != confirmPassword
  {
    MessagesDiffer();
    if TooShort(password) then Some(TOO_SHORT_MESSAGE)
    else if password != confirmPassword then Some(MISMATCH_MESSAGE)
    else None
  }

  class ResetPasswordForm {
    var password: string
    var confirmPassword: string
    var error: Option<string>
    var loading: bool
    /** Every new password sent to `updateUser`, oldest first. */
    var updates: seq<string>
    var awaiting: bool
    var navigations: seq<string>
    var refreshes: nat

    predicate Valid()
      reads this
    {
      && (awaiting ==> loading && error == None && updates != [])
      && (loading ==> awaiting || navigations == [HOME_ROUTE])
      && (navigations != [] ==> loading && !awaiting && refreshes == 1 && navigations == [HOME_ROUTE])
      && (navigations == [] ==> refreshes == 0)
    }

    constructor ()
      ensures Valid()
      ensures password == "" && confirmPassword == ""
      ensures error == None && !loading && !awaiting
      ensures updates == [] && navigations == [] && refreshes == 0
    {
      password, confirmPassword := "", "";
      error, loading := None, false;
      updates, awaiting := [], false;
      navigations, refreshes := [], 0;
    }

    /** Typing into the new-password field. */
    method SetPassword(value: string)
      requires Valid()
      modifies this
      ensures Valid()
      ensures password == value && confirmPassword == old(confirmPassword)
      ensures error == old(error) && loading == old(loading) && awaiting == old(awaiting)
      ensures updates == old(updates) && navigations == old(navigations) && refreshes == old(refreshes)
    {
      password := value;
    }

    /** Typing into the confirmation field. */
    method SetConfirmPassword(value: string)
      requires Valid()
      modifies this
      ensures Valid()
      ensures confirmPassword == value && password == old(password)
      ensures error == old(error) && loading == old(loading) && awaiting == old(awaiting)
      ensures updates == old(updates) && navigations == old(navigations) && refreshes == old(refreshes)
    {
      confirmPassword := value;
    }

    /** `handleSubmit` up to the update request; the submit button is disabled while loading. */
    method Submit()
      requires Valid() && !loading
      modifies this
      ensures Valid()
      ensures password == old(password) && confirmPassword == old(confirmPassword)
      ensures navigations == old(navigations) && refreshes == old(refreshes)
      ensures ResetCheck(password, confirmPassword).Some? ==>
        && error == ResetCheck(password, confirmPassword)
        && loading == old(loading) && !awaiting && updates == old(updates)
      ensures ResetCheck(password, confirmPassword).None? ==>
        error == None && loading && awaiting && updates == old(updates) + [password]
    {
      error := None;

      if Utf16Length(password) < MIN_PASSWORD_LENGTH {
        error := Some(TOO_SHORT_MESSAGE);
        return;
      }

      if password != confirmPassword {
        error := Some(MISMATCH_MESSAGE);
        return;
      }

      loading := true;
      updates := updates + [password];
      awaiting := true;
    }

    /** `handleSubmit` after the request: `authError` is the service's error message, if any. */
    method Complete(authError: Option<string>)
      requires Valid() && awaiting
      modifies this
      ensures Valid()
      ensures !awaiting
      ensures password == old(password) && confirmPassword == old(confirmPassword)
      ensures updates == old(updates)
      ensures authError.Some? ==>
        error == authError && !loading && navigations == old(navigations) && refreshes == old(refreshes)
      ensures authError.None? ==>
        error == None && loading && navigations == [HOME_ROUTE] && refreshes == 1
    {
      awaiting := false;
      if authError.Some? {
        error := authError;
        loading := false;
      } else {
        navigations := navigations + [HOME_ROUTE];
        refreshes := refreshes + 1;
      }
    }
  }

  /** The two forms accept exactly the same password pairs. */
  lemma SameAcceptedPairs(password: string, confirmPassword: string)
    ensures ResetCheck(password, confirmPassword).None? <==>
      SignUp.SignUpCheck(password, confirmPassword).None?
  {
  }

  /**
   * The two forms disagree only on a pair that fails both checks: reset-password
   * reports the length, sign-up reports the mismatch.
   */
  lemma MessagesDifferOnlyWhenBothFail(password: string, confirmPassword: string)
    ensures ResetCheck(password, confirmPassword) != SignUp.SignUpCheck(password, confirmPassword) <==>
      TooShort(password) && password != confirmPassword
    ensures TooShort(password) && password != confirmPassword ==>
      && ResetCheck(password, confirmPassword) == Some(TOO_SHORT_MESSAGE)
      && SignUp.SignUpCheck(password, confirmPassword) == Some(MISMATCH_MESSAGE)
  {
    MessagesDiffer();
  }
}
