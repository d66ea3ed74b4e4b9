/**
 * The sign-up form's submit handler. Submitting first validates the two
 * password fields (the mismatch first, then the length). If both checks pass,
 * it sends a sign-up request carrying the email, the password and the
 * browser's time zone ("UTC" when it cannot be detected). The auth service's
 * answer arrives later: an error is shown, or the app moves to "/home".
 *
 * The handler is split at its `await`: `Submit` runs up to the request and
 * `Complete` runs once the answer is in. Both the detected time zone and the
 * service's answer are parameters.
 */
module SignUp {
  import opened Wrappers
  import opened Passwords

  const HOME_ROUTE := "/home"
  const DEFAULT_TIMEZONE := "UTC"

  /** What `supabase.auth.signUp` is called with. */
  datatype SignUpRequest = SignUpRequest(email: string, password: string, timezone: string)

  /** The validation message, if any: a mismatch is reported before a short password. */
  function SignUpCheck(password: string, confirmPassword: string): (r: Option<string>)
    ensures r == None <==> password == confirmPassword && !TooShort(password)
    ensures r == Some(MISMATCH_MESSAGE) <==> password != confirmPassword
    ensures r == Some(TOO_SHORT_MESSAGE) <==> password == confirmPassword && TooShort(password)
  {
    MessagesDiffer();
    if password != confirmPassword then Some(MISMATCH_MESSAGE)
    else if TooShort(password) then Some(TOO_SHORT_MESSAGE)
    else None
  }

  class SignUpForm {
    var email: string
    var password: string
    var confirmPassword: string
    var error: Option<string>
    var loading: bool
    /** Every sign-up request sent, oldest first. */
    var requests: seq<SignUpRequest>
    /** A request has been sent and its answer has not arrived yet. */
    var awaiting: bool
    /** The routes pushed onto the router, and how many times it was refreshed. */
    var navigations: seq<string>
    var refreshes: nat

    /**
     * The states the form can be in: editing (not loading, nothing pending),
     * waiting for the service, or done (moved to the home page, still loading).
     */
    predicate Valid()
      reads this
    {
      && (awaiting ==> loading && error == None && requests != [])
      && (loading ==> awaiting || navigations == [HOME_ROUTE])
      && (navigations != [] ==> loading && !awaiting && refreshes == 1 && navigations == [HOME_ROUTE])
      && (navigations == [] ==> refreshes == 0)
    }

    constructor ()
      ensures Valid()
      ensures email == "" && password == "" && confirmPassword == ""
      ensures error == None && !loading && !awaiting
      ensures requests == [] && navigations == [] && refreshes == 0
    {
      email, password, confirmPassword := "", "", "";
      error, loading := None, false;
      requests, awaiting := [], false;
      navigations, refreshes := [], 0;
    }

    /** Typing into the email field. */
    method SetEmail(value: string)
      requires Valid()
      modifies this
      ensures Valid()
      ensures email == value
      ensures password == old(password) && confirmPassword == old(confirmPassword)
      ensures error == old(error) && loading == old(loading) && awaiting == old(awaiting)
      ensures requests == old(requests) && navigations == old(navigations) && refreshes == old(refreshes)
    {
      email := value;
    }

    /** Typing into the password field. */
    method SetPassword(value: string)
      requires Valid()
      modifies this
      ensures Valid()
      ensures password == value
      ensures email == old(email) && confirmPassword == old(confirmPassword)
      ensures error == old(error) && loading == old(loading) && awaiting == old(awaiting)
      ensures requests == old(requests) && navigations == old(navigations) && refreshes == old(refreshes)
    {
      password := value;
    }

    /** Typing into the confirmation field. */
    method SetConfirmPassword(value: string)
      requires Valid()
      modifies this
      ensures Valid()
      ensures confirmPassword == value
      ensures email == old(email) && password == old(password)
      ensures error == old(error) && loading == old(loading) && awaiting == old(awaiting)
      ensures requests == old(requests) && navigations == old(navigations) && refreshes == old(refreshes)
    {
      confirmPassword := value;
    }

    /**
     * `handleSignUp` up to the request. The submit button is disabled while
     * loading, so the handler runs only when the form is not loading.
     * `detectedTimezone` is the browser's time zone, `None` when detecting it throws.
     */
    method Submit(detectedTimezone: Option<string>)
      requires Valid() && !loading
      modifies this
      ensures Valid()
      ensures email == old(email) && password == old(password) && confirmPassword == old(confirmPassword)
      ensures navigations == old(navigations) && refreshes == old(refreshes)
      ensures SignUpCheck(password, confirmPassword).Some? ==>
        && error == SignUpCheck(password, confirmPassword)
        && !loading && !awaiting && requests == old(requests)
      ensures SignUpCheck(password, confirmPassword).None? ==>
        && error == None && loading && awaiting
        && requests == old(requests) + [SignUpRequest(email, password, detectedTimezone.OrElse(DEFAULT_TIMEZONE))]
    {
      loading := true;
      error := None;

      if password != confirmPassword {
        error := Some(MISMATCH_MESSAGE);
        loading := false;
        return;
      }

      if Utf16Length(password) < MIN_PASSWORD_LENGTH {
        error := Some(TOO_SHORT_MESSAGE);
        loading := false;
        return;
      }

      var timezone := DEFAULT_TIMEZONE;
      if detectedTimezone.Some? {
        timezone := detectedTimezone.value;
      }
      requests := requests + [SignUpRequest(email, password, timezone)];
      awaiting := true;
    }

    /**
     * `handleSignUp` after the request: `authError` is the message of the error
     * the service answered with, `None` when sign-up succeeded.
     */
    method Complete(authError: Option<string>)
      requires Valid() && awaiting
      modifies this
      ensures Valid()
      ensures !awaiting
      ensures email == old(email) && password == old(password) && confirmPassword == old(confirmPassword)
      ensures requests == old(requests)
      ensures authError.Some? ==>
        error == authError && !loading && navigations == old(navigations) && refreshes == old(refreshes)
      ensures authError.None? ==>
        error == None && loading && navigations == [HOME_ROUTE] && refreshes == 1
    {
      awaiting := false;
      if authError.Some? {
        error := authError;
        loading := false;
      } else {
        navigations := navigations + [HOME_ROUTE];
        refreshes := refreshes + 1;
      }
    }
  }
}
