/**
 * gui/login_window.py: the window that asks for the master password.
 * Login accepts any password of at least six characters, exactly as typed
 * (it is not stripped), and closes the window; Cancel closes it with no
 * password.
 */
module LoginWindows {
  import opened Wrappers

  const EmptyPasswordMessage: string := "Please enter a master password."
  const ShortPasswordMessage: string := "Master password must be at least 6 characters long."
  const MinimumLength: nat := 6

  /** What pressing Login does with the typed text. */
  datatype LoginOutcome = Refused(message: string) | LoggedIn(password: string)

  function CheckLogin(typed: string): (o: LoginOutcome)
    ensures o.LoggedIn? <==> |typed| >= MinimumLength
    ensures o.LoggedIn? ==> o.password == typed
    ensures o.Refused? ==> o.message == if typed == [] then EmptyPasswordMessage else ShortPasswordMessage
  {
    if typed == [] then Refused(EmptyPasswordMessage)
    else if |typed| < MinimumLength then Refused(ShortPasswordMessage)
    else LoggedIn(typed)
  }

  /** A six-character password is accepted, and the same password without
      its first character is refused as too short: six is the exact
      threshold. */
  lemma ThresholdIsSix(typed: string)
    requires |typed| == MinimumLength
    ensures CheckLogin(typed).LoggedIn? && CheckLogin(typed[1..]).Refused?
    ensures CheckLogin(typed[1..]).message == ShortPasswordMessage
  {
  }

  class LoginWindow {
    var masterPassword: Option<string>
    var passwordText: string   // the contents of the password box
    var errorText: string      // the red label under the box
    var open: bool             // the main loop is still running

    ghost predicate Valid()
      reads this
    {
      masterPassword.Some? ==> |masterPassword.value| >= MinimumLength
    }

    /** LoginWindow(): no password yet, an empty box and label. */
    constructor ()
      ensures Valid() && masterPassword == None && passwordText == [] && errorText == [] && open
    {
      masterPassword, passwordText, errorText, open := None, [], [], true;
    }

    /** _login: a refusal shows its message and keeps the window open; an
        accepted password is kept as typed and the window's loop ends. */
    method Login()
      requires Valid()
      modifies this`masterPassword, this`errorText, this`open
      ensures Valid()
      ensures var o := old(CheckLogin(passwordText));
        && (o.Refused? ==>
              errorText == o.message && masterPassword == old(masterPassword) && open == old(open))
        && (o.LoggedIn? ==>
              masterPassword == Some(o.password) && !open && errorText == old(errorText))
    {
      var password := passwordText;
      if password == [] {
        errorText := EmptyPasswordMessage;
        return;
      }
      if |password| < MinimumLength {
        errorText := ShortPasswordMessage;
        return;
      }
      masterPassword := Some(password);
      open := false;
    }

    /** _cancel: the loop ends, leaving whatever password was accepted. */
    method Cancel()
      modifies this`open
      ensures !open
    {
      open := false;
    }

    /** show(): the accepted master password, or None. */
    function Show(): (r: Option<string>)
      reads this
      requires Valid()
      ensures r.Some? ==> |r.value| >= MinimumLength
      ensures r == masterPassword
    {
      masterPassword
    }
  }
}
