/** The stand-alone login page login.py. Its forms apply the same rules as
    those of components/_login.py (`LoginForm.ValidateRegistration`); what
    differs is only the page around them. */
module LoginPage {
  import opened Wrappers
  import opened Text
  import opened Session
  import opened Auth
  import LoginForm

  /** "Create Account" on this page. */
  method SubmitRegistration(store: CredentialStore, username: string, email: string, password: string,
                            confirm: string, freshSalt: string, now: string)
    returns (message: string, success: bool)
    requires store.Valid() && IsTokenHex16(freshSalt)
    modifies store
    ensures store.Valid()
    ensures match LoginForm.ValidateRegistration(username, email, password, confirm)
      case Rejected(m) =>
        message == m && !success && store.users == old(store.users) && store.nextId == old(store.nextId)
      case Submit(u, e, p) =>
        store.users == RegisterTable(store.kdf, old(store.users), old(store.nextId), u, e, p, freshSalt, now) &&
        success == RegisterVerdict(old(store.users), u, e).0 &&
        message == (if success then "Registration successful. You can now login."
                    else RegisterVerdict(old(store.users), u, e).1)
  {
    var check := LoginForm.ValidateRegistration(username, email, password, confirm);
    if check.Rejected? {
      message, success := check.message, false;
    } else {
      var ok, msg := store.RegisterUser(check.username, check.email, check.password, freshSalt, now);
      success := ok;
      message := if ok then "Registration successful. You can now login." else msg;
    }
  }

  /** "Login" on this page: the session changes only on success. */
  method SubmitLogin(store: CredentialStore, s: State, identifier: string, password: string)
    returns (message: string)
    modifies s`authenticated, s`user
    ensures var r := AuthenticateUser(store.kdf, old(store.users), Strip(identifier), password);
            if r.ok then
              message == "Login successful" && RequireLogin(s) &&
              CurrentUser(s) == Some(SessionUser(r.user.value.id, r.user.value.username, r.user.value.email))
            else
              message == r.message && s.authenticated == old(s.authenticated) && s.user == old(s.user)
  {
    var r := AuthenticateUser(store.kdf, store.users, Strip(identifier), password);
    var ok, msg, userObj := r.ok, r.message, r.user;
    if ok {
      LoginUserSession(s, userObj.value);
      message := "Login successful";
    } else {
      message := msg;
    }
  }

  /** "Logout" on this page, shown when a user is logged in. */
  method Logout(s: State)
    modifies s`authenticated, s`user
    ensures !RequireLogin(s) && CurrentUser(s) == None
  {
    LogoutUserSession(s);
  }
}
