/** The login and registration forms of components/_login.py. The
    registration form checks its fields in a fixed order before calling the
    store; the login form strips the identifier and starts a session only
    when the store authenticates the user. */
module LoginForm {
  import opened Wrappers
  import opened Text
  import opened Session
  import opened Auth

  /** What the registration form does with its four fields: show an error,
      or call `register_user` with these arguments. */
  datatype RegistrationCheck =
    | Rejected(message: string)
    | Submit(username: string, email: string, password: string)

  /** The if/elif chain of the registration form. The length test counts the
      username as typed; only the call to the store strips it. */
  function ValidateRegistration(username: string, email: string, password: string, confirm: string): (r: RegistrationCheck)
    ensures r.Submit? <==> username != [] && email != [] && password != [] &&
                           3 <= |username| <= 20 && password == confirm
    ensures r.Submit? ==> r == Submit(Strip(username), Strip(email), password)
  {
    if username == [] || email == [] || password == [] then Rejected("Please fill in all fields")
    else if |username| < 3 || |username| > 20 then Rejected("Username must be 3-20 characters")
    else if password != confirm then Rejected("Passwords do not match")
    else Submit(Strip(username), Strip(email), password)
  }

  /** Which error wins when several apply: an empty field first, then the
      username length, then the confirmation. */
  lemma ValidateRegistrationOrder(username: string, email: string, password: string, confirm: string)
    ensures username == [] || email == [] || password == [] ==>
              ValidateRegistration(username, email, password, confirm) == Rejected("Please fill in all fields")
    ensures username != [] && email != [] && password != [] && (|username| < 3 || |username| > 20) ==>
              ValidateRegistration(username, email, password, confirm) == Rejected("Username must be 3-20 characters")
    ensures username != [] && email != [] && password != [] && 3 <= |username| <= 20 && password != confirm ==>
              ValidateRegistration(username, email, password, confirm) == Rejected("Passwords do not match")
  {
  }

  /** What reaches the store is trimmed and no longer than 20 characters. */
  lemma ValidateRegistrationSubmitted(username: string, email: string, password: string, confirm: string)
    requires ValidateRegistration(username, email, password, confirm).Submit?
    ensures IsTrimmed(ValidateRegistration(username, email, password, confirm).username)
    ensures IsTrimmed(ValidateRegistration(username, email, password, confirm).email)
    ensures |ValidateRegistration(username, email, password, confirm).username| <= 20
  {
  }

  /** The length check happens before the strip: a username of 3 to 20
      white-space characters passes and is submitted as the empty username. */
  lemma BlankUsernameSubmitted(username: string, email: string, password: string)
    requires 3 <= |username| <= 20 && forall i :: 0 <= i < |username| ==> IsSpace(username[i])
    requires email != [] && password != []
    ensures ValidateRegistration(username, email, password, password) == Submit("", Strip(email), password)
  {
    StripAllSpace(username);
  }

  /** Register through the form, then log in with the username as typed
      (spaces and all) and the same password: the login succeeds. */
  lemma FormRegisterThenLogin(kdf: Kdf, users: seq<UserRecord>, nextId: int,
                              username: string, email: string, password: string,
                              salt: string, now: string)
    requires ValidateRegistration(username, email, password, password).Submit?
    requires forall i :: 0 <= i < |users| ==> !Matches(users[i], Strip(username), Strip(email))
    ensures AuthenticateUser(kdf, RegisterTable(kdf, users, nextId, Strip(username), Strip(email), password, salt, now),
                             Strip(username), password).ok
  {
    RegisterThenAuthenticate(kdf, users, nextId, Strip(username), Strip(email), password, salt, now);
  }

  /** "Create Account": returns the text shown and whether it is a success. */
  method SubmitRegistration(store: CredentialStore, username: string, email: string, password: string,
                            confirm: string, freshSalt: string, now: string)
    returns (message: string, success: bool)
    requires store.Valid() && IsTokenHex16(freshSalt)
    modifies store
    ensures store.Valid()
    ensures match ValidateRegistration(username, email, password, confirm)
      case Rejected(m) =>
        message == m && !success && store.users == old(store.users) && store.nextId == old(store.nextId)
      case Submit(u, e, p) =>
        store.users == RegisterTable(store.kdf, old(store.users), old(store.nextId), u, e, p, freshSalt, now) &&
        success == RegisterVerdict(old(store.users), u, e).0 &&
        message == (if success then "Registration successful. You can now login."
                    else RegisterVerdict(old(store.users), u, e).1)
  {
    match ValidateRegistration(username, email, password, confirm)
    case Rejected(m) =>
      message, success := m, false;
    case Submit(u, e, p) =>
      var ok, msg := store.RegisterUser(u, e, p, freshSalt, now);
      success := ok;
      message := if ok then "Registration successful. You can now login." else msg;
  }

  /** "Login": authenticate the stripped identifier; on success start the
      session, otherwise leave it as it is and show the store's message. */
  method SubmitLogin(store: CredentialStore, s: State, identifier: string, password: string)
    returns (message: string)
    modifies s`authenticated, s`user
    ensures var r := AuthenticateUser(store.kdf, old(store.users), Strip(identifier), password);
            if r.ok then
              message == "Login successful" && RequireLogin(s) &&
              CurrentUser(s) == Some(SessionUser(r.user.value.id, r.user.value.username, r.user.value.email))
            else
              message == r.message && s.authenticated == old(s.authenticated) && s.user == old(s.user)
  {
    var r := AuthenticateUser(store.kdf, store.users, Strip(identifier), password);
    if r.ok {
      LoginUserSession(s, r.user.value);
      message := "Login successful";
    } else {
      message := r.message;
    }
  }

  /** The "Logout" button of the logged-in view. */
  method LogoutButton(s: State)
    modifies s`authenticated, s`user
    ensures !RequireLogin(s) && CurrentUser(s) == None
  {
    LogoutUserSession(s);
  }
}
