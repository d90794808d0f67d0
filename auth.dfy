/** The credential store of auth.py: a `users` table with unique usernames
    and unique emails, salted PBKDF2 password hashes, registration and
    authentication, and the two session keys a login sets. */
module Auth {
  import opened Wrappers
  import opened Session

  /** PBKDF2-HMAC-SHA256 (section 5.2 of RFC 8018) with 200,000 iterations,
      applied to a password and a hex-encoded salt, giving the hex-encoded
      derived key. Only its being a deterministic function is used. */
  type Kdf = (string, string) -> string

  const Iterations: nat := 200_000

  /** A row of the `users` table. */
  datatype UserRecord = UserRecord(
    id: int, username: string, email: string,
    passwordHash: string, salt: string, createdAt: string)

  /** The dict `authenticate_user` returns for the row it found. */
  datatype AuthUser = AuthUser(id: int, username: string, email: string, passwordHash: string, salt: string)

  function ToAuthUser(u: UserRecord): AuthUser {
    AuthUser(u.id, u.username, u.email, u.passwordHash, u.salt)
  }

  predicate IsHexDigit(c: char) {
    '0' <= c <= '9' || 'a' <= c <= 'f'
  }

  /** The shape of `secrets.token_hex(16)`: 32 lower-case hex digits. */
  predicate IsTokenHex16(s: string) {
    |s| == 32 && forall i :: 0 <= i < |s| ==> IsHexDigit(s[i])
  }

  // ---------------------------------------------------------------------
  // Password hashing

  /** `hash_password(password, salt)`: keep the given salt, or use `drawn`
      (the `secrets.token_hex(16)` draw) when none is given, and derive the
      hash from the password and that salt. */
  function HashPassword(kdf: Kdf, password: string, salt: Option<string>, drawn: string): (string, string) {
    var s := salt.GetOr(drawn);
    (s, kdf(password, s))
  }

  /** `verify_password`: re-derive with the stored salt and compare. */
  predicate VerifyPassword(kdf: Kdf, password: string, salt: string, expectedHash: string) {
    HashPassword(kdf, password, Some(salt), salt).1 == expectedHash
  }

  /** A supplied salt comes back unchanged and the hash depends only on
      the password and that salt, not on the random draw. */
  lemma HashPasswordDeterministic(kdf: Kdf, password: string, salt: string, drawn1: string, drawn2: string)
    ensures HashPassword(kdf, password, Some(salt), drawn1).0 == salt
    ensures HashPassword(kdf, password, Some(salt), drawn1) == HashPassword(kdf, password, Some(salt), drawn2)
  {
  }

  /** A freshly hashed password verifies against its own salt and hash,
      whether the salt was supplied or drawn. */
  lemma VerifyOwnHash(kdf: Kdf, password: string, salt: Option<string>, drawn: string)
    ensures var (s, h) := HashPassword(kdf, password, salt, drawn);
            VerifyPassword(kdf, password, s, h)
  {
  }

  // ---------------------------------------------------------------------
  // The users table

  /** `username = ? OR email = ?` */
  predicate Matches(u: UserRecord, username: string, email: string) {
    u.username == username || u.email == email
  }

  /** The two indexed columns of the table (both are `UNIQUE`). */
  datatype Column = UsernameColumn | EmailColumn

  function ColumnValue(u: UserRecord, c: Column): string {
    if c.UsernameColumn? then u.username else u.email
  }

  /** The first row, in rowid order, whose column `c` holds `key`: the first
      hit of a search of that column's index. */
  function FirstWhere(users: seq<UserRecord>, c: Column, key: string): (r: Option<nat>)
    ensures r.None? <==> forall i :: 0 <= i < |users| ==> ColumnValue(users[i], c) != key
    ensures r.Some? ==> r.value < |users| && ColumnValue(users[r.value], c) == key
    ensures r.Some? ==> forall i :: 0 <= i < r.value ==> ColumnValue(users[i], c) != key
  {
    if users == [] then None
    else if ColumnValue(users[0], c) == key then Some(0)
    else match FirstWhere(users[1..], c, key)
      case None => None
      case Some(k) => Some(k + 1)
  }

  /** Adding a row after the last one does not change an existing hit. */
  lemma {:induction false} FirstWhereAppend(users: seq<UserRecord>, row: UserRecord, c: Column, key: string)
    ensures FirstWhere(users + [row], c, key) ==
      if FirstWhere(users, c, key).Some? then FirstWhere(users, c, key)
      else if ColumnValue(row, c) == key then Some(|users|)
      else None
  {
    if users != [] {
      assert (users + [row])[1..] == users[1..] + [row];
      FirstWhereAppend(users[1..], row, c, key);
    }
  }

  /** The row `fetchone()` returns for `WHERE username = ? OR email = ?`.
      With both columns indexed, SQLite answers the `OR` by searching the
      username index and then the email index, so a row with that username
      comes out ahead of a row that only has that email. */
  function FetchOne(users: seq<UserRecord>, username: string, email: string): (r: Option<nat>)
    ensures r.None? <==> forall i :: 0 <= i < |users| ==> !Matches(users[i], username, email)
    ensures r.Some? ==> r.value < |users| && Matches(users[r.value], username, email)
    ensures forall i :: 0 <= i < |users| && users[i].username == username ==>
              r.Some? && users[r.value].username == username
  {
    match FirstWhere(users, UsernameColumn, username)
    case Some(k) => Some(k)
    case None => FirstWhere(users, EmailColumn, email)
  }

  /** Adding a row changes the row found only when nothing matched before,
      or when the new row has the username and the old hit had only the email. */
  lemma FetchOneAppend(users: seq<UserRecord>, row: UserRecord, username: string, email: string)
    ensures var before := FetchOne(users, username, email);
            FetchOne(users + [row], username, email) ==
              if before.Some? && users[before.value].username == username then before
              else if row.username == username then Some(|users|)
              else if before.Some? then before
              else if row.email == email then Some(|users|)
              else None
  {
    FirstWhereAppend(users, row, UsernameColumn, username);
    FirstWhereAppend(users, row, EmailColumn, email);
  }

  predicate UniqueUsernames(users: seq<UserRecord>) {
    forall i, j :: 0 <= i < j < |users| ==> users[i].username != users[j].username
  }

  predicate UniqueEmails(users: seq<UserRecord>) {
    forall i, j :: 0 <= i < j < |users| ==> users[i].email != users[j].email
  }

  /** The table's invariant: `UNIQUE` usernames and emails; `AUTOINCREMENT`
      ids, increasing in table order and below the next id to hand out;
      salts drawn by `token_hex(16)`. */
  predicate TableInvariant(users: seq<UserRecord>, nextId: int) {
    && 1 <= nextId
    && (forall i :: 0 <= i < |users| ==> 1 <= users[i].id < nextId)
    && (forall i, j :: 0 <= i < j < |users| ==> users[i].id < users[j].id)
    && UniqueUsernames(users)
    && UniqueEmails(users)
    && (forall i :: 0 <= i < |users| ==> IsTokenHex16(users[i].salt))
  }

  /** `user_exists(username, email)`: `(False, None)` when no row has that
      username or that email; otherwise which field of the row found
      collides, the username being checked first. */
  function UserExists(users: seq<UserRecord>, username: string, email: string): (r: (bool, Option<string>))
    ensures !r.0 <==> forall i :: 0 <= i < |users| ==> users[i].username != username && users[i].email != email
    ensures !r.0 ==> r.1 == None
    ensures r.0 ==> r.1 == Some("username") || r.1 == Some("email")
    ensures r.1 == Some("username") <==> exists i :: 0 <= i < |users| && users[i].username == username
    ensures r.1 == Some("email") <==> r.0 && forall i :: 0 <= i < |users| ==> users[i].username != username
    ensures r.1 == Some("email") ==> exists i :: 0 <= i < |users| && users[i].email == email
  {
    match FetchOne(users, username, email)
    case None => (false, None)
    case Some(k) =>
      if users[k].username == username then (true, Some("username"))
      else if users[k].email == email then (true, Some("email"))
      else (false, None)
  }

  /** The verdict of `register_user`: rejected exactly when some row has the
      username or the email. */
  function RegisterVerdict(users: seq<UserRecord>, username: string, email: string): (r: (bool, string))
    ensures !r.0 <==> exists i :: 0 <= i < |users| && Matches(users[i], username, email)
    ensures r.0 <==> r.1 == "Registration successful"
    ensures !r.0 ==> r.1 == "Username already taken" || r.1 == "Email already registered"
    ensures r.1 == "Username already taken" <==> exists i :: 0 <= i < |users| && users[i].username == username
    ensures r.1 == "Email already registered" <==>
              !r.0 && forall i :: 0 <= i < |users| ==> users[i].username != username
  {
    var (exists_, field) := UserExists(users, username, email);
    if exists_ && field == Some("username") then (false, "Username already taken")
    else if exists_ && field == Some("email") then (false, "Email already registered")
    else (true, "Registration successful")
  }

  /** The row `register_user` inserts. */
  function NewUser(kdf: Kdf, id: int, username: string, email: string, password: string, salt: string, now: string): UserRecord {
    var (s, h) := HashPassword(kdf, password, None, salt);
    UserRecord(id, username, email, h, s, now)
  }

  /** The table after `register_user`. */
  function RegisterTable(kdf: Kdf, users: seq<UserRecord>, nextId: int,
                         username: string, email: string, password: string,
                         salt: string, now: string): seq<UserRecord> {
    if RegisterVerdict(users, username, email).0
    then users + [NewUser(kdf, nextId, username, email, password, salt, now)]
    else users
  }

  /** Registration keeps the table's invariant: in particular no two rows
      ever share a username or share an email. */
  lemma RegisterKeepsInvariant(kdf: Kdf, users: seq<UserRecord>, nextId: int,
                               username: string, email: string, password: string,
                               salt: string, now: string)
    requires TableInvariant(users, nextId) && IsTokenHex16(salt)
    ensures var ok := RegisterVerdict(users, username, email).0;
            TableInvariant(RegisterTable(kdf, users, nextId, username, email, password, salt, now),
                           if ok then nextId + 1 else nextId)
  {
  }

  /** A successful registration adds exactly one row, with the given username
      and email and a hash that verifies against the password. */
  lemma RegisterAddsVerifiableUser(kdf: Kdf, users: seq<UserRecord>, nextId: int,
                                   username: string, email: string, password: string,
                                   salt: string, now: string)
    requires RegisterVerdict(users, username, email).0
    ensures var t := RegisterTable(kdf, users, nextId, username, email, password, salt, now);
            |t| == |users| + 1 && t[..|users|] == users &&
            t[|users|].username == username && t[|users|].email == email &&
            t[|users|].id == nextId &&
            VerifyPassword(kdf, password, t[|users|].salt, t[|users|].passwordHash)
  {
  }

  /** The result of `authenticate_user`: `(ok, message, user)`. */
  datatype AuthResult = AuthResult(ok: bool, message: string, user: Option<AuthUser>)

  /** `authenticate_user(identifier, password)`: fetch the row whose
      username, or failing that whose email, is the identifier, then check
      the password against that row's salt and hash. */
  function AuthenticateUser(kdf: Kdf, users: seq<UserRecord>, identifier: string, password: string): (r: AuthResult)
    ensures r.message == "User not found" <==>
              forall i :: 0 <= i < |users| ==> !Matches(users[i], identifier, identifier)
    ensures r.ok <==> r.user.Some?
    ensures r.ok <==> r.message == "Authenticated"
    ensures !r.ok ==> r.message == "User not found" || r.message == "Invalid credentials"
    ensures FetchOne(users, identifier, identifier).Some? ==>
              var u := users[FetchOne(users, identifier, identifier).value];
              (r.ok <==> VerifyPassword(kdf, password, u.salt, u.passwordHash)) &&
              (r.ok ==> r.user == Some(ToAuthUser(u)))
  {
    match FetchOne(users, identifier, identifier)
    case None => AuthResult(false, "User not found", None)
    case Some(k) =>
      var u := ToAuthUser(users[k]);
      if VerifyPassword(kdf, password, u.salt, u.passwordHash) then AuthResult(true, "Authenticated", Some(u))
      else AuthResult(false, "Invalid credentials", None)
  }

  /** In a table with unique usernames, logging in by a username checks the
      password of that user, whatever other row has it as its email. */
  lemma AuthenticateByUsername(kdf: Kdf, users: seq<UserRecord>, k: nat, password: string)
    requires UniqueUsernames(users) && k < |users|
    ensures var r := AuthenticateUser(kdf, users, users[k].username, password);
            (r.ok <==> VerifyPassword(kdf, password, users[k].salt, users[k].passwordHash)) &&
            (r.ok ==> r.user == Some(ToAuthUser(users[k])))
  {
    var f := FetchOne(users, users[k].username, users[k].username);
    assert f.Some? && users[f.value].username == users[k].username;
  }

  /** In a table with unique emails, logging in by an email checks the
      password of that user, unless some row has that email as its username. */
  lemma AuthenticateByEmail(kdf: Kdf, users: seq<UserRecord>, k: nat, password: string)
    requires UniqueEmails(users) && k < |users|
    requires forall i :: 0 <= i < |users| ==> users[i].username != users[k].email
    ensures var r := AuthenticateUser(kdf, users, users[k].email, password);
            (r.ok <==> VerifyPassword(kdf, password, users[k].salt, users[k].passwordHash)) &&
            (r.ok ==> r.user == Some(ToAuthUser(users[k])))
  {
    var f := FetchOne(users, users[k].email, users[k].email);
    assert f.Some? && users[f.value].email == users[k].email;
  }

  /** Register, then log in with the new username and the same password: the
      new user is returned, even when an older row has that name as its email. */
  lemma RegisterThenAuthenticate(kdf: Kdf, users: seq<UserRecord>, nextId: int,
                                 username: string, email: string, password: string,
                                 salt: string, now: string)
    requires RegisterVerdict(users, username, email).0
    ensures var t := RegisterTable(kdf, users, nextId, username, email, password, salt, now);
            AuthenticateUser(kdf, t, username, password) ==
              AuthResult(true, "Authenticated", Some(ToAuthUser(t[|users|])))
  {
    var row := NewUser(kdf, nextId, username, email, password, salt, now);
    FirstWhereAppend(users, row, UsernameColumn, username);
  }

  /** Register, then log in with the new email: the new user is returned,
      provided no row has that email as its username. */
  lemma RegisterThenAuthenticateByEmail(kdf: Kdf, users: seq<UserRecord>, nextId: int,
                                        username: string, email: string, password: string,
                                        salt: string, now: string)
    requires RegisterVerdict(users, username, email).0
    requires username != email && forall i :: 0 <= i < |users| ==> users[i].username != email
    ensures var t := RegisterTable(kdf, users, nextId, username, email, password, salt, now);
            AuthenticateUser(kdf, t, email, password) ==
              AuthResult(true, "Authenticated", Some(ToAuthUser(t[|users|])))
  {
    var row := NewUser(kdf, nextId, username, email, password, salt, now);
    FirstWhereAppend(users, row, UsernameColumn, email);
    FirstWhereAppend(users, row, EmailColumn, email);
  }

  /** Once a username or an email is registered, registering it again is
      rejected and leaves the table as it is. */
  lemma RegisterTwiceRejected(kdf: Kdf, users: seq<UserRecord>, nextId: int,
                              username: string, email: string, password: string,
                              salt: string, now: string,
                              username2: string, email2: string, password2: string,
                              salt2: string, now2: string)
    requires RegisterVerdict(users, username, email).0
    requires username2 == username || email2 == email
    ensures var t := RegisterTable(kdf, users, nextId, username, email, password, salt, now);
            !RegisterVerdict(t, username2, email2).0 &&
            RegisterTable(kdf, t, nextId + 1, username2, email2, password2, salt2, now2) == t
  {
    var t := RegisterTable(kdf, users, nextId, username, email, password, salt, now);
    assert Matches(t[|users|], username2, email2);
  }

  /** Two rows can answer to the same identifier: "bob" with email "carol",
      then "carol" with email "dave" both register. The identifier "carol"
      then finds carol's row, so carol logs in, while bob can no longer log
      in by his email, even with his own password. */
  lemma AmbiguousIdentifier(kdf: Kdf)
    requires kdf("pw-bob", "00000000000000000000000000000000") != kdf("pw-carol", "00000000000000000000000000000000")
    ensures var salt := "00000000000000000000000000000000";
            var t1 := RegisterTable(kdf, [], 1, "bob", "carol", "pw-bob", salt, "t1");
            var t2 := RegisterTable(kdf, t1, 2, "carol", "dave", "pw-carol", salt, "t2");
            |t2| == 2 && t2[0].email == "carol" && t2[1].username == "carol" &&
            AuthenticateUser(kdf, t2, "carol", "pw-carol") == AuthResult(true, "Authenticated", Some(ToAuthUser(t2[1]))) &&
            AuthenticateUser(kdf, t2, "carol", "pw-bob") == AuthResult(false, "Invalid credentials", None)
  {
    var salt := "00000000000000000000000000000000";
    var t1 := RegisterTable(kdf, [], 1, "bob", "carol", "pw-bob", salt, "t1");
    assert t1 == [NewUser(kdf, 1, "bob", "carol", "pw-bob", salt, "t1")];
    assert !Matches(t1[0], "carol", "dave");
    var t2 := RegisterTable(kdf, t1, 2, "carol", "dave", "pw-carol", salt, "t2");
    assert t2 == t1 + [NewUser(kdf, 2, "carol", "dave", "pw-carol", salt, "t2")];
    assert ColumnValue(t2[0], UsernameColumn) != "carol";
    assert ColumnValue(t2[1], UsernameColumn) == "carol";
    assert FirstWhere(t2, UsernameColumn, "carol") == Some(1);
  }

  /** The `users` table, as a store whose methods update it in place. */
  class CredentialStore {
    const kdf: Kdf
    var users: seq<UserRecord>
    var nextId: int   // the AUTOINCREMENT counter: the id the next row gets

    ghost predicate Valid()
      reads this
    {
      TableInvariant(users, nextId)
    }

    /** `init_db()` on a missing database: an empty table. */
    constructor (kdf: Kdf)
      ensures Valid() && this.kdf == kdf && users == [] && nextId == 1
    {
      this.kdf := kdf;
      users := [];
      nextId := 1;
    }

    /** `register_user(username, email, password)`. `freshSalt` is the
        `token_hex(16)` draw and `now` the `utcnow().isoformat()` timestamp. */
    method RegisterUser(username: string, email: string, password: string, freshSalt: string, now: string)
      returns (ok: bool, message: string)
      requires Valid() && IsTokenHex16(freshSalt)
      modifies this
      ensures Valid()
      ensures (ok, message) == RegisterVerdict(old(users), username, email)
      ensures users == RegisterTable(kdf, old(users), old(nextId), username, email, password, freshSalt, now)
      ensures nextId == if ok then old(nextId) + 1 else old(nextId)
    {
      var exists_, field := UserExists(users, username, email).0, UserExists(users, username, email).1;
      if exists_ {
        if field == Some("username") {
          return false, "Username already taken";
        }
        if field == Some("email") {
          return false, "Email already registered";
        }
      }
      var (salt, pwdHash) := HashPassword(kdf, password, None, freshSalt);
      RegisterKeepsInvariant(kdf, users, nextId, username, email, password, freshSalt, now);
      users := users + [UserRecord(nextId, username, email, pwdHash, salt, now)];
      nextId := nextId + 1;
      ok, message := true, "Registration successful";
    }
  }

  // ---------------------------------------------------------------------
  // Session helpers

  /** `current_user()`: the session's 'user' entry, if any. */
  function CurrentUser(s: State): Option<SessionUser>
    reads s
  {
    s.user
  }

  /** `require_login()`: whether the page goes on (otherwise `st.stop()`). */
  predicate RequireLogin(s: State)
    reads s
  {
    s.authenticated == Some(true)
  }

  /** `login_user_session(user)`: mark the session authenticated and keep
      only id, username and email of the user. */
  method LoginUserSession(s: State, user: AuthUser)
    modifies s`authenticated, s`user
    ensures RequireLogin(s)
    ensures CurrentUser(s) == Some(SessionUser(user.id, user.username, user.email))
  {
    s.authenticated := Some(true);
    s.user := Some(SessionUser(user.id, user.username, user.email));
  }

  /** `logout_user_session()`: delete both keys when present. Calling it
      again changes nothing. */
  method LogoutUserSession(s: State)
    modifies s`authenticated, s`user
    ensures s.authenticated == None && CurrentUser(s) == None
    ensures !RequireLogin(s)
  {
    if s.authenticated.Some? {
      s.authenticated := None;
    }
    if s.user.Some? {
      s.user := None;
    }
  }
}
