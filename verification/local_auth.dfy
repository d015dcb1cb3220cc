/** The in-browser account store: every user record kept in one object keyed
    by username, plus a "current user" slot, both persisted in the browser's
    storage. Sign-up, password login, Google sign-in, partner linking and
    logout are pure transitions over that state; each returns the new state
    with either the user handed back to the screen or the error it throws.
    Generated unique codes are parameters. */
module LocalAuth {
  import opened Base
  import opened Text
  import opened Accounts

  /** One user as stored; the username is the key it is stored under. */
  datatype StoredUser = StoredUser(
    passwordHash: Option<string>,
    authMethod: AuthMethod,
    uniqueCode: string,
    linkedPartnerCode: Option<string>,
    displayName: Option<string>,
    pictureUrl: Option<string>)

  /** The persisted state: the users record, the order in which a `for … in`
      loop enumerates its keys (insertion order), and the current-user slot. */
  datatype Store = Store(users: map<string, StoredUser>, order: seq<string>, current: Option<User>)

  /** The enumeration order lists every stored username exactly once. */
  ghost predicate Valid(st: Store) {
    && (forall k :: k in st.users <==> k in st.order)
    && (forall i, j :: 0 <= i < j < |st.order| ==> st.order[i] != st.order[j])
  }

  /** The errors the service throws. */
  datatype AuthError =
    | UsernameTaken            // sign-up under an existing username
    | InvalidCredentials       // unknown user, Google account, or wrong password
    | EmailHasPasswordAccount  // Google sign-in for an e-mail with a password account
    | InvalidLinkCode          // no user has the code, or it is the caller's own
    | CurrentUserNotStored     // the caller's username is not in the store

  datatype Outcome = Ok(user: User) | Err(error: AuthError)

  /** The state after an operation, and what it returned or threw. */
  datatype Reply = Reply(store: Store, outcome: Outcome)

  /** The stand-in for a password hash: the password behind a fixed prefix. */
  function FakeHash(password: string): string {
    "hashed_" + password
  }

  /** Different passwords have different hashes, so a stored hash admits
      exactly one password. */
  lemma FakeHashInjective(a: string, b: string)
    requires FakeHash(a) == FakeHash(b)
    ensures a == b
  {
    assert a == FakeHash(a)[7..];
    assert b == FakeHash(b)[7..];
  }

  /** Creates a password account under `username` and makes it the current
      user. An existing username is refused and nothing is saved. */
  function SignUp(st: Store, username: string, password: string, code: string): (r: Reply)
    ensures username in st.users ==> r == Reply(st, Err(UsernameTaken))
    ensures username !in st.users ==>
      && r.outcome == Ok(User(username, Some(username), None, code, None, None))
      && r.store.users.Keys == st.users.Keys + {username}
      && (forall k :: k in st.users ==> r.store.users[k] == st.users[k])
      && r.store.users[username] == StoredUser(Some(FakeHash(password)), Manual, code, None, Some(username), None)
      && r.store.order == st.order + [username]
      && r.store.current == Some(r.outcome.user)
  {
    if username in st.users then
      Reply(st, Err(UsernameTaken))
    else
      var stored := StoredUser(Some(FakeHash(password)), Manual, code, None, Some(username), None);
      var user := User(username, Some(username), None, code, None, None);
      Reply(Store(st.users[username := stored], st.order + [username], Some(user)), Ok(user))
  }

  /** Logs in with a password. Succeeds exactly when the username is stored
      as a password account whose hash is that of `password`; it never
      changes the users record, and on success it fills the current-user slot
      with the stored data. */
  function Login(st: Store, username: string, password: string): (r: Reply)
    ensures r.store.users == st.users && r.store.order == st.order
    ensures r.outcome.Ok? <==>
      && username in st.users
      && st.users[username].authMethod == Manual
      && st.users[username].passwordHash == Some(FakeHash(password))
    ensures r.outcome.Err? ==> r == Reply(st, Err(InvalidCredentials))
    ensures r.outcome.Ok? ==>
      var s := st.users[username];
      && r.outcome.user == User(username, s.displayName, s.pictureUrl, s.uniqueCode, s.linkedPartnerCode, None)
      && r.store.current == Some(r.outcome.user)
  {
    if username !in st.users then
      Reply(st, Err(InvalidCredentials))
    else
      var s := st.users[username];
      if s.authMethod != Manual || s.passwordHash != Some(FakeHash(password)) then
        Reply(st, Err(InvalidCredentials))
      else
        var user := User(username, s.displayName, s.pictureUrl, s.uniqueCode, s.linkedPartnerCode, None);
        Reply(st.(current := Some(user)), Ok(user))
  }

  /** Google sign-in. An unknown e-mail gets a new Google account with no
      password; a known Google account is reused as stored; an e-mail that
      belongs to a password account is refused. Missing display data fall
      back to what Google supplied. */
  function LoginOrSignUpWithGoogle(st: Store, email: string, name: string, picture: string, code: string): (r: Reply)
    ensures email !in st.users ==>
      && r.store.users == st.users[email := StoredUser(None, Google, code, None, Some(name), Some(picture))]
      && r.store.order == st.order + [email]
      && r.outcome == Ok(User(email, Some(name), Some(picture), code, None, None))
    ensures email in st.users && st.users[email].authMethod == Google ==>
      var s := st.users[email];
      && r.store.users == st.users && r.store.order == st.order
      && r.outcome.Ok?
      && r.outcome.user.uniqueCode == s.uniqueCode
      && r.outcome.user.linkedPartnerCode == s.linkedPartnerCode
      && r.outcome.user.displayName == Some(OrElse(s.displayName, name))
      && r.outcome.user.pictureUrl == Some(OrElse(s.pictureUrl, picture))
      && r.outcome.user.anniversaryDate.None?
    ensures email in st.users && st.users[email].authMethod != Google ==>
      r == Reply(st, Err(EmailHasPasswordAccount))
    ensures r.outcome.Ok? ==> r.outcome.user.username == email && r.store.current == Some(r.outcome.user)
  {
    if email in st.users && st.users[email].authMethod != Google then
      Reply(st, Err(EmailHasPasswordAccount))
    else
      var users := if email in st.users then st.users
                   else st.users[email := StoredUser(None, Google, code, None, Some(name), Some(picture))];
      var order := if email in st.users then st.order else st.order + [email];
      var s := users[email];
      var user := User(email, Some(OrElse(s.displayName, name)), Some(OrElse(s.pictureUrl, picture)),
                       s.uniqueCode, s.linkedPartnerCode, None);
      Reply(Store(users, order, Some(user)), Ok(user))
  }

  predicate HasCode(users: map<string, StoredUser>, key: string, code: string) {
    key in users && users[key].uniqueCode == code
  }

  /** The position of the first key in `keys` whose stored user has `code`. */
  function FirstWithCode(users: map<string, StoredUser>, keys: seq<string>, code: string): (r: Option<nat>)
    ensures r.Some? ==>
      && r.value < |keys|
      && HasCode(users, keys[r.value], code)
      && (forall j :: 0 <= j < r.value ==> !HasCode(users, keys[j], code))
    ensures r.None? ==> forall j :: 0 <= j < |keys| ==> !HasCode(users, keys[j], code)
  {
    if keys == [] then
      None
    else if HasCode(users, keys[0], code) then
      Some(0)
    else
      match FirstWithCode(users, keys[1..], code)
      case None => None
      case Some(i) => Some(i + 1)
  }

  /** The username the linking loop settles on for `code`: the first one, in
      enumeration order, whose stored user has that code. Codes are never
      checked for uniqueness, so later holders of the same code are skipped. */
  function PartnerOf(st: Store, code: string): (r: Option<string>)
    ensures r.Some? ==> HasCode(st.users, r.value, code)
    ensures r.Some? ==> exists i :: 0 <= i < |st.order| && st.order[i] == r.value
                                   && forall j :: 0 <= j < i ==> !HasCode(st.users, st.order[j], code)
    ensures r.None? ==> forall k :: k in st.order ==> !HasCode(st.users, k, code)
  {
    match FirstWithCode(st.users, st.order, code)
    case None => None
    case Some(i) => Some(st.order[i])
  }

  /** Links the current user with the holder of `partnerCode` (compared in
      upper case). On success the caller's entry points at the upper-cased
      code, the partner's entry points at the code the caller's client
      supplied, and no other entry changes; there is no check that the
      partner was linked to someone else. Any failure leaves the state as it
      was. */
  function LinkPartner(st: Store, currentUser: User, partnerCode: string): (r: Reply)
    ensures r.outcome.Err? ==> r.store == st
    ensures PartnerOf(st, Upper(partnerCode)).None? ==> r.outcome == Err(InvalidLinkCode)
    ensures PartnerOf(st, Upper(partnerCode)) == Some(currentUser.username) ==> r.outcome == Err(InvalidLinkCode)
    ensures PartnerOf(st, Upper(partnerCode)) == Some("") ==> r.outcome == Err(InvalidLinkCode)
    ensures var p := PartnerOf(st, Upper(partnerCode));
            p.Some? && p.value != "" && p.value != currentUser.username ==>
              (r.outcome.Ok? <==> currentUser.username in st.users)
              && (currentUser.username !in st.users ==> r.outcome == Err(CurrentUserNotStored))
    ensures r.outcome.Ok? ==>
      var me := currentUser.username;
      var p := PartnerOf(st, Upper(partnerCode)).value;
      && p != me && me in st.users && p in st.users
      && r.store.users.Keys == st.users.Keys && r.store.order == st.order
      && r.store.users[me] == st.users[me].(linkedPartnerCode := Some(Upper(partnerCode)))
      && r.store.users[p] == st.users[p].(linkedPartnerCode := Some(currentUser.uniqueCode))
      && (forall k :: k in st.users && k != me && k != p ==> r.store.users[k] == st.users[k])
      && r.outcome.user == currentUser.(linkedPartnerCode := Some(Upper(partnerCode)))
      && r.store.current == Some(r.outcome.user)
  {
    var code := Upper(partnerCode);
    var partner := PartnerOf(st, code);
    if partner.None? || partner.value == "" || partner.value == currentUser.username then
      // An empty username is falsy and is rejected like a missing one.
      Reply(st, Err(InvalidLinkCode))
    else if currentUser.username !in st.users then
      // Writing the caller's entry throws before anything is saved.
      Reply(st, Err(CurrentUserNotStored))
    else
      var me := currentUser.username;
      var p := partner.value;
      var users := st.users[me := st.users[me].(linkedPartnerCode := Some(code))];
      var users' := users[p := users[p].(linkedPartnerCode := Some(currentUser.uniqueCode))];
      var updated := currentUser.(linkedPartnerCode := Some(code));
      Reply(Store(users', st.order, Some(updated)), Ok(updated))
  }

  /** Logout empties the current-user slot and nothing else. */
  function Logout(st: Store): (r: Store)
    ensures r.users == st.users && r.order == st.order
    ensures r.current.None?
  {
    st.(current := None)
  }

  // ---------------------------------------------------------------------------
  // Properties across operations

  /** Signing up and then logging in under the same username succeeds with
      exactly the password that was signed up with. */
  lemma SignUpThenLogin(st: Store, username: string, password: string, code: string, attempt: string)
    requires username !in st.users
    ensures Login(SignUp(st, username, password, code).store, username, attempt).outcome.Ok?
            <==> attempt == password
  {
    var s := SignUp(st, username, password, code).store;
    if Login(s, username, attempt).outcome.Ok? {
      FakeHashInjective(attempt, password);
    }
  }

  /** Sign-up never looks at existing codes: a fresh username can be given a
      code another user already holds, and then two entries share it. */
  lemma SignUpAllowsDuplicateCodes(st: Store, username: string, password: string, holder: string)
    requires username !in st.users && holder in st.users
    ensures var r := SignUp(st, username, password, st.users[holder].uniqueCode);
            && r.outcome.Ok?
            && holder != username
            && r.store.users[holder].uniqueCode == r.store.users[username].uniqueCode
  {
  }

  /** When the client's copy of its own code is accurate, a successful link
      is mutual: each of the two entries names the other's code. */
  lemma LinkIsMutual(st: Store, currentUser: User, partnerCode: string)
    requires currentUser.username in st.users
    requires st.users[currentUser.username].uniqueCode == currentUser.uniqueCode
    requires LinkPartner(st, currentUser, partnerCode).outcome.Ok?
    ensures var users := LinkPartner(st, currentUser, partnerCode).store.users;
            var p := PartnerOf(st, Upper(partnerCode)).value;
            && users[currentUser.username].linkedPartnerCode == Some(users[p].uniqueCode)
            && users[p].linkedPartnerCode == Some(users[currentUser.username].uniqueCode)
  {
  }

  /** No "already linked elsewhere" check: a third user who pointed at the
      partner still does after the partner is linked to the caller, while
      the partner now points at the caller, so the third user's link is no
      longer returned. */
  lemma ThirdUserKeepsStaleLink(st: Store, currentUser: User, partnerCode: string, third: string)
    requires LinkPartner(st, currentUser, partnerCode).outcome.Ok?
    requires third in st.users && third != currentUser.username
    requires st.users[third].linkedPartnerCode == Some(Upper(partnerCode))
    requires st.users[third].uniqueCode != Upper(partnerCode)
    requires st.users[third].uniqueCode != currentUser.uniqueCode
    ensures var users := LinkPartner(st, currentUser, partnerCode).store.users;
            var p := PartnerOf(st, Upper(partnerCode)).value;
            && third != p
            && users[third].linkedPartnerCode == Some(users[p].uniqueCode)
            && users[p].linkedPartnerCode != Some(users[third].uniqueCode)
  {
  }

  /** Any of the service's operations, with the inputs it takes. */
  datatype Action =
    | DoSignUp(username: string, password: string, code: string)
    | DoLogin(username: string, password: string)
    | DoGoogle(email: string, name: string, picture: string, code: string)
    | DoLink(currentUser: User, partnerCode: string)
    | DoLogout

  function Apply(st: Store, a: Action): Store {
    match a
    case DoSignUp(u, p, c) => SignUp(st, u, p, c).store
    case DoLogin(u, p) => Login(st, u, p).store
    case DoGoogle(e, n, pic, c) => LoginOrSignUpWithGoogle(st, e, n, pic, c).store
    case DoLink(cu, pc) => LinkPartner(st, cu, pc).store
    case DoLogout => Logout(st)
  }

  /** Every operation keeps the enumeration order consistent with the record,
      never removes an entry, and never changes an entry's code, sign-in
      method or password hash. */
  lemma OperationsKeepAccounts(st: Store, a: Action)
    requires Valid(st)
    ensures var st' := Apply(st, a);
            && Valid(st')
            && (forall k :: k in st.users ==>
                  && k in st'.users
                  && st'.users[k].uniqueCode == st.users[k].uniqueCode
                  && st'.users[k].authMethod == st.users[k].authMethod
                  && st'.users[k].passwordHash == st.users[k].passwordHash)
  {
    var st' := Apply(st, a);
    match a
    case DoSignUp(u, p, c) =>
      if u !in st.users {
        forall i, j | 0 <= i < j < |st'.order| ensures st'.order[i] != st'.order[j] {
          if j == |st.order| { assert st.order[i] in st.users; }
        }
      }
    case DoGoogle(e, n, pic, c) =>
      if e !in st.users {
        forall i, j | 0 <= i < j < |st'.order| ensures st'.order[i] != st'.order[j] {
          if j == |st.order| { assert st.order[i] in st.users; }
        }
      }
    case _ =>
  }
}
