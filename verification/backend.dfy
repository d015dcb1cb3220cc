/** The HTTP backend's account handlers over the `users` table: sign-up,
    password login, Google sign-in, partner linking, anniversary
    synchronisation and partner lookup. The table is a sequence of rows in
    storage order, and "the first row" of a query is the first matching row
    in that order. Each writing handler returns the new table together with
    the response; read-only handlers return only the response. Hashing, the
    password check and generated codes are parameters. */
module Backend {
  import opened Base
  import opened Text
  import opened Accounts

  /** A row of `users`. `None` is SQL NULL. */
  datatype Row = Row(
    username: string,
    displayName: Option<string>,
    passwordHash: Option<string>,
    authMethod: AuthMethod,
    pictureUrl: Option<string>,
    uniqueCode: string,
    linkedPartnerCode: Option<string>,
    anniversaryDate: Option<string>)

  type Table = seq<Row>

  /** The columns every user-returning handler selects. */
  function View(row: Row): User {
    User(row.username, row.displayName, row.pictureUrl, row.uniqueCode, row.linkedPartnerCode, row.anniversaryDate)
  }

  /** A view is exactly the six public columns: rows that differ only in
      their password hash or sign-in method look the same to a client. */
  lemma ViewIsPublicColumns(a: Row, b: Row)
    ensures View(a) == View(b) <==>
      && a.username == b.username && a.displayName == b.displayName
      && a.pictureUrl == b.pictureUrl && a.uniqueCode == b.uniqueCode
      && a.linkedPartnerCode == b.linkedPartnerCode && a.anniversaryDate == b.anniversaryDate
  {
  }

  /** The WHERE clauses the handlers use. */
  datatype Where =
    | UsernameIs(username: string)
    | ManualUsernameIs(username: string)
    | CodeIs(code: string)

  predicate Selects(w: Where, row: Row) {
    match w
    case UsernameIs(u) => row.username == u
    case ManualUsernameIs(u) => row.username == u && row.authMethod == Manual
    case CodeIs(c) => row.uniqueCode == c
  }

  /** Some row satisfies `w`. */
  predicate AnyRow(t: Table, w: Where) {
    exists i :: 0 <= i < |t| && Selects(w, t[i])
  }

  /** The index of the first row satisfying `w`: `rows[0]` of the query. */
  function FirstRow(t: Table, w: Where): (r: Option<nat>)
    ensures r.Some? ==> r.value < |t| && Selects(w, t[r.value])
    ensures r.Some? ==> forall j :: 0 <= j < r.value ==> !Selects(w, t[j])
    ensures r.None? <==> !AnyRow(t, w)
  {
    if t == [] then
      None
    else if Selects(w, t[0]) then
      Some(0)
    else
      match FirstRow(t[1..], w)
      case None => None
      case Some(i) => Some(i + 1)
  }

  /** `UPDATE users SET linked_partner_code = link WHERE w`. */
  function SetLink(t: Table, w: Where, link: string): (r: Table)
    ensures |r| == |t|
    ensures forall i :: 0 <= i < |t| ==>
      r[i] == if Selects(w, t[i]) then t[i].(linkedPartnerCode := Some(link)) else t[i]
  {
    seq(|t|, i requires 0 <= i < |t| =>
      if Selects(w, t[i]) then t[i].(linkedPartnerCode := Some(link)) else t[i])
  }

  /** Why a handler answered 404; each reason has its own message. */
  datatype NotFoundReason =
    | InvalidLinkCode      // no row has the code, or it is the requester's
    | UserNotFound         // no row has the code given to the anniversary route
    | PartnerNotLinked     // the requester is unknown or has no link
    | PartnerDataMissing   // the requester's link names no row

  datatype Response =
    | Created(user: User)              // 201
    | Ok(user: User)                   // 200 with a user view
    | OkEmpty                          // 200 with no body: the re-read found no row
    | PartnerFound(partner: Partner)   // 200 with the partner's public view
    | Unauthorized                     // 401
    | NotFound(reason: NotFoundReason) // 404
    | Conflict                         // 409
    | ServerError                      // 500: the password check threw

  function StatusCode(r: Response): int {
    match r
    case Created(_) => 201
    case Ok(_) => 200
    case OkEmpty => 200
    case PartnerFound(_) => 200
    case Unauthorized => 401
    case NotFound(_) => 404
    case Conflict => 409
    case ServerError => 500
  }

  /** The table after a writing handler, and its response. */
  datatype Reply = Reply(table: Table, response: Response)

  // ---------------------------------------------------------------------------
  // Handlers

  /** `POST /api/signup`. A taken username gives 409 and inserts nothing;
      otherwise exactly one row is appended: a password account displayed
      under its username, with the given hash and code and no picture, link
      or date. */
  function Signup(t: Table, username: string, passwordHash: string, code: string): (r: Reply)
    ensures AnyRow(t, UsernameIs(username)) ==> r == Reply(t, Conflict)
    ensures !AnyRow(t, UsernameIs(username)) ==>
      var row := Row(username, Some(username), Some(passwordHash), Manual, None, code, None, None);
      && r.table == t + [row]
      && r.response == Created(View(row))
  {
    if FirstRow(t, UsernameIs(username)).Some? then
      Reply(t, Conflict)
    else
      var row := Row(username, Some(username), Some(passwordHash), Manual, None, code, None, None);
      Reply(t + [row], Created(View(row)))
  }

  /** `POST /api/login`; reads only. `matches(password, hash)` is the
      password check. Only the first password account with the username is
      consulted: the answer is 200 exactly when its stored hash accepts the
      password, 500 exactly when it has no stored hash (the check throws),
      and 401 otherwise. On success the view is re-read by username alone. */
  function Login(t: Table, username: string, password: string, matches: (string, string) -> bool): (r: Response)
    ensures r.Ok? || r == Unauthorized || r == ServerError
    ensures !AnyRow(t, ManualUsernameIs(username)) ==> r == Unauthorized
    ensures var f := FirstRow(t, ManualUsernameIs(username));
            r.Ok? <==> f.Some? && t[f.value].passwordHash.Some? && matches(password, t[f.value].passwordHash.value)
    ensures var f := FirstRow(t, ManualUsernameIs(username));
            r == ServerError <==> f.Some? && t[f.value].passwordHash.None?
    ensures r.Ok? ==> r.user == View(t[FirstRow(t, UsernameIs(username)).value])
  {
    match FirstRow(t, ManualUsernameIs(username))
    case None => Unauthorized
    case Some(i) =>
      match t[i].passwordHash
      case None => ServerError
      case Some(hash) =>
        if !matches(password, hash) then
          Unauthorized
        else
          assert Selects(UsernameIs(username), t[i]);
          Ok(View(t[FirstRow(t, UsernameIs(username)).value]))
  }

  /** `POST /api/google-signin`. An e-mail whose first row is not a Google
      account gives 409. Otherwise a Google row with no password is appended
      only when no row has that e-mail, and the answer is the view of the
      e-mail's first row. */
  function GoogleSignin(t: Table, email: string, name: string, picture: string, code: string): (r: Reply)
    ensures r.response == Conflict <==>
      AnyRow(t, UsernameIs(email)) && t[FirstRow(t, UsernameIs(email)).value].authMethod != Google
    ensures r.response == Conflict ==> r.table == t
    ensures AnyRow(t, UsernameIs(email)) ==> r.table == t
    ensures !AnyRow(t, UsernameIs(email)) ==>
      r.table == t + [Row(email, Some(name), None, Google, Some(picture), code, None, None)]
    ensures r.response != Conflict ==>
      && AnyRow(r.table, UsernameIs(email))
      && r.response == Ok(View(r.table[FirstRow(r.table, UsernameIs(email)).value]))
  {
    match FirstRow(t, UsernameIs(email))
    case Some(i) =>
      if t[i].authMethod != Google then
        Reply(t, Conflict)
      else
        Reply(t, Ok(View(t[i])))
    case None =>
      var row := Row(email, Some(name), None, Google, Some(picture), code, None, None);
      var t' := t + [row];
      assert Selects(UsernameIs(email), t'[|t|]);
      Reply(t', Ok(View(t'[FirstRow(t', UsernameIs(email)).value])))
  }

  /** `POST /api/link-partner`. The requester is the client-supplied
      `(requesterName, requesterCode)`. The code is compared in upper case.
      When no row has it, or its first row is the requester's, the answer is
      404 and nothing is written. Otherwise the requester's rows get the
      upper-cased code as their link, then every row holding that code gets
      the client-supplied code, with no check that the partner was linked
      elsewhere, and the answer is the requester's re-read view. */
  function LinkPartner(t: Table, requesterName: string, requesterCode: string, partnerCode: string): (r: Reply)
    ensures var code := Upper(partnerCode);
            !AnyRow(t, CodeIs(code)) ==> r == Reply(t, NotFound(InvalidLinkCode))
    ensures var code := Upper(partnerCode);
            AnyRow(t, CodeIs(code)) && t[FirstRow(t, CodeIs(code)).value].username == requesterName
            ==> r == Reply(t, NotFound(InvalidLinkCode))
    ensures var code := Upper(partnerCode);
            AnyRow(t, CodeIs(code)) && t[FirstRow(t, CodeIs(code)).value].username != requesterName
            ==> !r.response.NotFound?
    ensures r.response.NotFound? ==> r.table == t
    ensures !r.response.NotFound? ==>
      var code := Upper(partnerCode);
      && |r.table| == |t|
      && (forall i :: 0 <= i < |t| ==>
            r.table[i] ==
              if t[i].uniqueCode == code then t[i].(linkedPartnerCode := Some(requesterCode))
              else if t[i].username == requesterName then t[i].(linkedPartnerCode := Some(code))
              else t[i])
    ensures r.response.Ok? ==>
      AnyRow(r.table, UsernameIs(requesterName))
      && r.response.user == View(r.table[FirstRow(r.table, UsernameIs(requesterName)).value])
    ensures r.response.OkEmpty? ==> !AnyRow(t, UsernameIs(requesterName))
    ensures r.response.Ok? || r.response.OkEmpty? || r.response == NotFound(InvalidLinkCode)
  {
    var code := Upper(partnerCode);
    match FirstRow(t, CodeIs(code))
    case None => Reply(t, NotFound(InvalidLinkCode))
    case Some(p) =>
      if t[p].username == requesterName then
        Reply(t, NotFound(InvalidLinkCode))
      else
        var t1 := SetLink(t, UsernameIs(requesterName), code);
        var t2 := SetLink(t1, CodeIs(code), requesterCode);
        match FirstRow(t2, UsernameIs(requesterName))
        case None =>
          assert forall i :: 0 <= i < |t| ==> t2[i].username == t[i].username;
          Reply(t2, OkEmpty)
        case Some(me) => Reply(t2, Ok(View(t2[me])))
  }

  /** The anniversary route's WHERE clause: the row with the code, and every
      row whose link is the code. It is a reverse lookup: the row the caller
      links to is reached only if it links back. */
  predicate AnniversaryReaches(row: Row, userCode: string) {
    row.uniqueCode == userCode || row.linkedPartnerCode == Some(userCode)
  }

  /** `POST /api/user/anniversary`. The date is written first, to every row
      the WHERE clause reaches, and only then is the caller's row looked up:
      404 when no row has the code, which does not undo the writes. */
  function SetAnniversary(t: Table, userCode: string, date: string): (r: Reply)
    ensures |r.table| == |t|
    ensures forall i :: 0 <= i < |t| ==>
      r.table[i] == if AnniversaryReaches(t[i], userCode) then t[i].(anniversaryDate := Some(date)) else t[i]
    ensures r.response.NotFound? <==> !AnyRow(t, CodeIs(userCode))
    ensures r.response.NotFound? ==> r.response.reason == UserNotFound
    ensures r.response.Ok? ==>
      && r.response.user == View(r.table[FirstRow(t, CodeIs(userCode)).value])
      && r.response.user.uniqueCode == userCode
      && r.response.user.anniversaryDate == Some(date)
    ensures r.response.Ok? || r.response.NotFound?
  {
    var t' := seq(|t|, i requires 0 <= i < |t| =>
      if AnniversaryReaches(t[i], userCode) then t[i].(anniversaryDate := Some(date)) else t[i]);
    assert forall i :: 0 <= i < |t| ==> (Selects(CodeIs(userCode), t'[i]) <==> Selects(CodeIs(userCode), t[i]));
    match FirstRow(t', CodeIs(userCode))
    case None =>
      Reply(t', NotFound(UserNotFound))
    case Some(i) =>
      SameFirstRow(t, t', CodeIs(userCode));
      Reply(t', Ok(View(t'[i])))
  }

  /** `GET /api/partner/:user_code`; reads only. 404 when no row has the
      code or its link is empty or NULL; 404 with a different message when
      the link names no row; otherwise the public part of the linked row. */
  function GetPartner(t: Table, userCode: string): (r: Response)
    ensures !AnyRow(t, CodeIs(userCode)) ==> r == NotFound(PartnerNotLinked)
    ensures AnyRow(t, CodeIs(userCode)) ==>
      var me := t[FirstRow(t, CodeIs(userCode)).value];
      && (!Truthy(me.linkedPartnerCode) ==> r == NotFound(PartnerNotLinked))
      && (Truthy(me.linkedPartnerCode) && !AnyRow(t, CodeIs(me.linkedPartnerCode.value))
          ==> r == NotFound(PartnerDataMissing))
      && (Truthy(me.linkedPartnerCode) && AnyRow(t, CodeIs(me.linkedPartnerCode.value)) ==>
            var p := t[FirstRow(t, CodeIs(me.linkedPartnerCode.value)).value];
            r == PartnerFound(Partner(p.username, p.displayName, p.pictureUrl)))
  {
    match FirstRow(t, CodeIs(userCode))
    case None => NotFound(PartnerNotLinked)
    case Some(i) =>
      if !Truthy(t[i].linkedPartnerCode) then
        NotFound(PartnerNotLinked)
      else
        match FirstRow(t, CodeIs(t[i].linkedPartnerCode.value))
        case None => NotFound(PartnerDataMissing)
        case Some(j) => PartnerFound(Partner(t[j].username, t[j].displayName, t[j].pictureUrl))
  }

  /** Two tables that agree, row by row, on what `w` selects have the same
      first selected row. */
  lemma SameFirstRow(t: Table, t': Table, w: Where)
    requires |t| == |t'|
    requires forall i :: 0 <= i < |t| ==> (Selects(w, t'[i]) <==> Selects(w, t[i]))
    ensures FirstRow(t, w) == FirstRow(t', w)
  {
    if t != [] && !Selects(w, t[0]) {
      SameFirstRow(t[1..], t'[1..], w);
    }
  }

  // ---------------------------------------------------------------------------
  // Properties across handlers

  ghost predicate UniqueUsernames(t: Table) {
    forall i, j :: 0 <= i < j < |t| ==> t[i].username != t[j].username
  }

  ghost predicate UniqueCodes(t: Table) {
    forall i, j :: 0 <= i < j < |t| ==> t[i].uniqueCode != t[j].uniqueCode
  }

  /** With distinct codes, the row holding a code is the first one. */
  lemma FirstRowOfUniqueCode(t: Table, k: nat)
    requires UniqueCodes(t) && k < |t|
    ensures FirstRow(t, CodeIs(t[k].uniqueCode)) == Some(k)
  {
  }

  /** Each route answers only with the statuses its code sends, database
      failures aside. */
  lemma HandlerStatuses(t: Table, name: string, hash: string, code: string, password: string,
                        matches: (string, string) -> bool, picture: string, partnerCode: string, date: string)
    ensures StatusCode(Signup(t, name, hash, code).response) in {201, 409}
    ensures StatusCode(Login(t, name, password, matches)) in {200, 401, 500}
    ensures StatusCode(GoogleSignin(t, name, name, picture, code).response) in {200, 409}
    ensures StatusCode(LinkPartner(t, name, code, partnerCode).response) in {200, 404}
    ensures StatusCode(SetAnniversary(t, code, date).response) in {200, 404}
    ensures StatusCode(GetPartner(t, code)) in {200, 404}
  {
    SignupStatus(t, name, hash, code);
    LoginStatus(t, name, password, matches);
    GoogleStatus(t, name, picture, code);
    LinkStatus(t, name, code, partnerCode);
    SetAnniversaryStatus(t, code, date);
    GetPartnerStatus(t, code);
  }

  lemma SignupStatus(t: Table, name: string, hash: string, code: string)
    ensures StatusCode(Signup(t, name, hash, code).response) in {201, 409}
  {
  }

  lemma LoginStatus(t: Table, name: string, password: string, matches: (string, string) -> bool)
    ensures StatusCode(Login(t, name, password, matches)) in {200, 401, 500}
  {
  }

  lemma GoogleStatus(t: Table, name: string, picture: string, code: string)
    ensures StatusCode(GoogleSignin(t, name, name, picture, code).response) in {200, 409}
  {
  }

  lemma LinkStatus(t: Table, name: string, code: string, partnerCode: string)
    ensures StatusCode(LinkPartner(t, name, code, partnerCode).response) in {200, 404}
  {
  }

  lemma SetAnniversaryStatus(t: Table, code: string, date: string)
    ensures StatusCode(SetAnniversary(t, code, date).response) in {200, 404}
  {
  }

  lemma GetPartnerStatus(t: Table, code: string)
    ensures StatusCode(GetPartner(t, code)) in {200, 404}
  {
  }

  /** Signing up and then logging in with the same username succeeds exactly
      when the password check accepts the hash stored at sign-up, and returns
      the new row's view. */
  lemma SignupThenLogin(t: Table, username: string, passwordHash: string, code: string,
                        password: string, matches: (string, string) -> bool)
    requires !AnyRow(t, UsernameIs(username))
    ensures var t' := Signup(t, username, passwordHash, code).table;
            var row := Row(username, Some(username), Some(passwordHash), Manual, None, code, None, None);
            Login(t', username, password, matches)
              == if matches(password, passwordHash) then Ok(View(row)) else Unauthorized
  {
    var row := Row(username, Some(username), Some(passwordHash), Manual, None, code, None, None);
    var t' := t + [row];
    assert Selects(ManualUsernameIs(username), t'[|t|]);
    assert Selects(UsernameIs(username), t'[|t|]);
    assert forall j :: 0 <= j < |t| ==> t'[j] == t[j];
  }

  /** When the requester's row exists under its client-supplied code and
      usernames and codes are distinct, a successful link is mutual: the
      requester's row names the partner's code and the partner's row names
      the requester's. */
  lemma LinkIsMutual(t: Table, requesterName: string, requesterCode: string, partnerCode: string, me: nat)
    requires UniqueUsernames(t) && UniqueCodes(t)
    requires me < |t| && t[me].username == requesterName && t[me].uniqueCode == requesterCode
    requires LinkPartner(t, requesterName, requesterCode, partnerCode).response.Ok?
    ensures var t' := LinkPartner(t, requesterName, requesterCode, partnerCode).table;
            var p := FirstRow(t, CodeIs(Upper(partnerCode))).value;
            && p != me
            && t'[me].linkedPartnerCode == Some(t'[p].uniqueCode)
            && t'[p].linkedPartnerCode == Some(t'[me].uniqueCode)
  {
    var code := Upper(partnerCode);
    var p := FirstRow(t, CodeIs(code)).value;
    if t[me].uniqueCode == code {
      FirstRowOfUniqueCode(t, me);
    }
  }

  /** Repeating a successful link changes nothing more. */
  lemma LinkIsIdempotent(t: Table, requesterName: string, requesterCode: string, partnerCode: string)
    requires LinkPartner(t, requesterName, requesterCode, partnerCode).response.Ok?
    ensures var t' := LinkPartner(t, requesterName, requesterCode, partnerCode).table;
            LinkPartner(t', requesterName, requesterCode, partnerCode).table == t'
  {
    var code := Upper(partnerCode);
    var t' := LinkPartner(t, requesterName, requesterCode, partnerCode).table;
    SameFirstRow(t, t', CodeIs(code));
  }

  /** No "already linked elsewhere" check: a third row that pointed at the
      partner still does, while the partner now points at the requester. */
  lemma ThirdRowKeepsStaleLink(t: Table, requesterName: string, requesterCode: string, partnerCode: string, k: nat)
    requires LinkPartner(t, requesterName, requesterCode, partnerCode).response.Ok?
    requires k < |t| && t[k].username != requesterName
    requires t[k].uniqueCode != Upper(partnerCode) && t[k].uniqueCode != requesterCode
    requires t[k].linkedPartnerCode == Some(Upper(partnerCode))
    ensures var t' := LinkPartner(t, requesterName, requesterCode, partnerCode).table;
            var p := FirstRow(t, CodeIs(Upper(partnerCode))).value;
            && t'[k].linkedPartnerCode == Some(t'[p].uniqueCode)
            && t'[p].linkedPartnerCode != Some(t'[k].uniqueCode)
  {
    var code := Upper(partnerCode);
    var t' := LinkPartner(t, requesterName, requesterCode, partnerCode).table;
    var p := FirstRow(t, CodeIs(code)).value;
    assert t[p].uniqueCode == code;
    assert t'[k] == t[k];
    assert t'[p] == t[p].(linkedPartnerCode := Some(requesterCode));
  }

  /** For a mutually linked pair, setting the date through either code
      writes the same date to both rows. */
  lemma AnniversarySharedByPair(t: Table, a: nat, b: nat, date: string)
    requires a < |t| && b < |t|
    requires t[a].linkedPartnerCode == Some(t[b].uniqueCode)
    requires t[b].linkedPartnerCode == Some(t[a].uniqueCode)
    ensures var r := SetAnniversary(t, t[a].uniqueCode, date);
            && r.response.Ok?
            && r.table[a].anniversaryDate == Some(date)
            && r.table[b].anniversaryDate == Some(date)
  {
    assert Selects(CodeIs(t[a].uniqueCode), t[a]);
  }

  /** The date does not follow the caller's own link: a row the caller links
      to, which links elsewhere and has a different code, keeps its date. */
  lemma AnniversaryIsReverseLookup(t: Table, a: nat, c: nat, date: string)
    requires a < |t| && c < |t|
    requires t[a].linkedPartnerCode == Some(t[c].uniqueCode)
    requires t[c].uniqueCode != t[a].uniqueCode
    requires t[c].linkedPartnerCode != Some(t[a].uniqueCode)
    ensures SetAnniversary(t, t[a].uniqueCode, date).table[c] == t[c]
  {
  }

  /** A 404 from the anniversary route does not mean nothing changed: rows
      linked to a code nobody holds still receive the date. */
  lemma AnniversaryNotFoundAfterWrite()
    ensures var t := [Row("ana", Some("ana"), None, Google, None, "AAAAAA", Some("ZZZZZZ"), None)];
            var r := SetAnniversary(t, "ZZZZZZ", "2022-10-26");
            && r.response == NotFound(UserNotFound)
            && r.table != t
            && r.table[0].anniversaryDate == Some("2022-10-26")
  {
    var t := [Row("ana", Some("ana"), None, Google, None, "AAAAAA", Some("ZZZZZZ"), None)];
    assert !Selects(CodeIs("ZZZZZZ"), t[0]);
    assert AnniversaryReaches(t[0], "ZZZZZZ");
  }

  /** With distinct codes, the partner lookup follows the caller's link to
      the row holding that code and returns its public part. */
  lemma GetPartnerFollowsLink(t: Table, a: nat, b: nat)
    requires UniqueCodes(t) && a < |t| && b < |t|
    requires t[a].linkedPartnerCode == Some(t[b].uniqueCode) && t[b].uniqueCode != ""
    ensures GetPartner(t, t[a].uniqueCode) == PartnerFound(Partner(t[b].username, t[b].displayName, t[b].pictureUrl))
  {
    FirstRowOfUniqueCode(t, a);
    FirstRowOfUniqueCode(t, b);
  }

  /** After a successful mutual link, looking up the requester's partner
      returns the public part of the partner's row. */
  lemma LinkThenGetPartner(t: Table, requesterName: string, requesterCode: string, partnerCode: string, me: nat)
    requires UniqueUsernames(t) && UniqueCodes(t)
    requires forall i :: 0 <= i < |t| ==> t[i].uniqueCode != ""
    requires me < |t| && t[me].username == requesterName && t[me].uniqueCode == requesterCode
    requires LinkPartner(t, requesterName, requesterCode, partnerCode).response.Ok?
    ensures var t' := LinkPartner(t, requesterName, requesterCode, partnerCode).table;
            var p := t[FirstRow(t, CodeIs(Upper(partnerCode))).value];
            GetPartner(t', requesterCode) == PartnerFound(Partner(p.username, p.displayName, p.pictureUrl))
  {
    var t' := LinkPartner(t, requesterName, requesterCode, partnerCode).table;
    var p := FirstRow(t, CodeIs(Upper(partnerCode))).value;
    LinkIsMutual(t, requesterName, requesterCode, partnerCode, me);
    var a := DoLinkPartner(requesterName, requesterCode, partnerCode);
    HandlersKeepIdentities(t, a);
    assert Apply(t, a) == t';
    assert UniqueCodes(t');
    assert |t'| == |t| && p < |t|;
    assert t'[p] == t[p].(linkedPartnerCode := Some(requesterCode));
    assert t'[me].uniqueCode == requesterCode && t'[p].uniqueCode == t[p].uniqueCode != "";
    GetPartnerFollowsLink(t', me, p);
  }

  /** Any writing handler, with its inputs. */
  datatype Action =
    | DoSignup(username: string, passwordHash: string, code: string)
    | DoGoogleSignin(email: string, name: string, picture: string, code: string)
    | DoLinkPartner(requesterName: string, requesterCode: string, partnerCode: string)
    | DoSetAnniversary(userCode: string, date: string)

  function Apply(t: Table, a: Action): Table {
    match a
    case DoSignup(u, h, c) => Signup(t, u, h, c).table
    case DoGoogleSignin(e, n, pic, c) => GoogleSignin(t, e, n, pic, c).table
    case DoLinkPartner(rn, rc, pc) => LinkPartner(t, rn, rc, pc).table
    case DoSetAnniversary(c, d) => SetAnniversary(t, c, d).table
  }

  /** The code an inserting handler would give a new row. */
  function NewCode(a: Action): Option<string> {
    match a
    case DoSignup(_, _, c) => Some(c)
    case DoGoogleSignin(_, _, _, c) => Some(c)
    case _ => None
  }

  /** Writing handlers never delete a row and never change a row's username,
      code, sign-in method or password hash; at most one row is appended.
      Usernames stay distinct, and codes stay distinct whenever the generated
      code is not already in use. */
  lemma HandlersKeepIdentities(t: Table, a: Action)
    ensures var t' := Apply(t, a);
            && |t| <= |t'| <= |t| + 1
            && (forall i :: 0 <= i < |t| ==>
                  && t'[i].username == t[i].username
                  && t'[i].uniqueCode == t[i].uniqueCode
                  && t'[i].authMethod == t[i].authMethod
                  && t'[i].passwordHash == t[i].passwordHash)
    ensures UniqueUsernames(t) ==> UniqueUsernames(Apply(t, a))
    ensures UniqueCodes(t) && (NewCode(a).Some? ==> !AnyRow(t, CodeIs(NewCode(a).value)))
            ==> UniqueCodes(Apply(t, a))
  {
    var t' := Apply(t, a);
    match a
    case DoSignup(u, h, c) =>
      if |t'| > |t| {
        assert forall i :: 0 <= i < |t| ==> t'[i] == t[i] && !Selects(UsernameIs(u), t[i]);
        assert t'[|t|].username == u && t'[|t|].uniqueCode == c;
      }
    case DoGoogleSignin(e, n, pic, c) =>
      if |t'| > |t| {
        assert forall i :: 0 <= i < |t| ==> t'[i] == t[i] && !Selects(UsernameIs(e), t[i]);
        assert t'[|t|].username == e && t'[|t|].uniqueCode == c;
      }
    case DoLinkPartner(rn, rc, pc) =>
    case DoSetAnniversary(c, d) =>
  }
}
