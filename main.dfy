/**
 * The user-management endpoints: registration and login behind the static
 * token, user search, the report listing and its permission check, the
 * caller's own data entries, profile updates and the caller's activity log.
 * Endpoints that depend on `get_current_user` take the caller as a user of
 * the user table; those behind `verify_static_token` take the presented
 * credential and answer 403 before anything else when it is refused.
 */
module MainApp {
  import opened Common
  import opened Models
  import opened Schemas
  import opened Store
  import opened LoggingService
  import opened Jose
  import Auth
  import Text
  import Crypto
  import Sorting

  /** The HTTPException the static-token dependency raises, for a route of any response type. */
  function StaticRefusal<T>(): Reply<T>
  {
    Raised(Auth.Forbidden.status, Auth.Forbidden.detail)
  }

  /** The server's answer to an exception no handler catches: a bare 500. */
  const InternalError: string := "Internal Server Error"

  // ---------------------------------------------------------------- register

  const AlreadyTaken: string := "Username atau email sudah digunakan"

  /** Some user already has the username or the email. */
  predicate Taken(users: seq<User>, username: string, email: string)
  {
    exists u :: u in users && (u.username == username || u.email == email)
  }

  /** The row register_user inserts: the next key, the request's fields and the hash of its password. */
  function NewUser(users: seq<User>, request: UserCreate, salt: nat): (u: User)
    ensures forall i :: 0 <= i < |users| ==> users[i].id < u.id
    ensures Crypto.Verify(request.password, u.hashedPassword)
    ensures u.username == request.username && u.email == request.email
  {
    User(NextId(UserIds(users)), request.name, request.username, request.email,
         Crypto.Hash(request.password, salt), request.role, request.disease,
         request.dateOfBirth, request.placeOfBirth)
  }

  /** Registering a username and email nobody has keeps keys, usernames and emails unique. */
  lemma NewUserKeepsUnique(users: seq<User>, request: UserCreate, salt: nat)
    requires UsersValid(users) && !Taken(users, request.username, request.email)
    ensures UsersValid(users + [NewUser(users, request, salt)])
  {
    var u := NewUser(users, request, salt);
    var users' := users + [u];
    forall i, j | 0 <= i < j < |users'|
      ensures users'[i].id != users'[j].id && users'[i].username != users'[j].username && users'[i].email != users'[j].email
    {
      assert users'[i] == users[i] && users[i] in users;
      if j < |users| {
        assert users'[j] == users[j];
      }
    }
  }

  /**
   * A user who has just registered can log in: their own username, or their
   * email when it is classified as one, with the password they registered,
   * authenticates them.
   */
  lemma {:induction false} RegisteredUserAuthenticates(users: seq<User>, request: UserCreate, salt: nat, identifier: string)
    requires UsersValid(users) && !Taken(users, request.username, request.email)
    requires identifier == ColumnValue(NewUser(users, request, salt), Auth.LookupColumn(identifier))
    ensures Auth.AuthenticateUser(users + [NewUser(users, request, salt)], identifier, request.password) ==
      Some(NewUser(users, request, salt))
  {
    var u := NewUser(users, request, salt);
    NewUserKeepsUnique(users, request, salt);
    Auth.AuthenticateOwner(users + [u], u, identifier, request.password);
  }

  /**
   * `register_user`: a username or email already in use is refused and
   * nothing is written; otherwise the user is inserted with the hash of the
   * password, the registration is logged under the new user, and the
   * password-free projection is returned. The bcrypt salt is a parameter.
   */
  method RegisterUser(db: Database, config: Auth.Config, credential: Credential, request: UserCreate, salt: nat, now: int)
    returns (r: Reply<UserResponse>)
    requires db.Valid()
    modifies db`users, db`logs
    ensures db.Valid()
    ensures !Auth.VerifyStaticToken(config, credential).Ok? ==>
      r == StaticRefusal() && db.users == old(db.users) && db.logs == old(db.logs)
    ensures Auth.VerifyStaticToken(config, credential).Ok? && Taken(old(db.users), request.username, request.email) ==>
      r == Refused(AlreadyTaken) && db.users == old(db.users) && db.logs == old(db.logs)
    ensures Auth.VerifyStaticToken(config, credential).Ok? && !Taken(old(db.users), request.username, request.email) ==>
      var u := NewUser(old(db.users), request, salt);
      db.users == old(db.users) + [u] &&
      db.logs == old(db.logs) + [NewLog(old(db.logs), "User " + request.email + " telah mendaftar.", u.id, now)] &&
      r == Ok(ToResponse(u))
  {
    if !Auth.VerifyStaticToken(config, credential).Ok? {
      return StaticRefusal();
    }
    if Taken(db.users, request.username, request.email) {
      return Refused(AlreadyTaken);
    }
    var u := NewUser(db.users, request, salt);
    NewUserKeepsUnique(db.users, request, salt);
    NewUserKeepsReferences(db.users, u, db.participants, db.messages);
    db.users := db.users + [u];
    var _ := LogActivity(db, "User " + u.email + " telah mendaftar.", u.id, now);
    r := Ok(ToResponse(u));
  }

  // ------------------------------------------------------------------- login

  const BadLogin: string := "Email atau password tidak valid"

  /** The login response's data: the token, its type and the user's profile. */
  datatype TokenData = TokenData(accessToken: Credential, tokenType: string, userProfile: UserResponse)

  /** The token subject: the user's email when the identifier looks like an e-mail address, else the username. */
  function LoginSubject(identifier: string, user: User): string
  {
    if Text.IsEmail(identifier) then user.email else user.username
  }

  /** The token login issues: the subject alone, living ACCESS_TOKEN_EXPIRE_MINUTES minutes. */
  function LoginToken(config: Auth.Config, subject: string, now: int): Credential
  {
    Auth.CreateAccessToken(config, map["sub" := Str(subject)], Some(config.accessTokenExpireMinutes * 60), now)
  }

  /** The subject login puts in the token is the identifier the user logged in with. */
  lemma LoginSubjectIsIdentifier(users: seq<User>, identifier: string, password: string)
    requires Auth.AuthenticateUser(users, identifier, password).Some?
    ensures LoginSubject(identifier, Auth.AuthenticateUser(users, identifier, password).value) == identifier
  {
    Text.EmailClassification(identifier);
  }

  /**
   * The token a successful login returns resolves, through get_current_user,
   * to the user who logged in at every time up to its expiry, and to 401
   * afterwards.
   */
  lemma {:induction false} LoginTokenResolves(config: Auth.Config, users: seq<User>, identifier: string, password: string,
                                              now: int, at: int)
    requires Auth.AuthenticateUser(users, identifier, password).Some?
    ensures var user := Auth.AuthenticateUser(users, identifier, password).value;
      Auth.GetCurrentUser(config, users, LoginToken(config, LoginSubject(identifier, user), now), at) ==
        if at <= Auth.ExpiresAt(Some(config.accessTokenExpireMinutes * 60), now) then Ok(user) else Auth.Unauthorized
  {
    var user := Auth.AuthenticateUser(users, identifier, password).value;
    LoginSubjectIsIdentifier(users, identifier, password);
    var data: Claims := map["sub" := Str(identifier)];
    Auth.IssuedTokenLifetime(config, data, Some(config.accessTokenExpireMinutes * 60), now, at);
  }

  /**
   * `login_for_access_token`: a body with a blank identifier or password is
   * answered with 422 by its validators; a failed authentication is refused
   * and not logged; a successful one is logged and answered with a bearer
   * token for the subject above and the user's profile.
   */
  method LoginForAccessToken(db: Database, config: Auth.Config, credential: Credential, request: LoginRequest, now: int)
    returns (r: Reply<TokenData>)
    requires db.Valid()
    modifies db`logs
    ensures db.Valid()
    ensures !Auth.VerifyStaticToken(config, credential).Ok? ==> r == StaticRefusal() && db.logs == old(db.logs)
    ensures Auth.VerifyStaticToken(config, credential).Ok? && Schemas.ParseLoginRequest(request.identifier, request.password).Invalid? ==>
      r == Raised(422, Schemas.ParseLoginRequest(request.identifier, request.password).message) && db.logs == old(db.logs)
    ensures Auth.VerifyStaticToken(config, credential).Ok? && Schemas.ParseLoginRequest(request.identifier, request.password).Valid? ==>
      match Auth.AuthenticateUser(db.users, request.identifier, request.password)
      case None => r == Refused(BadLogin) && db.logs == old(db.logs)
      case Some(user) =>
        var subject := LoginSubject(request.identifier, user);
        r == Ok(TokenData(LoginToken(config, subject, now), "bearer", ToResponse(user))) &&
        db.logs == old(db.logs) + [NewLog(old(db.logs), "User " + subject + " telah melakukan login.", user.id, now)]
  {
    if !Auth.VerifyStaticToken(config, credential).Ok? {
      return StaticRefusal();
    }
    var parsed := Schemas.ParseLoginRequest(request.identifier, request.password);
    if parsed.Invalid? {
      return Raised(422, parsed.message);
    }
    var found := Auth.AuthenticateUser(db.users, request.identifier, request.password);
    if found.None? {
      return Refused(BadLogin);
    }
    var user := found.value;
    var subject := LoginSubject(request.identifier, user);
    var token := LoginToken(config, subject, now);
    var _ := LogActivity(db, "User " + subject + " telah melakukan login.", user.id, now);
    r := Ok(TokenData(token, "bearer", ToResponse(user)));
  }

  // ------------------------------------------------------------------ search

  const NoCriterion: string := "Berikan setidaknya satu parameter pencarian (nama atau user_id)"

  /** The search filters: a (truthy) name as a case-insensitive substring of the user's name, a (nonzero) id by equality. */
  predicate Matches(u: User, name: Option<string>, userId: Option<int>)
  {
    (TruthyText(name) ==> Text.ContainsIgnoreCase(u.name, name.value)) &&
    (TruthyInt(userId) ==> u.id == userId.value)
  }

  /** A user whose name holds the searched name, in whatever letter case, matches the name filter. */
  lemma NameFragmentMatches(u: User, pre: string, mid: string, post: string, name: string)
    requires u.name == pre + mid + post && name != "" && Text.Lower(mid) == Text.Lower(name)
    ensures Matches(u, Some(name), None)
  {
    Text.SubstringMatchesIgnoringCase(pre, mid, post, name);
  }

  /** The matching users in table order. */
  function Filter(users: seq<User>, name: Option<string>, userId: Option<int>): (r: seq<User>)
    ensures |r| <= |users|
    ensures forall u :: u in r <==> u in users && Matches(u, name, userId)
  {
    if users == [] then []
    else
      assert users == [users[0]] + users[1..];
      (if Matches(users[0], name, userId) then [users[0]] else []) + Filter(users[1..], name, userId)
  }

  /** The users a search answers with: refused without a criterion, else the requested page of the matches. */
  function Search(users: seq<User>, name: Option<string>, userId: Option<int>, skip: nat, limit: nat): (r: Reply<seq<User>>)
    ensures !r.Raised?
    ensures r.Refused? <==> !TruthyText(name) && !TruthyInt(userId)
    ensures r.Refused? ==> r.error == NoCriterion
    ensures r.Ok? ==> |r.data| <= limit && forall u :: u in r.data ==> u in users && Matches(u, name, userId)
    ensures r.Ok? && skip == 0 && limit >= |users| ==> forall u :: u in users && Matches(u, name, userId) ==> u in r.data
    ensures r.Ok? ==> var matches := Filter(users, name, userId);
      |r.data| == if skip >= |matches| then 0 else Min(limit, |matches| - skip)
    ensures r.Ok? ==>
      exists arranged :: multiset(arranged) == multiset(Filter(users, name, userId)) && r.data == Page(arranged, skip, limit)
  {
    if !TruthyText(name) && !TruthyInt(userId) then Refused(NoCriterion)
    else
      var matches := Filter(users, name, userId);
      var page := Page(matches, skip, limit);
      assert skip == 0 && limit >= |users| ==> page == matches;
      assert forall u :: u in page ==> u in matches by {
        forall u | u in page ensures u in matches {
          var k :| 0 <= k < |page| && page[k] == u;
          assert matches[skip + k] == u;
        }
      }
      assert multiset(matches) == multiset(Filter(users, name, userId)) && page == Page(matches, skip, limit);
      Ok(page)
  }

  /** With unique keys, the users whose key is `id`: that user, or nobody. */
  lemma {:induction false} FilterById(users: seq<User>, id: int)
    requires UsersValid(users) && id != 0
    ensures Filter(users, None, Some(id)) == if HasUserId(users, id) then [UserById(users, id)] else []
  {
    if users != [] {
      var rest := users[1..];
      assert UsersValid(rest) by {
        forall i, j | 0 <= i < j < |rest| ensures rest[i].id != rest[j].id && rest[i].username != rest[j].username && rest[i].email != rest[j].email {
          assert rest[i] == users[i + 1] && rest[j] == users[j + 1];
        }
      }
      FilterById(rest, id);
      if users[0].id == id {
        assert !HasUserId(rest, id) by {
          forall v | v in rest ensures v.id != id {
            var k :| 0 <= k < |rest| && rest[k] == v;
            assert users[k + 1] == v;
          }
        }
      } else {
        assert HasUserId(users, id) <==> HasUserId(rest, id) by {
          if HasUserId(users, id) {
            var u :| u in users && u.id == id;
            assert u in rest;
          }
        }
        if HasUserId(rest, id) {
          assert UserIndex(users, id) == 1 + UserIndex(rest, id);
        }
      }
    }
  }

  /** Searching by the key of an existing user alone finds exactly that user. */
  lemma SearchByIdFindsUser(users: seq<User>, u: User, limit: nat)
    requires UsersValid(users) && u in users && u.id != 0 && limit >= 1
    ensures Search(users, None, Some(u.id), 0, limit) == Ok([u])
  {
    FilterById(users, u.id);
    UserByOwnId(users, u);
    var page := Page([u], 0, limit);
    assert |page| == 1 && page[0] == u;
    assert page == [u];
  }

  function Responses(users: seq<User>): (r: seq<UserResponse>)
    ensures |r| == |users| && forall i :: 0 <= i < |users| ==> r[i] == ToResponse(users[i])
  {
    seq(|users|, i requires 0 <= i < |users| => ToResponse(users[i]))
  }

  /** Each response is the projection of a user found, and each user found has its projection among them. */
  lemma ResponsesOfFound(found: seq<User>)
    ensures forall k :: 0 <= k < |found| ==> found[k] in found && Responses(found)[k] == ToResponse(found[k])
    ensures forall u :: u in found ==> ToResponse(u) in Responses(found)
  {
    var responses := Responses(found);
    forall u | u in found ensures ToResponse(u) in responses {
      var k :| 0 <= k < |found| && found[k] == u;
      assert responses[k] == ToResponse(u);
    }
  }

  /** The action search_users logs: its criteria as Python renders them, and the number of results. */
  function SearchAction(name: Option<string>, userId: Option<int>, found: nat): string
  {
    "Mencari users dengan kriteria: name=" + OptionalText(name) + ", user_id=" + OptionalInt(userId) +
    ". Menemukan " + NatToString(found) + " hasil."
  }

  /** `search_users`: the search above, logged when it runs. */
  method SearchUsers(db: Database, caller: User, name: Option<string>, userId: Option<int>, skip: nat, limit: nat, now: int)
    returns (r: Reply<seq<UserResponse>>)
    requires db.Valid() && caller in db.users
    modifies db`logs
    ensures db.Valid()
    ensures Search(db.users, name, userId, skip, limit).Refused? ==> r == Refused(NoCriterion) && db.logs == old(db.logs)
    ensures Search(db.users, name, userId, skip, limit).Ok? ==>
      var found := Search(db.users, name, userId, skip, limit).data;
      r == Ok(Responses(found)) &&
      db.logs == old(db.logs) + [NewLog(old(db.logs), SearchAction(name, userId, |found|), caller.id, now)]
  {
    var result := Search(db.users, name, userId, skip, limit);
    if result.Refused? {
      return Refused(NoCriterion);
    }
    var _ := LogActivity(db, SearchAction(name, userId, |result.data|), caller.id, now);
    r := Ok(Responses(result.data));
  }

  /**
   * `search_users_public`: the same search behind the static token, not
   * logged. Every user it answers with matches the criteria.
   */
  function SearchUsersPublic(config: Auth.Config, credential: Credential, users: seq<User>,
                             name: Option<string>, userId: Option<int>, skip: nat, limit: nat): (r: Reply<seq<UserResponse>>)
    ensures !Auth.VerifyStaticToken(config, credential).Ok? ==> r == StaticRefusal()
    ensures Auth.VerifyStaticToken(config, credential).Ok? ==> (r == Refused(NoCriterion) <==> !TruthyText(name) && !TruthyInt(userId))
    ensures Auth.VerifyStaticToken(config, credential).Ok? ==> (r.Ok? <==> TruthyText(name) || TruthyInt(userId))
    ensures r.Ok? ==> |r.data| <= limit
    ensures r.Ok? ==> forall k :: 0 <= k < |r.data| ==>
      exists u :: u in users && Matches(u, name, userId) && r.data[k] == ToResponse(u)
    ensures r.Ok? ==> Search(users, name, userId, skip, limit).Ok?
    ensures r.Ok? ==> r.data == Responses(Search(users, name, userId, skip, limit).data)
    ensures r.Ok? && skip == 0 && limit >= |users| ==>
      forall u :: u in users && Matches(u, name, userId) ==> ToResponse(u) in r.data
  {
    if !Auth.VerifyStaticToken(config, credential).Ok? then StaticRefusal()
    else
      match Search(users, name, userId, skip, limit)
      case Ok(found) =>
        var responses := Responses(found);
        ResponsesOfFound(found);
        assert forall k :: 0 <= k < |responses| ==>
          found[k] in users && Matches(found[k], name, userId) && responses[k] == ToResponse(found[k]);
        Ok(responses)
      case Refused(e) => Refused(e)
      case Raised(status, detail) => Raised(status, detail)
  }

  // ----------------------------------------------------------------- reports

  const NoPermission: string := "Tidak memiliki izin untuk melihat report pengguna lain"

  /** Admins may view anyone's reports; everyone else only their own. */
  predicate CanViewReports(caller: User, userId: int)
  {
    caller.role == "admin" || caller.id == userId
  }

  function ReportOwner(x: Report): int { x.userId }

  /** Ascending in this key is newest first. */
  function ReportAge(x: Report): int { -x.timestamp }

  /** The query of get_reports_by_user_id: the user's reports, newest first, paged. */
  function ReportListing(reports: seq<Report>, userId: int, skip: nat, limit: nat): seq<Report>
  {
    Sorting.SortedPage(Sorting.RowsOf(reports, ReportOwner, userId), ReportAge, skip, limit)
  }

  /**
   * `get_reports_by_user_id`: a non-admin asking for someone else's reports
   * is refused, and so is a request for a user that does not exist, neither
   * being logged; otherwise the user's reports are listed and the listing is
   * logged.
   */
  method GetReportsByUserId(db: Database, caller: User, userId: int, skip: nat, limit: nat, now: int)
    returns (r: Reply<seq<Report>>)
    requires db.Valid() && caller in db.users
    modifies db`logs
    ensures db.Valid()
    ensures !CanViewReports(caller, userId) ==> r == Refused(NoPermission) && db.logs == old(db.logs)
    ensures CanViewReports(caller, userId) && !HasUserId(db.users, userId) ==>
      r == Refused("User dengan ID " + IntToString(userId) + " tidak ditemukan") && db.logs == old(db.logs)
    ensures CanViewReports(caller, userId) && HasUserId(db.users, userId) ==>
      var listing := ReportListing(db.reports, userId, skip, limit);
      r == Ok(listing) &&
      db.logs == old(db.logs) + [NewLog(old(db.logs), "Melihat " + NatToString(|listing|) + " report untuk user ID " + IntToString(userId), caller.id, now)]
  {
    if !CanViewReports(caller, userId) {
      return Refused(NoPermission);
    }
    if FindById(db.users, userId).None? {
      return Refused("User dengan ID " + IntToString(userId) + " tidak ditemukan");
    }
    var listing := ReportListing(db.reports, userId, skip, limit);
    var _ := LogActivity(db, "Melihat " + NatToString(|listing|) + " report untuk user ID " + IntToString(userId), caller.id, now);
    r := Ok(listing);
  }

  // ------------------------------------------------------------ data entries

  const EntryNotFound: string := "Data entry tidak ditemukan"

  /** The position of the entry with key `id` owned by `ownerId`, searching from `from`. */
  function FindEntry(entries: seq<DataEntry>, id: int, ownerId: nat, from: nat): (r: Option<nat>)
    requires from <= |entries|
    ensures r.Some? ==> from <= r.value < |entries| && entries[r.value].id == id && entries[r.value].ownerId == ownerId
    ensures r.None? ==> forall k :: from <= k < |entries| ==> entries[k].id != id || entries[k].ownerId != ownerId
    decreases |entries| - from
  {
    if from == |entries| then None
    else if entries[from].id == id && entries[from].ownerId == ownerId then Some(from)
    else FindEntry(entries, id, ownerId, from + 1)
  }

  /** Another user's entry is invisible to the caller: looking it up by its key finds nothing. */
  lemma OthersEntryNotFound(entries: seq<DataEntry>, k: nat, callerId: nat)
    requires DistinctEntryIds(entries) && k < |entries| && entries[k].ownerId != callerId
    ensures FindEntry(entries, entries[k].id, callerId, 0).None?
  {
  }

  /** `read_data_entry`: the caller's entry with that key, logged; anything else is "not found". */
  method ReadDataEntry(db: Database, caller: User, id: int, now: int) returns (r: Reply<DataEntryResponse>)
    requires db.Valid() && caller in db.users
    modifies db`logs
    ensures db.Valid()
    ensures FindEntry(db.entries, id, caller.id, 0).None? ==> r == Refused(EntryNotFound) && db.logs == old(db.logs)
    ensures FindEntry(db.entries, id, caller.id, 0).Some? ==>
      var k := FindEntry(db.entries, id, caller.id, 0).value;
      r == Ok(EntryResponse(db.entries[k])) &&
      db.logs == old(db.logs) + [NewLog(old(db.logs), "Retrieved data entry with ID " + IntToString(id), caller.id, now)]
  {
    var found := FindEntry(db.entries, id, caller.id, 0);
    if found.None? {
      return Refused(EntryNotFound);
    }
    var _ := LogActivity(db, "Retrieved data entry with ID " + IntToString(id), caller.id, now);
    r := Ok(EntryResponse(db.entries[found.value]));
  }

  /** The explicitly set fields of an update body, `dict(exclude_unset=True).items()`: each column at most once. */
  type Patch = seq<(string, FieldValue)>

  predicate DistinctKeys(patch: Patch)
  {
    forall i, j :: 0 <= i < j < |patch| ==> patch[i].0 != patch[j].0
  }

  function PatchKeys(patch: Patch): set<string>
  {
    set i | 0 <= i < |patch| :: patch[i].0
  }

  /**
   * The columns after `setattr` of each pair in turn: the set columns take
   * their new values, and every other column keeps its value.
   */
  function Overwrite(fields: map<string, FieldValue>, patch: Patch): (r: map<string, FieldValue>)
    requires DistinctKeys(patch)
    ensures r.Keys == fields.Keys + PatchKeys(patch)
    ensures forall i :: 0 <= i < |patch| ==> r[patch[i].0] == patch[i].1
    ensures forall key :: key in fields && key !in PatchKeys(patch) ==> r[key] == fields[key]
  {
    if patch == [] then fields
    else
      var init := patch[..|patch| - 1];
      var last := patch[|patch| - 1];
      LastPair(patch);
      Overwrite(fields, init)[last.0 := last.1]
  }

  /** The last pair of a patch adds its key to those of the pairs before it, and no earlier pair has that key. */
  lemma LastPair(patch: Patch)
    requires DistinctKeys(patch) && patch != []
    ensures DistinctKeys(patch[..|patch| - 1])
    ensures PatchKeys(patch) == PatchKeys(patch[..|patch| - 1]) + {patch[|patch| - 1].0}
    ensures forall i :: 0 <= i < |patch| - 1 ==> patch[..|patch| - 1][i] == patch[i] && patch[i].0 != patch[|patch| - 1].0
  {
    var init := patch[..|patch| - 1];
    var last := patch[|patch| - 1];
    forall key | key in PatchKeys(patch) ensures key in PatchKeys(init) + {last.0} {
      var i :| 0 <= i < |patch| && patch[i].0 == key;
      if i < |patch| - 1 { assert init[i] == patch[i]; }
    }
    forall key | key in PatchKeys(init) ensures key in PatchKeys(patch) {
      var i :| 0 <= i < |init| && init[i].0 == key;
      assert patch[i] == init[i];
    }
  }

  /** Applying one more pair of the patch overwrites one more column. */
  lemma OverwriteStep(fields: map<string, FieldValue>, patch: Patch, i: nat)
    requires DistinctKeys(patch) && i < |patch|
    ensures DistinctKeys(patch[..i]) && DistinctKeys(patch[..i + 1])
    ensures Overwrite(fields, patch[..i + 1]) == Overwrite(fields, patch[..i])[patch[i].0 := patch[i].1]
  {
    assert patch[..i + 1][..i] == patch[..i];
  }

  /** update_data_entry's `setattr` loop over the set fields. */
  method ApplyPatch(fields: map<string, FieldValue>, patch: Patch) returns (updated: map<string, FieldValue>)
    requires DistinctKeys(patch)
    ensures updated == Overwrite(fields, patch)
  {
    updated := fields;
    var i := 0;
    while i < |patch|
      invariant 0 <= i <= |patch|
      invariant DistinctKeys(patch[..i])
      invariant updated == Overwrite(fields, patch[..i])
    {
      OverwriteStep(fields, patch, i);
      updated := updated[patch[i].0 := patch[i].1];
      i := i + 1;
    }
    assert patch[..i] == patch;
  }

  /** Every column has a value: what the table's NOT NULL constraints demand at commit. */
  predicate NullFree(fields: map<string, FieldValue>)
  {
    forall key :: key in fields ==> fields[key] != Null
  }

  /**
   * `update_data_entry`: the caller's entry gets the explicitly set fields
   * and keeps the others; an explicit null in a column violates its NOT NULL
   * constraint at commit, an unhandled error that leaves the entry as it was.
   * Any other entry is "not found".
   */
  method UpdateDataEntry(db: Database, caller: User, id: int, patch: Patch, now: int) returns (r: Reply<DataEntryResponse>)
    requires db.Valid() && caller in db.users && DistinctKeys(patch)
    modifies db`entries, db`logs
    ensures db.Valid()
    ensures FindEntry(old(db.entries), id, caller.id, 0).None? ==>
      r == Refused(EntryNotFound) && db.entries == old(db.entries) && db.logs == old(db.logs)
    ensures FindEntry(old(db.entries), id, caller.id, 0).Some? ==>
      var k := FindEntry(old(db.entries), id, caller.id, 0).value;
      var fields := Overwrite(old(db.entries)[k].fields, patch);
      if NullFree(fields) then
        db.entries == old(db.entries)[k := old(db.entries)[k].(fields := fields)] &&
        db.logs == old(db.logs) + [NewLog(old(db.logs), "Updated data entry with ID " + IntToString(id), caller.id, now)] &&
        r == Ok(EntryResponse(db.entries[k]))
      else
        r == Raised(500, InternalError) && db.entries == old(db.entries) && db.logs == old(db.logs)
  {
    var found := FindEntry(db.entries, id, caller.id, 0);
    if found.None? {
      return Refused(EntryNotFound);
    }
    var k := found.value;
    var fields := ApplyPatch(db.entries[k].fields, patch);
    if !NullFree(fields) {
      return Raised(500, InternalError);
    }
    var entry := db.entries[k].(fields := fields);
    db.entries := db.entries[k := entry];
    var _ := LogActivity(db, "Updated data entry with ID " + IntToString(id), caller.id, now);
    r := Ok(EntryResponse(entry));
  }

  /** `delete_data_entry`: the caller's entry is removed and the removal logged; any other entry is "not found". */
  method DeleteDataEntry(db: Database, caller: User, id: int, now: int) returns (r: Reply<()>)
    requires db.Valid() && caller in db.users
    modifies db`entries, db`logs
    ensures db.Valid()
    ensures FindEntry(old(db.entries), id, caller.id, 0).None? ==>
      r == Refused(EntryNotFound) && db.entries == old(db.entries) && db.logs == old(db.logs)
    ensures FindEntry(old(db.entries), id, caller.id, 0).Some? ==>
      var k := FindEntry(old(db.entries), id, caller.id, 0).value;
      db.entries == old(db.entries)[..k] + old(db.entries)[k + 1..] &&
      db.logs == old(db.logs) + [NewLog(old(db.logs), "Deleted data entry with ID " + IntToString(id), caller.id, now)] &&
      r == Ok(())
  {
    var found := FindEntry(db.entries, id, caller.id, 0);
    if found.None? {
      return Refused(EntryNotFound);
    }
    var k := found.value;
    ghost var before := db.entries;
    db.entries := db.entries[..k] + db.entries[k + 1..];
    assert DistinctEntryIds(db.entries) by {
      forall i, j | 0 <= i < j < |db.entries| ensures db.entries[i].id != db.entries[j].id {
        var i' := if i < k then i else i + 1;
        var j' := if j < k then j else j + 1;
        assert db.entries[i] == before[i'] && db.entries[j] == before[j'];
      }
    }
    var _ := LogActivity(db, "Deleted data entry with ID " + IntToString(id), caller.id, now);
    r := Ok(());
  }

  // ----------------------------------------------------------- profile update

  const WrongPassword: string := "Password saat ini tidak sesuai"
  const EmailInUse: string := "Email sudah digunakan oleh pengguna lain"
  const UsernameInUse: string := "Username sudah digunakan oleh pengguna lain"

  predicate ChangesEmail(user: User, update: UserProfileUpdate)
  {
    TruthyText(update.email) && update.email.value != user.email
  }

  predicate ChangesUsername(user: User, update: UserProfileUpdate)
  {
    TruthyText(update.username) && update.username.value != user.username
  }

  /** The current password check passes: no new password is asked for, or the current one verifies. */
  predicate PasswordAccepted(user: User, update: UserProfileUpdate)
  {
    TruthyText(update.newPassword) ==>
      update.currentPassword.Some? && Crypto.Verify(update.currentPassword.value, user.hashedPassword)
  }

  /** The email check passes: the email is kept, or no user holds the new one. */
  predicate EmailAvailable(users: seq<User>, user: User, update: UserProfileUpdate)
  {
    ChangesEmail(user, update) ==> forall u :: u in users ==> u.email != update.email.value
  }

  /** The username check passes: the username is kept, or no user holds the new one. */
  predicate UsernameAvailable(users: seq<User>, user: User, update: UserProfileUpdate)
  {
    ChangesUsername(user, update) ==> forall u :: u in users ==> u.username != update.username.value
  }

  /**
   * The first check of update_user_profile that fails, in its order: the
   * current password when a new one is given, then a new email another user
   * holds, then a new username another user holds.
   */
  function ProfileError(users: seq<User>, user: User, update: UserProfileUpdate): (e: Option<string>)
    requires ValidateNewPassword(update.currentPassword, update.newPassword).Valid?
    ensures e.None? <==>
      PasswordAccepted(user, update) && EmailAvailable(users, user, update) && UsernameAvailable(users, user, update)
    ensures e == Some(WrongPassword) <==> !PasswordAccepted(user, update)
    ensures e == Some(EmailInUse) <==> PasswordAccepted(user, update) && !EmailAvailable(users, user, update)
    ensures e == Some(UsernameInUse) <==>
      PasswordAccepted(user, update) && EmailAvailable(users, user, update) && !UsernameAvailable(users, user, update)
  {
    if TruthyText(update.newPassword) && !Crypto.Verify(update.currentPassword.value, user.hashedPassword) then Some(WrongPassword)
    else if ChangesEmail(user, update) && FindBy(users, EmailColumn, update.email.value).Some? then Some(EmailInUse)
    else if ChangesUsername(user, update) && FindBy(users, UsernameColumn, update.username.value).Some? then Some(UsernameInUse)
    else None
  }

  /** The user after the assignments of update_user_profile; the bcrypt salt of a new hash is a parameter. */
  function UpdatedProfile(user: User, update: UserProfileUpdate, salt: nat): (u: User)
    ensures u.id == user.id && u.role == user.role
    ensures TruthyText(update.newPassword) ==> Crypto.Verify(update.newPassword.value, u.hashedPassword)
    ensures !TruthyText(update.newPassword) ==> u.hashedPassword == user.hashedPassword
    ensures u.email == (if ChangesEmail(user, update) then update.email.value else user.email)
    ensures u.username == (if ChangesUsername(user, update) then update.username.value else user.username)
    ensures u.name == (if update.name.Some? then update.name.value else user.name)
    ensures u.disease == (if update.disease.Some? then update.disease else user.disease)
    ensures u.dateOfBirth == (if update.dateOfBirth.Some? then update.dateOfBirth else user.dateOfBirth)
    ensures u.placeOfBirth == (if update.placeOfBirth.Some? then update.placeOfBirth else user.placeOfBirth)
  {
    User(
      user.id,
      if update.name.Some? then update.name.value else user.name,
      if ChangesUsername(user, update) then update.username.value else user.username,
      if ChangesEmail(user, update) then update.email.value else user.email,
      if TruthyText(update.newPassword) then Crypto.Hash(update.newPassword.value, salt) else user.hashedPassword,
      user.role,
      if update.disease.Some? then update.disease else user.disease,
      if update.dateOfBirth.Some? then update.dateOfBirth else user.dateOfBirth,
      if update.placeOfBirth.Some? then update.placeOfBirth else user.placeOfBirth)
  }

  /** An update that passes the checks keeps keys, usernames and emails unique. */
  lemma {:induction false} ProfileUpdateKeepsUnique(users: seq<User>, i: nat, update: UserProfileUpdate, salt: nat)
    requires UsersValid(users) && i < |users|
    requires ValidateNewPassword(update.currentPassword, update.newPassword).Valid?
    requires ProfileError(users, users[i], update).None?
    ensures UsersValid(users[i := UpdatedProfile(users[i], update, salt)])
  {
    var u := UpdatedProfile(users[i], update, salt);
    var users' := users[i := u];
    forall a, b | 0 <= a < b < |users'|
      ensures users'[a].id != users'[b].id && users'[a].username != users'[b].username && users'[a].email != users'[b].email
    {
      if a == i {
        assert users[b] in users;
      } else if b == i {
        assert users[a] in users;
      }
    }
  }

  /**
   * The password hash changes only when a new password is given and the
   * current one verifies; afterwards the new password verifies.
   */
  lemma PasswordChangeNeedsCurrent(users: seq<User>, user: User, update: UserProfileUpdate, salt: nat)
    requires ValidateNewPassword(update.currentPassword, update.newPassword).Valid?
    requires ProfileError(users, user, update).None?
    ensures UpdatedProfile(user, update, salt).hashedPassword != user.hashedPassword ==>
      update.newPassword.Some? && Crypto.Verify(update.currentPassword.value, user.hashedPassword)
    ensures update.newPassword.Some? ==> Crypto.Verify(update.newPassword.value, UpdatedProfile(user, update, salt).hashedPassword)
  {
  }

  /**
   * The checks and assignments of update_user_profile on the caller's row,
   * in the order of the source: the first failed check is reported, and
   * otherwise the row as the update leaves it.
   */
  method EditProfile(users: seq<User>, user: User, update: UserProfileUpdate, salt: nat) returns (r: Validated<User>)
    requires ValidateNewPassword(update.currentPassword, update.newPassword).Valid?
    ensures r.Invalid? <==> ProfileError(users, user, update).Some?
    ensures r.Invalid? ==> r.message == ProfileError(users, user, update).value
    ensures r.Valid? ==> r.value == UpdatedProfile(user, update, salt)
  {
    var edited := user;
    if TruthyText(update.newPassword) {
      if !Crypto.Verify(update.currentPassword.value, edited.hashedPassword) {
        return Invalid(WrongPassword);
      }
      edited := edited.(hashedPassword := Crypto.Hash(update.newPassword.value, salt));
    }
    if TruthyText(update.email) && update.email.value != edited.email {
      if FindBy(users, EmailColumn, update.email.value).Some? {
        return Invalid(EmailInUse);
      }
      edited := edited.(email := update.email.value);
    }
    if TruthyText(update.username) && update.username.value != edited.username {
      if FindBy(users, UsernameColumn, update.username.value).Some? {
        return Invalid(UsernameInUse);
      }
      edited := edited.(username := update.username.value);
    }
    if update.name.Some? {
      edited := edited.(name := update.name.value);
    }
    if update.disease.Some? {
      edited := edited.(disease := update.disease);
    }
    if update.dateOfBirth.Some? {
      edited := edited.(dateOfBirth := update.dateOfBirth);
    }
    if update.placeOfBirth.Some? {
      edited := edited.(placeOfBirth := update.placeOfBirth);
    }
    r := Valid(edited);
  }

  /**
   * `update_user_profile`: the caller's row is edited as above; a failed
   * check raises 400 before the commit, so nothing is persisted. The update
   * is logged under the new email.
   */
  method UpdateUserProfile(db: Database, caller: User, update: UserProfileUpdate, salt: nat, now: int)
    returns (r: Reply<UserResponse>)
    requires db.Valid() && caller in db.users
    requires ValidateNewPassword(update.currentPassword, update.newPassword).Valid?
    modifies db`users, db`logs
    ensures db.Valid()
    ensures ProfileError(old(db.users), caller, update).Some? ==>
      r == Raised(400, ProfileError(old(db.users), caller, update).value) &&
      db.users == old(db.users) && db.logs == old(db.logs)
    ensures ProfileError(old(db.users), caller, update).None? ==>
      var updated := UpdatedProfile(caller, update, salt);
      db.users == old(db.users)[UserIndex(old(db.users), caller.id) := updated] &&
      db.logs == old(db.logs) + [NewLog(old(db.logs), "User " + updated.email + " telah memperbarui profilnya.", updated.id, now)] &&
      r == Ok(ToResponse(updated))
  {
    var i := UserIndex(db.users, caller.id);
    UserByOwnId(db.users, caller);
    var edited := EditProfile(db.users, db.users[i], update, salt);
    if edited.Invalid? {
      return Raised(400, edited.message);
    }
    var user := edited.value;
    ProfileUpdateKeepsUnique(db.users, i, update, salt);
    ghost var before := db.users;
    db.users := db.users[i := user];
    SameKeysKeepReferences(before, db.users, db.participants, db.messages);
    var _ := LogActivity(db, "User " + user.email + " telah memperbarui profilnya.", user.id, now);
    r := Ok(ToResponse(user));
  }

  // ------------------------------------------------------------ activity log

  function LogOwner(x: ActivityLog): int { x.userId }

  /** Ascending in this key is newest first. */
  function LogAge(x: ActivityLog): int { -x.timestamp }

  /** The query of read_activity_logs: the user's own entries, newest first, paged. */
  function LogListing(logs: seq<ActivityLog>, userId: nat, skip: nat, limit: nat): seq<ActivityLog>
  {
    Sorting.SortedPage(Sorting.RowsOf(logs, LogOwner, userId), LogAge, skip, limit)
  }

  function LogResponses(logs: seq<ActivityLog>): (r: seq<ActivityLogResponse>)
    ensures |r| == |logs| && forall i :: 0 <= i < |logs| ==> r[i] == LogResponse(logs[i])
  {
    seq(|logs|, i requires 0 <= i < |logs| => LogResponse(logs[i]))
  }

  /**
   * `read_activity_logs`: the caller's entries, newest first and paged, as
   * they were before this call; the entry recording the read is appended
   * afterwards and is not among them.
   */
  method ReadActivityLogs(db: Database, caller: User, skip: nat, limit: nat, now: int) returns (r: Reply<seq<ActivityLogResponse>>)
    requires db.Valid() && caller in db.users
    modifies db`logs
    ensures db.Valid()
    ensures r == Ok(LogResponses(LogListing(old(db.logs), caller.id, skip, limit)))
    ensures db.logs == old(db.logs) + [NewLog(old(db.logs), "Retrieved " + NatToString(|r.data|) + " activity logs.", caller.id, now)]
    ensures forall k :: 0 <= k < |r.data| ==> r.data[k].id != db.logs[|db.logs| - 1].id
  {
    var listing := LogListing(db.logs, caller.id, skip, limit);
    var responses := LogResponses(listing);
    ghost var added := NewLog(db.logs, "Retrieved " + NatToString(|responses|) + " activity logs.", caller.id, now);
    forall k | 0 <= k < |responses| ensures responses[k].id != added.id {
      assert listing[k] in listing;
      var j :| 0 <= j < |db.logs| && db.logs[j] == listing[k];
    }
    var _ := LogActivity(db, "Retrieved " + NatToString(|responses|) + " activity logs.", caller.id, now);
    r := Ok(responses);
  }
}
