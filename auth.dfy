/**
 * The admission layer: the static shared-secret gate, the classification of
 * an identifier as email or username, password authentication, token
 * issuing and the resolution of a bearer token back to a user.
 */
module Auth {
  import opened Common
  import opened Models
  import opened Jose
  import Text
  import Crypto

  /**
   * The process-wide settings read from the environment at start-up. The
   * static token is absent when STATIC_BEARER_TOKEN is unset.
   */
  datatype Config = Config(
    staticBearerToken: Option<string>,
    secretKey: string,
    algorithm: string,
    accessTokenExpireMinutes: int)

  /** The lifetime of a token issued without a (truthy) lifetime: 15 minutes. */
  const DefaultLifetime: int := 15 * 60

  const Forbidden: Reply<string> := Raised(403, "Token tidak valid atau tidak diizinkan")

  /**
   * `verify_static_token`: the presented credential passes exactly when it is
   * the configured static token; with no static token configured nothing passes.
   */
  function VerifyStaticToken(config: Config, credential: Credential): (r: Reply<string>)
    ensures r.Ok? <==> config.staticBearerToken.Some? && credential == Opaque(config.staticBearerToken.value)
    ensures r.Ok? ==> r.data == config.staticBearerToken.value
    ensures !r.Ok? ==> r == Forbidden
  {
    if credential.Opaque? && config.staticBearerToken == Some(credential.text) then Ok(credential.text)
    else Forbidden
  }

  /** A token this service issued never opens the static gate. */
  lemma SignedTokenNotStatic(config: Config, token: Jwt)
    ensures VerifyStaticToken(config, Signed(token)) == Forbidden
  {
  }

  /** The column an identifier is looked up by: email when it matches the e-mail pattern, else username. */
  function LookupColumn(identifier: string): (column: Column)
    ensures column == EmailColumn <==> Text.MatchesEmailPattern(identifier)
  {
    Text.EmailClassification(identifier);
    if Text.IsEmail(identifier) then EmailColumn else UsernameColumn
  }

  /** The user an identifier names: the first with that email or that username, by classification. */
  function FindByIdentifier(users: seq<User>, identifier: string): (r: Option<User>)
    ensures r.Some? ==> r.value in users
    ensures r.Some? ==>
      if Text.MatchesEmailPattern(identifier) then r.value.email == identifier else r.value.username == identifier
    ensures r.None? ==> forall u :: u in users ==>
      (if Text.MatchesEmailPattern(identifier) then u.email != identifier else u.username != identifier)
  {
    FindBy(users, LookupColumn(identifier), identifier)
  }

  /** `authenticate_user`: the user the identifier names, if the password verifies against its hash. */
  function AuthenticateUser(users: seq<User>, identifier: string, password: string): (r: Option<User>)
    ensures r.Some? ==> r.value in users && ColumnValue(r.value, LookupColumn(identifier)) == identifier
    ensures r.Some? ==> Crypto.Verify(password, r.value.hashedPassword)
    ensures (forall u :: u in users ==> ColumnValue(u, LookupColumn(identifier)) != identifier) ==> r.None?
  {
    match FindByIdentifier(users, identifier)
    case None => None
    case Some(user) => if Crypto.Verify(password, user.hashedPassword) then Some(user) else None
  }

  /**
   * With unique emails and usernames, authentication by a user's own email or
   * username gives exactly that user when the password verifies, and nothing
   * otherwise.
   */
  lemma AuthenticateOwner(users: seq<User>, u: User, identifier: string, password: string)
    requires UsersValid(users) && u in users
    requires ColumnValue(u, LookupColumn(identifier)) == identifier
    ensures AuthenticateUser(users, identifier, password) ==
      if Crypto.Verify(password, u.hashedPassword) then Some(u) else None
  {
    FindByUnique(users, LookupColumn(identifier), u);
  }

  /** The `exp` a token gets: now plus the lifetime, or plus 15 minutes when the lifetime is absent or zero. */
  function ExpiresAt(expiresDelta: Option<int>, now: int): int
  {
    if expiresDelta.Some? && expiresDelta.value != 0 then now + expiresDelta.value else now + DefaultLifetime
  }

  /**
   * `create_access_token`: a copy of the given claims with `exp` and `iat`
   * added (replacing any the caller passed), signed with the configured key
   * and algorithm. The lifetime is in seconds.
   */
  function CreateAccessToken(config: Config, data: Claims, expiresDelta: Option<int>, now: int): (token: Credential)
    ensures token.Signed? && token.jwt.key == config.secretKey && token.jwt.algorithm == config.algorithm
    ensures token.jwt.claims.Keys == data.Keys + {"exp", "iat"}
    ensures forall k :: k in data && k != "exp" && k != "iat" ==> token.jwt.claims[k] == data[k]
    ensures token.jwt.claims["iat"] == Num(now)
    ensures expiresDelta.None? ==> token.jwt.claims["exp"] == Num(now + 15 * 60)
    ensures expiresDelta == Some(0) ==> token.jwt.claims["exp"] == Num(now + 15 * 60)
    ensures expiresDelta.Some? && expiresDelta.value != 0 ==> token.jwt.claims["exp"] == Num(now + expiresDelta.value)
  {
    var toEncode := data["exp" := Num(ExpiresAt(expiresDelta, now))]["iat" := Num(now)];
    Encode(toEncode, config.secretKey, config.algorithm)
  }

  /**
   * A token issued with a string subject decodes, under the same settings, to
   * its claims at every time up to its `exp`, and is expired afterwards.
   */
  lemma {:induction false} IssuedTokenLifetime(config: Config, data: Claims, expiresDelta: Option<int>, now: int, at: int)
    requires "sub" in data ==> data["sub"].Str?
    ensures var token := CreateAccessToken(config, data, expiresDelta, now);
      Decode(token, config.secretKey, config.algorithm, at) ==
        if at <= ExpiresAt(expiresDelta, now) then Claimed(token.jwt.claims) else Rejected(Expired)
  {
    var token := CreateAccessToken(config, data, expiresDelta, now);
    var c := token.jwt.claims;
    assert WellTyped(c) by {
      if "sub" in c {
        assert "sub" in data && c["sub"] == data["sub"];
      }
    }
    DecodeEncoded(c, config.secretKey, config.algorithm, at);
  }

  const Unauthorized: Reply<User> := Raised(401, "Tidak dapat memverifikasi kredensial")

  /** The subject of a decoded token, when it has one. */
  function Subject(claims: Claims): Option<string>
  {
    if "sub" in claims && claims["sub"].Str? then Some(claims["sub"].s) else None
  }

  /**
   * `get_current_user`: decode the token, take its subject and look it up by
   * the same classification as login. Any failure is 401.
   */
  function GetCurrentUser(config: Config, users: seq<User>, credential: Credential, now: int): (r: Reply<User>)
    ensures r.Ok? ==> r.data in users
    ensures r.Ok? ==> credential.Signed? && Subject(credential.jwt.claims).Some?
    ensures r.Ok? ==>
      var sub := Subject(credential.jwt.claims).value;
      ColumnValue(r.data, LookupColumn(sub)) == sub
    ensures Decode(credential, config.secretKey, config.algorithm, now).Rejected? ==> r == Unauthorized
    ensures Decode(credential, config.secretKey, config.algorithm, now).Claimed? ==>
      match Subject(Decode(credential, config.secretKey, config.algorithm, now).claims)
      case None => r == Unauthorized
      case Some(sub) => r.Ok? <==> exists u :: u in users && ColumnValue(u, LookupColumn(sub)) == sub
    ensures !r.Ok? ==> r == Unauthorized
  {
    match Decode(credential, config.secretKey, config.algorithm, now)
    case Rejected(_) => Unauthorized
    case Claimed(claims) =>
      match Subject(claims)
      case None => Unauthorized
      case Some(identifier) =>
        match FindByIdentifier(users, identifier)
        case None => Unauthorized
        case Some(user) => Ok(user)
  }
}
