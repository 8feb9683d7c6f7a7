/** Authentication guards (validators/authentication.py): HTTP Basic credentials checked
    against the stored digests, and bearer tokens checked against the one stored token of the
    user they name. Both only read the tables. */
module Authentication {
  import opened Shared
  import opened Jwt
  import opened Models

  /** The credentials of an HTTP Basic request. */
  datatype BasicCredentials = BasicCredentials(username: string, password: string)

  /** Why a request is refused. Every kind is answered with 401, except `ServerError`, the
      `TypeError` the source raises as written (see `AuthenticateUserAsWritten`). */
  datatype AuthError =
    | CredentialsRequired
    | NotRegistered(username: string)
    | WrongPassword
    | TokenRejected
    | InvalidToken
    | ServerError
  {
    function Status(): int {
      if ServerError? then 500 else 401
    }
  }

  /** `authenticate_user`, with the password checked by `verify_password(plain, digest)`. */
  function AuthenticateUser(hasher: Hasher, users: seq<User>, creds: BasicCredentials): (r: Result<User, AuthError>)
    ensures r == Err(CredentialsRequired) <==> creds.username == "" || creds.password == ""
    ensures r.Err? && r.error.NotRegistered? <==>
      creds.username != "" && creds.password != "" && forall u :: u in users ==> u.username != creds.username
    ensures r == Err(WrongPassword) <==>
      && creds.username != "" && creds.password != ""
      && UserByName(users, creds.username).Some?
      && !VerifyPassword(hasher, creds.password, UserByName(users, creds.username).value.password)
    ensures r.Ok? <==>
      && creds.username != "" && creds.password != ""
      && UserByName(users, creds.username).Some?
      && VerifyPassword(hasher, creds.password, UserByName(users, creds.username).value.password)
    ensures r.Ok? ==> r.value == UserByName(users, creds.username).value
    ensures r.Ok? ==> r.value in users && r.value.username == creds.username
    ensures r.Err? ==> r.error.Status() == 401
  {
    if creds.username == "" || creds.password == "" then Err(CredentialsRequired)
    else match UserByName(users, creds.username)
      case None => Err(NotRegistered(creds.username))
      case Some(u) =>
        if !VerifyPassword(hasher, creds.password, u.password) then Err(WrongPassword) else Ok(u)
  }

  /** `authenticate_user` as written: `user.verify_password(credentials.password)` calls a
      two-argument static method with one argument, which raises before any verification. */
  function AuthenticateUserAsWritten(users: seq<User>, creds: BasicCredentials): Result<User, AuthError> {
    if creds.username == "" || creds.password == "" then Err(CredentialsRequired)
    else match UserByName(users, creds.username)
      case None => Err(NotRegistered(creds.username))
      case Some(u) => Err(ServerError)
  }

  /** As written, no login ever succeeds: wherever the intended check accepts, the written one
      fails with a server error. */
  lemma AsWrittenNoLoginSucceeds(hasher: Hasher, users: seq<User>, creds: BasicCredentials)
    ensures AuthenticateUserAsWritten(users, creds).Err?
    ensures AuthenticateUser(hasher, users, creds).Ok? ==>
      AuthenticateUserAsWritten(users, creds) == Err(ServerError)
  {
  }

  /** A registered user presenting a password their stored digest verifies is authenticated
      as that user. */
  lemma RegisteredPasswordAuthenticates(hasher: Hasher, users: seq<User>, nextId: UserId, k: nat, password: string)
    requires UsersWellFormed(users, nextId)
    requires k < |users|
    requires password != ""
    requires VerifyPassword(hasher, password, users[k].password)
    ensures AuthenticateUser(hasher, users, BasicCredentials(users[k].username, password)) == Ok(users[k])
  {
  }

  /** A password other than the one a digest was made from is refused. */
  lemma OtherPasswordRefused(hasher: Hasher, users: seq<User>, nextId: UserId, k: nat, password: string, salt: Salt, other: string)
    requires hasher.Sound()
    requires UsersWellFormed(users, nextId)
    requires k < |users|
    requires users[k].password == GetPasswordHash(hasher, password, salt)
    requires other != "" && other != password
    ensures AuthenticateUser(hasher, users, BasicCredentials(users[k].username, other)) == Err(WrongPassword)
  {
  }

  /** `get_current_user`: the token must decode, carry a truthy `id`, name a user, and be the
      token stored for that user (an empty stored token is falsy and never matches). */
  function GetCurrentUser(codec: Codec, secret: Key, now: Time, users: seq<User>,
                          tokens: map<UserId, Token>, token: Token): Result<User, AuthError>
  {
    match codec.decode(token, secret, now)
    case None => Err(TokenRejected)
    case Some(claims) =>
      if claims.id.None? || claims.id.value == 0 then Err(InvalidToken)
      else match UserById(users, claims.id.value)
        case None => Err(InvalidToken)
        case Some(u) =>
          if claims.id.value !in tokens || tokens[claims.id.value] == "" || tokens[claims.id.value] != token
          then Err(InvalidToken)
          else Ok(u)
  }

  /** A bearer token authenticates user `u` exactly when it decodes to claims naming `u`, and
      it is the token stored for `u`. */
  lemma CurrentUserIff(codec: Codec, secret: Key, now: Time, users: seq<User>, nextId: UserId,
                       tokens: map<UserId, Token>, token: Token, u: User)
    requires UsersWellFormed(users, nextId)
    ensures GetCurrentUser(codec, secret, now, users, tokens, token) == Ok(u) <==>
      && u in users
      && codec.decode(token, secret, now).Some?
      && codec.decode(token, secret, now).value.id == Some(u.id)
      && u.id in tokens && tokens[u.id] == token && token != ""
  {
    if u in users && codec.decode(token, secret, now).Some? && codec.decode(token, secret, now).value.id == Some(u.id) {
      var k :| 0 <= k < |users| && users[k] == u;
    }
  }

  /** Only the stored token is accepted: two tokens that authenticate the same user are the
      same token. */
  lemma OneLiveTokenPerUser(codec: Codec, secret: Key, now: Time, users: seq<User>,
                            tokens: map<UserId, Token>, t1: Token, t2: Token)
    requires GetCurrentUser(codec, secret, now, users, tokens, t1).Ok?
    requires GetCurrentUser(codec, secret, now, users, tokens, t2).Ok?
    requires GetCurrentUser(codec, secret, now, users, tokens, t1).value.id ==
             GetCurrentUser(codec, secret, now, users, tokens, t2).value.id
    ensures t1 == t2
  {
  }

  /** Every refusal of a bearer token is the same 401. */
  lemma TokenRefusalIsUnauthorized(codec: Codec, secret: Key, now: Time, users: seq<User>,
                                   tokens: map<UserId, Token>, token: Token)
    ensures GetCurrentUser(codec, secret, now, users, tokens, token).Err? ==>
      GetCurrentUser(codec, secret, now, users, tokens, token).error.Status() == 401
  {
  }
}
