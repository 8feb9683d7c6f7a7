/** Session tokens: a login stores the new token in the user's single `user_token` slot
    (database/models.py), so the previous token stops being accepted. */
module Sessions {
  import opened Shared
  import opened Jwt
  import opened Models
  import opened Authentication

  /** A successful login: authenticate, sign `{id, exp}`, and overwrite the user's slot. */
  method Login(db: Database, hasher: Hasher, codec: Codec, secret: Key, now: Time, ttl: nat,
               creds: BasicCredentials) returns (r: Result<Token, AuthError>)
    requires db.Valid()
    modifies db
    ensures db.Valid()
    ensures db.users == old(db.users) && db.items == old(db.items)
    ensures db.nextUserId == old(db.nextUserId) && db.nextItemId == old(db.nextItemId)
    ensures match AuthenticateUser(hasher, old(db.users), creds)
      case Err(e) => r == Err(e) && db.tokens == old(db.tokens)
      case Ok(u) =>
        && r == Ok(codec.encode(SessionClaims(u.id, now + ttl), secret))
        && db.tokens == old(db.tokens)[u.id := r.value]
  {
    var auth := AuthenticateUser(hasher, db.users, creds);
    if auth.Err? {
      return Err(auth.error);
    }
    var token := codec.encode(SessionClaims(auth.value.id, now + ttl), secret);
    db.tokens := db.tokens[auth.value.id := token];
    r := Ok(token);
  }

  /** A token just stored for `u` authenticates `u` while it is live. */
  lemma IssuedTokenAuthenticates(codec: Codec, secret: Key, now: Time, users: seq<User>, nextId: UserId,
                                 tokens: map<UserId, Token>, u: User, exp: Time)
    requires codec.Sound()
    requires UsersWellFormed(users, nextId)
    requires u in users
    requires now < exp
    ensures GetCurrentUser(codec, secret, now, users,
                           tokens[u.id := codec.encode(SessionClaims(u.id, exp), secret)],
                           codec.encode(SessionClaims(u.id, exp), secret)) == Ok(u)
  {
    var token := codec.encode(SessionClaims(u.id, exp), secret);
    assert codec.decode(token, secret, now) == Some(SessionClaims(u.id, exp));
    CurrentUserIff(codec, secret, now, users, nextId, tokens[u.id := token], token, u);
  }

  /** Storing a new token for a user supersedes the previous one: the old token is refused
      from then on, whether or not it has expired. */
  lemma NewTokenSupersedesOld(codec: Codec, secret: Key, now: Time, users: seq<User>,
                              tokens: map<UserId, Token>, id: UserId, oldExp: Time, newToken: Token)
    requires codec.Sound()
    requires newToken != codec.encode(SessionClaims(id, oldExp), secret)
    ensures GetCurrentUser(codec, secret, now, users, tokens[id := newToken],
                           codec.encode(SessionClaims(id, oldExp), secret)).Err?
  {
    var stale := codec.encode(SessionClaims(id, oldExp), secret);
    assert codec.decode(stale, secret, now) == if Live(SessionClaims(id, oldExp), now) then Some(SessionClaims(id, oldExp)) else None;
  }

  /** Two logins with different expiry times issue different tokens, so the later one
      supersedes the earlier. */
  lemma LaterLoginIssuesNewToken(codec: Codec, secret: Key, id: UserId, exp1: Time, exp2: Time)
    requires codec.Sound()
    requires exp1 != exp2
    ensures codec.encode(SessionClaims(id, exp1), secret) != codec.encode(SessionClaims(id, exp2), secret)
  {
    var now := if exp1 < exp2 then exp1 - 1 else exp2 - 1;
    assert codec.decode(codec.encode(SessionClaims(id, exp1), secret), secret, now) == Some(SessionClaims(id, exp1));
    assert codec.decode(codec.encode(SessionClaims(id, exp2), secret), secret, now) == Some(SessionClaims(id, exp2));
  }
}
