/** `register_user` (views/registration.py): validate, then insert exactly one user. */
module Registration {
  import opened Shared
  import opened Models
  import opened Validation
  import opened Authentication

  /** An `HTTPException`: status code and detail. */
  datatype HttpError = HttpError(status: int, detail: string)

  function RegisteredMessage(username: string): string {
    "User " + username + " was successfully registered"
  }

  /** Inserting a user that passed validation keeps the store consistent: usernames stay
      unique and non-empty, ids keep increasing, and items and tokens keep their owners. */
  lemma RegistrationKeepsStoreConsistent(users: seq<User>, items: seq<Item>, tokens: map<UserId, Jwt.Token>,
                                         nextUserId: UserId, nextItemId: ItemId, hasher: Hasher,
                                         salt: Salt, creds: Credentials)
    requires Consistent(users, items, tokens, nextUserId, nextItemId)
    requires hasher.Sound()
    requires Validate(Some(creds), users) == Pass
    ensures Consistent(users + [NewUser(hasher, nextUserId, creds.username, creds.password, salt)],
                       items, tokens, nextUserId + 1, nextItemId)
  {
    var u := NewUser(hasher, nextUserId, creds.username, creds.password, salt);
    var after := users + [u];
    assert UserIds(users) <= UserIds(after);
    forall i, j | 0 <= i < j < |after|
      ensures after[i].id < after[j].id && after[i].username != after[j].username
    {
      if j == |users| {
        assert after[i] in users;
      }
    }
  }

  /** Right after registering, the user can authenticate with the password they chose. */
  lemma RegisteredUserCanLogIn(users: seq<User>, nextUserId: UserId, hasher: Hasher, salt: Salt, creds: Credentials)
    requires UsersWellFormed(users, nextUserId)
    requires hasher.Sound()
    requires Validate(Some(creds), users) == Pass
    ensures var u := NewUser(hasher, nextUserId, creds.username, creds.password, salt);
      AuthenticateUser(hasher, users + [u], BasicCredentials(creds.username, creds.password)) == Ok(u)
  {
    var u := NewUser(hasher, nextUserId, creds.username, creds.password, salt);
    var after := users + [u];
    forall i, j | 0 <= i < j < |after|
      ensures after[i].id < after[j].id && after[i].username != after[j].username
    {
      if j == |users| {
        assert after[i] in users;
      }
    }
    assert UsersWellFormed(after, nextUserId + 1);
    RegisteredPasswordAuthenticates(hasher, after, nextUserId + 1, |users|, creds.password);
  }

  /** `register_user`: a validation failure is answered with 400 and the validator's message
      and adds no user; otherwise exactly one user, with the digest of the password, is added. */
  method RegisterUser(db: Database, hasher: Hasher, salt: Salt, data: Credentials)
    returns (r: Result<string, HttpError>)
    requires db.Valid() && hasher.Sound()
    modifies db
    ensures db.Valid()
    ensures db.items == old(db.items) && db.tokens == old(db.tokens) && db.nextItemId == old(db.nextItemId)
    ensures match Validate(Some(data), old(db.users))
      case Fail(e) =>
        && r == Err(HttpError(400, Message(e)))
        && db.users == old(db.users) && db.nextUserId == old(db.nextUserId)
      case Pass =>
        && r == Ok(RegisteredMessage(data.username))
        && db.users == old(db.users) + [NewUser(hasher, old(db.nextUserId), data.username, data.password, salt)]
        && db.nextUserId == old(db.nextUserId) + 1
  {
    var outcome := Validate(Some(data), db.users);
    if outcome.Fail? {
      return Err(HttpError(400, Message(outcome.error)));
    }
    RegistrationKeepsStoreConsistent(db.users, db.items, db.tokens, db.nextUserId, db.nextItemId, hasher, salt, data);
    var user := NewUser(hasher, db.nextUserId, data.username, data.password, salt);
    db.users := db.users + [user];
    db.nextUserId := db.nextUserId + 1;
    r := Ok(RegisteredMessage(user.username));
  }
}
