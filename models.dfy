/** The tables of the service (`user`, `object`, `user_token`) and the password hasher the
    `User` record uses. */
module Models {
  import opened Shared
  import opened Jwt

  type UserId = int
  type ItemId = int
  /** The salt bcrypt draws at random for every hash; here it is an input. */
  type Salt = char

  /** A row of the `user` table. `password` holds the hasher's digest, never the plaintext. */
  datatype User = User(id: UserId, username: string, password: string)

  /** A row of the `object` table: an item with exactly one owner. */
  datatype Item = Item(id: ItemId, title: string, owner: UserId)

  /** passlib's bcrypt context. `hash` is salted; `verify(plain, digest)` checks a plaintext
      against a digest. */
  datatype Hasher = Hasher(hash: (string, Salt) -> string, verify: (string, string) -> bool) {

    /** What the service assumes of the hasher: a digest verifies its own plaintext and no
        other, and never equals the plaintext. */
    ghost predicate Sound() {
      && (forall p, salt :: verify(p, hash(p, salt)))
      && (forall p, q, salt :: verify(q, hash(p, salt)) ==> q == p)
      && (forall p, salt :: hash(p, salt) != p)
    }
  }

  /** `User.get_password_hash`. */
  function GetPasswordHash(hasher: Hasher, password: string, salt: Salt): string {
    hasher.hash(password, salt)
  }

  /** `User.verify_password(plain, hashed)`. */
  predicate VerifyPassword(hasher: Hasher, plain: string, hashed: string) {
    hasher.verify(plain, hashed)
  }

  /** `User(username, password, id_)`: the constructor stores the digest of the password. */
  function NewUser(hasher: Hasher, id: UserId, username: string, password: string, salt: Salt): (u: User)
    requires hasher.Sound()
    ensures u.id == id && u.username == username
    ensures u.password != password
    ensures VerifyPassword(hasher, password, u.password)
    ensures forall q :: VerifyPassword(hasher, q, u.password) ==> q == password
  {
    User(id, username, GetPasswordHash(hasher, password, salt))
  }

  /** A stand-in hasher: the digest is a marker, the salt and the plaintext. It is not one-way,
      which nothing in the model needs; it shows that `Hasher.Sound` can be met. */
  function MarkerHasher(): Hasher {
    Hasher(
      (p: string, salt: Salt) => "$2b$" + [salt] + p,
      (q: string, d: string) => |d| >= 5 && d[..4] == "$2b$" && d[5..] == q)
  }

  lemma MarkerHasherIsSound()
    ensures MarkerHasher().Sound()
  {
    var h := MarkerHasher();
    forall p: string, salt: Salt
      ensures h.verify(p, h.hash(p, salt)) && h.hash(p, salt) != p
    {
      var d := h.hash(p, salt);
      assert d[..4] == "$2b$" && d[5..] == p;
    }
  }

  // ---- queries --------------------------------------------------------------------------

  /** `select(User).where(User.username == name)` followed by `.first()`. */
  function UserByName(users: seq<User>, name: string): (r: Option<User>)
    ensures r.Some? ==> r.value in users && r.value.username == name
    ensures r.None? <==> forall u :: u in users ==> u.username != name
  {
    match FirstWhere(users, (u: User) => u.username == name)
    case None => None
    case Some(k) => Some(users[k])
  }

  /** `select(User).where(User.id == id)` followed by `.first()`. */
  function UserById(users: seq<User>, id: UserId): (r: Option<User>)
    ensures r.Some? ==> r.value in users && r.value.id == id
    ensures r.None? <==> forall u :: u in users ==> u.id != id
  {
    match FirstWhere(users, (u: User) => u.id == id)
    case None => None
    case Some(k) => Some(users[k])
  }

  /** Row index of `select(Item).where(Item.id == id).first()`. */
  function ItemIndex(items: seq<Item>, id: ItemId): (r: Option<nat>)
    ensures r.Some? ==> r.value < |items| && items[r.value].id == id
    ensures r.None? <==> forall j :: 0 <= j < |items| ==> items[j].id != id
  {
    FirstWhere(items, (it: Item) => it.id == id)
  }

  /** `select(Item).where(Item.title == title).first()` found a row. */
  predicate TitleStored(items: seq<Item>, title: string) {
    FirstWhere(items, (it: Item) => it.title == title).Some?
  }

  function UserIds(users: seq<User>): set<UserId> {
    set u | u in users :: u.id
  }

  // ---- table constraints ----------------------------------------------------------------

  /** Usernames are unique: registration checks before it inserts. */
  ghost predicate UniqueUsernames(users: seq<User>) {
    forall i, j :: 0 <= i < j < |users| ==> users[i].username != users[j].username
  }

  /** Titles are unique across all owners: creation checks before it inserts. */
  ghost predicate UniqueTitles(items: seq<Item>) {
    forall i, j :: 0 <= i < j < |items| ==> items[i].title != items[j].title
  }

  /** The `user` table: auto-incremented ids below `nextId`, in insertion order, non-empty
      unique usernames. */
  ghost predicate UsersWellFormed(users: seq<User>, nextId: UserId) {
    && 0 < nextId
    && (forall i :: 0 <= i < |users| ==> 0 < users[i].id < nextId && users[i].username != "")
    && (forall i, j :: 0 <= i < j < |users| ==> users[i].id < users[j].id)
    && UniqueUsernames(users)
  }

  /** The `object` table: auto-incremented ids, one registered owner per item (the non-null
      foreign key `user_id`), globally unique titles. */
  ghost predicate ItemsWellFormed(items: seq<Item>, nextId: ItemId, users: seq<User>) {
    && 0 < nextId
    && (forall i :: 0 <= i < |items| ==> 0 < items[i].id < nextId && items[i].owner in UserIds(users))
    && (forall i, j :: 0 <= i < j < |items| ==> items[i].id < items[j].id)
    && UniqueTitles(items)
  }

  /** The `user_token` table as a map from `user_id` (unique) to the one stored token; every
      key is a registered user. */
  ghost predicate TokensWellFormed(tokens: map<UserId, Token>, users: seq<User>) {
    forall id :: id in tokens ==> id in UserIds(users)
  }

  ghost predicate Consistent(users: seq<User>, items: seq<Item>, tokens: map<UserId, Token>,
                             nextUserId: UserId, nextItemId: ItemId) {
    && UsersWellFormed(users, nextUserId)
    && ItemsWellFormed(items, nextItemId, users)
    && TokensWellFormed(tokens, users)
  }

  /** Ids are unique in a well-formed table, so a lookup by id names one row. */
  lemma ItemIndexIsTheRow(items: seq<Item>, nextId: ItemId, users: seq<User>, k: nat)
    requires ItemsWellFormed(items, nextId, users)
    requires k < |items|
    ensures ItemIndex(items, items[k].id) == Some(k)
  {
  }

  /** The store: the three tables and the next auto-increment values. */
  class Database {
    var users: seq<User>
    var items: seq<Item>
    var tokens: map<UserId, Token>
    var nextUserId: UserId
    var nextItemId: ItemId

    ghost predicate Valid()
      reads this
    {
      Consistent(users, items, tokens, nextUserId, nextItemId)
    }

    /** An empty store, as after `create_all`. */
    constructor ()
      ensures Valid()
      ensures users == [] && items == [] && tokens == map[]
    {
      users, items, tokens := [], [], map[];
      nextUserId, nextItemId := 1, 1;
    }
  }
}
