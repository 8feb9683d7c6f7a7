/** The item views (views/items.py): listing, creation and deletion, and the transfer of an
    item to another user through a signed link (send, then receive). */
module Items {
  import opened Shared
  import opened Jwt
  import opened Models

  datatype ItemError =
    | TitleTaken(title: string)
    | ItemNotFound(id: ItemId)
    | UnknownAchiever(username: string)
    | SameUser
    | UnknownItem(id: ItemId)
    | BadSignature
    | InvalidKey
    | NotYourLink
    | AlreadyYours(title: string)
    | OwnerChanged(title: string)
    | ItemGone(id: ItemId)
  {
    /** The HTTP status each refusal is answered with. */
    function Status(): int {
      match this
      case ItemNotFound(_) => 404
      case ItemGone(_) => 404
      case BadSignature => 401
      case NotYourLink => 403
      case _ => 400
    }

    /** The `detail` text, where the source fixes it. */
    function Detail(): Option<string> {
      match this
      case TitleTaken(t) => Some(t + " has been already stored")
      case InvalidKey => Some("Invalid key")
      case NotYourLink => Some("Sorry, this link isn't for you")
      case AlreadyYours(t) => Some("Item " + t + " is already yours")
      case _ => None
    }
  }

  // ---- listing --------------------------------------------------------------------------

  /** The body of `GET /items`: the key `"<username> items"` and the `(id, title)` rows. */
  datatype Listing = Listing(key: string, entries: seq<(ItemId, string)>)

  /** `select(Item.id, Item.title).where(Item.user_id == owner)`, in table order. */
  function OwnedEntries(items: seq<Item>, owner: UserId): seq<(ItemId, string)> {
    if items == [] then []
    else (if items[0].owner == owner then [(items[0].id, items[0].title)] else []) + OwnedEntries(items[1..], owner)
  }

  /** `get_items` */
  function GetItems(items: seq<Item>, current: User): Listing {
    Listing(current.username + " items", OwnedEntries(items, current.id))
  }

  /** The listing holds exactly the rows the user owns, and nothing else. */
  lemma {:induction false} OwnedEntriesExact(items: seq<Item>, owner: UserId)
    ensures |OwnedEntries(items, owner)| <= |items|
    ensures forall id, title :: (id, title) in OwnedEntries(items, owner) <==> Item(id, title, owner) in items
  {
    if items != [] {
      OwnedEntriesExact(items[1..], owner);
      assert items == [items[0]] + items[1..];
      forall id, title
        ensures (id, title) in OwnedEntries(items, owner) <==> Item(id, title, owner) in items
      {
        if Item(id, title, owner) in items && Item(id, title, owner) != items[0] {
          assert Item(id, title, owner) in items[1..];
        }
      }
    }
  }

  // ---- creation -------------------------------------------------------------------------

  /** An item whose title is not yet stored keeps titles unique, and its title is then stored,
      so creating the same title again fails. */
  lemma FreshTitleKeepsTitlesUnique(items: seq<Item>, item: Item)
    requires UniqueTitles(items)
    requires !TitleStored(items, item.title)
    ensures UniqueTitles(items + [item])
    ensures TitleStored(items + [item], item.title)
  {
    var after := items + [item];
    assert after[|items|].title == item.title;
  }

  /** `create_new_item`: refused if an item of any owner has the title; otherwise one new item
      owned by the current user. */
  method CreateNewItem(db: Database, current: User, title: string) returns (r: Result<string, ItemError>)
    requires db.Valid() && current in db.users
    modifies db
    ensures db.Valid()
    ensures db.users == old(db.users) && db.tokens == old(db.tokens) && db.nextUserId == old(db.nextUserId)
    ensures old(TitleStored(db.items, title)) ==>
      r == Err(TitleTaken(title)) && db.items == old(db.items) && db.nextItemId == old(db.nextItemId)
    ensures !old(TitleStored(db.items, title)) ==>
      && r == Ok("Item " + title + " was successfully added")
      && db.items == old(db.items) + [Item(old(db.nextItemId), title, current.id)]
      && db.nextItemId == old(db.nextItemId) + 1
  {
    var found := FirstWhere(db.items, (it: Item) => it.title == title);
    if found.Some? {
      return Err(TitleTaken(title));
    }
    var item := Item(db.nextItemId, title, current.id);
    assert current.id in UserIds(db.users);
    FreshTitleKeepsTitlesUnique(db.items, item);
    db.items := db.items + [item];
    db.nextItemId := db.nextItemId + 1;
    r := Ok("Item " + title + " was successfully added");
  }

  // ---- deletion -------------------------------------------------------------------------

  /** The deletion the tests expect: the row with that id is removed whoever owns it, and a
      missing id is answered with 404. */
  function DeleteRow(items: seq<Item>, id: ItemId): Result<seq<Item>, ItemError> {
    match ItemIndex(items, id)
    case None => Err(ItemNotFound(id))
    case Some(k) => Ok(items[..k] + items[k + 1..])
  }

  /** `delete_item` as written: `session.delete` of an asynchronous session is a coroutine,
      and the view never awaits it, so the commit that follows has nothing to delete. No row
      is removed, and a missing id is not noticed either. */
  function DeleteRowAsWritten(items: seq<Item>, id: ItemId): Result<seq<Item>, ItemError> {
    Ok(items)
  }

  /** The rows left after removing row `k`, index by index. */
  lemma RemovedRow(items: seq<Item>, k: nat, rest: seq<Item>)
    requires k < |items| && rest == items[..k] + items[k + 1..]
    ensures |rest| == |items| - 1
    ensures forall j :: 0 <= j < |rest| ==> rest[j] == items[if j < k then j else j + 1]
  {
  }

  /** Removing the row with a given id leaves the other rows, and only them. */
  lemma RemovedRowMembers(items: seq<Item>, nextId: ItemId, users: seq<User>, k: nat, rest: seq<Item>)
    requires ItemsWellFormed(items, nextId, users)
    requires k < |items| && rest == items[..k] + items[k + 1..]
    ensures forall it :: it in rest <==> it in items && it.id != items[k].id
  {
    RemovedRow(items, k, rest);
    forall it
      ensures it in rest <==> it in items && it.id != items[k].id
    {
      if it in items && it.id != items[k].id {
        var j :| 0 <= j < |items| && items[j] == it;
        assert rest[if j < k then j else j - 1] == it;
      }
      if it in rest {
        var j :| 0 <= j < |rest| && rest[j] == it;
        assert it == items[if j < k then j else j + 1];
      }
    }
  }

  /** Removing a row keeps the item table well formed. */
  lemma RemovedRowWellFormed(items: seq<Item>, nextId: ItemId, users: seq<User>, k: nat, rest: seq<Item>)
    requires ItemsWellFormed(items, nextId, users)
    requires k < |items| && rest == items[..k] + items[k + 1..]
    ensures ItemsWellFormed(rest, nextId, users)
  {
    RemovedRow(items, k, rest);
    forall i, j | 0 <= i < j < |rest|
      ensures rest[i].id < rest[j].id && rest[i].title != rest[j].title
    {
      assert rest[i] == items[if i < k then i else i + 1];
      assert rest[j] == items[if j < k then j else j + 1];
    }
  }

  /** Deleting removes exactly the item with that id, whoever owns it, keeps the table well
      formed, and a second deletion of the same id finds nothing (404). */
  lemma DeleteRemovesExactlyThatItem(items: seq<Item>, nextId: ItemId, users: seq<User>, id: ItemId)
    requires ItemsWellFormed(items, nextId, users)
    requires DeleteRow(items, id).Ok?
    ensures forall it :: it in DeleteRow(items, id).value <==> it in items && it.id != id
    ensures ItemsWellFormed(DeleteRow(items, id).value, nextId, users)
    ensures DeleteRow(DeleteRow(items, id).value, id) == Err(ItemNotFound(id))
  {
    var k := ItemIndex(items, id).value;
    var rest := items[..k] + items[k + 1..];
    RemovedRowMembers(items, nextId, users, k, rest);
    RemovedRowWellFormed(items, nextId, users, k, rest);
    forall j | 0 <= j < |rest| ensures rest[j].id != id {
      assert rest[j] in rest;
    }
  }

  /** As written, deleting an existing item leaves it in the table, and deleting it again
      succeeds again, where the corrected deletion answers 404
      (`DeleteRemovesExactlyThatItem`). */
  lemma DeleteAsWrittenRemovesNothing(items: seq<Item>, id: ItemId)
    requires DeleteRow(items, id).Ok?
    ensures DeleteRowAsWritten(items, id).Ok?
    ensures exists it :: it in DeleteRowAsWritten(items, id).value && it.id == id
    ensures DeleteRowAsWritten(DeleteRowAsWritten(items, id).value, id).Ok?
  {
    var k := ItemIndex(items, id).value;
    assert items[k] in items;
  }

  /** `delete_item`, as the tests expect it: no ownership check. */
  method DeleteItem(db: Database, current: User, id: ItemId) returns (r: Outcome<ItemError>)
    requires db.Valid()
    modifies db
    ensures db.Valid()
    ensures db.users == old(db.users) && db.tokens == old(db.tokens)
    ensures db.nextUserId == old(db.nextUserId) && db.nextItemId == old(db.nextItemId)
    ensures match DeleteRow(old(db.items), id)
      case Err(e) => r == Fail(e) && db.items == old(db.items)
      case Ok(rest) => r == Pass && db.items == rest
  {
    var found := ItemIndex(db.items, id);
    if found.None? {
      return Fail(ItemNotFound(id));
    }
    DeleteRemovesExactlyThatItem(db.items, db.nextItemId, db.users, id);
    db.items := db.items[..found.value] + db.items[found.value + 1..];
    r := Pass;
  }

  // ---- transfer -------------------------------------------------------------------------

  /** Send: the link for handing `itemId` to the user named `achiever`. The achiever must be
      registered and not the sender, and the item must exist. The signed claims carry no
      expiry. */
  function Send(codec: Codec, secret: Key, users: seq<User>, items: seq<Item>, sender: User,
                itemId: ItemId, achiever: string): (r: Result<Token, ItemError>)
    ensures r == Err(UnknownAchiever(achiever)) <==> forall a :: a in users ==> a.username != achiever
    ensures r == Err(SameUser) <==> UserByName(users, achiever).Some? && UserByName(users, achiever).value.id == sender.id
    ensures r == Err(UnknownItem(itemId)) <==>
      && UserByName(users, achiever).Some? && UserByName(users, achiever).value.id != sender.id
      && forall j :: 0 <= j < |items| ==> items[j].id != itemId
    ensures r.Ok? <==>
      && UserByName(users, achiever).Some? && UserByName(users, achiever).value.id != sender.id
      && exists j :: 0 <= j < |items| && items[j].id == itemId
    ensures r.Ok? ==>
      exists a :: a in users && a.username == achiever && a.id != sender.id &&
        r.value == codec.encode(TransferClaims(sender.id, a.id, itemId), secret)
  {
    match UserByName(users, achiever)
    case None => Err(UnknownAchiever(achiever))
    case Some(a) =>
      if a.id == sender.id then Err(SameUser)
      else if ItemIndex(items, itemId).None? then Err(UnknownItem(itemId))
      else Ok(codec.encode(TransferClaims(sender.id, a.id, itemId), secret))
  }

  /** The result of a successful redemption: the new item table and the item's title. */
  datatype Obtained = Obtained(items: seq<Item>, title: string)

  function ObtainedMessage(title: string): string {
    "You've just obtained " + title
  }

  /** Receive, on the decoded key: a key that does not decode, one without owner, achiever or
      item, one for someone else, a missing item, an item already the requester's, or one that
      has changed hands since the link was made are refused; otherwise the requester becomes
      the owner. */
  function Redeem(items: seq<Item>, requester: UserId, decoded: Option<Claims>): Result<Obtained, ItemError> {
    match decoded
    case None => Err(BadSignature)
    case Some(c) =>
      if c.achiever.None? || c.owner.None? || c.item.None? then Err(InvalidKey)
      else if c.achiever.value != requester then Err(NotYourLink)
      else match ItemIndex(items, c.item.value)
        case None => Err(ItemGone(c.item.value))
        case Some(k) =>
          if items[k].owner == requester then Err(AlreadyYours(items[k].title))
          else if items[k].owner != c.owner.value then Err(OwnerChanged(items[k].title))
          else Ok(Obtained(items[k := items[k].(owner := requester)], items[k].title))
  }

  /** A redemption succeeds only for the link's achiever, on an item still owned by the link's
      owner, and the only change is that item's owner. */
  lemma RedeemSucceedsOnlyIf(items: seq<Item>, requester: UserId, decoded: Option<Claims>)
    requires Redeem(items, requester, decoded).Ok?
    ensures decoded.Some? && decoded.value.achiever == Some(requester)
    ensures exists k ::
      && 0 <= k < |items|
      && decoded.value.item == Some(items[k].id)
      && decoded.value.owner == Some(items[k].owner) && items[k].owner != requester
      && Redeem(items, requester, decoded).value ==
           Obtained(items[k := Item(items[k].id, items[k].title, requester)], items[k].title)
  {
    var k := ItemIndex(items, decoded.value.item.value).value;
    assert items[k].(owner := requester) == Item(items[k].id, items[k].title, requester);
  }

  /** A link is used up by its redemption: afterwards the achiever is told the item is
      already theirs and anyone else that the link is not for them. */
  lemma RedeemIsSingleUse(items: seq<Item>, requester: UserId, decoded: Option<Claims>, other: UserId)
    requires Redeem(items, requester, decoded).Ok?
    ensures Redeem(Redeem(items, requester, decoded).value.items, requester, decoded) ==
      Err(AlreadyYours(Redeem(items, requester, decoded).value.title))
    ensures other != requester ==>
      Redeem(Redeem(items, requester, decoded).value.items, other, decoded) == Err(NotYourLink)
  {
    var c := decoded.value;
    var k := ItemIndex(items, c.item.value).value;
    var after := items[k := items[k].(owner := requester)];
    assert forall j :: 0 <= j < |after| ==> after[j].id == items[j].id;
    assert ItemIndex(after, c.item.value) == Some(k);
  }

  /** A redemption keeps the item table well formed when the requester is registered. */
  lemma RedeemKeepsItemsWellFormed(items: seq<Item>, nextId: ItemId, users: seq<User>,
                                   requester: UserId, decoded: Option<Claims>)
    requires ItemsWellFormed(items, nextId, users)
    requires requester in UserIds(users)
    requires Redeem(items, requester, decoded).Ok?
    ensures ItemsWellFormed(Redeem(items, requester, decoded).value.items, nextId, users)
  {
    var k := ItemIndex(items, decoded.value.item.value).value;
    var after := items[k := items[k].(owner := requester)];
    assert forall j :: 0 <= j < |after| ==> after[j].id == items[j].id && after[j].title == items[j].title;
  }

  /** `receive`: decode the key with the service's secret, then redeem it for the current
      user. */
  method ReceiveItem(db: Database, codec: Codec, secret: Key, now: Time, current: User, key: Token)
    returns (r: Result<string, ItemError>)
    requires db.Valid() && current in db.users
    modifies db
    ensures db.Valid()
    ensures db.users == old(db.users) && db.tokens == old(db.tokens)
    ensures db.nextUserId == old(db.nextUserId) && db.nextItemId == old(db.nextItemId)
    ensures match Redeem(old(db.items), current.id, codec.decode(key, secret, now))
      case Err(e) => r == Err(e) && db.items == old(db.items)
      case Ok(o) => r == Ok(ObtainedMessage(o.title)) && db.items == o.items
  {
    var decoded := codec.decode(key, secret, now);
    if decoded.None? {
      return Err(BadSignature);
    }
    var c := decoded.value;
    if c.achiever.None? || c.owner.None? || c.item.None? {
      return Err(InvalidKey);
    }
    if c.achiever.value != current.id {
      return Err(NotYourLink);
    }
    var found := ItemIndex(db.items, c.item.value);
    if found.None? {
      return Err(ItemGone(c.item.value));
    }
    var k := found.value;
    var item := db.items[k];
    if item.owner == current.id {
      return Err(AlreadyYours(item.title));
    }
    if item.owner != c.owner.value {
      return Err(OwnerChanged(item.title));
    }
    RedeemKeepsItemsWellFormed(db.items, db.nextItemId, db.users, current.id, decoded);
    db.items := db.items[k := item.(owner := current.id)];
    r := Ok(ObtainedMessage(item.title));
  }

  // ---- the transfer protocol end to end -------------------------------------------------

  /** A link made by the owner of an item is redeemed by the named achiever, who becomes the
      owner; the owner following the link is told it is not for them. */
  lemma SendThenReceive(codec: Codec, secret: Key, now: Time, users: seq<User>, items: seq<Item>,
                        sender: User, itemId: ItemId, achiever: User)
    requires codec.Sound()
    requires achiever in users
    requires UserByName(users, achiever.username) == Some(achiever)
    requires Send(codec, secret, users, items, sender, itemId, achiever.username).Ok?
    requires ItemIndex(items, itemId).Some? && items[ItemIndex(items, itemId).value].owner == sender.id
    ensures var link := Send(codec, secret, users, items, sender, itemId, achiever.username).value;
      var k := ItemIndex(items, itemId).value;
      && Redeem(items, achiever.id, codec.decode(link, secret, now)) ==
           Ok(Obtained(items[k := Item(itemId, items[k].title, achiever.id)], items[k].title))
      && Redeem(items, sender.id, codec.decode(link, secret, now)) == Err(NotYourLink)
  {
    var link := Send(codec, secret, users, items, sender, itemId, achiever.username).value;
    var claims := TransferClaims(sender.id, achiever.id, itemId);
    assert link == codec.encode(claims, secret);
    assert codec.decode(link, secret, now) == Some(claims);
    var k := ItemIndex(items, itemId).value;
    assert items[k].(owner := achiever.id) == Item(itemId, items[k].title, achiever.id);
  }

  /** A transfer link never expires: it decodes to the same claims at every moment. */
  lemma LinkNeverExpires(codec: Codec, secret: Key, users: seq<User>, items: seq<Item>,
                         sender: User, itemId: ItemId, achiever: string, t1: Time, t2: Time)
    requires codec.Sound()
    requires Send(codec, secret, users, items, sender, itemId, achiever).Ok?
    ensures var link := Send(codec, secret, users, items, sender, itemId, achiever).value;
      codec.decode(link, secret, t1) == codec.decode(link, secret, t2) != None
  {
    var a := UserByName(users, achiever).value;
    var claims := TransferClaims(sender.id, a.id, itemId);
    assert Live(claims, t1) && Live(claims, t2);
  }

  /** A key signed under another secret is refused at the signature, before any ownership
      check. */
  lemma ForeignKeyRefused(codec: Codec, secret: Key, other: Key, now: Time, items: seq<Item>,
                          requester: UserId, claims: Claims)
    requires codec.Sound()
    requires other != secret
    ensures Redeem(items, requester, codec.decode(codec.encode(claims, other), secret, now)) == Err(BadSignature)
  {
  }

  /** A key that is not a token signed under the service's secret, whether junk such as
      `"a"`, `"1"` or `" "`, a truncated token or one whose payload was tampered with, is
      refused at the signature (401), before any ownership check. */
  lemma UnsignedKeyRefused(codec: Codec, secret: Key, now: Time, items: seq<Item>,
                           requester: UserId, key: Token)
    requires codec.Sound()
    requires forall c :: codec.encode(c, secret) != key
    ensures codec.decode(key, secret, now) == None
    ensures Redeem(items, requester, codec.decode(key, secret, now)) == Err(BadSignature)
  {
  }

  /** A live session token presented as a transfer key is an invalid key (400). */
  lemma SessionTokenIsNotAKey(codec: Codec, secret: Key, now: Time, items: seq<Item>,
                              requester: UserId, userId: UserId, exp: Time)
    requires codec.Sound()
    requires now < exp
    ensures Redeem(items, requester, codec.decode(codec.encode(SessionClaims(userId, exp), secret), secret, now)) ==
      Err(InvalidKey)
  {
    assert Live(SessionClaims(userId, exp), now);
  }
}
