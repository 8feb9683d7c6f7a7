/** The scenarios of the test suite (tests/), stated over the model. The test database holds
    `testuser1` (password `Qwerty123_`) and `testuser2` (password `Qwerty123-`), and the items
    `item1-1`, `item1-2` of the first and `item2-1`, `item2-2` of the second. */
module Scenarios {
  import opened Shared
  import opened Jwt
  import opened Models
  import opened Validation
  import opened Authentication
  import opened Items

  function TestUsers(hasher: Hasher, salt: Salt): seq<User>
    requires hasher.Sound()
  {
    [NewUser(hasher, 1, "testuser1", "Qwerty123_", salt), NewUser(hasher, 2, "testuser2", "Qwerty123-", salt)]
  }

  function TestItems(): seq<Item> {
    [Item(1, "item1-1", 1), Item(2, "item1-2", 1), Item(3, "item2-1", 2), Item(4, "item2-2", 2)]
  }

  /** The registration test's accepted password. */
  lemma AcceptedTestPassword()
    ensures ValidatePassword("Qwerty123_") == Pass
  {
    var s := "Qwerty123_";
    assert AllFrom(s, 5, IsAscii);
  }

  /** The registration test's passwords without a letter, as the password rules see them.
      The empty one never reaches those rules in a request: `validate` refuses it first as
      missing credentials, whatever the user table holds. */
  lemma NoLetterPasswords()
    ensures forall users :: Validate(Some(Credentials("username", "")), users) == Fail(MissingCredentials)
    ensures ValidatePassword("") == Fail(Letters)
    ensures ValidatePassword(" ") == Fail(Letters)
    ensures ValidatePassword("  ") == Fail(Letters)
    ensures ValidatePassword("              ") == Fail(Letters)
    ensures ValidatePassword("1") == Fail(Letters)
    ensures ValidatePassword("1234567") == Fail(Letters)
    ensures ValidatePassword("12345678") == Fail(Letters)
    ensures ValidatePassword("1.3<5[6]7") == Fail(Letters)
    ensures ValidatePassword(",./<>?';:") == Fail(Letters)
  {
    WeakPasswordCase1();
    WeakPasswordCase2();
    WeakPasswordCase3();
    WeakPasswordCase4();
    WeakPasswordCase5();
    WeakPasswordCase6();
    WeakPasswordCase7();
    WeakPasswordCase8();
    WeakPasswordCase9();
  }

  /** The registration test's passwords shorter than 8 or longer than 14 characters. */
  lemma OutOfRangeLengthPasswords()
    ensures ValidatePassword("a") == Fail(Length)
    ensures ValidatePassword("q1!W2@e") == Fail(Length)
    ensures ValidatePassword("q1!W2@e3#R4$t5%") == Fail(Length)
    ensures ValidatePassword("\U{0430}") == Fail(Length)
  {
    WeakPasswordCase10();
    WeakPasswordCase11();
    WeakPasswordCase12();
    WeakPasswordCase13();
  }

  /** The registration test's passwords with a character outside ASCII. */
  lemma NonAsciiPasswords()
    ensures ValidatePassword("\U{0430}\U{0431}\U{0432}\U{0433}@\U{0434}.\U{0415}1") == Fail(Ascii)
    ensures ValidatePassword("\U{0430}\U{0431}\U{0432}\U{0433}@\U{0434}.Z1") == Fail(Ascii)
    ensures ValidatePassword("q1!W2@\U{00EA}3#R") == Fail(Ascii)
  {
    WeakPasswordCase14();
    WeakPasswordCase15();
    WeakPasswordCase16();
  }

  /** The registration test's passwords without a digit. */
  lemma NoDigitPasswords()
    ensures ValidatePassword("abcdefhg") == Fail(Digits)
    ensures ValidatePassword("a.b!c@d#e%f&") == Fail(Digits)
    ensures ValidatePassword("A.b!c@d#e%f&") == Fail(Digits)
  {
    WeakPasswordCase17();
    WeakPasswordCase18();
    WeakPasswordCase19();
  }

  /** The registration test's passwords without punctuation. */
  lemma NoPunctuationPasswords()
    ensures ValidatePassword("abcdefg1") == Fail(Punctuation)
    ensures ValidatePassword("Abcdefg1") == Fail(Punctuation)
    ensures ValidatePassword("1234567a") == Fail(Punctuation)
  {
    WeakPasswordCase20();
    WeakPasswordCase21();
    WeakPasswordCase22();
  }

  /** The registration test's passwords whose letters are all in one case. */
  lemma SingleCasePasswords()
    ensures ValidatePassword("1234567a.") == Fail(Case)
    ensures ValidatePassword("1234567A.") == Fail(Case)
    ensures ValidatePassword("abcdef1.") == Fail(Case)
    ensures ValidatePassword("ABCDEF1.") == Fail(Case)
  {
    WeakPasswordCase23();
    WeakPasswordCase24();
    WeakPasswordCase25();
    WeakPasswordCase26();
  }

  // The proof steps of the six lemmas above: `WeakPasswordCase1` to `WeakPasswordCase26` each
  // evaluate one refused password, in the test's order, so that each literal is its own proof
  // obligation. The facts they state are the ones listed above; the assertion in the longer
  // ones evaluates the second half of the string first.

  lemma WeakPasswordCase1()
    ensures ValidatePassword("") == Fail(Letters)
  {
  }

  lemma WeakPasswordCase2()
    ensures ValidatePassword(" ") == Fail(Letters)
  {
  }

  lemma WeakPasswordCase3()
    ensures ValidatePassword("  ") == Fail(Letters)
  {
  }

  lemma WeakPasswordCase4()
    ensures ValidatePassword("              ") == Fail(Letters)
  {
    var s := "              ";
    assert !AnyFrom(s, 7, IsLetter);
  }

  lemma WeakPasswordCase5()
    ensures ValidatePassword("1") == Fail(Letters)
  {
  }

  lemma WeakPasswordCase6()
    ensures ValidatePassword("1234567") == Fail(Letters)
  {
  }

  lemma WeakPasswordCase7()
    ensures ValidatePassword("12345678") == Fail(Letters)
  {
    var s := "12345678";
    assert !AnyFrom(s, 4, IsLetter);
  }

  lemma WeakPasswordCase8()
    ensures ValidatePassword("1.3<5[6]7") == Fail(Letters)
  {
    var s := "1.3<5[6]7";
    assert !AnyFrom(s, 4, IsLetter);
  }

  lemma WeakPasswordCase9()
    ensures ValidatePassword(",./<>?';:") == Fail(Letters)
  {
    var s := ",./<>?';:";
    assert !AnyFrom(s, 4, IsLetter);
  }

  lemma WeakPasswordCase10()
    ensures ValidatePassword("a") == Fail(Length)
  {
  }

  lemma WeakPasswordCase11()
    ensures ValidatePassword("q1!W2@e") == Fail(Length)
  {
  }

  lemma WeakPasswordCase12()
    ensures ValidatePassword("q1!W2@e3#R4$t5%") == Fail(Length)
  {
  }

  lemma WeakPasswordCase13()
    ensures ValidatePassword("\U{0430}") == Fail(Length)
  {
  }

  lemma WeakPasswordCase14()
    ensures ValidatePassword("\U{0430}\U{0431}\U{0432}\U{0433}@\U{0434}.\U{0415}1") == Fail(Ascii)
  {
  }

  lemma WeakPasswordCase15()
    ensures ValidatePassword("\U{0430}\U{0431}\U{0432}\U{0433}@\U{0434}.Z1") == Fail(Ascii)
  {
  }

  lemma WeakPasswordCase16()
    ensures ValidatePassword("q1!W2@\U{00EA}3#R") == Fail(Ascii)
  {
  }

  lemma WeakPasswordCase17()
    ensures ValidatePassword("abcdefhg") == Fail(Digits)
  {
    var s := "abcdefhg";
    assert AllFrom(s, 4, IsAscii);
    assert !AnyFrom(s, 4, IsDigit);
  }

  lemma WeakPasswordCase18()
    ensures ValidatePassword("a.b!c@d#e%f&") == Fail(Digits)
  {
    var s := "a.b!c@d#e%f&";
    assert AllFrom(s, 6, IsAscii);
    assert !AnyFrom(s, 6, IsDigit);
  }

  lemma WeakPasswordCase19()
    ensures ValidatePassword("A.b!c@d#e%f&") == Fail(Digits)
  {
    var s := "A.b!c@d#e%f&";
    assert AllFrom(s, 6, IsAscii);
    assert !AnyFrom(s, 6, IsDigit);
  }

  lemma WeakPasswordCase20()
    ensures ValidatePassword("abcdefg1") == Fail(Punctuation)
  {
    var s := "abcdefg1";
    assert AllFrom(s, 4, IsAscii);
    assert !AnyFrom(s, 4, IsPunctuation);
  }

  lemma WeakPasswordCase21()
    ensures ValidatePassword("Abcdefg1") == Fail(Punctuation)
  {
    var s := "Abcdefg1";
    assert AllFrom(s, 4, IsAscii);
    assert !AnyFrom(s, 4, IsPunctuation);
  }

  lemma WeakPasswordCase22()
    ensures ValidatePassword("1234567a") == Fail(Punctuation)
  {
    var s := "1234567a";
    assert AllFrom(s, 4, IsAscii);
    assert !AnyFrom(s, 4, IsPunctuation);
  }

  lemma WeakPasswordCase23()
    ensures ValidatePassword("1234567a.") == Fail(Case)
  {
    var s := "1234567a.";
    assert AllFrom(s, 4, IsAscii);
    assert !AnyFrom(s, 4, IsAsciiUpper);
  }

  lemma WeakPasswordCase24()
    ensures ValidatePassword("1234567A.") == Fail(Case)
  {
    var s := "1234567A.";
    assert AllFrom(s, 4, IsAscii);
    assert !AnyFrom(s, 4, IsAsciiLower);
  }

  lemma WeakPasswordCase25()
    ensures ValidatePassword("abcdef1.") == Fail(Case)
  {
    var s := "abcdef1.";
    assert AllFrom(s, 4, IsAscii);
    assert !AnyFrom(s, 4, IsAsciiUpper);
  }

  lemma WeakPasswordCase26()
    ensures ValidatePassword("ABCDEF1.") == Fail(Case)
  {
    var s := "ABCDEF1.";
    assert AllFrom(s, 4, IsAscii);
    assert !AnyFrom(s, 4, IsAsciiLower);
  }

  /** The registration test's empty and weak credentials against the test database. */
  lemma RegistrationRefusals(hasher: Hasher, salt: Salt)
    requires hasher.Sound()
    ensures var users := TestUsers(hasher, salt);
      && Validate(Some(Credentials("", "")), users) == Fail(MissingCredentials)
      && Validate(Some(Credentials("testuser1", "")), users) == Fail(MissingCredentials)
      && Validate(Some(Credentials("", "Qwerty123_")), users) == Fail(MissingCredentials)
      && Validate(Some(Credentials(" ", " ")), users) == Fail(WeakPassword(Letters))
  {
    WeakPasswordCase2();
    var users := TestUsers(hasher, salt);
    assert users[0].username == "testuser1" && users[1].username == "testuser2";
    assert UserByName(users, " ").None?;
  }

  /** The registration test's registered usernames are taken. */
  lemma RegisteredUsernamesTaken(hasher: Hasher, salt: Salt)
    requires hasher.Sound()
    ensures var users := TestUsers(hasher, salt);
      && Validate(Some(Credentials("testuser1", "Qwerty123_")), users) == Fail(UsernameTaken("testuser1"))
      && Validate(Some(Credentials("testuser2", "Qwerty123_")), users) == Fail(UsernameTaken("testuser2"))
  {
    var users := TestUsers(hasher, salt);
    assert users[0].username == "testuser1" && users[1].username == "testuser2";
  }

  /** The registration test's new user passes validation. */
  lemma NewUsernameAccepted(hasher: Hasher, salt: Salt)
    requires hasher.Sound()
    ensures Validate(Some(Credentials("newtestuser1", "Qwerty123_")), TestUsers(hasher, salt)) == Pass
  {
    AcceptedTestPassword();
    var users := TestUsers(hasher, salt);
    assert users[0].username == "testuser1" && users[1].username == "testuser2";
    assert UserByName(users, "newtestuser1").None?;
    FreshNameAccepted(users, "newtestuser1", "Qwerty123_");
  }

  lemma FreshNameAccepted(users: seq<User>, name: string, password: string)
    requires name != "" && UserByName(users, name).None? && ValidatePassword(password) == Pass
    ensures Validate(Some(Credentials(name, password)), users) == Pass
  {
  }

  /** The login test's credentials against the test database. */
  lemma LoginTable(hasher: Hasher, salt: Salt)
    requires hasher.Sound()
    ensures var users := TestUsers(hasher, salt);
      && AuthenticateUser(hasher, users, BasicCredentials("testuser1", "Qwerty123_")) == Ok(users[0])
      && AuthenticateUser(hasher, users, BasicCredentials("user1", "Qwerty123_")) == Err(NotRegistered("user1"))
      && AuthenticateUser(hasher, users, BasicCredentials(" ", "Qwerty123_")) == Err(NotRegistered(" "))
      && AuthenticateUser(hasher, users, BasicCredentials("testuser1", " ")) == Err(WrongPassword)
      && AuthenticateUser(hasher, users, BasicCredentials("testuser1", "qwerty123_")) == Err(WrongPassword)
  {
    var users := TestUsers(hasher, salt);
    assert users[0].username == "testuser1" && users[1].username == "testuser2";
    assert VerifyPassword(hasher, "Qwerty123_", users[0].password);
  }

  /** The send test's refusals of items that do not exist. */
  lemma SendUnknownItems(codec: Codec, secret: Key, hasher: Hasher, salt: Salt)
    requires hasher.Sound()
    ensures var users := TestUsers(hasher, salt);
      && Send(codec, secret, users, TestItems(), users[0], -1, "testuser2") == Err(UnknownItem(-1))
      && Send(codec, secret, users, TestItems(), users[0], 0, "testuser2") == Err(UnknownItem(0))
      && Send(codec, secret, users, TestItems(), users[0], 10, "testuser2") == Err(UnknownItem(10))
  {
    var users := TestUsers(hasher, salt);
    assert users[0].username == "testuser1" && users[1].username == "testuser2";
    assert UserByName(users, "testuser2") == Some(users[1]);
  }

  /** The send test's refusals of achievers that are not registered or are the sender. */
  lemma SendUnknownAchievers(codec: Codec, secret: Key, hasher: Hasher, salt: Salt)
    requires hasher.Sound()
    ensures var users := TestUsers(hasher, salt);
      && Send(codec, secret, users, TestItems(), users[0], 1, "user1") == Err(UnknownAchiever("user1"))
      && Send(codec, secret, users, TestItems(), users[0], 1, "one") == Err(UnknownAchiever("one"))
      && Send(codec, secret, users, TestItems(), users[0], 1, "-1") == Err(UnknownAchiever("-1"))
      && Send(codec, secret, users, TestItems(), users[0], 1, "0") == Err(UnknownAchiever("0"))
      && Send(codec, secret, users, TestItems(), users[0], 1, "10") == Err(UnknownAchiever("10"))
      && Send(codec, secret, users, TestItems(), users[0], 1, "\n") == Err(UnknownAchiever("\n"))
      && Send(codec, secret, users, TestItems(), users[0], 1, "") == Err(UnknownAchiever(""))
      && Send(codec, secret, users, TestItems(), users[0], 1, " ") == Err(UnknownAchiever(" "))
      && Send(codec, secret, users, TestItems(), users[0], 1, "testuser1") == Err(SameUser)
  {
    var users := TestUsers(hasher, salt);
    assert users[0].username == "testuser1" && users[1].username == "testuser2";
  }

  /** The link `testuser1` gets for sending item 1 to `testuser2`. */
  lemma TestLink(codec: Codec, secret: Key, hasher: Hasher, salt: Salt)
    requires hasher.Sound()
    ensures var users := TestUsers(hasher, salt);
      Send(codec, secret, users, TestItems(), users[0], 1, "testuser2") ==
        Ok(codec.encode(TransferClaims(1, 2, 1), secret))
  {
    var users := TestUsers(hasher, salt);
    assert users[0].username == "testuser1" && users[1].username == "testuser2";
    assert UserByName(users, "testuser2") == Some(users[1]);
    assert ItemIndex(TestItems(), 1) == Some(0);
  }

  /** The exchange test with the claims of that link: following it as `testuser1` is
      forbidden, `testuser2` obtains the item, and a second visit is refused. */
  lemma ExchangeWithTestClaims()
    ensures var key := Some(TransferClaims(1, 2, 1));
      && Redeem(TestItems(), 1, key) == Err(NotYourLink)
      && NotYourLink.Status() == 403 && NotYourLink.Detail() == Some("Sorry, this link isn't for you")
      && Redeem(TestItems(), 2, key) == Ok(Obtained([Item(1, "item1-1", 2)] + TestItems()[1..], "item1-1"))
      && ObtainedMessage(Redeem(TestItems(), 2, key).value.title) == "You've just obtained item1-1"
      && Redeem(Redeem(TestItems(), 2, key).value.items, 2, key) == Err(AlreadyYours("item1-1"))
      && AlreadyYours("item1-1").Detail() == Some("Item item1-1 is already yours")
  {
    var key := Some(TransferClaims(1, 2, 1));
    var items := TestItems();
    assert ItemIndex(items, 1) == Some(0);
    assert items[0 := items[0].(owner := 2)] == [Item(1, "item1-1", 2)] + items[1..];
    RedeemIsSingleUse(items, 2, key, 1);
    assert "Item " + "item1-1" + " is already yours" == "Item item1-1 is already yours";
  }

  /** The exchange test: the link `testuser1` sends to `testuser2` for item 1 decodes, at any
      moment, to the claims above. */
  lemma ExchangeFlow(codec: Codec, secret: Key, now: Time, hasher: Hasher, salt: Salt)
    requires codec.Sound() && hasher.Sound()
    ensures var users := TestUsers(hasher, salt);
      var link := Send(codec, secret, users, TestItems(), users[0], 1, "testuser2");
      link.Ok? && codec.decode(link.value, secret, now) == Some(TransferClaims(1, 2, 1))
  {
    TestLink(codec, secret, hasher, salt);
  }

  /** The invalid-key test: a live session token of `testuser1` used as a transfer key. */
  lemma SessionTokenAsKey(codec: Codec, secret: Key, now: Time)
    requires codec.Sound()
    ensures var key := codec.encode(SessionClaims(1, now + 60), secret);
      && Redeem(TestItems(), 1, codec.decode(key, secret, now)) == Err(InvalidKey)
      && InvalidKey.Status() == 400 && InvalidKey.Detail() == Some("Invalid key")
  {
    SessionTokenIsNotAKey(codec, secret, now, TestItems(), 1, 1, now + 60);
  }

  /** The create test: the same title twice fails the second time with 400. */
  method CreateSameTitleTwice(db: Database, current: User, title: string)
    returns (first: Result<string, ItemError>, second: Result<string, ItemError>)
    requires db.Valid() && current in db.users
    modifies db
    ensures second == Err(TitleTaken(title)) && second.error.Status() == 400
  {
    first := CreateNewItem(db, current, title);
    if first.Ok? {
      assert db.items[|db.items| - 1].title == title;
    }
    second := CreateNewItem(db, current, title);
  }

  /** The delete test: deleting an existing item succeeds, whoever owns it; deleting it again
      is answered with 404. */
  method DeleteTwice(db: Database, current: User, id: ItemId)
    returns (first: Outcome<ItemError>, second: Outcome<ItemError>)
    requires db.Valid()
    requires exists j :: 0 <= j < |db.items| && db.items[j].id == id
    modifies db
    ensures first == Pass
    ensures second == Fail(ItemNotFound(id)) && second.error.Status() == 404
  {
    first := DeleteItem(db, current, id);
    DeleteRemovesExactlyThatItem(old(db.items), db.nextItemId, db.users, id);
    second := DeleteItem(db, current, id);
  }
}
