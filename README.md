# Item exchange service: a Dafny model

This project models the core of a small web service in which registered users own items and
hand them to one another. A user registers with a username and a password that must pass six
strength rules. The user then logs in and receives a signed session token; only the latest
token of each user is accepted. The login view itself is a stub in the source, so the model
assumes that login checks the credentials with `authenticate_user`, the HTTP Basic check. With it the user lists, creates and
deletes items. To give an item away, the owner asks for a signed transfer link naming the
recipient (the "achiever"), and the achiever follows the link to become the new owner.

The model is written in Dafny in the shape of the source:

- `shared.dfy` (`Shared`): `Option`, `Result`, `Outcome`, and `FirstWhere`, which is what a
  filtered query followed by `.first()` returns over a table kept in insertion order.
- `jwt.dfy` (`Jwt`): the token claims, and the signing codec as a pair of functions with the
  properties the service relies on (`Codec.Sound`).
- `models.dfy` (`Models`): the `user`, `object` and `user_token` tables, the password hasher
  (`Hasher.Sound`), the lookups, the table constraints, and the mutable store as the class
  `Database`. The tables are `seq` fields in insertion order. The token table is a `map` with
  one slot per user.
- `validation.dfy` (`Validation`): the registration validators. These are pure functions, and
  the rules are evaluated in the source's order.
- `authentication.dfy` (`Authentication`): the HTTP Basic check and the bearer-token check,
  as functions over the tables.
- `sessions.dfy` (`Sessions`): a login that stores the new token in the user's single slot.
- `items.dfy` (`Items`): listing, then creation and deletion as methods on `Database`. It
  also holds the transfer: `Send` builds the link and `Redeem` specifies the receipt, which
  the method `ReceiveItem` performs on the store.
- `registration.dfy` (`Registration`): registration as a method on `Database`.
- `scenarios.dfy` (`Scenarios`): the test suite's fixtures and expectations, stated as lemmas
  over the model.

The state-changing operations `CreateNewItem`, `DeleteItem`, `ReceiveItem`, `RegisterUser`
and `Login` are methods. Each takes the `Database` and `modifies` it. Each keeps
`Database.Valid` and states its new state in terms of the old state and of the specification
function that governs it (`TitleStored`, `DeleteRow`, `Redeem`, `Validate` or
`AuthenticateUser`).

## Model

| member | source | states |
|---|---|---|
| Shared.FirstWhere | validators/authentication.py:31-34 | `.first()` on a filtered query: the index of a matching row with no match before it, or none exactly when no row matches |
| Jwt.SoundCodecExists | validators/authentication.py:62-63 | the assumptions made of the signing codec (`Codec.Sound`), including that only tokens signed under a key decode under it, can all be met by one codec |
| Models.GetPasswordHash | database/models.py:36-38 | `get_password_hash`: the hasher's digest of the password under a salt; no contract of its own, its properties are `Hasher.Sound`, stated by `Models.NewUser` and met by `Models.MarkerHasherIsSound` |
| Models.VerifyPassword | database/models.py:32-34 | `verify_password(plain, hashed)`: whether the digest verifies the plaintext; no contract of its own, stated by `Models.NewUser` and `Authentication.OtherPasswordRefused` |
| Models.NewUser | database/models.py:27-30 | a new user keeps its id and username and stores a digest that differs from the password, verifies the password, and verifies no other plaintext |
| Models.MarkerHasherIsSound | database/models.py:32-38 | the hasher assumptions (a digest verifies its own plaintext only and differs from it) can be met |
| Models.UserByName | validators/authentication.py:31-34 | the user found has the name and is in the table; none is found exactly when no user has the name |
| Models.UserById | validators/authentication.py:74-77 | the user found has the id and is in the table; none is found exactly when no user has the id |
| Models.ItemIndex | views/items.py:49-52 | the row found has the id; none is found exactly when no row has the id |
| Models.TitleStored | views/items.py:31-35 | whether any item, of any owner, has the title; no contract of its own, stated by `Items.FreshTitleKeepsTitlesUnique` and `Items.CreateNewItem` |
| Models.UniqueUsernames | validators/validation.py:31-39 | no two rows of the user table share a username, which the username check before every insertion maintains; kept by `Registration.RegistrationKeepsStoreConsistent` |
| Models.UniqueTitles | views/items.py:31-36 | no two items, of any owners, share a title, which the title check before every creation maintains; kept by `Items.FreshTitleKeepsTitlesUnique` |
| Models.UsersWellFormed | database/models.py:23-25 | the `user` table: auto-incremented positive ids below the next id and increasing in insertion order, non-empty usernames, and unique usernames; kept by `Registration.RegistrationKeepsStoreConsistent` |
| Models.ItemsWellFormed | database/models.py:48-50 | the `object` table: auto-incremented positive ids increasing in insertion order, a non-null `user_id` naming a registered user, and globally unique titles; kept by `Items.FreshTitleKeepsTitlesUnique`, `Items.RemovedRowWellFormed` and `Items.RedeemKeepsItemsWellFormed` |
| Models.TokensWellFormed | database/models.py:67-68 | the `user_token` table: at most one token per user (its `user_id` is unique) and every key a registered user; kept by `Registration.RegistrationKeepsStoreConsistent` and `Sessions.Login` |
| Models.Consistent | database/models.py:23-68 | the three table constraints together, over the tables and the next ids |
| Models.Database.Valid | database/models.py:23-68 | the store satisfies `Consistent`; every method on the store requires it and ensures `db.Valid()` again (`CreateNewItem`, `DeleteItem`, `ReceiveItem`, `RegisterUser`, `Login`) |
| Models.ItemIndexIsTheRow | database/models.py:48 | ids are unique in a well-formed item table, so a lookup by a row's id finds that row |
| Models.Database.constructor | database/models.py:75 | a freshly created store has empty tables and satisfies every table constraint |
| Validation.HasLetter | validators/validation.py:81-87 | `__check_letters`: some character is a letter; no contract of its own, stated by `Validation.AnyMeansSome` |
| Validation.IsLetter | validators/validation.py:85 | `category(c).startswith("L")`; no contract of its own (exact on ASCII, see Left out) |
| Validation.LengthInRange | validators/validation.py:67-71 | `__check_len`: 8 to 14 characters; no contract of its own, stated by `Validation.AcceptedPasswordShape` |
| Validation.IsAsciiText | validators/validation.py:60-64 | `__check_ascii`: every character is ASCII; no contract of its own, stated by `Validation.AllMeansEvery` |
| Validation.HasDigit | validators/validation.py:74-78 | `__check_nums`: some character matches `\d`; no contract of its own, stated by `Validation.AnyMeansSome` |
| Validation.IsDigit | validators/validation.py:76 | `\d` on one character; no contract of its own (exact on ASCII, see Left out) |
| Validation.HasPunctuation | validators/validation.py:90-94 | `__check_punctuation`: some character is a non-word character (`\W`) or the underscore; no contract of its own, stated by `Validation.AnyMeansSome` |
| Validation.IsPunctuation | validators/validation.py:92 | the `\W` or `_` pattern on one character: not a letter or digit, or the underscore; no contract of its own |
| Validation.HasMixedCase | validators/validation.py:97-101 | `__check_case`; no contract of its own, proved equal to the source's `upper()`/`lower()` test by `Validation.CaseRuleIsUpperLowerCheck` |
| Validation.Upper | validators/validation.py:99 | `str.upper()`; no contract of its own, stated by `Validation.UpperChangesIffLowercase` |
| Validation.Lower | validators/validation.py:99 | `str.lower()`; no contract of its own, stated by `Validation.LowerChangesIffUppercase` |
| Validation.AnyMeansSome | validators/validation.py:85 | `any(...)` over a string holds exactly when some character satisfies the predicate |
| Validation.AllMeansEvery | validators/validation.py:62 | `all(...)` over a string holds exactly when every character satisfies the predicate |
| Validation.UpperChangesIffLowercase | validators/validation.py:99 | `upper()` keeps the length and changes the string exactly when it holds a lower-case letter |
| Validation.LowerChangesIffUppercase | validators/validation.py:99 | `lower()` keeps the length and changes the string exactly when it holds an upper-case letter |
| Validation.CaseRuleIsUpperLowerCheck | validators/validation.py:97-101 | the password holds an upper-case and a lower-case letter exactly when it differs from both its `upper()` and its `lower()` |
| Validation.ValidatePassword | validators/validation.py:42-57 | `__validate_password`: the six rules in source order, the first failing one refusing; no contract of its own, stated by `Validation.PasswordAcceptedIffAllRules` and `Validation.ReportedRuleIsFirstFailing` |
| Validation.PasswordAcceptedIffAllRules | validators/validation.py:42-57 | a password is accepted exactly when all six rules hold |
| Validation.ReportedRuleIsFirstFailing | validators/validation.py:45-53 | the rule reported is failing, and every rule before it in the order letters, length, ASCII, digit, punctuation, case holds (both directions) |
| Validation.AcceptedPasswordShape | validators/validation.py:60-101 | an accepted password has 8 to 14 characters, all ASCII, with a letter, a digit, a punctuation sign or underscore, an upper-case and a lower-case letter |
| Validation.ValidateUsername | validators/validation.py:31-39 | `__validate_username`: refused as taken exactly when a user has the name; no contract of its own, stated by `Validation.TakenUsernameRejectedFirst` and `Validation.ValidateAcceptsIff` |
| Validation.ValidateCredentials | validators/validation.py:19-28 | `__validate`: the username check, then the password rules; no contract of its own, stated by `Validation.TakenUsernameRejectedFirst` and `Validation.ValidateAcceptsIff` |
| Validation.Validate | validators/validation.py:104-111 | `validate`: missing credentials first, then `__validate`; no contract of its own, stated by `Validation.MissingCredentialsDecideAlone` and `Validation.ValidateAcceptsIff` |
| Validation.MissingCredentialsDecideAlone | validators/validation.py:104-108 | absent or empty credentials are refused with the missing-credentials error exactly then, whatever the user table holds |
| Validation.TakenUsernameRejectedFirst | validators/validation.py:19-39 | a taken username is refused as taken before any password rule runs |
| Validation.ValidateAcceptsIff | validators/validation.py:104-111 | credentials pass exactly when both fields are non-empty, the username is free and all six rules hold |
| Validation.RuleMessage | validators/validation.py:60-101 | each rule's message text after "Weak password: "; no contract of its own, stated by `Validation.RuleMessageIdentifiesRule` |
| Validation.Message | validators/validation.py:19-111 | the `ValidationError` text of each refusal; no contract of its own, stated by `Validation.MessageIdentifiesError` |
| Validation.RuleMessageIdentifiesRule | validators/validation.py:60-101 | distinct rules carry distinct messages |
| Validation.MessageIdentifiesError | validators/validation.py:19-111 | distinct validation errors carry distinct messages, so the message tells which check failed |
| Authentication.AuthError.Status | validators/authentication.py:24-72 | every refusal of the two guards is 401; only the `TypeError` of the code as written (`ServerError`) is 500; stated for the bearer guard by `Authentication.TokenRefusalIsUnauthorized` and for the intended Basic check by `Authentication.AuthenticateUser` |
| Authentication.AuthenticateUser | validators/authentication.py:18-48 | empty fields and an unknown username each give their 401 refusal exactly when they occur; a registered name whose stored digest does not verify the password gives the wrong-password 401 exactly then; success happens exactly when the digest verifies, and returns the stored user with that name |
| Authentication.AuthenticateUserAsWritten | validators/authentication.py:18-48 | `authenticate_user` as written, where the one-argument `verify_password` call raises; no contract of its own, stated by `Authentication.AsWrittenNoLoginSucceeds` |
| Authentication.AsWrittenNoLoginSucceeds | validators/authentication.py:43 | as written, no credentials ever authenticate: wherever the intended check accepts, a server error is raised |
| Authentication.RegisteredPasswordAuthenticates | validators/authentication.py:31-48 | a registered user presenting a password their digest verifies is authenticated as that user |
| Authentication.OtherPasswordRefused | validators/authentication.py:43-46 | any other non-empty password than the one the digest was made from is refused as wrong |
| Authentication.GetCurrentUser | validators/authentication.py:51-87 | `get_current_user`; no contract of its own, stated by `Authentication.CurrentUserIff`, `Authentication.OneLiveTokenPerUser` and `Authentication.TokenRefusalIsUnauthorized` |
| Authentication.CurrentUserIff | validators/authentication.py:51-87 | a bearer token yields user `u` exactly when it decodes to claims naming `u`'s id and is the non-empty token stored for `u` |
| Authentication.OneLiveTokenPerUser | validators/authentication.py:81-86 | two tokens accepted for the same user are the same token |
| Authentication.TokenRefusalIsUnauthorized | validators/authentication.py:57-79 | every refusal of a bearer token is a 401 |
| Sessions.Login | database/models.py:58-68 | a login stores the newly signed token in the user's single slot; a refused login changes nothing |
| Sessions.IssuedTokenAuthenticates | database/models.py:58-63 | a token just stored for a user authenticates that user while it is live |
| Sessions.NewTokenSupersedesOld | database/models.py:61-63 | once a new token is stored, the earlier token is refused even if it is still live |
| Sessions.LaterLoginIssuesNewToken | database/models.py:62 | logins with different expiry times issue different tokens |
| Items.ItemError.Status | views/items.py:36 | a stored title is 400, as are the tested transfer refusals; a missing item is 404, a bad signature 401, someone else's link 403 |
| Items.ItemError.Detail | views/items.py:36 | the `detail` texts: "<title> has been already stored", and the tested "Invalid key", "Sorry, this link isn't for you" and "Item <title> is already yours" (tests/test_api/test_items.py:211, 222, 258); stated for the fixture by `Scenarios.ExchangeWithTestClaims` and `Scenarios.SessionTokenAsKey` |
| Items.OwnedEntries | views/items.py:19-21 | the `(id, title)` rows of the user's items in table order; no contract of its own, stated by `Items.OwnedEntriesExact` |
| Items.GetItems | views/items.py:14-22 | `get_items`: the key `"<username> items"` and the user's rows; no contract of its own, stated by `Items.OwnedEntriesExact` |
| Items.OwnedEntriesExact | views/items.py:14-22 | the listing holds an `(id, title)` pair exactly when the user owns an item with that id and title |
| Items.FreshTitleKeepsTitlesUnique | views/items.py:31-42 | adding an item whose title is not stored keeps titles unique, and the title is stored afterwards |
| Items.CreateNewItem | views/items.py:25-42 | a stored title, under any owner, is refused with 400 and changes nothing; otherwise exactly one item owned by the current user is appended under the next id |
| Items.DeleteRow | views/items.py:45-54 | the deletion the tests expect: the row with that id removed, or 404; no contract of its own, stated by `Items.DeleteRemovesExactlyThatItem` |
| Items.DeleteRowAsWritten | views/items.py:53-54 | the deletion as written, which removes nothing; no contract of its own, stated by `Items.DeleteAsWrittenRemovesNothing` |
| Items.RemovedRowWellFormed | views/items.py:45-54 | removing a row keeps the item table's ids increasing, titles unique and owners registered |
| Items.DeleteRemovesExactlyThatItem | views/items.py:45-54 | deletion removes the item with that id and no other, whoever owns it, keeps the table well formed, and a second deletion gets 404 |
| Items.DeleteAsWrittenRemovesNothing | views/items.py:53-54 | as written, an existing item is still in the table after its deletion, and deleting it again does not give 404 |
| Items.DeleteItem | views/items.py:45-54 | the store's item table becomes the table with that row removed, or stays unchanged with a 404 when no row has the id |
| Items.Send | tests/test_api/test_items.py:137-175 | an unknown achiever, the sender as achiever, and a missing item each give their refusal exactly when they occur; otherwise the link signs the owner, the achiever's id and the item |
| Items.Redeem | tests/test_api/test_items.py:177-258 | the receipt on a decoded key, with its refusals in order; no contract of its own, stated by `Items.RedeemSucceedsOnlyIf`, `Items.RedeemIsSingleUse`, `Items.RedeemKeepsItemsWellFormed` and the key lemmas |
| Items.ObtainedMessage | tests/test_api/test_items.py:193 | the success text "You've just obtained <title>"; stated for the fixture by `Scenarios.ExchangeWithTestClaims` |
| Items.RedeemSucceedsOnlyIf | tests/test_api/test_items.py:177-222 | a receipt succeeds only for the link's achiever, on an item still owned by the link's owner, and changes only that item's owner |
| Items.RedeemIsSingleUse | tests/test_api/test_items.py:195-211 | after a receipt, the achiever is told the item is already theirs and anyone else that the link is not for them |
| Items.RedeemKeepsItemsWellFormed | tests/test_api/test_items.py:177-193 | a receipt by a registered user keeps the item table well formed |
| Items.ReceiveItem | tests/test_api/test_items.py:177-258 | the store's item table and the answer are those of `Redeem` on the decoded key; users and tokens do not change |
| Items.SendThenReceive | tests/test_api/test_items.py:177-222 | the achiever following a sent link becomes the owner; the sender following it is told it is not for them |
| Items.LinkNeverExpires | tests/test_api/test_items.py:195-211 | a transfer link decodes to the same claims at every moment |
| Items.UnsignedKeyRefused | tests/test_api/test_items.py:239-247 | a key that is not a token signed under the service's secret (such as the test's `"a"`, `"1"` or `" "`, or a tampered token) does not decode and is refused at the signature (401) |
| Items.ForeignKeyRefused | validators/authentication.py:62-63 | a token signed under another secret does not decode under the service's, so as a transfer key it is refused at the signature (401) |
| Items.SessionTokenIsNotAKey | tests/test_api/test_items.py:249-258 | a live session token used as a transfer key is an invalid key (400) |
| Registration.RegistrationKeepsStoreConsistent | views/registration.py:18-26 | inserting a user that passed validation keeps usernames unique and non-empty, ids increasing, and every owner registered |
| Registration.RegisteredUserCanLogIn | views/registration.py:23-27 | right after registering, the user authenticates with the password they chose |
| Registration.RegisteredMessage | views/registration.py:27 | the success text "User <username> was successfully registered"; stated by `Registration.RegisterUser` |
| Registration.RegisterUser | views/registration.py:12-27 | a validation failure is answered with 400 and the validator's message and adds no user; otherwise exactly one user with the password's digest is appended under the next id |
| Scenarios.AcceptedTestPassword | tests/test_api/test_registration.py:12-20 | the test user's password passes all six rules |
| Scenarios.NoLetterPasswords | tests/test_api/test_registration.py:45-83 | the test's passwords without a letter are refused by `__validate_password`'s letters rule; in a request, the empty one is refused earlier as missing credentials |
| Scenarios.OutOfRangeLengthPasswords | tests/test_api/test_registration.py:45-83 | the test's passwords of the wrong length are refused by the length rule |
| Scenarios.NonAsciiPasswords | tests/test_api/test_registration.py:45-83 | the test's Cyrillic and accented passwords are refused by the ASCII rule |
| Scenarios.NoDigitPasswords | tests/test_api/test_registration.py:45-83 | the test's passwords without a digit are refused by the digit rule |
| Scenarios.NoPunctuationPasswords | tests/test_api/test_registration.py:45-83 | the test's passwords without punctuation are refused by the punctuation rule |
| Scenarios.SingleCasePasswords | tests/test_api/test_registration.py:45-83 | the test's single-case passwords are refused by the case rule |
| Scenarios.RegistrationRefusals | tests/test_api/test_registration.py:23-31 | the test's empty credentials are refused as missing, and blank ones as a weak password |
| Scenarios.RegisteredUsernamesTaken | tests/test_api/test_registration.py:34-42 | the two test users' names are refused as taken |
| Scenarios.NewUsernameAccepted | tests/test_api/test_registration.py:12-20 | a new username with the test password passes validation |
| Scenarios.LoginTable | tests/test_api/test_login.py:15-59 | the test's credentials: the right ones authenticate, unknown names and wrong passwords are refused |
| Scenarios.SendUnknownItems | tests/test_api/test_items.py:151-163 | the test's ids of items that do not exist are refused |
| Scenarios.SendUnknownAchievers | tests/test_api/test_items.py:165-175 | the test's achievers that are not registered, or are the sender, are refused |
| Scenarios.TestLink | tests/conftest.py:57-66 | the fixture's link for item 1 signs owner 1, achiever 2 and item 1 |
| Scenarios.ExchangeWithTestClaims | tests/test_api/test_items.py:177-222 | with that link, the owner is forbidden (403), the achiever obtains `item1-1`, and a second receipt says the item is already theirs |
| Scenarios.ExchangeFlow | tests/conftest.py:57-66 | the fixture's link is issued and decodes to those claims at any moment |
| Scenarios.SessionTokenAsKey | tests/test_api/test_items.py:249-258 | a session token used as a key is answered 400 "Invalid key" |
| Scenarios.CreateSameTitleTwice | tests/test_api/test_items.py:81-91 | creating the same title twice fails the second time with 400 |
| Scenarios.DeleteTwice | tests/test_api/test_items.py:122-131 | deleting an existing item succeeds, and deleting it again gives 404 |

## Left out

- Signing: the JWT library and its HS256 signatures are a collaborator, passed in as `Jwt.Codec`. The properties the service relies on are stated as `Codec.Sound` and are not proved of PyJWT; `Jwt.SoundCodecExists` only shows that some codec meets them all.
- Password hashing: bcrypt is a collaborator, passed in as `Models.Hasher` with `Hasher.Sound`. Its random salt is an input. Its truncation of passwords at 72 bytes is not modelled.
- Clock: the current time is an input. Session-token expiry is folded into the codec's `decode`, which refuses expired tokens.
- Validation.IsLetter: Unicode category L is exact on ASCII only. Outside ASCII it covers Latin-1, Latin Extended-A/B and Cyrillic letters. `\d`, `upper()` and `lower()` are likewise exact on ASCII only. For non-ASCII input this affects only which refusal is reported, because the ASCII rule refuses such passwords in any case.
- HTTP, routing, request parsing and response encoding are not modelled. This includes the link URL format and the 422 answers to malformed request bodies. It also includes the 404 that tests/test_api/test_items.py:231-237 expects for an empty `transfer_key`; that answer is not modelled.
- Items.DeleteItem: it answers success as `Pass`. It does not model the 204 status the route declares, nor the 200 with a message that the test expects.
- Send and receive: the source of these views is not available (views/__init__.py:3 imports an `exchange_router` that views/items.py does not define). `Items.Send`, `Items.Redeem` and `Items.ReceiveItem` therefore follow the tests and the fixture:
  - the order of the checks;
  - the statuses and texts of the refusals the tests pin (403, 400 "Invalid key", 400 "Item … is already yours", 401 for a bad signature);
  - refusal kinds of their own for an item that vanished or changed owner since the link was made (`ItemGone`, `OwnerChanged`), whose texts no test fixes.
- Authentication.GetCurrentUser: PyJWT's own error texts are not modelled. A decoding failure is one refusal kind.
- Ids are counters in the store. A database may reuse the id of a deleted last row; the model never reuses ids.
- Concurrency: the shared async session, and interleaving between requests, are not modelled. Each operation runs atomically.
- views/login.py as it stands is a stub that echoes its input. `Sessions.Login` assumes that login checks the credentials with `authenticate_user` and then follows the one-token-per-user design of `user_token` (database/models.py:58-68) and the login tests.
- Sessions.Login: the 422 that the login tests expect for an empty username or password (tests/test_api/test_login.py:42, 52, 62-68) comes from request parsing and is not modelled; the model answers those with `CredentialsRequired` (401), as `authenticate_user` does.
- Authentication.AuthError: the `detail` texts of `authenticate_user` (validators/authentication.py:27, 39, 45) are not modelled; the refusal kinds carry no text.
- Other files are not part of this model: `users_list`, `register.py`, the `main()` seed loader in database/models.py:71-85, and configuration.
- Naming: views/items.py imports `Item` from database/models.py, which defines the table as `Object`. The model calls it `Item`.
- Validation.RuleMessage: the letters rule's message says "two letters", but the rule requires one. The model keeps the source's text and its one-letter rule.

## Findings

| source | as written | input that shows it | evidently intended | confidence | as-written member | corrected member |
|---|---|---|---|---|---|---|
| validators/authentication.py:43 | `user.verify_password(credentials.password)` calls the two-argument static method with one argument, which raises `TypeError` (500) | any registered username with any non-empty password, e.g. `testuser1` / `Qwerty123_` | `verify_password(credentials.password, user.password)`: the right password authenticates, any other gives 401 | high; not executed | Authentication.AsWrittenNoLoginSucceeds | Authentication.RegisteredPasswordAuthenticates |
| views/items.py:53 | `session.delete(item)` on the asynchronous session is never awaited, so nothing is deleted; a missing id is not noticed either | deleting id 2 twice (tests/test_api/test_items.py:122-131): the item stays, and the second call succeeds instead of 404 | `await session.delete(item)`, with 404 when no row has the id | high; not executed | Items.DeleteAsWrittenRemovesNothing | Items.DeleteRemovesExactlyThatItem |
