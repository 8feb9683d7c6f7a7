/** Registration checks (validators/validation.py): credentials present, username free, and
    six password rules run in a fixed order, the first failing one deciding the message. */
module Validation {
  import opened Shared
  import opened Models

  /** The request body of a registration (`UserData`). */
  datatype Credentials = Credentials(username: string, password: string)

  /** The password rules, one per `__check_*` coroutine. */
  datatype Rule = Letters | Length | Ascii | Digits | Punctuation | Case

  datatype ValidationError =
    | MissingCredentials
    | UsernameTaken(username: string)
    | WeakPassword(rule: Rule)

  function RuleMessage(r: Rule): string {
    match r
    case Letters => "At least two letters are required"
    case Length => "Password length should be at least 8 but no more than 14 symbols"
    case Ascii => "Letters must be ASCII"
    case Digits => "At least one digit is required"
    case Punctuation => "At least one punctuation sign is required"
    case Case => "Letters must be in different case"
  }

  /** The text carried by the `ValidationError`, which registration answers with. */
  function Message(e: ValidationError): string {
    match e
    case MissingCredentials => "Both username and password required"
    case UsernameTaken(name) => "Username '" + name + "' has been already registered by another user"
    case WeakPassword(r) => "Weak password: " + RuleMessage(r)
  }

  // ---- characters -----------------------------------------------------------------------

  predicate IsAsciiUpper(c: char) { 'A' <= c <= 'Z' }
  predicate IsAsciiLower(c: char) { 'a' <= c <= 'z' }
  predicate IsAsciiLetter(c: char) { IsAsciiUpper(c) || IsAsciiLower(c) }
  predicate IsAscii(c: char) { c as int < 128 }

  /** Unicode category L*: exact on ASCII; outside ASCII it covers the Latin-1, Latin
      Extended-A/B and Cyrillic letters. */
  predicate IsLetter(c: char) {
    || IsAsciiLetter(c)
    || c == '\U{AA}' || c == '\U{B5}' || c == '\U{BA}'
    || (0xC0 <= c as int <= 0x24F && c as int != 0xD7 && c as int != 0xF7)
    || (0x400 <= c as int <= 0x481)
    || (0x48A <= c as int <= 0x52F)
  }

  /** `\d`: a decimal digit (exact on ASCII). */
  predicate IsDigit(c: char) { '0' <= c <= '9' }

  /** `\W|_`: a character that is not a word character, or the underscore. */
  predicate IsPunctuation(c: char) { !(IsLetter(c) || IsDigit(c)) || c == '_' }

  function UpperChar(c: char): char { if IsAsciiLower(c) then (c as int - 32) as char else c }
  function LowerChar(c: char): char { if IsAsciiUpper(c) then (c as int + 32) as char else c }

  /** `str.upper()`, character by character. */
  function Upper(s: string): string {
    if s == [] then [] else [UpperChar(s[0])] + Upper(s[1..])
  }

  /** `str.lower()`, character by character. */
  function Lower(s: string): string {
    if s == [] then [] else [LowerChar(s[0])] + Lower(s[1..])
  }

  /** Python's `any(p(c) for c in s[i:])`, and a non-empty `re.findall`. */
  predicate AnyFrom(s: string, i: nat, p: char -> bool)
    decreases |s| - i
  {
    i < |s| && (p(s[i]) || AnyFrom(s, i + 1, p))
  }

  /** `all(p(c) for c in s[i:])`, as `str.isascii()` does it. */
  predicate AllFrom(s: string, i: nat, p: char -> bool)
    decreases |s| - i
  {
    i >= |s| || (p(s[i]) && AllFrom(s, i + 1, p))
  }

  predicate Any(s: string, p: char -> bool) { AnyFrom(s, 0, p) }
  predicate All(s: string, p: char -> bool) { AllFrom(s, 0, p) }

  // ---- the six rules --------------------------------------------------------------------

  /** `__check_letters` */
  predicate HasLetter(p: string) { Any(p, IsLetter) }
  /** `__check_len` */
  predicate LengthInRange(p: string) { 8 <= |p| <= 14 }
  /** `__check_ascii` */
  predicate IsAsciiText(p: string) { All(p, IsAscii) }
  /** `__check_nums` */
  predicate HasDigit(p: string) { Any(p, IsDigit) }
  /** `__check_punctuation` */
  predicate HasPunctuation(p: string) { Any(p, IsPunctuation) }
  /** `__check_case`: an upper-case and a lower-case letter; `CaseRuleIsUpperLowerCheck`
      shows this is the source's `p != p.upper() and p != p.lower()`. */
  predicate HasMixedCase(p: string) { Any(p, IsAsciiUpper) && Any(p, IsAsciiLower) }

  predicate Holds(r: Rule, p: string) {
    match r
    case Letters => HasLetter(p)
    case Length => LengthInRange(p)
    case Ascii => IsAsciiText(p)
    case Digits => HasDigit(p)
    case Punctuation => HasPunctuation(p)
    case Case => HasMixedCase(p)
  }

  /** Position of a rule in the tuple `__validate_password` evaluates. */
  function Rank(r: Rule): nat {
    match r
    case Letters => 0
    case Length => 1
    case Ascii => 2
    case Digits => 3
    case Punctuation => 4
    case Case => 5
  }

  // ---- the validators -------------------------------------------------------------------

  /** `__validate_password`: the rules are awaited in order and the first that raises ends
      the evaluation. */
  function ValidatePassword(password: string): Outcome<Rule> {
    if !HasLetter(password) then Fail(Letters)
    else if !LengthInRange(password) then Fail(Length)
    else if !IsAsciiText(password) then Fail(Ascii)
    else if !HasDigit(password) then Fail(Digits)
    else if !HasPunctuation(password) then Fail(Punctuation)
    else if !HasMixedCase(password) then Fail(Case)
    else Pass
  }

  /** `__validate_username`: the first row with that username makes it taken. */
  function ValidateUsername(users: seq<User>, username: string): Outcome<ValidationError> {
    if UserByName(users, username).Some? then Fail(UsernameTaken(username)) else Pass
  }

  /** `__validate`: the username first, then the password. */
  function ValidateCredentials(users: seq<User>, creds: Credentials): Outcome<ValidationError> {
    match ValidateUsername(users, creds.username)
    case Fail(e) => Fail(e)
    case Pass =>
      match ValidatePassword(creds.password)
      case Fail(r) => Fail(WeakPassword(r))
      case Pass => Pass
  }

  /** `validate`: absent or empty credentials are refused before anything else runs. */
  function Validate(creds: Option<Credentials>, users: seq<User>): Outcome<ValidationError> {
    if creds.None? || creds.value.username == "" || creds.value.password == "" then
      Fail(MissingCredentials)
    else
      ValidateCredentials(users, creds.value)
  }

  // ---- what the validators promise ------------------------------------------------------

  lemma {:induction false} AnyFromMeansSome(s: string, i: nat, p: char -> bool)
    ensures AnyFrom(s, i, p) <==> exists j :: i <= j < |s| && p(s[j])
    decreases |s| - i
  {
    if i < |s| {
      AnyFromMeansSome(s, i + 1, p);
      if exists j :: i <= j < |s| && p(s[j]) {
        var j :| i <= j < |s| && p(s[j]);
        assert j == i || (i + 1 <= j < |s| && p(s[j]));
      }
    }
  }

  lemma {:induction false} AllFromMeansEvery(s: string, i: nat, p: char -> bool)
    ensures AllFrom(s, i, p) <==> forall j :: i <= j < |s| ==> p(s[j])
    decreases |s| - i
  {
    if i < |s| {
      AllFromMeansEvery(s, i + 1, p);
      if forall j :: i <= j < |s| ==> p(s[j]) {
        assert p(s[i]);
      }
    }
  }

  lemma AnyMeansSome(s: string, p: char -> bool)
    ensures Any(s, p) <==> exists i :: 0 <= i < |s| && p(s[i])
  {
    AnyFromMeansSome(s, 0, p);
  }

  lemma AllMeansEvery(s: string, p: char -> bool)
    ensures All(s, p) <==> forall i :: 0 <= i < |s| ==> p(s[i])
  {
    AllFromMeansEvery(s, 0, p);
  }

  /** Upper-casing changes a string exactly when it holds a lower-case ASCII letter. */
  lemma {:induction false} UpperChangesIffLowercase(s: string)
    ensures |Upper(s)| == |s|
    ensures Upper(s) != s <==> exists i :: 0 <= i < |s| && IsAsciiLower(s[i])
  {
    if s != [] {
      UpperChangesIffLowercase(s[1..]);
      assert s == [s[0]] + s[1..];
      if IsAsciiLower(s[0]) {
        assert Upper(s)[0] != s[0];
      } else if Upper(s[1..]) != s[1..] {
        var i :| 0 <= i < |s[1..]| && IsAsciiLower(s[1..][i]);
        assert IsAsciiLower(s[i + 1]);
        assert Upper(s)[1..] == Upper(s[1..]);
      } else {
        forall i | 0 <= i < |s| ensures !IsAsciiLower(s[i]) {
          if i > 0 {
            assert s[i] == s[1..][i - 1];
          }
        }
      }
    }
  }

  /** Lower-casing changes a string exactly when it holds an upper-case ASCII letter. */
  lemma {:induction false} LowerChangesIffUppercase(s: string)
    ensures |Lower(s)| == |s|
    ensures Lower(s) != s <==> exists i :: 0 <= i < |s| && IsAsciiUpper(s[i])
  {
    if s != [] {
      LowerChangesIffUppercase(s[1..]);
      assert s == [s[0]] + s[1..];
      if IsAsciiUpper(s[0]) {
        assert Lower(s)[0] != s[0];
      } else if Lower(s[1..]) != s[1..] {
        var i :| 0 <= i < |s[1..]| && IsAsciiUpper(s[1..][i]);
        assert IsAsciiUpper(s[i + 1]);
        assert Lower(s)[1..] == Lower(s[1..]);
      } else {
        forall i | 0 <= i < |s| ensures !IsAsciiUpper(s[i]) {
          if i > 0 {
            assert s[i] == s[1..][i - 1];
          }
        }
      }
    }
  }

  /** The case rule is the source's check: a password holds an upper-case and a lower-case
      letter exactly when it differs from both its `upper()` and its `lower()`. */
  lemma CaseRuleIsUpperLowerCheck(p: string)
    ensures HasMixedCase(p) <==> p != Upper(p) && p != Lower(p)
  {
    UpperChangesIffLowercase(p);
    LowerChangesIffUppercase(p);
    AnyMeansSome(p, IsAsciiUpper);
    AnyMeansSome(p, IsAsciiLower);
  }

  /** A password is accepted exactly when all six rules hold. */
  lemma PasswordAcceptedIffAllRules(p: string)
    ensures ValidatePassword(p) == Pass <==> forall r :: Holds(r, p)
  {
    if ValidatePassword(p) != Pass {
      var r := ValidatePassword(p).error;
      assert !Holds(r, p);
    }
  }

  /** The reported rule is the first failing one in the order letters, length, ASCII, digit,
      punctuation, case. */
  lemma ReportedRuleIsFirstFailing(p: string, r: Rule)
    ensures ValidatePassword(p) == Fail(r) <==>
      !Holds(r, p) && forall q :: Rank(q) < Rank(r) ==> Holds(q, p)
  {
    if !Holds(r, p) && forall q :: Rank(q) < Rank(r) ==> Holds(q, p) {
      assert Rank(Letters) < Rank(r) ==> Holds(Letters, p);
      assert Rank(Length) < Rank(r) ==> Holds(Length, p);
      assert Rank(Ascii) < Rank(r) ==> Holds(Ascii, p);
      assert Rank(Digits) < Rank(r) ==> Holds(Digits, p);
      assert Rank(Punctuation) < Rank(r) ==> Holds(Punctuation, p);
    }
  }

  /** What an accepted password looks like, character by character. */
  lemma AcceptedPasswordShape(p: string)
    requires ValidatePassword(p) == Pass
    ensures 8 <= |p| <= 14
    ensures forall i :: 0 <= i < |p| ==> IsAscii(p[i])
    ensures exists i :: 0 <= i < |p| && IsAsciiLetter(p[i])
    ensures exists i :: 0 <= i < |p| && IsDigit(p[i])
    ensures exists i :: 0 <= i < |p| && (!(IsAsciiLetter(p[i]) || IsDigit(p[i])) || p[i] == '_')
    ensures exists i :: 0 <= i < |p| && IsAsciiUpper(p[i])
    ensures exists i :: 0 <= i < |p| && IsAsciiLower(p[i])
  {
    AllMeansEvery(p, IsAscii);
    AnyMeansSome(p, IsLetter);
    AnyMeansSome(p, IsDigit);
    AnyMeansSome(p, IsPunctuation);
    AnyMeansSome(p, IsAsciiUpper);
    AnyMeansSome(p, IsAsciiLower);
    var i :| 0 <= i < |p| && IsLetter(p[i]);
    assert IsAscii(p[i]);
    var j :| 0 <= j < |p| && IsPunctuation(p[j]);
    assert IsAscii(p[j]);
  }

  /** Absent or empty credentials get "Both username and password required" and nothing else
      is looked at: the answer is the same whatever the user table holds. */
  lemma MissingCredentialsDecideAlone(creds: Option<Credentials>, users: seq<User>, others: seq<User>)
    ensures Validate(creds, users) == Fail(MissingCredentials) <==>
      creds.None? || creds.value.username == "" || creds.value.password == ""
    ensures Validate(creds, users) == Fail(MissingCredentials) ==>
      Validate(creds, others) == Fail(MissingCredentials)
  {
  }

  /** A taken username is rejected before any password rule runs. */
  lemma TakenUsernameRejectedFirst(creds: Credentials, users: seq<User>)
    requires creds.username != "" && creds.password != ""
    requires exists u :: u in users && u.username == creds.username
    ensures Validate(Some(creds), users) == Fail(UsernameTaken(creds.username))
  {
  }

  /** Registration data passes validation exactly when both fields are non-empty, no user has
      the username, and the password meets all six rules. */
  lemma ValidateAcceptsIff(creds: Option<Credentials>, users: seq<User>)
    ensures Validate(creds, users) == Pass <==>
      && creds.Some? && creds.value.username != "" && creds.value.password != ""
      && (forall u :: u in users ==> u.username != creds.value.username)
      && (forall r :: Holds(r, creds.value.password))
  {
    if creds.Some? {
      PasswordAcceptedIffAllRules(creds.value.password);
    }
  }

  /** Different rules carry different messages. */
  lemma RuleMessageIdentifiesRule(r: Rule, q: Rule)
    requires RuleMessage(r) == RuleMessage(q)
    ensures r == q
  {
  }

  /** Different errors carry different messages, so the message tells which check failed. */
  lemma MessageIdentifiesError(e: ValidationError, f: ValidationError)
    requires Message(e) == Message(f)
    ensures e == f
  {
    var tail := "' has been already registered by another user";
    match e
    case MissingCredentials =>
      assert Message(f)[0] == 'B';
    case UsernameTaken(n) =>
      assert Message(e)[0] == 'U';
      assert f.UsernameTaken?;
      var m := f.username;
      assert |n| == |m|;
      assert n == Message(e)[10..10 + |n|];
      assert m == Message(f)[10..10 + |m|];
    case WeakPassword(r) =>
      assert Message(e)[0] == 'W';
      assert f.WeakPassword?;
      assert RuleMessage(r) == Message(e)[15..];
      assert RuleMessage(f.rule) == Message(f)[15..];
      RuleMessageIdentifiesRule(r, f.rule);
  }
}
