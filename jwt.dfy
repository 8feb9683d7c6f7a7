/** The signed-token codec the service relies on (PyJWT with HS256 and one process-wide
    secret key). Signing is a collaborator, not part of the model: it is passed in as a pair
    of functions, and the properties the rest of the model needs are stated once, as `Sound`. */
module Jwt {
  import opened Shared

  type Key = string
  type Token = string
  /** Seconds on the clock used to check the `exp` claim. */
  type Time = int

  /** The claims a token may carry. A session token carries `id` and `exp`; a transfer key
      carries `owner`, `achiever` and `item` and no expiry. */
  datatype Claims = Claims(
    id: Option<int>,
    owner: Option<int>,
    achiever: Option<int>,
    item: Option<int>,
    exp: Option<Time>)

  /** A token is live until its `exp` claim; a token without `exp` never expires. */
  predicate Live(c: Claims, now: Time) {
    c.exp.None? || now < c.exp.value
  }

  function SessionClaims(userId: int, exp: Time): Claims {
    Claims(Some(userId), None, None, None, Some(exp))
  }

  function TransferClaims(owner: int, achiever: int, item: int): Claims {
    Claims(None, Some(owner), Some(achiever), Some(item), None)
  }

  /** `encode(claims, key)` signs; `decode(token, key, now)` yields the claims when the
      signature verifies under `key` and the token is live at `now`. */
  datatype Codec = Codec(encode: (Claims, Key) -> Token, decode: (Token, Key, Time) -> Option<Claims>) {

    /** What the service assumes of the codec: a token is never empty; under its own key it
        decodes to what was signed while live and to nothing once expired; under another key
        it never decodes; nothing decodes to expired claims; and only a token signed under a
        key decodes under it, so junk, truncated or tampered strings never do. */
    ghost predicate Sound() {
      && (forall c, k :: encode(c, k) != [])
      && (forall c, k, now :: decode(encode(c, k), k, now) == if Live(c, now) then Some(c) else None)
      && (forall c, k, k', now :: k != k' ==> decode(encode(c, k), k', now) == None)
      && (forall t, k, now :: decode(t, k, now).Some? ==> Live(decode(t, k, now).value, now))
      && (forall t, k, now :: decode(t, k, now).Some? ==> exists c :: t == encode(c, k))
    }
  }

  // ---- a codec meeting the assumptions ---------------------------------------------------

  /** `n` in unary, closed by a terminator, so that no code is a prefix of another. */
  function Unary(n: nat): string {
    if n == 0 then "." else "|" + Unary(n - 1)
  }

  function IntText(i: int): string {
    if i >= 0 then "+" + Unary(i) else "-" + Unary(-i)
  }

  function OptionText(o: Option<int>): string {
    match o
    case None => "~"
    case Some(i) => "#" + IntText(i)
  }

  /** A self-delimiting serialization of the claims, followed by the key. */
  function SampleEncode(c: Claims, k: Key): Token {
    OptionText(c.id) + (OptionText(c.owner) + (OptionText(c.achiever) + (OptionText(c.item) + (OptionText(c.exp) + k))))
  }

  /** The claims a token was made from under `k`, when there are any. */
  ghost function Preimage(t: Token, k: Key): (c: Claims)
    requires exists c :: SampleEncode(c, k) == t
    ensures SampleEncode(c, k) == t
  {
    var c :| SampleEncode(c, k) == t; c
  }

  /** Decoding by inversion: the claims a token was made from under `k`, while they are live. */
  ghost function SampleDecode(t: Token, k: Key, now: Time): Option<Claims> {
    if exists c :: SampleEncode(c, k) == t then
      if Live(Preimage(t, k), now) then Some(Preimage(t, k)) else None
    else None
  }

  lemma {:induction false} UnaryPrefixFree(n: nat, m: nat, r1: string, r2: string)
    requires Unary(n) + r1 == Unary(m) + r2
    ensures n == m && r1 == r2
    decreases n
  {
    if n == 0 || m == 0 {
      assert (Unary(n) + r1)[0] == (Unary(m) + r2)[0];
      assert n == 0 && m == 0;
      assert r1 == (Unary(n) + r1)[1..];
      assert r2 == (Unary(m) + r2)[1..];
    } else {
      assert Unary(n) + r1 == "|" + (Unary(n - 1) + r1);
      assert Unary(m) + r2 == "|" + (Unary(m - 1) + r2);
      assert Unary(n - 1) + r1 == (Unary(n) + r1)[1..];
      assert Unary(m - 1) + r2 == (Unary(m) + r2)[1..];
      UnaryPrefixFree(n - 1, m - 1, r1, r2);
    }
  }

  /** A one-character tag in front of a text can be read back and stripped. */
  lemma Untag(x: char, s: string, r: string)
    ensures ([x] + s + r)[0] == x
    ensures ([x] + s + r)[1..] == s + r
  {
  }

  lemma IntPrefixFree(i: int, j: int, r1: string, r2: string)
    requires IntText(i) + r1 == IntText(j) + r2
    ensures i == j && r1 == r2
  {
    var u: nat := if i >= 0 then i else -i;
    var v: nat := if j >= 0 then j else -j;
    var x := if i >= 0 then '+' else '-';
    var y := if j >= 0 then '+' else '-';
    assert IntText(i) == [x] + Unary(u);
    assert IntText(j) == [y] + Unary(v);
    Untag(x, Unary(u), r1);
    Untag(y, Unary(v), r2);
    UnaryPrefixFree(u, v, r1, r2);
  }

  lemma OptionPrefixFree(a: Option<int>, b: Option<int>, r1: string, r2: string)
    requires OptionText(a) + r1 == OptionText(b) + r2
    ensures a == b && r1 == r2
  {
    var s1 := if a.None? then [] else IntText(a.value);
    var s2 := if b.None? then [] else IntText(b.value);
    var x := if a.None? then '~' else '#';
    var y := if b.None? then '~' else '#';
    assert OptionText(a) == [x] + s1;
    assert OptionText(b) == [y] + s2;
    Untag(x, s1, r1);
    Untag(y, s2, r2);
    if a.Some? {
      IntPrefixFree(a.value, b.value, r1, r2);
    }
  }

  lemma SampleEncodeInjective(c: Claims, k: Key, c': Claims, k': Key)
    requires SampleEncode(c, k) == SampleEncode(c', k')
    ensures c == c' && k == k'
  {
    var tail4 := OptionText(c.exp) + k;
    var tail3 := OptionText(c.item) + tail4;
    var tail2 := OptionText(c.achiever) + tail3;
    var tail1 := OptionText(c.owner) + tail2;
    var tail4' := OptionText(c'.exp) + k';
    var tail3' := OptionText(c'.item) + tail4';
    var tail2' := OptionText(c'.achiever) + tail3';
    var tail1' := OptionText(c'.owner) + tail2';
    OptionPrefixFree(c.id, c'.id, tail1, tail1');
    OptionPrefixFree(c.owner, c'.owner, tail2, tail2');
    OptionPrefixFree(c.achiever, c'.achiever, tail3, tail3');
    OptionPrefixFree(c.item, c'.item, tail4, tail4');
    OptionPrefixFree(c.exp, c'.exp, k, k');
  }

  /** The assumptions of `Codec.Sound` can all be met at once, so the lemmas that rely on
      them are not vacuous. */
  lemma SoundCodecExists()
    ensures exists codec: Codec :: codec.Sound()
  {
    var codec := Codec((c, k) => SampleEncode(c, k), (t, k, now) => SampleDecode(t, k, now));
    forall c, k, now
      ensures codec.decode(codec.encode(c, k), k, now) == if Live(c, now) then Some(c) else None
    {
      var t := SampleEncode(c, k);
      SampleEncodeInjective(c, k, Preimage(t, k), k);
    }
    forall c, k, k', now | k != k'
      ensures codec.decode(codec.encode(c, k), k', now) == None
    {
      var t := SampleEncode(c, k);
      if exists c' :: SampleEncode(c', k') == t {
        SampleEncodeInjective(c, k, Preimage(t, k'), k');
      }
    }
    forall t, k, now | codec.decode(t, k, now).Some?
      ensures exists c :: t == codec.encode(c, k)
    {
      assert t == codec.encode(Preimage(t, k), k);
    }
    forall c, k
      ensures codec.encode(c, k) != []
    {
      assert |OptionText(c.id)| > 0;
    }
    assert codec.Sound();
  }
}
