/** When a token is accepted, and what its validation recovers. */
module TokenTheorems {
  import opened Common
  import opened Text
  import opened AccessToken
  import opened KeySearch
  import opened TokenPayload
  import opened TokenClaims
  import Base64
  import Sha256Spec

  // ------------------------------------------------------- cutting a token apart

  lemma NoDots(data: seq<byte>)
    ensures '.' !in Base64.Url(data)
  {
    Base64.UrlAlphabetOnly(data);
  }

  /** The dots of a built token are where the builder put them, so the three parts come back. */
  lemma TokenParts(h: string, p: string, g: string)
    requires '.' !in h && '.' !in p
    ensures var t := h + "." + p + "." + g; var d1, d2 := |h|, |h| + 1 + |p|;
      && IndexOfChar(t, '.', 0) == d1 && IndexOfChar(t, '.', d1 + 1) == d2
      && t[..d2] == h + "." + p && t[d1 + 1..d2] == p && t[d2 + 1..] == g
  {
    var t, d1, d2 := h + "." + p + "." + g, |h|, |h| + 1 + |p|;
    assert forall j :: 0 <= j < d1 ==> t[j] == h[j];
    assert forall j :: d1 < j < d2 ==> t[j] == p[j - d1 - 1];
    CharIndexIs(t, '.', 0, d1);
    CharIndexIs(t, '.', d1 + 1, d2);
  }

  // ----------------------------------------------------- which tokens are accepted

  /** The token is h.p.g, and g is the signature of h.p. */
  ghost predicate Signed(secret: seq<byte>, token: string, h: string, p: string, g: string) {
    && '.' !in h && '.' !in p && token == h + "." + p + "." + g
    && Base64.DecodeUrl(g) == Sha256Spec.Hmac(secret, Bytes(h + "." + p))
  }

  /** The payload names u and an expiry that is not past. */
  ghost predicate Names(json: string, now: int, u: User) {
    && (exists e :: ParseInt64(json, "exp") == Found(e) && e >= now)
    && 0 < u.id && ParseInt64(json, "sub") == Found(u.id)
    && u.provider == ParseString(json, "provider", 32)
    && u.email == ParseString(json, "email", 256) && u.name == ParseString(json, "name", 256)
  }

  lemma HolderIs(json: string, now: int, u: User)
    ensures Holder(json, now) == Some(u) <==> Names(json, now, u)
  {
    hide ParseInt64, ParseString;
    if Holder(json, now) == Some(u) { assert ParseInt64(json, "exp") == Found(ParseInt64(json, "exp").v); }
  }

  /** For any three parts: the outcome is decided by the signature, and then by the payload. */
  lemma ValidateParts(secret: seq<byte>, h: string, p: string, g: string, now: int)
    requires '.' !in h && '.' !in p
    ensures Validate(secret, h + "." + p + "." + g, now) ==
      if Base64.DecodeUrl(g) == Sha256Spec.Hmac(secret, Bytes(h + "." + p))
      then Holder(UpToNul(Chars(Base64.DecodeUrl(p))), now) else None
  {
    hide Base64.DecodeUrl, Sha256Spec.Hmac, IndexOfChar, Holder, UpToNul, Bytes, Chars;
    TokenParts(h, p, g);
  }

  /** Without two dots there is nothing to accept. */
  lemma TwoDotsNeeded(secret: seq<byte>, token: string, now: int)
    requires forall i, j :: 0 <= i < j < |token| ==> token[i] != '.' || token[j] != '.'
    ensures Validate(secret, token, now) == None
  {
    hide Base64.DecodeUrl, Sha256Spec.Hmac, Holder, UpToNul, Bytes, Chars;
  }

  lemma CutAtDots(token: string, d1: nat, d2: nat)
    requires d1 < d2 < |token| && token[d1] == '.' && token[d2] == '.'
    ensures token == token[..d1] + "." + token[d1 + 1..d2] + "." + token[d2 + 1..]
  {
  }

  /** Of all tokens, under any secret and at any time, exactly those are accepted that consist of three parts of which
      the last is the signature of the first two and the second names a user and an expiry that is not past; and it is
      that user they are accepted for. */
  lemma ValidExactlyWhen(secret: seq<byte>, token: string, now: int, u: User)
    ensures Validate(secret, token, now) == Some(u) <==>
      exists h, p, g :: Signed(secret, token, h, p, g) && Names(UpToNul(Chars(Base64.DecodeUrl(p))), now, u)
  {
    hide Base64.DecodeUrl, Sha256Spec.Hmac, IndexOfChar, Holder, UpToNul, Bytes, Chars, Names;
    var d1 := IndexOfChar(token, '.', 0);
    if d1 != -1 {
      var d2 := IndexOfChar(token, '.', d1 + 1);
      if d2 != -1 {
        var h, p, g := token[..d1], token[d1 + 1..d2], token[d2 + 1..];
        CutAtDots(token, d1, d2);
        assert '.' !in h && '.' !in p;
        ValidateParts(secret, h, p, g, now);
        HolderIs(UpToNul(Chars(Base64.DecodeUrl(p))), now, u);
        assert Signed(secret, token, h, p, g) <==>
               Base64.DecodeUrl(g) == Sha256Spec.Hmac(secret, Bytes(h + "." + p));
      }
    }
    forall h, p, g | Signed(secret, token, h, p, g) && Names(UpToNul(Chars(Base64.DecodeUrl(p))), now, u)
      ensures Validate(secret, token, now) == Some(u)
    {
      ValidateParts(secret, h, p, g, now);
      HolderIs(UpToNul(Chars(Base64.DecodeUrl(p))), now, u);
    }
  }

  /** The three parts of a built token are the header, the payload and the signature of both. */
  lemma TokenCarries(secret: seq<byte>, payload: string)
    ensures exists h, p, g ::
      && Signed(secret, TokenText(secret, payload), h, p, g)
      && Base64.DecodeUrl(h) == Bytes("{\"alg\":\"HS256\",\"typ\":\"JWT\"}")
      && Base64.DecodeUrl(p) == Bytes(payload)
  {
    hide Base64.Url, Base64.DecodeUrl, Sha256Spec.Hmac, Bytes;
    var h, p := Base64.Url(Bytes(HEADER)), Base64.Url(Bytes(payload));
    var mac := Sha256Spec.Hmac(secret, Bytes(SigningInput(payload)));
    NoDots(Bytes(HEADER));
    NoDots(Bytes(payload));
    Base64.DecodeInvertsEncode(mac);
    Base64.DecodeInvertsEncode(Bytes(HEADER));
    Base64.DecodeInvertsEncode(Bytes(payload));
    assert Signed(secret, TokenText(secret, payload), h, p, Base64.Url(mac));
  }

  /** A built token passes the signature check and yields its payload. */
  lemma SignatureHolds(secret: seq<byte>, payload: string, now: int)
    requires IsCString(payload)
    ensures Validate(secret, TokenText(secret, payload), now) == Holder(payload, now)
  {
    hide Base64.Url, Base64.DecodeUrl, Sha256Spec.Hmac, IndexOfChar, Holder, UpToNul, Bytes, Chars;
    var h, p := Base64.Url(Bytes(HEADER)), Base64.Url(Bytes(payload));
    var mac := Sha256Spec.Hmac(secret, Bytes(SigningInput(payload)));
    NoDots(Bytes(HEADER));
    NoDots(Bytes(payload));
    NoDots(mac);
    ValidateParts(secret, h, p, Base64.Url(mac), now);
    Base64.DecodeInvertsEncode(mac);
    Base64.DecodeInvertsEncode(Bytes(payload));
    CharsOfBytes(payload);
    NoNul(payload);
  }

  lemma NoNul(s: string)
    requires IsCString(s)
    ensures UpToNul(s) == s
  {
    assert 0 as char !in s;
  }

  // ------------------------------------------------------------------- theorems

  /** The length of a token, from that of its payload: 36 for the header, 43 for the signature, two dots. */
  lemma TokenLength(secret: seq<byte>, payload: string)
    ensures |TokenText(secret, payload)| == 81 + (4 * |payload| + 2) / 3
  {
    hide Base64.Url, Sha256Spec.Hmac, Bytes;
    Base64.UrlLength(Bytes(HEADER));
    Base64.UrlLength(Bytes(payload));
    Base64.UrlLength(Sha256Spec.Hmac(secret, Bytes(SigningInput(payload))));
  }

  /** A token is issued exactly when there is a secret and the payload has at most 322 characters; the test of the
      payload against its buffer never decides. */
  lemma IssuedExactlyWhen(secret: seq<byte>, u: User, now: int, ttl: int)
    requires TIME_MIN <= now + ttl <= TIME_MAX
    ensures Build(secret, u, now, ttl).Some? <==> secret != [] && |Payload(u, Unsigned(now + ttl))| <= 322
  {
    hide TokenText, Payload;
    TokenLength(secret, Payload(u, Unsigned(now + ttl)));
  }

  /** The payload is as long as its template, the two numbers and the escaped fields together. */
  lemma PayloadLength(u: User, exp: nat)
    ensures |Payload(u, exp)| ==
      66 + |Decimal(u.id)| + |Decimal(exp)| + |EscapedProvider(u)| + |EscapedEmail(u)| + |EscapedName(u)|
  {
    hide Decimal, Escape;
  }

  /** With a secret and a payload that fits, a token is issued, and it is accepted exactly when no user field exposes
      the `exp` key, the id is not 0 and the printed expiry is not past; it then names the user as read back. */
  lemma AcceptedExactlyWhen(secret: seq<byte>, u: User, now: int, ttl: int, later: int)
    requires ValidUser(u) && TIME_MIN <= now + ttl <= TIME_MAX
    ensures secret != [] && |Payload(u, Unsigned(now + ttl))| <= 322 ==>
      var token := Build(secret, u, now, ttl);
      token.Some? &&
      Validate(secret, token.value.text, later) ==
        if FieldsPlain(u) && 0 < u.id && later <= Saturate(Unsigned(now + ttl)) then Some(ReadBack(u)) else None
  {
    hide Payload, Validate, TokenText, ParseInt64, ParseString, FieldsPlain, Back, Exposes;
    var exp := Unsigned(now + ttl);
    IssuedExactlyWhen(secret, u, now, ttl);
    PayloadIsCString(u, exp);
    SignatureHolds(secret, Payload(u, exp), later);
    ParsedExp(u, exp);
    ParsedSub(u, exp);
    ProviderRead(u, exp);
    EmailRead(u, exp);
    NameRead(u, exp);
  }

  /** The id is below 2^63, email and name fit the buffers they are escaped into, no string holds a line break,
      carriage return or tab, and either the provider does not expose the key of the name or the name is what is then
      read, the email. */
  predicate ComesBack(u: User) {
    && u.id < 0x8000_0000_0000_0000
    && Lasting(u.provider) && EscapeFits(0, u.email, 256) && Lasting(u.email)
    && if Exposes(EscapedProvider(u), "name") then u.name == u.email
       else EscapeFits(0, u.name, 256) && Lasting(u.name)
  }

  lemma ReadBackExactlyWhen(u: User)
    requires ValidUser(u)
    ensures ReadBack(u) == u <==> ComesBack(u)
  {
    hide EscapeFits, Lasting, Back, Exposes;
    BackExactlyWhen(u.provider, 64, 32);
    BackExactlyWhen(u.email, 256, 256);
    BackExactlyWhen(u.name, 256, 256);
    ProviderFits(u.provider);
  }

  lemma ProviderFits(s: string)
    requires |s| < 32
    ensures EscapeFits(0, s, 64)
  {
    if s != "" { EscapedLength(s[..|s| - 1]); }
  }

  /** A user whose provider is exactly the key of the name is read back under the email. */
  lemma MisreadName()
    ensures var u := User(1, "e", "n", "name"); ValidUser(u) && ReadBack(u) == u.(name := "e")
  {
    hide Escape, Back, Lasting;
    var u := User(1, "e", "n", "name");
    EscapedWord();
    assert Lasting("e") && Lasting("name") by { ShortWords(); }
    ShortBack("e", 256, 256);
    ShortBack("name", 64, 32);
  }

  lemma ShortWords()
    ensures Lasting("e") && Lasting("name")
  {
  }

  lemma EscapedWord()
    ensures Escape("name", 64) == "name"
  {
    assert "name"[1..] == "ame" && "ame"[1..] == "me" && "me"[1..] == "e" && "e"[1..] == "";
    assert EscapeFrom("name", "", 64) == "name";
    assert EscapeFrom("nam", "e", 64) == "name";
    assert EscapeFrom("na", "me", 64) == "name";
    assert EscapeFrom("n", "ame", 64) == "name";
  }

  lemma ShortBack(s: string, size: nat, buffer: nat)
    requires |s| < buffer && Lasting(s) && 2 * |s| + 2 <= size
    ensures Back(s, size, buffer) == s
  {
    hide Back;
    BackExactlyWhen(s, size, buffer);
    if s != "" { EscapedLength(s[..|s| - 1]); }
  }

  lemma {:induction false} EscapedLength(s: string)
    ensures |Escaped(s)| <= 2 * |s|
  {
    if s != "" { EscapedLength(s[1..]); }
  }

  /** A user whose name is exactly the key: under any secret a token is issued and is not accepted even long before
      it expires. */
  lemma IssuedAndRejected(secret: seq<byte>)
    requires secret != []
    ensures var token := Build(secret, User(1, "", "exp", ""), 0, 7);
      token.Some? && token.value.expiresAt == 7 && Validate(secret, token.value.text, 0) == None
  {
    var u := User(1, "", "exp", "");
    EscapedKey();
    assert !FieldsPlain(u);
    assert |Decimal(1)| == 1 && |Decimal(7)| == 1;
    PayloadLength(u, 7);
    AcceptedExactlyWhen(secret, u, 0, 7, 0);
    hide Validate, Payload, TokenText, FieldsPlain;
  }

  lemma EscapedKey()
    ensures Escape("exp", 256) == "exp" && Escape("", 256) == "" && Escape("", 64) == ""
  {
    assert "exp"[1..] == "xp" && "xp"[1..] == "p" && "p"[1..] == "";
    assert EscapeFrom("exp", "", 256) == "exp";
    assert EscapeFrom("ex", "p", 256) == "exp";
    assert EscapeFrom("e", "xp", 256) == "exp";
  }

  lemma {:induction false} PlainWithoutExp(field: string, size: nat)
    requires !Contains(field, "exp")
    ensures !Exposes(Escape(field, size), "exp")
  {
    var e := Escape(field, size);
    if Exposes(e, "exp") {
      assert e[|e| - 3..] == "exp" by {
        if e != "exp" { assert e[|e| - 3..] == e[|e| - 4..][1..] == "\"exp"[1..]; }
      }
      assert OccursAt(e, "exp", |e| - 3);
      EscapeAddsNoExp("", field, size, |e| - 3);
    }
  }

  /** The round trip the tokens are for: with an id in range and fields without the letters "exp", a token is issued,
      and until it expires it is accepted for exactly the user it was issued to, if and only if that user's strings
      come back as stated above. */
  lemma TokenRoundTrip(secret: seq<byte>, u: User, now: int, ttl: int, later: int)
    requires ValidUser(u) && 0 <= now + ttl <= TIME_MAX && 1 <= u.id < 0x8000_0000_0000_0000
    requires !Contains(u.provider, "exp") && !Contains(u.email, "exp") && !Contains(u.name, "exp")
    ensures secret != [] && |Payload(u, now + ttl)| <= 322 ==>
      var token := Build(secret, u, now, ttl);
      token.Some? &&
      (later <= token.value.expiresAt ==>
         var accepted := Validate(secret, token.value.text, later);
         accepted.Some? && accepted.value.id == u.id && (accepted.value == u <==> ComesBack(u)))
  {
    hide Payload, Validate, TokenText, Exposes, Escape, Back, ComesBack;
    AcceptedExactlyWhen(secret, u, now, ttl, later);
    ReadBackExactlyWhen(u);
    PlainWithoutExp(u.provider, 64);
    PlainWithoutExp(u.email, 256);
    PlainWithoutExp(u.name, 256);
  }
}
