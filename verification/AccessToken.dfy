/** Building and validating signed access tokens (src/auth.c:181-187, 638-752, 781-806, 841-929). */
module AccessToken {
  import opened Common
  import opened Text
  import Base64
  import Sha256Spec
  import Sha256Stream

  // ------------------------------------------------------------------ escaping

  /** The JSON escape of one character. */
  function EscapeChar(c: char): (s: string)
    ensures 1 <= |s| <= 2
  {
    if c == '"' || c == '\\' then ['\\', c]
    else if c == '\n' then "\\n"
    else if c == '\r' then "\\r"
    else if c == '\t' then "\\t"
    else [c]
  }

  /** `fp_auth_escape_json` from a state in which `done` has been written: it stops at the end of the string
      or when fewer than three bytes of the output buffer are left. */
  function EscapeFrom(done: string, rest: string, size: nat): (s: string)
    ensures IsPrefix(done, s)
    decreases |rest|
  {
    if rest == "" || |done| + 2 >= size then done
    else EscapeFrom(done + EscapeChar(rest[0]), rest[1..], size)
  }

  function Escape(s: string, size: nat): string {
    EscapeFrom("", s, size)
  }

  lemma EscapeStep(done: string, s: string, p: nat, size: nat)
    requires p < |s| && |done| + 2 < size
    ensures EscapeFrom(done, s[p..], size) == EscapeFrom(done + EscapeChar(s[p]), s[p + 1..], size)
  {
    hide EscapeChar;
    assert s[p..][0] == s[p] && s[p..][1..] == s[p + 1..];
  }

  /** The copying loop, over the output buffer. */
  method EscapeJson(s: string, out: array<char>) returns (length: nat)
    requires 0 < out.Length
    modifies out
    ensures length < out.Length && out[..length] == Escape(s, out.Length) && out[length] == 0 as char
  {
    hide EscapeChar;
    var idx, p := 0, 0;
    assert out[..0] == "" && s[0..] == s;
    while p < |s| && idx + 2 < out.Length
      invariant p <= |s| && idx < out.Length
      invariant EscapeFrom(out[..idx], s[p..], out.Length) == Escape(s, out.Length)
    {
      hide EscapeFrom;
      EscapeStep(out[..idx], s, p, out.Length);
      idx := WriteEscaped(s[p], out, idx);
      p := p + 1;
      if idx + 1 >= out.Length { break; }
    }
    assert EscapeFrom(out[..idx], s[p..], out.Length) == out[..idx];
    out[idx] := 0 as char;
    length := idx;
  }

  /** The loop's cases for one character. */
  method WriteEscaped(c: char, out: array<char>, start: nat) returns (idx: nat)
    requires start + 2 < out.Length
    modifies out
    ensures start <= idx <= start + 2 && out[..idx] == old(out[..start]) + EscapeChar(c)
  {
    idx := start;
    if c == '"' || c == '\\' {
      out[idx], out[idx + 1] := '\\', c;
      idx := idx + 2;
    } else if c == '\n' {
      out[idx], out[idx + 1] := '\\', 'n';
      idx := idx + 2;
    } else if c == '\r' {
      out[idx], out[idx + 1] := '\\', 'r';
      idx := idx + 2;
    } else if c == '\t' {
      out[idx], out[idx + 1] := '\\', 't';
      idx := idx + 2;
    } else {
      out[idx] := c;
      idx := idx + 1;
    }
  }

  /** Every quote in escaped text has a backslash before it. */
  predicate QuotesEscaped(s: string) {
    forall j :: 0 <= j < |s| && s[j] == '"' ==> 0 < j && s[j - 1] == '\\'
  }

  lemma {:induction false} EscapeHidesQuotes(done: string, rest: string, size: nat)
    requires QuotesEscaped(done)
    ensures QuotesEscaped(EscapeFrom(done, rest, size))
    decreases |rest|
  {
    if rest != "" && |done| + 2 < size {
      EscapeHidesQuotes(done + EscapeChar(rest[0]), rest[1..], size);
    }
  }

  lemma {:induction false} EscapeKeepsCString(done: string, rest: string, size: nat)
    requires IsCString(done) && IsCString(rest)
    ensures IsCString(EscapeFrom(done, rest, size))
    decreases |rest|
  {
    if rest != "" && |done| + 2 < size {
      EscapeKeepsCString(done + EscapeChar(rest[0]), rest[1..], size);
    }
  }

  /** The first character written after `done` starts the escape of the next input character. */
  lemma EscapeHead(done: string, rest: string, size: nat)
    requires |EscapeFrom(done, rest, size)| > |done|
    ensures rest != "" && EscapeFrom(done, rest, size)[|done|] == EscapeChar(rest[0])[0]
    ensures EscapeFrom(done, rest, size) == EscapeFrom(done + EscapeChar(rest[0]), rest[1..], size)
  {
    var d := done + EscapeChar(rest[0]);
    var s := EscapeFrom(d, rest[1..], size);
    assert IsPrefix(d, s);
    assert s[|done|] == s[..|d|][|done|] == d[|done|];
  }

  ghost predicate Contains(s: string, t: string) {
    exists i :: OccursAt(s, t, i)
  }

  /** Escaping does not create the letters "exp". */
  lemma {:induction false} EscapeAddsNoExp(done: string, rest: string, size: nat, i: nat)
    requires |done| <= i && OccursAt(EscapeFrom(done, rest, size), "exp", i)
    ensures Contains(rest, "exp")
    decreases |rest|
  {
    var s := EscapeFrom(done, rest, size);
    assert s[i] == 'e' && s[i + 1] == 'x' && s[i + 2] == 'p' by {
      assert s[i..i + 3][0] == 'e' && s[i..i + 3][1] == 'x' && s[i..i + 3][2] == 'p';
    }
    EscapeHead(done, rest, size);
    var d := done + EscapeChar(rest[0]);
    if |d| <= i {
      EscapeAddsNoExp(d, rest[1..], size, i);
      var j :| OccursAt(rest[1..], "exp", j);
      assert rest[j + 1..j + 4] == rest[1..][j..j + 3];
      assert OccursAt(rest, "exp", j + 1);
    } else {
      assert s[..|d|] == d && s[i] == d[i];
      assert i == |done| && rest[0] == 'e' && |d| == i + 1;
      EscapeHead(d, rest[1..], size);
      var d2 := d + EscapeChar(rest[1]);
      assert rest[1] == 'x' && |d2| == i + 2;
      EscapeHead(d2, rest[2..], size) by { assert rest[1..][1..] == rest[2..]; }
      assert rest[..3] == "exp";
      assert OccursAt(rest, "exp", 0);
    }
  }

  // ------------------------------------------------------------------ building

  /** `fp_auth_user`, without the picture. */
  datatype User = User(id: nat, email: string, name: string, provider: string)

  /** What the C types guarantee: a 64-bit id and terminated strings in their buffers. */
  ghost predicate ValidUser(u: User) {
    && u.id < 0x1_0000_0000_0000_0000
    && IsCString(u.email) && |u.email| < 256
    && IsCString(u.name) && |u.name| < 256
    && IsCString(u.provider) && |u.provider| < 32
  }

  const TIME_MIN := -0x8000_0000_0000_0000
  const TIME_MAX := 0x7FFF_FFFF_FFFF_FFFF

  /** The conversion of a `time_t` to `unsigned long long`. */
  function Unsigned(t: int): (u: nat)
    requires TIME_MIN <= t <= TIME_MAX
  {
    if t < 0 then t + 0x1_0000_0000_0000_0000 else t
  }

  const HEADER := "{\"alg\":\"HS256\",\"typ\":\"JWT\"}"
  const BEFORE_EMAIL := "\",\"email\":\""
  const BEFORE_NAME := "\",\"name\":\""
  const BEFORE_EXP := "\",\"type\":\"access\","

  function BeforeProvider(u: User): string { "{\"sub\":" + Decimal(u.id) + ",\"provider\":\"" }

  function ExpField(exp: nat): string { "\"exp\":" + Decimal(exp) + "}" }

  function EscapedProvider(u: User): string { Escape(u.provider, 64) }

  function EscapedEmail(u: User): string { Escape(u.email, 256) }

  function EscapedName(u: User): string { Escape(u.name, 256) }

  /** The payload up to the closing quote of each of the three user fields. */
  function ThroughProvider(u: User): string { BeforeProvider(u) + EscapedProvider(u) }

  function ThroughEmail(u: User): string { ThroughProvider(u) + BEFORE_EMAIL + EscapedEmail(u) }

  function ThroughName(u: User): string { ThroughEmail(u) + BEFORE_NAME + EscapedName(u) }

  function Payload(u: User, exp: nat): string { ThroughName(u) + BEFORE_EXP + ExpField(exp) }

  datatype Token = Token(text: string, expiresAt: int)

  function SigningInput(payload: string): string {
    Base64.Url(Bytes(HEADER)) + "." + Base64.Url(Bytes(payload))
  }

  function TokenText(secret: seq<byte>, payload: string): string {
    SigningInput(payload) + "." + Base64.Url(Sha256Spec.Hmac(secret, Bytes(SigningInput(payload))))
  }

  /** None for an empty secret, and when the payload or the token does not fit its 512-byte buffer. */
  function Build(secret: seq<byte>, u: User, now: int, ttl: int): Option<Token>
    requires TIME_MIN <= now + ttl <= TIME_MAX
  {
    var payload := Payload(u, Unsigned(now + ttl));
    var text := TokenText(secret, payload);
    if secret == [] || |payload| >= 512 || |text| >= 512 then None else Some(Token(text, now + ttl))
  }

  method EscapedField(s: string, size: nat) returns (r: string)
    requires 0 < size
    ensures r == Escape(s, size)
  {
    var out := new char[size];
    var n := EscapeJson(s, out);
    r := out[..n];
  }

  /** `fp_auth_build_access_token`. */
  method BuildAccessToken(secret: seq<byte>, u: User, now: int, ttl: int) returns (token: Option<Token>)
    requires TIME_MIN <= now + ttl <= TIME_MAX
    ensures token == Build(secret, u, now, ttl)
  {
    hide Escape, Decimal, Base64.Url, Sha256Spec.Hmac, Bytes;
    if |secret| == 0 { return None; }
    var email := EscapedField(u.email, 256);
    var name := EscapedField(u.name, 256);
    var provider := EscapedField(u.provider, 64);
    var exp := now + ttl;
    var payload := "{\"sub\":" + Decimal(u.id) + ",\"provider\":\"" + provider + BEFORE_EMAIL + email +
                   BEFORE_NAME + name + BEFORE_EXP + "\"exp\":" + Decimal(Unsigned(exp)) + "}";
    assert payload == Payload(u, Unsigned(exp));
    if |payload| >= 512 { return None; }
    var header64 := Base64.EncodeUrl(Bytes(HEADER));
    var payload64 := Base64.EncodeUrl(Bytes(payload));
    var signingInput := header64 + "." + payload64;
    var digest := Sha256Stream.HmacSha256(secret, Bytes(signingInput));
    var sig64 := Base64.EncodeUrl(digest);
    var text := signingInput + "." + sig64;
    if |text| >= 512 { return None; }
    token := Some(Token(text, exp));
  }

  // ---------------------------------------------------------------- validating

  datatype Parsed = Missing | Malformed | Found(v: int)

  /** `fp_json_parse_int64`. */
  function ParseInt64(json: string, key: string): Parsed {
    var loc := IndexOf(json, "\"" + key + "\"", 0);
    if loc == -1 then Missing
    else
      var colon := IndexOfChar(json, ':', loc);
      if colon == -1 then Malformed
      else match Strtoll(SkipSpaces(json[colon + 1..]))
        case None => Malformed
        case Some(v) => Found(v)
  }

  function SkipBlanks(s: string): string {
    if s != "" && (s[0] == ' ' || s[0] == '\t' || s[0] == '\n') then SkipBlanks(s[1..]) else s
  }

  /** What is read of a quoted value into the room left: up to the closing quote, without the backslashes. */
  function Unquote(s: string, room: nat): (r: string)
    ensures |r| <= room
    decreases |s|
  {
    if s == "" || s[0] == '"' || room == 0 then ""
    else if s[0] == '\\' && |s| > 1 then [s[1]] + Unquote(s[2..], room - 1)
    else [s[0]] + Unquote(s[1..], room - 1)
  }

  /** `fp_json_parse_string` into an empty buffer of `size` bytes: the value, or nothing. */
  function ParseString(json: string, key: string, size: nat): string
    requires 0 < size
  {
    var pos := IndexOf(json, "\"" + key + "\"", 0);
    if pos == -1 then ""
    else
      var colon := IndexOfChar(json, ':', pos);
      if colon == -1 then ""
      else
        var t := SkipBlanks(json[colon + 1..]);
        if t == "" || t[0] != '"' then "" else Unquote(t[1..], size - 1)
  }

  /** Its copying loop. */
  method CopyValue(s: string, out: array<char>) returns (n: nat)
    requires 0 < out.Length
    modifies out
    ensures n < out.Length && out[..n] == Unquote(s, out.Length - 1) && out[n] == 0 as char
  {
    hide Unquote;
    var i, room := 0, out.Length - 1;
    n := 0;
    assert s[0..] == s && out[..0] == "";
    while i < |s| && s[i] != '"' && n < room
      invariant i <= |s| && n <= room
      invariant out[..n] + Unquote(s[i..], room - n) == Unquote(s, room)
    {
      ghost var done := out[..n];
      UnquoteStep(s, i, room - n);
      if s[i] == '\\' && i + 1 < |s| { i := i + 1; }
      Reassociated(done, [s[i]], Unquote(s[i + 1..], room - n - 1));
      out[n] := s[i];
      assert out[..n + 1] == done + [s[i]];
      n := n + 1;
      i := i + 1;
    }
    UnquoteEnds(s[i..], room - n);
    assert out[..n] + "" == out[..n];
    out[n] := 0 as char;
  }

  lemma UnquoteEnds(s: string, room: nat)
    requires s == "" || s[0] == '"' || room == 0
    ensures Unquote(s, room) == ""
  {
  }

  lemma UnquoteStep(s: string, i: nat, room: nat)
    requires i < |s| && s[i] != '"' && 0 < room
    ensures var k := if s[i] == '\\' && i + 1 < |s| then i + 1 else i;
      Unquote(s[i..], room) == [s[k]] + Unquote(s[k + 1..], room - 1)
  {
    if s[i] == '\\' && i + 1 < |s| {
      assert s[i..][2..] == s[i + 2..];
    } else {
      assert s[i..][1..] == s[i + 1..];
    }
  }

  method ReadString(json: string, key: string, size: nat) returns (r: string)
    requires 0 < size
    ensures r == ParseString(json, key, size)
  {
    hide IndexOf, IndexOfChar, Unquote;
    var pos := IndexOf(json, "\"" + key + "\"", 0);
    if pos == -1 { return ""; }
    var colon := IndexOfChar(json, ':', pos);
    if colon == -1 { return ""; }
    var t := SkipBlanks(json[colon + 1..]);
    if t == "" || t[0] != '"' { return ""; }
    var out := new char[size];
    var n := CopyValue(t[1..], out);
    r := out[..n];
  }

  /** The user that a payload names, if it carries an unexpired `exp` and a positive `sub`. */
  function Holder(json: string, now: int): Option<User> {
    var exp := ParseInt64(json, "exp");
    var sub := ParseInt64(json, "sub");
    if exp.Found? && exp.v >= now && sub.Found? && sub.v > 0 then
      Some(User(sub.v, ParseString(json, "email", 256), ParseString(json, "name", 256),
                ParseString(json, "provider", 32)))
    else None
  }

  /** The user that an accepted token names. The two first dots cut it into header, payload and signature. */
  function Validate(secret: seq<byte>, token: string, now: int): Option<User> {
    var dot1 := IndexOfChar(token, '.', 0);
    if dot1 == -1 then None
    else
      var dot2 := IndexOfChar(token, '.', dot1 + 1);
      if dot2 == -1 then None
      else if Base64.DecodeUrl(token[dot2 + 1..]) != Sha256Spec.Hmac(secret, Bytes(token[..dot2])) then None
      else Holder(UpToNul(Chars(Base64.DecodeUrl(token[dot1 + 1..dot2]))), now)
  }

  /** `fp_consttime_equal`. */
  method ConstTimeEqual(a: seq<byte>, b: seq<byte>) returns (equal: bool)
    requires |a| == |b|
    ensures equal <==> a == b
  {
    var diff: bv8 := 0;
    for i := 0 to |a|
      invariant diff == 0 <==> a[..i] == b[..i]
    {
      XorIsZero(a[i], b[i]);
      OrIsZero(diff, (a[i] as bv8) ^ (b[i] as bv8));
      diff := diff | ((a[i] as bv8) ^ (b[i] as bv8));
      assert a[..i + 1] == a[..i] + [a[i]] && b[..i + 1] == b[..i] + [b[i]];
    }
    assert a[..|a|] == a && b[..|b|] == b;
    equal := diff == 0;
  }

  lemma OrIsZero(x: bv8, y: bv8)
    ensures x | y == 0 <==> x == 0 && y == 0
  {
  }

  lemma XorIsZero(a: byte, b: byte)
    ensures (a as bv8) ^ (b as bv8) == 0 <==> a == b
  {
    XorBits(a as bv8, b as bv8);
    ByteIsBits(a);
    ByteIsBits(b);
  }

  lemma XorBits(x: bv8, y: bv8)
    ensures x ^ y == 0 <==> x == y
  {
  }

  /** `fp_auth_validate_access` when the store has no record of the user: the user that an accepted token names. */
  method ValidateAccess(secret: seq<byte>, token: string, now: int) returns (user: Option<User>)
    ensures user == Validate(secret, token, now)
  {
    hide ParseString, Base64.DecodeUrl, Sha256Spec.Hmac, Bytes, Chars, UpToNul, ParseInt64, IndexOfChar;
    if |token| == 0 { return None; }
    var dot1 := IndexOfChar(token, '.', 0);
    if dot1 == -1 { return None; }
    var dot2 := IndexOfChar(token, '.', dot1 + 1);
    if dot2 == -1 { return None; }
    var signingInput := token[..dot1] + "." + token[dot1 + 1..dot2];
    assert signingInput == token[..dot2];
    var expected := Sha256Stream.HmacSha256(secret, Bytes(signingInput));
    var sig := Base64.Decode(token[dot2 + 1..]);
    if |sig| != Sha256Spec.DIGEST { return None; }
    var equal := ConstTimeEqual(sig, expected);
    if !equal { return None; }
    var raw := Base64.Decode(token[dot1 + 1..dot2]);
    var json := UpToNul(Chars(raw));
    var exp := ParseInt64(json, "exp");
    if !exp.Found? || exp.v < now { return None; }
    var sub := 0;
    var parsed := ParseInt64(json, "sub");
    if parsed.Found? { sub := parsed.v; }
    var provider := ReadString(json, "provider", 32);
    var email := ReadString(json, "email", 256);
    var name := ReadString(json, "name", 256);
    if sub <= 0 { return None; }
    user := Some(User(sub, email, name, provider));
  }
}
