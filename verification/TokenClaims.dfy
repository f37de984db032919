/** How the user's strings come back from the payload of an access token (src/auth.c:638-677, 808-839). */
module TokenClaims {
  import opened Common
  import opened Text
  import opened AccessToken
  import opened KeySearch
  import opened TokenPayload

  // ------------------------------------------------------- escaping, character by character

  function Escaped(s: string): (r: string)
    ensures |r| >= |s|
  {
    if s == "" then "" else EscapeChar(s[0]) + Escaped(s[1..])
  }

  /** How many characters are escaped before fewer than three bytes are left, when `length` have been written. */
  function Taken(length: nat, s: string, size: nat): (n: nat)
    ensures n <= |s|
    decreases |s|
  {
    if s == "" || length + 2 >= size then 0 else 1 + Taken(length + |EscapeChar(s[0])|, s[1..], size)
  }

  lemma {:induction false} EscapeIsPrefix(done: string, s: string, size: nat)
    ensures EscapeFrom(done, s, size) == done + Escaped(s[..Taken(|done|, s, size)])
    ensures |done| < size ==> |EscapeFrom(done, s, size)| < size
    decreases |s|
  {
    hide EscapeChar;
    if s != "" && |done| + 2 < size {
      var d := done + EscapeChar(s[0]);
      EscapeIsPrefix(d, s[1..], size);
      var n := Taken(|d|, s[1..], size);
      assert s[..n + 1][1..] == s[1..][..n];
      Reassociated(done, EscapeChar(s[0]), Escaped(s[1..][..n]));
    } else {
      assert s[..0] == "";
      assert done + "" == done;
    }
  }

  /** The string fits its escape buffer: nothing of it is cut off. */
  predicate EscapeFits(length: nat, s: string, size: nat) {
    s == "" || length + |Escaped(s[..|s| - 1])| + 2 < size
  }

  lemma {:induction false} TakenExactlyWhen(length: nat, s: string, size: nat)
    ensures Taken(length, s, size) == |s| <==> EscapeFits(length, s, size)
    decreases |s|
  {
    hide EscapeChar;
    if s != "" {
      var rest, next := s[1..], length + |EscapeChar(s[0])|;
      TakenExactlyWhen(next, rest, size);
      if rest != "" {
        assert s[..|s| - 1][0] == s[0] && s[..|s| - 1][1..] == rest[..|rest| - 1];
      } else {
        assert s[..|s| - 1] == "";
      }
    }
  }

  // ------------------------------------------------------------------ taking it back

  /** Reading drops the backslash, so a line break or tab comes back as the letter of its escape. */
  function Letter(c: char): char {
    if c == '\n' then 'n' else if c == '\r' then 'r' else if c == '\t' then 't' else c
  }

  function Letters(s: string): (r: string)
    ensures |r| == |s| && forall i :: 0 <= i < |s| ==> r[i] == Letter(s[i])
  {
    if s == "" then "" else [Letter(s[0])] + Letters(s[1..])
  }

  function Cut(s: string, room: nat): string {
    if |s| <= room then s else s[..room]
  }

  lemma {:induction false} UnquoteEscaped(s: string, rest: string, room: nat)
    ensures Unquote(Escaped(s) + ("\"" + rest), room) == Cut(Letters(s), room)
    decreases |s|
  {
    var tail := "\"" + rest;
    if s == "" {
      assert "" + tail == tail;
    } else if room > 0 {
      var more := Escaped(s[1..]) + tail;
      assert Escaped(s) + tail == EscapeChar(s[0]) + more;
      UnquoteEscaped(s[1..], rest, room - 1);
      UnquoteChar(s[0], more, room);
      CutFirst(Letter(s[0]), Letters(s[1..]), room);
    } else {
      assert Letters(s)[..0] == "";
    }
  }

  lemma UnquoteChar(c: char, more: string, room: nat)
    requires 0 < room && more != ""
    ensures Unquote(EscapeChar(c) + more, room) == [Letter(c)] + Unquote(more, room - 1)
  {
    var all := EscapeChar(c) + more;
    if |EscapeChar(c)| == 2 {
      assert all[0] == '\\' && all[1] == Letter(c) && all[2..] == more;
    } else {
      assert all[0] == c && all[1..] == more;
    }
  }

  lemma CutFirst(c: char, s: string, room: nat)
    requires 0 < room
    ensures Cut([c] + s, room) == [c] + Cut(s, room - 1)
  {
    if |s| + 1 > room { assert ([c] + s)[..room] == [c] + s[..room - 1]; }
  }

  /** What comes back of a string that was escaped into one buffer and read into another. */
  function Back(s: string, size: nat, buffer: nat): string
    requires 0 < buffer
  {
    Cut(Letters(s[..Taken(0, s, size)]), buffer - 1)
  }

  lemma UnquoteField(s: string, size: nat, buffer: nat, rest: string)
    requires 0 < buffer
    ensures Unquote(Escape(s, size) + ("\"" + rest), buffer - 1) == Back(s, size, buffer)
  {
    hide Unquote, Escaped;
    EscapeIsPrefix("", s, size);
    assert "" + Escaped(s[..Taken(0, s, size)]) == Escaped(s[..Taken(0, s, size)]);
    UnquoteEscaped(s[..Taken(0, s, size)], rest, buffer - 1);
  }

  /** No line break, carriage return or tab. */
  predicate Lasting(s: string) {
    forall i :: 0 <= i < |s| ==> s[i] != '\n' && s[i] != '\r' && s[i] != '\t'
  }

  /** A string comes back unchanged if and only if it fits both buffers and holds no line break, carriage return or
      tab. */
  lemma BackExactlyWhen(s: string, size: nat, buffer: nat)
    requires 0 < buffer
    ensures Back(s, size, buffer) == s <==> EscapeFits(0, s, size) && |s| < buffer && Lasting(s)
  {
    TakenExactlyWhen(0, s, size);
    var n := Taken(0, s, size);
    if n == |s| && |s| < buffer {
      assert s[..n] == s;
      if !Lasting(s) {
        var i :| 0 <= i < |s| && !(s[i] != '\n' && s[i] != '\r' && s[i] != '\t');
        assert Letters(s)[i] != s[i];
      } else {
        assert Letters(s) == s;
      }
    } else {
      assert |Back(s, size, buffer)| < |s|;
    }
  }

  // --------------------------------------------------------------- finding the fields

  lemma FieldKeys()
    ensures IsKey("provider") && IsKey("email") && IsKey("name")
    ensures "provider"[7] == 'r' && "email"[4] == 'l' && "name"[3] == 'e'
    ensures QuotesOnlyAt("{\"sub\":", 'r', {}) && QuotesOnlyAt(",\"provider\":\"", 'r', {10})
    ensures QuotesOnlyAt("{\"sub\":", 'l', {}) && QuotesOnlyAt(",\"provider\":\"", 'l', {})
    ensures QuotesOnlyAt("{\"sub\":", 'e', {}) && QuotesOnlyAt(",\"provider\":\"", 'e', {})
    ensures QuotesOnlyAt(BEFORE_EMAIL, 'l', {8}) && QuotesOnlyAt(BEFORE_EMAIL, 'e', {})
    ensures QuotesOnlyAt(BEFORE_NAME, 'e', {7})
  {
  }

  lemma HeadQuotes(u: User, c: char)
    requires !IsDigit(c)
    requires QuotesOnlyAt("{\"sub\":", c, {})
    ensures QuotesOnlyAt(",\"provider\":\"", c, {}) ==> QuotesOnlyAt(BeforeProvider(u), c, {})
    ensures QuotesOnlyAt(",\"provider\":\"", c, {10}) ==> QuotesOnlyAt(BeforeProvider(u), c, {|BeforeProvider(u)| - 3})
    ensures |BeforeProvider(u)| > 20 && BeforeProvider(u)[|BeforeProvider(u)| - 1] == '"'
    ensures BeforeProvider(u)[|BeforeProvider(u)| - 12..] == "\"provider\":\""
  {
    hide Decimal, QuotesOnlyAt;
    DecimalIsClean(u.id, c);
    var head, next := "{\"sub\":" + Decimal(u.id), ",\"provider\":\"";
    assert BeforeProvider(u) == head + next;
    AppendQuotes("{\"sub\":", Decimal(u.id), c, {});
    if QuotesOnlyAt(next, c, {}) { AppendQuotes(head, next, c, {}); }
    if QuotesOnlyAt(next, c, {10}) {
      AppendQuoted(head, next, c, {}, 10);
      assert {} + {|head| + 10} == {|BeforeProvider(u)| - 3};
    }
  }

  /** A key at i, the colon after it, and then the quoted field. */
  lemma ReadAt(p: string, key: string, i: nat, colon: nat, s: string, size: nat, buffer: nat, rest: string)
    requires 0 < buffer && IndexOf(p, Needle(key), 0) == i && i <= |p| && IndexOfChar(p, ':', i) == colon
    requires colon < |p| && p[colon + 1..] == "\"" + (Escape(s, size) + ("\"" + rest))
    ensures ParseString(p, key, buffer) == Back(s, size, buffer)
  {
    hide Unquote, Escape, Back, IndexOf, IndexOfChar;
    var t := p[colon + 1..];
    assert SkipBlanks(t) == t && t[1..] == Escape(s, size) + ("\"" + rest);
    UnquoteField(s, size, buffer, rest);
  }

  /** The text of p from the opening quote of a field on. */
  lemma FieldTail(p: string, before: string, field: string)
    requires before != "" && before[|before| - 1] == '"'
    requires |before + field| < |p| && p[..|before + field|] == before + field && p[|before + field|] == '"'
    ensures p[|before| - 1..] == "\"" + (field + ("\"" + p[|before + field| + 1..]))
  {
    var n, m := |before|, |before + field|;
    assert p == (before + field) + (['"'] + p[m + 1..]);
    assert before == before[..n - 1] + "\"";
  }

  /** The provider's key stands right before the provider. */
  lemma ProviderKey(p: string, before: string)
    requires |before| > 20 && |before| <= |p| && p[..|before|] == before
    requires before[|before| - 12..] == "\"provider\":\"" && QuotesOnlyAt(before, 'r', {|before| - 3})
    ensures IndexOf(p, Needle("provider"), 0) == |before| - 12 && IndexOfChar(p, ':', |before| - 12) == |before| - 2
  {
    hide QuotesOnlyAt, OccursAt, IndexOf, IndexOfChar;
    FieldKeys();
    var n, k := |before|, "\"provider\":\"";
    assert p[n - 12..n] == before[n - 12..];
    OccursAtKey(p, n - 12, k, "provider");
    FirstAt(p, n, "provider", n - 12, {n - 3});
    assert p[n - 3..n] == p[n - 12..n][9..] == k[9..] == "\":\"";
    ColonAfter(p, "provider", n - 3, "\":\"", 1);
  }

  lemma ProviderRead(u: User, exp: nat)
    ensures ParseString(Payload(u, exp), "provider", 32) == Back(u.provider, 64, 32)
  {
    hide Payload, Escape, QuotesOnlyAt, IndexOf, IndexOfChar, ParseString, Back, ThroughEmail, ThroughName;
    var p, before := Payload(u, exp), BeforeProvider(u);
    PayloadCuts(u, exp);
    FieldKeys();
    HeadQuotes(u, 'r');
    assert p[..|before|] == ThroughProvider(u)[..|before|] == before;
    ProviderKey(p, before);
    SliceHead(p, |ThroughProvider(u)|, BEFORE_EMAIL);
    FieldTail(p, before, EscapedProvider(u));
    ReadAt(p, "provider", |before| - 12, |before| - 2, u.provider, 64, 32, p[|ThroughProvider(u)| + 1..]);
  }

  lemma PrefixIs(p: string, s: string, t: string)
    requires |s| + |t| <= |p| && p[..|s|] == s && p[|s|..|s| + |t|] == t
    ensures p[..|s| + |t|] == s + t
  {
    assert p[..|s| + |t|] == p[..|s|] + p[|s|..|s| + |t|];
  }

  lemma OccursAtKey(p: string, i: nat, k: string, key: string)
    requires i + |k| <= |p| && p[i..i + |k|] == k && IsPrefix(Needle(key), k)
    ensures OccursAt(p, Needle(key), i)
  {
    assert p[i..i + |key| + 2] == k[..|key| + 2];
  }

  lemma QuotesBeforeEmail(u: User)
    ensures QuotesOnlyAt(ThroughProvider(u) + BEFORE_EMAIL, 'l', {|ThroughProvider(u)|, |ThroughProvider(u)| + 8})
  {
    hide Escape, QuotesOnlyAt, BeforeProvider;
    FieldKeys();
    FieldsAreClean(u);
    HeadQuotes(u, 'l');
    EscapedIsClean(EscapedProvider(u), 'l');
    AppendQuotes(BeforeProvider(u), EscapedProvider(u), 'l', {});
    AppendQuoted(ThroughProvider(u), BEFORE_EMAIL, 'l', {}, 8);
    assert {} + {|ThroughProvider(u)|, |ThroughProvider(u)| + 8} ==
           {|ThroughProvider(u)|, |ThroughProvider(u)| + 8};
  }

  lemma QuotesBeforeName(u: User)
    ensures QuotesOnlyAt(ThroughEmail(u) + BEFORE_NAME, 'e',
                         {|ThroughProvider(u)|, |ThroughEmail(u)|, |ThroughEmail(u)| + 7})
  {
    hide Escape, QuotesOnlyAt, BeforeProvider;
    FieldKeys();
    FieldsAreClean(u);
    HeadQuotes(u, 'e');
    EscapedIsClean(EscapedProvider(u), 'e');
    EscapedIsClean(EscapedEmail(u), 'e');
    var places := {|ThroughProvider(u)|};
    AppendQuotes(BeforeProvider(u), EscapedProvider(u), 'e', {});
    AppendQuotes(ThroughProvider(u), BEFORE_EMAIL, 'e', {});
    AppendQuotes(ThroughProvider(u) + BEFORE_EMAIL, EscapedEmail(u), 'e', places);
    AppendQuoted(ThroughEmail(u), BEFORE_NAME, 'e', places, 7);
    assert places + {|ThroughEmail(u)|, |ThroughEmail(u)| + 7} ==
           {|ThroughProvider(u)|, |ThroughEmail(u)|, |ThroughEmail(u)| + 7};
  }

  /** The colon after the email's key, and the quoted email after that. */
  lemma EmailAfterColon(u: User, exp: nat)
    ensures var p, n := Payload(u, exp), |ThroughProvider(u)|;
      && |ThroughEmail(u)| < |p|
      && p[n + 10..] == "\"" + (EscapedEmail(u) + ("\"" + p[|ThroughEmail(u)| + 1..]))
  {
    hide Payload, Escape, ThroughName, ThroughProvider;
    var p := Payload(u, exp);
    PayloadCuts(u, exp);
    SliceHead(p, |ThroughEmail(u)|, BEFORE_NAME);
    FieldTail(p, ThroughProvider(u) + BEFORE_EMAIL, EscapedEmail(u));
  }

  lemma EmailCandidates(u: User, exp: nat)
    ensures var p, n := Payload(u, exp), |ThroughProvider(u)|;
      && (OccursAt(p, Needle("email"), n - 6) <==> Exposes(EscapedProvider(u), "email"))
      && OccursAt(p, Needle("email"), n + 2)
  {
    hide Payload, Escape, OccursAt, Exposes, ThroughName, ThroughEmail, QuotesOnlyAt;
    var p, n := Payload(u, exp), |ThroughProvider(u)|;
    PayloadCuts(u, exp);
    FieldKeys();
    HeadQuotes(u, 'l');
    SliceHead(p, n, BEFORE_EMAIL);
    Candidate(p, BeforeProvider(u), EscapedProvider(u), "email");
    assert p[n + 2..n + 11] == p[n..n + 11][2..];
    OccursAtKey(p, n + 2, BEFORE_EMAIL[2..], "email");
  }

  lemma EmailKey(u: User, exp: nat) returns (i: nat)
    ensures var p := Payload(u, exp);
      i <= |p| && IndexOf(p, Needle("email"), 0) == i && IndexOfChar(p, ':', i) == |ThroughProvider(u)| + 9
  {
    hide Payload, QuotesOnlyAt, OccursAt, IndexOf, IndexOfChar, ThroughProvider, ThroughEmail, ThroughName, Exposes;
    var p := Payload(u, exp);
    PayloadCuts(u, exp);
    QuotesBeforeEmail(u);
    EmailCandidates(u, exp);
    PrefixIs(p, ThroughProvider(u), BEFORE_EMAIL);
    i := FirstEmail(p, |ThroughProvider(u)|);
  }

  lemma FirstEmail(p: string, n: nat) returns (i: nat)
    requires n + 11 <= |p| && p[n..n + 11] == BEFORE_EMAIL && QuotesOnlyAt(p[..n + 11], 'l', {n, n + 8})
    requires OccursAt(p, Needle("email"), n + 2)
    ensures i <= |p| && IndexOf(p, Needle("email"), 0) == i && IndexOfChar(p, ':', i) == n + 9
  {
    hide QuotesOnlyAt, OccursAt, IndexOf, IndexOfChar;
    FieldKeys();
    if OccursAt(p, Needle("email"), n - 6) {
      FirstAt(p, n + 11, "email", n - 6, {n, n + 8});
      ColonAfter(p, "email", n, BEFORE_EMAIL, 9);
      i := n - 6;
    } else {
      FirstAt(p, n + 11, "email", n + 2, {n, n + 8});
      assert p[n + 8..n + 11] == p[n..n + 11][8..];
      ColonAfter(p, "email", n + 8, BEFORE_EMAIL[8..], 1);
      i := n + 2;
    }
  }

  /** The email is read even when the provider exposes its key, as the next colon is the same one. */
  lemma EmailRead(u: User, exp: nat)
    ensures ParseString(Payload(u, exp), "email", 256) == Back(u.email, 256, 256)
  {
    hide Payload, Escape, IndexOf, IndexOfChar, ParseString, Back, ThroughProvider, ThroughEmail, ThroughName;
    var i := EmailKey(u, exp);
    EmailAfterColon(u, exp);
    var p := Payload(u, exp);
    PayloadCuts(u, exp);
    ReadAt(p, "email", i, |ThroughProvider(u)| + 9, u.email, 256, 256, p[|ThroughEmail(u)| + 1..]);
  }

  lemma NameAfterColon(u: User, exp: nat)
    ensures var p, n := Payload(u, exp), |ThroughEmail(u)|;
      && |ThroughName(u)| < |p|
      && p[n + 9..] == "\"" + (EscapedName(u) + ("\"" + p[|ThroughName(u)| + 1..]))
  {
    hide Payload, Escape, ThroughEmail;
    var p := Payload(u, exp);
    PayloadCuts(u, exp);
    SliceHead(p, |ThroughName(u)|, BEFORE_EXP);
    FieldTail(p, ThroughEmail(u) + BEFORE_NAME, EscapedName(u));
  }

  lemma NameCandidates(u: User, exp: nat)
    ensures var p := Payload(u, exp);
      && (OccursAt(p, Needle("name"), |ThroughProvider(u)| - 5) <==> Exposes(EscapedProvider(u), "name"))
      && (OccursAt(p, Needle("name"), |ThroughEmail(u)| - 5) <==> Exposes(EscapedEmail(u), "name"))
      && OccursAt(p, Needle("name"), |ThroughEmail(u)| + 2)
  {
    hide Payload, Escape, OccursAt, Exposes, ThroughName, QuotesOnlyAt;
    var p, n := Payload(u, exp), |ThroughEmail(u)|;
    PayloadCuts(u, exp);
    FieldKeys();
    HeadQuotes(u, 'e');
    SliceHead(p, |ThroughProvider(u)|, BEFORE_EMAIL);
    SliceHead(p, n, BEFORE_NAME);
    Candidate(p, BeforeProvider(u), EscapedProvider(u), "name");
    Candidate(p, ThroughProvider(u) + BEFORE_EMAIL, EscapedEmail(u), "name");
    assert p[n + 2..n + 10] == p[n..n + 10][2..];
    OccursAtKey(p, n + 2, BEFORE_NAME[2..], "name");
  }

  /** Where the name's key is found, and the colon that follows: the email's if the provider exposes the key. */
  lemma NameKey(u: User, exp: nat) returns (i: nat)
    ensures var p := Payload(u, exp);
      && i <= |p| && IndexOf(p, Needle("name"), 0) == i
      && IndexOfChar(p, ':', i) ==
           if Exposes(EscapedProvider(u), "name") then |ThroughProvider(u)| + 9 else |ThroughEmail(u)| + 8
  {
    hide Payload, QuotesOnlyAt, OccursAt, IndexOf, IndexOfChar, ThroughProvider, ThroughEmail, ThroughName, Exposes;
    var p := Payload(u, exp);
    PayloadCuts(u, exp);
    QuotesBeforeName(u);
    NameCandidates(u, exp);
    PrefixIs(p, ThroughEmail(u), BEFORE_NAME);
    i := FirstName(p, |ThroughProvider(u)|, |ThroughEmail(u)|);
  }

  lemma FirstName(p: string, m: nat, n: nat) returns (i: nat)
    requires m < n && n + 10 <= |p| && m + 11 <= |p| && p[m..m + 11] == BEFORE_EMAIL && p[n..n + 10] == BEFORE_NAME
    requires QuotesOnlyAt(p[..n + 10], 'e', {m, n, n + 7}) && OccursAt(p, Needle("name"), n + 2)
    ensures i <= |p| && IndexOf(p, Needle("name"), 0) == i
    ensures IndexOfChar(p, ':', i) == if OccursAt(p, Needle("name"), m - 5) then m + 9 else n + 8
  {
    hide QuotesOnlyAt, OccursAt, IndexOf, IndexOfChar;
    FieldKeys();
    if OccursAt(p, Needle("name"), m - 5) {
      FirstAt(p, n + 10, "name", m - 5, {m, n, n + 7});
      ColonAfter(p, "name", m, BEFORE_EMAIL, 9);
      i := m - 5;
    } else {
      var q := if OccursAt(p, Needle("name"), n - 5) then n else n + 7;
      FirstAt(p, n + 10, "name", q - 5, {m, n, n + 7});
      NameColon(p, q, n);
      i := q - 5;
    }
  }

  /** The name is read, unless the provider exposes its key: then the next colon is the email's, and that is read. */
  lemma NameRead(u: User, exp: nat)
    ensures ParseString(Payload(u, exp), "name", 256) ==
      Back(if Exposes(EscapedProvider(u), "name") then u.email else u.name, 256, 256)
  {
    hide Payload, Escape, IndexOf, IndexOfChar, ParseString, Back, Exposes, ThroughProvider, ThroughEmail, ThroughName;
    var i := NameKey(u, exp);
    EmailAfterColon(u, exp);
    NameAfterColon(u, exp);
    var p := Payload(u, exp);
    PayloadCuts(u, exp);
    if Exposes(EscapedProvider(u), "name") {
      ReadAt(p, "name", i, |ThroughProvider(u)| + 9, u.email, 256, 256, p[|ThroughEmail(u)| + 1..]);
    } else {
      ReadAt(p, "name", i, |ThroughEmail(u)| + 8, u.name, 256, 256, p[|ThroughName(u)| + 1..]);
    }
  }

  lemma NameColon(p: string, q: nat, n: nat)
    requires IsKey("name") && OccursAt(p, Needle("name"), q - 5) && (q == n || q == n + 7)
    requires n + 10 <= |p| && p[n..n + 10] == BEFORE_NAME
    ensures 0 <= q - 5 && IndexOfChar(p, ':', q - 5) == n + 8
  {
    if q == n {
      ColonAfter(p, "name", n, BEFORE_NAME, 8);
    } else {
      assert p[n + 7..n + 10] == BEFORE_NAME[7..];
      ColonAfter(p, "name", n + 7, BEFORE_NAME[7..], 1);
    }
  }

  /** The user that a valid token for u names. */
  function ReadBack(u: User): User {
    User(Saturate(u.id), Back(u.email, 256, 256),
         Back(if Exposes(EscapedProvider(u), "name") then u.email else u.name, 256, 256), Back(u.provider, 64, 32))
  }
}
