/** What the payload of an access token holds where, and how its numbers are read back. */
module TokenPayload {
  import opened Common
  import opened Text
  import opened AccessToken
  import opened KeySearch

  // --------------------------------------------------- where "exp" can be found

  lemma LiteralsAreClean()
    ensures IsKey("exp") && "exp"[2] == 'p'
    ensures QuotesOnlyAt("{\"sub\":", 'p', {}) && QuotesOnlyAt(",\"provider\":\"", 'p', {})
    ensures QuotesOnlyAt(BEFORE_EMAIL, 'p', {}) && QuotesOnlyAt(BEFORE_NAME, 'p', {})
    ensures QuotesOnlyAt(BEFORE_EXP, 'p', {}) && QuotesOnlyAt("\"exp\":", 'p', {4}) && QuotesOnlyAt("}", 'p', {})
  {
  }

  function ExpAt(u: User): nat { |ThroughName(u)| + |BEFORE_EXP| }

  lemma FieldsAreClean(u: User)
    ensures QuotesEscaped(EscapedProvider(u)) && QuotesEscaped(EscapedEmail(u)) && QuotesEscaped(EscapedName(u))
  {
    EscapeHidesQuotes("", u.provider, 64);
    EscapeHidesQuotes("", u.email, 256);
    EscapeHidesQuotes("", u.name, 256);
  }

  lemma QuotesThroughName(u: User)
    ensures BeforeProvider(u)[|BeforeProvider(u)| - 1] == '"'
    ensures QuotesOnlyAt(ThroughName(u), 'p', {|ThroughProvider(u)|, |ThroughEmail(u)|})
  {
    hide Escape, Decimal, QuotesOnlyAt;
    FieldsAreClean(u);
    LiteralsAreClean();
    DecimalIsClean(u.id, 'p');
    EscapedIsClean(EscapedProvider(u), 'p');
    EscapedIsClean(EscapedEmail(u), 'p');
    EscapedIsClean(EscapedName(u), 'p');
    AppendQuotes("{\"sub\":", Decimal(u.id), 'p', {});
    AppendQuotes("{\"sub\":" + Decimal(u.id), ",\"provider\":\"", 'p', {});
    assert "{\"sub\":" + Decimal(u.id) + ",\"provider\":\"" == BeforeProvider(u);
    AppendQuotes(BeforeProvider(u), EscapedProvider(u), 'p', {});
    AppendQuotes(ThroughProvider(u), BEFORE_EMAIL, 'p', {});
    AppendQuotes(ThroughProvider(u) + BEFORE_EMAIL, EscapedEmail(u), 'p', {|ThroughProvider(u)|});
    AppendQuotes(ThroughEmail(u), BEFORE_NAME, 'p', {|ThroughProvider(u)|});
    AppendQuotes(ThroughEmail(u) + BEFORE_NAME, EscapedName(u), 'p', {|ThroughProvider(u)|, |ThroughEmail(u)|});
  }

  lemma PayloadQuotes(u: User, exp: nat)
    ensures QuotesOnlyAt(Payload(u, exp), 'p',
                         {|ThroughProvider(u)|, |ThroughEmail(u)|, |ThroughName(u)|, ExpAt(u) + 4})
  {
    hide Decimal, QuotesOnlyAt, ThroughName, ThroughEmail, ThroughProvider;
    QuotesThroughName(u);
    LiteralsAreClean();
    ExpFieldQuotes(exp);
    var places := {|ThroughProvider(u)|, |ThroughEmail(u)|};
    AppendQuotes(ThroughName(u), BEFORE_EXP, 'p', places);
    AppendQuoted(ThroughName(u) + BEFORE_EXP, ExpField(exp), 'p', places + {|ThroughName(u)|}, 4);
    assert places + {|ThroughName(u)|} + {ExpAt(u) + 4} ==
           {|ThroughProvider(u)|, |ThroughEmail(u)|, |ThroughName(u)|, ExpAt(u) + 4};
  }

  lemma ExpFieldQuotes(exp: nat)
    ensures QuotesOnlyAt(ExpField(exp), 'p', {4})
  {
    hide Decimal, QuotesOnlyAt;
    LiteralsAreClean();
    DecimalIsClean(exp, 'p');
    AppendQuotes("\"exp\":", Decimal(exp), 'p', {4});
    AppendQuotes("\"exp\":" + Decimal(exp), "}", 'p', {4});
  }

  /** The positions of the three closing quotes and of the genuine key, as prefixes of the payload. */
  lemma PayloadCuts(u: User, exp: nat)
    ensures var p := Payload(u, exp);
      && |ThroughProvider(u)| < |ThroughEmail(u)| < |ThroughName(u)| < ExpAt(u) < |p| - 5
      && p[..|ThroughProvider(u)|] == ThroughProvider(u)
      && p[|ThroughProvider(u)|..|ThroughProvider(u)| + 11] == BEFORE_EMAIL
      && p[..|ThroughEmail(u)|] == ThroughEmail(u) && p[|ThroughEmail(u)|..|ThroughEmail(u)| + 10] == BEFORE_NAME
      && p[..|ThroughName(u)|] == ThroughName(u) && p[|ThroughName(u)|..ExpAt(u)] == BEFORE_EXP
      && p[ExpAt(u)..] == ExpField(exp)
  {
    hide Decimal, Escape;
  }

  /** Which of the four candidate positions hold the quoted key. */
  lemma Candidates(u: User, exp: nat)
    ensures var p := Payload(u, exp);
      && (OccursAt(p, Needle("exp"), |ThroughProvider(u)| - 4) <==> Exposes(EscapedProvider(u), "exp"))
      && (OccursAt(p, Needle("exp"), |ThroughEmail(u)| - 4) <==> Exposes(EscapedEmail(u), "exp"))
      && (OccursAt(p, Needle("exp"), |ThroughName(u)| - 4) <==> Exposes(EscapedName(u), "exp"))
      && OccursAt(p, Needle("exp"), ExpAt(u))
  {
    hide Decimal, Escape, Exposes, EndsWith, Payload, OccursAt, QuotesOnlyAt;
    LiteralsAreClean();
    PayloadCuts(u, exp);
    QuotesThroughName(u);
    var p := Payload(u, exp);
    SliceHead(p, |ThroughProvider(u)|, BEFORE_EMAIL);
    Candidate(p, BeforeProvider(u), EscapedProvider(u), "exp");
    SliceHead(p, |ThroughEmail(u)|, BEFORE_NAME);
    Candidate(p, ThroughProvider(u) + BEFORE_EMAIL, EscapedEmail(u), "exp");
    SliceHead(p, |ThroughName(u)|, BEFORE_EXP);
    Candidate(p, ThroughEmail(u) + BEFORE_NAME, EscapedName(u), "exp");
    GenuineKey(p, ExpAt(u), exp);
  }

  lemma GenuineKey(p: string, i: nat, exp: nat)
    requires i <= |p| && p[i..] == ExpField(exp)
    ensures OccursAt(p, Needle("exp"), i)
  {
    hide Decimal;
    assert ExpField(exp)[..5] == Needle("exp");
    assert p[i..i + 5] == p[i..][..5];
  }

  /** Where the parser finds the key: at the first field that exposes it, or else where it belongs. */
  function FirstKey(u: User): int {
    if Exposes(EscapedProvider(u), "exp") then |ThroughProvider(u)| - 4
    else if Exposes(EscapedEmail(u), "exp") then |ThroughEmail(u)| - 4
    else if Exposes(EscapedName(u), "exp") then |ThroughName(u)| - 4
    else ExpAt(u)
  }

  lemma KeyFound(u: User, exp: nat)
    ensures IndexOf(Payload(u, exp), Needle("exp"), 0) == FirstKey(u) && 0 <= FirstKey(u)
  {
    hide Exposes, Payload, QuotesOnlyAt, EndsWith, OccursAt, ThroughName, ThroughEmail, ThroughProvider;
    var p := Payload(u, exp);
    LiteralsAreClean();
    Candidates(u, exp);
    PayloadQuotes(u, exp);
    PayloadOrder(u, exp);
    assert p[..|p|] == p;
    FirstAt(p, |p|, "exp", FirstKey(u),
            {|ThroughProvider(u)|, |ThroughEmail(u)|, |ThroughName(u)|, ExpAt(u) + 4});
  }

  lemma PayloadOrder(u: User, exp: nat)
    ensures |ThroughProvider(u)| < |ThroughEmail(u)| < |ThroughName(u)| < ExpAt(u) < |Payload(u, exp)| - 5
  {
    PayloadCuts(u, exp);
  }

  // ------------------------------------------------------------- parsing it back

  lemma ParseExpAt(p: string, i: nat, colon: nat)
    requires IndexOf(p, Needle("exp"), 0) == i && i <= colon < |p| && IndexOfChar(p, ':', i) == colon
    ensures ParseInt64(p, "exp") ==
      match Strtoll(SkipSpaces(p[colon + 1..])) { case None => Malformed case Some(v) => Found(v) }
  {
    hide Strtoll, SkipSpaces;
  }

  /** After a key that ends in a field's closing quote comes template text whose first colon is followed by a quote. */
  lemma MalformedAfterField(p: string, q: nat, k: string, c: nat)
    requires IndexOf(p, Needle("exp"), 0) == q - 4 && 4 <= q && q + |k| <= |p| && p[q..q + |k|] == k
    requires c + 1 < |k| && k[0] == '"' && k[c] == ':' && k[c + 1] == '"' && forall j :: 0 <= j < c ==> k[j] != ':'
    ensures ParseInt64(p, "exp") == Malformed
  {
    hide Strtoll, SkipSpaces, ParseInt64, OccursAt;
    LiteralsAreClean();
    ColonAfter(p, "exp", q, k, c);
    assert p[q + c + 1] == p[q..q + |k|][c + 1];
    ParseExpAt(p, q - 4, q + c);
    NoDigitAfterQuote(p[q + c + 1..]);
  }

  lemma NoDigitAfterQuote(s: string)
    requires s != "" && s[0] == '"'
    ensures Strtoll(SkipSpaces(s)) == None
  {
    StrtollNeedsDigit(s);
  }

  lemma SkipNothing(s: string)
    requires s != "" && IsDigit(s[0])
    ensures SkipSpaces(s) == s
  {
  }

  lemma FoundWhereItBelongs(p: string, i: nat, exp: nat)
    requires IndexOf(p, Needle("exp"), 0) == i && i <= |p| && p[i..] == ExpField(exp)
    ensures ParseInt64(p, "exp") == Found(Saturate(exp))
  {
    hide Decimal, Strtoll, Saturate, SkipSpaces, ParseInt64, IndexOf;
    var f := "\"exp\":" + Decimal(exp) + "}";
    forall j | i <= j < i + 5 ensures p[j] != ':' { assert p[j] == f[j - i]; }
    assert p[i + 5] == f[5] == ':';
    CharIndexIs(p, ':', i, i + 5);
    ParseExpAt(p, i, i + 5);
    assert p[i + 6..] == p[i..][6..] == Decimal(exp) + "}";
    assert IsDigit(Decimal(exp)[0]);
    SkipNothing(Decimal(exp) + "}");
    StrtollReadsDecimal(exp, "}");
  }

  /** No escaped field ends in a way that exposes a bare `"exp"` key. */
  predicate FieldsPlain(u: User) {
    !Exposes(EscapedProvider(u), "exp") && !Exposes(EscapedEmail(u), "exp") && !Exposes(EscapedName(u), "exp")
  }

  lemma ParsedExp(u: User, exp: nat)
    ensures ParseInt64(Payload(u, exp), "exp") == if FieldsPlain(u) then Found(Saturate(exp)) else Malformed
  {
    hide Exposes, Payload, Escape, ThroughName, ThroughEmail, ThroughProvider, ExpField, IndexOf, ParseInt64;
    var p := Payload(u, exp);
    KeyFound(u, exp);
    PayloadCuts(u, exp);
    if Exposes(EscapedProvider(u), "exp") {
      MalformedAfterField(p, |ThroughProvider(u)|, BEFORE_EMAIL, 9);
    } else if Exposes(EscapedEmail(u), "exp") {
      MalformedAfterField(p, |ThroughEmail(u)|, BEFORE_NAME, 8);
    } else if Exposes(EscapedName(u), "exp") {
      MalformedAfterField(p, |ThroughName(u)|, BEFORE_EXP, 8);
    } else {
      FoundWhereItBelongs(p, ExpAt(u), exp);
    }
  }

  lemma PayloadHead(u: User, exp: nat)
    ensures exists rest :: Payload(u, exp) == "{\"sub\":" + (Decimal(u.id) + ("," + rest))
  {
    hide Decimal, Payload, ThroughProvider, ThroughEmail, ThroughName, ExpField;
    PayloadCuts(u, exp);
    assert ThroughProvider(u) == BeforeProvider(u) + EscapedProvider(u) by { ProviderPart(u); }
    assert BeforeProvider(u) == "{\"sub\":" + (Decimal(u.id) + ("," + "\"provider\":\""));
    var p, n := Payload(u, exp), |ThroughProvider(u)|;
    assert p == p[..n] + p[n..];
    var rest := "\"provider\":\"" + (EscapedProvider(u) + p[n..]);
    Reassociate("{\"sub\":", Decimal(u.id), ",", "\"provider\":\"", EscapedProvider(u), p[n..]);
  }

  lemma ProviderPart(u: User)
    ensures ThroughProvider(u) == BeforeProvider(u) + EscapedProvider(u)
  {
    hide BeforeProvider, EscapedProvider;
  }

  lemma Reassociate(a: string, b: string, c: string, d: string, e: string, f: string)
    ensures (a + (b + (c + d)) + e) + f == a + (b + (c + (d + (e + f))))
  {
  }

  lemma ParsedSub(u: User, exp: nat)
    ensures ParseInt64(Payload(u, exp), "sub") == Found(Saturate(u.id))
  {
    hide Decimal, Strtoll, Saturate, Payload;
    PayloadHead(u, exp);
    var rest :| Payload(u, exp) == "{\"sub\":" + (Decimal(u.id) + ("," + rest));
    var tail := Decimal(u.id) + ("," + rest);
    var p := "{\"sub\":" + tail;
    assert "\"" + "sub" + "\"" == "\"sub\"";
    assert p[1..6] == "\"sub\"";
    assert !OccursAt(p, "\"sub\"", 0) by { assert p[0..5][0] == '{'; }
    IndexIs(p, "\"sub\"", 0, 1);
    CharIndexIs(p, ':', 1, 6);
    assert p[7..] == tail;
    SkipNothing(tail);
    StrtollReadsDecimal(u.id, "," + rest);
  }

  lemma PayloadIsCString(u: User, exp: nat)
    requires ValidUser(u)
    ensures IsCString(Payload(u, exp))
  {
    hide Decimal, Escape;
    EscapeIsCString(u.provider, 64);
    EscapeIsCString(u.email, 256);
    EscapeIsCString(u.name, 256);
    DigitsAreCString(Decimal(u.id));
    DigitsAreCString(Decimal(exp));
    CStringConcat("{\"sub\":", Decimal(u.id));
    CStringConcat("{\"sub\":" + Decimal(u.id), ",\"provider\":\"");
    CStringConcat(BeforeProvider(u), EscapedProvider(u));
    CStringConcat(ThroughProvider(u), BEFORE_EMAIL);
    CStringConcat(ThroughProvider(u) + BEFORE_EMAIL, EscapedEmail(u));
    CStringConcat(ThroughEmail(u), BEFORE_NAME);
    CStringConcat(ThroughEmail(u) + BEFORE_NAME, EscapedName(u));
    CStringConcat(ThroughName(u), BEFORE_EXP);
    CStringConcat("\"exp\":", Decimal(exp));
    CStringConcat("\"exp\":" + Decimal(exp), "}");
    CStringConcat(ThroughName(u) + BEFORE_EXP, ExpField(exp));
  }

  lemma EscapeIsCString(s: string, size: nat)
    requires IsCString(s)
    ensures IsCString(Escape(s, size))
  {
    EscapeKeepsCString("", s, size);
  }

  lemma DigitsAreCString(s: string)
    requires forall i :: 0 <= i < |s| ==> IsDigit(s[i])
    ensures IsCString(s)
  {
  }

  lemma CStringConcat(s: string, t: string)
    requires IsCString(s) && IsCString(t)
    ensures IsCString(s + t)
  {
  }
}
