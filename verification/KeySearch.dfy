/** Where the payload parsers find a key: a search for the quoted key that does not know which quotes belong to values
    (src/auth.c:781-839). */
module KeySearch {
  import opened Common
  import opened Text
  import opened AccessToken

  function Needle(key: string): string { "\"" + key + "\"" }

  /** A key without quotes, whose last character cannot end an escape or a number. */
  predicate IsKey(key: string) {
    key != "" && '"' !in key && ':' !in key && key[|key| - 1] != '\\' && !IsDigit(key[|key| - 1])
  }

  // ------------------------------------------------------------ quotes that may close it

  /** s has a quote right after the character c, at position j. */
  predicate QuoteAfter(s: string, c: char, j: int) {
    0 < j < |s| && s[j] == '"' && s[j - 1] == c
  }

  ghost predicate QuotesOnlyAt(s: string, c: char, where_: set<int>) {
    forall j :: QuoteAfter(s, c, j) ==> j in where_
  }

  /** Appending text in which no quote follows a c adds at most its own first position. */
  lemma AppendQuotes(s: string, t: string, c: char, places: set<int>)
    requires QuotesOnlyAt(s, c, places) && QuotesOnlyAt(t, c, {})
    ensures QuotesOnlyAt(s + t, c, places + {|s|})
    ensures t == "" || t[0] != '"' || s == "" || s[|s| - 1] != c ==> QuotesOnlyAt(s + t, c, places)
  {
    forall j | QuoteAfter(s + t, c, j) ensures j in places || j == |s| {
      if j < |s| {
        assert QuoteAfter(s, c, j);
      } else if j > |s| {
        assert QuoteAfter(t, c, j - |s|);
      }
    }
  }

  /** The same for text with one such quote, at k. */
  lemma AppendQuoted(s: string, t: string, c: char, places: set<int>, k: int)
    requires QuotesOnlyAt(s, c, places) && QuotesOnlyAt(t, c, {k})
    ensures QuotesOnlyAt(s + t, c, places + {|s|, |s| + k})
    ensures t == "" || t[0] != '"' || s == "" || s[|s| - 1] != c ==> QuotesOnlyAt(s + t, c, places + {|s| + k})
  {
    forall j | QuoteAfter(s + t, c, j) ensures j in places || j == |s| || j == |s| + k {
      if j < |s| {
        assert QuoteAfter(s, c, j);
      } else if j > |s| {
        assert QuoteAfter(t, c, j - |s|);
      }
    }
  }

  lemma EscapedIsClean(s: string, c: char)
    requires QuotesEscaped(s) && c != '\\'
    ensures QuotesOnlyAt(s, c, {}) && (s == "" || s[0] != '"')
  {
    forall j ensures !QuoteAfter(s, c, j) {
      if 0 < j < |s| && s[j] == '"' { assert s[j - 1] == '\\'; }
    }
  }

  lemma DecimalIsClean(n: nat, c: char)
    requires !IsDigit(c)
    ensures QuotesOnlyAt(Decimal(n), c, {}) && IsDigit(Decimal(n)[0]) && Decimal(n)[|Decimal(n)| - 1] != c
  {
    forall j ensures !QuoteAfter(Decimal(n), c, j) {
      if 0 < j < |Decimal(n)| { assert IsDigit(Decimal(n)[j]); }
    }
  }

  // ----------------------------------------------------- fields that look like the key

  /** The closing quote of an escaped field completes the quoted key exactly when the field ends this way. */
  predicate Exposes(field: string, key: string) {
    field == key || EndsWith(field, "\"" + key)
  }

  lemma EndsMeansExposes(before: string, field: string, key: string)
    requires IsKey(key) && before != "" && before[|before| - 1] == '"'
    ensures EndsWith(before + field, "\"" + key) <==> Exposes(field, key)
  {
    var s, n := before + field, |key| + 1;
    if |s| >= n {
      var e := s[|s| - n..];
      if |field| < |key| {
        var k := |key| - |field|;
        assert e[k] == '"' && ("\"" + key)[k] == key[k - 1];
      } else if |field| == |key| {
        assert field == e[1..] && ("\"" + key)[1..] == key;
      } else {
        assert field[|field| - n..] == e;
      }
    }
    if field == key {
      assert s[|s| - n..] == [before[|before| - 1]] + field;
    } else if EndsWith(field, "\"" + key) {
      assert s[|s| - n..] == field[|field| - n..];
    }
  }

  /** An occurrence of the quoted key puts a quote after the key's last character. */
  lemma NeedleHasQuote(s: string, key: string, i: int)
    requires IsKey(key) && OccursAt(s, Needle(key), i)
    ensures QuoteAfter(s, key[|key| - 1], i + |key| + 1) && EndsWith(s[..i + |key| + 1], "\"" + key)
  {
    var n := |key|;
    var e := s[i..i + n + 2];
    assert e[n] == key[n - 1] && e[n + 1] == '"' && e[n] == s[i + n] && e[n + 1] == s[i + n + 1];
    assert s[..i + n + 1][i..] == e[..n + 1] == "\"" + key;
  }

  lemma NeedleFromEnd(s: string, key: string, q: nat)
    requires q < |s| && s[q] == '"' && EndsWith(s[..q], "\"" + key)
    ensures OccursAt(s, Needle(key), q - |key| - 1)
  {
    var i := q - |key| - 1;
    assert s[i..q + 1] == s[..q][i..] + [s[q]];
  }

  /** The closing quote of a field, which is at the field's end in p. */
  lemma Candidate(p: string, before: string, field: string, key: string)
    requires IsKey(key) && before != "" && before[|before| - 1] == '"'
    requires |before + field| < |p| && p[..|before + field|] == before + field && p[|before + field|] == '"'
    ensures OccursAt(p, Needle(key), |before + field| - |key| - 1) <==> Exposes(field, key)
  {
    EndsMeansExposes(before, field, key);
    var q := |before + field|;
    if OccursAt(p, Needle(key), q - |key| - 1) { NeedleHasQuote(p, key, q - |key| - 1); }
    if Exposes(field, key) { NeedleFromEnd(p, key, q); }
  }

  lemma SliceHead(p: string, i: nat, t: string)
    requires t != "" && i + |t| <= |p| && p[i..i + |t|] == t
    ensures p[i] == t[0]
  {
  }

  lemma OccursInside(s: string, needle: string, i: int)
    requires OccursAt(s, needle, i)
    ensures 0 <= i
  {
  }

  /** Before f, the only quotes after the key's last character are at places at which the key does not end. */
  lemma FirstAt(p: string, n: nat, key: string, f: int, places: set<int>)
    requires IsKey(key) && OccursAt(p, Needle(key), f) && f + |key| + 2 <= n <= |p|
    requires QuotesOnlyAt(p[..n], key[|key| - 1], places)
    requires forall q :: q in places && q < f + |key| + 1 ==> !OccursAt(p, Needle(key), q - |key| - 1)
    ensures 0 <= f && IndexOf(p, Needle(key), 0) == f
  {
    hide QuotesOnlyAt, OccursAt;
    OccursInside(p, Needle(key), f);
    forall j | 0 <= j < f ensures !OccursAt(p, Needle(key), j) {
      if OccursAt(p, Needle(key), j) {
        NeedleHasQuote(p, key, j);
        QuoteInPrefix(p, n, key[|key| - 1], places, j + |key| + 1);
      }
    }
    IndexIs(p, Needle(key), 0, f);
  }

  lemma QuoteInPrefix(p: string, n: nat, c: char, places: set<int>, q: int)
    requires n <= |p| && q < n && QuotesOnlyAt(p[..n], c, places) && QuoteAfter(p, c, q)
    ensures q in places
  {
    assert QuoteAfter(p[..n], c, q);
  }

  /** The first colon after the key, when the key is closed at q - 1 and the text from q on is k. */
  lemma ColonAfter(p: string, key: string, q: nat, k: string, c: nat)
    requires IsKey(key) && OccursAt(p, Needle(key), q - |key| - 1) && q + |k| <= |p| && p[q..q + |k|] == k
    requires c < |k| && k[c] == ':' && k[0] == '"' && forall j :: 0 <= j < c ==> k[j] != ':'
    ensures 0 <= q - |key| - 1 && IndexOfChar(p, ':', q - |key| - 1) == q + c
  {
    var i := q - |key| - 1;
    forall j | i <= j < q + c ensures p[j] != ':' {
      if j < q { assert p[j] == p[i..i + |key| + 2][j - i] == Needle(key)[j - i]; } else { assert p[j] == k[j - q]; }
    }
    assert p[q + c] == p[q..q + |k|][c];
    CharIndexIs(p, ':', i, q + c);
  }
}
