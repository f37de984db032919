/** The base64 encoders and the base64url codec (src/auth.c:258-370, src/server.c:1345-1385, src/progress.c:353-386). */
module Base64 {
  import opened Common

  /** Symbol i of the standard alphabet, RFC 4648 section 4. */
  function Symbol(i: nat): char
    requires i < 64
  {
    if i < 26 then ('A' as int + i) as char
    else if i < 52 then ('a' as int + (i - 26)) as char
    else if i < 62 then ('0' as int + (i - 52)) as char
    else if i == 62 then '+' else '/'
  }

  /** Symbol i of the URL-safe alphabet, RFC 4648 section 5. */
  function UrlSymbol(i: nat): char
    requires i < 64
  {
    if i == 62 then '-' else if i == 63 then '_' else Symbol(i)
  }

  predicate InUrlAlphabet(c: char) {
    'A' <= c <= 'Z' || 'a' <= c <= 'z' || '0' <= c <= '9' || c == '-' || c == '_'
  }

  /** The decoding table: characters outside the alphabet read as 0. */
  function Value(c: char): (v: nat)
    ensures v < 64
  {
    if 'A' <= c <= 'Z' then c as int - 'A' as int
    else if 'a' <= c <= 'z' then c as int - 'a' as int + 26
    else if '0' <= c <= '9' then c as int - '0' as int + 52
    else if c == '+' then 62
    else if c == '/' then 63
    else 0
  }

  function Triple(b0: byte, b1: byte, b2: byte): nat {
    b0 * 65536 + b1 * 256 + b2
  }

  /** Sextet k of a 24-bit group, most significant first. */
  function Sextet(t: nat, k: nat): (v: nat)
    requires k < 4
    ensures v < 64
  {
    (t / (if k == 0 then 262144 else if k == 1 then 4096 else if k == 2 then 64 else 1)) % 64
  }

  /** The 24-bit input group of one to three bytes, filled with zeros. */
  function GroupTriple(d: seq<byte>): nat
    requires 1 <= |d| <= 3
  {
    Triple(d[0], if |d| > 1 then d[1] else 0, if |d| > 2 then d[2] else 0)
  }

  /** One padded output group, RFC 4648 section 4. */
  function StandardGroup(d: seq<byte>): (s: string)
    requires 1 <= |d| <= 3
    ensures |s| == 4
  {
    var t := GroupTriple(d);
    [Symbol(Sextet(t, 0)), Symbol(Sextet(t, 1)),
     if |d| > 1 then Symbol(Sextet(t, 2)) else '=', if |d| > 2 then Symbol(Sextet(t, 3)) else '=']
  }

  /** One output group of base64url: no padding, RFC 4648 sections 3.2 and 5. */
  function UrlGroup(d: seq<byte>): (s: string)
    requires 1 <= |d| <= 3
    ensures |s| == |d| + 1
  {
    var t := GroupTriple(d);
    [UrlSymbol(Sextet(t, 0)), UrlSymbol(Sextet(t, 1))] +
    (if |d| > 1 then [UrlSymbol(Sextet(t, 2))] else []) + (if |d| > 2 then [UrlSymbol(Sextet(t, 3))] else [])
  }

  /** The padded encoding of a byte string. */
  function Standard(data: seq<byte>): string {
    if |data| == 0 then ""
    else if |data| <= 3 then StandardGroup(data)
    else StandardGroup(data[..3]) + Standard(data[3..])
  }

  lemma {:induction false} StandardLength(data: seq<byte>)
    ensures |Standard(data)| == 4 * ((|data| + 2) / 3)
  {
    hide StandardGroup;
    if |data| > 3 { StandardLength(data[3..]); }
  }

  /** The unpadded URL-safe encoding of a byte string. */
  function Url(data: seq<byte>): string {
    if |data| == 0 then ""
    else if |data| <= 3 then UrlGroup(data)
    else UrlGroup(data[..3]) + Url(data[3..])
  }

  /** ceil(4n / 3) characters. */
  lemma {:induction false} UrlLength(data: seq<byte>)
    ensures |Url(data)| == (4 * |data| + 2) / 3
  {
    hide UrlGroup;
    if |data| > 3 { UrlLength(data[3..]); }
  }

  lemma UrlSymbolInAlphabet(i: nat)
    requires i < 64
    ensures InUrlAlphabet(UrlSymbol(i))
  {
  }

  lemma UrlGroupAlphabet(d: seq<byte>)
    requires 1 <= |d| <= 3
    ensures forall i :: 0 <= i < |UrlGroup(d)| ==> InUrlAlphabet(UrlGroup(d)[i])
  {
    hide UrlSymbol, Sextet, InUrlAlphabet, GroupTriple;
    var t := GroupTriple(d);
    UrlSymbolInAlphabet(Sextet(t, 0));
    UrlSymbolInAlphabet(Sextet(t, 1));
    UrlSymbolInAlphabet(Sextet(t, 2));
    UrlSymbolInAlphabet(Sextet(t, 3));
  }

  /** The output only uses the URL-safe alphabet: no padding, no '.'. */
  lemma {:induction false} UrlAlphabetOnly(data: seq<byte>)
    ensures forall i :: 0 <= i < |Url(data)| ==> InUrlAlphabet(Url(data)[i])
  {
    hide UrlGroup, InUrlAlphabet;
    if |data| > 3 {
      UrlGroupAlphabet(data[..3]);
      UrlAlphabetOnly(data[3..]);
    } else if |data| > 0 {
      UrlGroupAlphabet(data);
    }
  }

  function ToUrlChar(c: char): char {
    if c == '+' then '-' else if c == '/' then '_' else c
  }

  function FromUrlChar(c: char): char {
    if c == '-' then '+' else if c == '_' then '/' else c
  }

  function MapChars(f: char -> char, s: string): (r: string)
    ensures |r| == |s| && forall i :: 0 <= i < |s| ==> r[i] == f(s[i])
  {
    seq(|s|, i requires 0 <= i < |s| => f(s[i]))
  }

  /** s without its trailing '=' characters. */
  function Strip(s: string): string {
    if s != "" && s[|s| - 1] == '=' then Strip(s[..|s| - 1]) else s
  }

  lemma {:induction false} StripSuffix(s: string, t: string)
    requires Strip(t) != ""
    ensures Strip(s + t) == s + Strip(t)
  {
    if t[|t| - 1] == '=' {
      assert (s + t)[..|s + t| - 1] == s + t[..|t| - 1];
      StripSuffix(s, t[..|t| - 1]);
    }
  }

  lemma StripGroup(s: string)
    requires |s| == 4 && s[0] != '=' && s[1] != '=' && (s[2] == '=' ==> s[3] == '=')
    ensures Strip(s) == if s[3] != '=' then s else if s[2] != '=' then s[..3] else s[..2]
  {
    assert Strip(s[..2]) == s[..2];
    assert s[..3][..2] == s[..2];
    assert Strip(s[..3]) == if s[2] == '=' then s[..2] else s[..3];
  }

  lemma MapSymbol(i: nat)
    requires i < 64
    ensures ToUrlChar(Symbol(i)) == UrlSymbol(i) != '='
  {
  }

  lemma GroupIsMapped(d: seq<byte>)
    requires 1 <= |d| <= 3
    ensures Strip(MapChars(ToUrlChar, StandardGroup(d))) == UrlGroup(d) != ""
  {
    hide Symbol, UrlSymbol, Sextet, ToUrlChar, GroupTriple;
    var t := GroupTriple(d);
    MapSymbol(Sextet(t, 0));
    MapSymbol(Sextet(t, 1));
    MapSymbol(Sextet(t, 2));
    MapSymbol(Sextet(t, 3));
    assert ToUrlChar('=') == '=' by { MapPadding(); }
    StripGroup(MapChars(ToUrlChar, StandardGroup(d)));
  }

  lemma MapPadding()
    ensures ToUrlChar('=') == '='
  {
  }

  /** The URL encoding is the standard encoding, character-mapped and stripped of its padding. */
  lemma {:induction false} UrlIsMappedStandard(data: seq<byte>)
    ensures Url(data) == Strip(MapChars(ToUrlChar, Standard(data)))
  {
    hide StandardGroup, UrlGroup, ToUrlChar;
    if 0 < |data| <= 3 {
      GroupIsMapped(data);
    } else if |data| > 3 {
      GroupIsMapped(data[..3]);
      UrlIsMappedStandard(data[3..]);
      FullGroupKeeps(data[..3]);
      var g, rest := MapChars(ToUrlChar, StandardGroup(data[..3])), MapChars(ToUrlChar, Standard(data[3..]));
      assert MapChars(ToUrlChar, Standard(data)) == g + rest;
      assert Strip(rest) != "" by { UrlLength(data[3..]); }
      StripSuffix(g, rest);
    }
  }

  lemma FullGroupKeeps(d: seq<byte>)
    requires |d| == 3
    ensures MapChars(ToUrlChar, StandardGroup(d)) == UrlGroup(d)
  {
    hide Symbol, UrlSymbol, Sextet, ToUrlChar, GroupTriple;
    var t := GroupTriple(d);
    MapSymbol(Sextet(t, 0));
    MapSymbol(Sextet(t, 1));
    MapSymbol(Sextet(t, 2));
    MapSymbol(Sextet(t, 3));
  }

  // ------------------------------------------------------------------ decoding

  /** Four characters to up to three bytes. */
  function DecodeGroup(a: char, b: char, c: char, d: char): seq<byte> {
    var va, vb := Value(a), Value(b);
    var vc, vd := if c == '=' then 0 else Value(c), if d == '=' then 0 else Value(d);
    [va * 4 + vb / 16] +
    (if c != '=' then [(vb % 16) * 16 + vc / 4] else []) +
    (if d != '=' then [(vc % 4) * 64 + vd] else [])
  }

  function DecodeGroups(buf: string): seq<byte>
    requires |buf| % 4 == 0
  {
    if buf == "" then [] else DecodeGroup(buf[0], buf[1], buf[2], buf[3]) + DecodeGroups(buf[4..])
  }

  /** The input over the standard alphabet, filled with '=' to whole groups. */
  function Padded(s: string): (p: string)
    ensures |p| % 4 == 0
  {
    MapChars(FromUrlChar, s) + seq((4 - |s| % 4) % 4, _ => '=')
  }

  function DecodeUrl(s: string): seq<byte> {
    DecodeGroups(Padded(s))
  }

  lemma ValueOfSymbol(i: nat)
    requires i < 64
    ensures FromUrlChar(UrlSymbol(i)) == Symbol(i) && Value(Symbol(i)) == i && Symbol(i) != '='
  {
  }

  /** The sextets in terms of the pieces of the bytes. */
  lemma SextetsAre(b0: byte, b1: byte, b2: byte)
    ensures var t := Triple(b0, b1, b2);
      && Sextet(t, 0) == b0 / 4 && Sextet(t, 1) == (b0 % 4) * 16 + b1 / 16
      && Sextet(t, 2) == (b1 % 16) * 4 + b2 / 64 && Sextet(t, 3) == b2 % 64
  {
    var t := Triple(b0, b1, b2);
    var s0, s1, s2, s3 := b0 / 4, (b0 % 4) * 16 + b1 / 16, (b1 % 16) * 4 + b2 / 64, b2 % 64;
    assert t == s0 * 262144 + s1 * 4096 + s2 * 64 + s3 by { Pieces(b0, 4); Pieces(b1, 16); Pieces(b2, 64); }
    DivModUnique(t, s0, s1 * 4096 + s2 * 64 + s3, 262144);
    DivModUnique(t, s0 * 64 + s1, s2 * 64 + s3, 4096);
    DivModUnique(t, s0 * 4096 + s1 * 64 + s2, s3, 64);
    DivModUnique(s0 * 64 + s1, s0, s1, 64);
    DivModUnique(s0 * 4096 + s1 * 64 + s2, s0 * 64 + s1, s2, 64);
  }

  lemma Pieces(x: nat, c: nat)
    requires 0 < c
    ensures x == x / c * c + x % c && 0 <= x % c < c
  {
  }

  lemma GroupIs(b0: byte, b1: byte, b2: byte)
    ensures StandardGroup([b0, b1, b2]) ==
      [Symbol(b0 / 4), Symbol((b0 % 4) * 16 + b1 / 16), Symbol((b1 % 16) * 4 + b2 / 64), Symbol(b2 % 64)]
  {
    hide Triple, Sextet, Symbol;
    SextetsAre(b0, b1, b2);
  }

  /** The examples of RFC 4648 section 10 that show each kind of ending. */
  lemma Examples()
    ensures Standard([0x66]) == "Zg==" && Standard([0x66, 0x6f]) == "Zm8="
    ensures Standard([0x66, 0x6f, 0x6f, 0x62, 0x61, 0x72]) == "Zm9vYmFy"
  {
    hide Standard, StandardGroup;
    OneGroup([0x66]);
    OneGroup([0x66, 0x6f]);
    ShortGroups();
    var d: seq<byte> := [0x66, 0x6f, 0x6f, 0x62, 0x61, 0x72];
    assert d[..3] == [0x66, 0x6f, 0x6f] && d[3..] == [0x62, 0x61, 0x72];
    TwoGroups(d);
    WholeGroups();
  }

  lemma OneGroup(d: seq<byte>)
    requires 1 <= |d| <= 3
    ensures Standard(d) == StandardGroup(d)
  {
    hide StandardGroup;
  }

  lemma TwoGroups(d: seq<byte>)
    requires |d| == 6
    ensures Standard(d) == StandardGroup(d[..3]) + StandardGroup(d[3..])
  {
    hide StandardGroup;
  }

  lemma ShortGroups()
    ensures StandardGroup([0x66]) == "Zg==" && StandardGroup([0x66, 0x6f]) == "Zm8="
  {
    hide Triple, Sextet;
    SextetsAre(0x66, 0, 0);
    SextetsAre(0x66, 0x6f, 0);
  }

  lemma WholeGroups()
    ensures StandardGroup([0x66, 0x6f, 0x6f]) == "Zm9v" && StandardGroup([0x62, 0x61, 0x72]) == "YmFy"
  {
    hide StandardGroup;
    GroupIs(0x66, 0x6f, 0x6f);
    GroupIs(0x62, 0x61, 0x72);
  }

  /** The last two symbols, in which the alphabets differ. */
  lemma LastSymbols()
    ensures Standard([0xfb, 0xff, 0xbf]) == "+/+/" && Url([0xfb, 0xff, 0xbf]) == "-_-_"
  {
    hide Triple, Sextet;
    SextetsAre(0xfb, 0xff, 0xbf);
  }

  /** The four sextets determine the three bytes. */
  lemma SextetsOfTriple(b0: byte, b1: byte, b2: byte)
    ensures var t := Triple(b0, b1, b2);
      && Sextet(t, 0) * 4 + Sextet(t, 1) / 16 == b0
      && (Sextet(t, 1) % 16) * 16 + Sextet(t, 2) / 4 == b1
      && (Sextet(t, 2) % 4) * 64 + Sextet(t, 3) == b2
  {
    SextetsAre(b0, b1, b2);
    hide Triple, Sextet;
    DivModUnique((b0 % 4) * 16 + b1 / 16, b0 % 4, b1 / 16, 16);
    DivModUnique((b1 % 16) * 4 + b2 / 64, b1 % 16, b2 / 64, 4);
  }

  lemma DecodeOneGroup(d: seq<byte>)
    requires 1 <= |d| <= 3
    ensures Padded(UrlGroup(d)) == StandardGroup(d) && DecodeGroups(StandardGroup(d)) == d
  {
    hide Symbol, UrlSymbol, Value, Sextet, Triple, FromUrlChar;
    var t := GroupTriple(d);
    ValueOfSymbol(Sextet(t, 0));
    ValueOfSymbol(Sextet(t, 1));
    ValueOfSymbol(Sextet(t, 2));
    ValueOfSymbol(Sextet(t, 3));
    SextetsOfTriple(d[0], if |d| > 1 then d[1] else 0, if |d| > 2 then d[2] else 0);
    assert StandardGroup(d)[4..] == "";
  }

  lemma {:induction false} DecodeConcat(g: string, rest: string)
    requires |g| == 4 && |rest| % 4 == 0
    ensures DecodeGroups(g + rest) == DecodeGroups(g) + DecodeGroups(rest)
  {
    hide DecodeGroup;
    assert (g + rest)[4..] == rest && g[4..] == "";
  }

  lemma PaddedConcat(s: string, t: string)
    requires |s| == 4
    ensures Padded(s + t) == Padded(s) + Padded(t)
  {
    hide FromUrlChar;
    var n := (4 - |t| % 4) % 4;
    assert |s| % 4 == 0 && |s + t| % 4 == |t| % 4;
    assert Padded(s) == MapChars(FromUrlChar, s);
    assert Padded(s + t) == MapChars(FromUrlChar, s + t) + seq(n, _ => '=');
    assert MapChars(FromUrlChar, s + t) == MapChars(FromUrlChar, s) + MapChars(FromUrlChar, t);
  }

  /** Decoding inverts encoding. */
  lemma {:induction false} DecodeInvertsEncode(data: seq<byte>)
    ensures DecodeUrl(Url(data)) == data
  {
    hide StandardGroup, UrlGroup, DecodeGroups, Padded;
    if |data| == 0 {
      DecodeNothing();
    } else if |data| <= 3 {
      DecodeOneGroup(data);
    } else {
      DecodeOneGroup(data[..3]);
      DecodeInvertsEncode(data[3..]);
      PaddedConcat(UrlGroup(data[..3]), Url(data[3..]));
      DecodeConcat(StandardGroup(data[..3]), Padded(Url(data[3..])));
      assert data == data[..3] + data[3..];
    }
  }

  lemma DecodeNothing()
    ensures DecodeUrl("") == []
  {
    hide FromUrlChar, DecodeGroup;
    var none := "";
    assert (4 - |none| % 4) % 4 == 0;
    assert Padded(none) == none;
  }

  // ------------------------------------------------------------------- the code

  /** The encoding loop that the three encoders share. */
  method EncodeGroups(data: seq<byte>, tmp: array<char>)
    requires tmp.Length == 4 * ((|data| + 2) / 3)
    modifies tmp
    ensures tmp[..] == Standard(data)
  {
    hide Standard, StandardGroup;
    var i, j := 0, 0;
    ghost var g := 0;
    assert data[0..] == data;
    while i + 2 < |data|
      invariant i == 3 * g <= |data| && j == 4 * g
      invariant tmp[..j] + Standard(data[i..]) == Standard(data)
    {
      ghost var done := tmp[..j];
      StandardStep(data, i);
      Reassociated(done, StandardGroup(data[i..i + 3]), Standard(data[i + 3..]));
      WriteGroup(data[i..i + 3], tmp, j);
      assert tmp[..j + 4] == done + StandardGroup(data[i..i + 3]);
      i, j, g := i + 3, j + 4, g + 1;
    }
    ghost var done := tmp[..j];
    StandardEnd(data[i..]);
    if i < |data| {
      WriteGroup(data[i..], tmp, j);
      assert tmp[..] == done + StandardGroup(data[i..]);
    } else {
      assert tmp[..] == tmp[..j];
    }
  }

  lemma StandardEnd(d: seq<byte>)
    requires |d| < 3
    ensures Standard(d) == if d == [] then "" else StandardGroup(d)
  {
    hide StandardGroup;
  }

  lemma StandardStep(data: seq<byte>, i: nat)
    requires i + 3 <= |data|
    ensures Standard(data[i..]) == StandardGroup(data[i..i + 3]) + Standard(data[i + 3..])
  {
    hide StandardGroup;
    assert data[i..][..3] == data[i..i + 3] && data[i..][3..] == data[i + 3..];
    if i + 3 == |data| { assert data[i..] == data[i..i + 3]; }
  }

  /** One turn of the loop, or one of its two closing branches: the symbols of a group, then '='. */
  method WriteGroup(d: seq<byte>, tmp: array<char>, j: nat)
    requires 1 <= |d| <= 3 && j + 4 <= tmp.Length
    modifies tmp
    ensures tmp[..j] == old(tmp[..j]) && tmp[j..j + 4] == StandardGroup(d)
  {
    hide Symbol, Sextet, Triple;
    if |d| == 3 {
      var triple := Triple(d[0], d[1], d[2]);
      tmp[j] := Symbol(Sextet(triple, 0));
      tmp[j + 1] := Symbol(Sextet(triple, 1));
      tmp[j + 2] := Symbol(Sextet(triple, 2));
      tmp[j + 3] := Symbol(Sextet(triple, 3));
    } else if |d| == 1 {
      var triple := Triple(d[0], 0, 0);
      tmp[j] := Symbol(Sextet(triple, 0));
      tmp[j + 1] := Symbol(Sextet(triple, 1));
      tmp[j + 2] := '=';
      tmp[j + 3] := '=';
    } else {
      var triple := Triple(d[0], d[1], 0);
      tmp[j] := Symbol(Sextet(triple, 0));
      tmp[j + 1] := Symbol(Sextet(triple, 1));
      tmp[j + 2] := Symbol(Sextet(triple, 2));
      tmp[j + 3] := '=';
    }
  }

  /** `fp_base64_encode` of the server, which returns early on empty input. */
  method ServerEncode(data: seq<byte>) returns (out: string)
    ensures out == Standard(data)
  {
    if |data| == 0 { return ""; }
    var tmp := new char[4 * ((|data| + 2) / 3)];
    EncodeGroups(data, tmp);
    out := tmp[..];
  }

  /** `fp_progress_base64_encode`. */
  method ProgressEncode(data: seq<byte>) returns (out: string)
    ensures out == Standard(data)
  {
    var tmp := new char[if |data| > 0 then 4 * ((|data| + 2) / 3) else 0];
    EncodeGroups(data, tmp);
    out := tmp[..];
  }

  /** `fp_base64url_encode`: encode, replace '+' and '/' in place, cut off the padding. */
  method EncodeUrl(data: seq<byte>) returns (out: string)
    ensures out == Url(data)
  {
    hide Standard, Url;
    var tmp := new char[if |data| > 0 then 4 * ((|data| + 2) / 3) else 0];
    EncodeGroups(data, tmp);
    ReplaceInPlace(tmp);
    var length := tmp.Length;
    assert tmp[..length] == tmp[..];
    while length > 0 && tmp[length - 1] == '='
      invariant 0 <= length <= tmp.Length
      invariant Strip(tmp[..length]) == Strip(tmp[..])
    {
      assert tmp[..length][..length - 1] == tmp[..length - 1];
      length := length - 1;
    }
    UrlIsMappedStandard(data);
    out := tmp[..length];
  }

  method ReplaceInPlace(tmp: array<char>)
    modifies tmp
    ensures tmp[..] == MapChars(ToUrlChar, old(tmp[..]))
  {
    for k := 0 to tmp.Length
      invariant forall i :: 0 <= i < k ==> tmp[i] == ToUrlChar(old(tmp[i]))
      invariant forall i :: k <= i < tmp.Length ==> tmp[i] == old(tmp[i])
    {
      if tmp[k] == '+' {
        tmp[k] := '-';
      } else if tmp[k] == '/' {
        tmp[k] := '_';
      }
    }
  }

  /** `fp_base64url_decode` of a C string. */
  method Decode(input: string) returns (out: seq<byte>)
    ensures out == DecodeUrl(input)
  {
    hide Padded, DecodeGroups;
    var buf := TranslateInput(input);
    out := DecodeBuffer(buf[..]);
  }

  /** The translated buffer of the decoder: standard symbols, then '=' to a whole number of groups. */
  method TranslateInput(input: string) returns (buf: array<char>)
    ensures buf[..] == Padded(input)
  {
    var paddedLen := |input|;
    if |input| % 4 != 0 { paddedLen := paddedLen + (4 - |input| % 4); }
    buf := new char[paddedLen];
    for i := 0 to |input|
      invariant forall j :: 0 <= j < i ==> buf[j] == FromUrlChar(input[j])
    {
      if input[i] == '-' {
        buf[i] := '+';
      } else if input[i] == '_' {
        buf[i] := '/';
      } else {
        buf[i] := input[i];
      }
    }
    for i := |input| to paddedLen
      invariant forall j :: 0 <= j < |input| ==> buf[j] == FromUrlChar(input[j])
      invariant forall j :: |input| <= j < i ==> buf[j] == '='
    {
      buf[i] := '=';
    }
  }

  /** The decoding loop. */
  method DecodeBuffer(buf: string) returns (out: seq<byte>)
    requires |buf| % 4 == 0
    ensures out == DecodeGroups(buf)
  {
    hide DecodeGroup, DecodeGroups;
    var groups := |buf| / 4;
    var decoded := new byte[groups * 3];
    var n, g := 0, 0;
    assert buf[0..] == buf;
    while g < groups
      invariant 0 <= g <= groups && n <= 3 * g
      invariant decoded[..n] + DecodeGroups(buf[4 * g..]) == DecodeGroups(buf)
    {
      ghost var done := decoded[..n];
      var i := 4 * g;
      DecodeStep(buf, i);
      Reassociated(done, DecodeGroup(buf[i], buf[i + 1], buf[i + 2], buf[i + 3]), DecodeGroups(buf[i + 4..]));
      n := WriteBytes(buf[i], buf[i + 1], buf[i + 2], buf[i + 3], decoded, n);
      assert decoded[..n] == done + DecodeGroup(buf[i], buf[i + 1], buf[i + 2], buf[i + 3]);
      g := g + 1;
    }
    assert DecodeGroups(buf[4 * groups..]) == [] by { DecodeNoGroup(buf[4 * groups..]); }
    out := decoded[..n];
  }

  lemma DecodeStep(buf: string, i: nat)
    requires |buf| % 4 == 0 && i % 4 == 0 && i + 4 <= |buf|
    ensures |buf[i..]| % 4 == 0 && |buf[i + 4..]| % 4 == 0
    ensures DecodeGroups(buf[i..]) ==
      DecodeGroup(buf[i], buf[i + 1], buf[i + 2], buf[i + 3]) + DecodeGroups(buf[i + 4..])
  {
    hide DecodeGroup;
    assert buf[i..][4..] == buf[i + 4..];
  }

  lemma DecodeNoGroup(s: string)
    requires s == ""
    ensures DecodeGroups(s) == []
  {
  }

  /** The body of the decoding loop. */
  method WriteBytes(w: char, x: char, y: char, z: char, decoded: array<byte>, start: nat) returns (n: nat)
    requires start + 3 <= decoded.Length
    modifies decoded
    ensures start <= n <= start + 3
    ensures decoded[..start] == old(decoded[..start]) && decoded[start..n] == DecodeGroup(w, x, y, z)
  {
    hide Value;
    n := start;
    var a, b := Value(w), Value(x);
    var c, d := if y == '=' then 0 else Value(y), if z == '=' then 0 else Value(z);
    decoded[n] := a * 4 + b / 16;
    n := n + 1;
    if y != '=' {
      decoded[n] := (b % 16) * 16 + c / 4;
      n := n + 1;
    }
    if z != '=' {
      decoded[n] := (c % 4) * 64 + d;
      n := n + 1;
    }
  }
}
