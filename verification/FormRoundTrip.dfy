/** Rendering form data and parsing it back. */
module FormRoundTrip {
  import opened Common
  import opened Text
  import opened Multipart

  // ------------------------------------------------------------------- rendering

  datatype Field = Field(name: string, filename: Option<string>, contentType: Option<string>, data: string)

  const DISPOSITION_HEAD := "Content-Disposition: form-data; name=\""
  const FILENAME_HEAD := "\"; filename=\""
  const TYPE_HEAD := "Content-Type: "

  function DispositionLine(f: Field): string {
    DISPOSITION_HEAD + f.name + (if f.filename.Some? then FILENAME_HEAD + f.filename.value else "") + "\""
  }

  function Header(f: Field): string {
    DispositionLine(f) + (if f.contentType.Some? then CRLF + TYPE_HEAD + f.contentType.value else "")
  }

  /** The parts of a multipart body from the first delimiter on. */
  function RenderParts(boundary: string, fields: seq<Field>, epilogue: string): string {
    if fields == [] then "--" + boundary + "--" + epilogue
    else "--" + boundary + CRLF + Header(fields[0]) + BLANK_LINE + fields[0].data + CRLF +
         RenderParts(boundary, fields[1..], epilogue)
  }

  ghost predicate FreeOf(s: string, t: string) {
    forall i :: !OccursAt(s, t, i)
  }

  /** No CR, LF or NUL. */
  predicate OneLine(s: string) {
    forall i :: 0 <= i < |s| ==> s[i] != '\r' && s[i] != '\n' && s[i] != 0 as char
  }

  predicate Quotable(s: string) {
    OneLine(s) && '"' !in s
  }

  /** Text that may stand in the header; how long it is, and what the data are, does not matter. */
  predicate Plain(f: Field) {
    && Quotable(f.name)
    && (f.filename.Some? ==> Quotable(f.filename.value))
    && (f.contentType.Some? ==> OneLine(f.contentType.value))
  }

  ghost predicate Renderable(boundary: string, fields: seq<Field>) {
    forall i :: 0 <= i < |fields| ==> Plain(fields[i]) && FreeOf(fields[i].data, "--" + boundary)
  }

  // --------------------------------------------------------- what comes back of it

  /** The file name read: when the name ends like this its closing quote is taken for the key's. */
  function FilenameRead(f: Field): string {
    if f.filename.None? then ""
    else if EndsWith(f.name, "filename=") then "; filename="
    else f.filename.value
  }

  function TypeRead(f: Field): string {
    if f.contentType.None? then "" else SkipBlanks(f.contentType.value)
  }

  function HeaderRead(f: Field): Part {
    Part(Truncate(f.name, 64), Truncate(FilenameRead(f), 256), Truncate(TypeRead(f), 128), 0, 0)
  }

  function Named(fields: seq<Field>): seq<Field> {
    if fields == [] then []
    else (if fields[0].name != "" then [fields[0]] else []) + Named(fields[1..])
  }

  /** The part as the parser returns it for a field. */
  ghost predicate Shows(body: string, p: Part, f: Field) {
    && p.start + p.size <= |body| && body[p.start..p.start + p.size] == f.data
    && p.(start := 0, size := 0) == HeaderRead(f)
  }

  // ----------------------------------------------------------- reading the header

  lemma BeforeQuote(s: string, key: string, i: int)
    requires key != "" && key[|key| - 1] == '"' && OccursAt(s, key, i)
    ensures s[i + |key| - 1] == '"' && EndsWith(s[..i + |key| - 1], key[..|key| - 1])
  {
    var n := |key| - 1;
    assert s[i..i + |key|][n] == s[i + n];
    assert s[..i + n][i..] == s[i..i + |key|][..n] == key[..n];
  }

  lemma NoQuoteBefore(s: string, key: string, i: int, q: nat)
    requires key != "" && key[|key| - 1] == '"' && q <= |s| && '"' !in s[..q] && 0 <= i && i + |key| <= q
    ensures !OccursAt(s, key, i)
  {
    if OccursAt(s, key, i) {
      BeforeQuote(s, key, i);
    }
  }

  lemma OccursHere(before: string, key: string, rest: string)
    ensures OccursAt(before + key + rest, key, |before|)
  {
  }

  lemma HeadOfLine()
    ensures |DISPOSITION_HEAD| == 38 && DISPOSITION_HEAD == DISPOSITION_HEAD[..32] + NAME_KEY
    ensures '"' !in DISPOSITION_HEAD[..37]
  {
    var start, key := "Content-Disposition: form-data; ", "name=";
    assert '"' !in start && '"' !in key && |start| == 32 && NAME_KEY == key + "\"";
    assert DISPOSITION_HEAD == start + NAME_KEY;
    assert DISPOSITION_HEAD[..37] == start + key;
  }

  /** The first quote of the line closes the key `name="`. */
  lemma NameFound(name: string, rest: string)
    requires Quotable(name)
    ensures Quoted(DISPOSITION_HEAD + name + "\"" + rest, NAME_KEY) == Some(name)
  {
    hide OccursAt, IndexOf, IndexOfChar, OneLine;
    var line, after := DISPOSITION_HEAD + name + "\"" + rest, name + "\"" + rest;
    var front := DISPOSITION_HEAD[..32];
    HeadOfLine();
    assert line == front + NAME_KEY + after;
    OccursHere(front, NAME_KEY, after);
    assert line[..37] == DISPOSITION_HEAD[..37];
    forall j | 0 <= j < 32 ensures !OccursAt(line, NAME_KEY, j) { NoQuoteBefore(line, NAME_KEY, j, 37); }
    IndexIs(line, NAME_KEY, 0, 32);
    assert line[38..38 + |name|] == name;
    QuoteAfter(line, 38, name);
  }

  /** Where `filename="` can first be found. */
  lemma FilenameNotBefore(name: string, rest: string, i: nat)
    requires Quotable(name)
    requires OccursAt(DISPOSITION_HEAD + name + "\"" + rest, FILENAME_KEY, i)
    ensures i + 9 > |DISPOSITION_HEAD + name| || (i + 9 == |DISPOSITION_HEAD + name| && EndsWith(name, "filename="))
  {
    var before := DISPOSITION_HEAD + name;
    var line := before + "\"" + rest;
    var q := i + 9;
    BeforeQuote(line, FILENAME_KEY, i);
    if q <= |before| {
      if q < |before| {
        assert line[q] == before[q] == '"';
        QuoteInHead(name, q);
        HeadIsNoFilenameKey(line);
      } else {
        assert line[..q] == before;
        HeadEndsInQuote(name, i);
        assert before[i..] == name[|name| - 9..];
      }
    }
  }

  lemma HeadIsNoFilenameKey(line: string)
    requires IsPrefix(DISPOSITION_HEAD, line)
    ensures !EndsWith(line[..37], "filename=")
  {
    assert line[28] == line[..38][28] == DISPOSITION_HEAD[28] == 't';
    assert line[..37][28..][0] == line[28] && "filename="[0] == 'f';
  }

  lemma HeadEndsInQuote(name: string, i: nat)
    requires i + 9 == |DISPOSITION_HEAD + name| && (DISPOSITION_HEAD + name)[i..] == "filename="
    ensures |name| >= 9
  {
    var n := |DISPOSITION_HEAD|;
    assert n == 38 && DISPOSITION_HEAD[37] == '"';
    assert (DISPOSITION_HEAD + name)[37] == '"';
  }

  lemma QuoteInHead(name: string, q: nat)
    requires Quotable(name) && q < |DISPOSITION_HEAD + name| && (DISPOSITION_HEAD + name)[q] == '"'
    ensures q == |DISPOSITION_HEAD| - 1
  {
  }

  lemma FilenameFooled(name: string, rest: string)
    requires Quotable(name) && EndsWith(name, "filename=")
    ensures IndexOf(DISPOSITION_HEAD + name + "\"" + rest, FILENAME_KEY, 0) == |DISPOSITION_HEAD + name| - 9
  {
    hide Quotable;
    var line := DISPOSITION_HEAD + name + "\"" + rest;
    var i := |DISPOSITION_HEAD + name| - 9;
    assert DISPOSITION_HEAD + name == (DISPOSITION_HEAD + name)[..i] + "filename=" by {
      assert (DISPOSITION_HEAD + name)[i..] == name[|name| - 9..];
    }
    assert line == (DISPOSITION_HEAD + name)[..i] + FILENAME_KEY + rest;
    OccursHere((DISPOSITION_HEAD + name)[..i], FILENAME_KEY, rest);
    forall j | 0 <= j < i ensures !OccursAt(line, FILENAME_KEY, j) {
      if OccursAt(line, FILENAME_KEY, j) { FilenameNotBefore(name, rest, j); }
    }
    IndexIs(line, FILENAME_KEY, 0, i);
  }

  lemma NoFilename(name: string)
    requires Quotable(name) && !EndsWith(name, "filename=")
    ensures IndexOf(DISPOSITION_HEAD + name + "\"", FILENAME_KEY, 0) == -1
  {
    hide Quotable;
    var line := DISPOSITION_HEAD + name + "\"";
    assert line + "" == line;
    forall j: nat ensures !OccursAt(line, FILENAME_KEY, j) {
      if OccursAt(line, FILENAME_KEY, j) { FilenameNotBefore(name, "", j); }
    }
  }

  lemma GenuineFilename(name: string, filename: string)
    requires Quotable(name) && !EndsWith(name, "filename=")
    ensures IndexOf(DISPOSITION_HEAD + name + FILENAME_HEAD + filename + "\"", FILENAME_KEY, 0) ==
            |DISPOSITION_HEAD + name| + 3
  {
    hide Quotable, EndsWith, OccursAt, IndexOf;
    var before, rest := DISPOSITION_HEAD + name, "; filename=\"" + filename + "\"";
    var line, i := before + "\"" + rest, |before| + 3;
    GenuineHere(before, filename);
    assert rest[..11] == "; filename=";
    forall j | 0 <= j < i ensures !OccursAt(line, FILENAME_KEY, j) {
      if |before| < j + 9 { NoQuoteBetween(before, rest, j + 9); }
      if OccursAt(line, FILENAME_KEY, j) {
        FilenameNotBefore(name, rest, j);
        BeforeQuote(line, FILENAME_KEY, j);
      }
    }
    IndexIs(line, FILENAME_KEY, 0, i);
  }

  lemma GenuineHere(before: string, filename: string)
    ensures var line := before + "\"" + ("; filename=\"" + filename + "\"");
      line == before + FILENAME_HEAD + filename + "\"" && OccursAt(line, FILENAME_KEY, |before| + 3)
  {
    hide OccursAt;
    var line := before + "\"" + ("; filename=\"" + filename + "\"");
    assert line == before + FILENAME_HEAD + filename + "\"";
    assert line == (before + "\"; ") + FILENAME_KEY + (filename + "\"");
    OccursHere(before + "\"; ", FILENAME_KEY, filename + "\"");
  }

  lemma NoQuoteBetween(before: string, rest: string, k: nat)
    requires |before| < k < |before| + 12 && IsPrefix("; filename=", rest)
    ensures (before + "\"" + rest)[k] != '"'
  {
    var i := k - |before| - 1;
    assert (before + "\"" + rest)[k] == rest[i] == rest[..11][i] == "; filename="[i];
  }

  lemma FilenameFound(f: Field)
    requires Plain(f)
    ensures var q := Quoted(DispositionLine(f), FILENAME_KEY);
      if f.filename.Some? then q == Some(FilenameRead(f)) else q == None
  {
    hide OccursAt, IndexOf, Quotable, EndsWith;
    var before := DISPOSITION_HEAD + f.name;
    var line := DispositionLine(f);
    if f.filename.None? {
      assert line == before + "\"" == before + "\"" + "";
      if EndsWith(f.name, "filename=") { FilenameFooled(f.name, ""); } else { NoFilename(f.name); }
    } else {
      assert line == before + FILENAME_HEAD + f.filename.value + "\"";
      FilenameGiven(f.name, f.filename.value);
    }
  }

  lemma FilenameGiven(name: string, filename: string)
    requires Quotable(name) && Quotable(filename)
    ensures Quoted(DISPOSITION_HEAD + name + FILENAME_HEAD + filename + "\"", FILENAME_KEY) ==
      Some(if EndsWith(name, "filename=") then "; filename=" else filename)
  {
    hide OccursAt, IndexOf, EndsWith, OneLine;
    var before := DISPOSITION_HEAD + name;
    var line := before + FILENAME_HEAD + filename + "\"";
    var rest := "; filename=\"" + filename + "\"";
    assert line == before + "\"" + rest;
    if EndsWith(name, "filename=") {
      FilenameFooled(name, rest);
      assert line[|before| + 1..|before| + 12] == "; filename=";
      QuoteAfter(line, |before| + 1, "; filename=");
    } else {
      GenuineFilename(name, filename);
      assert line[|before| + 13..|before| + 13 + |filename|] == filename;
      QuoteAfter(line, |before| + 13, filename);
    }
  }

  lemma QuoteAfter(line: string, at: nat, text: string)
    requires at + |text| < |line| && line[at..at + |text|] == text && '"' !in text && line[at + |text|] == '"'
    ensures IndexOfChar(line, '"', at) == at + |text|
  {
    forall j | at <= j < at + |text| ensures line[j] != '"' { assert line[j] == text[j - at]; }
    CharIndexIs(line, '"', at, at + |text|);
  }

  lemma DispositionRead(f: Field)
    requires Plain(f)
    ensures ReadLine(BLANK_PART, DispositionLine(f)) ==
      BLANK_PART.(name := Truncate(f.name, 64), filename := Truncate(FilenameRead(f), 256))
  {
    hide Quoted, Plain, EndsWith, StartsWithNoCase, Truncate;
    var line := DispositionLine(f);
    var rest := if f.filename.Some? then "; filename=\"" + f.filename.value + "\"" else "";
    assert line == DISPOSITION_HEAD + f.name + "\"" + rest;
    assert Quotable(f.name) by { PlainName(f); }
    NameFound(f.name, rest);
    FilenameFound(f);
    assert line[..38] == DISPOSITION_HEAD;
    HeadIsDisposition(line);
  }

  lemma HeadIsDisposition(line: string)
    requires IsPrefix(DISPOSITION_HEAD, line)
    ensures StartsWithNoCase(line, DISPOSITION)
  {
    forall i | 0 <= i < |DISPOSITION| ensures Lower(line[i]) == DISPOSITION[i] {
      assert line[i] == line[..38][i] == DISPOSITION_HEAD[i];
    }
  }

  lemma PlainName(f: Field)
    requires Plain(f)
    ensures Quotable(f.name)
  {
  }

  lemma TypeLineRead(part: Part, contentType: string)
    ensures ReadLine(part, TYPE_HEAD + contentType) == part.(contentType := Truncate(SkipBlanks(contentType), 128))
  {
    hide Quoted, SkipBlanks, Truncate;
    var line := TYPE_HEAD + contentType;
    assert !StartsWithNoCase(line, DISPOSITION) by {
      assert line[8] == TYPE_HEAD[8] == 'T' && DISPOSITION[8] == 'd';
    }
    assert StartsWithNoCase(line, CONTENT_TYPE) by {
      forall i | 0 <= i < |CONTENT_TYPE| ensures Lower(line[i]) == CONTENT_TYPE[i] {
        assert line[i] == TYPE_HEAD[i];
      }
    }
    assert forall j :: 0 <= j < 12 ==> line[j] == TYPE_HEAD[j];
    CharIndexIs(line, ':', 0, 12);
    assert line[13..] == [' '] + contentType;
    OneBlank(contentType);
  }

  lemma OneBlank(s: string)
    ensures SkipBlanks([' '] + s) == SkipBlanks(s)
  {
    assert ([' '] + s)[1..] == s;
  }

  lemma {:induction false} LineLengthIs(line: string, rest: string)
    requires OneLine(line) && (rest == "" || IsBreak(rest[0]))
    ensures LineLength(line + rest) == |line|
  {
    if line == "" {
      assert line + rest == rest;
    } else {
      assert (line + rest)[1..] == line[1..] + rest;
      LineLengthIs(line[1..], rest);
    }
  }

  /** One line off the front of a header. */
  lemma FirstLine(part: Part, line: string, rest: string)
    requires OneLine(line) && line != "" && (rest == "" || IsBreak(rest[0]))
    ensures ReadHeader(part, line + rest) == ReadHeader(ReadLine(part, line), rest)
  {
    hide ReadLine;
    LineLengthIs(line, rest);
    assert !IsBreak(line[0]);
    assert SkipBreaks(line + rest) == line + rest;
    assert (line + rest)[..|line|] == line && (line + rest)[|line|..] == rest;
  }

  lemma NothingLeft(part: Part, line: string)
    requires line != "" && !IsBreak(line[0])
    ensures ReadHeader(part, "") == part && ReadHeader(part, CRLF + line) == ReadHeader(part, line)
  {
    assert (CRLF + line)[1..] == "\n" + line && ("\n" + line)[1..] == line;
    assert SkipBreaks("\n" + line) == SkipBreaks(line);
    assert SkipBreaks(CRLF + line) == line;
    assert SkipBreaks(line) == line;
  }

  lemma DispositionIsOneLine(f: Field)
    requires Plain(f)
    ensures OneLine(DispositionLine(f))
  {
    var end := if f.filename.Some? then FILENAME_HEAD + f.filename.value else "";
    JoinedLines(DISPOSITION_HEAD, f.name);
    if f.filename.Some? { JoinedLines(FILENAME_HEAD, f.filename.value); }
    JoinedLines(DISPOSITION_HEAD + f.name, end);
    JoinedLines(DISPOSITION_HEAD + f.name + end, "\"");
  }

  lemma JoinedLines(a: string, b: string)
    requires OneLine(a) && OneLine(b)
    ensures OneLine(a + b)
  {
  }

  /** A header of one line, and one of two. */
  lemma HeaderOfLine(part: Part, line: string)
    requires OneLine(line) && line != ""
    ensures ReadHeader(part, line) == ReadLine(part, line)
  {
    hide ReadLine, ReadHeader;
    assert line + "" == line;
    FirstLine(part, line, "");
    NothingLeft(ReadLine(part, line), "x");
  }

  lemma HeaderOfLines(part: Part, line: string, second: string)
    requires OneLine(line) && line != "" && OneLine(second) && second != ""
    ensures ReadHeader(part, line + CRLF + second) == ReadLine(ReadLine(part, line), second)
  {
    hide ReadLine, ReadHeader;
    assert line + CRLF + second == line + (CRLF + second);
    FirstLine(part, line, CRLF + second);
    NothingLeft(ReadLine(part, line), second);
    HeaderOfLine(ReadLine(part, line), second);
  }

  lemma HeaderComesBack(f: Field)
    requires Plain(f)
    ensures ReadHeader(BLANK_PART, Header(f)) == HeaderRead(f)
  {
    hide ReadLine, ReadHeader, Truncate, FilenameRead, SkipBlanks, DispositionLine, Quotable;
    var line := DispositionLine(f);
    DispositionIsOneLine(f);
    DispositionRead(f);
    LineNotEmpty(f);
    if f.contentType.None? {
      assert Header(f) == line;
      HeaderOfLine(BLANK_PART, line);
    } else {
      var second := TYPE_HEAD + f.contentType.value;
      JoinedLines(TYPE_HEAD, f.contentType.value);
      assert Header(f) == line + CRLF + second;
      HeaderOfLines(BLANK_PART, line, second);
      TypeLineRead(ReadLine(BLANK_PART, line), f.contentType.value);
    }
  }

  lemma LineNotEmpty(f: Field)
    ensures DispositionLine(f) != ""
  {
  }

  /** The blank line first occurs where the header ends, and the header holds no NUL. */
  lemma HeaderShape(f: Field)
    requires Plain(f)
    ensures UpToNul(Header(f)) == Header(f)
    ensures forall i :: 0 <= i < |Header(f)| && Header(f)[i] == '\r' ==>
      i + 2 < |Header(f)| && Header(f)[i + 1] == '\n' && Header(f)[i + 2] != '\r'
  {
    DispositionIsOneLine(f);
    var line := DispositionLine(f);
    if f.contentType.Some? {
      var second := TYPE_HEAD + f.contentType.value;
      assert second[0] == 'C' && OneLine(second);
      assert Header(f) == line + CRLF + second;
      TwoLines(line, second);
    } else {
      assert Header(f) == line;
    }
  }

  lemma TwoLines(a: string, b: string)
    requires OneLine(a) && OneLine(b) && b != ""
    ensures var h := a + CRLF + b;
      && 0 as char !in h
      && forall i :: 0 <= i < |h| && h[i] == '\r' ==> i + 2 < |h| && h[i + 1] == '\n' && h[i + 2] != '\r'
  {
    var h := a + CRLF + b;
    assert forall i :: 0 <= i < |a| ==> h[i] == a[i];
    assert h[|a| + 2] == b[0];
    assert forall i :: |a| + 2 <= i < |h| ==> h[i] == b[i - |a| - 2];
  }

  // ------------------------------------------------------------- finding the marks

  /** A delimiter without line breaks does not start in text free of it that is followed by a line break. */
  lemma DelimiterNotBefore(s: string, at: nat, text: string, delim: string, i: nat)
    requires delim != "" && OneLine(delim) && FreeOf(text, delim)
    requires at <= i < at + |text| + 2 <= |s| && s[at..at + |text| + 2] == text + CRLF
    ensures !OccursAt(s, delim, i)
  {
    if OccursAt(s, delim, i) {
      var k := at + |text|;
      LineBreakAfter(s, at, text);
      if i + |delim| <= k {
        Cuts(s, at, text, CRLF);
        OccursInText(s, at, text, delim, i);
      }
    }
  }

  lemma OccursInText(s: string, at: nat, text: string, delim: string, i: nat)
    requires at + |text| <= |s| && s[at..at + |text|] == text
    requires OccursAt(s, delim, i) && at <= i && i + |delim| <= at + |text|
    ensures OccursAt(text, delim, i - at)
  {
    var t := text[i - at..i - at + |delim|];
    forall k | 0 <= k < |delim| ensures t[k] == delim[k] {
      assert s[at..at + |text|][i - at + k] == s[i + k] == s[i..i + |delim|][k];
    }
    assert t == delim;
  }

  lemma LineBreakAfter(s: string, at: nat, text: string)
    requires at + |text| + 2 <= |s| && s[at..at + |text| + 2] == text + CRLF
    ensures s[at + |text|] == '\r' && s[at + |text| + 1] == '\n'
  {
    var k := at + |text|;
    assert s[at..k + 2][|text|] == s[k] && (text + CRLF)[|text|] == '\r';
    assert s[at..k + 2][|text| + 1] == s[k + 1] && (text + CRLF)[|text| + 1] == '\n';
  }

  lemma DelimiterAfter(s: string, at: nat, text: string, delim: string)
    requires delim != "" && OneLine(delim) && FreeOf(text, delim)
    requires at + |text| + 2 <= |s| && s[at..at + |text| + 2] == text + CRLF && OccursAt(s, delim, at + |text| + 2)
    ensures IndexOf(s, delim, at) == at + |text| + 2
  {
    hide OccursAt, FreeOf, OneLine;
    forall j | at <= j < at + |text| + 2 ensures !OccursAt(s, delim, j) {
      DelimiterNotBefore(s, at, text, delim, j);
    }
    IndexIs(s, delim, at, at + |text| + 2);
  }

  lemma NoBlankLineHere(s: string, at: nat, h: string, j: nat)
    requires at + |h| <= |s| && s[at..at + |h|] == h && at <= j < at + |h|
    requires forall i :: 0 <= i < |h| && h[i] == '\r' ==> i + 2 < |h| && h[i + 1] == '\n' && h[i + 2] != '\r'
    ensures !OccursAt(s, BLANK_LINE, j)
  {
    var i := j - at;
    assert s[j] == h[i];
    assert i + 2 < |h| ==> s[j + 2] == h[i + 2];
    if OccursAt(s, BLANK_LINE, j) { CRsOfBlankLine(s, j); }
  }

  lemma CRsOfBlankLine(s: string, j: nat)
    requires OccursAt(s, BLANK_LINE, j)
    ensures s[j] == '\r' && s[j + 2] == '\r'
  {
    assert s[j..j + 4][0] == s[j] && s[j..j + 4][2] == s[j + 2];
  }

  lemma BlankLineAfter(s: string, at: nat, f: Field)
    requires Plain(f) && at + |Header(f)| + 4 <= |s| && s[at..at + |Header(f)| + 4] == Header(f) + BLANK_LINE
    ensures IndexOf(s, BLANK_LINE, at) == at + |Header(f)|
  {
    hide Plain, Header;
    HeaderShape(f);
    var h := Header(f);
    Cuts(s, at, h, BLANK_LINE);
    forall j | at <= j < at + |h| ensures !OccursAt(s, BLANK_LINE, j) {
      NoBlankLineHere(s, at, h, j);
    }
    assert s[at + |h|..at + |h| + 4] == s[at..at + |h| + 4][|h|..];
    IndexIs(s, BLANK_LINE, at, at + |h|);
  }

  // --------------------------------------------------------------- parsing a body

  lemma DelimiterIs(boundary: string)
    requires OneLine(boundary) && |boundary| <= 125
    ensures Delimiter(boundary) == "--" + boundary && OneLine("--" + boundary)
  {
  }

  lemma StartsWithDelimiter(boundary: string, fields: seq<Field>, epilogue: string)
    ensures IsPrefix("--" + boundary, RenderParts(boundary, fields, epilogue))
  {
    hide Header;
  }

  /** One field off the front: where its pieces are. */
  lemma Layout(body: string, cursor: nat, boundary: string, fields: seq<Field>, epilogue: string)
    requires cursor <= |body| && fields != [] && body[cursor..] == RenderParts(boundary, fields, epilogue)
    ensures var delim, h, d := "--" + boundary, Header(fields[0]), fields[0].data;
      var a := cursor + |delim|; var b := a + 2 + |h| + 4; var c := b + |d| + 2;
      && c <= |body| && body[a] == '\r' && body[a + 1] == '\n'
      && body[cursor..a] == delim
      && body[a + 2..b] == h + BLANK_LINE
      && body[b..c] == d + CRLF
      && body[c..] == RenderParts(boundary, fields[1..], epilogue)
      && OccursAt(body, delim, c)
  {
    hide Header, RenderParts, OccursAt;
    var delim, h, d := "--" + boundary, Header(fields[0]), fields[0].data;
    var rest := RenderParts(boundary, fields[1..], epilogue);
    RenderFirst(boundary, fields, epilogue);
    NestedParts(delim, h, BLANK_LINE, d, CRLF, rest);
    FourCuts(body, cursor, delim, CRLF, h + BLANK_LINE, d + CRLF, rest);
    var a := cursor + |delim|;
    assert body[a..a + 2][0] == body[a] && body[a..a + 2][1] == body[a + 1];
    StartsWithDelimiter(boundary, fields[1..], epilogue);
    OccursAtCut(body, a + 2 + |h| + 4 + |d| + 2, delim, rest);
  }

  lemma OccursAtCut(s: string, at: nat, head: string, rest: string)
    requires at <= |s| && s[at..] == rest && IsPrefix(head, rest)
    ensures OccursAt(s, head, at)
  {
    assert s[at..at + |head|] == s[at..][..|head|];
  }

  lemma FourCuts(s: string, at: nat, a: string, b: string, c: string, d: string, rest: string)
    requires at <= |s| && s[at..] == a + (b + (c + (d + rest)))
    ensures var i := at + |a|; var j := i + |b|; var k := j + |c|; var l := k + |d|;
      l <= |s| && s[at..i] == a && s[i..j] == b && s[j..k] == c && s[k..l] == d && s[l..] == rest
  {
    Cut(s, at, a, b + (c + (d + rest)));
    Cut(s, at + |a|, b, c + (d + rest));
    Cut(s, at + |a| + |b|, c, d + rest);
    Cut(s, at + |a| + |b| + |c|, d, rest);
  }

  lemma NestedParts(delim: string, h: string, blank: string, d: string, crlf: string, rest: string)
    ensures delim + crlf + h + blank + d + crlf + rest == delim + (crlf + ((h + blank) + ((d + crlf) + rest)))
  {
  }

  lemma RenderFirst(boundary: string, fields: seq<Field>, epilogue: string)
    requires fields != []
    ensures RenderParts(boundary, fields, epilogue) ==
      "--" + boundary + CRLF + Header(fields[0]) + BLANK_LINE + fields[0].data + CRLF +
      RenderParts(boundary, fields[1..], epilogue)
  {
  }

  lemma Cut(s: string, at: nat, head: string, tail: string)
    requires at <= |s| && s[at..] == head + tail
    ensures at + |head| <= |s| && s[at..at + |head|] == head && s[at + |head|..] == tail
  {
    assert s[at..][..|head|] == head && s[at..][|head|..] == tail;
  }

  /** The marks of a field: the end of its header and the next delimiter. */
  lemma MarksOfField(body: string, at: nat, delim: string, f: Field)
    requires delim != "" && OneLine(delim) && Plain(f) && FreeOf(f.data, delim)
    requires var b := at + |Header(f)| + 4; var c := b + |f.data| + 2;
      c <= |body| && body[at..b] == Header(f) + BLANK_LINE && body[b..c] == f.data + CRLF && OccursAt(body, delim, c)
    ensures var b := at + |Header(f)| + 4; var c := b + |f.data| + 2;
      && IndexOf(body, BLANK_LINE, at) == b - 4 && IndexOf(body, delim, b) == c == IndexOf(body, delim, c)
      && body[at..b - 4] == Header(f) && body[b..c - 2] == f.data && body[c - 2] == '\r' && body[c - 1] == '\n'
  {
    hide Header, OccursAt, IndexOf, Plain, FreeOf, OneLine;
    var h, d := Header(f), f.data;
    var b := at + |h| + 4;
    BlankLineAfter(body, at, f);
    DelimiterAfter(body, b, d, delim);
    LineBreakAfter(body, b, d);
    IndexIs(body, delim, b + |d| + 2, b + |d| + 2);
    Cuts(body, at, h, BLANK_LINE);
    Cuts(body, b, d, CRLF);
  }

  /** One turn of the parser at a rendered field. */
  lemma TakesField(body: string, start: nat, cursor: nat, boundary: string, fields: seq<Field>, epilogue: string)
    requires start <= cursor <= |body| < SIZE_T && fields != [] && OneLine(boundary) && |boundary| <= 125
    requires IndexOf(body, "--" + boundary, start) == cursor
    requires body[cursor..] == RenderParts(boundary, fields, epilogue)
    requires Plain(fields[0]) && FreeOf(fields[0].data, "--" + boundary)
    ensures var s := NextPart(body, "--" + boundary, start);
      && s.Take? && s.next <= |body| && body[s.next..] == RenderParts(boundary, fields[1..], epilogue)
      && IndexOf(body, "--" + boundary, s.next) == s.next
      && Shows(body, s.part, fields[0]) && (s.part.name == "" <==> fields[0].name == "")
  {
    hide RenderParts, Header, OccursAt, IndexOf, Plain, FreeOf, ReadHeader, UpToNul, OneLine, HeaderRead, NextPart;
    var delim, f := "--" + boundary, fields[0];
    DelimiterIs(boundary);
    Layout(body, cursor, boundary, fields, epilogue);
    var a := cursor + |delim| + 2;
    MarksOfField(body, a, delim, f);
    HeaderShape(f);
    HeaderComesBack(f);
    NameRead(f);
    StepTakes(body, delim, start, cursor, a + |Header(f)|, a + |Header(f)| + 4 + |f.data| + 2);
  }

  lemma Cuts(s: string, at: nat, head: string, tail: string)
    requires at + |head| + |tail| <= |s| && s[at..at + |head| + |tail|] == head + tail
    ensures s[at..at + |head|] == head
  {
    assert s[at..at + |head|] == s[at..at + |head| + |tail|][..|head|];
  }

  /** The parser's turn, given where the marks are. */
  lemma StepTakes(body: string, delim: string, start: nat, marker: nat, headerEnd: nat, next: nat)
    requires start <= marker <= |body| && delim != "" && next <= |body| < SIZE_T
    requires var after := marker + |delim|;
      && IndexOf(body, delim, start) == marker && after + 2 <= headerEnd && headerEnd + 6 <= next
      && body[after] == '\r' && body[after + 1] == '\n' && body[next - 2] == '\r' && body[next - 1] == '\n'
      && IndexOf(body, BLANK_LINE, after + 2) == headerEnd && IndexOf(body, delim, headerEnd + 4) == next
    ensures NextPart(body, delim, start) ==
      Take(ReadHeader(BLANK_PART, UpToNul(body[marker + |delim| + 2..headerEnd]))
             .(start := headerEnd + 4, size := next - headerEnd - 6), next)
  {
    hide IndexOf, OccursAt, ReadHeader, UpToNul;
  }

  lemma NameRead(f: Field)
    ensures HeaderRead(f).name == "" <==> f.name == ""
    ensures HeaderRead(f).start == 0 && HeaderRead(f).size == 0
  {
  }

  lemma StopsAtEnd(body: string, start: nat, cursor: nat, boundary: string, epilogue: string)
    requires start <= cursor <= |body|
    requires IndexOf(body, "--" + boundary, start) == cursor
    requires body[cursor..] == RenderParts(boundary, [], epilogue)
    ensures NextPart(body, "--" + boundary, start) == Stop
  {
    hide IndexOf;
    var delim := "--" + boundary;
    assert body[cursor..] == delim + ("--" + epilogue);
    Cut(body, cursor, delim, "--" + epilogue);
    var a := cursor + |delim|;
    assert body[a..][0] == '-' && body[a..][1] == '-';
  }

  ghost predicate AllShown(body: string, parts: seq<Part>, fields: seq<Field>) {
    |parts| <= |fields| && forall i :: 0 <= i < |parts| ==> Shows(body, parts[i], fields[i])
  }

  function Min(a: nat, b: nat): nat { if a < b then a else b }

  lemma {:induction false} ParsesFields(body: string, start: nat, cursor: nat, boundary: string, done: seq<Field>,
                                        fields: seq<Field>, epilogue: string, parts: seq<Part>, max: nat)
    requires start <= cursor <= |body| < SIZE_T && OneLine(boundary) && |boundary| <= 125
    requires IndexOf(body, "--" + boundary, start) == cursor
    requires body[cursor..] == RenderParts(boundary, fields, epilogue) && Renderable(boundary, fields)
    requires |parts| == Min(|done|, max) && AllShown(body, parts, done)
    ensures var r := ParseFrom(body, "--" + boundary, start, parts, max); var kept := done + Named(fields);
      r.Some? && |r.value| == Min(|kept|, max) && AllShown(body, r.value, kept)
    decreases |fields|
  {
    hide RenderParts, IndexOf, NextPart, Shows, FreeOf, Plain, OneLine, AllShown, Named;
    NamedStep(done, fields);
    if fields == [] {
      StopsAtEnd(body, start, cursor, boundary, epilogue);
    } else {
      TakesField(body, start, cursor, boundary, fields, epilogue);
      var s := NextPart(body, "--" + boundary, start);
      var done' := if fields[0].name != "" then done + [fields[0]] else done;
      KeepsShown(body, parts, done, s.part, fields[0], max);
      ParsesFields(body, s.next, s.next, boundary, done', fields[1..], epilogue, Keep(parts, s.part, max), max);
    }
  }

  lemma NamedStep(done: seq<Field>, fields: seq<Field>)
    ensures done + Named(fields) ==
      if fields == [] then done
      else (if fields[0].name != "" then done + [fields[0]] else done) + Named(fields[1..])
  {
  }

  lemma KeepsShown(body: string, parts: seq<Part>, done: seq<Field>, p: Part, f: Field, max: nat)
    requires |parts| == Min(|done|, max) && AllShown(body, parts, done)
    requires Shows(body, p, f) && (p.name == "" <==> f.name == "")
    ensures var done' := if f.name != "" then done + [f] else done; var parts' := Keep(parts, p, max);
      |parts'| == Min(|done'|, max) && AllShown(body, parts', done')
  {
    hide Shows;
  }

  /** A body: text before the first delimiter, if any, ends with a line break and is free of the delimiter. */
  function Render(preamble: Option<string>, boundary: string, fields: seq<Field>, epilogue: string): string {
    (if preamble.Some? then preamble.value + CRLF else "") + RenderParts(boundary, fields, epilogue)
  }

  ghost predicate GoodPreamble(preamble: Option<string>, delim: string) {
    preamble.Some? ==> FreeOf(preamble.value, delim)
  }

  lemma FirstDelimiter(preamble: Option<string>, delim: string, rest: string)
    requires GoodPreamble(preamble, delim) && OneLine(delim) && delim != "" && IsPrefix(delim, rest)
    ensures var pre := if preamble.Some? then preamble.value + CRLF else "";
      IndexOf(pre + rest, delim, 0) == |pre| && (pre + rest)[|pre|..] == rest
  {
    hide OneLine, FreeOf;
    var pre := if preamble.Some? then preamble.value + CRLF else "";
    var body := pre + rest;
    assert body[|pre|..] == rest;
    assert OccursAt(body, delim, |pre|) by { assert body[|pre|..|pre| + |delim|] == rest[..|delim|]; }
    if preamble.Some? {
      assert body[0..|pre|] == pre;
      DelimiterAfter(body, 0, preamble.value, delim);
    } else {
      IndexIs(body, delim, 0, 0);
    }
  }

  /** Parsing a rendered form gives back its named fields in order, as many as there is room for, each with its
      data and with its header strings cut to their buffers. */
  lemma ParseOfRender(preamble: Option<string>, boundary: string, fields: seq<Field>, epilogue: string, max: nat)
    requires OneLine(boundary) && |boundary| <= 125 && GoodPreamble(preamble, "--" + boundary)
    requires Renderable(boundary, fields) && max > 0
    requires |Render(preamble, boundary, fields, epilogue)| < SIZE_T
    ensures var body := Render(preamble, boundary, fields, epilogue); var r := Parse(body, boundary, max);
      r.Some? && |r.value| == Min(|Named(fields)|, max) && AllShown(body, r.value, Named(fields))
  {
    hide OneLine, FreeOf, IndexOf, RenderParts, Shows, Plain;
    var body := Render(preamble, boundary, fields, epilogue);
    DelimiterIs(boundary);
    StartsWithDelimiter(boundary, fields, epilogue);
    FirstDelimiter(preamble, "--" + boundary, RenderParts(boundary, fields, epilogue));
    var cursor := IndexOf(body, "--" + boundary, 0);
    ParsesFields(body, 0, cursor, boundary, [], fields, epilogue, [], max);
    assert [] + Named(fields) == Named(fields);
  }

  // -------------------------------------------------------- when nothing is changed

  /** The part is the field. */
  ghost predicate Is(body: string, p: Part, f: Field) {
    && p.start + p.size <= |body| && body[p.start..p.start + p.size] == f.data
    && p.name == f.name
    && p.filename == (if f.filename.Some? then f.filename.value else "")
    && p.contentType == (if f.contentType.Some? then f.contentType.value else "")
  }

  predicate Fits(f: Field) {
    && 0 < |f.name| < 64
    && (f.filename.Some? ==>
          |f.filename.value| < 256 && (EndsWith(f.name, "filename=") ==> f.filename.value == "; filename="))
    && (f.contentType.Some? && f.contentType.value != "" ==>
          |f.contentType.value| < 128 && f.contentType.value[0] != ' ' && f.contentType.value[0] != '\t')
  }

  lemma ShownIsFieldExactlyWhen(body: string, p: Part, f: Field)
    requires Shows(body, p, f) && f.name != ""
    ensures Is(body, p, f) <==> Fits(f)
  {
    assert p.name == Truncate(f.name, 64) && p.filename == Truncate(FilenameRead(f), 256) &&
           p.contentType == Truncate(TypeRead(f), 128);
  }

  lemma {:induction false} NamedShorter(fields: seq<Field>)
    ensures |Named(fields)| <= |fields|
    ensures |Named(fields)| == |fields| <==> forall i :: 0 <= i < |fields| ==> fields[i].name != ""
    ensures |Named(fields)| == |fields| ==> Named(fields) == fields
  {
    if fields != [] {
      NamedShorter(fields[1..]);
      assert fields == [fields[0]] + fields[1..];
      if fields[0].name != "" && |Named(fields[1..])| == |fields[1..]| {
        forall i | 0 <= i < |fields| ensures fields[i].name != "" {
          if i > 0 { assert fields[1..][i - 1].name != ""; }
        }
      }
      if forall i :: 0 <= i < |fields| ==> fields[i].name != "" {
        forall i | 0 <= i < |fields[1..]| ensures fields[1..][i].name != "" {
          assert fields[i + 1].name != "";
        }
      }
    }
  }

  ghost predicate SameForm(body: string, parts: seq<Part>, fields: seq<Field>) {
    |parts| == |fields| && forall i :: 0 <= i < |parts| ==> Is(body, parts[i], fields[i])
  }

  /** The round trip: every field comes back unchanged exactly when there is room for all of them and each fits. */
  lemma RoundTripExactlyWhen(preamble: Option<string>, boundary: string, fields: seq<Field>, epilogue: string, max: nat)
    requires OneLine(boundary) && |boundary| <= 125 && GoodPreamble(preamble, "--" + boundary)
    requires Renderable(boundary, fields) && max > 0
    requires |Render(preamble, boundary, fields, epilogue)| < SIZE_T
    ensures var body := Render(preamble, boundary, fields, epilogue); var r := Parse(body, boundary, max);
      r.Some? && (SameForm(body, r.value, fields) <==>
                  |fields| <= max && forall i :: 0 <= i < |fields| ==> Fits(fields[i]))
  {
    hide Render, Parse, Renderable, OneLine, Shows, Is, Fits;
    var body := Render(preamble, boundary, fields, epilogue);
    ParseOfRender(preamble, boundary, fields, epilogue, max);
    var r := Parse(body, boundary, max);
    NamedShorter(fields);
    if |Named(fields)| == |fields| {
      forall i | 0 <= i < |r.value| ensures Is(body, r.value[i], fields[i]) <==> Fits(fields[i]) {
        ShownIsFieldExactlyWhen(body, r.value[i], fields[i]);
      }
    } else {
      var i :| 0 <= i < |fields| && fields[i].name == "";
      assert !Fits(fields[i]) by { NamelessDoesNotFit(fields[i]); }
    }
  }

  lemma NamelessDoesNotFit(f: Field)
    requires f.name == ""
    ensures !Fits(f)
  {
  }

  /** With a longer boundary the delimiter is cut to its buffer, and no field of a non-empty form comes back. */
  lemma LongBoundaryLosesAll(boundary: string, fields: seq<Field>, epilogue: string, max: nat)
    requires OneLine(boundary) && |boundary| > 125 && fields != [] && max > 0
    ensures var r := Parse(Render(None, boundary, fields, epilogue), boundary, max); r == None || r == Some([])
  {
    hide Header;
    var delim := Delimiter(boundary);
    var body := Render(None, boundary, fields, epilogue);
    StartsWithDelimiter(boundary, fields, epilogue);
    assert body == RenderParts(boundary, fields, epilogue);
    assert delim == ("--" + boundary)[..127] == body[..127];
    IndexIs(body, delim, 0, 0);
    assert body[127] == boundary[125];
  }

  // ---------------------------------------------------- forms that are not rendered

  /** A field whose data and line break are missing: the delimiter comes right after the header. */
  function Unbroken(boundary: string, f: Field): string {
    "--" + boundary + CRLF + Header(f) + BLANK_LINE + ("--" + boundary + "--")
  }

  lemma UnbrokenLayout(boundary: string, f: Field)
    ensures var delim, h, body := "--" + boundary, Header(f), Unbroken(boundary, f); var a := |delim|;
      && |body| == a + 2 + |h| + 4 + a + 2
      && body[0..a] == delim && body[a..a + 2] == CRLF && body[a + 2..a + 2 + |h| + 4] == h + BLANK_LINE
      && body[a + 2 + |h| + 4..] == delim + "--"
  {
    var delim, h, body := "--" + boundary, Header(f), Unbroken(boundary, f);
    hide Header;
    assert body == delim + (CRLF + ((h + BLANK_LINE) + ((delim + "--") + "")));
    assert body[0..] == body;
    FourCuts(body, 0, delim, CRLF, h + BLANK_LINE, delim + "--", "");
  }

  /** Where the parser finds the marks. */
  lemma UnbrokenMarks(boundary: string, f: Field)
    requires OneLine(boundary) && |boundary| <= 125 && Plain(f)
    ensures var delim, h, body := "--" + boundary, Header(f), Unbroken(boundary, f); var a := |delim|;
      var c := a + 2 + |h| + 4;
      && c <= |body| && body[a] == '\r' && body[a + 1] == '\n' && body[c - 2] == '\r' && body[c - 1] == '\n'
      && body[a + 2..c - 4] == h && body[c..] == delim + "--"
      && IndexOf(body, delim, 0) == 0 && IndexOf(body, BLANK_LINE, a + 2) == c - 4 && IndexOf(body, delim, c) == c
  {
    var delim, h, body := "--" + boundary, Header(f), Unbroken(boundary, f);
    var a := |delim|;
    var c := a + 2 + |h| + 4;
    UnbrokenLayout(boundary, f);
    hide OccursAt, IndexOf, Plain, OneLine, Unbroken, Header;
    TwoChars(body, a);
    BlankLineAfter(body, a + 2, f);
    Cuts(body, a + 2, h, BLANK_LINE);
    BlankLineEnds(body, a + 2, h);
    DelimiterStarts(body, 0, delim);
    assert body[c..c + a] == body[c..][..a] == delim;
    DelimiterStarts(body, c, delim);
  }

  /** The parser accepts such a form, and the size of its part has wrapped around. */
  lemma UnbrokenWraps(boundary: string, f: Field, max: nat)
    requires OneLine(boundary) && |boundary| <= 125 && Plain(f) && f.name != "" && 0 < max
    ensures var r := Parse(Unbroken(boundary, f), boundary, max);
      r.Some? && |r.value| == 1 && r.value[0].size == SIZE_T - 2
  {
    hide OccursAt, IndexOf, Plain, ReadHeader, UpToNul, OneLine, HeaderRead;
    hide Unbroken, NextPart, Header, Delimiter, ParseFrom;
    var delim, h, body := "--" + boundary, Header(f), Unbroken(boundary, f);
    var c := |delim| + 2 + |h| + 4;
    DelimiterIs(boundary);
    UnbrokenMarks(boundary, f);
    HeaderText(f);
    HeaderComesBack(f);
    NameRead(f);
    UnbrokenStep(body, delim, c - 4);
    StopsHere(body, delim, c);
    TwoTurns(body, delim, c, max);
    assert Keep([], HeaderRead(f).(start := c, size := SIZE_T - 2), max) ==
           [HeaderRead(f).(start := c, size := SIZE_T - 2)];
  }

  lemma HeaderText(f: Field)
    requires Plain(f)
    ensures UpToNul(Header(f)) == Header(f)
  {
    HeaderShape(f);
  }

  lemma TwoTurns(body: string, delim: string, c: nat, max: nat)
    requires delim != "" && c <= |body|
    ensures var step := NextPart(body, delim, 0);
      step.Take? && step.next == c && NextPart(body, delim, c) == Stop ==>
        ParseFrom(body, delim, 0, [], max) == Some(Keep([], step.part, max))
  {
    hide NextPart, Keep;
    var step := NextPart(body, delim, 0);
    if step.Take? && step.next == c && NextPart(body, delim, c) == Stop {
      var parts := Keep([], step.part, max);
      assert ParseFrom(body, delim, c, parts, max) == Some(parts);
    }
  }

  lemma TwoChars(s: string, a: nat)
    requires a + 2 <= |s| && s[a..a + 2] == CRLF
    ensures s[a] == '\r' && s[a + 1] == '\n'
  {
    assert s[a..a + 2][0] == s[a] && s[a..a + 2][1] == s[a + 1];
  }

  lemma BlankLineEnds(s: string, at: nat, h: string)
    requires at + |h| + 4 <= |s| && s[at..at + |h| + 4] == h + BLANK_LINE
    ensures s[at + |h| + 2] == '\r' && s[at + |h| + 3] == '\n'
  {
    assert s[at..at + |h| + 4][|h| + 2] == s[at + |h| + 2] && s[at..at + |h| + 4][|h| + 3] == s[at + |h| + 3];
  }

  lemma DelimiterStarts(s: string, at: nat, delim: string)
    requires at + |delim| <= |s| && s[at..at + |delim|] == delim
    ensures IndexOf(s, delim, at) == at
  {
    IndexIs(s, delim, at, at);
  }

  lemma UnbrokenStep(body: string, delim: string, headerEnd: nat)
    requires delim != "" && |delim| + 2 <= headerEnd && headerEnd + 4 <= |body| && IndexOf(body, delim, 0) == 0
    requires body[|delim|] == '\r' && body[|delim| + 1] == '\n'
    requires body[headerEnd + 2] == '\r' && body[headerEnd + 3] == '\n'
    requires IndexOf(body, BLANK_LINE, |delim| + 2) == headerEnd
    requires IndexOf(body, delim, headerEnd + 4) == headerEnd + 4
    ensures NextPart(body, delim, 0) ==
      Take(ReadHeader(BLANK_PART, UpToNul(body[|delim| + 2..headerEnd]))
             .(start := headerEnd + 4, size := SIZE_T - 2), headerEnd + 4)
  {
    hide IndexOf, OccursAt, ReadHeader, UpToNul;
  }

  lemma StopsHere(body: string, delim: string, cursor: nat)
    requires cursor <= |body| && delim != "" && body[cursor..] == delim + "--" && IndexOf(body, delim, cursor) == cursor
    ensures NextPart(body, delim, cursor) == Stop
  {
    hide IndexOf, OccursAt;
    Cut(body, cursor, delim, "--");
    var a := cursor + |delim|;
    assert body[a..][0] == body[a] == '-' && body[a..][1] == body[a + 1] == '-';
  }

  /** The shortest such form. */
  lemma WrappedSize(max: nat)
    requires 0 < max
    ensures var body := "--b\r\n" + "Content-Disposition: form-data; name=\"x\"" + "\r\n\r\n" + "--b--";
      var r := Parse(body, "b", max); r.Some? && |r.value| == 1 && r.value[0].size == SIZE_T - 2 > |body|
  {
    var f := Field("x", None, None, "");
    assert Header(f) == "Content-Disposition: form-data; name=\"x\"";
    assert "--" + "b" + CRLF == "--b\r\n" && "--" + "b" + "--" == "--b--";
    UnbrokenWraps("b", f, max);
    hide Parse, Header;
  }

  lemma NoPreamble(boundary: string, fields: seq<Field>, epilogue: string)
    ensures Render(None, boundary, fields, epilogue) == RenderParts(boundary, fields, epilogue)
  {
  }

  lemma NoneAfter(s: string, b: nat, text: string, delim: string)
    requires b <= |s| && s[b..] == text && FreeOf(text, delim)
    ensures IndexOf(s, delim, b) == -1
  {
    hide OccursAt, FreeOf;
    assert s[b..|s|] == text;
    forall j | b <= j ensures !OccursAt(s, delim, j) {
      if OccursAt(s, delim, j) {
        OccursEnds(s, delim, j);
        OccursInText(s, b, text, delim, j);
        NotFree(text, delim, j - b);
      }
    }
  }

  /** A form that breaks off in the data of a field, with no delimiter after it, is rejected. */
  lemma UnclosedIsRejected(boundary: string, f: Field, max: nat)
    requires OneLine(boundary) && |boundary| <= 125 && Plain(f) && FreeOf(f.data, "--" + boundary)
    ensures Parse("--" + boundary + CRLF + Header(f) + BLANK_LINE + f.data, boundary, max) == None
  {
    hide Header, OccursAt, IndexOf, Plain, FreeOf, OneLine, ReadHeader, NextPart;
    var delim, h := "--" + boundary, Header(f);
    var body := delim + CRLF + h + BLANK_LINE + f.data;
    var a := |delim| + 2;
    DelimiterIs(boundary);
    OpenParts(delim, CRLF, h, BLANK_LINE, f.data);
    FourCuts(body, 0, delim, CRLF, h + BLANK_LINE, f.data, "");
    OccursAtCut(body, 0, delim, body);
    IndexIs(body, delim, 0, 0);
    BlankLineAfter(body, a, f);
    NoneAfter(body, a + |h| + 4, f.data, delim);
    assert body[a - 2..a][0] == body[a - 2] && body[a - 2..a][1] == body[a - 1];
    StepRejects(body, delim, a);
  }

  lemma OpenParts(delim: string, crlf: string, h: string, blank: string, d: string)
    ensures var body := delim + crlf + h + blank + d;
      && body[0..] == body == delim + (crlf + ((h + blank) + (d + ""))) && IsPrefix(delim, body)
  {
    var body := delim + crlf + h + blank + d;
    assert body == delim + (crlf + ((h + blank) + (d + "")));
  }

  lemma StepRejects(body: string, delim: string, a: nat)
    requires delim != "" && IndexOf(body, delim, 0) == 0 && a == |delim| + 2 <= |body|
    requires body[a - 2] == '\r' && body[a - 1] == '\n'
    requires var h := IndexOf(body, BLANK_LINE, a); a <= h && h + 4 <= |body| && IndexOf(body, delim, h + 4) == -1
    ensures NextPart(body, delim, 0) == Reject
  {
    hide IndexOf, OccursAt, ReadHeader, UpToNul;
  }

  lemma OccursEnds(s: string, needle: string, i: int)
    requires OccursAt(s, needle, i)
    ensures 0 <= i <= |s| - |needle|
  {
  }

  lemma NotFree(s: string, t: string, i: int)
    requires OccursAt(s, t, i)
    ensures !FreeOf(s, t)
  {
  }

  /** A field that fits but for its name does not come back: its file name is misread. */
  lemma MisreadFilename()
    ensures var fields := [Field("filename=", Some("a"), None, "")]; var body := Render(None, "b", fields, "");
      var r := Parse(body, "b", 1); r.Some? && !SameForm(body, r.value, fields)
  {
    hide Header, EndsWith, Plain, RenderParts, Fits, Render, Renderable, Parse, SameForm;
    var f := Field("filename=", Some("a"), None, "");
    MisreadField(f);
    RenderFirst("b", [f], "");
    assert [f][1..] == [] && [f][0] == f;
    assert |RenderParts("b", [f], "")| < SIZE_T;
    assert Render(None, "b", [f], "") == RenderParts("b", [f], "") by { NoPreamble("b", [f], ""); }
    RoundTripExactlyWhen(None, "b", [f], "", 1);
  }

  lemma MisreadField(f: Field)
    requires f == Field("filename=", Some("a"), None, "")
    ensures !Fits(f) && |Header(f)| < 100 && Renderable("b", [f]) && RenderParts("b", [], "") == "--b--"
  {
    assert EndsWith(f.name, "filename=");
    assert FreeOf("", "--b");
  }
}
