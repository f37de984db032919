/** The form-data parser (src/server.c:693-806) and the bodies it reads back (section 5.1.1 of RFC 2046). */
module Multipart {
  import opened Common
  import opened Text

  const CRLF := "\r\n"
  const BLANK_LINE := "\r\n\r\n"
  const SIZE_T := 0x1_0000_0000_0000_0000

  /** `fp_form_part`: the data is `size` bytes of the body from `start` on. */
  datatype Part = Part(name: string, filename: string, contentType: string, start: nat, size: nat)

  const BLANK_PART := Part("", "", "", 0, 0)

  /** What a buffer of `size` bytes keeps of a C string. */
  function Truncate(s: string, size: nat): (r: string)
    requires 0 < size
    ensures |r| < size && IsPrefix(r, s) && (|s| < size ==> r == s)
  {
    if |s| < size then s else s[..size - 1]
  }

  function Delimiter(boundary: string): string {
    Truncate("--" + boundary, 128)
  }

  /** `fp_memsearch` from position `from` on. */
  method MemSearch(hay: string, from: nat, needle: string) returns (i: int)
    requires from <= |hay|
    ensures i == if needle == "" then -1 else IndexOf(hay, needle, from)
  {
    if needle == "" || |hay| - from < |needle| {
      assert needle != "" ==> forall j :: from <= j ==> !OccursAt(hay, needle, j);
      return -1;
    }
    i := from;
    while i + |needle| <= |hay|
      invariant from <= i && forall j :: from <= j < i ==> !OccursAt(hay, needle, j)
    {
      if hay[i..i + |needle|] == needle {
        IndexIs(hay, needle, from, i);
        return;
      }
      i := i + 1;
    }
    assert forall j :: from <= j ==> !OccursAt(hay, needle, j);
    i := -1;
  }

  // ------------------------------------------------------------- a part's header

  function Lower(c: char): char {
    if 'A' <= c <= 'Z' then (c as int + 32) as char else c
  }

  /** `strncasecmp(line, key, |key|) == 0` for a lower-case key. */
  predicate StartsWithNoCase(line: string, key: string) {
    |key| <= |line| && forall i :: 0 <= i < |key| ==> Lower(line[i]) == key[i]
  }

  /** The text between the first `key` of the line and the quote that follows it. */
  function Quoted(line: string, key: string): Option<string> {
    var i := IndexOf(line, key, 0);
    if i == -1 then None
    else
      var q := IndexOfChar(line, '"', i + |key|);
      if q == -1 then None else Some(line[i + |key|..q])
  }

  function SkipBlanks(s: string): (r: string)
    ensures |r| <= |s| && (s != "" && (s[0] == ' ' || s[0] == '\t') ==> |r| < |s|)
    ensures s != "" && s[0] != ' ' && s[0] != '\t' ==> r == s
  {
    if s != "" && (s[0] == ' ' || s[0] == '\t') then SkipBlanks(s[1..]) else s
  }

  const NAME_KEY := "name=\""
  const FILENAME_KEY := "filename=\""
  const DISPOSITION := "content-disposition"
  const CONTENT_TYPE := "content-type"

  /** What one header line changes in the part. */
  function ReadLine(part: Part, line: string): Part {
    if StartsWithNoCase(line, DISPOSITION) then
      var name := Quoted(line, NAME_KEY);
      var filename := Quoted(line, FILENAME_KEY);
      part.(name := if name.Some? then Truncate(name.value, 64) else part.name,
            filename := if filename.Some? then Truncate(filename.value, 256) else part.filename)
    else if StartsWithNoCase(line, CONTENT_TYPE) then
      var colon := IndexOfChar(line, ':', 0);
      if colon == -1 then part else part.(contentType := Truncate(SkipBlanks(line[colon + 1..]), 128))
    else part
  }

  predicate IsBreak(c: char) {
    c == '\r' || c == '\n'
  }

  function SkipBreaks(s: string): (r: string)
    ensures |r| <= |s| && (r != "" ==> !IsBreak(r[0]))
  {
    if s != "" && IsBreak(s[0]) then SkipBreaks(s[1..]) else s
  }

  function LineLength(s: string): (n: nat)
    ensures n <= |s| && (forall i :: 0 <= i < n ==> !IsBreak(s[i])) && (n < |s| ==> IsBreak(s[n]))
  {
    if s == "" || IsBreak(s[0]) then 0 else 1 + LineLength(s[1..])
  }

  /** The lines of a header, cut as by `strtok_r` at runs of CR and LF, applied in order. */
  function ReadHeader(part: Part, text: string): Part
    decreases |text|
  {
    var t := SkipBreaks(text);
    if t == "" then part
    else ReadHeader(ReadLine(part, t[..LineLength(t)]), t[LineLength(t)..])
  }

  method ReadPartHeader(header: string) returns (part: Part)
    ensures part == ReadHeader(BLANK_PART, UpToNul(header))
  {
    hide ReadLine, UpToNul;
    part := BLANK_PART;
    var rest := SkipBreaks(UpToNul(header));
    while rest != ""
      invariant rest == SkipBreaks(rest)
      invariant ReadHeader(part, rest) == ReadHeader(BLANK_PART, UpToNul(header))
      decreases |rest|
    {
      var n := LineLength(rest);
      part := ReadHeaderLine(part, rest[..n]);
      SkipTwice(part, rest[n..]);
      rest := SkipBreaks(rest[n..]);
    }
  }

  lemma SkipTwice(part: Part, s: string)
    ensures SkipBreaks(SkipBreaks(s)) == SkipBreaks(s)
    ensures ReadHeader(part, SkipBreaks(s)) == ReadHeader(part, s)
  {
  }

  method ReadHeaderLine(part: Part, line: string) returns (r: Part)
    ensures r == ReadLine(part, line)
  {
    hide Quoted, StartsWithNoCase, IndexOfChar;
    r := part;
    if StartsWithNoCase(line, DISPOSITION) {
      var name := CopyQuoted(line, NAME_KEY, part.name, 64);
      var filename := CopyQuoted(line, FILENAME_KEY, part.filename, 256);
      r := r.(name := name, filename := filename);
    } else if StartsWithNoCase(line, CONTENT_TYPE) {
      var colon := IndexOfChar(line, ':', 0);
      if colon != -1 {
        r := r.(contentType := Truncate(SkipBlanks(line[colon + 1..]), 128));
      }
    }
  }

  /** The copy of a quoted value into a buffer of `size` bytes, which keeps its content when there is none. */
  method CopyQuoted(line: string, key: string, buffer: string, size: nat) returns (r: string)
    requires 0 < size
    ensures var q := Quoted(line, key); r == if q.Some? then Truncate(q.value, size) else buffer
  {
    r := buffer;
    var pos := IndexOf(line, key, 0);
    if pos != -1 {
      pos := pos + |key|;
      var endq := IndexOfChar(line, '"', pos);
      if endq != -1 {
        var len := endq - pos;
        if len >= size { len := size - 1; }
        assert line[pos..pos + len] == line[pos..endq][..len];
        r := line[pos..pos + len];
      }
    }
  }

  // ------------------------------------------------------------------ the parser

  datatype Step = Stop | Reject | Take(part: Part, next: nat)

  /** One turn of the parser's loop. */
  function NextPart(body: string, delim: string, cursor: nat): (s: Step)
    requires cursor <= |body| && delim != ""
    ensures s.Take? ==> cursor < s.next <= |body|
  {
    var marker := IndexOf(body, delim, cursor);
    if marker == -1 then Stop
    else
      var after := marker + |delim|;
      if after + 2 <= |body| && body[after] == '-' && body[after + 1] == '-' then Stop
      else if after + 2 > |body| || body[after] != '\r' || body[after + 1] != '\n' then Reject
      else
        var headerEnd := IndexOf(body, BLANK_LINE, after + 2);
        if headerEnd == -1 then Reject
        else
          var start := headerEnd + 4;
          var next := IndexOf(body, delim, start);
          if next == -1 || body[next - 2] != '\r' || body[next - 1] != '\n' then Reject
          else
            var part := ReadHeader(BLANK_PART, UpToNul(body[after + 2..headerEnd]));
            Take(part.(start := start, size := (next - start - 2) % SIZE_T), next)
  }

  /** Parts without a name, and parts beyond the room for them, are skipped. */
  function Keep(parts: seq<Part>, part: Part, max: nat): seq<Part> {
    if part.name != "" && |parts| < max then parts + [part] else parts
  }

  function ParseFrom(body: string, delim: string, cursor: nat, parts: seq<Part>, max: nat): Option<seq<Part>>
    requires cursor <= |body| && delim != ""
    decreases |body| - cursor
  {
    match NextPart(body, delim, cursor)
    case Stop => Some(parts)
    case Reject => None
    case Take(part, next) => ParseFrom(body, delim, next, Keep(parts, part, max), max)
  }

  function Parse(body: string, boundary: string, max: nat): Option<seq<Part>> {
    if max == 0 then None else ParseFrom(body, Delimiter(boundary), 0, [], max)
  }

  /** The body of the parser's loop. */
  method ReadNext(body: string, delim: string, cursor: nat) returns (s: Step)
    requires cursor <= |body| && delim != ""
    ensures s == NextPart(body, delim, cursor)
  {
    hide ReadHeader, UpToNul, OccursAt, IndexOf;
    var marker := MemSearch(body, cursor, delim);
    if marker == -1 { return Stop; }
    OccursWithin(body, delim, cursor);
    marker := marker + |delim|;
    if marker + 2 <= |body| && body[marker] == '-' && body[marker + 1] == '-' { return Stop; }
    if marker + 2 > |body| || body[marker] != '\r' || body[marker + 1] != '\n' { return Reject; }
    var headerEnd := MemSearch(body, marker + 2, BLANK_LINE);
    if headerEnd == -1 { return Reject; }
    OccursWithin(body, BLANK_LINE, marker + 2);
    var part := ReadPartHeader(body[marker + 2..headerEnd]);
    var dataStart := headerEnd + 4;
    var next := MemSearch(body, dataStart, delim);
    if next == -1 { return Reject; }
    OccursWithin(body, delim, dataStart);
    if next < 2 || body[next - 2] != '\r' || body[next - 1] != '\n' { return Reject; }
    s := Take(part.(start := dataStart, size := (next - dataStart - 2) % SIZE_T), next);
  }

  /** `fp_parse_multipart`. The cursor moves forward on every turn, so it ends on every body. */
  method ParseMultipart(body: string, boundary: string, parts: array<Part>) returns (ok: bool, count: nat)
    modifies parts
    ensures ok == Parse(body, boundary, parts.Length).Some?
    ensures ok ==> count <= parts.Length && parts[..count] == Parse(body, boundary, parts.Length).value
  {
    hide NextPart;
    if parts.Length == 0 { return false, 0; }
    var delim := Delimiter(boundary);
    var cursor := 0;
    count := 0;
    while true
      invariant cursor <= |body| && count <= parts.Length
      invariant ParseFrom(body, delim, cursor, parts[..count], parts.Length) == Parse(body, boundary, parts.Length)
      decreases |body| - cursor
    {
      var step := ReadNext(body, delim, cursor);
      match step {
        case Stop => return true, count;
        case Reject => return false, count;
        case Take(part, next) =>
          ghost var before := parts[..count];
          if part.name != "" && count < parts.Length {
            parts[count] := part;
            count := count + 1;
            assert parts[..count] == before + [part];
          }
          assert parts[..count] == Keep(before, part, parts.Length);
          cursor := next;
      }
    }
  }

  lemma OccursWithin(s: string, needle: string, from: nat)
    requires from <= |s|
    ensures var i := IndexOf(s, needle, from); i == -1 || from <= i <= |s| - |needle|
  {
  }

  // ------------------------------------------------ every body: what parts point at

  /** The part comes from the delimiter at m: on the next line its header starts, which is read up to the first blank
      line, and there its data starts. */
  ghost predicate HasHeader(body: string, delim: string, p: Part, m: nat) {
    && OccursAt(body, delim, m) && OccursAt(body, CRLF, m + |delim|)
    && var header := m + |delim| + 2;
    && IndexOf(body, BLANK_LINE, header) == p.start - 4 && header <= p.start - 4 && p.start <= |body|
    && p.(start := 0, size := 0) == ReadHeader(BLANK_PART, UpToNul(body[header..p.start - 4]))
  }

  /** A part's data runs to the next delimiter, less the line break before it; if the delimiter comes right after
      the header there is no such line break and the subtraction wraps around. */
  ghost predicate WellPlaced(body: string, delim: string, p: Part) {
    && p.start <= |body| && (exists m :: HasHeader(body, delim, p, m))
    && var next := IndexOf(body, delim, p.start);
    && next != -1
    && (if next == p.start then p.size == SIZE_T - 2
        else p.start + p.size + 2 == next && body[p.start + p.size..next] == CRLF)
  }

  predicate Terminated(p: Part) {
    |p.name| < 64 && |p.filename| < 256 && |p.contentType| < 128
  }

  lemma {:induction false} HeaderFits(part: Part, text: string)
    requires Terminated(part)
    ensures Terminated(ReadHeader(part, text))
    decreases |text|
  {
    hide Quoted, StartsWithNoCase;
    var t := SkipBreaks(text);
    if t != "" {
      HeaderFits(ReadLine(part, t[..LineLength(t)]), t[LineLength(t)..]);
    }
  }

  /** Where a step that takes a part finds its marks. */
  lemma TakenFrom(body: string, delim: string, cursor: nat)
    requires cursor <= |body| < SIZE_T && delim != "" && NextPart(body, delim, cursor).Take?
    ensures var m := IndexOf(body, delim, cursor); var header := m + |delim| + 2;
      && cursor <= m && header <= |body|
      && var s, headerEnd := NextPart(body, delim, cursor), IndexOf(body, BLANK_LINE, header);
      && header <= headerEnd && s.part.start == headerEnd + 4 <= s.next <= |body|
      && s.next == IndexOf(body, delim, s.part.start) && s.part.size == (s.next - s.part.start - 2) % SIZE_T
      && body[header - 2] == '\r' && body[header - 1] == '\n' && body[s.next - 2] == '\r' && body[s.next - 1] == '\n'
      && var read := ReadHeader(BLANK_PART, UpToNul(body[header..headerEnd]));
      && s.part == read.(start := s.part.start, size := s.part.size)
  {
    hide ReadHeader, UpToNul, IndexOf, OccursAt;
    OccursWithin(body, delim, cursor);
    var header := IndexOf(body, delim, cursor) + |delim| + 2;
    OccursWithin(body, BLANK_LINE, header);
    OccursWithin(body, delim, IndexOf(body, BLANK_LINE, header) + 4);
  }

  lemma StepPlacesPart(body: string, delim: string, cursor: nat)
    requires cursor <= |body| < SIZE_T && delim != "" && NextPart(body, delim, cursor).Take?
    ensures var s := NextPart(body, delim, cursor); WellPlaced(body, delim, s.part) && Terminated(s.part)
    ensures var s := NextPart(body, delim, cursor);
      cursor < s.part.start <= s.next == IndexOf(body, delim, s.part.start)
  {
    hide ReadHeader, UpToNul, IndexOf, OccursAt, WellPlaced, NextPart;
    TakenFrom(body, delim, cursor);
    var m, s := IndexOf(body, delim, cursor), NextPart(body, delim, cursor);
    var header := m + |delim| + 2;
    var text := UpToNul(body[header..s.part.start - 4]);
    HeaderFits(BLANK_PART, text);
    HeaderPlain(BLANK_PART, text);
    AfterBlankLine(body, s.part.start - 4);
    LineBreakAt(body, header - 2);
    assert s.part.(start := 0, size := 0) == ReadHeader(BLANK_PART, text);
    assert HasHeader(body, delim, s.part, m);
    SizeOfPart(body, delim, s.part);
  }

  lemma AfterBlankLine(body: string, i: int)
    requires OccursAt(body, BLANK_LINE, i)
    ensures body[i + 3] == '\n'
  {
    assert body[i..i + 4][3] == '\n';
  }

  lemma LineBreakAt(body: string, i: nat)
    requires i + 2 <= |body| && body[i] == '\r' && body[i + 1] == '\n'
    ensures OccursAt(body, CRLF, i)
  {
    assert body[i..i + 2] == CRLF;
  }

  lemma HeaderPlain(part: Part, text: string)
    requires part.start == 0 && part.size == 0
    ensures ReadHeader(part, text).start == 0 && ReadHeader(part, text).size == 0
    decreases |text|
  {
    var t := SkipBreaks(text);
    if t != "" {
      HeaderPlain(ReadLine(part, t[..LineLength(t)]), t[LineLength(t)..]);
    }
  }

  lemma SizeOfPart(body: string, delim: string, p: Part)
    requires 2 <= p.start <= |body| < SIZE_T && body[p.start - 1] == '\n' && exists m :: HasHeader(body, delim, p, m)
    requires var next := IndexOf(body, delim, p.start);
      && next != -1 && body[next - 2] == '\r' && body[next - 1] == '\n' && p.size == (next - p.start - 2) % SIZE_T
    ensures WellPlaced(body, delim, p)
  {
    hide IndexOf, OccursAt;
    OccursWithin(body, delim, p.start);
    var next := IndexOf(body, delim, p.start);
    if next > p.start {
      assert next != p.start + 1;
      assert body[next - 2..next] == CRLF;
    }
  }

  ghost predicate Ordered(parts: seq<Part>) {
    forall i, j :: 0 <= i < j < |parts| ==> parts[i].start < parts[j].start
  }

  ghost predicate GoodParts(body: string, delim: string, parts: seq<Part>, max: nat) {
    && |parts| <= max && Ordered(parts)
    && forall i :: 0 <= i < |parts| ==>
         WellPlaced(body, delim, parts[i]) && Terminated(parts[i]) && parts[i].name != ""
  }

  lemma {:induction false} ParsedFrom(body: string, delim: string, cursor: nat, parts: seq<Part>, max: nat)
    requires cursor <= |body| < SIZE_T && delim != "" && GoodParts(body, delim, parts, max)
    requires forall i :: 0 <= i < |parts| ==> parts[i].start <= cursor
    ensures var r := ParseFrom(body, delim, cursor, parts, max); r.Some? ==> GoodParts(body, delim, r.value, max)
    decreases |body| - cursor
  {
    hide NextPart, WellPlaced, IndexOf;
    var s := NextPart(body, delim, cursor);
    if s.Take? {
      StepPlacesPart(body, delim, cursor);
      ParsedFrom(body, delim, s.next, Keep(parts, s.part, max), max);
    }
  }

  /** On every body, malformed or not: the parts found have names, fit their buffers, come in order and
      are placed as stated above. */
  lemma EveryBody(body: string, boundary: string, max: nat)
    requires |body| < SIZE_T
    ensures var r := Parse(body, boundary, max); r.Some? ==> GoodParts(body, Delimiter(boundary), r.value, max)
  {
    if max != 0 { ParsedFrom(body, Delimiter(boundary), 0, [], max); }
  }

  /** The header of the delimiter at m ends in a blank line, and a delimiter comes directly after it. */
  predicate DelimiterFollowsHeader(body: string, delim: string, m: nat) {
    var header := m + |delim| + 2;
    header <= |body| &&
    var blank := IndexOf(body, BLANK_LINE, header);
    blank != -1 && OccursAt(body, delim, blank + 4)
  }

  /** On every body: the slice of the i-th part that the parser returns lies in the body if and only if no delimiter
      directly follows the blank line that ends its header. */
  lemma SliceInBodyExactlyWhen(body: string, boundary: string, max: nat, i: nat)
    requires |body| < SIZE_T - 2
    ensures var r, delim := Parse(body, boundary, max), Delimiter(boundary);
      r.Some? && i < |r.value| ==>
        exists m: nat :: HasHeader(body, delim, r.value[i], m) &&
          (r.value[i].start + r.value[i].size <= |body| <==> !DelimiterFollowsHeader(body, delim, m))
  {
    EveryBody(body, boundary, max);
    var r, delim := Parse(body, boundary, max), Delimiter(boundary);
    hide Parse, OccursAt, HasHeader, DelimiterFollowsHeader, IndexOf, Delimiter;
    if r.Some? && i < |r.value| {
      var p := r.value[i];
      var m: nat :| HasHeader(body, delim, p, m);
      SliceIn(body, delim, p.start, p.size);
      DataStarts(body, delim, p, m);
    }
  }

  lemma SliceIn(body: string, delim: string, start: nat, size: nat)
    requires start <= |body| < SIZE_T - 2
    ensures var next := IndexOf(body, delim, start);
      next != -1 && (if next == start then size == SIZE_T - 2 else start + size + 2 == next) ==>
        (start + size <= |body| <==> !OccursAt(body, delim, start))
  {
  }

  lemma DataStarts(body: string, delim: string, p: Part, m: nat)
    ensures HasHeader(body, delim, p, m) ==>
      (DelimiterFollowsHeader(body, delim, m) <==> OccursAt(body, delim, p.start))
  {
    hide ReadHeader, UpToNul;
  }

  // ------------------------------------------------------ which bodies are accepted

  ghost predicate FirstFrom(s: string, needle: string, from: int, i: int) {
    from <= i && OccursAt(s, needle, i) && forall j :: from <= j < i ==> !OccursAt(s, needle, j)
  }

  ghost predicate NoneFrom(s: string, needle: string, from: int) {
    forall j :: from <= j ==> !OccursAt(s, needle, j)
  }

  lemma IndexMeans(s: string, needle: string, from: nat)
    requires from <= |s|
    ensures IndexOf(s, needle, from) == -1 <==> NoneFrom(s, needle, from)
    ensures forall i :: FirstFrom(s, needle, from, i) <==> IndexOf(s, needle, from) == i && i != -1
  {
    forall i | FirstFrom(s, needle, from, i) ensures IndexOf(s, needle, from) == i { IndexIs(s, needle, from, i); }
  }

  /** From c on nothing more is read: there is no delimiter, or the first one is a closing delimiter. */
  ghost predicate Closed(body: string, delim: string, c: int) {
    NoneFrom(body, delim, c) || exists m :: FirstFrom(body, delim, c, m) && OccursAt(body, "--", m + |delim|)
  }

  /** From c on the first delimiter is at m and followed by a line break, the first blank line after that is at h, and
      the next delimiter, preceded by a line break, is at `next`. */
  ghost predicate PartBetween(body: string, delim: string, c: int, m: int, h: int, next: int) {
    && FirstFrom(body, delim, c, m) && OccursAt(body, CRLF, m + |delim|)
    && FirstFrom(body, BLANK_LINE, m + |delim| + 2, h)
    && FirstFrom(body, delim, h + 4, next) && OccursAt(body, CRLF, next - 2)
  }

  ghost predicate HoldsPart(body: string, delim: string, c: int, next: int) {
    exists m, h :: PartBetween(body, delim, c, m, h, next)
  }

  lemma TwoCharsAt(s: string, t: string, i: int)
    requires |t| == 2
    ensures OccursAt(s, t, i) <==> 0 <= i && i + 2 <= |s| && s[i] == t[0] && s[i + 1] == t[1]
  {
    if 0 <= i && i + 2 <= |s| {
      assert s[i..i + 2] == [s[i], s[i + 1]];
      assert t == [t[0], t[1]];
    }
  }

  lemma StopMeans(body: string, delim: string, c: nat)
    requires c <= |body| && delim != ""
    ensures NextPart(body, delim, c) == Stop <==> Closed(body, delim, c)
  {
    hide OccursAt, IndexOf, ReadHeader, UpToNul, NoneFrom, FirstFrom;
    IndexMeans(body, delim, c);
    OccursWithin(body, delim, c);
    var m := IndexOf(body, delim, c);
    if m != -1 {
      TwoCharsAt(body, "--", m + |delim|);
      assert FirstFrom(body, delim, c, m);
    }
  }

  /** Where the parts of a step must be, if there is one. */
  lemma PartIsAt(body: string, delim: string, c: nat, m: int, h: int, next: int)
    requires c <= |body| && delim != "" && PartBetween(body, delim, c, m, h, next)
    ensures var s := NextPart(body, delim, c); s.Take? && s.next == next
  {
    hide OccursAt, IndexOf, ReadHeader, UpToNul, NoneFrom, FirstFrom;
    IndexMeans(body, delim, c);
    TwoCharsAt(body, CRLF, m + |delim|);
    TwoCharsAt(body, "--", m + |delim|);
    IndexMeans(body, BLANK_LINE, m + |delim| + 2);
    OccursWithin(body, BLANK_LINE, m + |delim| + 2);
    IndexMeans(body, delim, h + 4);
    TwoCharsAt(body, CRLF, next - 2);
  }

  lemma TakenIsPart(body: string, delim: string, c: nat)
    requires c <= |body| < SIZE_T && delim != "" && NextPart(body, delim, c).Take?
    ensures HoldsPart(body, delim, c, NextPart(body, delim, c).next)
  {
    hide OccursAt, IndexOf, ReadHeader, UpToNul, NoneFrom, FirstFrom, NextPart;
    TakenFrom(body, delim, c);
    var m, next := IndexOf(body, delim, c), NextPart(body, delim, c).next;
    var h := IndexOf(body, BLANK_LINE, m + |delim| + 2);
    IndexMeans(body, delim, c);
    IndexMeans(body, BLANK_LINE, m + |delim| + 2);
    IndexMeans(body, delim, h + 4);
    TwoCharsAt(body, CRLF, m + |delim|);
    TwoCharsAt(body, CRLF, next - 2);
    assert PartBetween(body, delim, c, m, h, next);
  }

  /** The positions from which the parts are read, one after the other. */
  ghost predicate Walk(body: string, delim: string, cs: seq<int>)
    ensures Walk(body, delim, cs) ==> cs != []
  {
    cs != [] && forall i :: 0 < i < |cs| ==> HoldsPart(body, delim, cs[i - 1], cs[i])
  }

  /** The parts lead from c to where nothing more is read. */
  ghost predicate LeadsToEnd(body: string, delim: string, c: int, cs: seq<int>) {
    Walk(body, delim, cs) && cs[0] == c && Closed(body, delim, cs[|cs| - 1])
  }

  lemma {:induction false} AcceptedFrom(body: string, delim: string, c: nat, parts: seq<Part>, max: nat)
    requires c <= |body| < SIZE_T && delim != ""
    ensures ParseFrom(body, delim, c, parts, max).Some? ==>
      exists cs :: LeadsToEnd(body, delim, c, cs)
    decreases |body| - c
  {
    hide NextPart, Closed, HoldsPart;
    var s := NextPart(body, delim, c);
    if s.Stop? {
      StopMeans(body, delim, c);
      assert LeadsToEnd(body, delim, c, [c]);
    } else if s.Take? && ParseFrom(body, delim, c, parts, max).Some? {
      AcceptedFrom(body, delim, s.next, Keep(parts, s.part, max), max);
      var cs: seq<int> :| LeadsToEnd(body, delim, s.next, cs);
      TakenIsPart(body, delim, c);
      var all: seq<int> := [c] + cs;
      assert all[|all| - 1] == cs[|cs| - 1];
      forall i | 0 < i < |all| ensures HoldsPart(body, delim, all[i - 1], all[i]) {
        if i > 1 { assert HoldsPart(body, delim, cs[i - 2], cs[i - 1]); }
      }
      assert LeadsToEnd(body, delim, c, all);
    }
  }

  lemma {:induction false} WalkIsAccepted(body: string, delim: string, cs: seq<int>, parts: seq<Part>, max: nat)
    requires |body| < SIZE_T && delim != "" && cs != [] && 0 <= cs[0] <= |body| && LeadsToEnd(body, delim, cs[0], cs)
    ensures ParseFrom(body, delim, cs[0], parts, max).Some?
    decreases |cs|
  {
    hide NextPart, Closed, PartBetween;
    if |cs| == 1 {
      StopMeans(body, delim, cs[0]);
    } else {
      assert HoldsPart(body, delim, cs[0], cs[1]);
      var m, h :| PartBetween(body, delim, cs[0], m, h, cs[1]);
      PartIsAt(body, delim, cs[0], m, h, cs[1]);
      forall i | 0 < i < |cs[1..]| ensures HoldsPart(body, delim, cs[1..][i - 1], cs[1..][i]) {
        assert HoldsPart(body, delim, cs[i], cs[i + 1]);
      }
      WalkIsAccepted(body, delim, cs[1..], Keep(parts, NextPart(body, delim, cs[0]).part, max), max);
    }
  }

  lemma DelimiterNotEmpty(boundary: string)
    ensures Delimiter(boundary) != ""
  {
  }

  /** A body is accepted if and only if its parts, each between a delimiter line and the next delimiter, lead from its
      start to a closing delimiter or to where there is no delimiter any more. */
  lemma AcceptedExactlyWhen(body: string, boundary: string, max: nat)
    requires |body| < SIZE_T
    ensures Parse(body, boundary, max).Some? <==>
      max > 0 && exists cs :: LeadsToEnd(body, Delimiter(boundary), 0, cs)
  {
    hide ParseFrom, Closed, Delimiter;
    if max > 0 {
      assert Delimiter(boundary) != "" by { DelimiterNotEmpty(boundary); }
      AcceptedFrom(body, Delimiter(boundary), 0, [], max);
      forall cs | LeadsToEnd(body, Delimiter(boundary), 0, cs)
        ensures Parse(body, boundary, max).Some?
      {
        WalkIsAccepted(body, Delimiter(boundary), cs, [], max);
      }
    }
  }
}
