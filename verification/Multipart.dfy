/** The multipart form parser. */
module Multipart {
  import opened Strings

  datatype Part = Part(name: string, filename: string, contentType: string, data: string)

  const BLANK_LINE := "\r\n\r\n"

  /** The text between the quotes after `key=`, or nothing. */
  function HeaderValue(headers: string, key: string): string {
    match Find(headers, key + "=\"", 0)
    case None => ""
    case Some(k) =>
      var from := k + |key| + 2;
      match FindChar(headers, '"', from)
      case None => ""
      case Some(to) => headers[from..to]
  }

  function SkipBlanks(s: string, i: nat): (j: nat)
    requires i <= |s|
    ensures i <= j <= |s|
    decreases |s| - i
  {
    if i < |s| && (s[i] == ' ' || s[i] == '\t') then SkipBlanks(s, i + 1) else i
  }

  function RestOfLine(s: string, from: nat): (line: string)
    requires from <= |s|
    ensures |line| <= |s| - from
  {
    match FindChar(s, '\r', from)
    case Some(to) => s[from..to]
    case None =>
      match FindChar(s, '\n', from)
      case Some(to) => s[from..to]
      case None => s[from..]
  }

  /** The rest of the line after "Content-Type:". */
  function ContentType(headers: string): string {
    match Find(headers, "Content-Type:", 0)
    case None => ""
    case Some(k) => RestOfLine(headers, SkipBlanks(headers, k + 13))
  }

  /** Where the header block of a part starts: a line break after the delimiter is skipped. */
  function PartStart(body: string, afterDelimiter: nat): (p: nat)
    ensures afterDelimiter <= p <= afterDelimiter + 2
  {
    var p := if afterDelimiter < |body| && body[afterDelimiter] == '\r' then afterDelimiter + 1 else afterDelimiter;
    if p < |body| && body[p] == '\n' then p + 1 else p
  }

  /** Where the data of a part ends: before the next delimiter, or at the end of the body, without
      a line break. */
  function DataEnd(body: string, delimiter: string, dataStart: nat): (e: int)
    requires 4 <= dataStart <= |body|
    ensures dataStart - 2 <= e <= |body|
  {
    var e := match Find(body, delimiter, dataStart) case None => |body| case Some(k) => k;
    if e >= 2 && body[e - 2] == '\r' && body[e - 1] == '\n' then e - 2 else e
  }

  /** The data. When the delimiter follows the blank line at once the end lies before the start, the
      length wraps around, and everything to the end of the body is taken. */
  function Data(body: string, dataStart: nat, dataEnd: int): string
    requires dataStart <= |body| && dataEnd <= |body|
  {
    if dataEnd >= dataStart then body[dataStart..dataEnd] else body[dataStart..]
  }

  function PartOf(headers: string, data: string): Part {
    Part(HeaderValue(headers, "name"), HeaderValue(headers, "filename"), ContentType(headers), data)
  }

  /** The parser from one position on. Whatever the body holds, the next position lies further on. */
  function ParseFrom(body: string, delimiter: string, pos: nat): seq<Part>
    requires |delimiter| >= 2
    decreases |body| - pos
  {
    if pos >= |body| then []
    else match Find(body, delimiter, pos)
      case None => []
      case Some(at) =>
        if OccursAt(body, delimiter + "--", at) then []
        else
          var start := PartStart(body, at + |delimiter|);
          match Find(body, BLANK_LINE, start)
          case None => []
          case Some(headerEnd) =>
            var dataStart := headerEnd + 4;
            var dataEnd := DataEnd(body, delimiter, dataStart);
            [PartOf(body[start..headerEnd], Data(body, dataStart, dataEnd))] + ParseFrom(body, delimiter, dataEnd)
  }

  method ExtractContentType(headers: string) returns (contentType: string)
    ensures contentType == ContentType(headers)
  {
    var k := Find(headers, "Content-Type:", 0);
    if k.None? { return ""; }
    var from := k.value + 13;
    while from < |headers| && (headers[from] == ' ' || headers[from] == '\t')
      invariant k.value + 13 <= from <= |headers|
      invariant SkipBlanks(headers, from) == SkipBlanks(headers, k.value + 13)
    {
      from := from + 1;
    }
    var to := FindChar(headers, '\r', from);
    if to.None? { to := FindChar(headers, '\n', from); }
    return headers[from..if to.None? then |headers| else to.value];
  }

  method FindDataEnd(body: string, delimiter: string, dataStart: nat) returns (dataEnd: int)
    requires 4 <= dataStart <= |body|
    ensures dataEnd == DataEnd(body, delimiter, dataStart)
  {
    hide Find, OccursAt;
    var found := Find(body, delimiter, dataStart);
    dataEnd := if found.None? then |body| else found.value;
    if dataEnd >= 2 && body[dataEnd - 2] == '\r' && body[dataEnd - 1] == '\n' {
      dataEnd := dataEnd - 2;
    }
  }

  /** Reads the part that starts at a delimiter; None when its header block has no end. */
  method ReadPart(body: string, delimiter: string, at: nat) returns (part: Option<Part>, next: int)
    requires at + |delimiter| <= |body|
    ensures var start := PartStart(body, at + |delimiter|);
            match Find(body, BLANK_LINE, start)
            case None => part.None?
            case Some(headerEnd) =>
              && next == DataEnd(body, delimiter, headerEnd + 4)
              && part == Some(PartOf(body[start..headerEnd], Data(body, headerEnd + 4, next)))
  {
    hide HeaderValue, ContentType, Find, OccursAt, DataEnd, Data;
    part, next := None, 0;
    var start := at + |delimiter|;
    if start < |body| && body[start] == '\r' { start := start + 1; }
    if start < |body| && body[start] == '\n' { start := start + 1; }
    assert start == PartStart(body, at + |delimiter|);
    hide PartStart;
    var headerEnd := Find(body, BLANK_LINE, start);
    if headerEnd.None? { return; }
    var headers := body[start..headerEnd.value];
    var dataStart := headerEnd.value + 4;
    next := FindDataEnd(body, delimiter, dataStart);
    var contentType := ExtractContentType(headers);
    var data := Data(body, dataStart, next);
    part := Some(Part(HeaderValue(headers, "name"), HeaderValue(headers, "filename"), contentType, data));
  }

  method ParseMultipart(body: string, boundary: string) returns (parts: seq<Part>)
    ensures parts == ParseFrom(body, "--" + boundary, 0)
  {
    hide ParseFrom, DataEnd, PartOf, Data, PartStart, Find, OccursAt;
    var delimiter := "--" + boundary;
    parts := [];
    var pos := 0;
    while pos < |body|
      invariant 0 <= pos
      invariant parts + ParseFrom(body, delimiter, pos) == ParseFrom(body, delimiter, 0)
      decreases |body| - pos
    {
      ParseStep(body, delimiter, pos);
      var at := Find(body, delimiter, pos);
      if at.None? || OccursAt(body, delimiter + "--", at.value) { return; }
      var part, next := ReadPart(body, delimiter, at.value);
      if part.None? { return; }
      parts := parts + [part.value];
      pos := next;
    }
    ParseStep(body, delimiter, pos);
  }

  lemma ParseStep(body: string, delimiter: string, pos: nat)
    requires |delimiter| >= 2
    ensures pos >= |body| ==> ParseFrom(body, delimiter, pos) == []
    ensures var at := Find(body, delimiter, pos);
            pos < |body| ==>
              if at.None? || OccursAt(body, delimiter + "--", at.value) then ParseFrom(body, delimiter, pos) == []
              else
                var start := PartStart(body, at.value + |delimiter|);
                match Find(body, BLANK_LINE, start)
                case None => ParseFrom(body, delimiter, pos) == []
                case Some(headerEnd) =>
                  var next := DataEnd(body, delimiter, headerEnd + 4);
                  && pos < next <= |body|
                  && ParseFrom(body, delimiter, pos)
                     == [PartOf(body[start..headerEnd], Data(body, headerEnd + 4, next))]
                        + ParseFrom(body, delimiter, next)
  {
    hide Find, OccursAt, PartStart, DataEnd, Data, PartOf;
  }

  // ---- the written form ----

  const TYPE := "Content-Type:"
  const FILENAME := "filename" + "=\""
  const INTRO := "Content-Disposition: form-data; "

  function Opening(name: string): string {
    INTRO + "name=\"" + name + "\""
  }

  /** A form field as section 4.2 of RFC 7578 writes it; an empty file name or content type is left
      out. */
  function FirstLine(p: Part): string {
    Opening(p.name) + if p.filename == "" then "" else "; filename=\"" + p.filename + "\""
  }

  /** The content type line, or nothing. */
  function TypeLine(p: Part): string {
    if p.contentType == "" then "" else CRLF + "Content-Type:" + (" " + p.contentType)
  }

  function Block(p: Part): string {
    FirstLine(p) + TypeLine(p)
  }

  /** A body in the form of section 5.1.1 of RFC 2046; what follows the last delimiter is ignored. */
  function Body(parts: seq<Part>, delimiter: string, epilogue: string): string
    decreases |parts|, 1
  {
    delimiter + AfterDelimiter(parts, delimiter, epilogue)
  }

  function AfterDelimiter(parts: seq<Part>, delimiter: string, epilogue: string): string
    decreases |parts|, 0
  {
    if parts == [] then "--" + epilogue
    else CRLF + Block(parts[0]) + BLANK_LINE + parts[0].data + CRLF + Body(parts[1..], delimiter, epilogue)
  }

  ghost predicate Contains(s: string, pattern: string) {
    exists i :: 0 <= i && OccursAt(s, pattern, i)
  }

  predicate EndsWith(s: string, tail: string) {
    |s| >= |tail| && s[|s| - |tail|..] == tail
  }

  /** The headers have no line break of their own, and the data does not hold the delimiter. */
  ghost predicate Framed(p: Part, delimiter: string) {
    && '\r' !in p.name && '\r' !in p.filename && '\r' !in p.contentType
    && !Contains(p.data, delimiter)
  }

  /** The header values are free of quotes and of the parser's search markers. */
  ghost predicate Unmarked(p: Part) {
    && '"' !in p.name && '"' !in p.filename && '\n' !in p.contentType
    && StartsDark(p.contentType)
    && !EndsWith(p.name, "filename=")
    && !Contains(p.name, TYPE) && !Contains(p.filename, TYPE)
    && !Contains(p.contentType, FILENAME)
  }

  predicate StartsDark(s: string) {
    s != "" ==> s[0] != ' ' && s[0] != '\t'
  }

  // ---- first occurrences ----

  /** No occurrence of `pattern` starts inside `text`, even with the pattern following it. */
  ghost predicate NoneBefore(text: string, pattern: string) {
    forall i :: 0 <= i < |text| ==> !OccursAt(text + pattern, pattern, i)
  }

  lemma FindAfter(prefix: string, text: string, pattern: string, rest: string)
    requires NoneBefore(text, pattern)
    ensures Find(prefix + text + pattern + rest, pattern, |prefix|) == Some(|prefix| + |text|)
  {
    hide Find;
    var s := prefix + text + pattern + rest;
    var at := |prefix| + |text|;
    assert s[at..at + |pattern|] == pattern;
    assert s == prefix + (text + pattern) + rest;
    forall i | |prefix| <= i < at
      ensures !OccursAt(s, pattern, i)
    {
      SameWindow(prefix, text + pattern, rest, pattern, i - |prefix|);
    }
    FindIs(s, pattern, |prefix|, at);
  }

  /** Whether a pattern occurs depends on the window it would cover, not on what lies around. */
  lemma SameWindow(before: string, window: string, after: string, pattern: string, i: nat)
    requires i + |pattern| <= |window|
    ensures OccursAt(before + window + after, pattern, |before| + i) <==> OccursAt(window, pattern, i)
  {
  }

  /** A separator that the pattern does not contain ends the search for occurrences. */
  lemma NoneAcross(text: string, sep: char, pattern: string)
    requires sep !in pattern && text != "" && text[|text| - 1] == sep && !Contains(text, pattern)
    ensures NoneBefore(text, pattern)
  {
    forall i | 0 <= i < |text|
      ensures !OccursAt(text + pattern, pattern, i)
    {
      MatchCovers(text + pattern, pattern, i, |text| - 1);
      if i + |pattern| <= |text| {
        SameWindow("", text, pattern, pattern, i);
        assert "" + text + pattern == text + pattern;
      }
    }
  }

  lemma NoneByLast(text: string, pattern: string)
    requires pattern != "" && pattern[|pattern| - 1] !in text + pattern[..|pattern| - 1]
    ensures NoneBefore(text, pattern)
  {
  }

  // ---- reading the headers back ----

  lemma QuoteAfter(before: string, value: string, after: string)
    requires '"' !in value
    ensures var h, from := before + (value + "\"" + after), |before|;
            FindChar(h, '"', from) == Some(from + |value|) && h[from..from + |value|] == value
  {
    hide FindChar;
    var h, from := before + (value + "\"" + after), |before|;
    assert forall i :: 0 <= i < |value| ==> h[from + i] == value[i];
    assert h[from + |value|] == '"';
    FindCharIs(h, '"', from, from + |value|);
  }

  lemma ValueFound(before: string, key: string, value: string, after: string)
    requires NoneBefore(before, key + "=\"") && '"' !in value
    ensures HeaderValue(before + (key + "=\"") + (value + "\"" + after), key) == value
  {
    hide Find, FindChar, NoneBefore;
    var marker, rest := key + "=\"", value + "\"" + after;
    FindAfter("", before, marker, rest);
    assert "" + before + marker + rest == before + marker + rest;
    QuoteAfter(before + marker, value, after);
  }

  /** What follows the name in a header block. */
  function AfterName(p: Part): string {
    (if p.filename == "" then "" else "; filename=\"" + p.filename + "\"") + TypeLine(p)
  }

  lemma BlockFromName(p: Part)
    ensures Block(p) == INTRO + ("name" + "=\"") + (p.name + "\"" + AfterName(p))
  {
  }

  lemma NameReadBack(p: Part)
    requires '"' !in p.name
    ensures HeaderValue(Block(p), "name") == p.name
  {
    BlockFromName(p);
    NoneByLast(INTRO, "name" + "=\"");
    hide HeaderValue, Block;
    ValueFound(INTRO, "name", p.name, AfterName(p));
  }

  /** The two quotes of the opening: at 37, and at the end. */
  lemma OpeningChars(name: string)
    requires '"' !in name
    ensures var s := Opening(name);
            && |s| == |name| + 39 && s[37] == '"' && s[31] == ' ' && s[|s| - 1] == '"'
            && (forall k :: 0 <= k < 37 ==> s[k] != '"')
            && s[38..|s| - 1] == name
  {
  }

  /** Up to the quote that closes the name, the file name marker occurs only at the end of a name. */
  lemma NoFilenameInOpening(name: string, i: nat)
    requires '"' !in name && i + 10 <= |Opening(name)|
    requires i + 10 == |Opening(name)| ==> !EndsWith(name, "filename=")
    ensures !OccursAt(Opening(name), FILENAME, i)
  {
    var s := Opening(name);
    OpeningChars(name);
    hide Opening;
    MatchCovers(s, FILENAME, i, i + 9);
    MatchCovers(s, FILENAME, i, 31);
    MatchCovers(s, FILENAME, i, 37);
    if 37 < i + 9 < |s| - 1 {
      assert s[i + 9] == s[38..|s| - 1][i + 9 - 38];
    } else if i + 9 == |s| - 1 && |name| >= 9 {
      assert s[i..i + 10][..9] == s[38..|s| - 1][|name| - 9..];
      assert FILENAME[..9] == "filename=";
    }
  }

  lemma NoMarkerAcross(open: string, i: nat)
    requires |open| < i + 10 && i < |open| + 2
    ensures !OccursAt(open + "; " + FILENAME, FILENAME, i)
  {
    var s := open + "; " + FILENAME;
    MatchCovers(s, FILENAME, i, i + 9);
    assert s[i + 9] == ("; " + FILENAME)[i + 9 - |open|];
  }

  lemma NoFilenameBeforeFilename(name: string)
    requires '"' !in name && !EndsWith(name, "filename=")
    ensures NoneBefore(Opening(name) + "; ", FILENAME)
  {
    hide Opening, OccursAt, EndsWith;
    var open := Opening(name);
    assert "" + open + ("; " + FILENAME) == open + "; " + FILENAME;
    forall i | 0 <= i < |open| + 2
      ensures !OccursAt(open + "; " + FILENAME, FILENAME, i)
    {
      if i + 10 <= |open| {
        NoFilenameInOpening(name, i);
        SameWindow("", open, "; " + FILENAME, FILENAME, i);
      } else {
        NoMarkerAcross(open, i);
      }
    }
  }

  lemma FilenameReadBack(p: Part)
    requires '"' !in p.name && !EndsWith(p.name, "filename=") && '"' !in p.filename && p.filename != ""
    ensures HeaderValue(Block(p), "filename") == p.filename
  {
    NoFilenameBeforeFilename(p.name);
    BlockWithFilename(p);
    hide Opening, Block, HeaderValue, TypeLine;
    ValueFound(Opening(p.name) + "; ", "filename", p.filename, TypeLine(p));
  }

  lemma BlockWithFilename(p: Part)
    requires p.filename != ""
    ensures Block(p) == Opening(p.name) + "; " + ("filename" + "=\"") + (p.filename + "\"" + TypeLine(p))
  {
  }

  lemma FilenameAbsent(p: Part)
    requires '"' !in p.name && !EndsWith(p.name, "filename=") && p.filename == ""
    requires !Contains(p.contentType, FILENAME)
    ensures HeaderValue(Block(p), "filename") == ""
  {
    hide Opening, TypeLine;
    var open, line := Opening(p.name), TypeLine(p);
    assert Block(p) == open + line by { BlockWithoutFilename(p); }
    forall i | 0 <= i
      ensures !OccursAt(open + line, FILENAME, i)
    {
      if i + 10 <= |open| {
        NoFilenameInOpening(p.name, i);
        SameWindow("", open, line, FILENAME, i);
        assert "" + open + line == open + line;
      } else if i + 10 <= |open + line| {
        NoFilenameInType(p, open, i);
      }
    }
  }

  lemma BlockWithoutFilename(p: Part)
    requires p.filename == ""
    ensures Block(p) == Opening(p.name) + TypeLine(p)
  {
  }

  lemma NoFilenameInType(p: Part, open: string, i: nat)
    requires |open| <= i + 9 < |open| + |TypeLine(p)| && !Contains(p.contentType, FILENAME)
    ensures !OccursAt(open + TypeLine(p), FILENAME, i)
  {
    var head := CRLF + "Content-Type:" + " ";
    assert TypeLine(p) == head + p.contentType;
    assert head[|head| - 1] == ' ';
    NotInTail(open, head, p.contentType, FILENAME, i);
    Assoc(open, head, p.contentType);
  }

  /** A match that ends after `a` would lie in `tail`, when `head` ends in a character that is not
      in the pattern and does not hold the pattern's last one. */
  lemma NotInTail(a: string, head: string, tail: string, pattern: string, i: nat)
    requires pattern != "" && |a| <= i + |pattern| - 1 < |a| + |head| + |tail|
    requires head != "" && head[|head| - 1] !in pattern && pattern[|pattern| - 1] !in head
    requires !Contains(tail, pattern)
    ensures !OccursAt(a + head + tail, pattern, i)
  {
    var s := a + head + tail;
    var from, last := |a| + |head|, i + |pattern| - 1;
    assert s[from - 1] == head[|head| - 1];
    MatchCovers(s, pattern, i, last);
    MatchCovers(s, pattern, i, from - 1);
    if last < from {
      assert s[last] == head[last - |a|];
    } else if i >= from {
      SameWindow(a + head, tail, "", pattern, i - from);
      assert a + head + tail + "" == s;
      assert !OccursAt(tail, pattern, i - from);
    }
  }

  // ---- content type ----

  lemma NotContainedByChar(s: string, pattern: string, j: nat)
    requires j < |pattern| && pattern[j] !in s
    ensures !Contains(s, pattern)
  {
  }

  /** A pattern that is in neither of two texts is not in the two around a separator it lacks. */
  lemma NotContainedAround(a: string, sep: char, b: string, pattern: string)
    requires pattern != "" && sep !in pattern && !Contains(a, pattern) && !Contains(b, pattern)
    ensures !Contains(a + [sep] + b, pattern)
  {
    var s := a + [sep] + b;
    forall i | 0 <= i
      ensures !OccursAt(s, pattern, i)
    {
      if i + |pattern| <= |s| {
        MatchCovers(s, pattern, i, |a|);
        if i + |pattern| <= |a| {
          SameWindow("", a, [sep] + b, pattern, i);
          assert "" + a + ([sep] + b) == s;
        } else if i > |a| {
          SameWindow(a + [sep], b, "", pattern, i - |a| - 1);
          assert a + [sep] + b + "" == s;
        }
      }
    }
  }

  lemma NoTypeInFirstLine(p: Part)
    requires !Contains(p.name, TYPE) && !Contains(p.filename, TYPE)
    ensures !Contains(FirstLine(p), TYPE)
  {
    var a := INTRO + "name=";
    NotContainedByChar(a, TYPE, 8);
    NotContainedAround(a, '"', p.name, TYPE);
    if p.filename == "" {
      NotContainedByChar("", TYPE, 8);
      NotContainedAround(a + ['"'] + p.name, '"', "", TYPE);
      assert FirstLine(p) == a + ['"'] + p.name + ['"'] + "";
    } else {
      NotContainedByChar("; filename=", TYPE, 8);
      NotContainedByChar("", TYPE, 8);
      NotContainedAround(a + ['"'] + p.name, '"', "; filename=", TYPE);
      var b := a + ['"'] + p.name + ['"'] + "; filename=";
      NotContainedAround(b, '"', p.filename, TYPE);
      NotContainedAround(b + ['"'] + p.filename, '"', "", TYPE);
      assert FirstLine(p) == b + ['"'] + p.filename + ['"'] + "";
    }
  }

  lemma NoTypeBefore(p: Part)
    requires !Contains(p.name, TYPE) && !Contains(p.filename, TYPE)
    ensures NoneBefore(FirstLine(p) + CRLF, TYPE)
  {
    NoTypeInFirstLine(p);
    hide FirstLine;
    NotContainedByChar("\n", TYPE, 8);
    NotContainedAround(FirstLine(p), '\r', "\n", TYPE);
    assert FirstLine(p) + ['\r'] + "\n" == FirstLine(p) + CRLF;
    NoneAcross(FirstLine(p) + CRLF, '\n', TYPE);
  }

  lemma BlockOfType(p: Part)
    requires p.contentType != ""
    ensures Block(p) == FirstLine(p) + CRLF + TYPE + (" " + p.contentType)
  {
    hide FirstLine;
  }

  lemma TypeReadBack(p: Part)
    requires !Contains(p.name, TYPE) && !Contains(p.filename, TYPE)
    requires '\r' !in p.contentType && '\n' !in p.contentType && StartsDark(p.contentType)
    ensures ContentType(Block(p)) == p.contentType
  {
    if p.contentType == "" {
      NoTypeInFirstLine(p);
      hide FirstLine;
      assert Block(p) == FirstLine(p) + "" == FirstLine(p);
      NotFound(FirstLine(p), TYPE);
    } else {
      NoTypeBefore(p);
      BlockOfType(p);
      TypeFound(FirstLine(p) + CRLF, p.contentType);
    }
  }

  lemma NotFound(s: string, pattern: string)
    requires !Contains(s, pattern)
    ensures Find(s, pattern, 0) == None
  {
  }

  lemma TypeFound(text: string, contentType: string)
    requires NoneBefore(text, TYPE)
    requires contentType != "" && contentType[0] != ' ' && contentType[0] != '\t'
    requires '\r' !in contentType && '\n' !in contentType
    ensures ContentType(text + TYPE + (" " + contentType)) == contentType
  {
    hide Find, NoneBefore;
    var h := text + TYPE + (" " + contentType);
    FindAfter("", text, TYPE, " " + contentType);
    assert "" + text + TYPE + (" " + contentType) == h;
    var from := |text| + 14;
    assert h[|text| + 13] == ' ' && h[from..] == contentType;
    assert h[from] == contentType[0];
    assert SkipBlanks(h, |text| + 13) == from;
    forall i | from <= i < |h|
      ensures h[i] != '\r' && h[i] != '\n'
    {
      assert h[i] == contentType[i - from];
    }
  }

  // ---- one part in its body ----

  /** The only line break of the content type line is followed by a letter. */
  lemma TypeLineBreak(p: Part)
    requires '\r' !in p.contentType && p.contentType != ""
    ensures var line := TypeLine(p);
            |line| > 2 && line[2] == 'C' && forall k :: 1 <= k < |line| ==> line[k] != '\r'
  {
  }

  lemma NoBlankLineInBlock(p: Part)
    requires '\r' !in p.name && '\r' !in p.filename && '\r' !in p.contentType
    ensures NoneBefore(Block(p), BLANK_LINE)
  {
    var first, line := FirstLine(p), TypeLine(p);
    NotInFirstLine(p, '\r');
    if p.contentType != "" { TypeLineBreak(p); }
    assert p.contentType == "" ==> line == "";
    hide FirstLine, TypeLine;
    var s := first + line + BLANK_LINE;
    forall i | 0 <= i < |first + line|
      ensures !OccursAt(s, BLANK_LINE, i)
    {
      MatchCovers(s, BLANK_LINE, i, i);
      MatchCovers(s, BLANK_LINE, i, i + 2);
      if i < |first| {
        assert s[i] == first[i];
      } else if i == |first| {
        assert s[i + 2] == line[2];
      } else {
        assert s[i] == line[i - |first|];
      }
    }
  }

  lemma NoDelimiterInData(data: string, delimiter: string)
    requires '\r' !in delimiter && '\n' !in delimiter && |delimiter| >= 2 && !Contains(data, delimiter)
    ensures NoneBefore(data + CRLF, delimiter)
  {
    assert !Contains("\n", delimiter);
    NotContainedAround(data, '\r', "\n", delimiter);
    assert data + ['\r'] + "\n" == data + CRLF;
    NoneAcross(data + CRLF, '\n', delimiter);
  }

  /** The delimiter after the line break that ends what comes before, and whether it is the last. */
  lemma DelimiterFound(prefix: string, lead: string, delimiter: string, tail: string)
    requires NoneBefore(lead, delimiter) && |tail| >= 2
    ensures var body, at := prefix + lead + (delimiter + tail), |prefix| + |lead|;
            && Find(body, delimiter, |prefix|) == Some(at)
            && (OccursAt(body, delimiter + "--", at) <==> tail[..2] == "--")
  {
    hide Find, OccursAt, NoneBefore;
    Assoc(prefix + lead, delimiter, tail);
    FindAfter(prefix, lead, delimiter, tail);
    EndMark(prefix + lead, delimiter, tail);
  }

  lemma EndMark(before: string, delimiter: string, tail: string)
    requires |tail| >= 2
    ensures OccursAt(before + delimiter + tail, delimiter + "--", |before|) <==> tail[..2] == "--"
  {
    var body := before + delimiter + tail;
    var mark := delimiter + "--";
    var window := body[|before|..|before| + |mark|];
    assert window == delimiter + tail[..2];
    assert window[|delimiter|..] == tail[..2] && mark[|delimiter|..] == "--";
  }

  /** The pieces of one part between two delimiters. `before` ends with the first one. */
  lemma PartFound(before: string, p: Part, delimiter: string, tail: string)
    requires '\r' !in delimiter && '\n' !in delimiter && |delimiter| >= 2 && |tail| >= 2
    requires Framed(p, delimiter)
    ensures var body := before + (CRLF + Block(p) + BLANK_LINE + p.data + CRLF + (delimiter + tail));
            var start, dataStart := |before| + 2, |before| + 2 + |Block(p)| + 4;
            var next := dataStart + |p.data|;
            && PartStart(body, |before|) == start
            && Find(body, BLANK_LINE, start) == Some(start + |Block(p)|)
            && body[start..start + |Block(p)|] == Block(p)
            && DataEnd(body, delimiter, dataStart) == next
            && Data(body, dataStart, next) == p.data
            && body == body[..next] + CRLF + (delimiter + tail)
  {
    hide Find, Block, PartStart, DataEnd, Data;
    NoBlankLineInBlock(p);
    HeadersFound(before, Block(p), p.data + CRLF + (delimiter + tail));
    DataFound(before + CRLF + Block(p) + BLANK_LINE, p.data, delimiter, tail);
    Regroup(before, Block(p), p.data, delimiter + tail);
  }

  lemma Regroup(before: string, block: string, data: string, rest: string)
    ensures before + (CRLF + block + BLANK_LINE + data + CRLF + rest)
            == before + CRLF + block + BLANK_LINE + (data + CRLF + rest)
    ensures before + (CRLF + block + BLANK_LINE + data + CRLF + rest)
            == (before + CRLF + block + BLANK_LINE) + data + CRLF + rest
  {
  }

  lemma HeadersFound(before: string, block: string, rest: string)
    requires NoneBefore(block, BLANK_LINE)
    ensures var body, start := before + CRLF + block + BLANK_LINE + rest, |before| + 2;
            && PartStart(body, |before|) == start
            && Find(body, BLANK_LINE, start) == Some(start + |block|)
            && body[start..start + |block|] == block
  {
    hide Find;
    FindAfter(before + CRLF, block, BLANK_LINE, rest);
    var body := before + CRLF + block + BLANK_LINE + rest;
    assert body[|before|] == '\r' && body[|before| + 1] == '\n';
  }

  lemma DataFound(before: string, data: string, delimiter: string, tail: string)
    requires '\r' !in delimiter && '\n' !in delimiter && |delimiter| >= 2 && !Contains(data, delimiter)
    requires |before| >= 4 && |tail| >= 2
    ensures var body, next := before + data + CRLF + (delimiter + tail), |before| + |data|;
            && DataEnd(body, delimiter, |before|) == next
            && Data(body, |before|, next) == data
            && body == body[..next] + CRLF + (delimiter + tail)
  {
    hide Find;
    var body, next := before + data + CRLF + (delimiter + tail), |before| + |data|;
    NoDelimiterInData(data, delimiter);
    DelimiterFound(before, data + CRLF, delimiter, tail);
    Assoc(before, data, CRLF);
    assert body[next] == '\r' && body[next + 1] == '\n';
  }

  /** What the parser makes of the headers and the data of one written part. */
  function Reread(p: Part): Part {
    PartOf(Block(p), p.data)
  }

  function RereadAll(parts: seq<Part>): seq<Part> {
    if parts == [] then [] else [Reread(parts[0])] + RereadAll(parts[1..])
  }

  /** Parsing a written body splits it into the written parts. Other parts may stand before it, or a
      preamble. */
  lemma {:induction false} ParseOfBody(prefix: string, lead: string, parts: seq<Part>, delimiter: string,
                                       epilogue: string)
    requires '\r' !in delimiter && '\n' !in delimiter && |delimiter| >= 2
    requires NoneBefore(lead, delimiter)
    requires forall i :: 0 <= i < |parts| ==> Framed(parts[i], delimiter)
    ensures ParseFrom(prefix + lead + Body(parts, delimiter, epilogue), delimiter, |prefix|) == RereadAll(parts)
    decreases |parts|
  {
    hide ParseFrom, Find, OccursAt, Block, PartStart, DataEnd, Data, PartOf, Framed, NoneBefore;
    var body := prefix + lead + Body(parts, delimiter, epilogue);
    var tail := AfterDelimiter(parts, delimiter, epilogue);
    AfterDelimiterStarts(parts, delimiter, epilogue);
    DelimiterFound(prefix, lead, delimiter, tail);
    ParseStep(body, delimiter, |prefix|);
    if parts != [] {
      var p, more := parts[0], AfterDelimiter(parts[1..], delimiter, epilogue);
      var before := prefix + lead + delimiter;
      Assoc(prefix + lead, delimiter, tail);
      AfterDelimiterStarts(parts[1..], delimiter, epilogue);
      PartFound(before, p, delimiter, more);
      NoLineBreakInDelimiter(delimiter);
      var next := |before| + 2 + |Block(p)| + 4 + |p.data|;
      ParseOfBody(body[..next], CRLF, parts[1..], delimiter, epilogue);
    }
  }

  lemma AfterDelimiterStarts(parts: seq<Part>, delimiter: string, epilogue: string)
    ensures var tail := AfterDelimiter(parts, delimiter, epilogue);
            |tail| >= 2 && tail[..2] == if parts == [] then "--" else CRLF
  {
  }

  lemma NoLineBreakInDelimiter(delimiter: string)
    requires '\r' !in delimiter && '\n' !in delimiter && |delimiter| >= 2
    ensures NoneBefore(CRLF, delimiter)
  {
    assert !Contains("", delimiter);
    NoDelimiterInData("", delimiter);
    assert "" + CRLF == CRLF;
  }

  // ---- the round trip ----

  lemma ReadBack(p: Part, delimiter: string)
    requires Framed(p, delimiter) && Unmarked(p)
    ensures Reread(p) == p
  {
    NameReadBack(p);
    if p.filename == "" { FilenameAbsent(p); } else { FilenameReadBack(p); }
    TypeReadBack(p);
    hide HeaderValue, ContentType, Block, Unmarked, Framed;
  }

  lemma {:induction false} RereadAllIff(parts: seq<Part>)
    ensures |RereadAll(parts)| == |parts|
    ensures RereadAll(parts) == parts <==> forall i :: 0 <= i < |parts| ==> Reread(parts[i]) == parts[i]
  {
    hide Reread;
    if parts != [] {
      RereadAllIff(parts[1..]);
      assert parts == [parts[0]] + parts[1..];
      if forall i :: 0 <= i < |parts| ==> Reread(parts[i]) == parts[i] {
        assert Reread(parts[0]) == parts[0];
      } else {
        var i :| 0 <= i < |parts| && Reread(parts[i]) != parts[i];
        assert i > 0 ==> Reread(parts[1..][i - 1]) != parts[1..][i - 1];
      }
    }
  }

  /** The round trip: parsing a written body gives back the same parts, names, file names, types and
      data. A preamble may stand before it, and anything after it. */
  lemma RoundTrip(preamble: string, parts: seq<Part>, boundary: string, epilogue: string)
    requires '\r' !in boundary && '\n' !in boundary && NoneBefore(preamble, "--" + boundary)
    requires forall i :: 0 <= i < |parts| ==> Framed(parts[i], "--" + boundary) && Unmarked(parts[i])
    ensures ParseFrom(preamble + Body(parts, "--" + boundary, epilogue), "--" + boundary, 0) == parts
  {
    hide ParseFrom, Framed, Unmarked, NoneBefore, Body, Reread;
    forall i | 0 <= i < |parts|
      ensures Reread(parts[i]) == parts[i]
    {
      ReadBack(parts[i], "--" + boundary);
    }
    RereadAllIff(parts);
    ParseOfBody("", preamble, parts, "--" + boundary, epilogue);
    assert "" + preamble + Body(parts, "--" + boundary, epilogue) == preamble + Body(parts, "--" + boundary, epilogue);
  }

  // ---- exactly when a part is read back ----

  /** A quote-free value on one line. */
  predicate OneLine(s: string) {
    '"' !in s && '\r' !in s && '\n' !in s
  }

  predicate Plain(p: Part) {
    OneLine(p.name) && OneLine(p.filename) && OneLine(p.contentType)
  }

  /** A name that ends in the file name marker hides the file name, unless there is none or it is
      the very text that the parser then takes for it. */
  lemma FilenameIff(p: Part)
    requires OneLine(p.name) && OneLine(p.filename) && OneLine(p.contentType)
    ensures HeaderValue(Block(p), "filename") == p.filename
            <==> (EndsWith(p.name, "filename=") ==> p.filename == "" || p.filename == "; filename=")
  {
    if EndsWith(p.name, "filename=") {
      MarkerInName(p.name);
      var before := Opening(p.name)[..|Opening(p.name)| - 10];
      if p.filename == "" {
        BlockWithoutFilename(p);
        ValueUnclosed(before, "filename", TypeLine(p));
      } else {
        BlockWithFilename(p);
        Hidden(p, before);
      }
    } else if p.filename == "" {
      NotContainedByChar(p.contentType, FILENAME, 9);
      FilenameAbsent(p);
    } else {
      FilenameReadBack(p);
    }
  }

  lemma MarkerInName(name: string)
    requires '"' !in name && EndsWith(name, "filename=")
    ensures var before := Opening(name)[..|Opening(name)| - 10];
            Opening(name) == before + FILENAME && NoneBefore(before, FILENAME)
  {
    OpeningChars(name);
    var s := Opening(name);
    var before := s[..|s| - 10];
    hide Opening;
    assert s == before + s[|before|..];
    assert s[|before|..|s| - 1] == s[38..|s| - 1][|name| - 9..] == "filename=";
    assert s[|before|..] == s[|before|..|s| - 1] + [s[|s| - 1]];
    forall i | 0 <= i < |before|
      ensures !OccursAt(s, FILENAME, i)
    {
      NoFilenameInOpening(name, i);
    }
  }

  lemma ValueUnclosed(before: string, key: string, after: string)
    requires NoneBefore(before, key + "=\"") && '"' !in after
    ensures HeaderValue(before + (key + "=\"") + after, key) == ""
  {
    hide Find, NoneBefore;
    var marker := key + "=\"";
    FindAfter("", before, marker, after);
    assert "" + before + marker + after == before + marker + after;
    var h := before + marker + after;
    assert forall i :: |before + marker| <= i < |h| ==> h[i] == after[i - |before + marker|];
  }

  /** The value found is the text between the quote of the name and the next one. */
  lemma Hidden(p: Part, before: string)
    requires p.filename != "" && Opening(p.name) == before + FILENAME && NoneBefore(before, FILENAME)
    ensures HeaderValue(Block(p), "filename") == "; filename="
  {
    BlockWithFilename(p);
    hide Opening, Block, HeaderValue, TypeLine, NoneBefore;
    var after := p.filename + "\"" + TypeLine(p);
    var gap := "; filename=";
    assert "; " + FILENAME == gap + "\"";
    Assoc(before + FILENAME, "; " + FILENAME, after);
    Assoc(before + FILENAME, "; ", FILENAME);
    Assoc(gap, "\"", after);
    ValueFound(before, "filename", gap, after);
    Assoc(before + FILENAME, gap, "\"" + after);
  }

  lemma TypeIff(p: Part)
    requires Plain(p)
    ensures ContentType(Block(p)) == p.contentType
            <==> StartsDark(p.contentType) && !Contains(p.name, TYPE) && !Contains(p.filename, TYPE)
  {
    hide ContentType, Contains, TypeLine, NoneBefore, FirstLine, Block, StartsDark;
    BlockIs(p);
    if Contains(p.name, TYPE) || Contains(p.filename, TYPE) {
      TypeInFirstLine(p);
      TypeTakesQuote(FirstLine(p), TypeLine(p));
    } else if StartsDark(p.contentType) {
      TypeReadBack(p);
    } else {
      BlockOfType(p);
      NoTypeBefore(p);
      TypeShortened(FirstLine(p) + CRLF, p.contentType);
    }
  }

  lemma BlockIs(p: Part)
    ensures Block(p) == FirstLine(p) + TypeLine(p)
    ensures !StartsDark(p.contentType) ==> p.contentType != ""
    ensures Plain(p) ==> '\r' !in FirstLine(p) && '\n' !in FirstLine(p)
  {
    hide TypeLine, FirstLine;
    if Plain(p) {
      NotInFirstLine(p, '\r');
      NotInFirstLine(p, '\n');
    }
  }

  lemma NotInFirstLine(p: Part, c: char)
    requires (c == '\r' || c == '\n') && c !in p.name && c !in p.filename
    ensures c !in FirstLine(p)
  {
    assert c !in Opening(p.name);
    hide Opening;
    if p.filename != "" {
      assert c !in "; filename=\"" + p.filename;
      assert FirstLine(p) == Opening(p.name) + ("; filename=\"" + p.filename) + "\"";
    }
  }

  lemma TypeInFirstLine(p: Part)
    requires Contains(p.name, TYPE) || Contains(p.filename, TYPE)
    ensures Contains(FirstLine(p), TYPE) && FirstLine(p)[|FirstLine(p)| - 1] == '"'
  {
    if Contains(p.name, TYPE) {
      var rest := "\"" + if p.filename == "" then "" else "; filename=\"" + p.filename + "\"";
      ContainedWithin(INTRO + "name=\"", p.name, rest, TYPE);
      assert FirstLine(p) == INTRO + "name=\"" + p.name + rest;
    } else {
      ContainedWithin(Opening(p.name) + "; filename=\"", p.filename, "\"", TYPE);
      assert p.filename != "";
      assert FirstLine(p) == Opening(p.name) + "; filename=\"" + p.filename + "\"";
    }
  }

  lemma ContainedWithin(before: string, window: string, after: string, pattern: string)
    requires Contains(window, pattern)
    ensures Contains(before + window + after, pattern)
  {
    var i :| 0 <= i && OccursAt(window, pattern, i);
    SameWindow(before, window, after, pattern, i);
    assert OccursAt(before + window + after, pattern, |before| + i);
  }

  lemma SkipBlanksStops(s: string, i: nat, j: nat)
    requires i <= j < |s| && s[j] != ' ' && s[j] != '\t'
    ensures SkipBlanks(s, i) <= j
    decreases j - i
  {
    if i < j { SkipBlanksStops(s, i + 1, j); }
  }

  /** The marker in the first line makes the parser take a text with the quote that ends the line. */
  lemma TypeTakesQuote(first: string, line: string)
    requires Contains(first, TYPE) && first[|first| - 1] == '"' && '\r' !in first && '\n' !in first
    ensures '"' in ContentType(first + line)
  {
    var h, q := first + line, |first| - 1;
    var i :| 0 <= i && OccursAt(first, TYPE, i);
    SameWindow("", first, line, TYPE, i);
    assert "" + first + line == h;
    MatchCovers(first, TYPE, i, q);
    assert i + 13 <= q;
    var k := Find(h, TYPE, 0).value;
    hide Find, OccursAt;
    assert k <= i && h[q] == '"';
    SkipBlanksStops(h, k + 13, q);
    forall m | 0 <= m <= q
      ensures h[m] != '\r' && h[m] != '\n'
    {
      assert h[m] == first[m];
    }
    RestReaches(h, SkipBlanks(h, k + 13), q);
  }

  lemma RestReaches(s: string, from: nat, q: nat)
    requires from <= q < |s| && forall m :: from <= m <= q ==> s[m] != '\r' && s[m] != '\n'
    ensures s[q] in RestOfLine(s, from)
  {
  }

  /** Blanks at the start of a content type are lost. */
  lemma TypeShortened(text: string, contentType: string)
    requires NoneBefore(text, TYPE) && !StartsDark(contentType)
    ensures |ContentType(text + TYPE + (" " + contentType))| < |contentType|
  {
    hide Find, NoneBefore, RestOfLine;
    var h := text + TYPE + (" " + contentType);
    FindAfter("", text, TYPE, " " + contentType);
    assert "" + text + TYPE + (" " + contentType) == h;
    assert h[|text| + 13] == ' ' && h[|text| + 14] == contentType[0];
    assert SkipBlanks(h, |text| + 13) == SkipBlanks(h, |text| + 14) == SkipBlanks(h, |text| + 15);
  }

  ghost predicate Markerless(p: Part) {
    && (EndsWith(p.name, "filename=") ==> p.filename == "" || p.filename == "; filename=")
    && StartsDark(p.contentType) && !Contains(p.name, TYPE) && !Contains(p.filename, TYPE)
  }

  /** The round trip of bodies with plain header values holds exactly when the parser's own search
      markers do not come up in them. */
  lemma RoundTripIff(preamble: string, parts: seq<Part>, boundary: string, epilogue: string)
    requires '\r' !in boundary && '\n' !in boundary && NoneBefore(preamble, "--" + boundary)
    requires forall i :: 0 <= i < |parts| ==> Plain(parts[i]) && !Contains(parts[i].data, "--" + boundary)
    ensures ParseFrom(preamble + Body(parts, "--" + boundary, epilogue), "--" + boundary, 0) == parts
            <==> forall i :: 0 <= i < |parts| ==> Markerless(parts[i])
  {
    hide ParseFrom, NoneBefore, Body, Block, HeaderValue, ContentType, Contains, EndsWith, StartsDark;
    forall i | 0 <= i < |parts|
      ensures Reread(parts[i]) == parts[i] <==> Markerless(parts[i])
    {
      NameReadBack(parts[i]);
      FilenameIff(parts[i]);
      TypeIff(parts[i]);
    }
    hide Reread, Markerless;
    RereadAllIff(parts);
    ParseOfBody("", preamble, parts, "--" + boundary, epilogue);
    assert "" + preamble + Body(parts, "--" + boundary, epilogue) == preamble + Body(parts, "--" + boundary, epilogue);
  }

  /** The data of a part end before they start exactly when the delimiter or the end of the body
      follows the blank line at once; the delimiter then counts as data, with all that follows it. */
  lemma DataEndBelowIff(body: string, delimiter: string, dataStart: nat)
    requires |delimiter| >= 2 && 4 <= dataStart <= |body| && body[dataStart - 4..dataStart] == BLANK_LINE
    ensures DataEnd(body, delimiter, dataStart) < dataStart
            <==> dataStart == |body| || OccursAt(body, delimiter, dataStart)
    ensures DataEnd(body, delimiter, dataStart) < dataStart
            ==> Data(body, dataStart, DataEnd(body, delimiter, dataStart)) == body[dataStart..]
  {
  }

  // ---- bodies of other forms ----

  /** However the delimiter's line ends, one line break is skipped, and nothing else: CR LF, either alone, or
      none. */
  lemma PartStartAfter(before: string, eol: string, rest: string)
    requires eol == CRLF || eol == "\n" || (eol == "\r" && (rest == "" || rest[0] != '\n'))
             || (eol == "" && (rest == "" || (rest[0] != '\r' && rest[0] != '\n')))
    ensures PartStart(before + eol + rest, |before|) == |before| + |eol|
  {
    var body := before + eol + rest;
    assert forall i :: 0 <= i < |eol| ==> body[|before| + i] == eol[i];
    assert rest != "" ==> body[|before| + |eol|] == rest[0];
  }

  /** Whatever lies between the blank line and the next delimiter, or the end of the body, is the data, less
      one line break at its end if that is CR LF. */
  lemma DataOfContent(before: string, content: string, delimiter: string, tail: string)
    requires |delimiter| >= 2 && EndsWith(before, BLANK_LINE) && content != ""
    requires var body := before + content + tail;
             forall i :: |before| <= i < |before| + |content| ==> !OccursAt(body, delimiter, i)
    requires tail == "" || OccursAt(tail, delimiter, 0)
    ensures var body := before + content + tail;
            Data(body, |before|, DataEnd(body, delimiter, |before|))
            == if EndsWith(content, CRLF) then content[..|content| - 2] else content
  {
    var body := before + content + tail;
    var end := |before| + |content|;
    assert body[|before|..end] == content;
    assert body[|before| - 1] == before[|before| - 1] == BLANK_LINE[3];
    assert forall i :: 0 <= i < |content| ==> body[|before| + i] == content[i];
    FirstAt(body, delimiter, |before|, end, before + content, tail);
    hide Find, OccursAt;
  }

  lemma FirstAt(body: string, delimiter: string, from: nat, end: nat, front: string, tail: string)
    requires body == front + tail && |front| == end && from <= end && |delimiter| >= 2
    requires forall i :: from <= i < end ==> !OccursAt(body, delimiter, i)
    requires tail == "" || OccursAt(tail, delimiter, 0)
    ensures (match Find(body, delimiter, from) case None => |body| case Some(k) => k) == end
  {
    if tail != "" {
      assert body[end..end + |delimiter|] == tail[0..|delimiter|];
      assert OccursAt(body, delimiter, end);
    }
  }

  /** A content type ends at the first CR after it; where there is none, at the first LF; and else with the
      headers. */
  lemma {:induction false} RestOfLineEnds(before: string, line: string, rest: string)
    requires '\r' !in line
    ensures RestOfLine(before + line + "\r" + rest, |before|) == line
    ensures '\n' !in line && '\r' !in rest ==> RestOfLine(before + line + "\n" + rest, |before|) == line
    ensures '\n' !in line ==> RestOfLine(before + line, |before|) == line
  {
    hide FindChar;
    LineBefore(before, line, '\r', rest);
    if '\n' !in line { LineBefore(before, line, '\n', rest); }
    var s := before + line + ("\n" + rest);
    assert s == before + line + "\n" + rest && before + line + "\r" + rest == before + line + ("\r" + rest);
    if '\n' !in line && '\r' !in rest {
      forall i | |before| <= i < |s| ensures s[i] != '\r' {
        assert s[|before|..] == line + ("\n" + rest) && s[i] == s[|before|..][i - |before|];
      }
    }
    var t := before + line;
    assert t[|before|..] == line;
    assert forall i :: |before| <= i < |t| ==> t[i] == line[i - |before|];
  }

  lemma {:induction false} LineBefore(before: string, line: string, c: char, rest: string)
    requires c !in line
    ensures var s := before + line + ([c] + rest);
            FindChar(s, c, |before|) == Some(|before| + |line|) && s[|before|..|before| + |line|] == line
  {
    hide FindChar;
    var s := before + line + ([c] + rest);
    assert s[|before|..|before| + |line|] == line;
    assert forall i :: |before| <= i < |before| + |line| ==> s[i] == line[i - |before|];
    FindCharIs(s, c, |before|, |before| + |line|);
  }

  // ---- bodies that show the limits ----

  /** A name that ends in the file name marker: the file name f is lost. */
  lemma MarkerHidesFilename()
    ensures var p := Part("filename=", "f", "", "d");
            ParseFrom(Body([p], "--b", ""), "--b", 0) != [p]
  {
    var p := Part("filename=", "f", "", "d");
    assert "--" + "b" == "--b";
    NoneInShort("--b");
    assert p.name[|p.name| - 9..] == "filename=";
    assert !Markerless([p][0]) && Plain(p);
    hide ParseFrom, Body, Markerless, Plain, OccursAt;
    assert NoneBefore("", "--b");
    RoundTripIff("", [p], "b", "");
    assert "" + Body([p], "--b", "") == Body([p], "--b", "");
  }

  lemma NoneInShort(pattern: string)
    requires |pattern| > 1
    ensures !Contains("d", pattern)
  {
  }

  const EMPTY_PART := "--b\r\nX\r\n\r\n--b--"

  lemma FirstDelimiter()
    ensures Find(EMPTY_PART, "--b", 0) == Some(0) && !OccursAt(EMPTY_PART, "--b" + "--", 0)
  {
    assert OccursAt(EMPTY_PART, "--b", 0);
    assert EMPTY_PART[0..5] == "--b\r\n" && "--b" + "--" == "--b--";
  }

  lemma BlankLine()
    ensures Find(EMPTY_PART, BLANK_LINE, 5) == Some(6)
  {
    MatchCovers(EMPTY_PART, BLANK_LINE, 5, 5);
    assert EMPTY_PART[6..10] == BLANK_LINE;
    FindIs(EMPTY_PART, BLANK_LINE, 5, 6);
  }

  lemma LastDelimiter(from: nat)
    requires 8 <= from <= 10
    ensures Find(EMPTY_PART, "--b", from) == Some(10) && OccursAt(EMPTY_PART, "--b" + "--", 10)
  {
    hide Find;
    assert EMPTY_PART[10..13] == "--b" && EMPTY_PART[10..15] == "--b" + "--";
    forall i | 8 <= i < 10
      ensures !OccursAt(EMPTY_PART, "--b", i)
    {
      MatchCovers(EMPTY_PART, "--b", i, i);
    }
    FindIs(EMPTY_PART, "--b", from, 10);
  }

  lemma EmptyPartData()
    ensures PartStart(EMPTY_PART, 3) == 5 && DataEnd(EMPTY_PART, "--b", 10) == 8
    ensures EMPTY_PART[5..6] == "X" && Data(EMPTY_PART, 10, 8) == "--b--"
  {
    hide Find;
    LastDelimiter(10);
  }

  /** A part without data and without the line break before the delimiter: the closing delimiter
      becomes its data. */
  lemma DelimiterBecomesData()
    ensures ParseFrom(EMPTY_PART, "--b", 0) == [Part("", "", "", "--b--")]
  {
    hide *;
    FirstDelimiter();
    BlankLine();
    EmptyPartData();
    LastDelimiter(8);
    NothingInX();
    ParseStep(EMPTY_PART, "--b", 0);
    ParseStep(EMPTY_PART, "--b", 8);
  }

  lemma NothingInX()
    ensures PartOf("X", "--b--") == Part("", "", "", "--b--")
  {
    forall pattern: string | |pattern| > 1
      ensures Find("X", pattern, 0) == None
    {
      NotFoundInShort("X", pattern);
    }
  }

  lemma NotFoundInShort(s: string, pattern: string)
    requires |pattern| > |s|
    ensures Find(s, pattern, 0) == None
  {
  }
}
