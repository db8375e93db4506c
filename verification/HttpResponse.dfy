/** Building a response, and reading it back as a client would. */
module HttpResponse {
  import opened Strings
  import opened Numbers
  import opened Headers

  datatype Response = Response(
    statusCode: nat,
    statusMessage: string,
    headers: Fields,
    body: string,
    chunked: bool)

  // ---- the text ----

  /** A chunked response leaves out the field that is spelled exactly like this. */
  predicate Emitted(field: (string, string), chunked: bool) {
    !chunked || field.0 != "Content-Length"
  }

  function Kept(headers: Fields, chunked: bool): Fields {
    if headers == [] then []
    else (if Emitted(headers[0], chunked) then [headers[0]] else []) + Kept(headers[1..], chunked)
  }

  function Line(field: (string, string)): string {
    field.0 + ": " + field.1 + CRLF
  }

  function Lines(fields: Fields): string {
    if fields == [] then "" else Line(fields[0]) + Lines(fields[1..])
  }

  function StatusLine(r: Response): string {
    "HTTP/1.1 " + Decimal(r.statusCode) + " " + r.statusMessage + CRLF
  }

  predicate Framed(r: Response) { r.chunked && r.body != "" }

  /** The fields of the response, in order. */
  function AllFields(r: Response): Fields {
    [("Server", "ezNet")] + Kept(r.headers, r.chunked) + if Framed(r) then [("Transfer-Encoding", "chunked")] else []
  }

  function Payload(r: Response): string {
    if Framed(r) then Hex(|r.body|) + CRLF + r.body + CRLF + "0" + CRLF + CRLF else r.body
  }

  function Text(r: Response): string {
    StatusLine(r) + Lines(AllFields(r)) + CRLF + Payload(r)
  }

  lemma {:induction false} LinesConcat(a: Fields, b: Fields)
    ensures Lines(a + b) == Lines(a) + Lines(b)
  {
    if a == [] {
      assert a + b == b;
    } else {
      LinesConcat(a[1..], b);
      assert (a + b)[1..] == a[1..] + b;
      Assoc(Line(a[0]), Lines(a[1..]), Lines(b));
    }
  }

  lemma KeptStep(headers: Fields, k: nat, chunked: bool)
    requires k < |headers|
    ensures Kept(headers[k..], chunked)
            == (if Emitted(headers[k], chunked) then [headers[k]] else []) + Kept(headers[k + 1..], chunked)
  {
  }

  lemma LinesStep(headers: Fields, k: nat, chunked: bool)
    requires k < |headers|
    ensures Lines(Kept(headers[k..], chunked))
            == (if Emitted(headers[k], chunked) then Line(headers[k]) else "") + Lines(Kept(headers[k + 1..], chunked))
  {
    KeptStep(headers, k, chunked);
    var rest := Kept(headers[k + 1..], chunked);
    if Emitted(headers[k], chunked) {
      assert ([headers[k]] + rest)[1..] == rest;
    } else {
      assert [] + rest == rest;
    }
  }

  function RangeText(first: nat, last: nat, total: nat): string {
    "bytes " + Decimal(first) + "-" + Decimal(last) + "/" + Decimal(total)
  }

  class HttpResponse {
    var statusCode: nat
    var statusMessage: string
    var headers: Fields
    var body: string
    var keepAlive: bool
    var chunked: bool

    constructor ()
      ensures Value() == Response(200, "OK", [], "", false) && !keepAlive
    {
      statusCode, statusMessage, headers, body := 200, "OK", [], "";
      keepAlive, chunked := false, false;
    }

    function Value(): Response
      reads this
    {
      Response(statusCode, statusMessage, headers, body, chunked)
    }

    method AddHeader(name: string, value: string)
      modifies this`headers
      ensures headers == Put(old(headers), name, value)
    {
      headers := Store(headers, name, value);
    }

    method Header(name: string) returns (value: string)
      ensures value == Get(headers, name)
    {
      value := Lookup(headers, name);
    }

    method SetBody(bytes: string)
      modifies this`body, this`headers
      ensures body == bytes && headers == Put(old(headers), "Content-Length", Decimal(|bytes|))
    {
      body := bytes;
      AddHeader("Content-Length", Decimal(|bytes|));
    }

    /** The 206 headers. Content-Length is the length of the range. */
    method SetContentRange(first: nat, last: nat, total: nat)
      requires first <= last
      modifies this`statusCode, this`statusMessage, this`headers
      ensures statusCode == 206 && statusMessage == "Partial Content"
      ensures body == old(body) && chunked == old(chunked)
      ensures headers == Put(Put(old(headers), "Content-Range", RangeText(first, last, total)),
                             "Content-Length", Decimal(last - first + 1))
      ensures Get(headers, "Content-Range") == RangeText(first, last, total)
      ensures Get(headers, "Content-Length") == Decimal(last - first + 1)
      ensures OneEach(old(headers)) ==> OneEach(headers)
    {
      statusCode, statusMessage := 206, "Partial Content";
      ghost var was := headers;
      var range := RangeText(first, last, total);
      AddHeader("Content-Range", range);
      ghost var mid := headers;
      AddHeader("Content-Length", Decimal(last - first + 1));
      RangeFields(was, range, Decimal(last - first + 1));
    }

    /** The size reserved for the response before it is written. */
    method EstimateSize() returns (estimated: nat)
      ensures estimated == Estimate(Value())
    {
      estimated := 9 + |Decimal(statusCode)| + 1 + |statusMessage| + 2 + 16;
      assert headers[0..] == headers;
      ghost var fixed := estimated;
      for k := 0 to |headers|
        invariant estimated + |Lines(Kept(headers[k..], chunked))| == fixed + |Lines(Kept(headers, chunked))|
      {
        LinesStep(headers, k, chunked);
        if !chunked || headers[k].0 != "Content-Length" {
          estimated := estimated + |headers[k].0| + |headers[k].1| + 4;
        }
      }
      if chunked && |body| > 0 {
        estimated := estimated + |body| + 64;
      }
      estimated := estimated + 2 + |body|;
    }

    /** Status line, server line, and one line for each field that is not left out. */
    method BuildHead() returns (response: string)
      ensures response == StatusLine(Value()) + "Server: ezNet\r\n" + Lines(Kept(headers, chunked))
    {
      hide Decimal, Kept, Lines, Line;
      response := "HTTP/1.1 " + Decimal(statusCode) + " " + statusMessage + CRLF;
      response := response + "Server: ezNet\r\n";
      ghost var head := response;
      assert headers[0..] == headers;
      for k := 0 to |headers|
        invariant response + Lines(Kept(headers[k..], chunked)) == head + Lines(Kept(headers, chunked))
      {
        LinesStep(headers, k, chunked);
        if !(chunked && headers[k].0 == "Content-Length") {
          Assoc(response, Line(headers[k]), Lines(Kept(headers[k + 1..], chunked)));
          response := response + Line(headers[k]);
        }
      }
      assert headers[|headers|..] == [];
      KeptNothing(chunked);
      assert response + "" == response;
    }

    /** The text of the response. It never outgrows the reserved size: one byte is left over, or,
        for a chunked body, at least 28. */
    method Build() returns (response: string, reserved: nat)
      ensures response == Text(Value())
      ensures reserved == |response| + if Framed(Value()) then |body| + 28 - |Hex(|body|)| else 1
      ensures Framed(Value()) ==> |Hex(|body|)| <= |body|
    {
      hide Decimal, Hex, Kept, Lines, StatusLine, Estimate;
      TextParts(Value());
      SizeOfText(Value());
      reserved := EstimateSize();
      response := BuildHead();
      if chunked && |body| > 0 {
        response := response + "Transfer-Encoding: chunked\r\n" + CRLF;
        var framed := Hex(|body|) + CRLF + body + CRLF + "0" + CRLF + CRLF;
        response := response + framed;
      } else {
        assert response + "" == response;
        response := response + CRLF + body;
      }
    }
  }

  lemma KeptNothing(chunked: bool)
    ensures Lines(Kept([], chunked)) == ""
  {
  }

  ghost function Estimate(r: Response): nat {
    9 + |Decimal(r.statusCode)| + 1 + |r.statusMessage| + 2 + 16 + |Lines(Kept(r.headers, r.chunked))|
    + (if Framed(r) then |r.body| + 64 else 0) + 2 + |r.body|
  }

  lemma TextParts(r: Response)
    ensures Text(r)
            == StatusLine(r) + "Server: ezNet\r\n" + Lines(Kept(r.headers, r.chunked))
               + (if Framed(r) then "Transfer-Encoding: chunked\r\n" else "") + CRLF + Payload(r)
  {
    var kept := Kept(r.headers, r.chunked);
    var server := [("Server", "ezNet")];
    var coding := if Framed(r) then [("Transfer-Encoding", "chunked")] else [];
    assert Lines(server) == "Server: ezNet\r\n" by { assert server[1..] == []; }
    assert Lines(coding) == if Framed(r) then "Transfer-Encoding: chunked\r\n" else "" by {
      if Framed(r) { assert coding[1..] == []; }
    }
    LinesConcat(server, kept);
    LinesConcat(server + kept, coding);
    hide Lines, Payload;
    Assoc(StatusLine(r), Lines(server) + Lines(kept), Lines(coding));
    Assoc(StatusLine(r), Lines(server), Lines(kept));
  }

  lemma SizeOfText(r: Response)
    ensures Estimate(r) == |Text(r)| + if Framed(r) then |r.body| + 28 - |Hex(|r.body|)| else 1
    ensures Framed(r) ==> |Hex(|r.body|)| <= |r.body|
  {
    TextParts(r);
    if Framed(r) { HexIsShort(|r.body|); }
    hide Text, Lines, Kept, Hex, Decimal;
  }

  lemma RangeFields(headers: Fields, range: string, length: string)
    ensures var after := Put(Put(headers, "Content-Range", range), "Content-Length", length);
            && Get(after, "Content-Range") == range && Get(after, "Content-Length") == length
            && (OneEach(headers) ==> OneEach(after))
  {
    var mid := Put(headers, "Content-Range", range);
    GetAfterPut(headers, "Content-Range", range, "Content-Range");
    GetAfterPut(mid, "Content-Length", length, "Content-Length");
    GetAfterPut(mid, "Content-Length", length, "Content-Range");
    assert |Lower("Content-Length")| != |Lower("Content-Range")|;
    if OneEach(headers) {
      PutKeepsOneEach(headers, "Content-Range", range);
      PutKeepsOneEach(mid, "Content-Length", length);
    }
  }

  // ---- reading a response back ----

  datatype Message = Message(status: string, fields: Fields, payload: string)

  /** Splits off the first line. */
  function TakeLine(s: string): (r: Option<(string, string)>)
    ensures r.Some? ==> |r.value.1| + 2 <= |s|
  {
    match Find(s, CRLF, 0)
    case None => None
    case Some(k) => Some((s[..k], s[k + 2..]))
  }

  function ReadField(line: string): Option<(string, string)> {
    match FindChar(line, ':', 0)
    case None => None
    case Some(k) => if k + 1 < |line| && line[k + 1] == ' ' then Some((line[..k], line[k + 2..])) else None
  }

  /** Fields up to an empty line, and what follows it. */
  function ReadFields(s: string): Option<(Fields, string)>
    decreases |s|
  {
    match TakeLine(s)
    case None => None
    case Some((line, rest)) =>
      if line == "" then Some(([], rest))
      else match (ReadField(line), ReadFields(rest))
        case (Some(f), Some((more, payload))) => Some(([f] + more, payload))
        case _ => None
  }

  function ReadMessage(s: string): Option<Message> {
    match TakeLine(s)
    case None => None
    case Some((status, rest)) =>
      match ReadFields(rest)
      case None => None
      case Some((fields, payload)) => Some(Message(status, fields, payload))
  }

  /** The decoding of section 7.1 of RFC 9112, without extensions and trailers: the body, and what
      follows the last chunk. */
  function Dechunk(s: string): Option<(string, string)>
    decreases |s|
  {
    match TakeLine(s)
    case None => None
    case Some((size, rest)) =>
      if size == "" || !AllHex(size) then None
      else
        var n := HexValue(size);
        if |rest| < n + 2 || rest[n..n + 2] != CRLF then None
        else if n == 0 then Some(("", rest[2..]))
        else match Dechunk(rest[n + 2..])
          case None => None
          case Some((body, more)) => Some((rest[..n] + body, more))
  }

  /** What a client that keeps the connection open makes of the bytes it gets: the message with its body,
      and the bytes of the next one. */
  datatype Delivery = Delivery(status: string, fields: Fields, body: string, more: string)

  /** A length that a content length field spells. */
  predicate Spells(text: string, n: nat) {
    text != "" && AllDigits(text) && Value(text) == n
  }

  /** The message framing of section 6.3 of RFC 9112: chunked, or as many bytes as the content length says;
      None when only the end of the connection could tell where the body ends, or bytes are missing. */
  function Frame(s: string): Option<Delivery> {
    match ReadMessage(s)
    case None => None
    case Some(m) =>
      var length := Get(m.fields, "Content-Length");
      if Get(m.fields, "Transfer-Encoding") == "chunked" then
        match Dechunk(m.payload)
        case None => None
        case Some((body, more)) => Some(Delivery(m.status, m.fields, body, more))
      else if length == "" || !AllDigits(length) || Value(length) > |m.payload| then None
      else Some(Delivery(m.status, m.fields, m.payload[..Value(length)], m.payload[Value(length)..]))
  }

  lemma TakeLineOf(line: string, rest: string)
    requires '\r' !in line
    ensures TakeLine(line + CRLF + rest) == Some((line, rest))
  {
    var s := line + CRLF + rest;
    forall i | 0 <= i < |line|
      ensures !OccursAt(s, CRLF, i)
    {
      assert s[i] == line[i] && s[i] != '\r';
      assert i + 2 <= |s| && s[i..i + 2][0] == s[i];
    }
    assert s[|line|..|line| + 2] == CRLF;
    FindIs(s, CRLF, 0, |line|);
    assert s[..|line|] == line && s[|line| + 2..] == rest;
  }

  predicate CleanField(f: (string, string)) {
    ':' !in f.0 && '\r' !in f.0 && '\r' !in f.1
  }

  predicate CleanFields(fields: Fields) {
    forall i :: 0 <= i < |fields| ==> CleanField(fields[i])
  }

  lemma ReadFieldOf(f: (string, string))
    requires CleanField(f)
    ensures ReadField(f.0 + ": " + f.1) == Some(f) && '\r' !in f.0 + ": " + f.1
  {
    var line := f.0 + ": " + f.1;
    assert forall i :: 0 <= i < |f.0| ==> line[i] == f.0[i];
    FindCharIs(line, ':', 0, |f.0|);
    assert line[..|f.0|] == f.0 && line[|f.0| + 2..] == f.1;
  }

  lemma {:induction false} ReadFieldsOf(fields: Fields, payload: string)
    requires CleanFields(fields)
    ensures ReadFields(Lines(fields) + CRLF + payload) == Some((fields, payload))
  {
    hide TakeLine, ReadField, Line;
    if fields == [] {
      TakeLineOf("", payload);
      assert "" + CRLF == CRLF;
    } else {
      var f, rest := fields[0], Lines(fields[1..]) + CRLF + payload;
      var line := f.0 + ": " + f.1;
      ReadFieldOf(f);
      TakeLineOf(line, rest);
      ReadFieldsOf(fields[1..], payload);
      LineIs(f);
      assert |line| >= 2 && [f] + fields[1..] == fields;
      assert Lines(fields) + CRLF + payload == line + CRLF + rest;
    }
  }

  lemma LineIs(f: (string, string))
    ensures Line(f) == f.0 + ": " + f.1 + CRLF
  {
  }

  predicate CleanResponse(r: Response) {
    '\r' !in r.statusMessage && CleanFields(r.headers)
  }

  lemma {:induction false} KeptIsClean(headers: Fields, chunked: bool)
    requires CleanFields(headers)
    ensures CleanFields(Kept(headers, chunked))
  {
    if headers != [] { KeptIsClean(headers[1..], chunked); }
  }

  lemma DechunkStep(s: string, size: string, rest: string, n: nat)
    requires TakeLine(s) == Some((size, rest)) && size != "" && AllHex(size) && HexValue(size) == n > 0
    requires n + 2 <= |rest| && rest[n..n + 2] == CRLF && Dechunk(rest[n + 2..]).Some?
    ensures var (body, more) := Dechunk(rest[n + 2..]).value; Dechunk(s) == Some((rest[..n] + body, more))
  {
  }

  lemma FramedSlices(body: string, tail: string)
    ensures var rest := body + CRLF + tail;
            && |rest| == |body| + 2 + |tail|
            && rest[..|body|] == body && rest[|body|..|body| + 2] == CRLF && rest[|body| + 2..] == tail
  {
  }

  lemma FramedIs(size: string, body: string, more: string)
    ensures size + CRLF + body + CRLF + "0" + CRLF + CRLF + more
            == size + CRLF + (body + CRLF + ("0" + CRLF + (CRLF + more)))
  {
  }

  lemma DechunkOf(body: string, more: string)
    requires body != ""
    ensures Dechunk(Hex(|body|) + CRLF + body + CRLF + "0" + CRLF + CRLF + more) == Some((body, more))
  {
    hide Hex, HexValue, TakeLine, Dechunk;
    var tail := "0" + CRLF + (CRLF + more);
    var rest := body + CRLF + tail;
    var size := Hex(|body|);
    FramedIs(size, body, more);
    FramedSlices(body, tail);
    NoReturnInHex(size);
    TakeLineOf(size, rest);
    ValueOfHex(|body|);
    DechunkLast(more);
    DechunkStep(size + CRLF + rest, size, rest, |body|);
    assert body + "" == body;
  }

  lemma NoReturnInHex(s: string)
    requires AllHex(s)
    ensures '\r' !in s
  {
  }

  lemma DechunkLast(more: string)
    ensures Dechunk("0" + CRLF + (CRLF + more)) == Some(("", more))
  {
    TakeLineOf("0", CRLF + more);
    assert "0"[..0] == "";
    assert HexValue("0") == 0;
    assert (CRLF + more)[0..2] == CRLF && (CRLF + more)[2..] == more;
  }

  function Status(r: Response): string {
    "HTTP/1.1 " + Decimal(r.statusCode) + " " + r.statusMessage
  }

  /** The text up to the empty line. */
  function Head(r: Response): string {
    StatusLine(r) + Lines(AllFields(r)) + CRLF
  }

  lemma HeadReadBack(r: Response, payload: string)
    requires CleanResponse(r)
    ensures ReadMessage(Head(r) + payload) == Some(Message(Status(r), AllFields(r), payload))
  {
    hide Decimal, Lines, ReadFields, TakeLine;
    var rest := Lines(AllFields(r)) + CRLF + payload;
    assert Head(r) + payload == Status(r) + CRLF + rest;
    NoReturnInStatus(r);
    TakeLineOf(Status(r), rest);
    KeptIsClean(r.headers, r.chunked);
    ReadFieldsOf(AllFields(r), payload);
  }

  lemma NoReturnInStatus(r: Response)
    requires '\r' !in r.statusMessage
    ensures '\r' !in Status(r)
  {
  }

  /** The round trip: a client that reads the text gets the status line, the fields in order, each
      retained one exactly once, and, after undoing the chunking, the body. */
  lemma ClientReadsBack(r: Response)
    requires CleanResponse(r)
    ensures ReadMessage(Text(r)) == Some(Message(Status(r), AllFields(r), Payload(r)))
    ensures if Framed(r) then Dechunk(Payload(r)) == Some((r.body, "")) else Payload(r) == r.body
  {
    HeadReadBack(r, Payload(r));
    if Framed(r) {
      DechunkOf(r.body, "");
      assert Payload(r) + "" == Payload(r);
    }
  }

  // ---- where a message ends ----

  lemma {:induction false} GetConcat(a: Fields, b: Fields, name: string)
    ensures Get(a + b, name) == if Has(a, name) then Get(a, name) else Get(b, name)
    decreases |a|
  {
    hide SameName;
    if a == [] {
      assert a + b == b;
    } else {
      assert (a + b)[1..] == a[1..] + b && a == [a[0]] + a[1..];
      HasCons(a[0], a[1..], name);
      GetConcat(a[1..], b, name);
    }
  }

  lemma {:induction false} KeptHas(headers: Fields, chunked: bool, name: string)
    requires !Has(headers, name)
    ensures !Has(Kept(headers, chunked), name)
  {
    hide SameName;
    if headers != [] {
      assert headers == [headers[0]] + headers[1..];
      HasCons(headers[0], headers[1..], name);
      KeptHas(headers[1..], chunked, name);
      HasCons(headers[0], Kept(headers[1..], chunked), name);
    }
  }

  /** The two fields that frame a message, as the client finds them. */
  lemma FramingFields(r: Response)
    requires !Has(r.headers, "Transfer-Encoding")
    ensures Get(AllFields(r), "Transfer-Encoding") == if Framed(r) then "chunked" else ""
    ensures !Framed(r) ==> Get(AllFields(r), "Content-Length") == Get(Kept(r.headers, r.chunked), "Content-Length")
  {
    var server, kept := [("Server", "ezNet")], Kept(r.headers, r.chunked);
    var coding := if Framed(r) then [("Transfer-Encoding", "chunked")] else [];
    KeptHas(r.headers, r.chunked, "Transfer-Encoding");
    assert |Lower("Server")| == 6 && |Lower("Transfer-Encoding")| == 17 && |Lower("Content-Length")| == 14;
    assert !Has(server, "Transfer-Encoding") && !Has(server, "Content-Length");
    GetConcat(server + kept, coding, "Transfer-Encoding");
    GetConcat(server, kept + coding, "Transfer-Encoding");
    GetConcat(kept, coding, "Transfer-Encoding");
    Assoc(server, kept, coding);
    GetConcat(server, kept, "Content-Length");
    assert server + kept + [] == server + kept;
  }

  /** The response carries what it takes to tell where its body ends. */
  predicate SelfDelimiting(r: Response) {
    Framed(r) || Spells(Get(Kept(r.headers, r.chunked), "Content-Length"), |r.body|)
  }

  /** A client that keeps the connection finds the response, and the next message behind it, exactly when
      the response is chunked with a body or keeps a content length of the right value. */
  lemma FrameIff(r: Response, more: string)
    requires CleanResponse(r) && !Has(r.headers, "Transfer-Encoding")
    ensures Frame(Text(r) + more) == Some(Delivery(Status(r), AllFields(r), r.body, more)) <==> SelfDelimiting(r)
  {
    Assoc(Head(r), Payload(r), more);
    HeadReadBack(r, Payload(r) + more);
    FramingFields(r);
    if Framed(r) {
      DechunkOf(r.body, more);
    } else {
      var length := Get(Kept(r.headers, r.chunked), "Content-Length");
      hide ReadMessage, Kept, Get;
      assert (r.body + more)[..|r.body|] == r.body && (r.body + more)[|r.body|..] == more;
    }
  }

  /** A body that was set on a response that is not chunked always delimits it; chunking an empty body, on
      the other hand, drops the length and puts nothing in its place. */
  lemma BodySetIsDelimited(r: Response)
    ensures SelfDelimiting(r.(headers := Put(r.headers, "Content-Length", Decimal(|r.body|)), chunked := false))
    ensures !SelfDelimiting(Response(200, "OK", Put([], "Content-Length", Decimal(0)), "", true))
  {
    var headers := Put(r.headers, "Content-Length", Decimal(|r.body|));
    GetAfterPut(r.headers, "Content-Length", Decimal(|r.body|), "Content-Length");
    ValueOfDecimal(|r.body|);
    AllKept(headers);
    assert Put([], "Content-Length", Decimal(0)) == [("Content-Length", Decimal(0))];
    assert [("Content-Length", Decimal(0))][1..] == [];
    hide Decimal, Put;
  }

  lemma {:induction false} AllKept(headers: Fields)
    ensures Kept(headers, false) == headers
  {
    if headers != [] { AllKept(headers[1..]); }
  }

  /** Chunking leaves out the fields that are spelled exactly so, wherever they stand, and keeps all others, in
      order. */
  lemma {:induction false} KeptParts(a: Fields, value: string, b: Fields)
    requires forall f <- a :: f.0 != "Content-Length"
    ensures Kept(a, true) == a
    ensures Kept(a + [("Content-Length", value)] + b, true) == a + Kept(b, true)
    decreases |a|
  {
    var all := a + [("Content-Length", value)] + b;
    if a == [] {
      assert all[0] == ("Content-Length", value) && all[1..] == b;
      assert [] + Kept(b, true) == Kept(b, true);
    } else {
      assert a[0] in a;
      KeptParts(a[1..], value, b);
      assert all[0] == a[0] && all[1..] == a[1..] + [("Content-Length", value)] + b;
      assert [a[0]] + a[1..] == a && [a[0]] + (a[1..] + Kept(b, true)) == a + Kept(b, true);
    }
  }

  // ---- what chunking does to the length field ----

  /** A chunked response must not carry a content length. The code drops the field by its exact
      spelling, so one stays in exactly when some field has the name in other letters. */
  lemma {:induction false} LengthSurvivesChunkingIff(headers: Fields)
    ensures Has(Kept(headers, true), "Content-Length")
            <==> exists f <- headers :: SameName(f.0, "Content-Length") && f.0 != "Content-Length"
  {
    if headers != [] {
      LengthSurvivesChunkingIff(headers[1..]);
      assert headers == [headers[0]] + headers[1..];
      var rest := Kept(headers[1..], true);
      HasCons(headers[0], rest, "Content-Length");
    }
  }

  /** It can happen: a field first stored in lower case keeps its spelling when the body is set. */
  lemma LowerCaseLengthStays(old_: string, length: string)
    ensures Kept(Put([("content-length", old_)], "Content-Length", length), true) == [("content-length", length)]
  {
  }
}
