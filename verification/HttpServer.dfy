/** The file responses of the HTTP layer: from a range request to the bytes on the wire. */
module HttpServer {
  import opened Strings
  import opened Numbers
  import opened Headers
  import opened ByteRange
  import opened FileRun
  import opened LoopErrors
  import opened OutputStream
  import Connection
  import R = HttpResponse

  // ---- the headers sent ----

  function PartialHead(contentType: string, first: nat, last: nat, total: nat): R.Response
    requires first <= last
  {
    var range := Put([], "Content-Range", R.RangeText(first, last, total));
    var fields := Put(range, "Content-Length", Decimal(last - first + 1));
    R.Response(206, "Partial Content", if contentType == "" then fields else Put(fields, "Content-Type", contentType),
               "", false)
  }

  function Refusal(fileSize: nat): R.Response {
    R.Response(416, "Range Not Satisfiable", [("Content-Range", "bytes */" + Decimal(fileSize))], "", false)
  }

  const GONE := "File no longer available"

  function Gone(): R.Response {
    R.Response(410, "Gone", [("Content-Length", Decimal(|GONE|))], GONE, false)
  }

  // ---- the response as it goes out ----

  /** An answer without a file. An exception in the send ends the processing. */
  function Reply(o: Out, text: string, keepAlive: bool, io: Io): Out {
    var sent := Send(o, text, io);
    if sent.crashed then sent
    else if keepAlive then sent.(state := ReadingRequest)
    else Close(sent)
  }

  function HeadThenFile(o: Out, text: string, file: string, fileSize: nat, offset: nat, length: nat, io: Io): Out
    requires length == 0 ==> offset <= fileSize
  {
    var sent := Send(o, text, io);
    var queued := if sent.crashed then sent else SendFile(sent, file, fileSize, offset, length);
    if queued.crashed then queued else queued.(state := SendingResponse)
  }

  /** The response to a request that the router has answered with a file. `file` is its content, None
      if it cannot be opened; `fileSize` is its size when the handler looked. */
  function FileResponse(o: Out, whole: R.Response, range: Parsed, keepAlive: bool, file: Option<string>,
                        fileSize: nat, io: Io): Out {
    match file
    case None => Reply(o, R.Text(Gone()), keepAlive, io)
    case Some(content) =>
      match Resolve(range, fileSize)
      case NotSatisfiable => Reply(o, R.Text(Refusal(fileSize)), keepAlive, io)
      case Partial(a, b) =>
        var head := PartialHead(Get(whole.headers, "Content-Type"), a, b, fileSize);
        HeadThenFile(o, R.Text(head), content, fileSize, a, b - a + 1, io)
      case Whole => HeadThenFile(o, R.Text(whole), content, fileSize, 0, 0, io)
  }

  /** The response to any request: with a file of the size `stat`, or, where the router has set none, as
      the response stands. */
  function Processed(o: Out, whole: R.Response, range: Parsed, keepAlive: bool, stat: Option<nat>,
                     file: Option<string>, io: Io): Out {
    match stat
    case None => Reply(o, R.Text(whole), keepAlive, io)
    case Some(fileSize) => FileResponse(o, whole, range, keepAlive, file, fileSize, io)
  }

  method SendReply(conn: Connection.Connection, text: string, keepAlive: bool, io: Io)
    requires conn.Valid()
    modifies conn, conn.output, conn.output.data
    ensures conn.Valid() && conn.Abs() == Reply(old(conn.Abs()), text, keepAlive, io)
  {
    hide OutputStream.Send, OutputStream.Close;
    conn.Send(text, io);
    if conn.crashed { return; }
    if keepAlive {
      conn.state := ReadingRequest;
    } else {
      conn.Close();
    }
  }

  method SendHeadThenFile(conn: Connection.Connection, text: string, fileFd: int, content: string, fileSize: nat,
                          offset: nat, length: nat, io: Io)
    requires conn.Valid() && fileFd >= 0 && (length == 0 ==> offset <= fileSize)
    modifies conn, conn.output, conn.output.data
    ensures conn.Valid() && conn.Abs() == HeadThenFile(old(conn.Abs()), text, content, fileSize, offset, length, io)
  {
    hide OutputStream.Send, OutputStream.SendFile;
    conn.Send(text, io);
    if conn.crashed { return; }
    conn.SendFile(fileFd, content, fileSize, offset, length);
    if conn.crashed { return; }
    conn.state := SendingResponse;
  }

  method BuildGone() returns (text: string)
    ensures text == R.Text(Gone())
  {
    hide R.Text, Put, Decimal;
    var gone := new R.HttpResponse();
    gone.statusCode, gone.statusMessage := 410, "Gone";
    gone.SetBody(GONE);
    PutNothing("Content-Length", Decimal(|GONE|));
    var reserved;
    text, reserved := gone.Build();
  }

  method BuildRefusal(fileSize: nat) returns (text: string)
    ensures text == R.Text(Refusal(fileSize))
  {
    hide R.Text, Put, Decimal;
    var refusal := new R.HttpResponse();
    refusal.statusCode, refusal.statusMessage := 416, "Range Not Satisfiable";
    refusal.AddHeader("Content-Range", "bytes */" + Decimal(fileSize));
    PutNothing("Content-Range", "bytes */" + Decimal(fileSize));
    var reserved;
    text, reserved := refusal.Build();
  }

  method BuildPartial(contentType: string, first: nat, last: nat, total: nat) returns (text: string)
    requires first <= last
    ensures text == R.Text(PartialHead(contentType, first, last, total))
  {
    hide R.Text, Put, Decimal, R.RangeText;
    var partial := new R.HttpResponse();
    partial.SetContentRange(first, last, total);
    if contentType != "" { partial.AddHeader("Content-Type", contentType); }
    var reserved;
    text, reserved := partial.Build();
  }

  /** The part of processRequest that deals with files; a negative `fileFd` is a failed open. */
  method ProcessFile(conn: Connection.Connection, resp: R.HttpResponse, range: Parsed, keepAlive: bool,
                     fileFd: int, content: string, fileSize: nat, io: Io)
    requires conn.Valid()
    modifies conn, conn.output, conn.output.data
    ensures conn.Valid()
    ensures conn.Abs()
            == FileResponse(old(conn.Abs()), resp.Value(), range, keepAlive,
                            if fileFd < 0 then None else Some(content), fileSize, io)
  {
    hide Reply, HeadThenFile, R.Text, Get, Resolve, PartialHead, Refusal, Gone;
    var text;
    if fileFd < 0 {
      text := BuildGone();
      SendReply(conn, text, keepAlive, io);
      return;
    }
    var answer, length := ResolveRange(range, fileSize);
    match answer {
      case NotSatisfiable =>
        text := BuildRefusal(fileSize);
        SendReply(conn, text, keepAlive, io);
      case Partial(a, b) =>
        PartialBounds(range, fileSize);
        var contentType := resp.Header("Content-Type");
        text := BuildPartial(contentType, a, b, fileSize);
        SendHeadThenFile(conn, text, fileFd, content, fileSize, a, length, io);
      case Whole =>
        var reserved;
        text, reserved := resp.Build();
        SendHeadThenFile(conn, text, fileFd, content, fileSize, 0, 0, io);
    }
  }

  method ProcessRequest(conn: Connection.Connection, resp: R.HttpResponse, range: Parsed, keepAlive: bool,
                        stat: Option<nat>, fileFd: int, content: string, io: Io)
    requires conn.Valid()
    modifies conn, conn.output, conn.output.data
    ensures conn.Valid()
    ensures conn.Abs()
            == Processed(old(conn.Abs()), resp.Value(), range, keepAlive, stat,
                         if fileFd < 0 then None else Some(content), io)
  {
    hide Reply, R.Text, FileResponse;
    match stat {
      case Some(fileSize) => ProcessFile(conn, resp, range, keepAlive, fileFd, content, fileSize, io);
      case None =>
        var text, reserved := resp.Build();
        SendReply(conn, text, keepAlive, io);
    }
  }

  lemma PutNothing(name: string, value: string)
    ensures Put([], name, value) == [(name, value)]
  {
  }

  lemma PartialBounds(range: Parsed, fileSize: nat)
    ensures var a := Resolve(range, fileSize); a.Partial? ==> 0 <= a.first <= a.last < fileSize
  {
  }

  predicate AnsweredWithFile(range: Parsed, file: Option<string>, fileSize: nat) {
    file.Some? && !Resolve(range, fileSize).NotSatisfiable?
  }

  /** The request is answered with a file. */
  predicate WithFile(range: Parsed, stat: Option<nat>, file: Option<string>) {
    stat.Some? && AnsweredWithFile(range, file, stat.value)
  }

  /** The text of an answer without a file. */
  function AnswerText(whole: R.Response, stat: Option<nat>, file: Option<string>): string {
    if stat.None? then R.Text(whole) else if file.None? then R.Text(Gone()) else R.Text(Refusal(stat.value))
  }

  /** An answer without a file that the kernel takes at once never reports that its write is complete:
      whoever counts on that report for it waits for ever. */
  lemma RefusalReportsNothing(o: Out, whole: R.Response, range: Parsed, keepAlive: bool, stat: Option<nat>,
                              file: Option<string>, n: nat)
    requires o.open && !o.crashed && o.state != Closing && o.pending == "" && o.job.None?
    requires !WithFile(range, stat, file) && n >= |AnswerText(whole, stat, file)|
    ensures var r := Processed(o, whole, range, keepAlive, stat, file, Wrote(n));
            && r.events == (if keepAlive then o.events else o.events + [Closed])
            && r.pending == "" && r.job.None? && r.open == keepAlive
  {
    hide R.Text, Resolve;
    var text := AnswerText(whole, stat, file);
    var sent := Send(o, text, Wrote(n));
    assert text[|text|..] == "" && text[..|text|] == text;
    assert o.pending + "" == "";
    assert sent == o.(wire := sent.wire, stream := sent.stream);
    CloseIsFlat(sent);
    hide Send, Close;
  }

  // ---- the bytes on the wire ----

  /** The connection is closed, or the write of the header is about to close it. */
  predicate HeaderFails(o: Out, io: Io) {
    !o.open || (o.state != Closing && o.pending == "" && (io.Interrupted? || io.Failed?))
  }

  lemma OpenAfterSend(o: Out, text: string, io: Io)
    requires Sane(o) && !o.crashed
    ensures Send(o, text, io).open <==> !HeaderFails(o, io)
    ensures Sane(Send(o, text, io))
  {
    SendKeepsSane(o, text, io);
    HandleCloseShuts(o);
    hide HandleClose, Sane, Closings;
  }

  lemma HeadThenFileCrashesIff(o: Out, text: string, file: string, fileSize: nat, offset: nat, length: nat, io: Io)
    requires Sane(o) && !o.crashed && (length == 0 ==> offset <= fileSize)
    ensures HeadThenFile(o, text, file, fileSize, offset, length, io).crashed <==> HeaderFails(o, io)
  {
    OpenAfterSend(o, text, io);
    hide Send, HeaderFails, Closings;
  }

  lemma ReplyCrashesIff(o: Out, text: string, keepAlive: bool, io: Io)
    requires Sane(o) && !o.crashed
    ensures Reply(o, text, keepAlive, io).crashed <==> SendThrows(o, io)
  {
    if o.job.Some? { FilesAreOpen(o); }
    StepThrowsIff(o, DoSend(text, io));
    var sent := Send(o, text, io);
    assert Apply(o, DoSend(text, io)) == sent;
    CloseIsFlat(sent);
    hide Send, Close, SendThrows, Sane, Apply;
  }

  /** When the event loop is left by an exception. With a file: exactly when the connection is gone by the
      time the file is queued, be it closed before or because the write of the header fails. Without one:
      exactly when output is pending on a closed connection, or the write fails while a file is being
      sent. */
  lemma FileResponseCrashesIff(o: Out, whole: R.Response, range: Parsed, keepAlive: bool, file: Option<string>,
                               fileSize: nat, io: Io)
    requires Sane(o) && !o.crashed
    ensures FileResponse(o, whole, range, keepAlive, file, fileSize, io).crashed
            <==> if AnsweredWithFile(range, file, fileSize) then HeaderFails(o, io) else SendThrows(o, io)
  {
    hide R.Text, PartialHead, Get, HeadThenFile, Reply, Sane, Resolve, HeaderFails, SendThrows, Refusal, Gone;
    PartialBounds(range, fileSize);
    if file.None? {
      ReplyCrashesIff(o, R.Text(Gone()), keepAlive, io);
    } else {
      match Resolve(range, fileSize) {
        case NotSatisfiable => ReplyCrashesIff(o, R.Text(Refusal(fileSize)), keepAlive, io);
        case Partial(a, b) =>
          var head := PartialHead(Get(whole.headers, "Content-Type"), a, b, fileSize);
          HeadThenFileCrashesIff(o, R.Text(head), file.value, fileSize, a, b - a + 1, io);
        case Whole => HeadThenFileCrashesIff(o, R.Text(whole), file.value, fileSize, 0, 0, io);
      }
    }
  }

  lemma QueuedOnTheWire(o: Out, text: string, file: string, offset: nat, length: nat, io: Io, schedules: seq<seq<Io>>)
    requires Exact(o) && o.open && !o.crashed && o.job.None? && Accepts(o, io) && ErrorFree(schedules)
    requires offset + length <= |file|
    ensures var due := if length == 0 then |file| - offset else length;
            var r := WriteAll(HeadThenFile(o, text, file, |file|, offset, length, io), schedules);
            && (r.job.None? ==> r.wire == o.stream + text + file[offset..offset + due])
            && (Productive(schedules) && |schedules| > |o.pending| + |text| + due ==> r.job.None?)
  {
    hide *;
    var start := HeadThenFile(o, text, file, |file|, offset, length, io);
    var due := if length == 0 then |file| - offset else length;
    QueuedStart(o, text, file, offset, length, io);
    FileRunCompletes(start, schedules);
    if Productive(schedules) && |schedules| > |o.pending| + |text| + due { FinishesInTime(start, schedules, due); }
  }

  lemma FinishesInTime(start: Out, schedules: seq<seq<Io>>, due: nat)
    requires Exact(start) && !start.crashed && start.open && start.job.Some? && LongEnough(start.job.value)
    requires start.job.value.length == due && start.job.value.sent == 0
    requires Productive(schedules) && |schedules| > |start.pending| + due
    ensures WriteAll(start, schedules).job.None?
  {
    hide Productive, Exact, LongEnough, WriteAll;
    FileFinishes(start, schedules);
  }

  /** The connection after the header has been sent and the file queued. */
  lemma QueuedStart(o: Out, text: string, file: string, offset: nat, length: nat, io: Io)
    requires Exact(o) && o.open && !o.crashed && o.job.None? && Accepts(o, io)
    requires offset + length <= |file|
    ensures var due := if length == 0 then |file| - offset else length;
            var start := HeadThenFile(o, text, file, |file|, offset, length, io);
            && Exact(start) && start.open && !start.crashed && start.stream == o.stream + text
            && start.job == Some(Job(file, offset, due, 0)) && LongEnough(start.job.value)
            && |start.pending| <= |o.pending| + |text|
            && Delivered(Some(start.job.value.(sent := due))) == file[offset..offset + due]
  {
    var sent := Send(o, text, io);
    SendKeepsExactIff(o, text, io);
    assert Delivered(None) + text == text == text + Delivered(None);
    assert sent.open && !sent.crashed && sent.job.None? && |sent.pending| <= |o.pending| + |text|;
    hide Send, Exact;
    var start := HeadThenFile(o, text, file, |file|, offset, length, io);
    var due := if length == 0 then |file| - offset else length;
    assert start == sent.(job := Some(Job(file, offset, due, 0)), wantWrite := true, state := SendingResponse);
    QueueKeepsExact(sent, file, offset, due);
  }

  lemma QueueKeepsExact(sent: Out, file: string, offset: nat, due: nat)
    requires Exact(sent) && sent.job.None? && offset + due <= |file|
    ensures Exact(sent.(job := Some(Job(file, offset, due, 0)), wantWrite := true, state := SendingResponse))
    ensures Delivered(Some(Job(file, offset, due, due))) == file[offset..offset + due]
  {
  }

  lemma LengthOfPartial(contentType: string, first: nat, last: nat, total: nat)
    requires first <= last
    ensures Get(PartialHead(contentType, first, last, total).headers, "Content-Length") == Decimal(last - first + 1)
    ensures Get(PartialHead(contentType, first, last, total).headers, "Content-Range")
            == R.RangeText(first, last, total)
  {
    var range := Put([], "Content-Range", R.RangeText(first, last, total));
    var fields := Put(range, "Content-Length", Decimal(last - first + 1));
    DifferentNames();
    hide Decimal, R.RangeText, Get, Put, SameName;
    GetAfterPut([], "Content-Range", R.RangeText(first, last, total), "Content-Range");
    GetAfterPut(range, "Content-Length", Decimal(last - first + 1), "Content-Length");
    GetAfterPut(range, "Content-Length", Decimal(last - first + 1), "Content-Range");
    GetAfterPut(fields, "Content-Type", contentType, "Content-Length");
    GetAfterPut(fields, "Content-Type", contentType, "Content-Range");
  }

  /** A partial answer has the content type of the whole one, and none if that has none. */
  lemma TypeOfPartial(contentType: string, first: nat, last: nat, total: nat)
    requires first <= last
    ensures var headers := PartialHead(contentType, first, last, total).headers;
            Get(headers, "Content-Type") == contentType && (Has(headers, "Content-Type") <==> contentType != "")
  {
    var range := Put([], "Content-Range", R.RangeText(first, last, total));
    var fields := Put(range, "Content-Length", Decimal(last - first + 1));
    DifferentNames();
    assert SameName("Content-Type", "Content-Type");
    assert !SameName("Content-Range", "Content-Type") && !SameName("Content-Length", "Content-Type");
    assert !Has([], "Content-Type") && Get([], "Content-Type") == "";
    hide Decimal, R.RangeText, Get, Put, Has, SameName;
    GetAfterPut([], "Content-Range", R.RangeText(first, last, total), "Content-Type");
    GetAfterPut(range, "Content-Length", Decimal(last - first + 1), "Content-Type");
    GetAfterPut(fields, "Content-Type", contentType, "Content-Type");
    PutKeeps([], "Content-Range", R.RangeText(first, last, total), "Content-Type");
    PutKeeps(range, "Content-Length", Decimal(last - first + 1), "Content-Type");
  }

  lemma DifferentNames()
    ensures SameName("Content-Length", "Content-Length") && SameName("Content-Range", "Content-Range")
    ensures !SameName("Content-Length", "Content-Range")
    ensures !SameName("Content-Type", "Content-Range") && !SameName("Content-Type", "Content-Length")
  {
  }

  /** What a satisfiable range request puts on the wire: the header, then exactly the bytes asked for,
      as many as its Content-Length says. It is all there at the latest after as many writability events
      as there are bytes, if the kernel takes one each time. */
  lemma PartialOnTheWire(o: Out, whole: R.Response, range: Parsed, keepAlive: bool, content: string, io: Io,
                         schedules: seq<seq<Io>>, a: nat, b: nat)
    requires Exact(o) && o.open && !o.crashed && o.job.None? && Accepts(o, io) && ErrorFree(schedules)
    requires Resolve(range, |content|) == Partial(a, b)
    ensures a <= b < |content|
    ensures var r := WriteAll(FileResponse(o, whole, range, keepAlive, Some(content), |content|, io), schedules);
            var head := R.Text(HeadFor(whole, a, b, |content|));
            && (r.job.None? ==> r.wire == o.stream + head + content[a..b + 1])
            && (Productive(schedules) && |schedules| > |o.pending| + |head| + (b + 1 - a) ==> r.job.None?)
  {
    hide *;
    PartialIsQueued(o, whole, range, keepAlive, content, io, a, b);
    QueuedOnTheWire(o, R.Text(HeadFor(whole, a, b, |content|)), content, a, b + 1 - a, io, schedules);
  }

  function HeadFor(whole: R.Response, first: nat, last: nat, total: nat): R.Response
    requires first <= last
  {
    PartialHead(Get(whole.headers, "Content-Type"), first, last, total)
  }

  lemma PartialIsQueued(o: Out, whole: R.Response, range: Parsed, keepAlive: bool, content: string, io: Io, a: nat,
                        b: nat)
    requires Resolve(range, |content|) == Partial(a, b)
    ensures a <= b < |content|
    ensures FileResponse(o, whole, range, keepAlive, Some(content), |content|, io)
            == HeadThenFile(o, R.Text(HeadFor(whole, a, b, |content|)), content, |content|, a, b + 1 - a, io)
  {
    hide HeadThenFile, R.Text, Reply, Get, PartialHead, Resolve;
    PartialBounds(range, |content|);
  }

  /** And a request for the whole file. */
  lemma WholeOnTheWire(o: Out, whole: R.Response, range: Parsed, keepAlive: bool, content: string, io: Io,
                       schedules: seq<seq<Io>>)
    requires Exact(o) && o.open && !o.crashed && o.job.None? && Accepts(o, io) && ErrorFree(schedules)
    requires Resolve(range, |content|) == Whole
    ensures var r := WriteAll(FileResponse(o, whole, range, keepAlive, Some(content), |content|, io), schedules);
            && (r.job.None? ==> r.wire == o.stream + R.Text(whole) + content)
            && (Productive(schedules) && |schedules| > |o.pending| + |R.Text(whole)| + |content| ==> r.job.None?)
  {
    hide WriteAll, HeadThenFile, R.Text, Resolve, Exact, Accepts, Reply, ErrorFree, Productive;
    QueuedOnTheWire(o, R.Text(whole), content, 0, 0, io, schedules);
    assert content[0..|content|] == content;
  }

  // ---- what an answer without a file does to its connection ----

  /** An exception ends the processing where it comes: nothing that follows the send is done. */
  lemma ThrowStops(o: Out, text: string, keepAlive: bool, file: string, fileSize: nat, offset: nat, length: nat, io: Io)
    requires Sane(o) && !o.crashed && (length == 0 ==> offset <= fileSize)
    ensures Reply(o, text, keepAlive, io).crashed ==> Reply(o, text, keepAlive, io) == Send(o, text, io)
    ensures var r := HeadThenFile(o, text, file, fileSize, offset, length, io);
            r.crashed ==> r.state == Send(o, text, io).state && (Send(o, text, io).crashed ==> r == Send(o, text, io))
  {
    ReplyCrashesIff(o, text, keepAlive, io);
    if o.job.Some? { FilesAreOpen(o); }
    StepThrowsIff(o, DoSend(text, io));
    assert Apply(o, DoSend(text, io)) == Send(o, text, io);
    hide Send, SendThrows, Close, Apply, Sane;
  }

  lemma {:induction false} AnswerDrains(o: Out, schedules: seq<seq<Io>>)
    requires o.job.None? && !o.crashed && ErrorFree(schedules)
    requires if o.state == Closing then o.open <==> o.pending != "" else o.state == ReadingRequest && o.open
    ensures var r := WriteAll(o, schedules);
            && r.state == o.state && r.wire + r.pending == o.wire + o.pending
            && (r.open <==> o.state == ReadingRequest || r.pending != "")
    decreases |schedules|
  {
    hide HandleWrite;
    if schedules != [] {
      DrainStep(o, schedules[0]);
      var next := HandleWrite(o, schedules[0]);
      if next.crashed {
        CrashedWrites(next, schedules[1..]);
      } else {
        AnswerDrains(next, schedules[1..]);
      }
    }
  }

  lemma {:induction false} CrashedWrites(o: Out, schedules: seq<seq<Io>>)
    requires o.crashed
    ensures WriteAll(o, schedules) == o
    decreases |schedules|
  {
    if schedules != [] { CrashedWrites(o, schedules[1..]); }
  }

  lemma DrainStep(o: Out, schedule: seq<Io>)
    requires o.job.None? && !o.crashed && Failed !in schedule && Interrupted !in schedule
    requires if o.state == Closing then o.open <==> o.pending != "" else o.state == ReadingRequest && o.open
    ensures var r := HandleWrite(o, schedule);
            && r.job.None? && r.state == o.state && r.wire + r.pending == o.wire + o.pending
            && (r.open <==> o.state == ReadingRequest || r.pending != "")
  {
    hide Drain, Completed;
    if o.state == Closing {
      ClosingWaits(o, Writable(schedule));
    } else {
      DrainWithoutError(o, schedule);
      var drained := Drain(o, schedule).0;
      if drained.pending == "" { CompletedIs(drained); }
    }
  }

  /** What becomes of the connection of an answer without a file, over any error-free writability events: its
      bytes follow what was sent before, whatever the kernel takes at once. If the request asks for keep-alive,
      the connection reads the next one; else it closes as soon as all bytes are out, and not before. */
  lemma ReplyEnds(o: Out, text: string, keepAlive: bool, io: Io, schedules: seq<seq<Io>>)
    requires o.open && !o.crashed && o.job.None? && Accepts(o, io) && ErrorFree(schedules)
    ensures var r := WriteAll(Reply(o, text, keepAlive, io), schedules);
            && r.wire + r.pending == o.wire + o.pending + text
            && r.state == (if keepAlive then ReadingRequest else Closing)
            && (r.open <==> keepAlive || r.pending != "")
  {
    SendBytes(o, text, io);
    var sent := Send(o, text, io);
    assert sent.open && !sent.crashed && sent.job.None?;
    CloseIsFlat(sent);
    hide Send, Close, WriteAll, Accepts;
    var start := Reply(o, text, keepAlive, io);
    if !start.crashed { AnswerDrains(start, schedules); }
  }

  /** So for every request that is answered without a file: as the response stands where the router has set
      none, with 410 where the file cannot be opened, and with 416 for a range that cannot be satisfied. */
  lemma PlainAnswerEnds(o: Out, whole: R.Response, range: Parsed, keepAlive: bool, stat: Option<nat>,
                        file: Option<string>, io: Io, schedules: seq<seq<Io>>)
    requires o.open && !o.crashed && o.job.None? && Accepts(o, io) && ErrorFree(schedules)
    requires !WithFile(range, stat, file)
    ensures var r := WriteAll(Processed(o, whole, range, keepAlive, stat, file, io), schedules);
            && r.wire + r.pending
               == o.wire + o.pending
                  + R.Text(if stat.None? then whole else if file.None? then Gone() else Refusal(stat.value))
            && r.state == (if keepAlive then ReadingRequest else Closing)
            && (r.open <==> keepAlive || r.pending != "")
  {
    hide R.Text, Resolve, Reply, WriteAll, Accepts, Gone, Refusal;
    ReplyEnds(o, AnswerText(whole, stat, file), keepAlive, io, schedules);
  }

  lemma OneField(r: R.Response, name: string, value: string)
    requires r.headers == [(name, value)] && !r.chunked && R.CleanField((name, value)) && '\r' !in r.statusMessage
    ensures R.ReadMessage(R.Text(r)) == Some(R.Message(R.Status(r), [("Server", "ezNet"), (name, value)], r.body))
  {
    hide Decimal, R.ReadMessage, R.Text, R.CleanField;
    assert r.headers[1..] == [];
    R.AllKept(r.headers);
    assert [("Server", "ezNet")] + [(name, value)] + [] == [("Server", "ezNet"), (name, value)];
    R.ClientReadsBack(r);
  }

  lemma StatusTexts(fileSize: nat)
    ensures R.Status(Gone()) == "HTTP/1.1 410 Gone"
    ensures R.Status(Refusal(fileSize)) == "HTTP/1.1 416 Range Not Satisfiable"
  {
    SmallDecimals();
    hide Decimal;
  }

  /** What a client reads in the 410 answer. */
  lemma GoneReadBack()
    ensures R.ReadMessage(R.Text(Gone()))
            == Some(R.Message("HTTP/1.1 410 Gone", [("Server", "ezNet"), ("Content-Length", "24")], GONE))
  {
    hide R.ReadMessage, R.Text, R.Status;
    StatusTexts(0);
    SmallDecimals();
    hide Decimal;
    OneField(Gone(), "Content-Length", "24");
  }

  /** And in the 416 answer. */
  lemma RefusalReadBack(fileSize: nat)
    ensures R.ReadMessage(R.Text(Refusal(fileSize)))
            == Some(R.Message("HTTP/1.1 416 Range Not Satisfiable",
                              [("Server", "ezNet"), ("Content-Range", "bytes */" + Decimal(fileSize))], ""))
  {
    hide R.ReadMessage, R.Text, R.Status, Decimal;
    StatusTexts(fileSize);
    NoReturnInDecimal(fileSize);
    OneField(Refusal(fileSize), "Content-Range", "bytes */" + Decimal(fileSize));
  }

  lemma NoReturnInDecimal(n: nat)
    ensures '\r' !in "bytes */" + Decimal(n)
  {
    hide Decimal;
  }

  /** And the status of a partial answer. */
  lemma StatusOfPartial(contentType: string, first: nat, last: nat, total: nat)
    requires first <= last
    ensures R.Status(PartialHead(contentType, first, last, total)) == "HTTP/1.1 206 Partial Content"
  {
    SmallDecimals();
    hide Decimal;
  }

  lemma SmallDecimals()
    ensures Decimal(24) == "24" && Decimal(206) == "206" && Decimal(410) == "410" && Decimal(416) == "416"
  {
    assert Decimal(2) == "2" && Decimal(4) == "4";
    assert Decimal(20) == "20" && Decimal(41) == "41";
  }

  // ---- what a file response does to its connection ----

  lemma QueuedFacts(o: Out, text: string, file: string, fileSize: nat, offset: nat, length: nat, io: Io)
    requires Exact(o) && o.open && !o.crashed && o.job.None? && Accepts(o, io) && (length == 0 ==> offset <= fileSize)
    ensures var start := HeadThenFile(o, text, file, fileSize, offset, length, io);
            && Exact(start) && start.open && !start.crashed && start.job.Some?
            && start.state == SendingResponse && start.keepAlive == o.keepAlive && start.events == o.events
  {
    var sent := Send(o, text, io);
    SendKeepsExactIff(o, text, io);
    assert Delivered(None) + text == text == text + Delivered(None);
    assert sent.open && !sent.crashed && sent.job.None? && sent.keepAlive == o.keepAlive && sent.events == o.events;
    hide Send, Exact;
    var start := HeadThenFile(o, text, file, fileSize, offset, length, io);
    NothingSentYet(sent, start);
  }

  lemma NothingSentYet(sent: Out, start: Out)
    requires Exact(sent) && sent.job.None? && start.job.Some? && start.job.value.sent == 0
    requires start.wire == sent.wire && start.pending == sent.pending && start.stream == sent.stream
    ensures Exact(start)
  {
  }

  /** The start of any answer with a file. */
  lemma FileIsQueued(o: Out, whole: R.Response, range: Parsed, keepAlive: bool, stat: Option<nat>,
                     file: Option<string>, io: Io)
    requires Exact(o) && o.open && !o.crashed && o.job.None? && Accepts(o, io) && WithFile(range, stat, file)
    ensures var start := Processed(o, whole, range, keepAlive, stat, file, io);
            && Exact(start) && start.open && !start.crashed && start.job.Some?
            && start.state == SendingResponse && start.keepAlive == o.keepAlive && start.events == o.events
  {
    hide HeadThenFile, R.Text, Reply, Get, PartialHead, Resolve, Exact, Accepts;
    var fileSize := stat.value;
    PartialBounds(range, fileSize);
    match Resolve(range, fileSize) {
      case NotSatisfiable =>
      case Partial(a, b) =>
        var head := PartialHead(Get(whole.headers, "Content-Type"), a, b, fileSize);
        QueuedFacts(o, R.Text(head), file.value, fileSize, a, b - a + 1, io);
      case Whole => QueuedFacts(o, R.Text(whole), file.value, fileSize, 0, 0, io);
    }
  }

  /** What becomes of the connection of an answer with a file, a part of it or the whole, over any error-free
      writability events. While the file is under way, nothing is reported and a close throws exactly if the
      header is out and the connection has no keep-alive. In the event in which the file leaves, the write is
      reported complete, and the connection is closed and reported closed, each once; or, with keep-alive, it
      is open and reads the next request. What counts is the flag of the connection, which the library never
      sets, and not whether the request asks for keep-alive. */
  lemma FileResponseEnds(o: Out, whole: R.Response, range: Parsed, keepAlive: bool, stat: Option<nat>,
                         file: Option<string>, io: Io, schedules: seq<seq<Io>>, last: seq<Io>)
    requires Exact(o) && o.open && !o.crashed && o.job.None? && Accepts(o, io) && WithFile(range, stat, file)
    requires ErrorFree(schedules) && Failed !in last && Interrupted !in last
    ensures var r := WriteAll(Processed(o, whole, range, keepAlive, stat, file, io), schedules);
            var done := HandleWrite(r, last);
            r.job.Some? ==>
              && r.open && !r.crashed && r.events == o.events
              && (Apply(r, PeerClosed).crashed <==> r.pending == "" && !o.keepAlive)
              && (Apply(r, DoForceClose).crashed <==> r.pending == "" && !o.keepAlive)
              && (done.job.None? ==>
                    && !done.crashed && done.pending == ""
                    && if o.keepAlive
                       then done.open && done.state == ReadingRequest && !done.wantWrite
                            && done.events == o.events + [WriteComplete]
                       else !done.open && done.events == o.events + [WriteComplete] + [Closed])
  {
    hide Processed, WriteAll, Exact, Accepts, WithFile, Apply, HandleWrite;
    FileIsQueued(o, whole, range, keepAlive, stat, file, io);
    var start := Processed(o, whole, range, keepAlive, stat, file, io);
    var r := WriteAll(start, schedules);
    if r.job.Some? {
      FileUnderWay(start, schedules);
      StepThrowsIff(r, PeerClosed);
      StepThrowsIff(r, DoForceClose);
      NoErrorHere(r, last);
      if HandleWrite(r, last).job.None? { FileLeaves(r, last); }
    }
  }

  lemma NoErrorHere(o: Out, schedule: seq<Io>)
    requires Failed !in schedule && Interrupted !in schedule
    ensures NoError(o, schedule)
  {
  }

  /** A reset that comes before the header can be written: the file is queued on a closed connection. */
  lemma ResetBeforeHeadCrashes(whole: R.Response)
    ensures FileResponse(FRESH, whole, NO_RANGE, false, Some("f"), 1, Failed).crashed
  {
    assert Sane(FRESH);
    FileResponseCrashesIff(FRESH, whole, NO_RANGE, false, Some("f"), 1, Failed);
  }

  // ---- where the answers end ----

  /** The answer of ezdrop when a download's file has vanished after it was looked up. */
  function Vanished(disposition: string): R.Response {
    R.Response(404, "Not Found", [("Content-Disposition", disposition)], "", false)
  }

  /** The 410 answer says how long it is. The 416 answer and the 404 answer for a vanished file do not, so a
      client that keeps the connection open waits for a body that never comes. */
  lemma RepliesDelimited(fileSize: nat, disposition: string)
    ensures R.SelfDelimiting(Gone()) && !R.SelfDelimiting(Refusal(fileSize)) && !R.SelfDelimiting(Vanished(disposition))
  {
    ValueOfDecimal(|GONE|);
    DifferentNames();
    assert !SameName("Content-Range", "Content-Length");
    hide Decimal, SameName;
    assert Gone().headers[1..] == [] && Refusal(fileSize).headers[1..] == [];
    assert !SameName("Content-Disposition", "Content-Length") by { DispositionIsNoLength(); }
    assert Vanished(disposition).headers[1..] == [];
    R.AllKept(Vanished(disposition).headers);
    assert Get(Vanished(disposition).headers, "Content-Length") == "";
    R.AllKept(Refusal(fileSize).headers);
    R.AllKept(Gone().headers);
    assert Get(Refusal(fileSize).headers, "Content-Length") == "";
  }

  lemma DispositionIsNoLength()
    ensures !SameName("Content-Disposition", "Content-Length")
  {
    assert |Lower("Content-Disposition")| == 19 && |Lower("Content-Length")| == 14;
  }

  lemma PartialHeadIsClean(contentType: string, first: nat, last: nat, total: nat)
    requires first <= last && '\r' !in contentType
    ensures var head := PartialHead(contentType, first, last, total);
            && R.CleanResponse(head) && !R.Framed(head) && head.body == ""
            && Get(R.AllFields(head), "Transfer-Encoding") != "chunked"
            && Get(R.AllFields(head), "Content-Length") == Decimal(last - first + 1)
  {
    var head := PartialHead(contentType, first, last, total);
    var range := Put([], "Content-Range", R.RangeText(first, last, total));
    var fields := Put(range, "Content-Length", Decimal(last - first + 1));
    LengthOfPartial(contentType, first, last, total);
    NoReturnInRange(first, last, total);
    hide R.RangeText, Decimal, Put;
    PutClean([], "Content-Range", R.RangeText(first, last, total));
    PutClean(range, "Content-Length", Decimal(last - first + 1));
    PutClean(fields, "Content-Type", contentType);
    hide Has;
    R.AllKept(head.headers);
    R.FramingFields(head);
  }

  /** A field fit to be read back, and not the transfer coding. */
  predicate Plain(headers: Fields) {
    R.CleanFields(headers) && !Has(headers, "Transfer-Encoding")
  }

  lemma PutClean(headers: Fields, name: string, value: string)
    requires Plain(headers) && R.CleanField((name, value)) && |name| < 17
    ensures Plain(Put(headers, name, value))
  {
    PutKeeps(headers, name, value, "Transfer-Encoding");
    assert |Lower("Transfer-Encoding")| == 17 && |Lower(name)| < 17;
    hide Put, Has;
    forall i | 0 <= i < |Put(headers, name, value)|
      ensures R.CleanField(Put(headers, name, value)[i])
    {
      var f := Put(headers, name, value)[i];
      assert f in Put(headers, name, value);
    }
  }

  lemma NoReturnInRange(first: nat, last: nat, total: nat)
    requires first <= last
    ensures '\r' !in R.RangeText(first, last, total) && '\r' !in Decimal(last - first + 1)
  {
    hide Decimal;
  }

  /** A client finds exactly the bytes of the range as the body of a 206 answer, and the next message
      behind them. */
  lemma PartialIsFramed(contentType: string, first: nat, last: nat, total: nat, data: string, more: string)
    requires first <= last && '\r' !in contentType && |data| == last - first + 1
    ensures var head := PartialHead(contentType, first, last, total);
            R.Frame(R.Text(head) + (data + more)) == Some(R.Delivery(R.Status(head), R.AllFields(head), data, more))
  {
    hide *;
    var head := PartialHead(contentType, first, last, total);
    PartialHeadIsClean(contentType, first, last, total);
    FrameOfHead(head, data, more);
  }

  lemma FrameOfHead(head: R.Response, data: string, more: string)
    requires R.CleanResponse(head) && head.body == "" && !R.Framed(head)
    requires Get(R.AllFields(head), "Transfer-Encoding") != "chunked"
    requires Get(R.AllFields(head), "Content-Length") == Decimal(|data|)
    ensures R.Frame(R.Text(head) + (data + more)) == Some(R.Delivery(R.Status(head), R.AllFields(head), data, more))
  {
    assert R.Text(head) == R.Head(head) by { assert R.Head(head) + "" == R.Head(head); }
    hide R.ReadMessage, R.AllFields, R.Head, R.Text, Get, Decimal, Value;
    R.HeadReadBack(head, data + more);
    ValueOfDecimal(|data|);
    assert (data + more)[..|data|] == data && (data + more)[|data|..] == more;
  }
}
