/** The output side of a connection, step by step, on values: what each operation does to the bytes
    given to the kernel, the buffered rest, the file being sent, and the connection itself. */
module OutputStream {
  import opened Strings

  datatype State = ReadingRequest | Processing | SendingResponse | Closing

  /** What one system call answers. A count is clipped to what was asked for. */
  datatype Io = Wrote(n: nat) | Again | Interrupted | Failed

  /** A file being sent: its content, and which part of it is due. */
  datatype Job = Job(file: string, offset: nat, length: nat, sent: nat)

  /** The callbacks a connection runs. */
  datatype Event = WriteComplete | Closed

  datatype Out = Out(
    open: bool,                // the descriptor is valid
    state: State,
    keepAlive: bool,
    wire: string,              // the bytes the kernel took, in order
    pending: string,           // the output buffer
    job: Option<Job>,
    wantWrite: bool,           // writability events are registered
    events: seq<Event>,
    crashed: bool,             // the event loop was asked to change a descriptor it does not know
    stream: string)            // history: the bytes accepted so far, sent files included

  function Min(a: nat, b: nat): nat { if a < b then a else b }

  /** Registering for events; the loop throws for a descriptor that was removed. */
  function ModFd(o: Out, wantWrite: bool): Out {
    if o.open then o.(wantWrite := wantWrite) else o.(crashed := true)
  }

  // ---- closing ----

  /** Removing the descriptor and telling the owner; the loop throws if it is gone already. */
  function Teardown(o: Out): Out {
    if o.open then
      o.(open := false, wantWrite := false, job := None, events := o.events + [Closed],
         stream := o.stream + Delivered(o.job))
    else o.(crashed := true)
  }

  function HandleClose(o: Out): Out
    decreases if o.state == Closing then 2 else 6
  {
    if !o.open then o
    else Teardown(if o.job.Some? then OnWriteComplete(o) else o)
  }

  /** The write-complete callback of the HTTP layer. */
  function OnWriteComplete(o: Out): Out
    decreases if o.state == Closing then 1 else 5
  {
    var told := o.(events := o.events + [WriteComplete]);
    if o.state != SendingResponse then told
    else if o.keepAlive then told.(state := ReadingRequest)
    else Close(told)
  }

  function Close(o: Out): Out
    decreases 4
  {
    var closing := o.(state := Closing);
    if o.pending == "" then ForceClose(closing) else closing
  }

  function ForceClose(o: Out): Out
    decreases if o.state == Closing then 3 else 7
  {
    HandleClose(o)
  }

  // ---- sending ----

  function Send(o: Out, data: string, io: Io): Out {
    if o.state == Closing then o
    else if o.pending != "" then Buffered(o, data)
    else if !o.open then o
    else match io
      case Wrote(n) =>
        var taken := Min(n, |data|);
        Buffered(o.(wire := o.wire + data[..taken], stream := o.stream + data[..taken]), data[taken..])
      case Again => Buffered(o, data)
      case _ => HandleClose(o)
  }

  function Buffered(o: Out, data: string): Out {
    var queued := o.(pending := o.pending + data, stream := o.stream + data);
    if queued.pending != "" then ModFd(queued, true) else queued
  }

  function SendFile(o: Out, file: string, fileSize: nat, offset: nat, length: nat): Out
    requires length == 0 ==> offset <= fileSize
  {
    if o.job.Some? then o
    else ModFd(o.(job := Some(Job(file, offset, if length == 0 then fileSize - offset else length, 0))), true)
  }

  // ---- writability ----

  /** One write of the output buffer; true if the caller goes on. */
  function WritePending(o: Out, io: Io): (Out, bool) {
    if !o.open then (o, false)
    else match io
      case Wrote(n) =>
        var taken := Min(n, |o.pending|);
        (o.(wire := o.wire + o.pending[..taken], pending := o.pending[taken..]), true)
      case Again => (o, false)
      case _ => (HandleClose(o), false)
  }

  /** The next answer of the kernel; a schedule that has run out says "try again later". */
  function Next(schedule: seq<Io>): Io {
    if schedule == [] then Again else schedule[0]
  }

  function Rest(schedule: seq<Io>): seq<Io> {
    if schedule == [] then [] else schedule[1..]
  }

  /** Writes until the buffer is empty, the kernel takes nothing, or something goes wrong. */
  function Drain(o: Out, schedule: seq<Io>): (Out, bool)
    decreases |o.pending|
  {
    if o.pending == "" then (o, true)
    else
      var (next, goOn) := WritePending(o, Next(schedule));
      if !goOn then (next, false)
      else if |next.pending| == |o.pending| then (next, true)
      else Drain(next, Rest(schedule))
  }

  function Sent(o: Out, taken: nat): Out
    requires o.job.Some? && o.job.value.offset + o.job.value.sent + taken <= |o.job.value.file|
  {
    var j := o.job.value;
    var at := j.offset + j.sent;
    o.(wire := o.wire + j.file[at..at + taken], job := Some(j.(sent := j.sent + taken)))
  }

  /** sendfile: the kernel takes at most what is due and what the file still holds. */
  function Transfer(o: Out, schedule: seq<Io>): (Out, bool)
    requires o.job.Some?
    decreases |schedule|
  {
    var j := o.job.value;
    if j.sent >= j.length then (o, true)
    else if schedule == [] then (o, false)
    else match schedule[0]
      case Wrote(n) =>
        var at := j.offset + j.sent;
        var left := if at < |j.file| then |j.file| - at else 0;
        var taken := Min(n, Min(j.length - j.sent, left));
        if taken == 0 then (o, true)
        else Transfer(Sent(o, taken), schedule[1..])
      case Again => (o, false)
      case Interrupted => Transfer(o, schedule[1..])
      case Failed => (HandleClose(o), false)
  }

  function Finish(o: Out): Out {
    var told := OnWriteComplete(o);
    if told.state == Closing then HandleClose(told) else told
  }

  /** After the last byte: writability events are no longer wanted, and the callback runs. */
  function Completed(o: Out): Out {
    if o.open then Finish(ModFd(o, false)) else ModFd(o, false)
  }

  function HandleWrite(o: Out, schedule: seq<Io>): Out {
    if o.job.Some? then
      var (headers, goOn) := if o.pending != "" then WritePending(o, Next(schedule)) else (o, true);
      if !goOn || headers.pending != "" || headers.job.None? then headers
      else
        var (moved, done) := Transfer(headers, if o.pending != "" then Rest(schedule) else schedule);
        if !done || moved.job.None? || moved.job.value.sent < moved.job.value.length then moved
        else
          Completed(moved.(job := None, stream := moved.stream + Delivered(moved.job)))
    else
      var (drained, goOn) := Drain(o, schedule);
      if !goOn || drained.pending != "" then drained else Completed(drained)
  }

  /** The part of its file a job has sent so far. */
  function Delivered(job: Option<Job>): string {
    if job.Some? && job.value.offset + job.value.sent <= |job.value.file|
    then job.value.file[job.value.offset..job.value.offset + job.value.sent] else ""
  }

  // ---- runs ----

  datatype Step =
    | DoSend(data: string, io: Io)
    | DoSendFile(file: string, fileSize: nat, offset: nat, length: nat)
    | Writable(schedule: seq<Io>)
    | DoClose
    | DoForceClose
    | PeerClosed                       // end of stream or an error on the read side
    | SetState(state: State)
    | SetKeepAlive(keepAlive: bool)

  predicate Legal(step: Step) {
    step.DoSendFile? && step.length == 0 ==> step.offset <= step.fileSize
  }

  function Apply(o: Out, step: Step): Out
    requires Legal(step)
  {
    if o.crashed then o else   // an exception has left the event loop
    match step
    case DoSend(data, io) => Send(o, data, io)
    case DoSendFile(file, fileSize, offset, length) => SendFile(o, file, fileSize, offset, length)
    case Writable(schedule) => HandleWrite(o, schedule)
    case DoClose => Close(o)
    case DoForceClose => ForceClose(o)
    case PeerClosed => HandleClose(o)
    case SetState(s) => o.(state := s)
    case SetKeepAlive(b) => o.(keepAlive := b)
  }

  function Run(o: Out, steps: seq<Step>): Out
    requires forall step <- steps :: Legal(step)
    decreases |steps|
  {
    if steps == [] then o else Run(Apply(o, steps[0]), steps[1..])
  }

  /** A connection as accept creates it. */
  const FRESH := Out(true, ReadingRequest, false, "", "", None, false, [], false, "")

  // ---- the byte stream ----

  /** What the kernel took, followed by the output buffer, is the stream accepted so far, followed
      by the part of the current file that has gone out. */
  ghost predicate Exact(o: Out) {
    && o.wire + o.pending == o.stream + Delivered(o.job)
    && (o.job.Some? ==> o.job.value.sent <= o.job.value.length
                        && (o.job.value.sent > 0 ==> o.job.value.offset + o.job.value.sent <= |o.job.value.file|))
  }

  /** How often the connection's owner was told that it closed. */
  function Closings(events: seq<Event>): nat {
    if events == [] then 0
    else Closings(events[..|events| - 1]) + if events[|events| - 1] == Closed then 1 else 0
  }

  lemma ClosingsAppend(events: seq<Event>, e: Event)
    ensures Closings(events + [e]) == Closings(events) + if e == Closed then 1 else 0
  {
  }

  /** What closing, in whatever nesting, may do: no byte moves, the connection is torn down at most
      once, and if it is, the file is dropped after what it delivered. */
  ghost predicate Shuts(o: Out, r: Out) {
    && r.wire == o.wire && r.pending == o.pending
    && (r.open ==> o.open)
    && (r.open == o.open ==> r.job == o.job && r.stream == o.stream && r.wantWrite == o.wantWrite
                             && Closings(r.events) == Closings(o.events))
    && (o.open && !r.open ==> r.job == None && r.stream == o.stream + Delivered(o.job)
                              && Closings(r.events) == Closings(o.events) + 1)
  }

  lemma ClosedStaysClosed(o: Out)
    requires !o.open
    ensures HandleClose(o) == o
  {
  }

  /** Closing without the nesting. The one bad case is the last: the callback of an interrupted
      download, itself closing the connection, has removed the descriptor before the outer call
      gets to it. */
  function HandleCloseFlat(o: Out): Out {
    var told := o.(events := o.events + [WriteComplete]);
    if !o.open then o
    else if o.job.None? then Teardown(o)
    else if o.state != SendingResponse then Teardown(told)
    else if o.keepAlive then Teardown(told.(state := ReadingRequest))
    else if o.pending != "" then Teardown(told.(state := Closing))
    else Teardown(told.(events := told.events + [WriteComplete], state := Closing)).(crashed := true)
  }

  lemma HandleClosingIsFlat(o: Out)
    requires o.state == Closing
    ensures HandleClose(o) == HandleCloseFlat(o)
  {
  }

  lemma CloseIsFlat(o: Out)
    ensures var closing := o.(state := Closing);
            Close(o) == if o.pending == "" then HandleCloseFlat(closing) else closing
  {
    var closing := o.(state := Closing);
    HandleClosingIsFlat(closing);
    hide HandleClose, HandleCloseFlat, Teardown;
    assert ForceClose(closing) == HandleClose(closing);
  }

  lemma HandleCloseIsFlat(o: Out)
    ensures HandleClose(o) == HandleCloseFlat(o)
  {
    if o.open && o.job.Some? && o.state == SendingResponse && !o.keepAlive {
      var told := o.(events := o.events + [WriteComplete]);
      CloseIsFlat(told);
      hide Close;
      assert OnWriteComplete(o) == Close(told);
    } else {
      assert o.open && o.job.Some? ==> OnWriteComplete(o).events == o.events + [WriteComplete];
    }
  }

  /** Closing crashes the event loop exactly when a download that does not keep the connection
      alive is cut off with its headers already out. */
  lemma CloseCrashesIff(o: Out)
    requires !o.crashed
    ensures HandleClose(o).crashed
            <==> o.open && o.job.Some? && o.state == SendingResponse && !o.keepAlive && o.pending == ""
  {
    HandleCloseIsFlat(o);
  }

  lemma TeardownShuts(o: Out)
    requires o.open
    ensures Shuts(o, Teardown(o))
  {
  }

  lemma ToldShuts(o: Out, told: Out, r: Out)
    requires told.events == o.events + [WriteComplete] && Shuts(told, r)
    requires told.open == o.open && told.wire == o.wire && told.pending == o.pending && told.job == o.job
    requires told.stream == o.stream && told.wantWrite == o.wantWrite
    ensures Shuts(o, r)
  {
  }

  lemma HandleCloseShuts(o: Out)
    ensures Shuts(o, HandleClose(o)) && !HandleClose(o).open
  {
    HandleCloseIsFlat(o);
    hide HandleClose;
    if o.open && o.job.None? {
      TeardownShuts(o);
    } else if o.open {
      var told := o.(events := o.events + [WriteComplete]);
      if o.state != SendingResponse {
        TeardownShuts(told);
        ToldShuts(o, told, HandleCloseFlat(o));
      } else if o.keepAlive {
        var ready := told.(state := ReadingRequest);
        TeardownShuts(ready);
        ToldShuts(o, ready, HandleCloseFlat(o));
      } else if o.pending != "" {
        var closing := told.(state := Closing);
        TeardownShuts(closing);
        ToldShuts(o, closing, HandleCloseFlat(o));
      } else {
        var twice := told.(events := told.events + [WriteComplete], state := Closing);
        TeardownShuts(twice);
        ToldShuts(told, twice, HandleCloseFlat(o));
        ToldShuts(o, told, HandleCloseFlat(o));
      }
    }
  }

  lemma CloseShuts(o: Out)
    ensures Shuts(o, Close(o)) && Close(o).state == Closing
    ensures Close(o).open <==> o.open && o.pending != ""
  {
    HandleCloseShuts(o.(state := Closing));
    HandleCloseIsFlat(o.(state := Closing));
    hide HandleClose;
  }

  lemma WriteCompleteShuts(o: Out)
    ensures Shuts(o, OnWriteComplete(o))
    ensures o.state == Closing ==> OnWriteComplete(o) == o.(events := o.events + [WriteComplete])
  {
    ClosingsAppend(o.events, WriteComplete);
    CloseShuts(o.(events := o.events + [WriteComplete]));
    hide Close;
  }

  lemma ShutsKeepsExact(o: Out, r: Out)
    requires Exact(o) && Shuts(o, r)
    ensures Exact(r)
  {
  }

  /** A send that is accepted: the state allows it and the write did not fail. */
  predicate Accepts(o: Out, io: Io) {
    o.state != Closing && (o.pending != "" || (o.open && (io.Wrote? || io.Again?)))
  }

  /** Sending keeps the stream exact except in one case, a send while a file is under way, and then
      exactly if the new bytes may change places with the part of the file already sent. */
  lemma SendKeepsExactIff(o: Out, data: string, io: Io)
    requires Exact(o)
    ensures Exact(Send(o, data, io))
            <==> !Accepts(o, io) || Delivered(o.job) + data == data + Delivered(o.job)
    ensures Accepts(o, io) ==> Send(o, data, io).stream == o.stream + data
  {
    HandleCloseShuts(o);
    hide HandleClose;
    var r := Send(o, data, io);
    if Accepts(o, io) {
      assert r.job == o.job && r.stream == o.stream + data by { SendStream(o, data, io); }
      assert r.wire + r.pending == o.wire + o.pending + data by { SendBytes(o, data, io); }
      var w, d := o.stream, Delivered(o.job);
      Assoc(w, d, data);
      Assoc(w, data, d);
      assert (w + (d + data))[|w|..] == d + data && (w + (data + d))[|w|..] == data + d;
    }
  }

  lemma SendStream(o: Out, data: string, io: Io)
    requires Accepts(o, io)
    ensures Send(o, data, io).stream == o.stream + data && Send(o, data, io).job == o.job
  {
  }

  lemma SendBytes(o: Out, data: string, io: Io)
    requires Accepts(o, io)
    ensures Send(o, data, io).wire + Send(o, data, io).pending == o.wire + o.pending + data
  {
  }

  lemma WritePendingKeepsExact(o: Out, io: Io)
    requires Exact(o)
    ensures Exact(WritePending(o, io).0)
  {
    HandleCloseShuts(o);
    hide HandleClose;
    if o.open && io.Wrote? {
      var n := Min(io.n, |o.pending|);
      assert o.wire + o.pending == o.wire + o.pending[..n] + o.pending[n..];
    } else if o.open && !io.Again? {
      ShutsKeepsExact(o, HandleClose(o));
    }
  }

  lemma {:induction false} DrainKeepsExact(o: Out, schedule: seq<Io>)
    requires Exact(o)
    ensures Exact(Drain(o, schedule).0)
    decreases |o.pending|
  {
    hide Exact, HandleClose;
    if o.pending != "" {
      WritePendingKeepsExact(o, Next(schedule));
      var (next, goOn) := WritePending(o, Next(schedule));
      if goOn && |next.pending| < |o.pending| { DrainKeepsExact(next, Rest(schedule)); }
    }
  }

  /** Nothing but file bytes moved. */
  ghost predicate OnlySent(o: Out, r: Out) {
    o.job.Some? && r.job.Some? && r == o.(wire := r.wire, job := Some(o.job.value.(sent := r.job.value.sent)))
  }

  lemma {:induction false} TransferKeepsExact(o: Out, schedule: seq<Io>)
    requires Exact(o) && o.job.Some? && o.pending == ""
    ensures Exact(Transfer(o, schedule).0)
    ensures var (r, done) := Transfer(o, schedule);
            done ==> OnlySent(o, r)
    decreases |schedule|
  {
    HandleCloseShuts(o);
    hide HandleClose, Exact, Shuts;
    var j := o.job.value;
    if j.sent < j.length && schedule != [] {
      match schedule[0] {
        case Wrote(n) =>
          var at := j.offset + j.sent;
          var left := if at < |j.file| then |j.file| - at else 0;
          var taken := Min(n, Min(j.length - j.sent, left));
          if taken > 0 {
            SentMore(o, taken);
            TransferKeepsExact(Sent(o, taken), schedule[1..]);
          }
        case Again =>
        case Interrupted => TransferKeepsExact(o, schedule[1..]);
        case Failed => ShutsKeepsExact(o, HandleClose(o));
      }
    }
  }

  lemma SentMore(o: Out, taken: nat)
    requires Exact(o) && o.job.Some? && o.pending == "" && taken > 0
    requires var j := o.job.value; j.sent + taken <= j.length && j.offset + j.sent + taken <= |j.file|
    ensures Exact(Sent(o, taken))
  {
    var j := o.job.value;
    var at := j.offset + j.sent;
    var chunk := j.file[at..at + taken];
    Extend(j.file, j.offset, at, taken);
    assert o.wire + o.pending == o.wire;
    Assoc(o.stream, Delivered(o.job), chunk);
    assert Delivered(Sent(o, taken).job) == Delivered(o.job) + chunk;
    assert Sent(o, taken).wire + "" == Sent(o, taken).wire;
  }

  lemma Extend(file: string, from: nat, at: nat, n: nat)
    requires from <= at && at + n <= |file|
    ensures file[from..at + n] == file[from..at] + file[at..at + n]
  {
  }

  lemma FinishKeepsExact(o: Out)
    requires Exact(o)
    ensures Exact(Completed(o)) && Completed(o).wire == o.wire && Completed(o).pending == o.pending
    ensures o.job.None? ==> Completed(o).job.None? && Completed(o).stream == o.stream
  {
    var modified := ModFd(o, false);
    var told := OnWriteComplete(modified);
    WriteCompleteShuts(modified);
    HandleCloseShuts(told);
    hide OnWriteComplete, HandleClose;
  }

  lemma HandleWriteKeepsExact(o: Out, schedule: seq<Io>)
    requires Exact(o)
    ensures Exact(HandleWrite(o, schedule))
  {
    hide Transfer, Drain, WritePending, Completed;
    if o.job.Some? {
      var (headers, goOn) := if o.pending != "" then WritePending(o, Next(schedule)) else (o, true);
      if o.pending != "" { WritePendingKeepsExact(o, Next(schedule)); }
      if goOn && headers.pending == "" && headers.job.Some? {
        var rest := if o.pending != "" then Rest(schedule) else schedule;
        TransferKeepsExact(headers, rest);
        var (moved, done) := Transfer(headers, rest);
        if done && moved.job.Some? {
          FinishKeepsExact(moved.(job := None, stream := moved.stream + Delivered(moved.job)));
        }
      }
    } else {
      DrainKeepsExact(o, schedule);
      FinishKeepsExact(Drain(o, schedule).0);
    }
  }

  /** No send is accepted while part of a file has gone out. */
  predicate Orderly(o: Out, step: Step) {
    step.DoSend? ==> Delivered(o.job) == "" || step.data == "" || !Accepts(o, step.io)
  }

  predicate OrderlyRun(o: Out, steps: seq<Step>)
    requires forall step <- steps :: Legal(step)
    decreases |steps|
  {
    steps != [] ==> Orderly(o, steps[0]) && OrderlyRun(Apply(o, steps[0]), steps[1..])
  }

  lemma StepKeepsExact(o: Out, step: Step)
    requires Exact(o) && Legal(step) && Orderly(o, step)
    ensures Exact(Apply(o, step))
  {
    hide HandleWrite, Close, HandleClose, Send;
    match step {
      case DoSend(data, io) =>
        SendKeepsExactIff(o, data, io);
        assert Delivered(o.job) == "" || data == "" ==> Delivered(o.job) + data == data + Delivered(o.job);
      case DoSendFile(file, fileSize, offset, length) => assert o.stream + "" == o.stream;
      case Writable(schedule) => HandleWriteKeepsExact(o, schedule);
      case DoClose => CloseShuts(o); ShutsKeepsExact(o, Close(o));
      case DoForceClose => HandleCloseShuts(o); ShutsKeepsExact(o, HandleClose(o));
      case PeerClosed => HandleCloseShuts(o); ShutsKeepsExact(o, HandleClose(o));
      case SetState(s) =>
      case SetKeepAlive(b) =>
    }
  }

  /** The byte stream over whole runs: whatever the kernel answers to each call, and wherever the
      connection closes, the wire followed by the buffer is exactly what was accepted, in order. */
  lemma {:induction false} RunKeepsExact(o: Out, steps: seq<Step>)
    requires Exact(o) && (forall step <- steps :: Legal(step)) && OrderlyRun(o, steps)
    ensures Exact(Run(o, steps))
    ensures o == FRESH && Run(o, steps).job.None? && Run(o, steps).pending == ""
            ==> Run(o, steps).wire == Run(o, steps).stream
    decreases |steps|
  {
    if steps != [] {
      StepKeepsExact(o, steps[0]);
      RunKeepsExact(Apply(o, steps[0]), steps[1..]);
    }
    var r := Run(o, steps);
    assert r.wire + "" == r.wire && r.stream + "" == r.stream;
  }

  // ---- a file, complete ----

  /** The kernel reports no error during a writability event. An interrupted sendfile is retried,
      an interrupted write is an error. */
  predicate NoError(o: Out, schedule: seq<Io>) {
    && Failed !in schedule
    && (o.job.None? ==> Interrupted !in schedule)
    && (o.pending != "" ==> Next(schedule) != Interrupted)
  }

  lemma {:induction false} TransferReaches(o: Out, schedule: seq<Io>)
    requires o.job.Some? && Failed !in schedule
    ensures OnlySent(o, Transfer(o, schedule).0) && Transfer(o, schedule).0.job.value.sent >= o.job.value.sent
    decreases |schedule|
  {
    var j := o.job.value;
    if j.sent < j.length && schedule != [] {
      match schedule[0] {
        case Wrote(n) =>
          var at := j.offset + j.sent;
          var left := if at < |j.file| then |j.file| - at else 0;
          var taken := Min(n, Min(j.length - j.sent, left));
          if taken > 0 { TransferReaches(Sent(o, taken), schedule[1..]); }
        case Again =>
        case Interrupted => TransferReaches(o, schedule[1..]);
        case Failed =>
      }
    }
  }

  /** Completion of a file response: when the file leaves the connection without an error, the wire
      holds everything accepted before it, followed by exactly the bytes asked for. Until then the
      connection stays as it was, apart from bytes moving out. */
  lemma FileCompletesExactly(o: Out, schedule: seq<Io>)
    requires Exact(o) && o.open && o.job.Some? && NoError(o, schedule)
    ensures var r, j := HandleWrite(o, schedule), o.job.value;
            && (r.job.None? ==>
                  && r.pending == ""
                  && r.wire == o.stream + Delivered(Some(j.(sent := j.length)))
                  && (j.length > 0 ==> j.offset + j.length <= |j.file|))
            && (r.job.Some? ==> OnlySent(o.(pending := r.pending), r) && r.job.value.sent >= j.sent)
  {
    hide Transfer, Completed, Exact;
    var first := if o.pending != "" then WritePending(o, Next(schedule)) else (o, true);
    var (headers, goOn) := first;
    if o.pending != "" { WritePendingKeepsExact(o, Next(schedule)); }
    assert headers == o.(wire := headers.wire, pending := headers.pending);
    if goOn && headers.pending == "" {
      var rest := if o.pending != "" then Rest(schedule) else schedule;
      TransferReaches(headers, rest);
      TransferKeepsExact(headers, rest);
      var (moved, done) := Transfer(headers, rest);
      if done && moved.job.value.sent >= o.job.value.length {
        AllSent(moved);
        FinishKeepsExact(moved.(job := None, stream := moved.stream + Delivered(moved.job)));
      }
    }
  }

  lemma AllSent(o: Out)
    requires Exact(o) && o.pending == "" && o.job.Some? && o.job.value.sent >= o.job.value.length
    ensures Exact(o.(job := None, stream := o.stream + Delivered(o.job)))
    ensures o.wire == o.stream + Delivered(Some(o.job.value.(sent := o.job.value.length)))
    ensures o.job.value.length > 0 ==> o.job.value.offset + o.job.value.length <= |o.job.value.file|
  {
  }

  // ---- an event writes all it can ----

  /** The bytes that writes in a row take, up to the first that takes none. */
  function Offered(schedule: seq<Io>): nat {
    if schedule == [] || !schedule[0].Wrote? || schedule[0].n == 0 then 0
    else schedule[0].n + Offered(schedule[1..])
  }

  /** The same for sendfile, which is tried again when it is interrupted. */
  function OfferedFile(schedule: seq<Io>): nat {
    if schedule == [] then 0
    else match schedule[0]
      case Wrote(n) => if n == 0 then 0 else n + OfferedFile(schedule[1..])
      case Interrupted => OfferedFile(schedule[1..])
      case _ => 0
  }

  lemma {:induction false} DrainTakesAll(o: Out, schedule: seq<Io>)
    requires o.open
    ensures |Drain(o, schedule).0.pending| == |o.pending| - Min(|o.pending|, Offered(schedule))
    decreases |o.pending|
  {
    HandleCloseShuts(o);
    hide HandleClose, Closings, Delivered;
    if o.pending != "" {
      var (next, goOn) := WritePending(o, Next(schedule));
      if goOn && |next.pending| < |o.pending| { DrainTakesAll(next, Rest(schedule)); }
    }
  }

  /** After a piece the same goes on with the rest. */
  lemma SentPiece(o: Out, n: nat)
    requires o.job.Some? && o.job.value.sent <= o.job.value.length && Min(n, InFile(o.job.value)) > 0
    ensures var j, taken := o.job.value, Min(n, InFile(o.job.value));
            && j.offset + j.sent + taken <= |j.file|
            && Sent(o, taken).job == Some(j.(sent := j.sent + taken)) && j.sent + taken <= j.length
            && InFile(j.(sent := j.sent + taken)) == InFile(j) - taken
  {
  }

  lemma {:induction false} TransferTakesAll(o: Out, schedule: seq<Io>)
    requires o.job.Some? && o.job.value.sent <= o.job.value.length
    ensures var r, j := Transfer(o, schedule).0, o.job.value;
            r.job.Some? ==> r.job.value.sent == j.sent + Min(InFile(j), OfferedFile(schedule))
    decreases |schedule|
  {
    HandleCloseShuts(o);
    hide HandleClose, Closings, Delivered, Sent;
    var j := o.job.value;
    if j.sent < j.length && schedule != [] {
      match schedule[0] {
        case Wrote(n) =>
          var taken := Min(n, InFile(j));
          if taken > 0 {
            SentPiece(o, n);
            TransferTakesAll(Sent(o, taken), schedule[1..]);
          }
        case Again =>
        case Interrupted => TransferTakesAll(o, schedule[1..]);
        case Failed =>
      }
    }
  }

  /** How much of what is due the file still holds. */
  function InFile(j: Job): nat
    requires j.sent <= j.length
  {
    var at := j.offset + j.sent;
    Min(j.length - j.sent, if at < |j.file| then |j.file| - at else 0)
  }

  /** One writability event writes until nothing is left or the kernel takes nothing more, as edge-triggered
      events demand: the buffer, where no file is queued, and else the file, once its header is out. */
  lemma WritesAllItCan(o: Out, schedule: seq<Io>)
    requires o.open
    ensures o.job.None? ==>
              |HandleWrite(o, schedule).pending| == |o.pending| - Min(|o.pending|, Offered(schedule))
    ensures o.job.Some? && o.pending == "" && o.job.value.sent <= o.job.value.length ==>
              var r, j := HandleWrite(o, schedule), o.job.value;
              r.job.Some? ==> r.job.value.sent == j.sent + Min(InFile(j), OfferedFile(schedule))
  {
    hide Transfer, Drain, Completed, Delivered;
    if o.job.None? {
      DrainTakesAll(o, schedule);
      var drained := Drain(o, schedule).0;
      CompletedKeepsPending(drained);
    } else if o.pending == "" && o.job.value.sent <= o.job.value.length {
      TransferTakesAll(o, schedule);
      TransferStops(o, schedule);
      var (moved, done) := Transfer(o, schedule);
      CompletedUnregisters(moved.(job := None, stream := moved.stream + Delivered(moved.job)));
    }
  }

  lemma CompletedKeepsPending(o: Out)
    ensures Completed(o).pending == o.pending
  {
    var modified := ModFd(o, false);
    WriteCompleteShuts(modified);
    HandleCloseShuts(OnWriteComplete(modified));
    hide OnWriteComplete, HandleClose;
  }

  // ---- a file, once queued ----

  lemma {:induction false} TransferKeepsJob(o: Out, schedule: seq<Io>)
    requires o.job.Some?
    ensures var r := Transfer(o, schedule).0; r.job.Some? ==> SameFile(o.job.value, r.job.value)
    decreases |schedule|
  {
    HandleCloseShuts(o);
    hide HandleClose, Closings, Delivered;
    var j := o.job.value;
    if j.sent < j.length && schedule != [] {
      match schedule[0] {
        case Wrote(n) =>
          var at := j.offset + j.sent;
          var left := if at < |j.file| then |j.file| - at else 0;
          var taken := Min(n, Min(j.length - j.sent, left));
          if taken > 0 { TransferKeepsJob(Sent(o, taken), schedule[1..]); }
        case Again =>
        case Interrupted => TransferKeepsJob(o, schedule[1..]);
        case Failed =>
      }
    }
  }

  /** The same part of the same file, and nothing of it taken back. */
  predicate SameFile(was: Job, now: Job) {
    now.file == was.file && now.offset == was.offset && now.length == was.length && now.sent >= was.sent
  }

  lemma HandleWriteKeepsJob(o: Out, schedule: seq<Io>)
    requires o.job.Some?
    ensures var r := HandleWrite(o, schedule); r.job.Some? ==> SameFile(o.job.value, r.job.value)
  {
    HandleCloseShuts(o);
    hide Transfer, Completed, HandleClose, Closings, Delivered;
    var (headers, goOn) := if o.pending != "" then WritePending(o, Next(schedule)) else (o, true);
    if goOn && headers.pending == "" {
      var rest := if o.pending != "" then Rest(schedule) else schedule;
      TransferKeepsJob(headers, rest);
      var (moved, done) := Transfer(headers, rest);
      CompletedUnregisters(moved.(job := None, pending := "", stream := moved.stream + Delivered(moved.job)));
      TransferStops(headers, rest);
    }
  }

  /** No step puts another file in the place of one that is queued, changes which part of it is due, or takes
      back what was sent. */
  lemma StepKeepsJob(o: Out, step: Step)
    requires Legal(step) && o.job.Some?
    ensures var r := Apply(o, step); r.job.Some? ==> SameFile(o.job.value, r.job.value)
  {
    HandleCloseShuts(o);
    CloseShuts(o);
    hide HandleWrite, Close, HandleClose, Closings, Delivered;
    match step {
      case Writable(schedule) => HandleWriteKeepsJob(o, schedule);
      case _ =>
    }
  }

  // ---- closing with output pending ----

  lemma {:induction false} DrainWithoutError(o: Out, schedule: seq<Io>)
    requires o.open && Failed !in schedule && Interrupted !in schedule
    ensures var r := Drain(o, schedule).0;
            && r == o.(wire := r.wire, pending := r.pending)
            && r.wire + r.pending == o.wire + o.pending
    ensures Drain(o, schedule).0.pending == "" ==> Drain(o, schedule).1
    decreases |o.pending|
  {
    if o.pending != "" {
      var (next, goOn) := WritePending(o, Next(schedule));
      if goOn {
        assert o.wire + o.pending == next.wire + next.pending by {
          var n := Min(Next(schedule).n, |o.pending|);
          assert o.wire + o.pending == o.wire + o.pending[..n] + o.pending[n..];
        }
        if |next.pending| < |o.pending| { DrainWithoutError(next, Rest(schedule)); }
      }
    }
  }

  /** The steps that are neither an error, nor the peer closing, nor a forced close, nor a new file. */
  predicate Undisturbed(step: Step) {
    match step
    case Writable(schedule) => Failed !in schedule && Interrupted !in schedule
    case DoSend(_, _) => true
    case DoClose => true
    case _ => false
  }

  /** A connection asked to close with output pending stays open until the buffer has drained. */
  lemma ClosingWaits(o: Out, step: Step)
    requires o.state == Closing && o.job.None? && (o.open <==> o.pending != "") && Undisturbed(step)
    ensures var r := Apply(o, step);
            && r.state == Closing && r.job.None? && (r.open <==> r.pending != "")
            && r.wire + r.pending == o.wire + o.pending && r.stream == o.stream
  {
    match step {
      case DoSend(data, io) =>
      case DoClose => CloseShuts(o);
      case Writable(schedule) =>
        if o.open {
          DrainWithoutError(o, schedule);
          var drained := Drain(o, schedule).0;
          if drained.pending == "" {
            var modified := ModFd(drained, false);
            WriteCompleteShuts(modified);
            HandleCloseShuts(OnWriteComplete(modified));
            HandleCloseIsFlat(OnWriteComplete(modified));
            assert HandleWrite(o, schedule) == HandleClose(OnWriteComplete(modified));
          }
        }
    }
  }

  /** And over any run: the connection closes exactly when the last byte is out, nothing is lost,
      and nothing sent after the close is let through. */
  lemma {:induction false} CloseAfterDrain(o: Out, steps: seq<Step>)
    requires o.open && o.job.None? && o.pending != ""
    requires forall step <- steps :: Legal(step) && Undisturbed(step)
    ensures var r := Run(Close(o), steps);
            && (r.open <==> r.pending != "") && r.wire + r.pending == o.wire + o.pending && r.stream == o.stream
  {
    CloseShuts(o);
    ClosingRun(Close(o), steps);
  }

  lemma {:induction false} ClosingRun(o: Out, steps: seq<Step>)
    requires o.state == Closing && o.job.None? && (o.open <==> o.pending != "")
    requires forall step <- steps :: Legal(step) && Undisturbed(step)
    ensures var r := Run(o, steps);
            && (r.open <==> r.pending != "") && r.wire + r.pending == o.wire + o.pending && r.stream == o.stream
    decreases |steps|
  {
    if steps != [] {
      ClosingWaits(o, steps[0]);
      ClosingRun(Apply(o, steps[0]), steps[1..]);
    }
  }

  // ---- no output is forgotten ----

  /** While output is due on an open connection its writability events are registered; the owner is
      told of a close once; and only a removed descriptor crashes the loop. */
  ghost predicate Sane(o: Out) {
    && (o.open && (o.pending != "" || o.job.Some?) ==> o.wantWrite)
    && (!o.open && !o.crashed ==> o.job.None?)
    && (o.crashed ==> !o.open)
    && Closings(o.events) == if o.open then 0 else 1
  }

  lemma ShutsKeepsSane(o: Out, r: Out)
    requires Sane(o) && Shuts(o, r) && (r.crashed ==> !r.open) && (o.crashed ==> r.crashed)
    ensures Sane(r)
  {
  }

  lemma CloseKeepsSane(o: Out)
    requires Sane(o)
    ensures Sane(HandleClose(o)) && Sane(Close(o)) && Sane(OnWriteComplete(o)) && Sane(o.(state := Closing))
    ensures !HandleClose(o).open
  {
    HandleCloseShuts(o);
    CloseShuts(o);
    WriteCompleteShuts(o);
    HandleCloseIsFlat(o);
    CloseIsFlat(o);
    CloseIsFlat(o.(events := o.events + [WriteComplete]));
    hide Close, HandleClose;
    ShutsKeepsSane(o, HandleClose(o));
    ShutsKeepsSane(o, Close(o));
    ShutsKeepsSane(o, OnWriteComplete(o));
  }

  lemma HandleCloseKeepsSane(o: Out)
    requires Sane(o)
    ensures Sane(HandleClose(o)) && !HandleClose(o).open && HandleClose(o).pending == o.pending
  {
    CloseKeepsSane(o);
    HandleCloseShuts(o);
    hide Close, HandleClose, OnWriteComplete;
  }

  lemma CompletedKeepsSane(o: Out)
    requires Sane(o) && o.pending == "" && o.job.None?
    ensures Sane(Completed(o))
  {
    hide Close, HandleClose, OnWriteComplete;
    var modified := ModFd(o, false);
    if o.open {
      CloseKeepsSane(modified);
      CloseKeepsSane(OnWriteComplete(modified));
    }
  }

  lemma WritePendingKeepsSane(o: Out, io: Io)
    requires Sane(o) && o.pending != ""
    ensures var (next, goOn) := WritePending(o, io);
            Sane(next) && |next.pending| <= |o.pending| && (goOn ==> next.open && next.job == o.job)
    ensures o.job.None? ==> WritePending(o, io).0.job.None?
  {
    HandleCloseKeepsSane(o);
    HandleCloseShuts(o);
    hide HandleClose, Closings;
  }

  lemma {:induction false} DrainKeepsSane(o: Out, schedule: seq<Io>)
    requires Sane(o) && o.job.None?
    ensures Sane(Drain(o, schedule).0) && Drain(o, schedule).0.job.None?
    decreases |o.pending|
  {
    hide WritePending, Sane;
    if o.pending != "" {
      WritePendingKeepsSane(o, Next(schedule));
      var (next, goOn) := WritePending(o, Next(schedule));
      if goOn && |next.pending| < |o.pending| { DrainKeepsSane(next, Rest(schedule)); }
    }
  }

  lemma {:induction false} TransferKeepsSane(o: Out, schedule: seq<Io>)
    requires Sane(o) && o.job.Some? && o.open
    ensures Sane(Transfer(o, schedule).0) && Transfer(o, schedule).0.pending == o.pending
    ensures Transfer(o, schedule).1 ==> Transfer(o, schedule).0.open && Transfer(o, schedule).0.job.Some?
    decreases |schedule|
  {
    hide HandleClose, Shuts, Sane, Sent;
    var j := o.job.value;
    if j.sent < j.length && schedule != [] {
      match schedule[0] {
        case Wrote(n) =>
          var at := j.offset + j.sent;
          var left := if at < |j.file| then |j.file| - at else 0;
          var taken := Min(n, Min(j.length - j.sent, left));
          if taken > 0 {
            SentSane(o, taken);
            TransferKeepsSane(Sent(o, taken), schedule[1..]);
          }
        case Again =>
        case Interrupted => TransferKeepsSane(o, schedule[1..]);
        case Failed =>
          HandleCloseKeepsSane(o);
      }
    }
  }

  lemma SentSane(o: Out, taken: nat)
    requires Sane(o) && o.job.Some? && o.job.value.offset + o.job.value.sent + taken <= |o.job.value.file|
    ensures var r := Sent(o, taken); Sane(r) && r.job.Some? && r.open == o.open && r.pending == o.pending
  {
  }

  lemma FileDoneKeepsSane(o: Out, stream: string)
    requires Sane(o) && o.pending == "" && o.open
    ensures Sane(Completed(o.(job := None, stream := stream)))
  {
    CompletedKeepsSane(o.(job := None, stream := stream));
  }

  lemma HandleWriteKeepsSane(o: Out, schedule: seq<Io>)
    requires Sane(o) && !o.crashed
    ensures Sane(HandleWrite(o, schedule))
  {
    hide Transfer, Drain, Completed, WritePending, Delivered, Closings;
    if o.job.Some? {
      var (headers, goOn) := if o.pending != "" then WritePending(o, Next(schedule)) else (o, true);
      if o.pending != "" { WritePendingKeepsSane(o, Next(schedule)); }
      hide Sane;
      if goOn && headers.pending == "" {
        var rest := if o.pending != "" then Rest(schedule) else schedule;
        TransferKeepsSane(headers, rest);
        var (moved, done) := Transfer(headers, rest);
        if done { FileDoneKeepsSane(moved, moved.stream + Delivered(moved.job)); }
      }
    } else {
      DrainKeepsSane(o, schedule);
      var drained := Drain(o, schedule).0;
      if drained.pending == "" { CompletedKeepsSane(drained); }
    }
  }

  /** Every step, in every state a run can reach. */
  lemma {:induction false} RunKeepsSane(o: Out, steps: seq<Step>)
    requires Sane(o) && (forall step <- steps :: Legal(step))
    ensures Sane(Run(o, steps))
    decreases |steps|
  {
    if steps != [] {
      StepKeepsSane(o, steps[0]);
      RunKeepsSane(Apply(o, steps[0]), steps[1..]);
    }
  }

  lemma BufferedKeepsSane(o: Out, data: string)
    requires Sane(o)
    ensures Sane(Buffered(o, data))
  {
  }

  lemma SendKeepsSane(o: Out, data: string, io: Io)
    requires Sane(o)
    ensures Sane(Send(o, data, io))
  {
    hide HandleClose, Closings, Buffered;
    HandleCloseKeepsSane(o);
    BufferedKeepsSane(o, data);
    if io.Wrote? {
      var n := Min(io.n, |data|);
      BufferedKeepsSane(o.(wire := o.wire + data[..n], stream := o.stream + data[..n]), data[n..]);
    }
  }

  lemma StepKeepsSane(o: Out, step: Step)
    requires Sane(o) && Legal(step)
    ensures Sane(Apply(o, step))
  {
    hide HandleWrite, Close, HandleClose, Send;
    match step {
      case DoSend(data, io) => SendKeepsSane(o, data, io);
      case Writable(schedule) => if !o.crashed { HandleWriteKeepsSane(o, schedule); }
      case DoForceClose => CloseKeepsSane(o);
      case DoClose => CloseKeepsSane(o);
      case PeerClosed => CloseKeepsSane(o);
      case DoSendFile(_, _, _, _) =>
      case SetState(_) =>
      case SetKeepAlive(_) =>
    }
  }

  // ---- no event is asked for in vain ----

  /** Writability events are registered only on an open connection with something to write. */
  predicate Registered(o: Out) {
    o.wantWrite ==> o.open && (o.pending != "" || o.job.Some?)
  }

  /** A close takes the registration back, and no other call inside it makes one. */
  lemma ClosedIsDeaf(o: Out)
    requires !o.open ==> !o.wantWrite
    ensures !HandleClose(o).wantWrite
    ensures !Close(o).open ==> !Close(o).wantWrite
    ensures !OnWriteComplete(o).open ==> !OnWriteComplete(o).wantWrite
  {
    HandleCloseIsFlat(o);
    CloseIsFlat(o);
    CloseIsFlat(o.(events := o.events + [WriteComplete]));
    hide HandleClose, Close;
  }

  lemma CompletedUnregisters(o: Out)
    requires o.pending == "" && o.job.None?
    ensures var r := Completed(o); r.pending == "" && r.job.None? && !(r.open && r.wantWrite)
    ensures (!o.open ==> !o.wantWrite) ==> !Completed(o).wantWrite
  {
    var modified := ModFd(o, false);
    var told := OnWriteComplete(modified);
    WriteCompleteShuts(modified);
    HandleCloseShuts(told);
    if !o.open ==> !o.wantWrite {
      ClosedIsDeaf(modified);
      ClosedIsDeaf(told);
    }
    hide OnWriteComplete, HandleClose, Closings;
  }

  lemma {:induction false} DrainStops(o: Out, schedule: seq<Io>)
    requires o.job.None?
    ensures var r := Drain(o, schedule).0; r.job.None? && (r.pending == "" ==> Drain(o, schedule).1 || !r.open)
    ensures (!o.open ==> !o.wantWrite) ==> (!Drain(o, schedule).0.open ==> !Drain(o, schedule).0.wantWrite)
    decreases |o.pending|
  {
    if o.pending != "" {
      HandleCloseShuts(o);
      if !o.open ==> !o.wantWrite { ClosedIsDeaf(o); }
      hide HandleClose, Closings, Delivered;
      var (next, goOn) := WritePending(o, Next(schedule));
      if goOn && |next.pending| < |o.pending| { DrainStops(next, Rest(schedule)); }
    }
  }

  lemma {:induction false} TransferStops(o: Out, schedule: seq<Io>)
    requires o.job.Some?
    ensures var r := Transfer(o, schedule).0; r.pending == o.pending && (r.job.Some? || !r.open)
    ensures (!o.open ==> !o.wantWrite) ==> (!Transfer(o, schedule).0.open ==> !Transfer(o, schedule).0.wantWrite)
    decreases |schedule|
  {
    HandleCloseShuts(o);
    if !o.open ==> !o.wantWrite { ClosedIsDeaf(o); }
    hide HandleClose, Closings, Delivered;
    var j := o.job.value;
    if j.sent < j.length && schedule != [] {
      match schedule[0] {
        case Wrote(n) =>
          var at := j.offset + j.sent;
          var left := if at < |j.file| then |j.file| - at else 0;
          var taken := Min(n, Min(j.length - j.sent, left));
          if taken > 0 { TransferStops(Sent(o, taken), schedule[1..]); }
        case Again =>
        case Interrupted => TransferStops(o, schedule[1..]);
        case Failed =>
      }
    }
  }

  lemma HandleWriteKeepsRegistered(o: Out, schedule: seq<Io>)
    requires Registered(o)
    ensures Registered(HandleWrite(o, schedule))
  {
    hide Transfer, Drain, Completed, Delivered, HandleClose;
    if o.job.Some? {
      HandleCloseShuts(o);
      ClosedIsDeaf(o);
      hide Shuts;
      var (headers, goOn) := if o.pending != "" then WritePending(o, Next(schedule)) else (o, true);
      if goOn && headers.pending == "" {
        var rest := if o.pending != "" then Rest(schedule) else schedule;
        TransferStops(headers, rest);
        var (moved, done) := Transfer(headers, rest);
        CompletedUnregisters(moved.(job := None, stream := moved.stream + Delivered(moved.job)));
      }
    } else {
      DrainStops(o, schedule);
      var drained := Drain(o, schedule).0;
      if drained.pending == "" { CompletedUnregisters(drained); }
    }
  }

  lemma StepKeepsRegistered(o: Out, step: Step)
    requires Registered(o) && Legal(step)
    ensures Registered(Apply(o, step))
  {
    hide HandleWrite, Close, HandleClose, Closings;
    HandleCloseShuts(o);
    ClosedIsDeaf(o);
    match step {
      case Writable(schedule) => if !o.crashed { HandleWriteKeepsRegistered(o, schedule); }
      case DoClose => CloseShuts(o);
      case DoSend(_, _) =>
      case DoSendFile(_, _, _, _) =>
      case DoForceClose =>
      case PeerClosed =>
      case SetState(_) =>
      case SetKeepAlive(_) =>
    }
  }

  /** In every state a run can reach: the loop does not wake up for a connection that has nothing to
      write. */
  lemma {:induction false} RunKeepsRegistered(o: Out, steps: seq<Step>)
    requires Registered(o) && (forall step <- steps :: Legal(step))
    ensures Registered(Run(o, steps))
    decreases |steps|
  {
    hide Registered;
    if steps != [] {
      StepKeepsRegistered(o, steps[0]);
      RunKeepsRegistered(Apply(o, steps[0]), steps[1..]);
    }
  }

  // ---- runs that show the limits ----

  lemma RunStep(o: Out, step: Step, steps: seq<Step>)
    requires Legal(step) && forall s <- steps :: Legal(s)
    ensures forall s <- [step] + steps :: Legal(s)
    ensures Run(o, [step] + steps) == Run(Apply(o, step), steps)
  {
    assert ([step] + steps)[1..] == steps;
    hide Apply;
  }

  /** A peer that hangs up in the middle of a download crashes the loop: the header is out, the file is
      not, and the connection is not kept alive. */
  lemma HangUpCrashes()
    ensures Run(FRESH, [DoSend("h", Wrote(1)), DoSendFile("f", 1, 0, 0), SetState(SendingResponse), PeerClosed]).crashed
  {
    var last := [SetState(SendingResponse)] + ([PeerClosed] + []);
    assert [DoSend("h", Wrote(1)), DoSendFile("f", 1, 0, 0), SetState(SendingResponse), PeerClosed]
        == [DoSend("h", Wrote(1))] + ([DoSendFile("f", 1, 0, 0)] + last);
    var sent := FRESH.(wire := "h", stream := "h");
    assert Apply(FRESH, DoSend("h", Wrote(1))) == sent by {
      assert "h"[..1] == "h" && "h"[1..] == "" && "" + "h" == "h" && "" + "" == "" && "h" + "" == "h";
    }
    var queued := sent.(job := Some(Job("f", 0, 1, 0)), wantWrite := true);
    var busy := queued.(state := SendingResponse);
    RunStep(busy, PeerClosed, []);
    RunStep(queued, SetState(SendingResponse), [PeerClosed] + []);
    RunStep(sent, DoSendFile("f", 1, 0, 0), last);
    RunStep(FRESH, DoSend("h", Wrote(1)), [DoSendFile("f", 1, 0, 0)] + last);
    CloseCrashesIff(busy);
  }

  /** A byte sent while a file of two is half out ends up between them. */
  lemma SendInsideFile()
    ensures var steps := [DoSendFile("ab", 2, 0, 0), Writable([Wrote(1)]), DoSend("x", Wrote(1)), Writable([Wrote(1)])];
            var o := Run(FRESH, steps);
            o.wire == "axb" && o.stream == "xab" && !Exact(o)
  {
    var steps := [DoSendFile("ab", 2, 0, 0), Writable([Wrote(1)]), DoSend("x", Wrote(1)), Writable([Wrote(1)])];
    var last := [DoSend("x", Wrote(1))] + ([Writable([Wrote(1)])] + []);
    assert steps == [DoSendFile("ab", 2, 0, 0)] + ([Writable([Wrote(1)])] + last);
    var queued := FRESH.(job := Some(Job("ab", 0, 2, 0)), wantWrite := true);
    var half := queued.(wire := "a", job := Some(Job("ab", 0, 2, 1)));
    var mixed := half.(wire := "ax", stream := "x");
    var done := Apply(mixed, Writable([Wrote(1)]));
    assert Apply(FRESH, DoSendFile("ab", 2, 0, 0)) == queued;
    assert Apply(queued, Writable([Wrote(1)])) == half by { OneByte(queued); }
    assert Apply(half, DoSend("x", Wrote(1))) == mixed by {
      assert "x"[..1] == "x" && "x"[1..] == "" && "" + "x" == "x" && "" + "" == "" && "x" + "" == "x";
    }
    assert done.wire == "axb" && done.stream == "xab" && done.pending == "" && done.job == None by { OneByte(mixed); }
    hide Apply, Exact;
    RunStep(mixed, Writable([Wrote(1)]), []);
    RunStep(half, DoSend("x", Wrote(1)), [Writable([Wrote(1)])] + []);
    RunStep(queued, Writable([Wrote(1)]), last);
    RunStep(FRESH, DoSendFile("ab", 2, 0, 0), [Writable([Wrote(1)])] + last);
    NotExact(done);
  }

  lemma NotExact(o: Out)
    requires o.wire == "axb" && o.stream == "xab" && o.pending == "" && o.job == None
    ensures !Exact(o)
  {
    assert "axb" + "" == "axb" && "xab" + "" == "xab";
    assert "axb"[0] != "xab"[0];
  }

  /** One byte of a file that is being sent from a connection in its first state. */
  lemma OneByte(o: Out)
    requires o.open && !o.crashed && o.pending == "" && o.state == ReadingRequest
    requires o.job.Some? && o.job.value.offset == 0
    requires o.job.value.sent < o.job.value.length == |o.job.value.file|
    ensures var r, j := HandleWrite(o, [Wrote(1)]), o.job.value;
            && r.wire == o.wire + j.file[j.sent..j.sent + 1] && r.pending == ""
            && if j.sent + 1 < j.length then r == o.(wire := r.wire, job := Some(j.(sent := j.sent + 1)))
               else r.job == None && r.stream == o.stream + j.file
  {
    var j := o.job.value;
    var moved := Sent(o, 1);
    assert [Wrote(1)][1..] == [];
    assert Transfer(moved, []) == (moved, j.sent + 1 >= j.length);
    assert Transfer(o, [Wrote(1)]) == Transfer(moved, []);
    assert j.sent + 1 == j.length ==> Delivered(moved.job) == j.file;
    hide Transfer;
  }
}
