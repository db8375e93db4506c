/** How a download request is reported complete, and what the accounts make of it: from the response
    through the life of the connection to the counters. */
module DownloadReports {
  import opened Strings
  import opened LoopErrors
  import opened OutputStream
  import opened HttpServer
  import opened ByteRange
  import opened Headers
  import D = Downloads
  import R = HttpResponse

  /** How often a write was reported complete. */
  function Reports(events: seq<Event>): nat {
    if events == [] then 0
    else Reports(events[..|events| - 1]) + if events[|events| - 1] == WriteComplete then 1 else 0
  }

  lemma ReportsAppend(events: seq<Event>, e: Event)
    ensures Reports(events + [e]) == Reports(events) + if e == WriteComplete then 1 else 0
  {
    assert (events + [e])[..|events|] == events;
  }

  /** What can still happen to a connection whose request has been answered: it becomes writable, if it
      asked for that, or somebody closes it. An event that brings an end of stream and writability at once
      goes on to the second after the first has closed the connection. */
  predicate Deliverable(o: Out, step: Step) {
    match step
    case Writable(_) => o.open ==> o.wantWrite
    case PeerClosed => true
    case DoClose => true
    case DoForceClose => true
    case _ => false
  }

  predicate DeliverableRun(o: Out, steps: seq<Step>): (ok: bool)
    ensures ok ==> forall step <- steps :: Legal(step)
    decreases |steps|
  {
    steps != [] ==>
      && Deliverable(o, steps[0]) && DeliverableRun(Apply(o, steps[0]), steps[1..])
      && (assert steps == [steps[0]] + steps[1..]; true)
  }

  // ---- nothing more to report ----

  predicate Settled(o: Out) {
    o.job.None? && (o.open && !o.crashed ==> o.pending == "" && !o.wantWrite)
  }

  lemma SettledStays(o: Out, step: Step)
    requires Settled(o) && Deliverable(o, step)
    ensures var r := Apply(o, step);
            Settled(r) && r.pending == o.pending && Reports(r.events) == Reports(o.events)
  {
    ReportsAppend(o.events, Closed);
    HandleCloseIsFlat(o);
    CloseIsFlat(o);
    if step.Writable? && !o.open { ClosedWritable(o, step.schedule); }
    hide HandleClose, Close, HandleWrite, Reports;
  }

  lemma ClosedWritable(o: Out, schedule: seq<Io>)
    requires !o.open && o.job.None?
    ensures var r := HandleWrite(o, schedule); r == o || r == o.(crashed := true)
  {
  }

  lemma {:induction false} SettledRun(o: Out, steps: seq<Step>)
    requires Settled(o) && DeliverableRun(o, steps)
    ensures var r := Run(o, steps);
            r.job.None? && r.pending == o.pending && Reports(r.events) == Reports(o.events)
    decreases |steps|
  {
    hide Apply, Settled;
    if steps != [] {
      SettledStays(o, steps[0]);
      SettledRun(Apply(o, steps[0]), steps[1..]);
    } else {
      SettledHasNoFile(o);
    }
  }

  lemma SettledHasNoFile(o: Out)
    requires Settled(o)
    ensures o.job.None?
  {
  }

  // ---- a file ----

  /** The end of a file response: it is reported once, or, if that crashes the loop, twice. */
  ghost predicate Ended(o: Out, r: Out) {
    Settled(r) && Reports(r.events) == Reports(o.events) + if r.crashed then 2 else 1
  }

  /** The file is still on its way. */
  ghost predicate Underway(o: Out, r: Out) {
    r.job.Some? && r.open && !r.crashed && Reports(r.events) == Reports(o.events)
  }

  lemma CutOff(o: Out)
    requires o.open && o.job.Some? && !o.crashed
    ensures Ended(o, HandleClose(o)) && !HandleClose(o).open
  {
    HandleCloseIsFlat(o);
    ReportsAppend(o.events, WriteComplete);
    ReportsAppend(o.events + [WriteComplete], WriteComplete);
    ReportsAppend(o.events + [WriteComplete], Closed);
    ReportsAppend(o.events + [WriteComplete] + [WriteComplete], Closed);
    hide HandleClose, Reports, Delivered;
  }

  lemma {:induction false} TransferReports(o: Out, schedule: seq<Io>)
    requires o.open && o.job.Some? && !o.crashed
    ensures var (r, done) := Transfer(o, schedule);
            && (if r.job.Some? then Underway(o, r) else Ended(o, r))
            && (done ==> r.job.Some?)
    decreases |schedule|
  {
    hide HandleClose, Reports, Settled;
    var j := o.job.value;
    if j.sent < j.length && schedule != [] {
      match schedule[0] {
        case Wrote(n) =>
          var at := j.offset + j.sent;
          var left := if at < |j.file| then |j.file| - at else 0;
          var taken := Min(n, Min(j.length - j.sent, left));
          if taken > 0 { TransferReports(Sent(o, taken), schedule[1..]); }
        case Again =>
        case Interrupted => TransferReports(o, schedule[1..]);
        case Failed =>
          CutOff(o);
          SettledHasNoFile(HandleClose(o));
      }
    }
  }

  /** The report of a write that has come to its end. */
  lemma CompletedReports(o: Out)
    requires o.open && !o.crashed && o.job.None? && o.pending == ""
    ensures var r := Completed(o);
            && Settled(r) && !r.crashed && r.pending == ""
            && Reports(r.events) == Reports(o.events) + 1
  {
    var modified := ModFd(o, false);
    var told := modified.(events := o.events + [WriteComplete]);
    ReportsAppend(o.events, WriteComplete);
    ReportsAppend(told.events, Closed);
    CloseIsFlat(told);
    HandleCloseIsFlat(told.(state := Closing));
    HandleCloseIsFlat(OnWriteComplete(modified));
    hide HandleClose, Close, Reports, Delivered;
  }

  lemma FileEventReports(o: Out, schedule: seq<Io>)
    requires o.open && o.job.Some? && !o.crashed
    ensures var r := HandleWrite(o, schedule); if r.job.Some? then Underway(o, r) else Ended(o, r)
  {
    hide Transfer, Completed, Reports, HandleClose, Delivered;
    var (headers, goOn) := if o.pending != "" then WritePending(o, Next(schedule)) else (o, true);
    if goOn && headers.pending == "" {
      var rest := if o.pending != "" then Rest(schedule) else schedule;
      TransferReports(headers, rest);
      TransferStops(headers, rest);
      var (moved, done) := Transfer(headers, rest);
      if done && moved.job.value.sent >= moved.job.value.length {
        CompletedReports(moved.(job := None, stream := moved.stream + Delivered(moved.job)));
      }
    } else {
      CutOff(o);
    }
  }

  lemma FileStepReports(o: Out, step: Step)
    requires o.open && o.job.Some? && !o.crashed && Deliverable(o, step)
    ensures var r := Apply(o, step); if r.job.Some? then Underway(o, r) else Ended(o, r)
  {
    hide HandleWrite, Close, HandleClose, Reports, Settled;
    CutOff(o);
    CutOff(o.(state := Closing));
    CloseIsFlat(o);
    HandleCloseIsFlat(o.(state := Closing));
    SettledHasNoFile(HandleClose(o));
    SettledHasNoFile(HandleClose(o.(state := Closing)));
    match step {
      case Writable(schedule) => FileEventReports(o, schedule);
      case DoClose =>
      case DoForceClose =>
      case PeerClosed =>
    }
  }

  /** The step that ends the file throws, told from the state it finds and the step. */
  predicate EndThrows(o: Out, steps: seq<Step>)
    requires DeliverableRun(o, steps)
    decreases |steps|
  {
    && steps != [] && o.job.Some?
    && if StepFate(o, steps[0]) == Stays then EndThrows(Apply(o, steps[0]), steps[1..]) else Throws(o, steps[0])
  }

  /** Over the rest of a connection's life: a file response is reported complete not at all while it is
      under way, and then exactly once, be it complete or cut off; twice if cutting it off throws. */
  lemma {:induction false} FileReports(o: Out, steps: seq<Step>)
    requires o.open && o.job.Some? && !o.crashed && DeliverableRun(o, steps)
    ensures var r := Run(o, steps);
            Reports(r.events) == Reports(o.events) + if r.job.Some? then 0 else if EndThrows(o, steps) then 2 else 1
    decreases |steps|
  {
    hide Apply, Reports, Settled, StepFate, Throws;
    if steps != [] {
      var next := Apply(o, steps[0]);
      FileStepReports(o, steps[0]);
      FileStepFate(o, steps[0]);
      StepThrowsIff(o, steps[0]);
      if next.job.Some? {
        FileReports(next, steps[1..]);
      } else {
        SettledRun(next, steps[1..]);
      }
    }
  }

  // ---- an answer without a file ----

  /** Bytes of the answer are still in the buffer. */
  predicate Waiting(o: Out) { o.open && o.job.None? && !o.crashed && o.pending != "" }

  lemma {:induction false} DrainReports(o: Out, schedule: seq<Io>)
    requires Waiting(o)
    ensures var (r, goOn) := Drain(o, schedule);
            && r.job.None? && !r.crashed && Reports(r.events) == Reports(o.events)
            && (goOn ==> r.open) && (!goOn ==> r.pending != "")
    decreases |o.pending|
  {
    HandleCloseIsFlat(o);
    ReportsAppend(o.events, Closed);
    hide HandleClose, Reports, Delivered;
    var (next, goOn) := WritePending(o, Next(schedule));
    if goOn && |next.pending| < |o.pending| && next.pending != "" { DrainReports(next, Rest(schedule)); }
  }

  lemma AnswerStepReports(o: Out, step: Step)
    requires Waiting(o) && Deliverable(o, step)
    ensures var r := Apply(o, step);
            && (Waiting(r) || Settled(r)) && !r.crashed
            && Reports(r.events) == Reports(o.events) + if r.pending == "" then 1 else 0
  {
    HandleCloseIsFlat(o);
    ReportsAppend(o.events, Closed);
    hide HandleClose, Reports, Delivered, Drain, Completed;
    match step {
      case Writable(schedule) =>
        DrainReports(o, schedule);
        var (drained, goOn) := Drain(o, schedule);
        if goOn && drained.pending == "" { CompletedReports(drained); }
      case DoClose =>
      case DoForceClose =>
      case PeerClosed =>
    }
  }

  /** Over the rest of a connection's life: an answer without a file is reported complete once if it had
      to be buffered and the buffer drains, and else never. */
  lemma {:induction false} AnswerReports(o: Out, steps: seq<Step>)
    requires Waiting(o) && DeliverableRun(o, steps)
    ensures var r := Run(o, steps);
            Reports(r.events) == Reports(o.events) + if r.pending == "" then 1 else 0
    decreases |steps|
  {
    hide Apply, Reports, Settled;
    if steps != [] {
      var next := Apply(o, steps[0]);
      AnswerStepReports(o, steps[0]);
      if next.pending != "" && Waiting(next) {
        AnswerReports(next, steps[1..]);
      } else {
        SettledRun(next, steps[1..]);
      }
    }
  }

  // ---- a request, from its response on ----

  lemma {:induction false} CrashedRun(o: Out, steps: seq<Step>)
    requires o.crashed && DeliverableRun(o, steps)
    ensures Run(o, steps) == o
    decreases |steps|
  {
    if steps != [] { CrashedRun(o, steps[1..]); }
  }

  /** A connection between two requests. */
  predicate Between(o: Out) {
    o.open && !o.crashed && o.state != Closing && o.pending == "" && o.job.None? && !o.wantWrite
  }

  lemma HeadSent(o: Out, text: string, file: string, fileSize: nat, offset: nat, length: nat, io: Io, steps: seq<Step>)
    requires Between(o) && (length == 0 ==> offset <= fileSize)
    requires DeliverableRun(HeadThenFile(o, text, file, fileSize, offset, length, io), steps)
    ensures var start := HeadThenFile(o, text, file, fileSize, offset, length, io);
            var r := Run(start, steps);
            Reports(r.events) == Reports(o.events) + if r.job.Some? then 0 else if EndThrows(start, steps) then 2 else 1
  {
    var start := HeadThenFile(o, text, file, fileSize, offset, length, io);
    HandleCloseIsFlat(o);
    ReportsAppend(o.events, Closed);
    hide HandleClose, Reports, Delivered;
    assert start.job.Some? && Reports(start.events) == Reports(o.events) && (start.crashed || start.open);
    hide HeadThenFile, HandleCloseFlat, Between;
    if start.crashed {
      CrashedRun(start, steps);
    } else {
      FileReports(start, steps);
    }
  }

  lemma AnswerSent(o: Out, text: string, keepAlive: bool, io: Io, steps: seq<Step>)
    requires Between(o) && DeliverableRun(Reply(o, text, keepAlive, io), steps)
    ensures var start := Reply(o, text, keepAlive, io);
            var r := Run(start, steps);
            Reports(r.events) == Reports(o.events) + if start.pending != "" && r.pending == "" then 1 else 0
  {
    var start := Reply(o, text, keepAlive, io);
    ReplyState(o, text, keepAlive, io);
    hide Reply, Reports, Settled, Waiting, Between;
    if start.pending != "" {
      AnswerReports(start, steps);
    } else {
      SettledRun(start, steps);
    }
  }

  lemma ReplyState(o: Out, text: string, keepAlive: bool, io: Io)
    requires Between(o)
    ensures var start := Reply(o, text, keepAlive, io);
            && Reports(start.events) == Reports(o.events)
            && (if start.pending != "" then Waiting(start) else Settled(start))
  {
    HandleCloseIsFlat(o);
    ReportsAppend(o.events, Closed);
    var sent := Send(o, text, io);
    CloseIsFlat(sent);
    hide HandleClose, Close, Reports, Delivered;
  }

  /** How often the writes of one request are reported complete, over the whole life of its connection
      after the answer. With a file: not while it is under way, and then once, complete or cut off, or
      twice if cutting it off throws. Without one: once if the answer had to be buffered and the
      buffer drains, and else never. */
  lemma RequestReports(o: Out, whole: R.Response, range: Parsed, keepAlive: bool, stat: Option<nat>,
                       file: Option<string>, io: Io, steps: seq<Step>)
    requires Between(o) && DeliverableRun(Processed(o, whole, range, keepAlive, stat, file, io), steps)
    ensures var start := Processed(o, whole, range, keepAlive, stat, file, io);
            var r := Run(start, steps);
            Reports(r.events)
            == Reports(o.events)
               + if WithFile(range, stat, file)
                 then (if r.job.Some? then 0 else if EndThrows(start, steps) then 2 else 1)
                 else if start.pending != "" && r.pending == "" then 1 else 0
  {
    hide R.Text, PartialHead, Get, HeadThenFile, Reply, Resolve, Refusal, Gone, Between, Reports, Run, DeliverableRun,
         EndThrows;
    if stat.None? {
      AnswerSent(o, R.Text(whole), keepAlive, io, steps);
    } else if file.None? {
      AnswerSent(o, R.Text(Gone()), keepAlive, io, steps);
    } else {
      var fileSize := stat.value;
      PartialBounds(range, fileSize);
      match Resolve(range, fileSize) {
        case NotSatisfiable => AnswerSent(o, R.Text(Refusal(fileSize)), keepAlive, io, steps);
        case Partial(a, b) =>
          var head := PartialHead(Get(whole.headers, "Content-Type"), a, b, fileSize);
          HeadSent(o, R.Text(head), file.value, fileSize, a, b - a + 1, io, steps);
        case Whole => HeadSent(o, R.Text(whole), file.value, fileSize, 0, 0, io, steps);
      }
    }
  }

  // ---- what the accounts make of it ----

  /** However often a download is reported complete, it is counted once; without a report it stays. */
  lemma CountedOnce(a: D.Accounts, fd: int, size: nat, n: nat)
    ensures var admitted := D.Admit(a, fd, size);
            D.Run(admitted, D.Repeat(D.WriteComplete(fd), n)) == if n == 0 then admitted else D.Complete(admitted, fd)
  {
    var admitted := D.Admit(a, fd, size);
    if n > 0 {
      assert D.Repeat(D.WriteComplete(fd), n)[1..] == D.Repeat(D.WriteComplete(fd), n - 1);
      NotCountedAgain(D.Complete(admitted, fd), fd, n - 1);
    }
  }

  lemma {:induction false} NotCountedAgain(a: D.Accounts, fd: int, n: nat)
    requires fd !in a.sizes
    ensures D.Run(a, D.Repeat(D.WriteComplete(fd), n)) == a
    decreases n
  {
    if n > 0 {
      assert D.Repeat(D.WriteComplete(fd), n)[1..] == D.Repeat(D.WriteComplete(fd), n - 1);
      NotCountedAgain(a, fd, n - 1);
    }
  }

  /** Which admitted downloads are counted as finished, with the full size stored for them: those whose file
      has left the connection, complete or not, and those answered without a file (refused, or vanished since
      they were looked up) with an answer that was buffered and drained. An answer without a file that the
      kernel takes at once is never counted. */
  lemma CountedIff(a: D.Accounts, fd: int, size: nat, o: Out, whole: R.Response, range: Parsed, keepAlive: bool,
                   stat: Option<nat>, file: Option<string>, io: Io, steps: seq<Step>)
    requires Between(o) && DeliverableRun(Processed(o, whole, range, keepAlive, stat, file, io), steps)
    ensures var start := Processed(o, whole, range, keepAlive, stat, file, io);
            var r := Run(start, steps);
            var n := Reports(r.events) - Reports(o.events);
            && n >= 0
            && var admitted := D.Admit(a, fd, size);
               var after := D.Run(admitted, D.Repeat(D.WriteComplete(fd), n));
               && (after.files > a.files
                   <==> if WithFile(range, stat, file) then r.job.None? else start.pending != "" && r.pending == "")
               && after == if after.files > a.files then D.Complete(admitted, fd) else admitted
  {
    RequestReports(o, whole, range, keepAlive, stat, file, io, steps);
    hide Processed, Run, DeliverableRun, Reports, WithFile, Between;
    var n := Reports(Run(Processed(o, whole, range, keepAlive, stat, file, io), steps).events) - Reports(o.events);
    CountedOnce(a, fd, size, n);
  }

  /** The refusal of downloads that can really occur: after as many refused downloads as the limit allows,
      on connections of their own, no further one is admitted, whatever else happens, until a write
      completes on one of these descriptors. */
  lemma RefusalsFillServer(fds: seq<int>, size: nat, events: seq<D.Event>)
    requires fds != [] && forall i, j :: 0 <= i < j < |fds| ==> fds[i] != fds[j]
    requires forall e <- events :: e.WriteComplete? ==> e.fd !in fds
    ensures var full := D.Run(D.NoDownloads(|fds|), D.DownloadsOn(fds, size));
            && full.active == |full.sizes| == |fds| && full.files == 0
            && D.Run(full, events) == full && D.Count(full, events).admitted == 0
  {
    var full := D.Run(D.NoDownloads(|fds|), D.DownloadsOn(fds, size));
    D.FilledBy(D.NoDownloads(|fds|), fds, size);
    DistinctCount(fds);
    hide D.Run, D.Count;
    D.StaysFull(full, events);
  }

  lemma {:induction false} DistinctCount(fds: seq<int>)
    requires forall i, j :: 0 <= i < j < |fds| ==> fds[i] != fds[j]
    ensures |set fd | fd in fds| == |fds|
  {
    if fds != [] {
      DistinctCount(fds[1..]);
      assert fds == [fds[0]] + fds[1..];
      assert (set fd | fd in fds) == (set fd | fd in fds[1..]) + {fds[0]};
    }
  }
}
