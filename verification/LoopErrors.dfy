/** When a step of a connection throws out of the event loop, told from its state and the step alone. */
module LoopErrors {
  import opened Strings
  import opened OutputStream

  /** What becomes of a file in one event: it stays queued, it is done, or the connection is closed on it. */
  datatype Fate = Stays | Done | Broken

  /** The fate of a file whose header is out, by the answers of sendfile. */
  function SendFate(j: Job, schedule: seq<Io>): Fate
    decreases |schedule|
  {
    if j.sent >= j.length then Done
    else if schedule == [] then Stays
    else match schedule[0]
      case Wrote(n) =>
        var at := j.offset + j.sent;
        var taken := Min(n, Min(j.length - j.sent, if at < |j.file| then |j.file| - at else 0));
        if taken == 0 then Stays else SendFate(j.(sent := j.sent + taken), schedule[1..])
      case Again => Stays
      case Interrupted => SendFate(j, schedule[1..])
      case Failed => Broken
  }

  /** The first answer of the kernel takes the rest of the header, if there is one. */
  predicate HeaderLeaves(pending: string, schedule: seq<Io>) {
    pending == "" || (Next(schedule).Wrote? && Next(schedule).n >= |pending|)
  }

  function AfterHeader(pending: string, schedule: seq<Io>): seq<Io> {
    if pending == "" then schedule else Rest(schedule)
  }

  function WriteFate(o: Out, schedule: seq<Io>): Fate
    requires o.job.Some?
  {
    if HeaderLeaves(o.pending, schedule) then SendFate(o.job.value, AfterHeader(o.pending, schedule))
    else if Next(schedule).Wrote? || Next(schedule).Again? then Stays
    else Broken
  }

  /** A response that ends its connection. */
  predicate Last(o: Out) { o.state == SendingResponse && !o.keepAlive }

  predicate CloseThrows(o: Out) {
    o.open && o.job.Some? && Last(o) && o.pending == ""
  }

  predicate WriteThrows(o: Out, schedule: seq<Io>) {
    if o.job.Some? then
      Last(o) && HeaderLeaves(o.pending, schedule) && SendFate(o.job.value, AfterHeader(o.pending, schedule)) == Broken
    else !o.open && o.pending == ""
  }

  predicate SendThrows(o: Out, io: Io) {
    && o.state != Closing
    && if o.pending != "" then !o.open else (io.Interrupted? || io.Failed?) && CloseThrows(o)
  }

  /** What becomes of a queued file in one step. */
  function StepFate(o: Out, step: Step): Fate
    requires o.job.Some?
  {
    match step
    case Writable(schedule) => WriteFate(o, schedule)
    case DoSend(_, io) =>
      if o.state != Closing && o.pending == "" && (io.Interrupted? || io.Failed?) then Broken else Stays
    case DoClose => if o.pending == "" then Broken else Stays
    case DoForceClose => Broken
    case PeerClosed => Broken
    case _ => Stays
  }

  /** The step throws. */
  predicate Throws(o: Out, step: Step) {
    match step
    case DoSend(_, io) => SendThrows(o, io)
    case DoSendFile(_, _, _, _) => o.job.None? && !o.open
    case Writable(schedule) => WriteThrows(o, schedule)
    case DoClose => false
    case DoForceClose => CloseThrows(o)
    case PeerClosed => CloseThrows(o)
    case SetState(_) => false
    case SetKeepAlive(_) => false
  }

  lemma CompletedThrowsIff(o: Out)
    requires !o.crashed && o.job.None?
    ensures var r := Completed(o);
            && (r.crashed <==> !o.open) && r.job.None? && r.pending == o.pending
            && (o.open && o.pending == "" && Last(o) ==> !r.open)
  {
    var told := ModFd(o, false).(events := o.events + [WriteComplete]);
    CloseIsFlat(told);
    HandleCloseIsFlat(OnWriteComplete(ModFd(o, false)));
    hide HandleClose, Close;
  }

  /** What a completed write does to the connection. */
  lemma CompletedIs(o: Out)
    requires o.open && !o.crashed && o.job.None? && o.pending == ""
    ensures var r, told := Completed(o), o.events + [WriteComplete];
            && r.wire == o.wire && r.pending == "" && r.job.None? && !r.crashed && r.stream == o.stream
            && r.keepAlive == o.keepAlive && !r.wantWrite
            && (o.state == SendingResponse && o.keepAlive ==> r.open && r.state == ReadingRequest && r.events == told)
            && (Last(o) || o.state == Closing ==> !r.open && r.state == Closing && r.events == told + [Closed])
            && (o.state != SendingResponse && o.state != Closing ==> r.open && r.state == o.state && r.events == told)
  {
    var told := ModFd(o, false).(events := o.events + [WriteComplete]);
    assert o.stream + "" == o.stream;
    CloseIsFlat(told);
    HandleCloseIsFlat(OnWriteComplete(ModFd(o, false)));
    hide HandleClose, Close;
  }

  lemma SentFirst(o: Out, taken: nat, r: Out)
    requires o.job.Some? && o.job.value.offset + o.job.value.sent + taken <= |o.job.value.file|
    ensures var s := Sent(o, taken);
            && s == o.(wire := s.wire, job := Some(o.job.value.(sent := o.job.value.sent + taken)))
            && (Last(s) <==> Last(o)) && (OnlySent(s, r) ==> OnlySent(o, r))
  {
  }

  lemma BreakFacts(o: Out)
    requires o.open && !o.crashed && o.job.Some? && o.pending == ""
    ensures HandleClose(o).job.None? && (HandleClose(o).crashed <==> Last(o))
    ensures OnlySent(o, o)
  {
    CloseCrashesIff(o);
    HandleCloseShuts(o);
  }

  /** A transfer crashes exactly when it breaks and the response ends its connection. */
  lemma {:induction false} TransferFate(o: Out, schedule: seq<Io>)
    requires o.open && !o.crashed && o.job.Some? && o.pending == ""
    ensures var (r, done) := Transfer(o, schedule);
            && (if SendFate(o.job.value, schedule) == Broken then !done && r.job.None? && (r.crashed <==> Last(o))
                else OnlySent(o, r))
            && (SendFate(o.job.value, schedule) == Done <==>
                  done && r.job.Some? && r.job.value.sent >= r.job.value.length)
    decreases |schedule|
  {
    BreakFacts(o);
    hide HandleClose, Sent, OnlySent, Last;
    var j := o.job.value;
    if j.sent < j.length && schedule != [] {
      match schedule[0] {
        case Wrote(n) =>
          var at := j.offset + j.sent;
          var left := if at < |j.file| then |j.file| - at else 0;
          var taken := Min(n, Min(j.length - j.sent, left));
          if taken > 0 {
            SentFirst(o, taken, Transfer(o, schedule).0);
            TransferFate(Sent(o, taken), schedule[1..]);
          }
        case Again =>
        case Interrupted => TransferFate(o, schedule[1..]);
        case Failed =>
      }
    }
  }

  /** The fate of a file in a writability event, and whether the event throws. */
  lemma FileWriteFate(o: Out, schedule: seq<Io>)
    requires o.open && !o.crashed && o.job.Some?
    ensures var r := HandleWrite(o, schedule);
            && (r.job.Some? <==> WriteFate(o, schedule) == Stays)
            && (r.crashed <==> WriteThrows(o, schedule))
            && (WriteFate(o, schedule) == Done && Last(o) ==> !r.open)
  {
    CloseCrashesIff(o);
    HandleCloseShuts(o);
    hide Transfer, Completed, HandleClose, Closings, Delivered, SendFate;
    var (headers, goOn) := if o.pending != "" then WritePending(o, Next(schedule)) else (o, true);
    if goOn && headers.pending == "" {
      var rest := AfterHeader(o.pending, schedule);
      TransferFate(headers, rest);
      var (moved, done) := Transfer(headers, rest);
      if moved.job.Some? { CompletedThrowsIff(moved.(job := None, stream := moved.stream + Delivered(moved.job))); }
    }
  }

  lemma {:induction false} DrainIsQuiet(o: Out, schedule: seq<Io>)
    requires o.job.None? && !o.crashed
    ensures var (r, goOn) := Drain(o, schedule);
            !r.crashed && r.job.None? && (if goOn then r.open == o.open else r.pending != "")
            && (!o.open && o.pending != "" ==> !goOn) && (o.pending == "" ==> goOn && r == o)
    decreases |o.pending|
  {
    CloseCrashesIff(o);
    HandleCloseShuts(o);
    hide HandleClose, Closings, Delivered;
    if o.pending != "" {
      var (next, goOn) := WritePending(o, Next(schedule));
      if goOn && |next.pending| < |o.pending| { DrainIsQuiet(next, Rest(schedule)); }
    }
  }

  /** Exactly when a writability event throws: with a file, if its response ends the connection, the header
      is out or goes out whole, and sendfile fails before the file ends; without one, if the connection is
      closed and nothing is buffered. */
  lemma HandleWriteCrashesIff(o: Out, schedule: seq<Io>)
    requires !o.crashed && (o.job.Some? ==> o.open)
    ensures HandleWrite(o, schedule).crashed <==> WriteThrows(o, schedule)
  {
    hide Transfer, Drain, Completed, WritePending, Closings, Delivered;
    if o.job.Some? {
      FileWriteFate(o, schedule);
    } else {
      DrainIsQuiet(o, schedule);
      var (drained, goOn) := Drain(o, schedule);
      CompletedThrowsIff(drained);
    }
  }

  /** Exactly which steps throw. */
  lemma StepThrowsIff(o: Out, step: Step)
    requires !o.crashed && (o.job.Some? ==> o.open) && Legal(step)
    ensures Apply(o, step).crashed <==> Throws(o, step)
  {
    CloseCrashesIff(o);
    CloseCrashesIff(o.(state := Closing));
    CloseIsFlat(o);
    HandleCloseIsFlat(o.(state := Closing));
    hide HandleWrite, HandleClose, Close, HandleCloseFlat, Closings, WriteThrows;
    match step {
      case Writable(schedule) => HandleWriteCrashesIff(o, schedule);
      case DoSend(_, _) =>
      case DoSendFile(_, _, _, _) =>
      case DoClose =>
      case DoForceClose =>
      case PeerClosed =>
      case SetState(_) =>
      case SetKeepAlive(_) =>
    }
  }

  lemma RunPrefix(o: Out, steps: seq<Step>, i: nat)
    requires i <= |steps| && forall step <- steps :: Legal(step)
    ensures Run(o, steps[..i]) == if i == 0 then o else Run(Apply(o, steps[0]), steps[1..][..i - 1])
  {
    hide Apply;
    if i > 0 { assert steps[..i][1..] == steps[1..][..i - 1]; }
  }

  lemma {:induction false} CrashedStays(o: Out, steps: seq<Step>)
    requires o.crashed && forall step <- steps :: Legal(step)
    ensures Run(o, steps) == o
    decreases |steps|
  {
    if steps != [] { CrashedStays(o, steps[1..]); }
  }

  /** A file stays queued exactly as told from the state and the step. */
  lemma FileStepFate(o: Out, step: Step)
    requires o.open && !o.crashed && o.job.Some? && Legal(step)
    ensures Apply(o, step).job.Some? <==> StepFate(o, step) == Stays
  {
    HandleCloseShuts(o);
    CloseIsFlat(o);
    hide HandleWrite, HandleClose, Close, Closings, WriteFate;
    match step {
      case Writable(schedule) => FileWriteFate(o, schedule);
      case DoSend(_, _) =>
      case DoSendFile(_, _, _, _) =>
      case DoClose =>
      case DoForceClose =>
      case PeerClosed =>
      case SetState(_) =>
      case SetKeepAlive(_) =>
    }
  }

  lemma FilesAreOpen(o: Out)
    requires Sane(o) && !o.crashed && o.job.Some?
    ensures o.open
  {
  }

  /** And exactly which runs. */
  lemma {:induction false} RunThrowsIff(o: Out, steps: seq<Step>)
    requires Sane(o) && !o.crashed && forall step <- steps :: Legal(step)
    ensures Run(o, steps).crashed <==> exists i :: 0 <= i < |steps| && Throws(Run(o, steps[..i]), steps[i])
    decreases |steps|
  {
    if o.job.Some? { FilesAreOpen(o); }
    hide Apply, Sane, Throws;
    if steps != [] {
      var next, rest := Apply(o, steps[0]), steps[1..];
      StepThrowsIff(o, steps[0]);
      StepKeepsSane(o, steps[0]);
      RunPrefix(o, steps, 0);
      if next.crashed {
        CrashedStays(next, rest);
        assert Throws(Run(o, steps[..0]), steps[0]);
      } else {
        RunThrowsIff(next, rest);
        forall i | 1 <= i < |steps| ensures Run(o, steps[..i]) == Run(next, rest[..i - 1]) && steps[i] == rest[i - 1] {
          RunPrefix(o, steps, i);
        }
        if i :| 0 <= i < |rest| && Throws(Run(next, rest[..i]), rest[i]) {
          assert Throws(Run(o, steps[..i + 1]), steps[i + 1]);
        }
      }
    }
  }

  /** An event that brings the end of the stream and writability at once, to a connection that waits for
      both: it is handled as a close and then as a write, and throws exactly if nothing is buffered. */
  lemma HangUpEventThrowsIff(o: Out, schedule: seq<Io>)
    requires Sane(o) && Registered(o) && o.open && o.wantWrite
    ensures Apply(Apply(o, PeerClosed), Writable(schedule)).crashed <==> o.pending == ""
  {
    CloseCrashesIff(o);
    CloseKeepsSane(o);
    HandleCloseShuts(o);
    hide HandleClose, Closings, HandleWrite, Close, OnWriteComplete;
    if !HandleClose(o).crashed { HandleWriteCrashesIff(HandleClose(o), schedule); }
  }

  /** A peer that hangs up while a file is queued, on a connection in its first state: the close goes well,
      and the writability that comes with it throws. */
  lemma HangUpEventCrashes()
    ensures var steps := [DoSendFile("f", 1, 0, 0), PeerClosed, Writable([])];
            !Run(FRESH, steps[..2]).crashed && Run(FRESH, steps).crashed
  {
    var steps := [DoSendFile("f", 1, 0, 0), PeerClosed, Writable([])];
    var queued := Apply(FRESH, steps[0]);
    assert steps[..2] == [steps[0]] + ([PeerClosed] + []);
    assert steps == [steps[0]] + ([PeerClosed] + ([Writable([])] + []));
    CloseCrashesIff(queued);
    HangUpEventThrowsIff(queued, []);
    hide Apply;
    RunStep(Apply(queued, PeerClosed), Writable([]), []);
    RunStep(queued, PeerClosed, [Writable([])] + []);
    RunStep(queued, PeerClosed, []);
    RunStep(FRESH, steps[0], [PeerClosed] + ([Writable([])] + []));
    RunStep(FRESH, steps[0], [PeerClosed] + []);
  }
}
