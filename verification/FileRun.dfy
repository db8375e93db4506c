/** A file on its way out, over any number of writability events. */
module FileRun {
  import opened LoopErrors
  import opened OutputStream
  import opened Strings

  /** A run of writability events. */
  function WriteAll(o: Out, schedules: seq<seq<Io>>): Out
    decreases |schedules|
  {
    if schedules == [] then o else WriteAll(Apply(o, Writable(schedules[0])), schedules[1..])
  }

  predicate ErrorFree(schedules: seq<seq<Io>>) {
    forall i :: 0 <= i < |schedules| ==> Failed !in schedules[i] && Interrupted !in schedules[i]
  }

  lemma NothingMoreWritten(o: Out, schedules: seq<seq<Io>>)
    requires Exact(o) && o.job.None? && o.pending == ""
    ensures WriteAll(o, schedules).wire == o.wire && WriteAll(o, schedules).job.None?
    decreases |schedules|
  {
    hide Completed, Exact;
    if schedules != [] {
      FinishKeepsExact(o);
      NothingMoreWritten(Apply(o, Writable(schedules[0])), schedules[1..]);
    }
  }

  /** However the kernel splits the writes: once no file is left to send, the wire holds what was
      accepted before, followed by the part of the file that was due, all of it and nothing else. */
  lemma {:induction false} FileRunCompletes(o: Out, schedules: seq<seq<Io>>)
    requires Exact(o) && !o.crashed && o.open && o.job.Some? && ErrorFree(schedules)
    ensures var r, j := WriteAll(o, schedules), o.job.value;
            r.job.None? ==>
              && r.wire == o.stream + Delivered(Some(j.(sent := j.length)))
              && (j.length > 0 ==> j.offset + j.length <= |j.file|)
    decreases |schedules|
  {
    hide HandleWrite, Exact, Delivered;
    if schedules != [] {
      var next := HandleWrite(o, schedules[0]);
      FileCompletesExactly(o, schedules[0]);
      HandleWriteKeepsExact(o, schedules[0]);
      if next.job.None? {
        NothingMoreWritten(next, schedules[1..]);
      } else {
        FileRunCompletes(next, schedules[1..]);
      }
    }
  }

  // ---- the connection, while the file is under way and afterwards ----

  /** While the file is under way nothing but bytes moves. */
  lemma {:induction false} FileUnderWay(o: Out, schedules: seq<seq<Io>>)
    requires Exact(o) && !o.crashed && o.open && o.job.Some? && ErrorFree(schedules)
    requires WriteAll(o, schedules).job.Some?
    ensures var r := WriteAll(o, schedules);
            && Exact(r) && r.open && !r.crashed && r.events == o.events
            && r.state == o.state && r.keepAlive == o.keepAlive && r.stream == o.stream
    decreases |schedules|
  {
    hide HandleWrite, Exact, Delivered;
    if schedules != [] {
      var next := HandleWrite(o, schedules[0]);
      FileCompletesExactly(o, schedules[0]);
      HandleWriteKeepsExact(o, schedules[0]);
      if next.job.None? {
        NothingMoreWritten(next, schedules[1..]);
      } else {
        FileUnderWay(next, schedules[1..]);
      }
    }
  }

  /** The event in which the file leaves tells the owner once. A response that ends its connection closes it,
      and that is reported once; with keep-alive the connection waits for the next request. */
  lemma FileLeaves(o: Out, schedule: seq<Io>)
    requires Exact(o) && o.open && !o.crashed && o.job.Some? && o.state == SendingResponse && NoError(o, schedule)
    requires HandleWrite(o, schedule).job.None?
    ensures var r, told := HandleWrite(o, schedule), o.events + [WriteComplete];
            && !r.crashed && r.pending == "" && !r.wantWrite && r.keepAlive == o.keepAlive
            && if o.keepAlive then r.open && r.state == ReadingRequest && r.events == told
               else !r.open && r.state == Closing && r.events == told + [Closed]
  {
    hide Transfer, Completed, Exact, HandleClose;
    var first := if o.pending != "" then WritePending(o, Next(schedule)) else (o, true);
    var (headers, goOn) := first;
    var rest := if o.pending != "" then Rest(schedule) else schedule;
    TransferReaches(headers, rest);
    var (moved, done) := Transfer(headers, rest);
    CompletedIs(moved.(job := None, stream := moved.stream + Delivered(moved.job)));
  }

  // ---- progress ----

  /** What is still to be written: the buffer, and the rest of the file. */
  function Left(o: Out): int
    requires o.job.Some?
  {
    |o.pending| + o.job.value.length - o.job.value.sent
  }

  /** The kernel takes at least a byte. */
  predicate Takes(schedule: seq<Io>) {
    schedule != [] && schedule[0].Wrote? && schedule[0].n > 0
  }

  predicate LongEnough(j: Job) { j.offset + j.length <= |j.file| }

  lemma TransferMoves(o: Out, schedule: seq<Io>)
    requires o.job.Some? && Failed !in schedule && Takes(schedule)
    requires o.job.value.sent < o.job.value.length && LongEnough(o.job.value)
    ensures Transfer(o, schedule).0.job.Some? && Transfer(o, schedule).0.job.value.sent > o.job.value.sent
  {
    var j := o.job.value;
    var taken := Min(schedule[0].n, j.length - j.sent);
    TransferReaches(Sent(o, taken), schedule[1..]);
  }

  /** Each error-free event in which the kernel takes something brings the file nearer to its end. */
  lemma FileProgress(o: Out, schedule: seq<Io>)
    requires Exact(o) && o.open && o.job.Some? && LongEnough(o.job.value) && NoError(o, schedule) && Takes(schedule)
    ensures var r := HandleWrite(o, schedule); r.job.Some? ==> Left(r) < Left(o)
  {
    hide Transfer, Completed, Exact, HandleClose;
    var first := if o.pending != "" then WritePending(o, Next(schedule)) else (o, true);
    var (headers, goOn) := first;
    assert goOn && headers.job == o.job && |headers.pending| <= |o.pending|;
    assert o.pending != "" ==> |headers.pending| < |o.pending|;
    if headers.pending == "" {
      var rest := if o.pending != "" then Rest(schedule) else schedule;
      TransferReaches(headers, rest);
      var (moved, done) := Transfer(headers, rest);
      CompletedHasNoFile(moved);
      if o.pending == "" {
        if o.job.value.sent < o.job.value.length {
          TransferMoves(o, schedule);
        } else {
          NothingToTransfer(o, schedule);
        }
      }
    }
  }

  lemma NothingToTransfer(o: Out, schedule: seq<Io>)
    requires o.job.Some? && o.job.value.sent >= o.job.value.length
    ensures Transfer(o, schedule) == (o, true)
  {
  }

  lemma CompletedHasNoFile(o: Out)
    requires o.job.Some?
    ensures Completed(o.(job := None, stream := o.stream + Delivered(o.job))).job.None?
  {
    var done := o.(job := None, stream := o.stream + Delivered(o.job));
    WriteCompleteShuts(ModFd(done, false));
    HandleCloseShuts(OnWriteComplete(ModFd(done, false)));
    hide OnWriteComplete, HandleClose;
  }

  predicate Productive(schedules: seq<seq<Io>>) {
    ErrorFree(schedules) && forall i :: 0 <= i < |schedules| ==> Takes(schedules[i])
  }

  /** So the file does leave: at the latest after as many such events as there are bytes left, and one. */
  lemma {:induction false} FileFinishes(o: Out, schedules: seq<seq<Io>>)
    requires Exact(o) && !o.crashed && o.open && o.job.Some? && LongEnough(o.job.value)
    requires Productive(schedules) && |schedules| > Left(o)
    ensures WriteAll(o, schedules).job.None?
    decreases |schedules|
  {
    hide HandleWrite, Exact, Delivered;
    assert Left(o) >= 0 by { SentIsDue(o); }
    var next := HandleWrite(o, schedules[0]);
    FileCompletesExactly(o, schedules[0]);
    HandleWriteKeepsExact(o, schedules[0]);
    FileProgress(o, schedules[0]);
    if next.job.None? {
      NothingMoreWritten(next, schedules[1..]);
    } else {
      FileFinishes(next, schedules[1..]);
    }
  }

  lemma SentIsDue(o: Out)
    requires Exact(o) && o.job.Some?
    ensures o.job.value.sent <= o.job.value.length
  {
  }

  // ---- a file that has become shorter ----

  /** A file that does not hold what is due never completes, and its connection stays open and keeps
      waiting for writability, as long as no error ends it. */
  lemma {:induction false} ShortFileNeverCompletes(o: Out, schedules: seq<seq<Io>>)
    requires Exact(o) && Sane(o) && !o.crashed && o.open && o.job.Some? && ErrorFree(schedules)
    requires o.job.value.length > 0 && !LongEnough(o.job.value)
    ensures var r := WriteAll(o, schedules);
            && r.job.Some? && r.open && r.wantWrite && !r.crashed
            && r.state == o.state && r.keepAlive == o.keepAlive && r.events == o.events
    decreases |schedules|
  {
    hide HandleWrite, Exact, Delivered, Closings;
    if schedules != [] {
      FileCompletesExactly(o, schedules[0]);
      HandleWriteKeepsExact(o, schedules[0]);
      HandleWriteKeepsSane(o, schedules[0]);
      ShortFileNeverCompletes(HandleWrite(o, schedules[0]), schedules[1..]);
    }
  }

  /** Once all that the file holds is out, a writability event changes nothing. Edge-triggered, none comes
      any more and the connection hangs; level-triggered, the same event comes for ever. */
  lemma ShortFileStandsStill(o: Out, schedule: seq<Io>)
    requires o.open && o.job.Some? && o.pending == "" && Failed !in schedule && Interrupted !in schedule
    requires var j := o.job.value; j.sent < j.length && j.offset + j.sent >= |j.file|
    ensures HandleWrite(o, schedule) == o
  {
    hide HandleClose;
  }

  /** So only a close ends such a response, and that close throws, by the peer or by the timer, exactly if
      the header is out. */
  lemma ShortFileEndsInThrow(o: Out, schedules: seq<seq<Io>>)
    requires Exact(o) && Sane(o) && !o.crashed && o.open && o.job.Some? && Last(o) && ErrorFree(schedules)
    requires o.job.value.length > 0 && !LongEnough(o.job.value)
    ensures var r := WriteAll(o, schedules);
            && (Apply(r, PeerClosed).crashed <==> r.pending == "")
            && (Apply(r, DoForceClose).crashed <==> r.pending == "")
  {
    ShortFileNeverCompletes(o, schedules);
    hide WriteAll, Exact, Sane, Apply;
    var r := WriteAll(o, schedules);
    StepThrowsIff(r, PeerClosed);
    StepThrowsIff(r, DoForceClose);
  }
}
