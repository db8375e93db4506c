/** A download and the idle timer: writing a file does not count as activity, so the timer cuts off every
    download that takes longer than the time a connection may stay silent. */
module IdleDownload {
  import opened FileRun
  import opened LoopErrors
  import opened OutputStream
  import opened Strings
  import S = Sessions

  /** What the loop does next: an event of the server, or writability of one connection. */
  datatype Moment = Loop(event: S.Event) | Writes(schedule: seq<Io>)

  /** The output side of the connection on a descriptor, and the ticks left to all descriptors. */
  datatype View = View(o: Out, left: map<int, nat>)

  /** A connection that the server drops is closed, by the timer or by its peer; one that closes itself is
      dropped by the server. Writability comes only where it is waited for. */
  ghost function Follow(v: View, fd: int, moment: Moment): View {
    match moment
    case Loop(event) =>
      var left := S.Respond(v.left, event);
      if fd !in v.left || fd in left then v.(left := left)
      else View(Apply(v.o, if event == S.TimerTick then DoForceClose else PeerClosed), left)
    case Writes(schedule) =>
      if !v.o.open || !v.o.wantWrite then v
      else
        var o := Apply(v.o, Writable(schedule));
        View(o, if o.open then v.left else v.left - {fd})
  }

  ghost function FollowAll(v: View, fd: int, moments: seq<Moment>): View
    decreases |moments|
  {
    if moments == [] then v else FollowAll(Follow(v, fd, moments[0]), fd, moments[1..])
  }

  function Ticks(moments: seq<Moment>): nat {
    if moments == [] then 0 else (if moments[0] == Loop(S.TimerTick) then 1 else 0) + Ticks(moments[1..])
  }

  /** Nothing comes in on this descriptor, and no write fails. Other descriptors may do anything. */
  predicate Quiet(moment: Moment, fd: int) {
    match moment
    case Loop(event) => event == S.TimerTick || event.fd != fd
    case Writes(schedule) => Failed !in schedule && Interrupted !in schedule
  }

  predicate Silent(moments: seq<Moment>, fd: int) {
    forall m <- moments :: Quiet(m, fd)
  }

  /** The file is under way, and so many ticks are left; or it is done, and the connection closed. */
  ghost predicate Busy(v: View, fd: int, n: int) {
    && v.o.open && !v.o.crashed && v.o.job.Some? && Last(v.o) && Exact(v.o) && Sane(v.o)
    && fd in v.left && v.left[fd] == n
  }

  ghost predicate Over(v: View, fd: int) {
    !v.o.open && !v.o.crashed && v.o.job.None? && fd !in v.left
  }

  lemma {:induction false} NeverBroken(j: Job, schedule: seq<Io>)
    requires Failed !in schedule
    ensures SendFate(j, schedule) != Broken
    decreases |schedule|
  {
    if j.sent < j.length && schedule != [] {
      match schedule[0] {
        case Wrote(n) =>
          var at := j.offset + j.sent;
          var taken := Min(n, Min(j.length - j.sent, if at < |j.file| then |j.file| - at else 0));
          NeverBroken(j.(sent := j.sent + taken), schedule[1..]);
        case Interrupted => NeverBroken(j, schedule[1..]);
        case Again =>
        case Failed =>
      }
    }
  }

  /** A write that does not fail leaves the file under way, or completes it and closes the connection. */
  lemma BusyWrites(o: Out, schedule: seq<Io>)
    requires o.open && !o.crashed && o.job.Some? && Last(o) && Exact(o) && Sane(o)
    requires Failed !in schedule && Interrupted !in schedule
    ensures var r := HandleWrite(o, schedule);
            && !r.crashed
            && if r.job.Some? then r.open && Last(r) && Exact(r) && Sane(r) else !r.open
  {
    FileWriteFate(o, schedule);
    FileCompletesExactly(o, schedule);
    HandleWriteKeepsExact(o, schedule);
    HandleWriteKeepsSane(o, schedule);
    NeverBroken(o.job.value, AfterHeader(o.pending, schedule));
    hide HandleWrite, Exact, Sane, SendFate, Delivered;
  }

  lemma BusyStep(v: View, fd: int, n: nat, moment: Moment)
    requires Busy(v, fd, n) && Quiet(moment, fd)
    requires moment == Loop(S.TimerTick) ==> n > 1
    ensures var r := Follow(v, fd, moment);
            Over(r, fd) || Busy(r, fd, n - Ticks([moment]))
  {
    hide HandleWrite, Exact;
    assert [moment][1..] == [];
    match moment {
      case Loop(event) =>
      case Writes(schedule) => BusyWrites(v.o, schedule);
    }
  }

  lemma OverStep(v: View, fd: int, moment: Moment)
    requires Over(v, fd) && Quiet(moment, fd)
    ensures Over(Follow(v, fd, moment), fd)
  {
  }

  lemma {:induction false} OverRun(v: View, fd: int, moments: seq<Moment>)
    requires Over(v, fd) && Silent(moments, fd)
    ensures Over(FollowAll(v, fd, moments), fd)
    decreases |moments|
  {
    hide Follow, Over, Quiet;
    if moments != [] {
      OverStep(v, fd, moments[0]);
      OverRun(Follow(v, fd, moments[0]), fd, moments[1..]);
    }
  }

  lemma {:induction false} BusyRun(v: View, fd: int, n: nat, moments: seq<Moment>)
    requires Busy(v, fd, n) && Silent(moments, fd) && Ticks(moments) < n
    ensures var r := FollowAll(v, fd, moments);
            Over(r, fd) || Busy(r, fd, n - Ticks(moments))
    decreases |moments|
  {
    hide Follow, Over, Busy, Quiet;
    if moments != [] {
      assert [moments[0]][1..] == [];
      BusyStep(v, fd, n, moments[0]);
      var next := Follow(v, fd, moments[0]);
      if Over(next, fd) {
        OverRun(next, fd, moments[1..]);
      } else {
        BusyRun(next, fd, n - Ticks([moments[0]]), moments[1..]);
      }
    }
  }

  /** A response with a file that ends its connection, begun when its request came in. If the peer sends
      nothing more and no write fails, nothing throws before the 60th tick. That tick closes the connection if
      the file is still under way then, and throws out of the loop exactly if the header is out. */
  lemma LongDownloadThrowsIff(o: Out, left: map<int, nat>, fd: int, moments: seq<Moment>)
    requires o.open && !o.crashed && o.job.Some? && Last(o) && Exact(o) && Sane(o)
    requires fd in left && left[fd] == S.SILENCE
    requires Silent(moments, fd) && Ticks(moments) == 59
    ensures var v := FollowAll(View(o, left), fd, moments);
            var r := Follow(v, fd, Loop(S.TimerTick));
            && !v.o.crashed && (v.o.open <==> v.o.job.Some?)
            && !r.o.open && fd !in r.left
            && (r.o.crashed <==> v.o.job.Some? && v.o.pending == "")
  {
    BusyRun(View(o, left), fd, 60, moments);
    var v := FollowAll(View(o, left), fd, moments);
    hide FollowAll, Exact, Apply;
    StepThrowsIff(v.o, DoForceClose);
    if v.o.open { ForceCloseCloses(v.o); }
  }

  lemma ForceCloseCloses(o: Out)
    requires !o.crashed
    ensures !Apply(o, DoForceClose).open
  {
    HandleCloseShuts(o);
    hide HandleClose, Closings;
  }

  function WritesIn(moments: seq<Moment>): nat {
    if moments == [] then 0 else (if moments[0].Writes? then 1 else 0) + WritesIn(moments[1..])
  }

  /** The kernel takes at least a byte in every writability event. */
  predicate AllTake(moments: seq<Moment>) {
    forall m <- moments :: m.Writes? ==> Takes(m.schedule)
  }

  lemma WriteNearsEnd(v: View, fd: int, n: int, schedule: seq<Io>)
    requires Busy(v, fd, n) && LongEnough(v.o.job.value) && Quiet(Writes(schedule), fd) && Takes(schedule)
    ensures var r := Follow(v, fd, Writes(schedule)).o;
            r.job.Some? ==> Left(r) < Left(v.o) && LongEnough(r.job.value)
  {
    FileProgress(v.o, schedule);
    FileCompletesExactly(v.o, schedule);
    hide HandleWrite, Exact, Delivered;
  }

  lemma LeftIsNatural(v: View, fd: int, n: int)
    requires Busy(v, fd, n)
    ensures Left(v.o) >= 0
  {
    SentIsDue(v.o);
  }

  lemma {:induction false} FinishesFrom(v: View, fd: int, n: int, moments: seq<Moment>)
    requires Busy(v, fd, n) && LongEnough(v.o.job.value)
    requires Silent(moments, fd) && AllTake(moments) && Ticks(moments) < n && WritesIn(moments) > Left(v.o)
    ensures Over(FollowAll(v, fd, moments), fd)
    decreases |moments|
  {
    LeftIsNatural(v, fd, n);
    var m := moments[0];
    assert [m][1..] == [];
    BusyStep(v, fd, n, m);
    var next := Follow(v, fd, m);
    if m.Writes? { WriteNearsEnd(v, fd, n, m.schedule); } else { EventKeepsFile(v, fd, n, m); }
    hide Follow, Quiet, LongEnough, Exact, Sane;
    if Over(next, fd) {
      OverRun(next, fd, moments[1..]);
    } else {
      FinishesFrom(next, fd, n - Ticks([m]), moments[1..]);
    }
  }

  lemma EventKeepsFile(v: View, fd: int, n: int, m: Moment)
    requires Busy(v, fd, n) && Quiet(m, fd) && m.Loop? && (m == Loop(S.TimerTick) ==> n > 1)
    ensures Follow(v, fd, m).o == v.o
  {
  }

  /** A download that is faster: with as many writability events as there are bytes to send, and one, before the
      60th tick, each taking a byte, it is done by then, its connection closed, and the tick does nothing to it. */
  lemma FastDownloadEnds(o: Out, left: map<int, nat>, fd: int, moments: seq<Moment>)
    requires o.open && !o.crashed && o.job.Some? && Last(o) && Exact(o) && Sane(o) && LongEnough(o.job.value)
    requires fd in left && left[fd] == S.SILENCE
    requires Silent(moments, fd) && AllTake(moments) && Ticks(moments) < 60 && WritesIn(moments) > Left(o)
    ensures var v := FollowAll(View(o, left), fd, moments);
            && !v.o.open && v.o.job.None? && !v.o.crashed && fd !in v.left
            && Follow(v, fd, Loop(S.TimerTick)).o == v.o
  {
    FinishesFrom(View(o, left), fd, 60, moments);
    hide FollowAll, Exact, Sane, LongEnough, Apply;
  }

  function Seconds(n: nat): (moments: seq<Moment>)
    ensures |moments| == n && forall m <- moments :: m == Loop(S.TimerTick)
  {
    seq(n, _ => Loop(S.TimerTick))
  }

  lemma {:induction false} WaitingRun(v: View, fd: int, n: nat)
    requires fd in v.left && v.left[fd] > n
    ensures Ticks(Seconds(n)) == n && FollowAll(v, fd, Seconds(n)).o == v.o
    decreases n
  {
    if n > 0 {
      assert Seconds(n)[1..] == Seconds(n - 1);
      var next := Follow(v, fd, Loop(S.TimerTick));
      assert next.o == v.o && fd in next.left && next.left[fd] == v.left[fd] - 1;
      hide Follow, Seconds;
      WaitingRun(next, fd, n - 1);
    }
  }

  /** A client that takes the header and then nothing for a minute: the 60th second throws. */
  lemma SlowClientCrashes(o: Out, fd: int)
    requires o == FRESH.(wire := "h", stream := "h", state := SendingResponse, wantWrite := true,
                         job := Some(Job("f", 0, 1, 0)))
    ensures var v := FollowAll(View(o, map[fd := S.SILENCE]), fd, Seconds(59));
            !v.o.crashed && Follow(v, fd, Loop(S.TimerTick)).o.crashed
  {
    assert Exact(o) by { assert "h" + "" == "h"; }
    assert Sane(o);
    WaitingRun(View(o, map[fd := S.SILENCE]), fd, 59);
    hide Follow, FollowAll, Exact, Sane, Seconds;
    LongDownloadThrowsIff(o, map[fd := S.SILENCE], fd, Seconds(59));
  }
}
