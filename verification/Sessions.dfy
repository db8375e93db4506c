/** The meaning of the server: the descriptors with an open connection, each with the ticks its connection
    may still stay silent, and what any sequence of events makes of them. Nothing here knows about
    connections, tables or wheels. */
module Sessions {
  import Countdown

  /** What the event loop reports: a new descriptor on the listening socket, data on a descriptor, the end
      of its stream or an error there, and the timer. */
  datatype Event = Accepting(fd: int) | Readable(fd: int) | Ending(fd: int) | TimerTick

  /** The ticks of silence, of one second each, after which a connection is closed. */
  const SILENCE: nat := 60

  ghost function Respond(left: map<int, nat>, event: Event): map<int, nat> {
    match event
    case Accepting(fd) => if fd >= 0 && fd !in left then left[fd := SILENCE] else left
    case Readable(fd) => if fd in left then left[fd := SILENCE] else left
    case Ending(fd) => left - {fd}
    case TimerTick => Countdown.Step(left, Countdown.Tick)
  }

  ghost function Serve(left: map<int, nat>, events: seq<Event>): map<int, nat> {
    if events == [] then left else Respond(Serve(left, events[..|events| - 1]), events[|events| - 1])
  }

  ghost function Ticks(events: seq<Event>): nat {
    if events == [] then 0 else Ticks(events[..|events| - 1]) + if events[|events| - 1] == TimerTick then 1 else 0
  }

  /** The event starts the 60 seconds of a descriptor: it opens the connection there, or brings it data. */
  ghost predicate Starts(left: map<int, nat>, event: Event, fd: int) {
    (event == Accepting(fd) && fd >= 0 && fd !in left) || (event == Readable(fd) && fd in left)
  }

  /** Neither data nor an end on this descriptor. */
  ghost predicate Quiet(events: seq<Event>, fd: int) {
    Readable(fd) !in events && Ending(fd) !in events
  }

  /** `events[s]` starts the seconds of the descriptor, and what follows ends them in no way. */
  ghost predicate LastsFrom(left: map<int, nat>, events: seq<Event>, fd: int, s: nat)
    requires s < |events|
  {
    && Starts(Serve(left, events[..s]), events[s], fd)
    && Quiet(events[s + 1..], fd) && Ticks(events[s + 1..]) < SILENCE
  }

  lemma {:induction false} ServeConcat(left: map<int, nat>, a: seq<Event>, b: seq<Event>)
    ensures Serve(left, a + b) == Serve(Serve(left, a), b)
  {
    hide Respond;
    if b == [] {
      assert a + b == a;
    } else {
      assert (a + b)[..|a + b| - 1] == a + b[..|b| - 1];
      ServeConcat(left, a, b[..|b| - 1]);
    }
  }

  /** While a descriptor is quiet its connection loses one tick per tick. */
  lemma {:induction false} QuietFor(left: map<int, nat>, events: seq<Event>, fd: int)
    requires fd in left && Quiet(events, fd)
    requires Ticks(events) < left[fd]
    ensures fd in Serve(left, events) && Serve(left, events)[fd] == left[fd] - Ticks(events)
  {
    if events != [] {
      QuietFor(left, events[..|events| - 1], fd);
    }
  }

  lemma NoEvents(fd: int)
    ensures Quiet([], fd) && Ticks([]) == 0
  {
  }

  lemma OneMore(events: seq<Event>, event: Event, fd: int)
    ensures Quiet(events + [event], fd) <==> Quiet(events, fd) && event != Readable(fd) && event != Ending(fd)
    ensures Ticks(events + [event]) == Ticks(events) + if event == TimerTick then 1 else 0
  {
    assert (events + [event])[..|events|] == events;
  }

  /** A connection that is open still began somewhere, and has been open ever since. */
  lemma {:induction false} OpenSince(left: map<int, nat>, events: seq<Event>, fd: int) returns (s: int)
    requires fd in Serve(left, events)
    ensures -1 <= s < |events| && Quiet(events[s + 1..], fd)
    ensures if s == -1 then fd in left else Starts(Serve(left, events[..s]), events[s], fd)
    ensures var from := if s == -1 then left[fd] else SILENCE;
            var ticks := Ticks(events[s + 1..]);
            (ticks == 0 || ticks < from) && Serve(left, events)[fd] == from - ticks
  {
    hide Quiet, Ticks;
    s := |events| - 1;
    if events == [] || Starts(Serve(left, events[..s]), events[s], fd) {
      assert events[s + 1..] == [];
      NoEvents(fd);
    } else {
      var front, last := events[..s], events[s];
      s := OpenSince(left, front, fd);
      OneMore(front[s + 1..], last, fd);
      assert events[s + 1..] == front[s + 1..] + [last];
      assert s >= 0 ==> front[..s] == events[..s];
    }
  }

  lemma {:induction false} LastsToTheEnd(left: map<int, nat>, events: seq<Event>, fd: int, s: nat)
    requires s < |events| && LastsFrom(left, events, fd, s)
    ensures fd in Serve(left, events)
  {
    hide Ticks, Quiet;
    assert events[..s + 1][..s] == events[..s];
    QuietFor(Serve(left, events[..s + 1]), events[s + 1..], fd);
    ServeConcat(left, events[..s + 1], events[s + 1..]);
    assert events[..s + 1] + events[s + 1..] == events;
  }

  /** Exactly the descriptors that are open after any events: those whose connection was accepted or last
      had data fewer than 60 ticks ago and has not ended since, and those open all along whose ticks have
      not run out in silence. */
  lemma {:induction false} OpenIff(left: map<int, nat>, events: seq<Event>, fd: int)
    requires forall d <- left :: left[d] >= 1
    ensures fd in Serve(left, events)
            <==> || (fd in left && Quiet(events, fd) && Ticks(events) < left[fd])
                 || exists s :: 0 <= s < |events| && LastsFrom(left, events, fd, s)
  {
    hide Respond, Serve, Ticks, Quiet, Starts;
    if fd in Serve(left, events) {
      var s := OpenSince(left, events, fd);
      if s >= 0 { assert LastsFrom(left, events, fd, s); } else { assert events[0..] == events; }
    }
    if fd in left && Quiet(events, fd) && Ticks(events) < left[fd] {
      QuietFor(left, events, fd);
    }
    forall s | 0 <= s < |events| && LastsFrom(left, events, fd, s) ensures fd in Serve(left, events) {
      LastsToTheEnd(left, events, fd, s);
    }
  }

  /** The same for all descriptors at once. */
  lemma OpenExactly(left: map<int, nat>, events: seq<Event>)
    requires forall d <- left :: left[d] >= 1
    ensures forall fd :: fd in Serve(left, events)
              <==> || (fd in left && Quiet(events, fd) && Ticks(events) < left[fd])
                   || exists s :: 0 <= s < |events| && LastsFrom(left, events, fd, s)
  {
    hide *;
    forall fd: int {
      OpenIff(left, events, fd);
    }
  }

  lemma ServeOneMore(left: map<int, nat>, events: seq<Event>, event: Event)
    ensures Serve(left, []) == left
    ensures Serve(left, events + [event]) == Respond(Serve(left, events), event)
  {
    assert (events + [event])[..|events|] == events;
  }
}
