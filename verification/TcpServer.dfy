/** The idle-timeout protocol: which wheel entry belongs to which connection, from accept to close. */
module TcpServer {
  import Countdown
  import opened Sessions
  import opened TimeWheel

  /** The wheel of the event loop: 60 buckets, one second each. */
  const BUCKETS := 60
  const TICK_SECONDS := 1.0
  /** The idle timeout given to every accepted connection. */
  const IDLE_SECONDS := 60.0

  function IdleTicks(): nat {
    TicksFor(IDLE_SECONDS, TICK_SECONDS, BUCKETS)
  }

  /** Sixty seconds are exactly one revolution, so a fresh entry lands in the current bucket. */
  lemma IdleTicksIsARevolution(cursor: int)
    requires 0 <= cursor < BUCKETS
    ensures IdleTicks() == 60
    ensures (cursor + IdleTicks()) % BUCKETS == cursor
  {
  }

  /** Over a whole history of the countdown: a connection whose latest accept or data event is
      operation `s` is force-closed by operation `i` if and only if that is the 60th tick after it. */
  lemma {:induction false} ClosedAtSixtiethTick<K>(idle: map<K, nat>, ops: seq<Countdown.Op<K>>, c: K, s: nat, i: nat)
    requires s < i < |ops| && ops[s] == Countdown.Set(c, IdleTicks())
    requires Countdown.Untouched(ops[s + 1..], c)
    ensures Countdown.FiresAt(idle, ops, c, i)
            <==> ops[i] == Countdown.Tick && Countdown.Ticks(ops[s + 1..i]) == 59
  {
    IdleTicksIsARevolution(0);
    Countdown.FiresAtTickAfterSet(idle, ops, c, s, i);
  }

  /** And it is open exactly until then: after any history, as long as nothing later touches it. */
  lemma {:induction false} OpenUntilSixtieth<K>(idle: map<K, nat>, ops: seq<Countdown.Op<K>>, c: K, s: nat)
    requires s < |ops| && ops[s] == Countdown.Set(c, IdleTicks())
    requires Countdown.Untouched(ops[s + 1..], c)
    ensures c in Countdown.Run(idle, ops) <==> Countdown.Ticks(ops[s + 1..]) < 60
  {
    IdleTicksIsARevolution(0);
    assert ops[..s + 1][..s] == ops[..s];
    assert ops == ops[..s + 1] + ops[s + 1..];
    Countdown.RunConcat(idle, ops[..s + 1], ops[s + 1..]);
    Countdown.LeftAfter(Countdown.Run(idle, ops[..s + 1]), ops[s + 1..], c);
  }

  /** The part of a connection that accepting, idling and closing touch. */
  class Connection {
    var fd: int                              // -1 once closed
    var wheelEntry: Entry?<Connection>

    constructor (fd: int)
      ensures this.fd == fd && wheelEntry == null
    {
      this.fd, wheelEntry := fd, null;
    }
  }

  /** The ticks each open connection has left, given its entry and the wheel's abstract value. */
  ghost function IdleOf<C, E>(open: map<C, E>, left: map<E, nat>): map<C, nat>
    requires forall c <- open :: open[c] in left
  {
    map c | c in open :: left[open[c]]
  }

  /** The wheel holds exactly the entries of the open connections, each owned by its connection. */
  ghost predicate Owned(open: map<Connection, Entry<Connection>>, attached: set<Entry<Connection>>) {
    && (forall c <- open :: open[c] in attached && open[c].callback == c)
    && (forall e <- attached :: e.callback in open && open[e.callback] == e && e.timeoutSec == IDLE_SECONDS)
  }

  lemma OwnedSet(open: map<Connection, Entry<Connection>>, left: map<Entry<Connection>, nat>, c: Connection,
                 e: Entry<Connection>, n: nat)
    requires Owned(open, left.Keys) && e.callback == c && e.timeoutSec == IDLE_SECONDS
    requires if c in open then open[c] == e else e !in left
    ensures Owned(open[c := e], left.Keys + {e})
    ensures IdleOf(open[c := e], Countdown.Step(left, Countdown.Set(e, n)))
            == Countdown.Step(IdleOf(open, left), Countdown.Set(c, n))
  {
  }

  lemma OwnedCancel(open: map<Connection, Entry<Connection>>, left: map<Entry<Connection>, nat>, c: Connection)
    requires Owned(open, left.Keys) && c in open
    ensures open[c] in left
    ensures Owned(open - {c}, left.Keys - {open[c]})
    ensures IdleOf(open - {c}, Countdown.Step(left, Countdown.Cancel(open[c])))
            == Countdown.Step(IdleOf(open, left), Countdown.Cancel(c))
  {
  }

  lemma OwnedTick(open: map<Connection, Entry<Connection>>, left: map<Entry<Connection>, nat>, gone: set<Connection>)
    requires Owned(open, left.Keys)
    requires gone == set c | c in open && open[c] in Countdown.Due(left)
    ensures Owned(open - gone, left.Keys - Countdown.Due(left))
    ensures gone == Countdown.Due(IdleOf(open, left))
    ensures IdleOf(open - gone, Countdown.Step(left, Countdown.Tick))
            == Countdown.Step(IdleOf(open, left), Countdown.Tick)
  {
  }

  lemma CancelAbsent(open: map<Connection, Entry<Connection>>, left: map<Entry<Connection>, nat>, c: Connection)
    requires Owned(open, left.Keys) && c !in open
    ensures open - {c} == open
    ensures IdleOf(open, left) == Countdown.Step(IdleOf(open, left), Countdown.Cancel(c))
  {
  }

  /** Every open connection is in the table under its descriptor, so the table keeps it alive. The
      table may also hold connections that have closed since. */
  ghost predicate Tabled(table: map<int, Connection>, open: set<Connection>, fds: map<Connection, int>) {
    && open <= fds.Keys
    && (forall c <- open :: fds[c] >= 0)
    && (forall c <- fds :: c !in open ==> fds[c] == -1)
    && (forall c <- open :: fds[c] in table && table[fds[c]] == c)
    && (forall fd <- table :: fd >= 0 && table[fd] in fds && (table[fd] in open ==> fds[table[fd]] == fd))
  }

  lemma TabledAccept(table: map<int, Connection>, open: set<Connection>, fds: map<Connection, int>, c: Connection,
                     fd: int)
    requires Tabled(table, open, fds) && c !in fds
    requires fd >= 0 && forall d <- open :: fds[d] != fd
    ensures Tabled(table[fd := c], open + {c}, fds[c := fd])
  {
  }

  ghost function WithoutFds(fds: map<Connection, int>, gone: set<Connection>): map<Connection, int> {
    map c | c in fds :: if c in gone then -1 else fds[c]
  }

  lemma TabledClose(table: map<int, Connection>, open: set<Connection>, fds: map<Connection, int>,
                    gone: set<Connection>)
    requires Tabled(table, open, fds) && gone <= open
    ensures Tabled(table, open - gone, WithoutFds(fds, gone))
    ensures -1 !in table
  {
  }

  lemma TabledCloseOne(table: map<int, Connection>, open: set<Connection>, fds: map<Connection, int>, c: Connection)
    requires Tabled(table, open, fds) && c in fds
    ensures Tabled(table, open - {c}, fds[c := -1])
    ensures -1 !in table && (c in open <==> fds[c] >= 0) && (c !in open ==> fds[c] == -1)
    ensures c in open ==> fds[c] in table && table[fds[c]] == c
  {
  }

  lemma OpenTracked(table: map<int, Connection>, open: set<Connection>, fds: map<Connection, int>)
    requires Tabled(table, open, fds)
    ensures open <= fds.Keys
  {
  }

  /** Every connection still open waits under one of the keys `left`. */
  ghost predicate Stopping(table: map<int, Connection>, open: set<Connection>, left: set<int>) {
    left <= table.Keys && forall c <- open :: exists fd <- left :: table[fd] == c
  }

  lemma StoppingAll(table: map<int, Connection>, open: set<Connection>, fds: map<Connection, int>)
    requires Tabled(table, open, fds)
    ensures Stopping(table, open, table.Keys)
  {
  }

  lemma StoppingOne(table: map<int, Connection>, open: map<Connection, Entry<Connection>>, fds: map<Connection, int>,
                    ticks: map<Entry<Connection>, nat>, left: set<int>, fd: int)
    requires Tabled(table, open.Keys, fds) && Owned(open, ticks.Keys) && Stopping(table, open.Keys, left) && fd in left
    ensures fd in table && table[fd] in fds
    ensures var c := table[fd];
            && (if c in open then open[c] in ticks && fds[c] >= 0 else fds[c] == -1)
            && Stopping(table, open.Keys - {c}, left - {fd})
            && Tabled(table, open.Keys - {c}, fds[c := -1])
            && Owned(open - {c}, if c in open then ticks.Keys - {open[c]} else ticks.Keys)
  {
    var c := table[fd];
    TabledCloseOne(table, open.Keys, fds, c);
    if c in open { OwnedCancel(open, ticks, c); } else { assert open - {c} == open; }
  }

  lemma NothingOpen(table: map<int, Connection>, open: map<Connection, Entry<Connection>>, fds: map<Connection, int>,
                    attached: set<Entry<Connection>>)
    requires Owned(open, attached) && Stopping(table, open.Keys, {}) && Tabled(table, open.Keys, fds)
    ensures open == map[] && attached == {} && Tabled(map[], open.Keys, fds)
  {
  }

  ghost function Accepts<K>(conns: seq<K>): seq<Countdown.Op<K>> {
    seq(|conns|, i requires 0 <= i < |conns| => Countdown.Set(conns[i], IdleTicks()))
  }

  lemma RunNone<K>(idle: map<K, nat>)
    ensures Countdown.Run(idle, Accepts([])) == idle
  {
  }

  lemma RunOneMore<K>(idle: map<K, nat>, conns: seq<K>, c: K)
    ensures Countdown.Run(idle, Accepts(conns + [c]))
            == Countdown.Step(Countdown.Run(idle, Accepts(conns)), Countdown.Set(c, IdleTicks()))
  {
    assert Accepts(conns + [c])[..|conns|] == Accepts(conns);
  }

  /** The connections a run of callbacks is about. */
  ghost function Callbacks(fired: seq<Entry<Connection>>): set<Connection> {
    set e | e in fired :: e.callback
  }

  lemma CallbacksOfDue(open: map<Connection, Entry<Connection>>, left: map<Entry<Connection>, nat>,
                       table: map<int, Connection>, fds: map<Connection, int>, fired: seq<Entry<Connection>>)
    requires Owned(open, left.Keys) && Tabled(table, open.Keys, fds)
    requires forall e :: e in fired <==> e in Countdown.Due(left) && e.callback in table.Values
    requires forall i, j :: 0 <= i < j < |fired| ==> fired[i] != fired[j]
    ensures Callbacks(fired) == set c | c in open && open[c] in Countdown.Due(left)
    ensures Callbacks(fired) <= open.Keys
    ensures forall c <- open :: c in fds && fds[c] >= 0
    ensures forall i, j :: 0 <= i < j < |fired| ==> fired[i].callback != fired[j].callback
  {
  }

  /** What the open connections have left, by descriptor. */
  ghost function ByDescriptor(table: map<int, Connection>, idle: map<Connection, nat>): map<int, nat> {
    map fd | fd in table && table[fd] in idle :: idle[table[fd]]
  }

  /** The open connections are those in the table under the descriptors served, one each. */
  ghost predicate Serves(table: map<int, Connection>, open: set<Connection>, fds: map<Connection, int>,
                         served: set<int>) {
    && open <= fds.Keys
    && (forall fd <- served :: fd in table && table[fd] in open && fds[table[fd]] == fd)
    && (forall c <- open :: fds[c] in served && fds[c] in table && table[fds[c]] == c)
  }

  lemma ServesLeft(table: map<int, Connection>, idle: map<Connection, nat>, fds: map<Connection, int>)
    requires Tabled(table, idle.Keys, fds)
    ensures Serves(table, idle.Keys, fds, ByDescriptor(table, idle).Keys)
  {
  }

  /** From one moment to a later one. Of the connections `was` that were open before, exactly those whose
      descriptors are among `kept` are open now, under the same descriptors; whatever else is open now is new. */
  ghost predicate Continues(was: set<Connection>, wasFds: map<Connection, int>, now: set<Connection>,
                            fds: map<Connection, int>, kept: set<int>) {
    && was <= wasFds.Keys <= fds.Keys && now <= fds.Keys
    && (forall c <- was :: c in now <==> wasFds[c] in kept)
    && (forall c <- now :: if c in was then fds[c] == wasFds[c] else c !in wasFds)
  }

  lemma AcceptByDescriptor(table: map<int, Connection>, idle: map<Connection, nat>, fds: map<Connection, int>,
                           c: Connection, fd: int)
    requires Tabled(table, idle.Keys, fds) && c !in fds && fd >= 0 && forall d <- idle :: fds[d] != fd
    ensures var after := Countdown.Step(idle, Countdown.Set(c, SILENCE));
            var left := ByDescriptor(table[fd := c], after);
            && left == Respond(ByDescriptor(table, idle), Accepting(fd))
            && Continues(idle.Keys, fds, after.Keys, fds[c := fd], left.Keys)
  {
    var left, more := ByDescriptor(table, idle), ByDescriptor(table[fd := c], idle[c := SILENCE]);
    assert fd !in left;
    forall d ensures d in more <==> d in left || d == fd { if d in left { assert table[d] != c; } }
    assert more == left[fd := SILENCE];
  }

  lemma DataByDescriptor(table: map<int, Connection>, idle: map<Connection, nat>, fds: map<Connection, int>, fd: int)
    requires Tabled(table, idle.Keys, fds) && fd in ByDescriptor(table, idle)
    ensures var after := Countdown.Step(idle, Countdown.Set(table[fd], SILENCE));
            var left := ByDescriptor(table, after);
            && left == Respond(ByDescriptor(table, idle), Readable(fd))
            && Continues(idle.Keys, fds, after.Keys, fds, left.Keys)
  {
    var left, more := ByDescriptor(table, idle), ByDescriptor(table, idle[table[fd] := SILENCE]);
    assert forall d <- left :: fds[table[d]] == d;
    assert more == left[fd := SILENCE];
  }

  lemma CloseByDescriptor(table: map<int, Connection>, idle: map<Connection, nat>, fds: map<Connection, int>, fd: int)
    requires Tabled(table, idle.Keys, fds) && fd in ByDescriptor(table, idle)
    ensures var after := Countdown.Step(idle, Countdown.Cancel(table[fd]));
            var left := ByDescriptor(table, after);
            && left == Respond(ByDescriptor(table, idle), Ending(fd))
            && Continues(idle.Keys, fds, after.Keys, fds[table[fd] := -1], left.Keys)
  {
    var left, less := ByDescriptor(table, idle), ByDescriptor(table, idle - {table[fd]});
    assert forall d <- left :: fds[table[d]] == d;
    assert less == left - {fd};
  }

  lemma TickByDescriptor(table: map<int, Connection>, idle: map<Connection, nat>, fds: map<Connection, int>)
    requires Tabled(table, idle.Keys, fds)
    ensures var after := Countdown.Step(idle, Countdown.Tick);
            var left := ByDescriptor(table, after);
            && left == Respond(ByDescriptor(table, idle), TimerTick)
            && Continues(idle.Keys, fds, after.Keys, WithoutFds(fds, Countdown.Due(idle)), left.Keys)
  {
  }

  lemma NothingByDescriptor(table: map<int, Connection>, idle: map<Connection, nat>, fds: map<Connection, int>,
                            event: Event)
    requires Tabled(table, idle.Keys, fds) && event != TimerTick
    requires if event.Accepting? then event.fd < 0 || event.fd in ByDescriptor(table, idle)
             else event.fd !in ByDescriptor(table, idle)
    ensures var left := ByDescriptor(table, idle);
            left == Respond(left, event) && Continues(idle.Keys, fds, idle.Keys, fds, left.Keys)
  {
  }

  /** The descriptors served at every moment of a run. */
  ghost function Throughout(left: map<int, nat>, events: seq<Event>): set<int> {
    set fd | fd in left && forall k :: 0 <= k <= |events| ==> fd in Serve(left, events[..k])
  }

  lemma ContinuesFromHere(table: map<int, Connection>, idle: map<Connection, nat>, fds: map<Connection, int>)
    requires Tabled(table, idle.Keys, fds)
    ensures Continues(idle.Keys, fds, idle.Keys, fds, Throughout(ByDescriptor(table, idle), []))
  {
    var left := ByDescriptor(table, idle);
    assert Throughout(left, []) == left.Keys by { assert Serve(left, [][..0]) == left; }
  }

  lemma ThroughoutOneMore(left: map<int, nat>, events: seq<Event>, event: Event)
    ensures Throughout(left, events + [event]) == Throughout(left, events) * Serve(left, events + [event]).Keys
  {
    var more := events + [event];
    assert more[..|more|] == more;
    assert forall k :: 0 <= k <= |events| ==> more[..k] == events[..k];
  }

  lemma ContinuesOneMore(was: set<Connection>, wasFds: map<Connection, int>, now: set<Connection>,
                         nowFds: map<Connection, int>, next: set<Connection>, nextFds: map<Connection, int>,
                         left: map<int, nat>, events: seq<Event>, event: Event)
    requires Continues(was, wasFds, now, nowFds, Throughout(left, events))
    requires Continues(now, nowFds, next, nextFds, Serve(left, events + [event]).Keys)
    ensures Continues(was, wasFds, next, nextFds, Throughout(left, events + [event]))
  {
    hide Serve, Throughout;
    ThroughoutOneMore(left, events, event);
  }

  class TcpServer {
    const wheel: TimeWheel<Connection>
    var connections: map<int, Connection>

    ghost var open: map<Connection, Entry<Connection>>       // the open connections, with their entries
    ghost var fds: map<Connection, int>                      // every connection ever accepted

    /** The fields of the connections agree with the ghost maps: an open connection points at its
        entry, a closed one has no descriptor and points nowhere. */
    ghost predicate Mirrored()
      reads this`open, this`fds, fds.Keys
    {
      forall c <- fds.Keys :: c.fd == fds[c] && c.wheelEntry == if c in open then open[c] else null
    }

    ghost predicate WheelValid()
      reads wheel, wheel.buckets, wheel.Repr
      ensures WheelValid() ==> wheel.Valid()
    {
      wheel.Valid() && wheel.bucketCount == BUCKETS && wheel.tickIntervalSec == TICK_SECONDS
    }

    ghost predicate Valid()
      reads this, fds.Keys, wheel, wheel.buckets, wheel.Repr
    {
      && WheelValid()
      && Owned(open, wheel.Repr)
      && Mirrored()
      && Tabled(connections, open.Keys, fds)
    }

    /** The abstract value: the ticks each open connection may stay silent. */
    ghost function Idle(): map<Connection, nat>
      requires wheel.InRange() && Owned(open, wheel.Repr)
      reads this`open, wheel
    {
      IdleOf(open, wheel.Remaining())
    }

    constructor (wheel: TimeWheel<Connection>)
      requires wheel.Valid() && wheel.bucketCount == BUCKETS && wheel.tickIntervalSec == TICK_SECONDS
      requires wheel.Repr == {}
      ensures this.wheel == wheel && Valid() && Idle() == map[] && connections == map[] && fds == map[]
    {
      this.wheel := wheel;
      connections, open, fds := map[], map[], map[];
    }

    /** What the wheel guarantees when an entry is dropped, or nothing is. */
    twostate predicate Dropped(entry: Entry?<Connection>)
      requires old(wheel.InRange()) && wheel.InRange()
      reads wheel
    {
      if entry == null then wheel.Remaining() == old(wheel.Remaining()) && wheel.Repr == old(wheel.Repr)
      else && wheel.Remaining() == Countdown.Step<Entry<Connection>>(old(wheel.Remaining()), Countdown.Cancel(entry))
           && wheel.Repr == old(wheel.Repr) - {entry}
    }

    method RemoveConnection(c: Connection)
      requires wheel.Valid() && (c.wheelEntry == null || c.wheelEntry in wheel.Repr)
      modifies this`connections, wheel, wheel.buckets, wheel.Repr, c`wheelEntry
      ensures wheel.Valid() && Dropped(old(c.wheelEntry))
      ensures c.wheelEntry == null
      ensures connections == old(connections) - {c.fd}
    {
      hide TimeWheel.Valid, TimeWheel.InRange, TimeWheel.Remaining, TicksFor, FirstTick;
      if c.wheelEntry != null {
        wheel.AttachedIsLive(c.wheelEntry);
        wheel.Remove(c.wheelEntry);
        c.wheelEntry := null;
      }
      connections := connections - {c.fd};
    }

    /** Closing a descriptor that is still valid; the close callback drops the wheel entry. */
    method HandleClose(c: Connection)
      requires wheel.Valid() && (c.wheelEntry == null || c.wheelEntry in wheel.Repr)
      modifies this`connections, wheel, wheel.buckets, wheel.Repr, c
      ensures wheel.Valid() && Dropped(if old(c.fd) < 0 then null else old(c.wheelEntry))
      ensures old(c.fd) < 0 ==>
                c.fd == old(c.fd) && c.wheelEntry == old(c.wheelEntry) && connections == old(connections)
      // the descriptor is cleared before the callback erases it, so key -1 is what gets erased
      ensures old(c.fd) >= 0 ==> c.fd == -1 && c.wheelEntry == null && connections == old(connections) - {-1}
    {
      hide TimeWheel.Valid, TimeWheel.InRange, TimeWheel.Remaining, TicksFor, FirstTick;
      if c.fd < 0 { return; }
      c.fd := -1;
      RemoveConnection(c);
    }

    /** Hands a new connection its wheel entry. */
    method SetWheelEntry(c: Connection, entry: Entry<Connection>)
      requires Mirrored() && c !in fds && c !in open
      modifies this`open, this`fds, c`wheelEntry
      ensures Mirrored() && open == old(open)[c := entry] && fds == old(fds)[c := c.fd]
    {
      c.wheelEntry := entry;
      open, fds := open[c := entry], fds[c := c.fd];
    }

    method Accept(fd: int) returns (c: Connection)
      requires Valid()
      requires fd >= 0 && forall d <- open :: fds[d] != fd   // the kernel hands out a free descriptor
      modifies this, wheel, wheel.buckets, wheel.Repr
      ensures Valid() && fresh(c)
      ensures fds == old(fds)[c := fd] && connections == old(connections)[fd := c]
      ensures open.Keys == old(open).Keys + {c} && fresh(wheel.Repr - old(wheel.Repr))
      ensures Idle() == Countdown.Step(old(Idle()), Countdown.Set(c, IdleTicks()))
    {
      hide TimeWheel.Valid, TimeWheel.InRange, TimeWheel.Remaining, TicksFor, FirstTick, Owned, Tabled, IdleOf,
           Countdown.Step,
           Mirrored;
      c := new Connection(fd);
      connections := connections[fd := c];
      var entry := wheel.Add(IDLE_SECONDS, c);
      TabledAccept(old(connections), open.Keys, fds, c, fd);
      OwnedSet(open, old(wheel.Remaining()), c, entry, IdleTicks());
      SetWheelEntry(c, entry);
      assert open.Keys == old(open).Keys + {c};
    }

    /** Data, as the HTTP layer handles it: an open connection's timeout restarts. */
    method OnData(c: Connection)
      requires Valid() && c in fds
      modifies wheel, wheel.buckets, wheel.Repr
      ensures Valid() && wheel.Repr == old(wheel.Repr)
      ensures Idle() == if c in open then Countdown.Step(old(Idle()), Countdown.Set(c, IdleTicks())) else old(Idle())
    {
      hide TimeWheel.Valid, TimeWheel.InRange, TimeWheel.Remaining, TicksFor, FirstTick, Tabled, IdleOf, Countdown.Step;
      if c.wheelEntry != null {
        wheel.AttachedIsLive(c.wheelEntry);
        ghost var e: Entry<Connection> := open[c];
        OwnedSet(open, wheel.Remaining(), c, e, IdleTicks());
        assert open[c := e] == open;
        wheel.Refresh(c.wheelEntry);
        assert wheel.Repr + {e} == wheel.Repr;
      }
    }

    /** Closing, seen from the connections: only `c` changes. */
    method CloseTracked(c: Connection)
      requires wheel.Valid() && Mirrored() && c in fds && -1 !in connections
      requires if c in open then open[c] in wheel.Repr && fds[c] >= 0 else fds[c] == -1
      modifies this, wheel, wheel.buckets, wheel.Repr, c
      ensures wheel.Valid() && Mirrored() && c.fd == -1
      ensures open == old(open) - {c} && fds == old(fds)[c := -1] && connections == old(connections)
      ensures Dropped(if c in old(open) then old(open)[c] else null)
    {
      hide TimeWheel.Valid, TimeWheel.InRange, TimeWheel.Remaining, Countdown.Step;
      HandleClose(c);
      assert connections == old(connections);
      open, fds := open - {c}, fds[c := -1];
    }

    /** Closing, for whatever reason: end of stream, error, or the server's own decision. */
    method Close(c: Connection)
      requires Valid() && c in fds
      modifies this, wheel, wheel.buckets, wheel.Repr, c
      ensures Valid() && c !in open && c.fd == -1 && connections == old(connections)
      ensures wheel.Repr <= old(wheel.Repr)
      // erasing by the cleared descriptor misses: the closed connection stays in the table
      ensures c in old(open) ==> old(fds)[c] in connections && connections[old(fds)[c]] == c
      ensures open == old(open) - {c} && fds == old(fds)[c := -1]
      ensures Idle() == Countdown.Step(old(Idle()), Countdown.Cancel(c))
    {
      hide TimeWheel.Valid, TimeWheel.InRange, TimeWheel.Remaining, TicksFor, FirstTick, IdleOf, Countdown.Step,
           Tabled, Owned,
           Mirrored;
      if c in open {
        OwnedCancel(open, wheel.Remaining(), c);
      } else {
        CancelAbsent(open, wheel.Remaining(), c);
      }
      TabledCloseOne(connections, open.Keys, fds, c);
      assert (open - {c}).Keys == open.Keys - {c};
      CloseTracked(c);
    }

    /** The callback of a connection's wheel entry: the wheel deletes the entry itself, so the
        pointer is cleared first and the close does not go back to the wheel. */
    method ForceCloseIdle(c: Connection)
      requires wheel.Valid() && Mirrored() && c in open && c in fds && fds[c] >= 0 && -1 !in connections
      modifies this, wheel, wheel.buckets, wheel.Repr, c
      ensures wheel.Valid() && Mirrored()
      ensures open == old(open) - {c} && fds == old(fds)[c := -1] && connections == old(connections)
      ensures Dropped(null)
    {
      hide TimeWheel.Valid, TimeWheel.InRange, TimeWheel.Remaining, Countdown.Step;
      c.wheelEntry := null;
      HandleClose(c);
      assert connections == old(connections);
      open, fds := open - {c}, fds[c := -1];
    }

    method RunCallbacks(fired: seq<Entry<Connection>>)
      requires wheel.Valid() && Mirrored() && -1 !in connections
      requires Callbacks(fired) <= open.Keys && forall c <- open :: c in fds && fds[c] >= 0
      requires forall i, j :: 0 <= i < j < |fired| ==> fired[i].callback != fired[j].callback
      modifies this, wheel, wheel.buckets, wheel.Repr, fds.Keys
      ensures wheel.Valid() && Mirrored() && Dropped(null)
      ensures open == old(open) - Callbacks(fired) && connections == old(connections)
      ensures fds == WithoutFds(old(fds), Callbacks(fired))
    {
      hide TimeWheel.Valid, TimeWheel.InRange, TimeWheel.Remaining, Countdown.Step, Mirrored;
      for k := 0 to |fired|
        invariant wheel.Valid() && Mirrored() && Dropped(null)
        invariant open == old(open) - Callbacks(fired[..k])
        invariant fds == WithoutFds(old(fds), Callbacks(fired[..k]))
        invariant connections == old(connections)
      {
        var c := fired[k].callback;
        assert c in Callbacks(fired) && c !in Callbacks(fired[..k]);
        ForceCloseIdle(c);
        assert Callbacks(fired[..k + 1]) == Callbacks(fired[..k]) + {c} by {
          assert fired[..k + 1] == fired[..k] + [fired[k]];
        }
      }
      assert fired[..|fired|] == fired;
    }

    /** A tick of the event loop: exactly the connections with no time left are closed. */
    method OnTick()
      requires Valid()
      modifies this, wheel, wheel.buckets, wheel.Repr, fds.Keys
      ensures Valid() && wheel.Repr <= old(wheel.Repr)
      ensures open == old(open) - Countdown.Due(old(Idle()))
      ensures fds == WithoutFds(old(fds), Countdown.Due(old(Idle()))) && connections == old(connections)
      ensures Idle() == Countdown.Step(old(Idle()), Countdown.Tick)
    {
      hide TimeWheel.Valid, TimeWheel.InRange, TimeWheel.Remaining, TicksFor, FirstTick, Countdown.Step, Countdown.Due,
           Tabled, Owned, Mirrored, IdleOf, Callbacks, WithoutFds;
      ghost var left := wheel.Remaining();
      var fired := wheel.Tick(connections.Values);
      CallbacksOfDue(open, left, connections, fds, fired);
      OwnedTick(open, left, Callbacks(fired));
      TabledClose(connections, open.Keys, fds, Callbacks(fired));
      RunCallbacks(fired);
      assert open.Keys == old(open).Keys - Callbacks(fired);
    }

    /** The accept loop: one connection per descriptor the kernel hands out, until it has no more. */
    method HandleAccept(ready: seq<int>) returns (ghost conns: seq<Connection>)
      requires Valid()
      requires forall i :: 0 <= i < |ready| ==> ready[i] >= 0 && forall d <- open :: fds[d] != ready[i]
      requires forall i, j :: 0 <= i < j < |ready| ==> ready[i] != ready[j]
      modifies this, wheel, wheel.buckets, wheel.Repr
      ensures Valid() && |conns| == |ready|
      ensures forall i :: 0 <= i < |conns| ==> conns[i] in fds && conns[i] !in old(fds) && fds[conns[i]] == ready[i]
      ensures Idle() == Countdown.Run(old(Idle()), Accepts(conns))
    {
      hide TimeWheel.Valid, TimeWheel.InRange, TimeWheel.Remaining, TicksFor, FirstTick, Countdown.Step, Countdown.Run,
           Tabled, Owned, Mirrored, IdleOf;
      conns := [];
      RunNone(Idle());
      OpenTracked(connections, open.Keys, fds);
      for k := 0 to |ready|
        invariant Valid() && |conns| == k && fresh(wheel.Repr - old(wheel.Repr))
        invariant old(fds).Keys <= fds.Keys && open.Keys <= fds.Keys && old(open).Keys <= old(fds).Keys
        invariant forall d <- open ::
                    (d in old(open) && fds[d] == old(fds)[d]) || exists i :: 0 <= i < k && fds[d] == ready[i]
        invariant forall i :: 0 <= i < k ==> conns[i] in fds && conns[i] !in old(fds) && fds[conns[i]] == ready[i]
        invariant Idle() == Countdown.Run(old(Idle()), Accepts(conns))
      {
        var c := Accept(ready[k]);
        RunOneMore(old(Idle()), conns, c);
        conns := conns + [c];
      }
    }

    /** Shutting down: every connection still in the table is closed and the wheel is left empty. */
    method Stop()
      requires Valid()
      modifies this, wheel, wheel.buckets, wheel.Repr, fds.Keys
      ensures Valid() && open == map[] && connections == map[] && wheel.Repr == {}
      ensures fds.Keys == old(fds).Keys
    {
      hide TimeWheel.Valid, TimeWheel.InRange, TimeWheel.Remaining, Countdown.Step, Mirrored, Tabled, Owned, Stopping;
      var conns := connections;
      connections := map[];
      var left := conns.Keys;
      StoppingAll(conns, open.Keys, fds);
      while exists fd :: fd in left
        invariant wheel.Repr <= old(wheel.Repr) && left <= conns.Keys
        invariant WheelValid() && Mirrored() && connections == map[] && fds.Keys == old(fds).Keys
        invariant Owned(open, wheel.Repr) && Tabled(conns, open.Keys, fds)
        invariant Stopping(conns, open.Keys, left)
        decreases |left|
      {
        var fd :| fd in left;
        var c := conns[fd];
        StoppingOne(conns, open, fds, wheel.Remaining(), left, fd);
        assert (open - {c}).Keys == open.Keys - {c};
        CloseTracked(c);
        left := left - {fd};
      }
      assert left == {};
      NothingOpen(conns, open, fds, wheel.Repr);
    }

    /** The abstract value by descriptor: those with an open connection, and the ticks left to it. */
    ghost function Left(): map<int, nat>
      requires wheel.InRange() && Owned(open, wheel.Repr)
      reads this`open, this`connections, wheel
    {
      ByDescriptor(connections, Idle())
    }

    lemma IdleOfOpen()
      requires wheel.InRange() && Owned(open, wheel.Repr)
      ensures Idle().Keys == open.Keys
    {
    }

    lemma LeftIsPositive()
      requires wheel.InRange() && Owned(open, wheel.Repr)
      ensures forall fd <- Left() :: Left()[fd] >= 1
    {
    }

    lemma OnDescriptor(fd: int)
      requires Mirrored() && Tabled(connections, open.Keys, fds) && wheel.InRange() && Owned(open, wheel.Repr)
      ensures fd in connections && connections[fd].fd == fd <==> fd in Left()
      ensures fd in Left() ==> connections[fd] in fds && connections[fd] in open && fds[connections[fd]] == fd
      ensures fd !in Left() ==> forall d <- open :: fds[d] != fd
    {
    }

    /** One event of the loop, on the objects: the descriptors answer it as specified, and no connection
        takes another one's place. */
    method Dispatch(event: Event)
      requires Valid()
      modifies this, wheel, wheel.buckets, wheel.Repr, fds.Keys
      ensures Valid() && fresh(wheel.Repr - old(wheel.Repr)) && fresh(fds.Keys - old(fds).Keys)
      ensures Left() == Respond(old(Left()), event)
      ensures Continues(old(open).Keys, old(fds), open.Keys, fds, Left().Keys)
    {
      hide TimeWheel.Valid, TimeWheel.InRange, TimeWheel.Remaining, TicksFor, FirstTick, Countdown.Step,
           Countdown.Due, Tabled,
           Owned, Mirrored, IdleOf, Respond, ByDescriptor, Continues;
      ghost var table, idle, was := connections, Idle(), fds;
      IdleOfOpen();
      IdleTicksIsARevolution(0);
      if !event.TimerTick? { OnDescriptor(event.fd); }
      if event.TimerTick? {
        TickByDescriptor(table, idle, was);
        OnTick();
      } else if event.Accepting? && event.fd >= 0
                && !(event.fd in connections && connections[event.fd].fd == event.fd) {
        var c := Accept(event.fd);
        AcceptByDescriptor(table, idle, was, c, event.fd);
      } else if event.Readable? && event.fd in connections && connections[event.fd].fd == event.fd {
        DataByDescriptor(table, idle, was, event.fd);
        OnData(connections[event.fd]);
      } else if event.Ending? && event.fd in connections && connections[event.fd].fd == event.fd {
        CloseByDescriptor(table, idle, was, event.fd);
        Close(connections[event.fd]);
      } else {
        NothingByDescriptor(table, idle, was, event);
      }
      IdleOfOpen();
    }

    /** The loop over any sequence of events. Open are, one each, the connections in the table under the
        descriptors served; a descriptor is served exactly if its connection was accepted or last had data fewer
        than 60 ticks ago and has not ended since; and a connection that was open before is open still exactly
        if its descriptor has been served throughout. */
    method Loop(events: seq<Event>)
      requires Valid()
      modifies this, wheel, wheel.buckets, wheel.Repr, fds.Keys
      ensures Valid() && Left() == Serve(old(Left()), events)
      ensures Serves(connections, open.Keys, fds, Left().Keys)
      ensures Continues(old(open).Keys, old(fds), open.Keys, fds, Throughout(old(Left()), events))
      ensures forall fd :: fd in Left()
                <==> || (fd in old(Left()) && Quiet(events, fd) && Ticks(events) < old(Left())[fd])
                     || exists s :: 0 <= s < |events| && LastsFrom(old(Left()), events, fd, s)
    {
      hide TimeWheel.Valid, TimeWheel.InRange, TimeWheel.Remaining, Tabled, Owned, Mirrored, IdleOf, ByDescriptor,
           Serve, Respond, Continues, Throughout, Serves, LastsFrom, Quiet, Ticks;
      ghost var left := Left();
      LeftIsPositive();
      IdleOfOpen();
      ServeOneMore(left, [], TimerTick);
      ContinuesFromHere(connections, Idle(), fds);
      assert events[..0] == [];
      for k := 0 to |events|
        invariant Valid() && fresh(wheel.Repr - old(wheel.Repr)) && fresh(fds.Keys - old(fds).Keys)
        invariant Left() == Serve(left, events[..k])
        invariant Continues(old(open).Keys, old(fds), open.Keys, fds, Throughout(left, events[..k]))
      {
        ghost var now, nowFds := open.Keys, fds;
        Dispatch(events[k]);
        ServeOneMore(left, events[..k], events[k]);
        ContinuesOneMore(old(open).Keys, old(fds), now, nowFds, open.Keys, fds, left, events[..k], events[k]);
        assert events[..k + 1] == events[..k] + [events[k]];
      }
      assert events[..|events|] == events;
      IdleOfOpen();
      ServesLeft(connections, Idle(), fds);
      OpenExactly(left, events);
    }
  }
}
