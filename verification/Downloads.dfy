/** Admission of downloads and the accounting of their completion. */
module Downloads {
  import opened Strings
  import opened CodeTable

  /** The counters. `sizes` maps the descriptor of a connection to the size of the file it is sent. */
  datatype Accounts = Accounts(limit: int, active: int, sizes: map<int, nat>, files: nat, bytes: nat)

  function NoDownloads(limit: int): Accounts { Accounts(limit, 0, map[], 0, 0) }

  predicate Full(a: Accounts) { a.limit > 0 && a.active >= a.limit }

  function Admit(a: Accounts, fd: int, size: nat): Accounts {
    a.(active := a.active + 1, sizes := a.sizes[fd := size])
  }

  /** A connection has nothing left to write. If it is tracked, its download is complete. */
  function Complete(a: Accounts, fd: int): Accounts {
    if fd !in a.sizes then a
    else a.(active := a.active - 1, sizes := a.sizes - {fd}, files := a.files + 1, bytes := a.bytes + a.sizes[fd])
  }

  /** The answer to a download request, by the first check that fails. */
  function Answer(a: Accounts, code: string, entry: Option<Meta>, now: int, onDisk: bool): nat {
    if |code| != 6 then 400
    else if Full(a) then 503
    else if entry.None? then 404
    else if entry.value.expireAt < now then 410
    else if !onDisk then 404
    else 200
  }

  /** A download can be served: the code has the right form and stands for an unexpired entry whose file is
      on the disk. */
  predicate Servable(code: string, entry: Option<Meta>, now: int, onDisk: bool) {
    |code| == 6 && entry.Some? && entry.value.expireAt >= now && onDisk
  }

  /** Which answer a request gets. It is served exactly if it can be and the server has room; a full server
      tells nothing about codes of the right form, and an expired entry is told from a missing one. */
  lemma AnswerIff(a: Accounts, code: string, entry: Option<Meta>, now: int, onDisk: bool)
    ensures var status := Answer(a, code, entry, now, onDisk);
            && (status == 200 <==> !Full(a) && Servable(code, entry, now, onDisk))
            && (status == 503 <==> Full(a) && |code| == 6)
            && (status == 400 <==> |code| != 6)
            && (status == 410 <==> !Full(a) && |code| == 6 && entry.Some? && entry.value.expireAt < now)
            && status in {200, 400, 404, 410, 503}
  {
  }

  // ---- runs ----

  /** A download request that fails no check but the limit's, or a finished write. */
  datatype Event = Download(fd: int, size: nat) | WriteComplete(fd: int)

  function Step(a: Accounts, e: Event): Accounts {
    match e
    case Download(fd, size) => if Full(a) then a else Admit(a, fd, size)
    case WriteComplete(fd) => Complete(a, fd)
  }

  function Run(a: Accounts, events: seq<Event>): Accounts
    decreases |events|
  {
    if events == [] then a else Run(Step(a, events[0]), events[1..])
  }

  /** What the library asks of the server. */
  datatype Call =
    | Request(code: string, entry: Option<Meta>, now: int, onDisk: bool, conn: Option<int>)
    | Written(conn: Option<int>)

  /** What a call means for the accounts, whatever state they are in. */
  function Meaning(call: Call): seq<Event> {
    match call
    case Request(code, entry, now, onDisk, conn) =>
      if conn.Some? && Servable(code, entry, now, onDisk) then [Download(conn.value, entry.value.fileSize)] else []
    case Written(conn) => if conn.Some? then [WriteComplete(conn.value)] else []
  }

  function Meanings(calls: seq<Call>): seq<Event> {
    if calls == [] then [] else Meanings(calls[..|calls| - 1]) + Meaning(calls[|calls| - 1])
  }

  lemma {:induction false} RunConcat(a: Accounts, x: seq<Event>, y: seq<Event>)
    ensures Run(a, x + y) == Run(Run(a, x), y)
    decreases |x|
  {
    if x == [] {
      assert x + y == y;
    } else {
      assert (x + y)[1..] == x[1..] + y;
      RunConcat(Step(a, x[0]), x[1..], y);
    }
  }

  lemma OneCallMore(a: Accounts, calls: seq<Call>, call: Call)
    ensures Run(a, Meanings(calls + [call])) == Run(Run(a, Meanings(calls)), Meaning(call))
    ensures Run(a, Meanings([])) == a
  {
    hide Meaning;
    assert (calls + [call])[..|calls|] == calls;
    RunConcat(a, Meanings(calls), Meaning(call));
  }

  /** One event of the accounts, or none. */
  lemma RunShort(a: Accounts, events: seq<Event>)
    requires |events| <= 1
    ensures Run(a, events) == if events == [] then a else Step(a, events[0])
  {
  }

  class EzdropServer {
    var maxConcurrentDownloads: int
    var activeDownloads: int
    var activeDownloadSizes: map<int, nat>
    var totalFilesDownloaded: nat
    var totalBytesDownloaded: nat

    function Abs(): Accounts
      reads this
    {
      Accounts(maxConcurrentDownloads, activeDownloads, activeDownloadSizes, totalFilesDownloaded, totalBytesDownloaded)
    }

    constructor (limit: int)
      ensures Abs() == NoDownloads(limit)
    {
      maxConcurrentDownloads, activeDownloads, activeDownloadSizes := limit, 0, map[];
      totalFilesDownloaded, totalBytesDownloaded := 0, 0;
    }

    /** `entry` is what the table holds for the code, `onDisk` whether its file can be found, `conn`
        the descriptor of the connection if there is one. */
    method HandleDownload(code: string, entry: Option<Meta>, now: int, onDisk: bool,
                          conn: Option<int>) returns (status: nat)
      modifies this
      ensures status == Answer(old(Abs()), code, entry, now, onDisk)
      ensures Abs()
              == if status == 200 && conn.Some? then Admit(old(Abs()), conn.value, entry.value.fileSize) else old(Abs())
    {
      if code == "" || |code| != 6 { return 400; }
      if maxConcurrentDownloads > 0 && activeDownloads >= maxConcurrentDownloads { return 503; }
      if entry.None? { return 404; }
      var meta := entry.value;
      if meta.expireAt < now { return 410; }
      if !onDisk { return 404; }
      if conn.Some? {
        activeDownloadSizes := activeDownloadSizes[conn.value := meta.fileSize];
        activeDownloads := activeDownloads + 1;
      }
      return 200;
    }

    method OnWriteComplete(conn: Option<int>)
      modifies this
      ensures Abs() == if conn.Some? then Complete(old(Abs()), conn.value) else old(Abs())
    {
      if conn.None? { return; }
      var fd := conn.value;
      if fd in activeDownloadSizes {
        totalBytesDownloaded := totalBytesDownloaded + activeDownloadSizes[fd];
        totalFilesDownloaded := totalFilesDownloaded + 1;
        activeDownloadSizes := activeDownloadSizes - {fd};
        activeDownloads := activeDownloads - 1;
      }
    }

    /** Any sequence of calls. The accounts follow the meanings of the calls, and a request is answered with
        200 exactly if it can be served and the accounts then have room; so the accounts of a server that starts
        empty balance, and no more downloads are active than the limit allows. */
    method Serve(calls: seq<Call>) returns (statuses: seq<nat>)
      modifies this
      ensures Abs() == Run(old(Abs()), Meanings(calls))
      ensures |statuses| == |calls|
      ensures forall i :: 0 <= i < |calls| && calls[i].Request? ==>
                (statuses[i] == 200
                 <==> !Full(Run(old(Abs()), Meanings(calls[..i])))
                      && Servable(calls[i].code, calls[i].entry, calls[i].now, calls[i].onDisk))
      ensures old(Abs()) == NoDownloads(maxConcurrentDownloads) ==>
                Balanced(Abs(), Count(NoDownloads(maxConcurrentDownloads), Meanings(calls)))
    {
      hide Run, Meanings, Servable, Answer;
      statuses := [];
      ghost var start := Abs();
      OneCallMore(start, [], Written(None));
      assert calls[..0] == [];
      for k := 0 to |calls|
        invariant Abs() == Run(start, Meanings(calls[..k])) && |statuses| == k
        invariant forall i :: 0 <= i < k && calls[i].Request? ==>
                    (statuses[i] == 200
                     <==> !Full(Run(start, Meanings(calls[..i])))
                          && Servable(calls[i].code, calls[i].entry, calls[i].now, calls[i].onDisk))
      {
        var status := 0;
        OneCallMore(start, calls[..k], calls[k]);
        RunShort(Abs(), Meaning(calls[k]));
        assert calls[..k + 1] == calls[..k] + [calls[k]];
        match calls[k] {
          case Request(code, entry, now, onDisk, conn) =>
            AnswerIff(Abs(), code, entry, now, onDisk);
            status := HandleDownload(code, entry, now, onDisk, conn);
          case Written(conn) =>
            OnWriteComplete(conn);
        }
        statuses := statuses + [status];
      }
      assert calls[..|calls|] == calls;
      hide Balanced, Count;
      if start == NoDownloads(maxConcurrentDownloads) { EveryRunBalances(maxConcurrentDownloads, Meanings(calls)); }
    }
  }

  // ---- tallies ----

  predicate Admits(a: Accounts, e: Event) { e.Download? && !Full(a) }

  /** An admission on a descriptor that is tracked already takes the place of the download there. */
  predicate Overwrites(a: Accounts, e: Event) { Admits(a, e) && e.fd in a.sizes }

  /** How many downloads a run admits, and their sizes together; how many of them it overwrites, and
      their sizes together. */
  datatype Tally = Tally(admitted: nat, admittedBytes: nat, overwritten: nat, overwrittenBytes: nat)

  function Count(a: Accounts, events: seq<Event>): Tally
    decreases |events|
  {
    if events == [] then Tally(0, 0, 0, 0)
    else
      var e, t := events[0], Count(Step(a, events[0]), events[1..]);
      Tally(t.admitted + (if Admits(a, e) then 1 else 0),
            t.admittedBytes + (if Admits(a, e) then e.size else 0),
            t.overwritten + (if Overwrites(a, e) then 1 else 0),
            t.overwrittenBytes + (if Overwrites(a, e) then a.sizes[e.fd] else 0))
  }

  // ---- sums over the map ----

  ghost function Total(m: map<int, nat>): nat
    decreases |m|
  {
    if exists k :: k in m then
      var k :| k in m;
      m[k] + Total(m - {k})
    else 0
  }

  lemma {:induction false} TotalWithout(m: map<int, nat>, k: int)
    requires k in m
    ensures Total(m) == m[k] + Total(m - {k})
    decreases |m|
  {
    var j :| j in m && Total(m) == m[j] + Total(m - {j});
    if j != k {
      TotalWithout(m - {j}, k);
      TotalWithout(m - {k}, j);
      assert m - {j} - {k} == m - {k} - {j};
    }
  }

  lemma TotalWith(m: map<int, nat>, k: int, v: nat)
    ensures Total(m[k := v]) == v + if k in m then Total(m) - m[k] else Total(m)
  {
    TotalWithout(m[k := v], k);
    assert m[k := v] - {k} == m - {k};
    if k in m {
      TotalWithout(m, k);
    } else {
      assert m - {k} == m;
    }
  }

  lemma SizeWith(m: map<int, nat>, k: int, v: nat)
    ensures |m[k := v]| == if k in m then |m| else |m| + 1
    ensures k in m ==> |m - {k}| == |m| - 1
  {
  }

  // ---- what every run keeps ----

  /** Over every run: downloads completed and downloads active are the downloads admitted; the active
      ones are those tracked and those overwritten; and every byte admitted was downloaded, is
      tracked, or was overwritten. */
  lemma {:induction false} RunBalance(a: Accounts, events: seq<Event>)
    ensures var r, t := Run(a, events), Count(a, events);
            && r.files + r.active == a.files + a.active + t.admitted
            && r.active - |r.sizes| == a.active - |a.sizes| + t.overwritten
            && r.bytes + Total(r.sizes) + t.overwrittenBytes == a.bytes + Total(a.sizes) + t.admittedBytes
    decreases |events|
  {
    hide Total;
    if events != [] {
      StepBalance(a, events[0]);
      hide Step, Admits, Overwrites;
      RunBalance(Step(a, events[0]), events[1..]);
    }
  }

  lemma StepBalance(a: Accounts, e: Event)
    ensures var r := Step(a, e);
            && r.files + r.active == a.files + a.active + (if Admits(a, e) then 1 else 0)
            && r.active - |r.sizes| == a.active - |a.sizes| + (if Overwrites(a, e) then 1 else 0)
            && r.bytes + Total(r.sizes) + (if Overwrites(a, e) then a.sizes[e.fd] else 0)
               == a.bytes + Total(a.sizes) + (if Admits(a, e) then e.size else 0)
  {
    hide Total;
    match e {
      case Download(fd, size) =>
        TotalWith(a.sizes, fd, size);
        SizeWith(a.sizes, fd, size);
      case WriteComplete(fd) =>
        if fd in a.sizes { TotalWithout(a.sizes, fd); }
        SizeWith(a.sizes, fd, 0);
    }
  }

  /** The accounts balance: admitted downloads are finished or active, no more are active than the limit allows,
      the tracked connections are all the active downloads exactly as long as none was overwritten, and the
      bytes add up. */
  ghost predicate Balanced(r: Accounts, t: Tally) {
    && r.files + r.active == t.admitted
    && |r.sizes| <= r.active
    && (|r.sizes| == r.active <==> t.overwritten == 0)
    && r.bytes == t.admittedBytes - t.overwrittenBytes - Total(r.sizes)
    && (r.limit > 0 ==> r.active <= r.limit)
  }

  /** Over every run of a server from its start. */
  lemma EveryRunBalances(limit: int, events: seq<Event>)
    ensures Balanced(Run(NoDownloads(limit), events), Count(NoDownloads(limit), events))
    ensures Run(NoDownloads(limit), events).limit == limit
  {
    RunBalance(NoDownloads(limit), events);
    RunKeepsLimit(NoDownloads(limit), events);
    assert Total(map[]) == 0;
    hide Run, Count, Total;
  }

  lemma {:induction false} RunKeepsLimit(a: Accounts, events: seq<Event>)
    requires a.limit > 0 ==> a.active <= a.limit
    ensures Run(a, events).limit == a.limit && (a.limit > 0 ==> Run(a, events).active <= a.limit)
    decreases |events|
  {
    if events != [] { RunKeepsLimit(Step(a, events[0]), events[1..]); }
  }

  // ---- downloads that never end ----

  /** The places of the limit that overwritten downloads have taken up. */
  function Leaked(a: Accounts): int { a.active - |a.sizes| }

  /** An overwriting admission needs a place of its own and one that is tracked, so the last place
      never goes. */
  lemma {:induction false} LeakBound(a: Accounts, events: seq<Event>)
    requires a.limit > 0 && a.active <= a.limit && Leaked(a) <= a.limit - 1
    ensures var r := Run(a, events); r.limit == a.limit && r.active <= a.limit && Leaked(r) <= a.limit - 1
    decreases |events|
  {
    if events != [] {
      StepBalance(a, events[0]);
      if Overwrites(a, events[0]) { SizeWith(a.sizes, events[0].fd, 0); }
      LeakBound(Step(a, events[0]), events[1..]);
    }
  }

  function Repeat(e: Event, n: nat): seq<Event> { if n == 0 then [] else [e] + Repeat(e, n - 1) }

  lemma {:induction false} Overwriting(a: Accounts, fd: int, size: nat, n: nat)
    requires a.sizes == map[fd := size] && a.active + n <= a.limit
    ensures Run(a, Repeat(Download(fd, size), n)) == a.(active := a.active + n)
    decreases n
  {
    if n > 0 {
      assert a.sizes[fd := size] == a.sizes;
      Overwriting(Step(a, Download(fd, size)), fd, size, n - 1);
      assert Repeat(Download(fd, size), n)[1..] == Repeat(Download(fd, size), n - 1);
    }
  }

  /** How much overwriting can take of the limit: over every run at most all places but one; and that
      many, when one connection fills the limit. */
  lemma LeakIsTight(limit: nat, events: seq<Event>, fd: int, size: nat)
    requires limit > 0
    ensures Leaked(Run(NoDownloads(limit), events)) <= limit - 1
    ensures Leaked(Run(NoDownloads(limit), Repeat(Download(fd, size), limit))) == limit - 1
  {
    LeakBound(NoDownloads(limit), events);
    var all := Repeat(Download(fd, size), limit);
    var first := Step(NoDownloads(limit), Download(fd, size));
    assert all[1..] == Repeat(Download(fd, size), limit - 1);
    assert first == Accounts(limit, 1, map[fd := size], 0, 0);
    Overwriting(first, fd, size, limit - 1);
  }

  /** No run leaves the server unable to admit a download ever again: completing what is tracked always
      makes room. */
  lemma NeverRefusesForGood(limit: int, events: seq<Event>)
    ensures exists more :: Count(Run(NoDownloads(limit), events), more).admitted > 0
  {
    RunKeepsLimit(NoDownloads(limit), events);
    var r := Run(NoDownloads(limit), events);
    if limit > 0 {
      LeakBound(NoDownloads(limit), events);
      var more := DrainThenAdmit(r);
    } else {
      assert Count(r, [Download(0, 0)]).admitted > 0;
    }
  }

  /** Completing what is tracked makes room for a download. */
  lemma {:induction false} DrainThenAdmit(a: Accounts) returns (events: seq<Event>)
    requires a.limit > 0 && Leaked(a) < a.limit
    ensures Count(a, events).admitted > 0
    decreases |a.sizes|
  {
    if exists fd :: fd in a.sizes {
      var fd :| fd in a.sizes;
      StepBalance(a, WriteComplete(fd));
      SizeWith(a.sizes, fd, 0);
      var rest := DrainThenAdmit(Step(a, WriteComplete(fd)));
      events := [WriteComplete(fd)] + rest;
      assert events[1..] == rest;
    } else {
      assert a.sizes.Keys == {};
      events := [Download(0, 0)];
    }
  }

  // ---- a full server ----

  /** Nothing happens on the connections that are tracked. */
  predicate Silent(a: Accounts, events: seq<Event>) {
    forall e <- events :: e.WriteComplete? ==> e.fd !in a.sizes
  }

  lemma {:induction false} StaysFull(a: Accounts, events: seq<Event>)
    requires Full(a) && Silent(a, events)
    ensures Run(a, events) == a && Count(a, events).admitted == 0
    decreases |events|
  {
    if events != [] {
      assert events[0] in events;
      StaysFull(a, events[1..]);
    }
  }

  /** A full server, whatever else happens, admits a download only after a write has completed on a
      connection it tracks; and one such completion is enough. */
  lemma FullUntilCompletion(a: Accounts, events: seq<Event>, done: int, next: Event)
    requires Full(a) && a.active == a.limit
    ensures Count(a, events).admitted > 0 ==> exists e <- events :: e.WriteComplete? && e.fd in a.sizes
    ensures next.Download? ==> (Count(a, [WriteComplete(done), next]).admitted > 0 <==> done in a.sizes)
  {
    if Silent(a, events) { StaysFull(a, events); }
    var both := [WriteComplete(done), next];
    var after := Step(a, WriteComplete(done));
    assert both[1..] == [next] && [next][1..] == [];
    assert Count(after, [next]).admitted
           == (if Admits(after, next) then 1 else 0) + Count(Step(after, next), []).admitted;
    assert Count(a, both) == Count(a, [both[0]] + both[1..]);
    assert Count(a, both).admitted == Count(after, [next]).admitted;
  }

  function DownloadsOn(fds: seq<int>, size: nat): seq<Event> {
    if fds == [] then [] else [Download(fds[0], size)] + DownloadsOn(fds[1..], size)
  }

  /** As many downloads as the limit allows, on connections of their own, fill the server. */
  lemma {:induction false} FilledBy(a: Accounts, fds: seq<int>, size: nat)
    requires a.limit > 0 && a.active + |fds| <= a.limit
    requires forall i, j :: 0 <= i < j < |fds| ==> fds[i] != fds[j]
    requires forall fd <- fds :: fd !in a.sizes
    ensures var r := Run(a, DownloadsOn(fds, size));
            && r.active == a.active + |fds| && r.limit == a.limit && r.files == a.files && r.bytes == a.bytes
            && r.sizes.Keys == a.sizes.Keys + set fd | fd in fds
    decreases |fds|
  {
    if fds != [] {
      var e := Download(fds[0], size);
      assert DownloadsOn(fds, size)[1..] == DownloadsOn(fds[1..], size);
      assert fds[0] in fds;
      FilledBy(Step(a, e), fds[1..], size);
      assert fds == [fds[0]] + fds[1..];
      assert a.sizes[fds[0] := size].Keys == a.sizes.Keys + {fds[0]};
    }
  }
}
