/** The thread pool: its two critical sections on the shared queue, and every interleaving of
    workers, enqueuers and shutdown as a transition system over them. */
module ThreadPool {
  import opened Strings

  // ---- the critical sections ----

  /** What a worker finds when it holds the mutex and its wait predicate has been evaluated. */
  datatype Decision<T> = Block | Quit | Take(task: T, rest: seq<T>)

  function Decide<T>(tasks: seq<T>, stop: bool): Decision<T> {
    if !stop && tasks == [] then Block
    else if tasks == [] then Quit
    else Take(tasks[0], tasks[1..])
  }

  /** The queue after an accepted enqueue; None when the queue is full and enqueue throws. */
  function Push<T>(tasks: seq<T>, maxQueueSize: nat, task: T): Option<seq<T>> {
    if maxQueueSize > 0 && |tasks| >= maxQueueSize then None else Some(tasks + [task])
  }

  class ThreadPool<T> {
    var tasks: seq<T>
    var stop: bool
    const maxQueueSize: nat

    constructor (maxQueueSize: nat)
      ensures tasks == [] && !stop && this.maxQueueSize == maxQueueSize
    {
      tasks, stop, this.maxQueueSize := [], false, maxQueueSize;
    }

    /** The locked part of enqueue. */
    method Enqueue(task: T) returns (threw: bool)
      modifies this`tasks
      ensures threw == Push(old(tasks), maxQueueSize, task).None?
      ensures tasks == if threw then old(tasks) else Push(old(tasks), maxQueueSize, task).value
      ensures threw <==> maxQueueSize > 0 && |old(tasks)| >= maxQueueSize
    {
      if maxQueueSize > 0 && |tasks| >= maxQueueSize { return true; }
      tasks := tasks + [task];
      return false;
    }

    /** The locked part of the worker loop, from one evaluation of the wait predicate. */
    method WorkerSection() returns (decision: Decision<T>)
      modifies this`tasks
      ensures decision == Decide(old(tasks), stop)
      ensures tasks == if decision.Take? then decision.rest else old(tasks)
    {
      if !(stop || |tasks| > 0) { return Block; }
      if stop && |tasks| == 0 { return Quit; }
      var task := tasks[0];
      tasks := tasks[1..];
      return Take(task, tasks);
    }

    /** The locked part of the destructor. */
    method RequestStop()
      modifies this`stop
      ensures stop
    {
      stop := true;
    }
  }

  // ---- interleavings ----

  /** Where a worker thread is: about to lock and look, waiting on the condition variable, running
      a task, or gone. */
  datatype Worker<T> = Ready | Asleep | Running(task: T) | Exited

  datatype State<T> = State(
    workers: seq<Worker<T>>,
    tasks: seq<T>,
    stop: bool,
    maxQueueSize: nat,
    notifies: nat,            // notify_one calls still to be made by enqueuers that have unlocked
    broadcast: bool,          // the destructor has called notify_all
    accepted: seq<T>,         // history: tasks enqueued without a throw, in order
    taken: seq<T>,            // history: tasks taken from the queue, in order
    ran: seq<T>)              // history: tasks that have run to their end

  datatype Action<T> =
    | Outside(task: T)                    // enqueue by a thread that is not a worker
    | Inside(w: nat, task: T)             // enqueue by the task a worker is running
    | NotifyOne(w: nat)                   // a pending notify_one, waking worker w if any is asleep
    | Spurious(w: nat)                    // a wake-up out of nothing
    | Look(w: nat)                        // a ready worker locks, evaluates its predicate, acts on it
    | Done(w: nat)                        // a task ends, normally or with an exception
    | Stop                                // the destructor sets the flag
    | NotifyAll                           // and wakes everybody

  function Start<T>(numThreads: nat, maxQueueSize: nat): State<T> {
    State(seq(numThreads, _ => Ready), [], false, maxQueueSize, 0, false, [], [], [])
  }

  predicate AnyAsleep<T(==)>(s: State<T>) { Asleep in s.workers }

  /** A pool may not be used from outside once its destructor runs; tasks may still use it. */
  predicate Enabled<T(==)>(s: State<T>, a: Action<T>) {
    match a
    case Outside(_) => !s.stop
    case Inside(w, _) => w < |s.workers| && s.workers[w].Running?
    case NotifyOne(w) => s.notifies > 0 && (AnyAsleep(s) ==> w < |s.workers| && s.workers[w].Asleep?)
    case Spurious(w) => w < |s.workers| && s.workers[w].Asleep?
    case Look(w) => w < |s.workers| && s.workers[w].Ready?
    case Done(w) => w < |s.workers| && s.workers[w].Running?
    case Stop => !s.stop
    case NotifyAll => s.stop && !s.broadcast
  }

  function Enqueued<T>(s: State<T>, task: T): State<T> {
    match Push(s.tasks, s.maxQueueSize, task)
    case None => s
    case Some(q) => s.(tasks := q, accepted := s.accepted + [task], notifies := s.notifies + 1)
  }

  function Next<T(==)>(s: State<T>, a: Action<T>): State<T>
    requires Enabled(s, a)
  {
    match a
    case Outside(task) => Enqueued(s, task)
    case Inside(_, task) => Enqueued(s, task)
    case NotifyOne(w) =>
      s.(notifies := s.notifies - 1, workers := if AnyAsleep(s) then s.workers[w := Ready] else s.workers)
    case Spurious(w) => s.(workers := s.workers[w := Ready])
    case Look(w) =>
      (match Decide(s.tasks, s.stop)
       case Block => s.(workers := s.workers[w := Asleep])
       case Quit => s.(workers := s.workers[w := Exited])
       case Take(task, rest) => s.(workers := s.workers[w := Running(task)], tasks := rest, taken := s.taken + [task]))
    case Done(w) => s.(workers := s.workers[w := Ready], ran := s.ran + [s.workers[w].task])
    case Stop => s.(stop := true)
    case NotifyAll =>
      s.(broadcast := true, workers := WakeAll(s.workers))
  }

  /** All states a pool can reach by some interleaving. */
  ghost predicate Reaches<T>(s: State<T>, actions: seq<Action<T>>, r: State<T>)
    decreases |actions|
  {
    if actions == [] then s == r
    else Enabled(s, actions[0]) && Reaches(Next(s, actions[0]), actions[1..], r)
  }

  // ---- counting workers ----

  ghost function One(b: bool): nat { if b then 1 else 0 }

  ghost function Holds<T>(w: Worker<T>): multiset<T> {
    if w.Running? then multiset{w.task} else multiset{}
  }

  /** Steps a worker takes, at most, before it looks at the queue and finds nothing. */
  ghost function Weight<T>(w: Worker<T>): nat {
    if w.Ready? then 1 else if w.Running? then 2 else 0
  }

  ghost function Awake<T>(workers: seq<Worker<T>>): nat {
    if workers == [] then 0 else Awake(workers[1..]) + One(workers[0].Ready? || workers[0].Running?)
  }

  ghost function Gone<T>(workers: seq<Worker<T>>): nat {
    if workers == [] then 0 else Gone(workers[1..]) + One(workers[0].Exited?)
  }

  ghost function Load<T>(workers: seq<Worker<T>>): nat {
    if workers == [] then 0 else Load(workers[1..]) + Weight(workers[0])
  }

  /** The tasks workers are running. */
  ghost function InHand<T>(workers: seq<Worker<T>>): multiset<T> {
    if workers == [] then multiset{} else InHand(workers[1..]) + Holds(workers[0])
  }

  lemma {:induction false} ChangeCounts<T>(workers: seq<Worker<T>>, w: nat, to: Worker<T>)
    requires w < |workers|
    ensures Awake(workers[w := to]) + One(workers[w].Ready? || workers[w].Running?)
            == Awake(workers) + One(to.Ready? || to.Running?)
    ensures Gone(workers[w := to]) + One(workers[w].Exited?) == Gone(workers) + One(to.Exited?)
    ensures Load(workers[w := to]) + Weight(workers[w]) == Load(workers) + Weight(to)
  {
    if w == 0 {
      assert workers[w := to][1..] == workers[1..];
    } else {
      ChangeCounts(workers[1..], w - 1, to);
      assert workers[w := to][1..] == workers[1..][w - 1 := to];
    }
  }

  lemma {:induction false} ChangeHands<T>(workers: seq<Worker<T>>, w: nat, to: Worker<T>)
    requires w < |workers|
    ensures InHand(workers[w := to]) + Holds(workers[w]) == InHand(workers) + Holds(to)
  {
    hide Holds;
    var after := workers[w := to];
    if w == 0 {
      assert after[1..] == workers[1..];
      Swap(Holds(to), Holds(workers[0]), InHand(workers[1..]), Holds(workers[0]), Holds(to));
    } else {
      ChangeHands(workers[1..], w - 1, to);
      assert after[1..] == workers[1..][w - 1 := to];
      Swap(InHand(after[1..]), InHand(workers[1..]), Holds(workers[0]), Holds(workers[w]), Holds(to));
    }
  }

  lemma ChangeInHand<T>(workers: seq<Worker<T>>, w: nat, to: Worker<T>)
    requires w < |workers|
    ensures !workers[w].Running? && !to.Running? ==> InHand(workers[w := to]) == InHand(workers)
    ensures !workers[w].Running? && to.Running? ==> InHand(workers[w := to]) == InHand(workers) + multiset{to.task}
    ensures workers[w].Running? && !to.Running? ==>
              InHand(workers) == InHand(workers[w := to]) + multiset{workers[w].task}
  {
    hide InHand;
    ChangeHands(workers, w, to);
    var after, before := InHand(workers[w := to]), InHand(workers);
    assert after + multiset{} == after && before + multiset{} == before;
  }

  lemma Swap<T>(x: multiset<T>, y: multiset<T>, h: multiset<T>, was: multiset<T>, to: multiset<T>)
    requires x + was == y + to
    ensures (x + h) + was == (y + h) + to
  {
    forall e
      ensures ((x + h) + was)[e] == ((y + h) + to)[e]
    {
      assert (x + was)[e] == (y + to)[e];
    }
  }

  lemma {:induction false} Counts<T>(workers: seq<Worker<T>>)
    ensures Awake(workers) + Gone(workers) <= |workers|
    ensures Awake(workers) + Gone(workers) == |workers| <==> Asleep !in workers
    ensures Gone(workers) == |workers| <==> forall w <- workers :: w.Exited?
    ensures Gone(workers) == |workers| ==> InHand(workers) == multiset{}
  {
    if workers != [] {
      Counts(workers[1..]);
      assert workers == [workers[0]] + workers[1..];
    }
  }

  function WakeAll<T>(workers: seq<Worker<T>>): seq<Worker<T>> {
    seq(|workers|, i requires 0 <= i < |workers| => Woken(workers[i]))
  }

  function Woken<T>(w: Worker<T>): Worker<T> {
    if w.Asleep? then Ready else w
  }

  lemma WakeAllStep<T>(workers: seq<Worker<T>>)
    requires workers != []
    ensures WakeAll(workers) == [Woken(workers[0])] + WakeAll(workers[1..])
  {
  }

  lemma {:induction false} WakeAllCounts<T>(workers: seq<Worker<T>>)
    ensures Asleep !in WakeAll(workers) && |WakeAll(workers)| == |workers|
    ensures Gone(WakeAll(workers)) == Gone(workers) && InHand(WakeAll(workers)) == InHand(workers)
    ensures Awake(WakeAll(workers)) >= Awake(workers)
  {
    if workers != [] {
      WakeAllCounts(workers[1..]);
      WakeAllStep(workers);
      hide WakeAll;
      assert WakeAll(workers)[1..] == WakeAll(workers[1..]);
    }
  }

  // ---- invariants ----

  /** First in, first out, each accepted task once: taken followed by queued is accepted. */
  ghost predicate Fifo<T>(s: State<T>) {
    s.accepted == s.taken + s.tasks
  }

  /** A task that was taken has run, or is being run. */
  ghost predicate Conserved<T>(s: State<T>) {
    multiset(s.taken) == multiset(s.ran) + InHand(s.workers)
  }

  ghost predicate Bounded<T>(s: State<T>) {
    s.maxQueueSize > 0 ==> |s.tasks| <= s.maxQueueSize
  }

  /** No lost wake-up: for every task that waits there is a worker awake or a notification on its
      way, up to the number of workers there are. */
  ghost predicate Attended<T>(s: State<T>) {
    s.notifies + Awake(s.workers) >= |s.tasks| || s.notifies + Awake(s.workers) + Gone(s.workers) >= |s.workers|
  }

  /** Workers leave only after the stop, never leave the queue unattended, and do not sleep once the
      destructor has woken everybody. */
  ghost predicate Orderly<T>(s: State<T>) {
    && (!s.stop ==> Gone(s.workers) == 0)
    && (s.broadcast ==> s.stop && Asleep !in s.workers)
    && (s.workers != [] && Gone(s.workers) == |s.workers| ==> s.tasks == [])
  }

  ghost predicate Inv<T>(s: State<T>) {
    Fifo(s) && Conserved(s) && Bounded(s) && Attended(s) && Orderly(s)
  }

  lemma StepKeepsFifo<T>(s: State<T>, a: Action<T>)
    requires Enabled(s, a) && Fifo(s) && Bounded(s)
    ensures Fifo(Next(s, a)) && Bounded(Next(s, a))
  {
  }

  lemma StepKeepsConserved<T>(s: State<T>, a: Action<T>)
    requires Enabled(s, a) && Conserved(s)
    ensures Conserved(Next(s, a))
  {
    hide InHand;
    match a {
      case NotifyOne(w) => if AnyAsleep(s) { ChangeInHand(s.workers, w, Ready); }
      case Spurious(w) => ChangeInHand(s.workers, w, Ready);
      case Look(w) => LookKeepsConserved(s, w);
      case Done(w) => DoneKeepsConserved(s, w);
      case NotifyAll => WakeAllCounts(s.workers);
      case _ =>
    }
  }

  lemma LookKeepsConserved<T>(s: State<T>, w: nat)
    requires Enabled(s, Look(w)) && Conserved(s)
    ensures Conserved(Next(s, Look(w)))
  {
    hide InHand;
    if s.tasks != [] {
      ChangeInHand(s.workers, w, Running(s.tasks[0]));
      TakenOneMore(s.taken, multiset(s.ran), InHand(s.workers), s.tasks[0]);
    } else {
      ChangeInHand(s.workers, w, if s.stop then Exited else Asleep);
    }
  }

  lemma TakenOneMore<T>(taken: seq<T>, ran: multiset<T>, hand: multiset<T>, task: T)
    requires multiset(taken) == ran + hand
    ensures multiset(taken + [task]) == ran + (hand + multiset{task})
  {
  }

  lemma DoneKeepsConserved<T>(s: State<T>, w: nat)
    requires Enabled(s, Done(w)) && Conserved(s)
    ensures Conserved(Next(s, Done(w)))
  {
    hide InHand;
    ChangeInHand(s.workers, w, Ready);
    assert multiset(s.ran + [s.workers[w].task]) == multiset(s.ran) + multiset{s.workers[w].task};
  }

  lemma StepKeepsAttended<T>(s: State<T>, a: Action<T>)
    requires Enabled(s, a) && Attended(s) && Orderly(s)
    ensures Attended(Next(s, a)) && Orderly(Next(s, a))
  {
    hide Awake, Gone;
    Counts(s.workers);
    match a {
      case Inside(w, _) => assert s.workers[w] in s.workers;
      case NotifyOne(w) => if AnyAsleep(s) { ChangeCounts(s.workers, w, Ready); }
      case Spurious(w) => ChangeCounts(s.workers, w, Ready);
      case Look(w) => LookKeepsAttended(s, w);
      case Done(w) =>
        ChangeCounts(s.workers, w, Ready);
        assert s.workers[w] in s.workers;
      case NotifyAll => WakeAllCounts(s.workers);
      case _ =>
    }
  }

  lemma LookKeepsAttended<T>(s: State<T>, w: nat)
    requires Enabled(s, Look(w)) && Attended(s) && Orderly(s)
    ensures Attended(Next(s, Look(w))) && Orderly(Next(s, Look(w)))
  {
    hide Awake, Gone;
    Counts(s.workers);
    assert s.workers[w] in s.workers;
    ChangeCounts(s.workers, w,
                 match Decide(s.tasks, s.stop) case Block => Asleep case Quit => Exited case Take(t, _) => Running(t));
  }

  /** Every state reachable from one that satisfies the invariants satisfies them. */
  lemma {:induction false} ReachableInv<T>(s: State<T>, actions: seq<Action<T>>, r: State<T>)
    requires Inv(s) && Reaches(s, actions, r)
    ensures Inv(r) && |r.workers| == |s.workers| && r.maxQueueSize == s.maxQueueSize
    decreases |actions|
  {
    hide Next, Enabled, Fifo, Conserved, Bounded, Attended, Orderly;
    if actions != [] {
      var a := actions[0];
      StepKeepsFifo(s, a);
      StepKeepsConserved(s, a);
      StepKeepsAttended(s, a);
      StepKeepsSize(s, a);
      ReachableInv(Next(s, a), actions[1..], r);
    }
  }

  lemma StepKeepsSize<T>(s: State<T>, a: Action<T>)
    requires Enabled(s, a)
    ensures |Next(s, a).workers| == |s.workers| && Next(s, a).maxQueueSize == s.maxQueueSize
  {
  }

  lemma {:induction false} AllReady<T>(workers: seq<Worker<T>>)
    requires forall w <- workers :: w.Ready?
    ensures Awake(workers) == |workers| && Gone(workers) == 0 && InHand(workers) == multiset{}
  {
    if workers != [] { AllReady(workers[1..]); }
  }

  lemma StartInv<T>(numThreads: nat, maxQueueSize: nat)
    ensures Inv(Start<T>(numThreads, maxQueueSize))
  {
    AllReady(Start<T>(numThreads, maxQueueSize).workers);
  }

  // ---- what every run guarantees ----

  /** Safety in every reachable state: tasks leave the queue in the order they were accepted, each
      one once; the queue keeps its bound; and every task taken has run or is running. */
  lemma EveryRunIsSafe<T>(numThreads: nat, maxQueueSize: nat, actions: seq<Action<T>>, r: State<T>)
    requires Reaches(Start(numThreads, maxQueueSize), actions, r)
    ensures r.taken <= r.accepted && r.tasks == r.accepted[|r.taken|..]
    ensures maxQueueSize > 0 ==> |r.tasks| <= maxQueueSize
    ensures multiset(r.taken) == multiset(r.ran) + InHand(r.workers)
  {
    StartInv<T>(numThreads, maxQueueSize);
    ReachableInv(Start(numThreads, maxQueueSize), actions, r);
  }

  /** While a task waits, some worker is awake or a notification is pending, provided the pool has
      a worker at all. */
  lemma NoLostWakeup<T>(numThreads: nat, maxQueueSize: nat, actions: seq<Action<T>>, r: State<T>)
    requires Reaches(Start(numThreads, maxQueueSize), actions, r)
    requires numThreads > 0 && r.tasks != []
    ensures r.notifies > 0 || exists w <- r.workers :: w.Ready? || w.Running?
  {
    StartInv<T>(numThreads, maxQueueSize);
    ReachableInv(Start(numThreads, maxQueueSize), actions, r);
    Counts(r.workers);
    SomeAwake(r.workers);
  }

  lemma {:induction false} SomeAwake<T>(workers: seq<Worker<T>>)
    ensures Awake(workers) > 0 ==> exists w <- workers :: w.Ready? || w.Running?
  {
    if workers != [] {
      SomeAwake(workers[1..]);
      assert workers[0] in workers;
    }
  }

  /** Shutdown drains: once all workers have exited, nothing is queued and every accepted task has
      run exactly once, tasks enqueued by running tasks during the shutdown included. This holds
      exactly for pools that have a worker, or were never given a task. */
  lemma DrainedIff<T>(numThreads: nat, maxQueueSize: nat, actions: seq<Action<T>>, r: State<T>)
    requires Reaches(Start(numThreads, maxQueueSize), actions, r)
    requires forall w <- r.workers :: w.Exited?
    ensures (r.tasks == [] && multiset(r.ran) == multiset(r.accepted)) <==> numThreads > 0 || r.accepted == []
  {
    var start := Start<T>(numThreads, maxQueueSize);
    StartInv<T>(numThreads, maxQueueSize);
    ReachableInv(start, actions, r);
    Counts(r.workers);
    if numThreads > 0 {
      assert r.taken + [] == r.taken;
    } else {
      NothingTaken(start, actions, r);
      assert [] + r.tasks == r.tasks;
      assert |multiset(r.ran)| == |r.ran| && |multiset(r.accepted)| == |r.accepted|;
    }
  }

  lemma {:induction false} NothingTaken<T>(s: State<T>, actions: seq<Action<T>>, r: State<T>)
    requires s.workers == [] && Reaches(s, actions, r)
    ensures r.workers == [] && r.taken == s.taken && r.ran == s.ran
    decreases |actions|
  {
    if actions != [] { NothingTaken(Next(s, actions[0]), actions[1..], r); }
  }

  // ---- what is accepted ----

  /** The queue takes one more task: it has no bound, or is below it. */
  predicate Room<T>(s: State<T>) { s.maxQueueSize == 0 || |s.tasks| < s.maxQueueSize }

  /** An enqueue that finds room appends its task; one that does not changes nothing. */
  lemma EnqueueIff<T>(s: State<T>, a: Action<T>)
    requires Enabled(s, a) && (a.Outside? || a.Inside?)
    ensures Next(s, a)
            == if !Room(s) then s
               else s.(tasks := s.tasks + [a.task], accepted := s.accepted + [a.task], notifies := s.notifies + 1)
  {
  }

  function Offered<T>(s: State<T>, a: Action<T>): seq<T> {
    if (a.Outside? || a.Inside?) && Room(s) then [a.task] else []
  }

  lemma AcceptedStep<T>(s: State<T>, a: Action<T>)
    requires Enabled(s, a)
    ensures Next(s, a).accepted == s.accepted + Offered(s, a)
  {
    if a.Outside? || a.Inside? { EnqueueIff(s, a); }
  }

  /** What each step makes of the workers: nobody moves but the one it is about, or, at the broadcast, those
      asleep. A worker that looks takes the oldest task if there is one, leaves if the pool has been stopped,
      and else goes to sleep; a notification wakes one if any is asleep. */
  lemma WorkerSteps<T>(s: State<T>, a: Action<T>, v: nat)
    requires Enabled(s, a) && v < |s.workers|
    ensures |Next(s, a).workers| == |s.workers|
    ensures var now, was := Next(s, a).workers[v], s.workers[v];
            match a
            case Look(w) =>
              if v != w then now == was
              else if s.tasks != [] then now == Running(s.tasks[0]) && Next(s, a).tasks == s.tasks[1..]
              else now == if s.stop then Exited else Asleep
            case Done(w) => if v != w then now == was else now == Ready && Next(s, a).ran == s.ran + [was.task]
            case NotifyOne(w) => now == if v == w && was.Asleep? then Ready else was
            case Spurious(w) => now == if v == w then Ready else was
            case NotifyAll => now == if was.Asleep? then Ready else was
            case _ => now == was
  {
  }

  /** The tasks that a run enqueues while there is room, in order. */
  ghost function Welcome<T>(s: State<T>, actions: seq<Action<T>>): seq<T>
    decreases |actions|
  {
    if actions == [] || !Enabled(s, actions[0]) then []
    else
      Offered(s, actions[0]) + Welcome(Next(s, actions[0]), actions[1..])
  }

  /** Over every run: accepted are exactly these. */
  lemma {:induction false} AcceptedIff<T>(s: State<T>, actions: seq<Action<T>>, r: State<T>)
    requires Reaches(s, actions, r)
    ensures r.accepted == s.accepted + Welcome(s, actions)
    decreases |actions|
  {
    if actions != [] {
      hide Next, Enabled, Offered;
      var a := actions[0];
      AcceptedStep(s, a);
      AcceptedIff(Next(s, a), actions[1..], r);
      Assoc(s.accepted, Offered(s, a), Welcome(Next(s, a), actions[1..]));
    }
  }

  function Outsides<T>(tasks: seq<T>): seq<Action<T>> {
    if tasks == [] then [] else [Outside(tasks[0])] + Outsides(tasks[1..])
  }

  lemma {:induction false} FillsFrom<T>(s: State<T>, tasks: seq<T>, r: State<T>)
    requires s.maxQueueSize == 0 || |s.tasks| <= s.maxQueueSize
    requires Reaches(s, Outsides(tasks), r)
    ensures var n := if s.maxQueueSize == 0 || |s.tasks| + |tasks| <= s.maxQueueSize then |tasks|
                     else s.maxQueueSize - |s.tasks|;
            r.tasks == s.tasks + tasks[..n] && r.accepted == s.accepted + tasks[..n]
    decreases |tasks|
  {
    if tasks != [] {
      assert Outsides(tasks)[0] == Outside(tasks[0]) && Outsides(tasks)[1..] == Outsides(tasks[1..]);
      EnqueueIff(s, Outside(tasks[0]));
      FillsFrom(Next(s, Outside(tasks[0])), tasks[1..], r);
      assert forall n :: 1 <= n <= |tasks| ==> tasks[..n] == [tasks[0]] + tasks[1..][..n - 1];
    }
  }

  /** With its workers standing still, a pool accepts all tasks if its queue has no bound, and else exactly
      as many as the bound says, the first ones. */
  lemma FillsUp<T>(numThreads: nat, maxQueueSize: nat, tasks: seq<T>, r: State<T>)
    requires Reaches(Start(numThreads, maxQueueSize), Outsides(tasks), r)
    ensures r.accepted == r.tasks
    ensures r.tasks == if maxQueueSize == 0 || |tasks| <= maxQueueSize then tasks else tasks[..maxQueueSize]
  {
    FillsFrom(Start(numThreads, maxQueueSize), tasks, r);
    assert tasks[..|tasks|] == tasks;
  }

  // ---- shutdown ends ----

  /** An upper bound on the worker steps still to come once the stop is on. */
  ghost function Remaining<T>(s: State<T>): nat {
    Load(s.workers) + 3 * |s.tasks| + s.notifies
  }

  /** After the broadcast a worker that is not gone can always move: no deadlock in the join. */
  lemma NoDeadlock<T>(s: State<T>, w: nat)
    requires Inv(s) && s.broadcast && w < |s.workers| && !s.workers[w].Exited?
    ensures Enabled(s, Look(w)) || Enabled(s, Done(w))
  {
  }

  /** And every step other than a running task's own enqueue brings the end nearer, so a shutdown
      during which tasks enqueue finitely often joins all its workers. */
  lemma ShutdownProgress<T>(s: State<T>, a: Action<T>)
    requires Inv(s) && s.broadcast && Enabled(s, a)
    ensures if a.Inside? then Remaining(Next(s, a)) <= Remaining(s) + 4
            else Remaining(Next(s, a)) < Remaining(s)
  {
    hide Load;
    assert forall i :: 0 <= i < |s.workers| ==> s.workers[i] in s.workers;
    match a {
      case Look(w) =>
        var to := match Decide(s.tasks, s.stop) case Block => Asleep case Quit => Exited case Take(t, _) => Running(t);
        ChangeCounts(s.workers, w, to);
      case Done(w) => ChangeCounts(s.workers, w, Ready);
      case _ =>
    }
  }

  /** How often running tasks enqueue in a run. */
  function Insides<T>(actions: seq<Action<T>>): nat
    decreases |actions|
  {
    if actions == [] then 0 else (if actions[0].Inside? then 1 else 0) + Insides(actions[1..])
  }

  lemma StepKeepsBroadcast<T>(s: State<T>, a: Action<T>)
    requires Enabled(s, a) && Inv(s)
    ensures Inv(Next(s, a)) && (s.broadcast ==> Next(s, a).broadcast)
  {
    hide Fifo, Conserved, Bounded, Attended, Orderly;
    StepKeepsFifo(s, a);
    StepKeepsConserved(s, a);
    StepKeepsAttended(s, a);
  }

  /** The shutdown ends: after the broadcast no run is longer than the work there was, plus five steps for
      each task that running tasks enqueue meanwhile; and where no worker can move any more, all of
      them have exited, so the destructor's joins return. */
  lemma {:induction false} ShutdownEnds<T>(s: State<T>, actions: seq<Action<T>>, r: State<T>)
    requires Inv(s) && s.broadcast && Reaches(s, actions, r)
    ensures |actions| + Remaining(r) <= Remaining(s) + 5 * Insides(actions)
    ensures (forall w: nat :: w < |r.workers| ==> !Enabled(r, Look(w)) && !Enabled(r, Done(w))) ==>
              forall w <- r.workers :: w.Exited?
    decreases |actions|
  {
    hide Remaining;
    if actions != [] {
      hide Inv, Next, Enabled;
      StepKeepsBroadcast(s, actions[0]);
      ShutdownProgress(s, actions[0]);
      ShutdownEnds(Next(s, actions[0]), actions[1..], r);
    } else if forall w: nat :: w < |r.workers| ==> !Enabled(r, Look(w)) && !Enabled(r, Done(w)) {
      hide Inv;
      forall w: nat | w < |r.workers|
        ensures r.workers[w].Exited?
      {
        assert !Enabled(r, Look(w)) && !Enabled(r, Done(w));
        if !r.workers[w].Exited? { NoDeadlock(r, w); }
      }
    }
  }

  /** A pool without workers takes a task, shuts down, and never runs it. */
  lemma NoWorkerNeverRuns<T>(task: T)
    ensures exists actions, r ::
              && Reaches(Start<T>(0, 0), actions, r) && r.broadcast && (forall w <- r.workers :: w.Exited?)
              && r.accepted == [task] && r.ran == [] && r.tasks == [task]
  {
    var s := Start<T>(0, 0);
    var s1 := Next(s, Outside(task));
    var s2 := Next(s1, Stop);
    var r := Next(s2, NotifyAll);
    assert r.accepted == [task] && r.tasks == [task];
    var last: seq<Action<T>> := [NotifyAll];
    assert last[1..] == [] && ([Stop] + last)[1..] == last && ([Outside(task)] + ([Stop] + last))[1..] == [Stop] + last;
    assert Reaches(r, [], r);
    assert Reaches(s2, last, r);
    assert Reaches(s1, [Stop] + last, r);
    assert Reaches(s, [Outside(task)] + ([Stop] + last), r);
  }
}
