/** The worker pool: any number of posters, one controller that starts and stops the pool, and its workers,
    interleaved at every access to the mutex and to the two atomic flags.

    Tasks are numbered in the order in which they are accepted.  `accepted`, `mark`, `seen` and `ran` are history: how
    many tasks have been accepted so far, how many had been when the last stop() cleared `running`, how many had been
    when a worker last decided to leave, and which have been run, in order. */
module WorkerPool {
  // ---------------------------------------------------------------- states and steps

  // Where a worker is.  It holds the mutex from Asking to Granted, in Took, Empty, Releasing and Leaving.
  datatype Worker =
    | AtLock             // about to lock the mutex
    | Asking             // wait predicate: is the queue empty?
    | AskClosed          // wait predicate: queue_closed_
    | AskStopped         // wait predicate: running_, after queue_closed_ was seen
    | AskRunning         // wait predicate: running_ by itself
    | Asleep             // waiting, the mutex released
    | Granted            // the wait is over
    | Took(task: nat)
    | Empty              // nothing to take
    | Releasing          // goes round the loop
    | Leaving            // leaves the loop
    | Running(task: nat)
    | Exited

  datatype Lock = Free | ByWorker(i: nat) | ByPoster(admitted: bool)

  datatype Control = Ready | Opening | Spawning | Closing | Joining(k: nat)

  datatype Pool = Pool(size: nat, running: bool, closed: bool, queue: seq<nat>, lock: Lock, workers: seq<Worker>,
                       control: Control, accepted: nat, mark: nat, seen: nat, ran: seq<int>)

  datatype Action = Work(i: nat) | PosterLocks | PosterGoesOn | Start | Stop

  function Init(size: nat): Pool {
    Pool(size, false, false, [], Free, [], Ready, 0, 0, 0, [])
  }

  // Where a worker goes next; one that waits for the mutex stays where it is while the mutex is held.
  function Next(s: Pool, w: Worker): Worker {
    match w
    case AtLock => if s.lock.Free? then Asking else AtLock
    case Asleep => if s.lock.Free? then Asking else Asleep
    case Asking => if s.queue != [] then Granted else AskClosed
    case AskClosed => if s.closed then AskStopped else AskRunning
    case AskStopped => if !s.running then Granted else AskRunning
    case AskRunning => if !s.running then Granted else Asleep
    case Granted => if s.queue != [] then Took(s.queue[0]) else Empty
    case Took(t) => Running(t)
    case Empty => if !s.running then Leaving else Releasing
    case Releasing => AtLock
    case Leaving => Exited
    case Running(_) => AtLock
    case Exited => Exited
  }

  // Falling asleep, starting a task, going round and leaving release the mutex.
  function LockAfter(s: Pool, i: nat, w: Worker): Lock {
    if w.AtLock? || w.Asleep? then (if s.lock.Free? then ByWorker(i) else s.lock)
    else if (w.AskRunning? && s.running) || w.Took? || w.Releasing? || w.Leaving? then Free
    else s.lock
  }

  function WorkerStep(s: Pool, i: nat): Pool
    requires i < |s.workers|
  {
    var w := s.workers[i];
    s.(workers := s.workers[i := Next(s, w)],
       lock := LockAfter(s, i, w),
       queue := if w.Granted? && s.queue != [] then s.queue[1..] else s.queue,
       ran := if w.Running? then s.ran + [w.task] else s.ran,
       seen := if w.Empty? && !s.running then s.accepted else s.seen)
  }

  // A poster that has the mutex looks at queue_closed_, then pushes; a refused task is dropped.
  function PosterStep(s: Pool): Pool {
    if s.lock == ByPoster(false) then s.(lock := if s.closed then Free else ByPoster(true))
    else if s.lock == ByPoster(true) then s.(queue := s.queue + [s.accepted], accepted := s.accepted + 1, lock := Free)
    else s
  }

  // The controller calls start() or stop(); both do nothing if there is nothing to do.
  function ControlStep(s: Pool, stop: bool): Pool {
    match s.control
    case Ready =>
      if !stop && !s.running then s.(running := true, control := Opening)
      else if stop && s.running then s.(running := false, mark := s.accepted, control := Closing)
      else s
    case Opening => s.(closed := false, control := Spawning)
    case Spawning => if |s.workers| < s.size then s.(workers := s.workers + [AtLock]) else s.(control := Ready)
    case Closing => s.(closed := true, control := Joining(0))
    case Joining(k) =>
      if k >= |s.workers| then s.(workers := [], control := Ready)
      else if s.workers[k].Exited? then s.(control := Joining(k + 1))
      else s
  }

  function Step(s: Pool, a: Action): Pool {
    match a
    case Work(i) => if i < |s.workers| then WorkerStep(s, i) else s
    case PosterLocks => if s.lock.Free? then s.(lock := ByPoster(false)) else s
    case PosterGoesOn => PosterStep(s)
    case Start => ControlStep(s, false)
    case Stop => ControlStep(s, true)
  }

  function Run(s: Pool, run: seq<Action>): Pool
    decreases |run|
  {
    if run == [] then s else Run(Step(s, run[0]), run[1..])
  }

  // ---------------------------------------------------------------- the invariant

  // How many tasks have been taken off the queue.
  function Dequeued(s: Pool): int {
    s.accepted - |s.queue|
  }

  // Accepted tasks are the dequeued ones followed by the queued ones, in the order in which they came.
  ghost predicate InOrder(s: Pool) {
    Dequeued(s) >= 0 && forall i | 0 <= i < |s.queue| :: s.queue[i] == Dequeued(s) + i
  }

  // What a worker has in hand, or -1.
  function Load(w: Worker): int {
    if w.Took? || w.Running? then w.task else -1
  }

  ghost predicate Distinct(ts: seq<int>) {
    forall i, j | 0 <= i < j < |ts| :: ts[i] != ts[j]
  }

  // Nothing is run twice, nor run while it is still in somebody's hands, nor before it is dequeued.
  ghost predicate Once(s: Pool) {
    Distinct(s.ran) && (forall t | t in s.ran :: 0 <= t < Dequeued(s)) &&
    (forall i | 0 <= i < |s.workers| :: Load(s.workers[i]) < Dequeued(s) && Load(s.workers[i]) !in s.ran) &&
    (forall i, j | 0 <= i < j < |s.workers| :: Load(s.workers[i]) == Load(s.workers[j]) ==> Load(s.workers[i]) < 0)
  }

  ghost predicate InHand(ws: seq<Worker>, t: int) {
    exists i | 0 <= i < |ws| :: Load(ws[i]) == t
  }

  // Nothing that was dequeued is lost.
  ghost predicate NoneLost(s: Pool) {
    forall t | 0 <= t < Dequeued(s) :: t in s.ran || InHand(s.workers, t)
  }

  predicate HoldsLock(w: Worker) {
    !w.AtLock? && !w.Asleep? && !w.Running? && !w.Exited?
  }

  ghost predicate Mutex(s: Pool) {
    (forall i | 0 <= i < |s.workers| :: HoldsLock(s.workers[i]) <==> s.lock == ByWorker(i)) &&
    (s.lock.ByWorker? ==> s.lock.i < |s.workers|)
  }

  // A worker with nothing to take sees an empty queue as long as it holds the mutex.
  ghost predicate SeesEmpty(s: Pool) {
    forall i | 0 <= i < |s.workers| :: s.workers[i].Empty? || s.workers[i].Leaving? ==> s.queue == []
  }

  ghost predicate Exclusive(s: Pool) {
    Mutex(s) && SeesEmpty(s)
  }

  // Workers leave only after stop() has cleared `running_`, and only when all that was accepted by then is dequeued.
  ghost predicate Departures(s: Pool) {
    s.mark <= s.accepted &&
    (forall i | 0 <= i < |s.workers| :: s.workers[i].Leaving? || s.workers[i].Exited? ==> !s.running) &&
    (forall i | 0 <= i < |s.workers| :: s.workers[i].Leaving? || s.workers[i].Exited? ==> Dequeued(s) >= s.mark)
  }

  ghost predicate Controlled(s: Pool) {
    (s.control.Ready? && !s.running ==> s.workers == []) &&
    (s.control.Ready? && s.running ==> |s.workers| == s.size) &&
    (s.control.Opening? ==> s.running && s.workers == []) &&
    (s.control.Spawning? ==> s.running && |s.workers| <= s.size) &&
    (s.control.Closing? || s.control.Joining? ==> !s.running && |s.workers| == s.size) &&
    (s.control.Joining? ==> s.control.k <= |s.workers| && forall i | 0 <= i < s.control.k :: s.workers[i].Exited?)
  }

  // What stop() has promised when it has returned.
  ghost predicate Drained(s: Pool) {
    s.size > 0 && s.control.Ready? && !s.running ==>
      s.mark <= Dequeued(s) && forall t | 0 <= t < s.mark :: t in s.ran
  }

  predicate Gone(w: Worker) {
    w.Leaving? || w.Exited?
  }

  // With all workers gone nothing has been dequeued since the last of them saw the queue empty.
  ghost predicate Settled(s: Pool) {
    (forall i | 0 <= i < |s.workers| :: Gone(s.workers[i])) ==> Dequeued(s) == s.seen
  }

  ghost predicate Invariant(s: Pool) {
    InOrder(s) && Once(s) && NoneLost(s) && Exclusive(s) && Departures(s) && Controlled(s) && Drained(s) &&
    Settled(s)
  }

  lemma WorkerKeepsOrder(s: Pool, i: nat)
    requires InOrder(s) && i < |s.workers|
    ensures InOrder(WorkerStep(s, i))
    ensures Dequeued(WorkerStep(s, i)) ==
            Dequeued(s) + if s.workers[i].Granted? && s.queue != [] then 1 else 0
  {
  }

  lemma OnceSameLoads(s: Pool, r: Pool)
    requires Once(s) && r.ran == s.ran && |r.workers| == |s.workers| && Dequeued(r) == Dequeued(s)
    requires forall j | 0 <= j < |s.workers| :: Load(r.workers[j]) == Load(s.workers[j])
    ensures Once(r)
  {
    hide Dequeued, Load;
  }

  lemma OnceTaken(s: Pool, r: Pool, i: nat)
    requires Once(s) && i < |s.workers| && Load(s.workers[i]) == -1
    requires r.ran == s.ran && Dequeued(r) == Dequeued(s) + 1
    requires r.workers == s.workers[i := Took(Dequeued(s))] && Dequeued(s) >= 0
    ensures Once(r)
  {
    hide Dequeued;
  }

  lemma OnceRun(s: Pool, r: Pool, i: nat)
    requires Once(s) && i < |s.workers| && Load(s.workers[i]) >= 0
    requires r.ran == s.ran + [Load(s.workers[i])] && Dequeued(r) == Dequeued(s)
    requires r.workers == s.workers[i := AtLock]
    ensures Once(r)
  {
    hide Dequeued;
    assert forall t | t in r.ran :: t in s.ran || t == Load(s.workers[i]);
  }

  lemma WorkerKeepsOnce(s: Pool, i: nat)
    requires InOrder(s) && Once(s) && i < |s.workers|
    ensures Once(WorkerStep(s, i))
  {
    var r := WorkerStep(s, i);
    hide Once;
    if s.workers[i].Granted? && s.queue != [] {
      QueueHead(s);
      OnceTaken(s, r, i);
    } else if s.workers[i].Running? {
      OnceRun(s, r, i);
    } else {
      OnceSameLoads(s, r);
    }
  }

  lemma QueueHead(s: Pool)
    requires InOrder(s) && s.queue != []
    ensures s.queue[0] == Dequeued(s)
  {
  }

  lemma WorkerKeepsAll(s: Pool, i: nat)
    requires InOrder(s) && NoneLost(s) && i < |s.workers|
    ensures NoneLost(WorkerStep(s, i))
  {
    WorkerKeepsOrder(s, i);
    var r := WorkerStep(s, i);
    assert s.queue != [] ==> s.queue[0] == Dequeued(s) by { if s.queue != [] { QueueHead(s); } }
    forall t | 0 <= t < Dequeued(r) ensures t in r.ran || InHand(r.workers, t) {
      hide InOrder;
      if t < Dequeued(s) {
        if t in s.ran {
          assert t in r.ran;
        } else {
          var j :| 0 <= j < |s.workers| && Load(s.workers[j]) == t;
          if s.workers[i].Running? && j == i {
            assert r.ran[|s.ran|] == t;
          } else {
            assert Load(r.workers[j]) == t;
          }
        }
      } else {
        assert Load(r.workers[i]) == t;
      }
    }
  }

  lemma WorkerKeepsMutex(s: Pool, i: nat)
    requires Mutex(s) && i < |s.workers|
    ensures Mutex(WorkerStep(s, i))
  {
  }

  lemma WorkerKeepsLock(s: Pool, i: nat)
    requires Exclusive(s) && i < |s.workers|
    ensures Exclusive(WorkerStep(s, i))
  {
    WorkerKeepsMutex(s, i);
    hide Mutex;
    assert SeesEmpty(WorkerStep(s, i));
  }

  lemma WorkerFrame(s: Pool, i: nat)
    requires i < |s.workers|
    ensures var r := WorkerStep(s, i);
            r.running == s.running && r.mark == s.mark && r.accepted == s.accepted && |r.queue| <= |s.queue| &&
            |r.workers| == |s.workers| && r.workers == s.workers[i := r.workers[i]]
  {
  }

  lemma WorkerLeaves(s: Pool, i: nat)
    requires i < |s.workers|
    ensures var r := WorkerStep(s, i);
            |r.workers| == |s.workers| &&
            (r.workers[i].Leaving? ==> s.workers[i].Empty? && !s.running) &&
            (r.workers[i].Exited? ==> s.workers[i].Leaving? || s.workers[i].Exited?)
  {
  }

  lemma WorkerDeparts(s: Pool, i: nat)
    requires Exclusive(s) && Departures(s) && i < |s.workers|
    ensures Departures(WorkerStep(s, i))
  {
    WorkerFrame(s, i);
    WorkerLeaves(s, i);
    hide WorkerStep;
  }

  lemma WorkerSettles(s: Pool, i: nat)
    requires Settled(s) && SeesEmpty(s) && i < |s.workers|
    ensures Settled(WorkerStep(s, i))
  {
    var r := WorkerStep(s, i);
    if forall k | 0 <= k < |r.workers| :: Gone(r.workers[k]) {
      assert Gone(r.workers[i]);
      forall k | 0 <= k < |s.workers| && k != i ensures Gone(s.workers[k]) {
        assert Gone(r.workers[k]);
      }
    }
  }

  lemma WorkerKeepsControl(s: Pool, i: nat)
    requires Controlled(s) && Drained(s) && i < |s.workers|
    ensures Controlled(WorkerStep(s, i)) && Drained(WorkerStep(s, i))
  {
  }

  lemma WorkerKeeps(s: Pool, i: nat)
    requires Invariant(s) && i < |s.workers|
    ensures Invariant(WorkerStep(s, i))
  {
    assert SeesEmpty(s);
    hide WorkerStep, InOrder, Once, NoneLost, Exclusive, Departures, Controlled, Drained, Settled;
    WorkerSettles(s, i);
    WorkerKeepsOrder(s, i);
    WorkerKeepsOnce(s, i);
    WorkerKeepsAll(s, i);
    WorkerKeepsLock(s, i);
    WorkerDeparts(s, i);
    WorkerKeepsControl(s, i);
  }

  lemma PosterKeeps(s: Pool)
    requires Invariant(s)
    ensures Invariant(PosterStep(s))
  {
    var r := PosterStep(s);
    assert Dequeued(r) == Dequeued(s);
    OnceSameLoads(s, r);
    assert InOrder(r) && Exclusive(r);
    hide Once, NoneLost, Dequeued;
    assert NoneLost(r) by { NoneLostSame(s, r); }
  }

  lemma NoneLostSame(s: Pool, r: Pool)
    requires NoneLost(s) && r.ran == s.ran && r.workers == s.workers && Dequeued(r) == Dequeued(s)
    ensures NoneLost(r)
  {
  }

  // When all workers have been joined, everything accepted before `running_` was cleared has been run.
  lemma JoinedDrained(s: Pool)
    requires NoneLost(s) && Departures(s) && s.workers != []
    requires forall i | 0 <= i < |s.workers| :: s.workers[i].Exited?
    ensures s.mark <= Dequeued(s) && forall t | 0 <= t < s.mark :: t in s.ran
  {
    assert s.workers[0].Exited?;
    assert forall i | 0 <= i < |s.workers| :: Load(s.workers[i]) == -1;
  }

  lemma ControlFrame(s: Pool, stop: bool)
    requires Controlled(s)
    ensures var r := ControlStep(s, stop);
            r.queue == s.queue && r.accepted == s.accepted && r.ran == s.ran &&
            (r.workers == s.workers || r.workers == s.workers + [AtLock] ||
             (r.workers == [] && forall i | 0 <= i < |s.workers| :: Load(s.workers[i]) == -1))
  {
  }

  lemma ControlKeepsTasks(s: Pool, stop: bool)
    requires InOrder(s) && Once(s) && NoneLost(s) && Controlled(s)
    ensures InOrder(ControlStep(s, stop)) && Once(ControlStep(s, stop)) && NoneLost(ControlStep(s, stop))
  {
    ControlFrame(s, stop);
    var r := ControlStep(s, stop);
    assert Dequeued(r) == Dequeued(s);
    hide ControlStep, Dequeued;
    assert Once(r);
    forall t | 0 <= t < Dequeued(r) ensures t in r.ran || InHand(r.workers, t) {
      if t !in s.ran {
        var i :| 0 <= i < |s.workers| && Load(s.workers[i]) == t;
        assert i < |r.workers| && Load(r.workers[i]) == t;
      }
    }
  }

  lemma ControlKeepsLock(s: Pool, stop: bool)
    requires Exclusive(s) && Departures(s) && Controlled(s)
    ensures Exclusive(ControlStep(s, stop)) && Departures(ControlStep(s, stop)) && Controlled(ControlStep(s, stop))
  {
  }

  lemma ControlDrains(s: Pool, stop: bool)
    requires NoneLost(s) && Departures(s) && Controlled(s) && Drained(s)
    ensures Drained(ControlStep(s, stop))
  {
    if s.control.Joining? && s.control.k >= |s.workers| && s.workers != [] { JoinedDrained(s); }
  }

  lemma ControlSettles(s: Pool, stop: bool)
    requires Settled(s) && Controlled(s)
    ensures Settled(ControlStep(s, stop))
  {
    var r := ControlStep(s, stop);
    if s.control.Spawning? && |s.workers| < s.size {
      assert !Gone(r.workers[|s.workers|]);
    } else if s.control.Joining? && s.control.k >= |s.workers| {
      assert forall i | 0 <= i < |s.workers| :: Gone(s.workers[i]);
    }
  }

  lemma ControlKeeps(s: Pool, stop: bool)
    requires Invariant(s)
    ensures Invariant(ControlStep(s, stop))
  {
    hide ControlStep, InOrder, Once, NoneLost, Exclusive, Departures, Controlled, Drained, Settled;
    ControlSettles(s, stop);
    ControlKeepsTasks(s, stop);
    ControlKeepsLock(s, stop);
    ControlDrains(s, stop);
  }

  lemma StepKeeps(s: Pool, a: Action)
    requires Invariant(s)
    ensures Invariant(Step(s, a))
  {
    hide WorkerStep, PosterStep, ControlStep;
    match a
    case Work(i) => if i < |s.workers| { WorkerKeeps(s, i); }
    case PosterLocks =>
    case PosterGoesOn => PosterKeeps(s);
    case Start => ControlKeeps(s, false);
    case Stop => ControlKeeps(s, true);
  }

  // ---------------------------------------------------------------- every run

  lemma {:induction false} RunKeeps(s: Pool, run: seq<Action>)
    requires Invariant(s)
    ensures Invariant(Run(s, run)) && Run(s, run).size == s.size
    decreases |run|
  {
    if run != [] {
      StepKeeps(s, run[0]);
      SizeFixed(s, run[0]);
      hide Step, Invariant;
      RunKeeps(Step(s, run[0]), run[1..]);
    }
  }

  lemma SizeFixed(s: Pool, a: Action)
    ensures Step(s, a).size == s.size
  {
  }

  lemma {:induction false} DistinctCount(ts: seq<int>, t: int)
    requires Distinct(ts)
    ensures multiset(ts)[t] == if t in ts then 1 else 0
  {
    if ts != [] {
      var front, last := ts[..|ts| - 1], ts[|ts| - 1];
      assert ts == front + [last];
      DistinctCount(front, t);
    }
  }

  // At every moment of every interleaving each accepted task is in exactly one place: queued, in the hands of one
  // worker, or run once.  The queue holds the latest ones in the order in which they came.
  lemma TasksConserved(size: nat, run: seq<Action>)
    ensures var s := Run(Init(size), run);
            |s.queue| <= s.accepted &&
            (forall i | 0 <= i < |s.queue| :: s.queue[i] == s.accepted - |s.queue| + i) &&
            (forall i, j | 0 <= i < j < |s.workers| ::
               Load(s.workers[i]) == Load(s.workers[j]) ==> Load(s.workers[i]) < 0) &&
            forall t | 0 <= t < s.accepted ::
              multiset(s.ran)[t] == (if t < s.accepted - |s.queue| && !InHand(s.workers, t) then 1 else 0) &&
              (InHand(s.workers, t) ==> t < s.accepted - |s.queue|)
  {
    RunKeeps(Init(size), run);
    hide Run;
    var s := Run(Init(size), run);
    forall t | 0 <= t < s.accepted
      ensures multiset(s.ran)[t] == (if t < Dequeued(s) && !InHand(s.workers, t) then 1 else 0)
      ensures InHand(s.workers, t) ==> t < Dequeued(s) && t !in s.ran
    {
      DistinctCount(s.ran, t);
    }
  }

  // When stop() has returned, every task accepted before it cleared `running_` has been run exactly once,
  // provided the pool has a worker at all.
  lemma StopDrains(size: nat, run: seq<Action>)
    ensures var s := Run(Init(size), run);
            size > 0 && s.control.Ready? && !s.running ==>
              s.workers == [] && forall t | 0 <= t < s.mark :: multiset(s.ran)[t] == 1
  {
    RunKeeps(Init(size), run);
    hide Run;
    var s := Run(Init(size), run);
    forall t | 0 <= t ensures multiset(s.ran)[t] == if t in s.ran then 1 else 0 {
      DistinctCount(s.ran, t);
    }
  }

  // And exactly: a stop() that has returned has run precisely what had been accepted when the last worker saw the
  // queue empty, and has left precisely what was accepted later, in order.
  lemma StopLeaves(size: nat, run: seq<Action>)
    ensures var s := Run(Init(size), run);
            s.control.Ready? && !s.running ==>
              (size > 0 ==> s.mark <= s.seen) && s.seen + |s.queue| == s.accepted &&
              (forall t | 0 <= t < s.accepted :: multiset(s.ran)[t] == if t < s.seen then 1 else 0) &&
              (forall i | 0 <= i < |s.queue| :: s.queue[i] == s.seen + i)
  {
    RunKeeps(Init(size), run);
    hide Run;
    var s := Run(Init(size), run);
    forall t | 0 <= t ensures multiset(s.ran)[t] == if t in s.ran then 1 else 0 {
      DistinctCount(s.ran, t);
    }
  }

  // Without workers nothing is ever run.
  lemma {:induction false} NoWorkersNoWork(run: seq<Action>)
    ensures Run(Init(0), run).ran == []
  {
    IdleRun(Init(0), run);
  }

  lemma {:induction false} IdleRun(s: Pool, run: seq<Action>)
    requires s.size == 0 && s.workers == [] && s.ran == []
    ensures Run(s, run).ran == []
    decreases |run|
  {
    if run != [] { IdleRun(Step(s, run[0]), run[1..]); }
  }

  lemma {:induction false} RunJoin(s: Pool, a: seq<Action>, b: seq<Action>)
    ensures Run(s, a + b) == Run(Run(s, a), b)
    decreases |a|
  {
    hide Step;
    if a == [] {
      assert a + b == b;
    } else {
      assert (a + b)[1..] == a[1..] + b;
      RunJoin(Step(s, a[0]), a[1..], b);
    }
  }

  lemma RunOne(s: Pool, run: seq<Action>, a: Action)
    ensures Run(s, run + [a]) == Step(Run(s, run), a)
  {
    RunJoin(s, run, [a]);
    var r := Run(s, run);
    assert Run(r, [a]) == Run(Step(r, a), []);
  }

  // ---------------------------------------------------------------- a task that is left behind

  function Alike(w: Worker, n: nat): (ws: seq<Worker>)
    ensures |ws| == n && forall i | 0 <= i < n :: ws[i] == w
  {
    seq(n, _ => w)
  }

  lemma Then(s: Pool, run: seq<Action>, a: Action) returns (longer: seq<Action>)
    ensures longer == run + [a] && Run(s, longer) == Step(Run(s, run), a)
  {
    longer := run + [a];
    RunOne(s, run, a);
  }

  lemma NoActions(s: Pool)
    ensures Run(s, []) == s
  {
  }

  // The controller starts the workers that are missing.
  lemma {:induction false} SpawnAll(s: Pool) returns (run: seq<Action>)
    requires s.control == Spawning && |s.workers| <= s.size
    ensures Run(s, run) == s.(workers := s.workers + Alike(AtLock, s.size - |s.workers|), control := Ready)
    decreases s.size - |s.workers|
  {
    var s1 := Step(s, Start);
    NoActions(s);
    RunOne(s, [], Start);
    hide Run;
    if |s.workers| == s.size {
      run := [Start];
      assert [] + [Start] == run;
      assert s.workers + Alike(AtLock, 0) == s.workers;
    } else {
      var more := SpawnAll(s1);
      RunJoin(s, [Start], more);
      assert [] + [Start] == [Start];
      run := [Start] + more;
      assert s1.workers + Alike(AtLock, s.size - |s1.workers|) == s.workers + Alike(AtLock, s.size - |s.workers|);
    }
  }

  ghost predicate Idling(s: Pool, i: nat) {
    i < |s.workers| && s.workers[i] == AtLock && s.lock == Free && s.queue == [] && !s.running && !s.closed
  }

  lemma LookAround(s: Pool, i: nat) returns (run: seq<Action>)
    requires Idling(s, i)
    ensures Run(s, run) == s.(workers := s.workers[i := AskRunning], lock := ByWorker(i))
  {
    NoActions(s);
    hide Run;
    run := [];
    run := Then(s, run, Work(i));
    assert Run(s, run) == s.(workers := s.workers[i := Asking], lock := ByWorker(i));
    run := Then(s, run, Work(i));
    assert Run(s, run) == s.(workers := s.workers[i := AskClosed], lock := ByWorker(i));
    run := Then(s, run, Work(i));
  }

  // A worker that finds nothing to do after running_ has been cleared leaves.
  lemma LeaveOne(s: Pool, i: nat) returns (run: seq<Action>)
    requires Idling(s, i)
    ensures Run(s, run) == s.(workers := s.workers[i := Exited], seen := s.accepted)
  {
    hide Run;
    run := LookAround(s, i);
    run := Then(s, run, Work(i));
    assert Run(s, run) == s.(workers := s.workers[i := Granted], lock := ByWorker(i));
    run := Then(s, run, Work(i));
    assert Run(s, run) == s.(workers := s.workers[i := Empty], lock := ByWorker(i));
    run := Then(s, run, Work(i));
    assert Run(s, run) == s.(workers := s.workers[i := Leaving], lock := ByWorker(i), seen := s.accepted);
    run := Then(s, run, Work(i));
  }

  lemma {:induction false} LeaveAll(s: Pool, i: nat) returns (run: seq<Action>)
    requires i <= |s.workers| && s.workers == Alike(Exited, i) + Alike(AtLock, |s.workers| - i)
    requires s.lock == Free && s.queue == [] && !s.running && !s.closed && s.accepted == s.seen
    ensures Run(s, run) == s.(workers := Alike(Exited, |s.workers|))
    decreases |s.workers| - i
  {
    if i == |s.workers| {
      run := [];
      NoActions(s);
      assert s.workers == Alike(Exited, i);
    } else {
      hide Run;
      var first := LeaveOne(s, i);
      var s1 := s.(workers := s.workers[i := Exited]);
      assert s1.workers == Alike(Exited, i + 1) + Alike(AtLock, |s.workers| - (i + 1));
      var more := LeaveAll(s1, i + 1);
      run := first + more;
      RunJoin(s, first, more);
    }
  }

  lemma {:induction false} JoinAll(s: Pool) returns (run: seq<Action>)
    requires s.control.Joining? && s.control.k <= |s.workers|
    requires forall i | 0 <= i < |s.workers| :: s.workers[i].Exited?
    ensures Run(s, run) == s.(workers := [], control := Ready)
    decreases |s.workers| - s.control.k
  {
    NoActions(s);
    RunOne(s, [], Stop);
    assert [] + [Stop] == [Stop];
    var s1 := Step(s, Stop);
    hide Run;
    if s.control.k == |s.workers| {
      run := [Stop];
    } else {
      var more := JoinAll(s1);
      run := [Stop] + more;
      RunJoin(s, [Stop], more);
    }
  }

  lemma Started(size: nat) returns (run: seq<Action>)
    ensures Run(Init(size), run) ==
            Pool(size, false, false, [], Free, Alike(AtLock, size), Closing, 0, 0, 0, [])
  {
    NoActions(Init(size));
    hide Run;
    run := [];
    run := Then(Init(size), run, Start);
    run := Then(Init(size), run, Start);
    var more := SpawnAll(Run(Init(size), run));
    RunJoin(Init(size), run, more);
    run := run + more;
    assert [] + Alike(AtLock, size) == Alike(AtLock, size);
    run := Then(Init(size), run, Stop);
  }

  // stop() has cleared `running_`, all workers have left, and `queue_closed_` is not yet set.
  lemma WorkersGone(size: nat) returns (run: seq<Action>)
    ensures Run(Init(size), run) ==
            Pool(size, false, false, [], Free, Alike(Exited, size), Closing, 0, 0, 0, [])
  {
    hide Run;
    run := Started(size);
    var s := Run(Init(size), run);
    assert Alike(Exited, 0) + Alike(AtLock, size) == Alike(AtLock, size);
    var more := LeaveAll(s, 0);
    RunJoin(Init(size), run, more);
    run := run + more;
  }

  // So the guarantee of StopDrains does not reach further, however many workers there are: `running_` is cleared
  // before `queue_closed_` is set, and a task that is accepted in between can be left on the queue by a stop() that
  // has returned.
  lemma WindowTaskStranded(size: nat) returns (run: seq<Action>)
    ensures var s := Run(Init(size), run);
            s.control.Ready? && !s.running && s.accepted == 1 && s.queue == [0] && s.ran == []
  {
    hide Run;
    run := WorkersGone(size);
    run := Then(Init(size), run, PosterLocks);
    run := Then(Init(size), run, PosterGoesOn);
    run := Then(Init(size), run, PosterGoesOn);
    assert Run(Init(size), run) ==
           Pool(size, false, false, [0], Free, Alike(Exited, size), Closing, 1, 0, 0, []);
    run := Then(Init(size), run, Stop);
    var more := JoinAll(Run(Init(size), run));
    RunJoin(Init(size), run, more);
    run := run + more;
  }
}
