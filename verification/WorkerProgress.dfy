/** That the worker pool works: what start() sets up, what a poster and a worker get done, and that stop() can always
    return.  Safety alone would also hold of a pool that never runs anything. */
module WorkerProgress {
  import opened Basics
  import opened WorkerPool

  // ---------------------------------------------------------------- start() and post_task()

  // start() on a stopped pool opens the queue and starts all workers.
  lemma StartOpens(s: Pool) returns (run: seq<Action>)
    requires s.control.Ready? && !s.running && s.workers == []
    ensures Run(s, run) == s.(running := true, closed := false, workers := Alike(AtLock, s.size))
  {
    NoActions(s);
    hide Run;
    run := [];
    run := Then(s, run, Start);
    run := Then(s, run, Start);
    var more := SpawnAll(Run(s, run));
    RunJoin(s, run, more);
    run := run + more;
    assert [] + Alike(AtLock, s.size) == Alike(AtLock, s.size);
  }

  // A poster that gets the mutex appends its task, or drops it if the queue is closed; nothing else changes.
  lemma PostAppends(s: Pool)
    requires s.lock.Free?
    ensures Run(s, [PosterLocks, PosterGoesOn, PosterGoesOn]) ==
            if s.closed then s else s.(queue := s.queue + [s.accepted], accepted := s.accepted + 1)
  {
    var run := [PosterLocks, PosterGoesOn, PosterGoesOn];
    var s1 := Step(s, PosterLocks);
    var s2 := Step(s1, PosterGoesOn);
    var s3 := Step(s2, PosterGoesOn);
    assert run[1..] == [PosterGoesOn, PosterGoesOn] && run[1..][1..] == [PosterGoesOn] && run[1..][1..][1..] == [];
    hide Step;
    assert Run(s2, [PosterGoesOn]) == Run(s3, []);
    assert Run(s1, run[1..]) == Run(s2, [PosterGoesOn]);
  }

  // The queue is open while the pool runs and closed while stop() waits for the workers.
  ghost predicate Gate(s: Pool) {
    (s.control.Closing? ==> !s.running) && (s.control.Joining? ==> s.closed && !s.running) &&
    (s.control.Opening? ==> s.running) && (s.control.Spawning? ==> !s.closed && s.running) &&
    (s.control.Ready? && s.running ==> !s.closed)
  }

  // start() has been called at least once.
  predicate Used(s: Pool) {
    !(s.control.Ready? && !s.running && !s.closed)
  }

  lemma StepGate(s: Pool, a: Action)
    requires Gate(s)
    ensures Gate(Step(s, a))
    ensures Used(Step(s, a)) <==> Used(s) || (a == Start && s.control.Ready?)
  {
  }

  lemma {:induction false} RunGate(s: Pool, run: seq<Action>)
    requires Gate(s) && (!Used(s) ==> s.control.Ready?)
    ensures var r := Run(s, run);
            Gate(r) && (Used(r) <==> Used(s) || Start in run)
    decreases |run|
  {
    if run != [] {
      StepGate(s, run[0]);
      assert Start in run ==> run[0] == Start || Start in run[1..];
      hide Step, Gate;
      RunGate(Step(s, run[0]), run[1..]);
    }
  }

  // In every interleaving: a pool takes tasks before its first start() and while it runs, and one that stop() has
  // taken down refuses them.
  lemma OpenWhileRunning(size: nat, run: seq<Action>)
    ensures var s := Run(Init(size), run);
            (s.control.Ready? && s.running ==> !s.closed) &&
            (s.control.Ready? && !s.running && Start in run ==> s.closed) &&
            (Start !in run ==> s.control.Ready? && !s.running && !s.closed)
  {
    RunGate(Init(size), run);
    hide Run;
  }

  // ---------------------------------------------------------------- a worker and the queue

  predicate Waits(w: Worker) {
    w.AtLock? || w.Asleep?
  }

  // A worker that gets the mutex while tasks are queued takes the first and runs it, whether the pool runs or stops.
  lemma RunsFirst(s: Pool, i: nat) returns (run: seq<Action>)
    requires i < |s.workers| && Waits(s.workers[i]) && s.lock.Free? && s.queue != []
    ensures run == [Work(i), Work(i), Work(i), Work(i), Work(i)]
    ensures Run(s, run) == s.(workers := s.workers[i := AtLock], queue := s.queue[1..], ran := s.ran + [s.queue[0]])
  {
    NoActions(s);
    hide Run;
    run := [];
    run := Then(s, run, Work(i));
    assert Run(s, run) == s.(workers := s.workers[i := Asking], lock := ByWorker(i));
    run := Then(s, run, Work(i));
    assert Run(s, run) == s.(workers := s.workers[i := Granted], lock := ByWorker(i));
    run := Then(s, run, Work(i));
    var taken := s.(queue := s.queue[1..]);
    assert Run(s, run) == taken.(workers := s.workers[i := Took(s.queue[0])], lock := ByWorker(i));
    run := Then(s, run, Work(i));
    assert Run(s, run) == taken.(workers := s.workers[i := Running(s.queue[0])]);
    run := Then(s, run, Work(i));
  }

  // So one worker is enough to run all that is queued, in order.
  lemma {:induction false} RunsAll(s: Pool, i: nat) returns (run: seq<Action>)
    requires i < |s.workers| && Waits(s.workers[i]) && s.lock.Free?
    ensures |run| == 5 * |s.queue|
    ensures Run(s, run) == AllRun(s, i)
    decreases |s.queue|
  {
    if s.queue == [] {
      run := [];
      NoActions(s);
      assert s.ran + [] == s.ran;
    } else {
      hide Run, AllRun;
      var first := RunsFirst(s, i);
      var s1 := s.(workers := s.workers[i := AtLock], queue := s.queue[1..], ran := s.ran + [s.queue[0]]);
      FirstThenAll(s, i, s1);
      var more := RunsAll(s1, i);
      RunJoin(s, first, more);
      run := first + more;
    }
  }

  function AllRun(s: Pool, i: nat): Pool
    requires i < |s.workers|
  {
    s.(workers := if s.queue == [] then s.workers else s.workers[i := AtLock], queue := [],
       ran := s.ran + Ints(s.queue))
  }

  lemma FirstThenAll(s: Pool, i: nat, s1: Pool)
    requires i < |s.workers| && s.queue != []
    requires s1 == s.(workers := s.workers[i := AtLock], queue := s.queue[1..], ran := s.ran + [s.queue[0]])
    ensures AllRun(s1, i) == AllRun(s, i)
  {
    Associate(s.ran, [s.queue[0]], Ints(s.queue[1..]));
    assert s.workers[i := AtLock][i := AtLock] == s.workers[i := AtLock];
  }

  function Ints(ts: seq<nat>): (r: seq<int>)
    ensures |r| == |ts| && forall i | 0 <= i < |ts| :: r[i] == ts[i]
  {
    if ts == [] then [] else [ts[0]] + Ints(ts[1..])
  }

  // With nothing queued a worker of a running pool falls asleep and changes nothing else.
  lemma FallsAsleep(s: Pool, i: nat) returns (run: seq<Action>)
    requires i < |s.workers| && Waits(s.workers[i]) && s.lock.Free? && s.queue == [] && s.running
    ensures |run| <= 5 && Run(s, run) == s.(workers := s.workers[i := Asleep])
  {
    NoActions(s);
    hide Run;
    run := [];
    run := Then(s, run, Work(i));
    assert Run(s, run) == s.(workers := s.workers[i := Asking], lock := ByWorker(i));
    run := Then(s, run, Work(i));
    assert Run(s, run) == s.(workers := s.workers[i := AskClosed], lock := ByWorker(i));
    run := Then(s, run, Work(i));
    if s.closed {
      assert Run(s, run) == s.(workers := s.workers[i := AskStopped], lock := ByWorker(i));
      run := Then(s, run, Work(i));
    }
    assert Run(s, run) == s.(workers := s.workers[i := AskRunning], lock := ByWorker(i));
    run := Then(s, run, Work(i));
  }

  // With nothing queued a worker of a stopping pool leaves, whether stop() has closed the queue by then or not.
  lemma Leaves(s: Pool, i: nat) returns (run: seq<Action>)
    requires i < |s.workers| && Waits(s.workers[i]) && s.lock.Free? && s.queue == [] && !s.running
    ensures |run| == 7 && Run(s, run) == s.(workers := s.workers[i := Exited], seen := s.accepted)
  {
    NoActions(s);
    hide Run;
    run := [];
    run := Then(s, run, Work(i));
    assert Run(s, run) == s.(workers := s.workers[i := Asking], lock := ByWorker(i));
    run := Then(s, run, Work(i));
    assert Run(s, run) == s.(workers := s.workers[i := AskClosed], lock := ByWorker(i));
    run := Then(s, run, Work(i));
    assert Run(s, run) ==
           s.(workers := s.workers[i := if s.closed then AskStopped else AskRunning], lock := ByWorker(i));
    run := Then(s, run, Work(i));
    assert Run(s, run) == s.(workers := s.workers[i := Granted], lock := ByWorker(i));
    run := Then(s, run, Work(i));
    assert Run(s, run) == s.(workers := s.workers[i := Empty], lock := ByWorker(i));
    run := Then(s, run, Work(i));
    assert Run(s, run) == s.(workers := s.workers[i := Leaving], lock := ByWorker(i), seen := s.accepted);
    run := Then(s, run, Work(i));
  }

  // ---------------------------------------------------------------- any interleaving

  function OwnSteps(run: seq<Action>, i: nat): nat {
    if run == [] then 0 else (if run[0] == Work(i) then 1 else 0) + OwnSteps(run[1..], i)
  }

  // Worker i is on its way to run task t, or t has been run.
  ghost predicate Serving(s: Pool, i: nat, t: nat) {
    t in s.ran ||
    (i < |s.workers| &&
     match s.workers[i]
     case Asking => s.queue != [] && s.queue[0] == t
     case Granted => s.queue != [] && s.queue[0] == t
     case Took(u) => u == t
     case Running(u) => u == t
     case _ => false)
  }

  function ServiceLeft(s: Pool, i: nat, t: nat): nat {
    if t in s.ran || i >= |s.workers| then 0
    else
      match s.workers[i]
      case Asking => 4
      case Granted => 3
      case Took(_) => 2
      case Running(_) => 1
      case _ => 0
  }

  lemma OwnStepServes(s: Pool, i: nat, t: nat)
    requires Serving(s, i, t)
    ensures Serving(Step(s, Work(i)), i, t)
    ensures ServiceLeft(Step(s, Work(i)), i, t) <= if ServiceLeft(s, i, t) > 0 then ServiceLeft(s, i, t) - 1 else 0
  {
  }

  lemma OtherStepServes(s: Pool, i: nat, t: nat, a: Action)
    requires Exclusive(s) && Controlled(s) && Serving(s, i, t) && a != Work(i)
    ensures Serving(Step(s, a), i, t) && ServiceLeft(Step(s, a), i, t) <= ServiceLeft(s, i, t)
  {
    if t in s.ran {
      assert t in Step(s, a).ran;
    } else if a.Work? {
      assert HoldsLock(s.workers[i]) <==> s.lock == ByWorker(i);
      if a.i < |s.workers| { assert HoldsLock(s.workers[a.i]) <==> s.lock == ByWorker(a.i); }
    } else {
      assert HoldsLock(s.workers[i]) <==> s.lock == ByWorker(i);
    }
  }

  lemma {:induction false} ServesFrom(s: Pool, i: nat, t: nat, run: seq<Action>)
    requires Invariant(s) && Serving(s, i, t) && OwnSteps(run, i) >= ServiceLeft(s, i, t)
    ensures t in Run(s, run).ran
    decreases |run|
  {
    if run == [] {
    } else {
      StepKeeps(s, run[0]);
      if run[0] == Work(i) { OwnStepServes(s, i, t); } else { OtherStepServes(s, i, t, run[0]); }
      hide Step, Invariant, Serving, ServiceLeft;
      ServesFrom(Step(s, run[0]), i, t, run[1..]);
    }
  }

  // In every interleaving from any reachable state: a worker that looks at a queue with tasks has run the first of
  // them after four more steps of its own, whatever the others do in between.
  lemma FirstIsServed(size: nat, before: seq<Action>, i: nat, run: seq<Action>)
    ensures var s := Run(Init(size), before);
            i < |s.workers| && s.workers[i].Asking? && s.queue != [] && OwnSteps(run, i) >= 4 ==>
              s.queue[0] in Run(s, run).ran
  {
    RunKeeps(Init(size), before);
    var s := Run(Init(size), before);
    if i < |s.workers| && s.workers[i].Asking? && s.queue != [] && OwnSteps(run, i) >= 4 {
      hide Invariant, Run;
      ServesFrom(s, i, s.queue[0], run);
    }
  }

  // ---------------------------------------------------------------- stop() can return

  // How far a worker that holds the mutex is from giving it back.
  function Holding(w: Worker): nat {
    match w
    case Releasing => 1
    case Leaving => 1
    case Took(_) => 1
    case Empty => 2
    case Granted => 3
    case AskRunning => 4
    case AskStopped => 5
    case AskClosed => 6
    case Asking => 7
    case _ => 0
  }

  ghost predicate Stopping(s: Pool) {
    Invariant(s) && !s.running && s.control.Joining?
  }

  // Nothing but the workers has moved.
  ghost predicate Onwards(s: Pool, r: Pool) {
    Stopping(r) && r.control == s.control && |r.workers| == |s.workers| &&
    forall j | 0 <= j < |s.workers| && s.workers[j].Exited? :: r.workers[j].Exited?
  }

  lemma WorkOnwards(s: Pool, i: nat)
    requires Stopping(s) && i < |s.workers|
    ensures Onwards(s, Step(s, Work(i)))
  {
    StepKeeps(s, Work(i));
    hide Invariant;
  }

  lemma PostOnwards(s: Pool)
    requires Stopping(s)
    ensures Onwards(s, Step(s, PosterGoesOn))
  {
    StepKeeps(s, PosterGoesOn);
    hide Invariant;
  }

  lemma WorkNears(s: Pool, i: nat)
    requires Stopping(s) && s.lock == ByWorker(i)
    ensures i < |s.workers| && Holding(s.workers[i]) > 0
    ensures var r := Step(s, Work(i));
            r.lock.Free? || (r.lock == ByWorker(i) && Holding(r.workers[i]) < Holding(s.workers[i]))
  {
    assert HoldsLock(s.workers[i]);
  }

  // Whoever has the mutex can give it back.
  lemma {:induction false} FreesMutex(s: Pool) returns (run: seq<Action>)
    requires Stopping(s)
    ensures Onwards(s, Run(s, run)) && Run(s, run).lock.Free?
    decreases match s.lock
              case Free => 0
              case ByPoster(admitted) => if admitted then 1 else 2
              case ByWorker(i) => if i < |s.workers| then Holding(s.workers[i]) else 0
  {
    NoActions(s);
    if s.lock.Free? {
      run := [];
    } else {
      var a := if s.lock.ByWorker? then Work(s.lock.i) else PosterGoesOn;
      if s.lock.ByWorker? {
        WorkNears(s, s.lock.i);
        WorkOnwards(s, s.lock.i);
      } else {
        PostOnwards(s);
      }
      hide Run, Invariant;
      var more := FreesMutex(Step(s, a));
      Before(s, a, more);
      run := [a] + more;
    }
  }

  lemma Before(s: Pool, a: Action, run: seq<Action>)
    ensures Run(s, [a] + run) == Run(Step(s, a), run)
  {
    hide Step;
    assert ([a] + run)[1..] == run;
  }

  // And every worker can leave.
  lemma Exits(s: Pool, i: nat) returns (run: seq<Action>)
    requires Stopping(s) && s.lock.Free? && i < |s.workers|
    ensures Onwards(s, Run(s, run)) && Run(s, run).lock.Free? && Run(s, run).workers[i].Exited?
  {
    NoActions(s);
    run := [];
    if !s.workers[i].Exited? {
      assert !HoldsLock(s.workers[i]);
      var s1 := s;
      if s.workers[i].Running? {
        RunOne(s, [], Work(i));
        run := [] + [Work(i)];
        s1 := Step(s, Work(i));
      }
      hide Run;
      var all := RunsAll(s1, i);
      RunJoin(s, run, all);
      var gone := Leaves(AllRun(s1, i), i);
      RunJoin(s, run + all, gone);
      RunKeeps(s, run + all + gone);
      run := run + all + gone;
    }
  }

  lemma {:induction false} AllExit(s: Pool, k: nat) returns (run: seq<Action>)
    requires Stopping(s) && s.lock.Free? && k <= |s.workers| && forall j | 0 <= j < k :: s.workers[j].Exited?
    ensures Onwards(s, Run(s, run)) && forall j | 0 <= j < |s.workers| :: Run(s, run).workers[j].Exited?
    decreases |s.workers| - k
  {
    if k == |s.workers| {
      run := [];
      NoActions(s);
    } else {
      hide Run, Invariant;
      var first := Exits(s, k);
      var more := AllExit(Run(s, first), k + 1);
      RunJoin(s, first, more);
      run := first + more;
    }
  }

  // No deadlock: wherever a stop() stands, and whatever posters and workers were doing, it can still return.
  lemma StopCanReturn(size: nat, before: seq<Action>) returns (run: seq<Action>)
    ensures var s := Run(Init(size), before);
            s.control.Closing? || s.control.Joining? ==>
              var r := Run(s, run); r.control.Ready? && !r.running && r.workers == []
  {
    RunKeeps(Init(size), before);
    var s := Run(Init(size), before);
    run := [];
    if s.control.Closing? || s.control.Joining? {
      NoActions(s);
      if s.control.Closing? {
        StepKeeps(s, Stop);
        RunOne(s, [], Stop);
        run := [] + [Stop];
      }
      var s1 := Run(s, run);
      assert Stopping(s1);
      hide Run, Invariant;
      var free := FreesMutex(s1);
      RunJoin(s, run, free);
      var s2 := Run(s1, free);
      var gone := AllExit(s2, 0);
      RunJoin(s, run + free, gone);
      var s3 := Run(s2, gone);
      JoinBound(s3);
      var joined := JoinAll(s3);
      RunJoin(s, run + free + gone, joined);
      run := run + free + gone + joined;
    }
  }

  lemma JoinBound(s: Pool)
    requires Stopping(s)
    ensures s.control.k <= |s.workers|
  {
  }
}
