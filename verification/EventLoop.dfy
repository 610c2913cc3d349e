/** The event loop: the thread in run(), any number of threads that post events or call stop(), interleaved at
    every access to `running_` and to the queue.  `accepted`, `taken` and `started` record, in order, the events the
    queue has taken in, those the loop has taken out, and those whose handlers it has called. */
module EventLoop {
  import opened EventQueues

  // Where the loop thread is.
  datatype Place =
    | Outside          // run() has not been called
    | Starting         // `running_` is set, `started_` not yet
    | Checking         // about to read `running_`
    | Popping          // about to call try_pop
    | Has(event: Event)
    | Handling
    | Sleeping
    | Leaving          // about to clear `running_`
    | Finished

  // `stopping` counts the calls of stop() between their two actions.
  datatype Loop = Loop(place: Place, running: bool, q: seq<Event>, closed: bool, maxSize: nat, stopping: nat,
                       accepted: seq<Event>, taken: seq<Event>, started: seq<Event>)

  datatype Action = LoopStep | Post(event: Event) | StopClears | StopPushes | CloseQueue

  function Init(maxSize: nat): Loop {
    Loop(Outside, false, [], false, maxSize, 0, [], [], [])
  }

  function Pushed(s: Loop, e: Event): Loop {
    if Accepts(Waiters(s.q, s.closed), s.maxSize, e)
    then s.(q := Insert(s.q, e), accepted := s.accepted + [e])
    else s
  }

  function Dispatch(s: Loop, e: Event): Loop {
    if e.kind == SHUTDOWN then s.(place := Leaving)
    else if e.handler.Some? then s.(place := Handling, started := s.started + [e])
    else s.(place := Checking)
  }

  function LoopMoves(s: Loop): Loop {
    match s.place
    case Outside => s.(running := true, place := Starting)
    case Starting => s.(place := Checking)
    case Checking => s.(place := if s.running then Popping else Leaving)
    case Popping =>
      if s.q == [] then s.(place := Sleeping)
      else s.(q := s.q[1..], place := Has(s.q[0]), taken := s.taken + [s.q[0]])
    case Has(e) => Dispatch(s, e)
    case Handling => s.(place := Checking)
    case Sleeping => s.(place := Checking)
    case Leaving => s.(running := false, place := Finished)
    case Finished => s
  }

  function Step(s: Loop, a: Action): Loop {
    match a
    case LoopStep => LoopMoves(s)
    case Post(e) => Pushed(s, e)
    case StopClears => s.(running := false, stopping := s.stopping + 1)
    case StopPushes => if s.stopping > 0 then Pushed(s, SHUTDOWN_EVENT).(stopping := s.stopping - 1) else s
    case CloseQueue => s.(closed := true)
  }

  function Run(s: Loop, run: seq<Action>): Loop
    decreases |run|
  {
    if run == [] then s else Run(Step(s, run[0]), run[1..])
  }

  // ---------------------------------------------------------------- stopping

  // A SHUTDOWN event is next in line.
  predicate ShutdownWaits(s: Loop) {
    s.q != [] && s.q[0].kind == SHUTDOWN
  }

  // `running_` has been cleared after run() set it, or a SHUTDOWN event has been accepted or taken.
  predicate Stops(s: Loop) {
    (!s.running && !s.place.Outside?) || ShutdownWaits(s) || s.place.Leaving? || s.place.Finished? ||
    (s.place.Has? && s.place.event.kind == SHUTDOWN)
  }

  // How many handlers can still start.
  function StartsLeft(s: Loop): nat {
    if s.place.Popping? && !ShutdownWaits(s) then 1
    else if s.place.Has? && s.place.event.kind != SHUTDOWN then 1
    else 0
  }

  // How many steps of its own the loop thread needs at most.
  function StepsLeft(s: Loop): nat {
    match s.place
    case Finished => 0
    case Leaving => 1
    case Has(e) => if e.kind == SHUTDOWN then 2 else 6
    case Popping => if ShutdownWaits(s) then 3 else 7
    case Checking => 4
    case Starting => 5
    case Handling => 5
    case Sleeping => 5
    case Outside => 6
  }

  lemma InsertKeepsShutdown(q: seq<Event>, e: Event)
    ensures q != [] && q[0].kind == SHUTDOWN ==> Insert(q, e) != [] && Insert(q, e)[0].kind == SHUTDOWN
    ensures e.kind == SHUTDOWN ==> Insert(q, e) != [] && Insert(q, e)[0].kind == SHUTDOWN
  {
  }

  // Once the loop stops it keeps stopping; no step of another thread delays it, each of its own brings it nearer.
  lemma StepStops(s: Loop, a: Action)
    requires Stops(s)
    ensures var r := Step(s, a);
            Stops(r) && |r.started| + StartsLeft(r) <= |s.started| + StartsLeft(s) && s.started <= r.started &&
            StepsLeft(r) <= StepsLeft(s) && (a.LoopStep? && !s.place.Finished? ==> StepsLeft(r) < StepsLeft(s))
  {
    if a.Post? { InsertKeepsShutdown(s.q, a.event); }
    if a.StopPushes? { InsertKeepsShutdown(s.q, SHUTDOWN_EVENT); }
    hide Insert;
  }

  function OwnSteps(run: seq<Action>): nat {
    if run == [] then 0 else (if run[0].LoopStep? then 1 else 0) + OwnSteps(run[1..])
  }

  lemma {:induction false} RunStops(s: Loop, run: seq<Action>)
    requires Stops(s)
    ensures var r := Run(s, run);
            Stops(r) && |r.started| + StartsLeft(r) <= |s.started| + StartsLeft(s) &&
            (OwnSteps(run) >= StepsLeft(s) ==> r.place.Finished?)
    decreases |run|
  {
    if run != [] {
      StepStops(s, run[0]);
      hide Step, Stops, StartsLeft;
      FinishedStays(s, run[0]);
      RunStops(Step(s, run[0]), run[1..]);
    }
  }

  lemma FinishedStays(s: Loop, a: Action)
    ensures StepsLeft(s) == 0 <==> s.place.Finished?
    ensures s.place.Finished? ==> Step(s, a).place.Finished?
  {
  }

  // From then on, in any interleaving, at most one more handler starts, and after seven steps of its own the loop
  // thread has left run().
  lemma StopTakesEffect(s: Loop, run: seq<Action>)
    requires Stops(s)
    ensures |Run(s, run).started| <= |s.started| + 1
    ensures OwnSteps(run) >= 7 ==> Run(s, run).place.Finished?
  {
    RunStops(s, run);
  }

  // The two ways in which a call of stop() takes hold, whatever happens between its two actions.
  lemma EitherActionStops(s: Loop)
    ensures !s.place.Outside? ==> Stops(Step(s, StopClears))
    ensures s.stopping > 0 && Accepts(Waiters(s.q, s.closed), s.maxSize, SHUTDOWN_EVENT) ==> Stops(Step(s, StopPushes))
  {
    InsertKeepsShutdown(s.q, SHUTDOWN_EVENT);
    hide Insert;
  }

  // ---------------------------------------------------------------- a stop() that is lost

  // Neither a call of stop() nor a posted SHUTDOWN event.
  predicate Harmless(a: Action) {
    !a.StopClears? && !a.StopPushes? && (a.Post? ==> a.event.kind != SHUTDOWN)
  }

  ghost predicate NoShutdown(q: seq<Event>) {
    forall e | e in q :: e.kind != SHUTDOWN
  }

  ghost predicate RunsOn(s: Loop) {
    (s.running || s.place.Outside?) && NoShutdown(s.q) && !s.place.Leaving? && !s.place.Finished? &&
    (s.place.Has? ==> s.place.event.kind != SHUTDOWN)
  }

  lemma StepRunsOn(s: Loop, a: Action)
    requires RunsOn(s) && Harmless(a)
    ensures RunsOn(Step(s, a))
  {
    if a.Post? { InsertMembers(s.q, a.event); }
    hide Insert;
  }

  lemma {:induction false} RunRunsOn(s: Loop, run: seq<Action>)
    requires RunsOn(s) && forall i | 0 <= i < |run| :: Harmless(run[i])
    ensures RunsOn(Run(s, run))
    decreases |run|
  {
    if run != [] {
      StepRunsOn(s, run[0]);
      hide Step, RunsOn, Harmless;
      RunRunsOn(Step(s, run[0]), run[1..]);
    }
  }

  lemma RunsOnUnstopped(s: Loop)
    requires RunsOn(s)
    ensures !Stops(s) && !s.place.Finished?
  {
    assert s.q != [] ==> s.q[0] in s.q;
  }

  lemma {:induction false} HarmlessKeepsStops(s: Loop, run: seq<Action>)
    requires forall i | 0 <= i < |run| :: Harmless(run[i])
    ensures Run(s, run).stopping == s.stopping
    decreases |run|
  {
    if run != [] {
      HarmlessKeepsStops(Step(s, run[0]), run[1..]);
    }
  }

  // ---------------------------------------------------------------- when a stop() takes hold

  // The store alone takes hold once run() has been entered.
  lemma ClearDecides(s: Loop)
    ensures Stops(Step(s, StopClears)) <==> !s.place.Outside? || ShutdownWaits(s)
  {
  }

  // The push takes hold exactly if the loop stops anyway or the queue accepts the event at that moment.
  lemma PushDecides(s: Loop)
    requires s.stopping > 0
    ensures Stops(Step(s, StopPushes)) <==>
            Stops(s) || Accepts(Waiters(s.q, s.closed), s.maxSize, SHUTDOWN_EVENT)
  {
    InsertKeepsShutdown(s.q, SHUTDOWN_EVENT);
    hide Insert;
  }

  // Between the store and the push of one stop(), other threads post and the loop thread moves.
  function Between(s: Loop, mid: seq<Action>): Loop {
    Run(Step(s, StopClears), mid)
  }

  lemma StepSorted(s: Loop, a: Action)
    requires Sorted(s.q)
    ensures Sorted(Step(s, a).q)
  {
    if a.Post? { InsertSorted(s.q, a.event); }
    if a.StopPushes? { InsertSorted(s.q, SHUTDOWN_EVENT); }
    if s.q != [] {
      assert s.q == [s.q[0]] + s.q[1..];
      SortedParts([s.q[0]], s.q[1..]);
    }
    hide Insert, Sorted;
  }

  // Whatever the threads do, the queue is ordered by kind, so that a SHUTDOWN event is never behind another kind.
  lemma {:induction false} RunSorted(s: Loop, run: seq<Action>)
    requires Sorted(s.q)
    ensures Sorted(Run(s, run).q)
    ensures var r := Run(s, run); NoShutdown(r.q) || ShutdownWaits(r)
    decreases |run|
  {
    if run == [] {
      ShutdownInFront(s);
    } else {
      StepSorted(s, run[0]);
      hide Step, Sorted, NoShutdown, ShutdownWaits;
      RunSorted(Step(s, run[0]), run[1..]);
    }
  }

  lemma ShutdownInFront(s: Loop)
    requires Sorted(s.q)
    ensures NoShutdown(s.q) || ShutdownWaits(s)
  {
    if !NoShutdown(s.q) {
      var i :| 0 <= i < |s.q| && s.q[i].kind == SHUTDOWN;
      assert s.q[0].kind <= s.q[i].kind;
    }
  }

  // What nobody asks to stop before the push has been left running by the store, or was told to stop already.
  lemma StopsBetween(s: Loop, mid: seq<Action>)
    requires NoShutdown(s.q) || ShutdownWaits(s)
    requires forall i | 0 <= i < |mid| :: Harmless(mid[i])
    ensures Between(s, mid).stopping > 0
    ensures if !s.place.Outside? || ShutdownWaits(s) then Stops(Between(s, mid)) else RunsOn(Between(s, mid))
  {
    var cleared := Step(s, StopClears);
    HarmlessKeepsStops(cleared, mid);
    ClearDecides(s);
    hide Run;
    if !s.place.Outside? || ShutdownWaits(s) {
      RunStops(cleared, mid);
    } else {
      RunRunsOn(cleared, mid);
    }
  }

  // A call of stop() brings the loop to a stop exactly if run() has been entered before the store, or a SHUTDOWN
  // event waits, or the queue still takes the event at the push, whatever comes between the store and the push.
  lemma StopHeard(s: Loop, mid: seq<Action>)
    requires Sorted(s.q)
    requires forall i | 0 <= i < |mid| :: Harmless(mid[i])
    ensures var s2 := Between(s, mid);
            Stops(Step(s2, StopPushes)) <==>
            !s.place.Outside? || ShutdownWaits(s) || Accepts(Waiters(s2.q, s2.closed), s2.maxSize, SHUTDOWN_EVENT)
  {
    var s2 := Between(s, mid);
    ShutdownInFront(s);
    StopsBetween(s, mid);
    PushDecides(s2);
    hide Between, Step, Stops, RunsOn, NoShutdown, Sorted;
    if s.place.Outside? && !ShutdownWaits(s) {
      RunsOnUnstopped(s2);
    }
  }

  // Otherwise it is forgotten: however long the loop then runs, it does not end before somebody asks it again.
  lemma LostStop(s: Loop, mid: seq<Action>, run: seq<Action>)
    requires s.place.Outside? && Sorted(s.q) && !ShutdownWaits(s)
    requires forall i | 0 <= i < |mid| :: Harmless(mid[i])
    requires forall i | 0 <= i < |run| :: Harmless(run[i])
    requires var s2 := Between(s, mid); !Accepts(Waiters(s2.q, s2.closed), s2.maxSize, SHUTDOWN_EVENT)
    ensures var r := Run(Step(Between(s, mid), StopPushes), run); !r.place.Finished? && !Stops(r)
  {
    var s2 := Between(s, mid);
    ShutdownInFront(s);
    StopsBetween(s, mid);
    hide Between, Run, Insert, Sorted;
    assert RunsOn(Step(s2, StopPushes));
    RunRunsOn(Step(s2, StopPushes), run);
    RunsOnUnstopped(Run(Step(s2, StopPushes), run));
  }

  // Room when stop() is called is not enough: a post between its two actions may take the last place.
  lemma RoomTakenBetween(e: Event, run: seq<Action>)
    requires SHUTDOWN < e.kind < KINDS
    requires forall i | 0 <= i < |run| :: Harmless(run[i])
    ensures var s := Init(1);
            Accepts(Waiters(s.q, s.closed), s.maxSize, SHUTDOWN_EVENT) &&
            !Run(Step(Between(s, [Post(e)]), StopPushes), run).place.Finished?
  {
    var s := Init(1);
    var cleared := Step(s, StopClears);
    var mid := [Post(e)];
    assert mid[1..] == [];
    assert Between(s, mid) == Run(Step(cleared, mid[0]), mid[1..]) == Step(cleared, Post(e));
    LostStop(s, mid, run);
  }
}
