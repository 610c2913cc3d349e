/** What the event loop does with the events it is given: which it takes, which handlers it calls, and that it does. */
module EventService {
  import opened Basics
  import opened EventQueues
  import opened EventLoop

  // ---------------------------------------------------------------- handlers called

  // The events among these that call for a handler, in order.
  function WithHandler(es: seq<Event>): seq<Event> {
    if es == [] then []
    else
      var last := es[|es| - 1];
      WithHandler(es[..|es| - 1]) + if last.kind != SHUTDOWN && last.handler.Some? then [last] else []
  }

  // The events the loop is through with: those taken, but for the one in its hand.
  function Dealt(s: Loop): seq<Event> {
    if s.place.Has? && s.taken != [] then s.taken[..|s.taken| - 1] else s.taken
  }

  // The queue holds what was accepted and not yet taken, every kind in its order.
  ghost predicate Kept(s: Loop) {
    Sorted(s.q) && forall k: nat :: OfKind(s.taken, k) + OfKind(s.q, k) == OfKind(s.accepted, k)
  }

  ghost predicate Served(s: Loop) {
    s.started == WithHandler(Dealt(s)) && (s.place.Has? ==> s.taken != [] && s.taken[|s.taken| - 1] == s.place.event)
  }

  lemma WithHandlerMore(es: seq<Event>, e: Event)
    ensures WithHandler(es + [e]) == WithHandler(es) + if e.kind != SHUTDOWN && e.handler.Some? then [e] else []
  {
    assert (es + [e])[..|es|] == es;
  }

  predicate Takes(s: Loop, a: Action) {
    a.LoopStep? && s.place.Popping? && s.q != []
  }

  // How a step moves events.
  lemma StepMoves(s: Loop, a: Action)
    ensures var r := Step(s, a);
            if a.Post? then r == Pushed(s, a.event)
            else if a.StopPushes? && s.stopping > 0 then r == Pushed(s, SHUTDOWN_EVENT).(stopping := s.stopping - 1)
            else if Takes(s, a) then
              r == s.(q := s.q[1..], place := Has(s.q[0]), taken := s.taken + [s.q[0]])
            else
              r.q == s.q && r.taken == s.taken && r.accepted == s.accepted && !(r.place.Has? && !s.place.Has?)
  {
    hide Pushed;
  }

  lemma StepCalls(s: Loop, a: Action)
    ensures var r := Step(s, a);
            if a.LoopStep? && s.place.Has? then
              !r.place.Has? && r.taken == s.taken &&
              (s.place.event.kind != SHUTDOWN && s.place.event.handler.Some? ==>
                 r.started == s.started + [s.place.event]) &&
              (s.place.event.kind == SHUTDOWN || s.place.event.handler.None? ==> r.started == s.started)
            else
              r.started == s.started && (!a.LoopStep? ==> r.place == s.place && r.taken == s.taken)
  {
    hide Insert;
  }

  lemma CallServes(s: Loop, r: Loop)
    requires Served(s) && s.place.Has? && !r.place.Has? && r.taken == s.taken
    requires var e := s.place.event;
             r.started == s.started + if e.kind != SHUTDOWN && e.handler.Some? then [e] else []
    ensures Served(r)
  {
    hide WithHandler;
    WithHandlerMore(Dealt(s), s.place.event);
    assert s.taken == Dealt(s) + [s.place.event];
  }

  lemma TakeServes(s: Loop, r: Loop, e: Event)
    requires Served(s) && !s.place.Has? && r.place == Has(e) && r.taken == s.taken + [e] && r.started == s.started
    ensures Served(r)
  {
    hide WithHandler;
    assert (s.taken + [e])[..|s.taken|] == s.taken;
  }

  lemma StepServes(s: Loop, a: Action)
    requires Served(s)
    ensures Served(Step(s, a))
  {
    StepMoves(s, a);
    StepCalls(s, a);
    var r := Step(s, a);
    assert s.started + [] == s.started;
    hide Step, WithHandler, Pushed, Served, Dealt;
    if a.LoopStep? && s.place.Has? {
      CallServes(s, r);
    } else if Takes(s, a) {
      TakeServes(s, r, s.q[0]);
    } else {
      SameServes(s, r);
    }
  }

  lemma SameServes(s: Loop, r: Loop)
    requires Served(s) && r.taken == s.taken && r.started == s.started
    requires r.place == s.place || (!r.place.Has? && !s.place.Has?)
    ensures Served(r)
  {
    hide WithHandler;
  }

  lemma PushKeeps(s: Loop, e: Event)
    requires Kept(s)
    ensures Kept(Pushed(s, e))
  {
    InsertSorted(s.q, e);
    forall k: nat ensures var r := Pushed(s, e); OfKind(r.taken, k) + OfKind(r.q, k) == OfKind(r.accepted, k) {
      InsertOfKind(s.q, e, k);
      OfKindJoin(s.accepted, [e], k);
      OfKindCons(e, [], k);
      hide OfKind, Insert, Sorted;
      Associate(OfKind(s.taken, k), OfKind(s.q, k), One(e, k));
    }
  }

  lemma TakeKeeps(s: Loop)
    requires Kept(s) && s.q != []
    ensures Sorted(s.q[1..])
    ensures forall k: nat :: OfKind(s.taken + [s.q[0]], k) + OfKind(s.q[1..], k) == OfKind(s.accepted, k)
  {
    assert s.q == [s.q[0]] + s.q[1..];
    SortedParts([s.q[0]], s.q[1..]);
    forall k: nat ensures OfKind(s.taken + [s.q[0]], k) + OfKind(s.q[1..], k) == OfKind(s.accepted, k) {
      OfKindJoin(s.taken, [s.q[0]], k);
      OfKindCons(s.q[0], s.q[1..], k);
      hide OfKind;
      Associate(OfKind(s.taken, k), One(s.q[0], k), OfKind(s.q[1..], k));
    }
  }

  lemma SameEvents(s: Loop, r: Loop)
    requires Kept(s) && r.q == s.q && r.taken == s.taken && r.accepted == s.accepted
    ensures Kept(r)
  {
    hide OfKind, Sorted;
  }

  lemma StepKeepsEvents(s: Loop, a: Action)
    requires Kept(s)
    ensures Kept(Step(s, a))
  {
    StepMoves(s, a);
    var r := Step(s, a);
    if a.Post? {
      PushKeeps(s, a.event);
    } else if a.StopPushes? && s.stopping > 0 {
      PushKeeps(s, SHUTDOWN_EVENT);
      hide *;
      SameEvents(Pushed(s, SHUTDOWN_EVENT), r);
    } else if Takes(s, a) {
      TakeKeeps(s);
      hide OfKind, Sorted, Step;
    } else {
      hide *;
      SameEvents(s, r);
    }
  }

  lemma {:induction false} RunServes(s: Loop, run: seq<Action>)
    requires Served(s) && Kept(s)
    ensures Served(Run(s, run)) && Kept(Run(s, run))
    decreases |run|
  {
    if run != [] {
      StepServes(s, run[0]);
      StepKeepsEvents(s, run[0]);
      hide Step, Served, Kept;
      RunServes(Step(s, run[0]), run[1..]);
    }
  }

  // In every interleaving the handlers called are exactly those of the events taken, in order, but for the event in
  // hand; and per type the events taken, then those waiting, are the events accepted, in order.
  lemma HandlersCalled(maxSize: nat, run: seq<Action>)
    ensures var s := Run(Init(maxSize), run);
            s.started == WithHandler(if s.place.Has? && s.taken != [] then s.taken[..|s.taken| - 1] else s.taken) &&
            Sorted(s.q) && forall k: nat :: OfKind(s.taken, k) + OfKind(s.q, k) == OfKind(s.accepted, k)
  {
    RunServes(Init(maxSize), run);
    hide Run, OfKind, Sorted, WithHandler;
  }

  // A post is taken in behind the events of its type, unless the queue is closed, full, or does not know the type.
  lemma PostAccepted(s: Loop, e: Event)
    ensures Step(s, Post(e)) ==
            if s.closed || |s.q| >= s.maxSize || e.kind >= 8 then s
            else s.(q := Insert(s.q, e), accepted := s.accepted + [e])
  {
  }

  lemma {:induction false} ClosedStays(s: Loop, run: seq<Action>)
    requires s.closed || CloseQueue in run
    ensures Run(s, run).closed && (s.closed ==> Run(s, run).accepted == s.accepted)
    decreases |run|
  {
    if run != [] {
      assert CloseQueue in run ==> run[0] == CloseQueue || CloseQueue in run[1..];
      ClosedStays(Step(s, run[0]), run[1..]);
    }
  }

  // ---------------------------------------------------------------- and it does call them

  function OwnSteps(run: seq<Action>): nat {
    if run == [] then 0 else (if run[0].LoopStep? then 1 else 0) + OwnSteps(run[1..])
  }

  // How many steps of its own the loop makes at most until it takes an event, when one is waiting.
  function Until(p: Place): nat {
    match p
    case Outside => 4
    case Starting => 3
    case Checking => 2
    case Popping => 1
    case Has(_) => 4
    case Handling => 3
    case Sleeping => 3
    case _ => 0
  }

  ghost predicate Unstopped(run: seq<Action>) {
    forall i | 0 <= i < |run| :: Harmless(run[i])
  }

  lemma StepTakes(s: Loop, a: Action)
    requires RunsOn(s) && Harmless(a) && s.q != []
    ensures var r := Step(s, a);
            if a.LoopStep? && s.place.Popping?
            then r.taken == s.taken + [s.q[0]] && |r.q| == |s.q| - 1 && Until(r.place) == 4
            else r.taken == s.taken && |r.q| >= |s.q| && Until(r.place) <= Until(s.place) - if a.LoopStep? then 1 else 0
  {
    if a.Post? { InsertMembers(s.q, a.event); }
    hide Insert;
  }

  // Unless somebody asks it to stop, a loop before which n events wait has taken n events after 4n steps of its own,
  // whatever is posted meanwhile.
  lemma {:induction false} TakesAll(s: Loop, run: seq<Action>, n: nat)
    requires RunsOn(s) && Unstopped(run) && n <= |s.q|
    requires OwnSteps(run) >= if n == 0 then 0 else Until(s.place) + 4 * (n - 1)
    ensures |Run(s, run).taken| >= |s.taken| + n
    decreases |run|
  {
    if run == [] {
      UntilPositive(s);
    } else {
      assert Harmless(run[0]);
      assert Unstopped(run[1..]);
      StepRunsOn(s, run[0]);
      StepGrows(s, run[0]);
      var r := Step(s, run[0]);
      if n > 0 { StepTakes(s, run[0]); }
      var took := if n > 0 && run[0].LoopStep? && s.place.Popping? then 1 else 0;
      hide Step, RunsOn, Unstopped, Harmless;
      TakesAll(r, run[1..], n - took);
    }
  }

  lemma UntilPositive(s: Loop)
    requires RunsOn(s)
    ensures Until(s.place) > 0
  {
  }

  lemma StepGrows(s: Loop, a: Action)
    ensures |Step(s, a).taken| >= |s.taken|
  {
  }

  // Four steps of a running loop on its own take the next event and call its handler, if it has one.
  lemma CallsNext(s: Loop)
    requires s.place.Checking? && s.running && s.q != [] && s.q[0].kind != SHUTDOWN
    ensures var calls := s.q[0].handler.Some?;
            Run(s, if calls then [LoopStep, LoopStep, LoopStep, LoopStep] else [LoopStep, LoopStep, LoopStep]) ==
            s.(q := s.q[1..], taken := s.taken + [s.q[0]], started := s.started + if calls then [s.q[0]] else [])
  {
    RunThree(s);
    RunThree(LoopMoves(s));
    var four := [LoopStep, LoopStep, LoopStep, LoopStep];
    assert four[1..] == [LoopStep, LoopStep, LoopStep];
    assert s.started + [] == s.started;
  }

  lemma RunThree(s: Loop)
    ensures Run(s, [LoopStep, LoopStep, LoopStep]) == LoopMoves(LoopMoves(LoopMoves(s)))
  {
    hide LoopMoves;
    var three := [LoopStep, LoopStep, LoopStep];
    var s1, s2, s3 := LoopMoves(s), LoopMoves(LoopMoves(s)), LoopMoves(LoopMoves(LoopMoves(s)));
    assert three[1..] == [LoopStep, LoopStep] && three[1..][1..] == [LoopStep] && three[1..][1..][1..] == [];
    assert Run(s3, []) == s3;
    assert Run(s2, [LoopStep]) == Run(s3, []);
    assert Run(s1, [LoopStep, LoopStep]) == Run(s2, [LoopStep]);
  }

  // ---------------------------------------------------------------- the flag, and what stop() posts

  // Asks from outside for an event, now or later.
  predicate Brings(a: Action) {
    a.Post? || a.StopClears?
  }

  function Brought(run: seq<Action>): nat {
    if run == [] then 0 else Brought(run[1..]) + if Brings(run[0]) then 1 else 0
  }

  ghost predicate Flag(s: Loop, run: seq<Action>) {
    (s.place.Outside? || s.place.Finished? ==> !s.running) &&
    (!s.place.Outside? && !s.place.Finished? && StopClears !in run ==> s.running)
  }

  lemma StepFlag(s: Loop, a: Action)
    requires s.place.Outside? || s.place.Finished? ==> !s.running
    ensures var r := Step(s, a);
            (r.place.Outside? || r.place.Finished? ==> !r.running) &&
            (!r.place.Outside? && !r.place.Finished? && !a.StopClears? && (s.running || s.place.Outside?) ==> r.running)
    ensures |Step(s, a).accepted| + Step(s, a).stopping <= |s.accepted| + s.stopping + if Brings(a) then 1 else 0
  {
    hide Insert;
  }

  lemma {:induction false} RunFlag(s: Loop, run: seq<Action>)
    requires s.place.Outside? || s.place.Finished? ==> !s.running
    ensures var r := Run(s, run);
            (r.place.Outside? || r.place.Finished? ==> !r.running) &&
            (s.running || s.place.Outside? || s.place.Finished? ==> Flag(r, run)) &&
            |r.accepted| + r.stopping <= |s.accepted| + s.stopping + Brought(run)
    decreases |run|
  {
    if run != [] {
      StepFlag(s, run[0]);
      var r := Step(s, run[0]);
      if StopClears !in run && (s.running || s.place.Outside? || s.place.Finished?) {
        assert run[0] != StopClears;
        if s.place.Finished? { FinishedStays(s, run[0]); }
      }
      hide Step;
      RunFlag(r, run[1..]);
    }
  }

  lemma FinishedStays(s: Loop, a: Action)
    requires s.place.Finished?
    ensures Step(s, a).place.Finished?
  {
    hide Insert;
  }

  // In every run: `running_` is down before run() and after it, and up in between unless stop() has cleared it; and
  // the queue has taken in no more events than were posted, by others or by a call of stop().
  lemma FlagAndStops(maxSize: nat, run: seq<Action>)
    ensures Flag(Run(Init(maxSize), run), run)
    ensures |Run(Init(maxSize), run).accepted| <= Brought(run)
  {
    RunFlag(Init(maxSize), run);
    hide Run;
  }
}
