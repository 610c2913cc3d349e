/** What the calls of the lock-free queue answer, and that they return, whatever the other thread does meanwhile. */
module LockFreeCalls {
  import opened Basics
  import opened LockFreeQueue

  // ---------------------------------------------------------------- runs inside one call

  // The consumer is inside a call, and that call is not over before the end of the run.
  ghost predicate InCall<T>(s: State<T>, run: seq<Action<T>>)
    decreases |run|
  {
    run == [] || (!s.consumer.Free? && Step(s, run[0]).Ok? && InCall(Step(s, run[0]).s, run[1..]))
  }

  // The run ends with the call's return.
  ghost predicate Returned<T>(s: State<T>, run: seq<Action<T>>) {
    InCall(s, run) && Run(s, run).Ok? && Run(s, run).s.consumer.Free?
  }

  // At the i-th moment of the run all values linked so far had been delivered: these.
  ghost predicate DrainedAt<T>(s: State<T>, run: seq<Action<T>>, i: nat, values: seq<T>) {
    i <= |run| && Run(s, run[..i]).Ok? &&
    Run(s, run[..i]).s.delivered == values && Run(s, run[..i]).s.linked == values
  }

  lemma DrainedNow<T>(s: State<T>, run: seq<Action<T>>)
    requires s.delivered == s.linked
    ensures DrainedAt(s, run, 0, s.delivered)
  {
  }

  lemma DrainedLater<T>(s: State<T>, run: seq<Action<T>>, i: nat, values: seq<T>)
    requires run != [] && Step(s, run[0]).Ok? && DrainedAt(Step(s, run[0]).s, run[1..], i, values)
    ensures DrainedAt(s, run, i + 1, values)
  {
    hide Step;
    assert run[..i + 1][0] == run[0] && run[..i + 1][1..] == run[1..][..i];
  }

  lemma NextInCall<T(!new)>(s: State<T>, run: seq<Action<T>>)
    requires Reaches(s) && Returned(s, run) && !s.consumer.Free?
    ensures run != [] && Step(s, run[0]).Ok? && Reaches(Step(s, run[0]).s)
    ensures Returned(Step(s, run[0]).s, run[1..]) && Run(s, run) == Run(Step(s, run[0]).s, run[1..])
    ensures Step(s, run[0]).s.consumer.Free? ==> run[1..] == []
  {
    hide Step, Reaches;
    var t := ReachStep(s, run[0]);
  }

  // What does not belong to the consumer's thread leaves its call alone.
  lemma OtherStep<T>(s: State<T>, a: Action<T>)
    requires !a.Consume? && Step(s, a).Ok?
    ensures var t := Step(s, a).s;
            t.delivered == s.delivered && t.answers == s.answers &&
            (!s.consumer.Free? ==> t.consumer == s.consumer)
  {
  }

  lemma StepLinks<T(!new)>(s: State<T>, a: Action<T>)
    requires Reaches(s) && Step(s, a).Ok?
    ensures s.linked <= Step(s, a).s.linked
  {
    if Dying(s.consumer) {
      var v := ReachableInv(s);
      hide Reaches, Nodes;
    } else {
      var chain, waiting := DeliversInOrder(s);
      hide Reaches, Path, Holds;
    }
  }

  lemma {:induction false} LinkedGrows<T(!new)>(s: State<T>, run: seq<Action<T>>)
    requires Reaches(s)
    ensures Run(s, run).Ok? && Reaches(Run(s, run).s) && s.linked <= Run(s, run).s.linked
    decreases |run|
  {
    if run != [] {
      hide Step, Reaches;
      var r := ReachStep(s, run[0]);
      StepLinks(s, run[0]);
      LinkedGrows(r, run[1..]);
    }
  }

  // ---------------------------------------------------------------- pop_batch

  // The values handed out so far are those behind the first d.
  ghost predicate InBatch<T>(s: State<T>, d: nat, max: nat) {
    match s.consumer
    case BatchLoadHead(m) => m == max && |s.delivered| == d
    case BatchLoadNext(_, _, count, m) => m == max && count <= max && |s.delivered| == d + count
    case BatchTake(_, _, _, count, m) => m == max && count < max && |s.delivered| == d + count
    case BatchStoreHead(_, _, count) => count <= max && |s.delivered| == d + count
    case SweepLoadNext(_, _, count) => count <= max && |s.delivered| == d + count
    case SweepDelete(_, _, _, count) => count <= max && |s.delivered| == d + count
    case _ => false
  }

  predicate Collecting(c: Consumer) {
    c.BatchLoadHead? || c.BatchLoadNext? || c.BatchTake?
  }

  lemma BatchMoves<T(!new)>(s: State<T>, d: nat, max: nat)
    requires Reaches(s) && InBatch(s, d, max)
    ensures Step(s, Consume).Ok? && !Dying(s.consumer)
    ensures var t := Step(s, Consume).s;
            s.delivered <= t.delivered && t.linked == s.linked &&
            (if t.consumer.Free?
             then d <= |t.delivered| <= d + max && t.answers == s.answers + [PoppedBatch(|t.delivered| - d)]
             else InBatch(t, d, max) && t.answers == s.answers) &&
            (!Collecting(t.consumer) ==> t.delivered == s.delivered) &&
            (Collecting(s.consumer) && !Collecting(t.consumer) ==>
               |s.delivered| == d + max || s.delivered == s.linked)
  {
    var t := ReachStep(s, Consume);
    if s.consumer.BatchLoadNext? { EmptyAnswerIsTrue(s); }
    hide Reaches;
  }

  lemma {:induction false} BatchRest<T(!new)>(s: State<T>, d: nat, max: nat, run: seq<Action<T>>) returns (i: nat)
    requires Reaches(s) && InBatch(s, d, max) && Returned(s, run)
    ensures var t := Run(s, run).s;
            s.delivered <= t.delivered && d <= |t.delivered| <= d + max &&
            t.answers == s.answers + [PoppedBatch(|t.delivered| - d)] &&
            (!Collecting(s.consumer) ==> t.delivered == s.delivered) &&
            (Collecting(s.consumer) && |t.delivered| < d + max ==> DrainedAt(s, run, i, t.delivered))
    decreases |run|
  {
    NextInCall(s, run);
    var r, rest := Step(s, run[0]).s, run[1..];
    var t := Run(r, rest).s;
    i := 0;
    if run[0].Consume? {
      BatchMoves(s, d, max);
      hide Step, Reaches, Returned, DrainedAt, Run;
      if r.consumer.Free? {
        NothingLeft(r);
      } else {
        var j := BatchRest(r, d, max, rest);
        if Collecting(r.consumer) {
          i := j + 1;
          if |t.delivered| < d + max { DrainedLater(s, run, j, t.delivered); }
        }
      }
      if s.delivered == s.linked { DrainedNow(s, run); }
    } else {
      OtherStep(s, run[0]);
      hide Step, Reaches, Returned, DrainedAt, Run;
      var j := BatchRest(r, d, max, rest);
      i := j + 1;
      if Collecting(s.consumer) && |t.delivered| < d + max { DrainedLater(s, run, j, t.delivered); }
    }
  }

  lemma NothingLeft<T>(s: State<T>)
    ensures Run(s, []) == Ok(s)
  {
  }

  lemma BatchStarts<T(!new)>(s: State<T>, max: nat)
    requires Reaches(s) && s.consumer.Free?
    ensures Step(s, StartBatch(max)).Ok?
    ensures var r := Step(s, StartBatch(max)).s;
            Reaches(r) && InBatch(r, |s.delivered|, max) && Collecting(r.consumer) && r.delivered == s.delivered &&
            r.linked == s.linked && r.answers == s.answers
  {
    var r := ReachStep(s, StartBatch(max));
    hide Reaches;
  }

  // A call of pop_batch, from its start to its return, with the producer's steps anywhere in between.  It hands out
  // at most `max` values, in order, and returns how many.  It stops short of `max` only at a moment at which it had
  // handed out everything linked so far; so it takes at least what was there when it started.
  lemma PopBatchHandsOut<T(!new)>(s: State<T>, max: nat, run: seq<Action<T>>) returns (i: nat)
    requires Reaches(s) && s.consumer.Free?
    requires Step(s, StartBatch(max)).Ok? && Returned(Step(s, StartBatch(max)).s, run)
    ensures var (r, t) := (Step(s, StartBatch(max)).s, Run(Step(s, StartBatch(max)).s, run).s);
            var k := |t.delivered| - |s.delivered|;
            s.delivered <= s.linked && s.delivered <= t.delivered &&
            Min(max, |s.linked| - |s.delivered|) <= k <= max &&
            t.answers == s.answers + [PoppedBatch(k)] &&
            (k < max ==> DrainedAt(r, run, i, t.delivered))
  {
    var r := Step(s, StartBatch(max)).s;
    BatchStarts(s, max);
    DeliveredIsLinked(s);
    hide Step, Reaches, Returned, InBatch, Run;
    i := BatchRest(r, |s.delivered|, max, run);
    if |Run(r, run).s.delivered| < |s.delivered| + max {
      LinkedGrows(r, run[..i]);
    }
  }

  lemma DeliveredIsLinked<T(!new)>(s: State<T>)
    requires Reaches(s) && !Dying(s.consumer)
    ensures s.delivered <= s.linked
  {
    var chain, waiting := DeliversInOrder(s);
    hide Reaches, Path, Holds;
  }

  // ---------------------------------------------------------------- pop

  ghost predicate InPop<T>(s: State<T>, d: nat) {
    match s.consumer
    case PopLoadHead => |s.delivered| == d
    case PopLoadNext(_) => |s.delivered| == d
    case PopTake(_, _) => |s.delivered| == d
    case PopStoreHead(_, _) => |s.delivered| == d + 1
    case PopDelete(_) => |s.delivered| == d + 1
    case _ => false
  }

  lemma PopMoves<T(!new)>(s: State<T>, d: nat)
    requires Reaches(s) && InPop(s, d)
    ensures Step(s, Consume).Ok?
    ensures var t := Step(s, Consume).s;
            s.delivered <= t.delivered &&
            (if t.consumer.Free?
             then t.delivered == s.delivered && t.answers == s.answers + [Popped(|s.delivered| == d + 1)] &&
                  (|s.delivered| == d + 1 || (|s.delivered| == d && s.delivered == s.linked))
             else InPop(t, d) && t.answers == s.answers)
  {
    var t := ReachStep(s, Consume);
    if s.consumer.PopLoadNext? { EmptyAnswerIsTrue(s); }
    hide Reaches;
  }

  lemma {:induction false} PopRest<T(!new)>(s: State<T>, d: nat, run: seq<Action<T>>) returns (i: nat)
    requires Reaches(s) && InPop(s, d) && Returned(s, run)
    ensures var t := Run(s, run).s;
            s.delivered <= t.delivered && d <= |t.delivered| <= d + 1 &&
            t.answers == s.answers + [Popped(|t.delivered| == d + 1)] &&
            (|t.delivered| == d ==> DrainedAt(s, run, i, t.delivered))
    decreases |run|
  {
    NextInCall(s, run);
    var r, rest := Step(s, run[0]).s, run[1..];
    i := 0;
    if run[0].Consume? {
      PopMoves(s, d);
    } else {
      OtherStep(s, run[0]);
    }
    hide Step, Reaches, Returned, DrainedAt, Run;
    if r.consumer.Free? {
      NothingLeft(r);
      if |s.delivered| == d { DrainedNow(s, run); }
    } else {
      var j := PopRest(r, d, rest);
      i := j + 1;
      if |Run(r, rest).s.delivered| == d { DrainedLater(s, run, j, Run(r, rest).s.delivered); }
    }
  }

  // A call of pop hands out one value and answers true, or none and answers false, and then at a moment at which
  // everything linked so far had been handed out.
  lemma PopHandsOut<T(!new)>(s: State<T>, run: seq<Action<T>>) returns (i: nat)
    requires Reaches(s) && s.consumer.Free?
    requires Step(s, StartPop).Ok? && Returned(Step(s, StartPop).s, run)
    ensures var (r, t) := (Step(s, StartPop).s, Run(Step(s, StartPop).s, run).s);
            var k := |t.delivered| - |s.delivered|;
            s.delivered <= s.linked && s.delivered <= t.delivered &&
            Min(1, |s.linked| - |s.delivered|) <= k <= 1 &&
            t.answers == s.answers + [Popped(k == 1)] &&
            (k == 0 ==> DrainedAt(r, run, i, t.delivered))
  {
    var r := ReachStep(s, StartPop);
    DeliveredIsLinked(s);
    assert InPop(r, |s.delivered|) && r.delivered == s.delivered && r.linked == s.linked && r.answers == s.answers;
    hide Step, Reaches, Returned, InPop, Run;
    i := PopRest(r, |s.delivered|, run);
    if |Run(r, run).s.delivered| == |s.delivered| { LinkedGrows(r, run[..i]); }
  }

  // ---------------------------------------------------------------- empty

  // At the i-th moment of the run something was waiting, or nothing was, as `yes` says.
  ghost predicate EmptyAt<T>(s: State<T>, run: seq<Action<T>>, i: nat, yes: bool) {
    i <= |run| && Run(s, run[..i]).Ok? &&
    (Run(s, run[..i]).s.delivered == Run(s, run[..i]).s.linked <==> yes)
  }

  lemma EmptyMoves<T(!new)>(s: State<T>)
    requires Reaches(s) && (s.consumer.EmptyLoadHead? || s.consumer.EmptyLoadNext?)
    ensures Step(s, Consume).Ok?
    ensures var t := Step(s, Consume).s;
            t.delivered == s.delivered &&
            if t.consumer.Free? then t.answers == s.answers + [WasEmpty(s.delivered == s.linked)]
            else t.consumer.EmptyLoadNext? && t.answers == s.answers
  {
    var t := ReachStep(s, Consume);
    if s.consumer.EmptyLoadNext? { EmptyAnswerIsTrue(s); }
    hide Reaches;
  }

  lemma {:induction false} EmptyRest<T(!new)>(s: State<T>, run: seq<Action<T>>) returns (i: nat, yes: bool)
    requires Reaches(s) && (s.consumer.EmptyLoadHead? || s.consumer.EmptyLoadNext?) && Returned(s, run)
    ensures var t := Run(s, run).s;
            t.delivered == s.delivered && t.answers == s.answers + [WasEmpty(yes)] && EmptyAt(s, run, i, yes)
    decreases |run|
  {
    NextInCall(s, run);
    var r, rest := Step(s, run[0]).s, run[1..];
    if run[0].Consume? {
      EmptyMoves(s);
    } else {
      OtherStep(s, run[0]);
    }
    if r.consumer.Free? {
      hide Step, Reaches, Returned;
      i, yes := 0, s.delivered == s.linked;
      NothingLeft(r);
      assert run[..0] == [];
    } else {
      hide Step, Reaches, Returned, Run;
      var j, y := EmptyRest(r, rest);
      i, yes := j + 1, y;
      EmptyLater(s, run, j, y);
    }
  }

  lemma EmptyLater<T>(s: State<T>, run: seq<Action<T>>, i: nat, yes: bool)
    requires run != [] && Step(s, run[0]).Ok? && EmptyAt(Step(s, run[0]).s, run[1..], i, yes)
    ensures EmptyAt(s, run, i + 1, yes)
  {
    hide Step;
    assert run[..i + 1][0] == run[0] && run[..i + 1][1..] == run[1..][..i];
  }

  // A call of empty hands out nothing, and its answer was true at some moment of the call.
  lemma EmptyAnswers<T(!new)>(s: State<T>, run: seq<Action<T>>) returns (i: nat, yes: bool)
    requires Reaches(s) && s.consumer.Free?
    requires Step(s, StartEmpty).Ok? && Returned(Step(s, StartEmpty).s, run)
    ensures var (r, t) := (Step(s, StartEmpty).s, Run(Step(s, StartEmpty).s, run).s);
            t.delivered == s.delivered && t.answers == s.answers + [WasEmpty(yes)] && EmptyAt(r, run, i, yes)
  {
    var r := ReachStep(s, StartEmpty);
    assert r.consumer.EmptyLoadHead? && r.delivered == s.delivered && r.answers == s.answers;
    hide Step, Reaches, Returned, Run;
    i, yes := EmptyRest(r, run);
  }

  // ---------------------------------------------------------------- every call returns

  function OwnSteps<T>(run: seq<Action<T>>): nat {
    if run == [] then 0 else (if run[0].Consume? then 1 else 0) + OwnSteps(run[1..])
  }

  // How many steps of its own the consumer needs at most until it returns.
  function StepsLeft(c: Consumer, v: View): int {
    var behind := v.cur - v.lo;
    match c
    case PopLoadHead => 5
    case PopLoadNext(_) => 4
    case PopTake(_, _) => 3
    case PopStoreHead(_, _) => 2
    case PopDelete(_) => 1
    case BatchLoadHead(max) => 4 * max + 4
    case BatchLoadNext(_, _, count, max) => 4 * (if count < max then max - count else 0) + 2 * behind + 3
    case BatchTake(_, _, _, count, max) => 4 * (max - count) + 2 * behind + 2
    case BatchStoreHead(_, _, _) => 2 * behind + 2
    case SweepLoadNext(_, _, _) => 2 * behind + 1
    case SweepDelete(_, _, _, _) => 2 * behind
    case EmptyLoadHead => 2
    case EmptyLoadNext(_) => 1
    case DestroyLoadHead => 2 * (|v.order| - v.lo) + 2
    case DestroyLoadNext(_) => 2 * (|v.order| - v.lo) + 1
    case DestroyDelete(_, _) => 2 * (|v.order| - v.lo)
    case _ => 0
  }

  predicate AtRest(c: Consumer) {
    c.Free? || c.Destroyed?
  }

  lemma OtherNears<T>(s: State<T>, a: Action<T>, v: View)
    requires Inv(s, v) && !AtRest(s.consumer) && !a.Consume? && Step(s, a).Ok?
    ensures StepsLeft(Step(s, a).s.consumer, NextView(s, a, v)) == StepsLeft(s.consumer, v)
  {
    OtherStep(s, a);
    hide Nodes, Data, ConsumerAt, ProducerAt, Step;
    if Dying(s.consumer) { hide LiveInv; }
  }

  lemma LiveNears<T>(s: State<T>, v: View)
    requires LiveInv(s, v) && !AtRest(s.consumer)
    ensures StepsLeft(s.consumer, v) > 0 && ConsumerStep(s).Ok?
    ensures StepsLeft(ConsumerStep(s).s.consumer, NextView(s, Consume, v)) < StepsLeft(s.consumer, v)
  {
    ConsumerKeeps(s, v);
    LiveBounds(s, v);
    if v.lo < v.cur { NodesDiffer(s.heap, v, s.producer.Append?); }
    assert ConsumerAt(s, v);
    hide LiveInv;
    if Batching(s.consumer) { BatchNears(s, v); } else { OneNears(s, v); }
  }

  lemma BatchNears<T>(s: State<T>, v: View)
    requires v.lo <= v.cur < v.hi <= |v.order| && ConsumerAt(s, v) && Batching(s.consumer) && ConsumerStep(s).Ok?
    requires v.lo < v.cur ==> v.order[v.lo] != v.order[v.cur]
    ensures StepsLeft(s.consumer, v) > 0
    ensures StepsLeft(ConsumerStep(s).s.consumer, NextView(s, Consume, v)) < StepsLeft(s.consumer, v)
  {
    hide PopStep, EmptyStep, DestroyStep;
  }

  lemma OneNears<T>(s: State<T>, v: View)
    requires v.lo <= v.cur < v.hi <= |v.order| && ConsumerStep(s).Ok?
    requires !Dying(s.consumer) && !Batching(s.consumer) && !s.consumer.Free?
    ensures StepsLeft(s.consumer, v) > 0
    ensures StepsLeft(ConsumerStep(s).s.consumer, NextView(s, Consume, v)) < StepsLeft(s.consumer, v)
  {
    hide BatchStep, DestroyStep;
  }

  lemma NodesDiffer<T>(heap: map<Id, Node<T>>, v: View, pending: bool)
    requires Nodes(heap, v, pending) && v.lo < v.cur < |v.order|
    ensures v.order[v.lo] != v.order[v.cur]
  {
  }

  lemma DyingNears<T>(s: State<T>, v: View)
    requires DyingInv(s, v) && !AtRest(s.consumer)
    ensures StepsLeft(s.consumer, v) > 0 && ConsumerStep(s).Ok?
    ensures StepsLeft(ConsumerStep(s).s.consumer, NextView(s, Consume, v)) < StepsLeft(s.consumer, v)
  {
    DestroyKeeps(s, v);
    hide Nodes;
  }

  lemma {:induction false} CallReturns<T>(s: State<T>, v: View, run: seq<Action<T>>) returns (i: nat)
    requires Inv(s, v)
    ensures OwnSteps(run) >= StepsLeft(s.consumer, v) ==>
              i <= |run| && Run(s, run[..i]).Ok? && AtRest(Run(s, run[..i]).s.consumer)
    decreases |run|
  {
    i := 0;
    if AtRest(s.consumer) {
      assert run[..0] == [];
    } else {
      if LiveInv(s, v) { LiveNears(s, v); } else { DyingNears(s, v); }
      if run != [] {
        StepKeeps(s, run[0], v);
        if !run[0].Consume? { OtherNears(s, run[0], v); }
        var r, rest := Step(s, run[0]).s, run[1..];
        assert StepsLeft(r.consumer, NextView(s, run[0], v)) <=
               StepsLeft(s.consumer, v) - if run[0].Consume? then 1 else 0;
        hide Inv, Step, NextView, StepsLeft, ConsumerStep;
        var j := CallReturns(r, NextView(s, run[0], v), rest);
        if OwnSteps(run) >= StepsLeft(s.consumer, v) {
          i := j + 1;
          assert run[..i][0] == run[0] && run[..i][1..] == rest[..j];
        }
      }
    }
  }

  // No call waits for the producer: it returns after a number of steps of its own that depends on nothing but the
  // call, and for the destructor on the number of nodes.
  lemma ConsumerIsWaitFree<T(!new)>(s: State<T>, start: Action<T>, run: seq<Action<T>>) returns (i: nat)
    requires Reaches(s) && s.consumer.Free?
    requires start.StartPop? || start.StartBatch? || start.StartEmpty? || (start.StartDestroy? && s.producer.Ready?)
    ensures Step(s, start).Ok?
    ensures var r := Step(s, start).s;
            var n := match start
                     case StartBatch(max) => 4 * max + 4
                     case StartDestroy => 2 * |s.heap| + 2
                     case StartPop => 5
                     case _ => 2;
            OwnSteps(run) >= n ==>
              i <= |run| && Run(r, run[..i]).Ok? && AtRest(Run(r, run[..i]).s.consumer)
  {
    var v := ReachableInv(s);
    StepKeeps(s, start, v);
    var r := Step(s, start).s;
    NodeCount(s, v);
    i := CallReturns(r, v, run);
  }

  lemma NodeCount<T>(s: State<T>, v: View)
    requires Inv(s, v)
    ensures |s.heap| == |v.order| - v.lo
  {
    assert |s.heap.Keys| == |s.heap|;
  }

  // ---------------------------------------------------------------- push and push_batch

  ghost predicate InPush<T>(s: State<T>, run: seq<Action<T>>)
    decreases |run|
  {
    run == [] || (!s.producer.Ready? && Step(s, run[0]).Ok? && InPush(Step(s, run[0]).s, run[1..]))
  }

  ghost predicate Pushed<T>(s: State<T>, run: seq<Action<T>>) {
    InPush(s, run) && Run(s, run).Ok? && Run(s, run).s.producer.Ready?
  }

  // Until the link nothing of the push is linked, from then on all of it.
  ghost predicate LinkedOrNot<T>(s: State<T>, before: seq<T>, items: seq<T>) {
    s.requested == before + items && !Dying(s.consumer) &&
    (if s.producer.StoreTail? || s.producer.Ready? then s.linked == before + items else s.linked == before)
  }

  lemma PushMoves<T>(s: State<T>, a: Action<T>, before: seq<T>, items: seq<T>)
    requires LinkedOrNot(s, before, items) && !s.producer.Ready? && Step(s, a).Ok?
    ensures LinkedOrNot(Step(s, a).s, before, items)
  {
  }

  lemma {:induction false} PushRest<T>(s: State<T>, before: seq<T>, items: seq<T>, run: seq<Action<T>>, i: nat)
    requires LinkedOrNot(s, before, items) && InPush(s, run) && i <= |run|
    ensures Run(s, run[..i]).Ok? && LinkedOrNot(Run(s, run[..i]).s, before, items)
    decreases |run|
  {
    if i == 0 {
      assert run[..0] == [];
    } else {
      PushMoves(s, run[0], before, items);
      hide Step, LinkedOrNot;
      PushRest(Step(s, run[0]).s, before, items, run[1..], i - 1);
      assert run[..i][0] == run[0] && run[..i][1..] == run[1..][..i - 1];
    }
  }

  // A push of any number of items, from its start to its return, with the consumer's steps anywhere in between: at
  // every moment all of the items or none are linked, and all of them, in order, when it has returned.
  lemma PushLinksAll<T(!new)>(s: State<T>, items: seq<T>, run: seq<Action<T>>, i: nat)
    requires Reaches(s) && s.producer.Ready? && !Dying(s.consumer)
    requires Step(s, StartPush(items)).Ok? && Pushed(Step(s, StartPush(items)).s, run) && i <= |run|
    ensures var r := Step(s, StartPush(items)).s;
            Run(r, run).s.linked == s.linked + items && Run(r, run[..i]).Ok? &&
            (Run(r, run[..i]).s.linked == s.linked || Run(r, run[..i]).s.linked == s.linked + items)
  {
    var chain, waiting := DeliversInOrder(s);
    var r := Step(s, StartPush(items)).s;
    assert s.linked == s.requested;
    assert items == [] ==> s.linked + items == s.linked;
    assert LinkedOrNot(r, s.linked, items);
    hide Step, Reaches, Run;
    PushRest(r, s.linked, items, run, i);
    PushRest(r, s.linked, items, run, |run|);
    assert run[..|run|] == run;
  }

  // The allocator returns identifiers that are not live, as it must.
  ghost predicate Fresh<T>(s: State<T>, run: seq<Action<T>>)
    decreases |run|
  {
    run == [] ||
    ((run[0].Produce? ==> run[0].newId !in s.heap) && (Step(s, run[0]).Ok? ==> Fresh(Step(s, run[0]).s, run[1..])))
  }

  function ProducerSteps<T>(run: seq<Action<T>>): nat {
    if run == [] then 0 else (if run[0].Produce? then 1 else 0) + ProducerSteps(run[1..])
  }

  function PushLeft<T>(p: Producer<T>): nat {
    match p
    case Ready => 0
    case NewFirst(rest) => 2 * |rest| + 3
    case NewNode(rest, _, _) => 2 * |rest| + 4
    case Append(rest, _, _, _) => 2 * |rest| + 5
    case LoadTail(_, _) => 3
    case Link(_, _, _) => 2
    case StoreTail(_) => 1
  }

  lemma PushNears<T>(s: State<T>, a: Action<T>, v: View)
    requires Inv(s, v) && !s.producer.Ready? && Step(s, a).Ok? && (a.Produce? ==> a.newId !in s.heap)
    ensures PushLeft(Step(s, a).s.producer) <= PushLeft(s.producer) - if a.Produce? then 1 else 0
  {
    hide Nodes, Data, ConsumerAt;
  }

  lemma {:induction false} PushReturnsFrom<T>(s: State<T>, v: View, run: seq<Action<T>>) returns (i: nat)
    requires Inv(s, v) && Fresh(s, run)
    ensures ProducerSteps(run) >= PushLeft(s.producer) ==>
              i <= |run| && Run(s, run[..i]).Ok? && Run(s, run[..i]).s.producer.Ready?
    decreases |run|
  {
    i := 0;
    if s.producer.Ready? {
      assert run[..0] == [];
    } else if run != [] {
      StepKeeps(s, run[0], v);
      PushNears(s, run[0], v);
      var r, rest := Step(s, run[0]).s, run[1..];
      hide Inv, Step, NextView, PushLeft;
      var j := PushReturnsFrom(r, NextView(s, run[0], v), rest);
      if ProducerSteps(run) >= PushLeft(s.producer) {
        i := j + 1;
        assert run[..i][0] == run[0] && run[..i][1..] == rest[..j];
      }
    }
  }

  // Nor does a push wait for the consumer: 2n + 3 steps of its own suffice for n items.
  lemma ProducerIsWaitFree<T(!new)>(s: State<T>, items: seq<T>, run: seq<Action<T>>) returns (i: nat)
    requires Reaches(s) && s.producer.Ready?
    requires Step(s, StartPush(items)).Ok? && Fresh(Step(s, StartPush(items)).s, run)
    ensures var r := Step(s, StartPush(items)).s;
            ProducerSteps(run) >= 2 * |items| + 3 ==>
              i <= |run| && Run(r, run[..i]).Ok? && Run(r, run[..i]).s.producer.Ready?
  {
    var v := ReachableInv(s);
    StepKeeps(s, StartPush(items), v);
    var r := Step(s, StartPush(items)).s;
    assert PushLeft(r.producer) <= 2 * |items| + 3;
    hide Inv, Step, Run, Fresh, PushLeft, NextView;
    i := PushReturnsFrom(r, NextView(s, StartPush(items), v), run);
  }
}
