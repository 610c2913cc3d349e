/** The event queue: one FIFO per event type, served in the order of the types, with a common bound.

    Every method runs under the queue's mutex.  It is specified on the sequence of waiting events in the order in
    which they will be handed out. */
module EventQueues {
  import opened Basics

  const KINDS: nat := 8
  const SHUTDOWN: nat := 0

  datatype Event = Event(kind: nat, connId: nat, fd: int, handler: Option<nat>)

  const SHUTDOWN_EVENT: Event := Event(SHUTDOWN, 0, -1, None)

  // ---------------------------------------------------------------- stable order by kind

  ghost predicate Sorted(q: seq<Event>) {
    forall i, j | 0 <= i < j < |q| :: q[i].kind <= q[j].kind
  }

  // The events of one kind, in their order.
  function OfKind(s: seq<Event>, k: nat): seq<Event> {
    if s == [] then [] else One(s[0], k) + OfKind(s[1..], k)
  }

  function One(e: Event, k: nat): seq<Event> {
    if e.kind == k then [e] else []
  }

  // q is the stable sort by kind of the events s.
  ghost predicate StableSort(q: seq<Event>, s: seq<Event>) {
    Sorted(q) && forall k: nat :: OfKind(q, k) == OfKind(s, k)
  }

  // Behind all events of the same or a more urgent kind.
  function Insert(q: seq<Event>, e: Event): (r: seq<Event>) {
    if q == [] || e.kind < q[0].kind then [e] + q else [q[0]] + Insert(q[1..], e)
  }

  lemma OfKindCons(e: Event, s: seq<Event>, k: nat)
    ensures OfKind([e] + s, k) == One(e, k) + OfKind(s, k) && OfKind([e], k) == One(e, k) && OfKind([], k) == []
  {
    assert ([e] + s)[1..] == s && [e][1..] == [];
  }

  lemma {:induction false} OfKindJoin(a: seq<Event>, b: seq<Event>, k: nat)
    ensures OfKind(a + b, k) == OfKind(a, k) + OfKind(b, k)
    decreases |a|
  {
    if a == [] {
      assert a + b == b;
    } else {
      assert a == [a[0]] + a[1..] && a + b == [a[0]] + (a[1..] + b);
      OfKindCons(a[0], a[1..], k);
      OfKindCons(a[0], a[1..] + b, k);
      hide OfKind, One;
      OfKindJoin(a[1..], b, k);
      Associate(One(a[0], k), OfKind(a[1..], k), OfKind(b, k));
    }
  }

  lemma {:induction false} InsertMembers(q: seq<Event>, e: Event)
    ensures |Insert(q, e)| == |q| + 1 && forall x | x in Insert(q, e) :: x == e || x in q
  {
    if q != [] && q[0].kind <= e.kind { InsertMembers(q[1..], e); }
  }

  lemma SortedCons(e: Event, q: seq<Event>)
    requires Sorted(q) && forall x | x in q :: e.kind <= x.kind
    ensures Sorted([e] + q)
  {
    forall i, j | 0 <= i < j < |q| + 1 ensures ([e] + q)[i].kind <= ([e] + q)[j].kind {
      assert ([e] + q)[j] == q[j - 1] && q[j - 1] in q;
      assert i > 0 ==> ([e] + q)[i] == q[i - 1];
    }
  }

  lemma SortedParts(a: seq<Event>, b: seq<Event>)
    requires Sorted(a + b)
    ensures Sorted(b) && forall x, y | x in a && y in b :: x.kind <= y.kind
  {
    forall i, j | 0 <= i < j < |b| ensures b[i].kind <= b[j].kind {
      assert (a + b)[|a| + i] == b[i] && (a + b)[|a| + j] == b[j];
    }
    forall x, y | x in a && y in b ensures x.kind <= y.kind {
      var i, j :| 0 <= i < |a| && a[i] == x && 0 <= j < |b| && b[j] == y;
      assert (a + b)[i] == x && (a + b)[|a| + j] == y;
    }
  }

  lemma {:induction false} InsertSorted(q: seq<Event>, e: Event)
    requires Sorted(q)
    ensures Sorted(Insert(q, e)) && |Insert(q, e)| == |q| + 1
  {
    InsertMembers(q, e);
    if q == [] {
    } else {
      assert q == [q[0]] + q[1..];
      SortedParts([q[0]], q[1..]);
      assert q[0] in [q[0]];
      if e.kind < q[0].kind {
        hide Sorted;
        SortedCons(e, q);
      } else {
        InsertMembers(q[1..], e);
        hide Sorted;
        InsertSorted(q[1..], e);
        SortedCons(q[0], Insert(q[1..], e));
      }
    }
  }

  lemma {:induction false} InsertOfKind(q: seq<Event>, e: Event, k: nat)
    requires Sorted(q)
    ensures OfKind(Insert(q, e), k) == OfKind(q, k) + One(e, k)
  {
    if q == [] || e.kind < q[0].kind {
      OfKindCons(e, q, k);
      assert [e] + [] == [e];
      if e.kind == k { NoneOfKind(q, k); }
    } else {
      InsertOfKind(q[1..], e, k);
      assert q == [q[0]] + q[1..];
      OfKindCons(q[0], q[1..], k);
      OfKindCons(q[0], Insert(q[1..], e), k);
      Associate(One(q[0], k), OfKind(q[1..], k), One(e, k));
    }
  }

  lemma {:induction false} NoneOfKind(q: seq<Event>, k: nat)
    requires forall i | 0 <= i < |q| :: q[i].kind != k
    ensures OfKind(q, k) == []
  {
    if q != [] { NoneOfKind(q[1..], k); }
  }

  // Inserting the events one by one sorts them stably.
  lemma InsertStable(q: seq<Event>, s: seq<Event>, e: Event)
    requires StableSort(q, s)
    ensures StableSort(Insert(q, e), s + [e])
  {
    InsertSorted(q, e);
    forall k: nat ensures OfKind(Insert(q, e), k) == OfKind(s + [e], k) {
      InsertOfKind(q, e, k);
      OfKindJoin(s, [e], k);
      OfKindCons(e, [], k);
    }
  }

  lemma KindPresent(q: seq<Event>)
    requires q != []
    ensures OfKind(q, q[0].kind) != [] && OfKind(q, q[0].kind)[0] == q[0]
  {
  }

  lemma KindTail(q: seq<Event>, k: nat)
    requires q != []
    ensures OfKind(q[1..], k) == if q[0].kind == k then OfKind(q, k)[1..] else OfKind(q, k)
  {
  }

  lemma {:induction false} OfKindFrom(q: seq<Event>, k: nat)
    requires OfKind(q, k) != []
    ensures exists i | 0 <= i < |q| :: q[i].kind == k
  {
    if forall i | 0 <= i < |q| :: q[i].kind != k { NoneOfKind(q, k); }
  }

  lemma LeastFirst(a: seq<Event>, b: seq<Event>)
    requires Sorted(a) && Sorted(b) && a != []
    requires forall k: nat :: OfKind(a, k) == OfKind(b, k)
    ensures b != [] && b[0].kind <= a[0].kind
  {
    KindPresent(a);
    OfKindFrom(b, a[0].kind);
    var i :| 0 <= i < |b| && b[i].kind == a[0].kind;
    assert i > 0 ==> b[0].kind <= b[i].kind;
  }

  // There is only one stable sort.
  lemma {:induction false} StableSortUnique(a: seq<Event>, b: seq<Event>, s: seq<Event>)
    requires StableSort(a, s) && StableSort(b, s)
    ensures a == b
    decreases |a|
  {
    forall k: nat ensures OfKind(a, k) == OfKind(b, k) { assert OfKind(a, k) == OfKind(s, k); }
    if a == [] {
      if b != [] { LeastFirst(b, a); }
    } else {
      LeastFirst(a, b);
      LeastFirst(b, a);
      var k0 := a[0].kind;
      KindPresent(a);
      KindPresent(b);
      assert OfKind(a, k0) == OfKind(b, k0);
      forall k: nat ensures OfKind(a[1..], k) == OfKind(b[1..], k) {
        assert OfKind(a, k) == OfKind(b, k);
        KindTail(a, k);
        KindTail(b, k);
      }
      StableSortUnique(a[1..], b[1..], a[1..]);
      assert a == [a[0]] + a[1..] && b == [b[0]] + b[1..];
    }
  }

  // ---------------------------------------------------------------- levels

  function Flat(levels: seq<seq<Event>>): seq<Event> {
    if levels == [] then [] else levels[0] + Flat(levels[1..])
  }

  // The level at position i holds events of kind from + i.
  ghost predicate Sifted(levels: seq<seq<Event>>, from: nat) {
    forall i, e | 0 <= i < |levels| && e in levels[i] :: e.kind == from + i
  }

  lemma {:induction false} InsertBehind(a: seq<Event>, b: seq<Event>, e: Event)
    requires forall i | 0 <= i < |a| :: a[i].kind <= e.kind
    ensures Insert(a + b, e) == a + Insert(b, e)
    decreases |a|
  {
    if a == [] {
      assert a + b == b && a + Insert(b, e) == Insert(b, e);
    } else {
      assert (a + b)[1..] == a[1..] + b;
      InsertBehind(a[1..], b, e);
      assert [a[0]] + (a[1..] + Insert(b, e)) == a + Insert(b, e);
    }
  }

  lemma {:induction false} FlatKinds(levels: seq<seq<Event>>, from: nat)
    requires Sifted(levels, from)
    ensures forall e | e in Flat(levels) :: e.kind >= from
    ensures Sorted(Flat(levels))
    decreases |levels|
  {
    if levels != [] {
      SiftedTail(levels, from);
      FlatKinds(levels[1..], from + 1);
      var a, b := levels[0], Flat(levels[1..]);
      assert forall i | 0 <= i < |a| :: a[i] in a && a[i].kind == from;
      assert forall i | 0 <= i < |b| :: b[i] in b;
    }
  }

  lemma SiftedTail(levels: seq<seq<Event>>, from: nat)
    requires levels != [] && Sifted(levels, from)
    ensures Sifted(levels[1..], from + 1)
  {
    forall i, e | 0 <= i < |levels[1..]| && e in levels[1..][i] ensures e.kind == from + 1 + i {
      assert levels[1..][i] == levels[i + 1];
    }
  }

  // Appending to a level is inserting into the order.
  lemma {:induction false} FlatAppend(levels: seq<seq<Event>>, from: nat, e: Event)
    requires Sifted(levels, from) && from <= e.kind < from + |levels|
    ensures Flat(levels[e.kind - from := levels[e.kind - from] + [e]]) == Insert(Flat(levels), e)
    decreases |levels|
  {
    var k := e.kind - from;
    var next := levels[k := levels[k] + [e]];
    assert forall i | 0 <= i < |levels[0]| :: levels[0][i] in levels[0] && levels[0][i].kind <= e.kind;
    SiftedTail(levels, from);
    InsertBehind(levels[0], Flat(levels[1..]), e);
    if k == 0 {
      assert next[1..] == levels[1..];
      FlatKinds(levels[1..], from + 1);
      InsertFront(Flat(levels[1..]), e);
      assert levels[0] + ([e] + Flat(levels[1..])) == levels[0] + [e] + Flat(levels[1..]);
    } else {
      assert next[1..] == levels[1..][k - 1 := levels[1..][k - 1] + [e]];
      FlatAppend(levels[1..], from + 1, e);
    }
  }

  lemma InsertFront(q: seq<Event>, e: Event)
    requires forall x | x in q :: x.kind > e.kind
    ensures Insert(q, e) == [e] + q
  {
  }

  // Taking from the first level that is not empty is taking from the front.
  lemma {:induction false} FlatPop(levels: seq<seq<Event>>, k: nat)
    requires k < |levels| && levels[k] != [] && forall i | 0 <= i < k :: levels[i] == []
    ensures Flat(levels) == [levels[k][0]] + Flat(levels[k := levels[k][1..]])
    decreases |levels|
  {
    var next := levels[k := levels[k][1..]];
    if k == 0 {
      assert next[1..] == levels[1..];
      assert levels[0] == [levels[0][0]] + levels[0][1..];
      Associate([levels[0][0]], levels[0][1..], Flat(levels[1..]));
    } else {
      assert next[1..] == levels[1..][k - 1 := levels[1..][k - 1][1..]];
      assert levels[0] == [];
      FlatPop(levels[1..], k - 1);
    }
  }

  lemma {:induction false} FlatEmpty(levels: seq<seq<Event>>)
    ensures Flat(levels) == [] <==> forall i | 0 <= i < |levels| :: levels[i] == []
  {
    if levels != [] {
      FlatEmpty(levels[1..]);
      if Flat(levels) == [] {
        assert forall i | 0 < i < |levels| :: levels[i] == levels[1..][i - 1];
      }
    }
  }

  // ---------------------------------------------------------------- the queue

  class EventQueue {
    const maxSize: nat
    var levels: seq<seq<Event>>
    var size: nat
    var closed: bool

    // The events in the order in which they will be handed out.
    ghost function Waiting(): seq<Event>
      reads this
    {
      Flat(levels)
    }

    ghost predicate Valid()
      reads this
    {
      |levels| == KINDS && Sifted(levels, 0) && size == |Flat(levels)| && size <= maxSize
    }

    constructor (maxSize: nat)
      ensures Valid() && Waiting() == [] && !closed && this.maxSize == maxSize
    {
      this.maxSize := maxSize;
      levels := seq(KINDS, _ => []);
      size := 0;
      closed := false;
      new;
      FlatEmpty(levels);
    }

    // Refused when closed, when full, and when the type is out of range.
    method Push(event: Event) returns (ok: bool)
      requires Valid()
      modifies this`levels, this`size
      ensures Valid()
      ensures ok == (!closed && old(|Waiting()|) < maxSize && event.kind < KINDS)
      ensures Waiting() == if ok then Insert(old(Waiting()), event) else old(Waiting())
    {
      if closed { return false; }
      if size >= maxSize { return false; }
      if event.kind >= KINDS { return false; }
      FlatAppend(levels, 0, event);
      FlatKinds(levels, 0);
      InsertSorted(Flat(levels), event);
      hide Flat, Insert, Sorted;
      levels := levels[event.kind := levels[event.kind] + [event]];
      size := size + 1;
      ok := true;
    }

    method HighestPriority() returns (idx: int)
      requires Valid()
      ensures -1 <= idx < KINDS
      ensures idx == -1 <==> Waiting() == []
      ensures idx >= 0 ==> levels[idx] != [] && forall i | 0 <= i < idx :: levels[i] == []
    {
      FlatEmpty(levels);
      for i := 0 to KINDS
        invariant forall j | 0 <= j < i :: levels[j] == []
      {
        if levels[i] != [] { return i; }
      }
      idx := -1;
    }

    method TakeFrom(idx: nat) returns (event: Event)
      requires Valid() && idx < KINDS && levels[idx] != [] && forall i | 0 <= i < idx :: levels[i] == []
      modifies this`levels, this`size
      ensures Valid() && old(Waiting()) == [event] + Waiting()
    {
      FlatPop(levels, idx);
      hide Flat;
      event := levels[idx][0];
      levels := levels[idx := levels[idx][1..]];
      size := size - 1;
    }

    method TryPop() returns (event: Option<Event>)
      requires Valid()
      modifies this`levels, this`size
      ensures Valid()
      ensures event == if old(Waiting()) == [] then None else Some(old(Waiting())[0])
      ensures Waiting() == if old(Waiting()) == [] then [] else old(Waiting())[1..]
    {
      hide Flat, Sifted;
      var idx := HighestPriority();
      if idx < 0 { return None; }
      var e := TakeFrom(idx);
      event := Some(e);
    }

    // None: the caller would have to wait.
    method Pop() returns (event: Option<Event>)
      requires Valid()
      modifies this`levels, this`size
      ensures Valid()
      ensures event ==
              if old(Waiting()) != [] then Some(old(Waiting())[0]) else if closed then Some(SHUTDOWN_EVENT) else None
      ensures Waiting() == if old(Waiting()) == [] then [] else old(Waiting())[1..]
    {
      hide Flat, Sifted;
      var idx := HighestPriority();
      if idx >= 0 {
        var e := TakeFrom(idx);
        return Some(e);
      }
      if closed { return Some(SHUTDOWN_EVENT); }
      event := None;
    }

    method PopAll(maxCount: nat) returns (result: seq<Event>)
      requires Valid()
      modifies this`levels, this`size
      ensures Valid()
      ensures var n := Min(maxCount, old(|Waiting()|));
              result == old(Waiting())[..n] && Waiting() == old(Waiting())[n..]
    {
      hide Flat, Sifted;
      result := [];
      ghost var all := Waiting();
      while |result| < maxCount
        invariant Valid() && |result| <= maxCount && all == result + Waiting()
        decreases maxCount - |result|
      {
        var idx := HighestPriority();
        if idx < 0 { break; }
        var e := TakeFrom(idx);
        result := result + [e];
      }
    }

    // The same events, taken one at a time.
    method TryPopTimes(n: nat) returns (result: seq<Event>)
      requires Valid()
      modifies this`levels, this`size
      ensures Valid()
      ensures var k := Min(n, old(|Waiting()|));
              result == old(Waiting())[..k] && Waiting() == old(Waiting())[k..]
    {
      hide Flat, Sifted;
      result := [];
      ghost var all := Waiting();
      for i := 0 to n
        invariant Valid() && all == result + Waiting()
        invariant |result| == Min(i, |all|)
      {
        var e := TryPop();
        if e.Some? { result := result + [e.value]; }
      }
    }

    method Size() returns (n: nat)
      requires Valid()
      ensures n == |Waiting()|
    {
      n := size;
    }

    method Close()
      modifies this`closed
      ensures closed
    {
      closed := true;
    }
  }

  // ---------------------------------------------------------------- every sequence of operations

  datatype Op = DoPush(event: Event) | DoTryPop | DoPopAll(maxCount: nat) | DoClose

  datatype Waiters = Waiters(q: seq<Event>, closed: bool)

  predicate Accepts(w: Waiters, maxSize: nat, e: Event) {
    !w.closed && |w.q| < maxSize && e.kind < KINDS
  }

  function Accepted(w: Waiters, maxSize: nat, op: Op): seq<Event> {
    if op.DoPush? && Accepts(w, maxSize, op.event) then [op.event] else []
  }

  function Delivered(w: Waiters, op: Op): seq<Event> {
    match op
    case DoTryPop => w.q[..Min(1, |w.q|)]
    case DoPopAll(n) => w.q[..Min(n, |w.q|)]
    case _ => []
  }

  function After(w: Waiters, maxSize: nat, op: Op): Waiters {
    match op
    case DoPush(e) => if Accepts(w, maxSize, e) then w.(q := Insert(w.q, e)) else w
    case DoTryPop => w.(q := w.q[Min(1, |w.q|)..])
    case DoPopAll(n) => w.(q := w.q[Min(n, |w.q|)..])
    case DoClose => w.(closed := true)
  }

  function AllAccepted(w: Waiters, maxSize: nat, ops: seq<Op>): seq<Event>
    decreases |ops|
  {
    if ops == [] then [] else Accepted(w, maxSize, ops[0]) + AllAccepted(After(w, maxSize, ops[0]), maxSize, ops[1..])
  }

  function AllDelivered(w: Waiters, maxSize: nat, ops: seq<Op>): seq<Event>
    decreases |ops|
  {
    if ops == [] then [] else Delivered(w, ops[0]) + AllDelivered(After(w, maxSize, ops[0]), maxSize, ops[1..])
  }

  function AfterAll(w: Waiters, maxSize: nat, ops: seq<Op>): Waiters
    decreases |ops|
  {
    if ops == [] then w else AfterAll(After(w, maxSize, ops[0]), maxSize, ops[1..])
  }

  // The class behaves like this whatever is done to it.
  method Simulate(queue: EventQueue, ops: seq<Op>) returns (delivered: seq<Event>)
    requires queue.Valid()
    modifies queue
    ensures queue.Valid()
    ensures var w := Waiters(old(queue.Waiting()), old(queue.closed));
            delivered == AllDelivered(w, queue.maxSize, ops) &&
            Waiters(queue.Waiting(), queue.closed) == AfterAll(w, queue.maxSize, ops)
    decreases |ops|
  {
    delivered := [];
    if ops == [] { return; }
    hide Flat, Sifted, Insert;
    match ops[0] {
      case DoPush(e) => var ok := queue.Push(e);
      case DoTryPop =>
        var e := queue.TryPop();
        if e.Some? { delivered := [e.value]; }
      case DoPopAll(n) => delivered := queue.PopAll(n);
      case DoClose => queue.Close();
    }
    var rest := Simulate(queue, ops[1..]);
    delivered := delivered + rest;
  }

  lemma StepPerKind(w: Waiters, maxSize: nat, op: Op, k: nat)
    requires Sorted(w.q)
    ensures var w1 := After(w, maxSize, op);
            Sorted(w1.q) && (|w.q| <= maxSize ==> |w1.q| <= maxSize) &&
            OfKind(w.q, k) + OfKind(Accepted(w, maxSize, op), k) == OfKind(Delivered(w, op), k) + OfKind(w1.q, k)
  {
    var w1, d := After(w, maxSize, op), Delivered(w, op);
    hide Sorted, OfKind, Insert;
    if op.DoPush? && Accepts(w, maxSize, op.event) {
      InsertSorted(w.q, op.event);
      InsertOfKind(w.q, op.event, k);
      OfKindCons(op.event, [], k);
    } else {
      assert w.q == d + w1.q;
      SortedParts(d, w1.q);
      OfKindJoin(d, w1.q, k);
      OfKindCons(SHUTDOWN_EVENT, [], k);
    }
  }

  // Over any sequence of operations each type is a FIFO of its own: the events of a type come out in the order in
  // which they were accepted, none is lost, doubled or invented; and the bound holds throughout.
  lemma {:induction false} EachKindFifo(w: Waiters, maxSize: nat, ops: seq<Op>, k: nat)
    requires Sorted(w.q) && |w.q| <= maxSize
    ensures var end := AfterAll(w, maxSize, ops);
            Sorted(end.q) && |end.q| <= maxSize &&
            OfKind(w.q, k) + OfKind(AllAccepted(w, maxSize, ops), k) ==
            OfKind(AllDelivered(w, maxSize, ops), k) + OfKind(end.q, k)
    decreases |ops|
  {
    assert OfKind([], k) == [];
    if ops != [] {
      var w1, a, d := After(w, maxSize, ops[0]), Accepted(w, maxSize, ops[0]), Delivered(w, ops[0]);
      var later, ds := AllAccepted(w1, maxSize, ops[1..]), AllDelivered(w1, maxSize, ops[1..]);
      StepPerKind(w, maxSize, ops[0], k);
      EachKindFifo(w1, maxSize, ops[1..], k);
      OfKindJoin(a, later, k);
      OfKindJoin(d, ds, k);
      hide OfKind, After, Accepted, Delivered, Sorted;
      FifoSteps(OfKind(w.q, k), OfKind(a, k), OfKind(later, k), OfKind(d, k), OfKind(w1.q, k), OfKind(ds, k),
                OfKind(AfterAll(w, maxSize, ops).q, k));
    }
  }

  lemma FifoSteps(q: seq<Event>, a: seq<Event>, later: seq<Event>, d: seq<Event>, q1: seq<Event>, ds: seq<Event>,
                  end: seq<Event>)
    requires q + a == d + q1 && q1 + later == ds + end
    ensures q + (a + later) == (d + ds) + end
  {
    Associate(q, a, later);
    Associate(d, q1, later);
    Associate(d, ds, end);
  }

  lemma ClosedStep(w: Waiters, maxSize: nat, op: Op)
    requires w.closed
    ensures w.q == Delivered(w, op) + After(w, maxSize, op).q
  {
    hide Insert;
  }

  // A queue is closed by close() only, and for good: from then on nothing is accepted, and all that waited comes out.
  lemma {:induction false} ClosedForGood(w: Waiters, maxSize: nat, ops: seq<Op>)
    ensures AfterAll(w, maxSize, ops).closed <==> w.closed || DoClose in ops
    ensures w.closed ==> AllAccepted(w, maxSize, ops) == [] &&
                         w.q == AllDelivered(w, maxSize, ops) + AfterAll(w, maxSize, ops).q
    decreases |ops|
  {
    if ops == [] {
      assert [] + w.q == w.q;
    } else {
      var w1 := After(w, maxSize, ops[0]);
      assert DoClose in ops <==> ops[0] == DoClose || DoClose in ops[1..];
      ClosedForGood(w1, maxSize, ops[1..]);
      if w.closed {
        ClosedStep(w, maxSize, ops[0]);
        hide After, Delivered;
        Associate(Delivered(w, ops[0]), AllDelivered(w1, maxSize, ops[1..]), AfterAll(w1, maxSize, ops[1..]).q);
      }
    }
  }

  // As long as nothing is taken out, the waiting events are the stable sort of the accepted ones.
  lemma {:induction false} PushesSort(w: Waiters, maxSize: nat, ops: seq<Op>, s: seq<Event>)
    requires StableSort(w.q, s) && forall i | 0 <= i < |ops| :: ops[i].DoPush?
    ensures StableSort(AfterAll(w, maxSize, ops).q, s + AllAccepted(w, maxSize, ops))
    decreases |ops|
  {
    if ops == [] {
      assert s + [] == s;
    } else {
      var a := Accepted(w, maxSize, ops[0]);
      hide StableSort, Insert;
      if a != [] { InsertStable(w.q, s, ops[0].event); } else { assert s + a == s; }
      PushesSort(After(w, maxSize, ops[0]), maxSize, ops[1..], s + a);
      assert s + (a + AllAccepted(After(w, maxSize, ops[0]), maxSize, ops[1..])) == s + AllAccepted(w, maxSize, ops);
      assert s + a + AllAccepted(After(w, maxSize, ops[0]), maxSize, ops[1..]) == s + AllAccepted(w, maxSize, ops);
    }
  }

  // What pop_all and a series of try_pops hand out then: the first of any stable sort of what was accepted.
  lemma PopAllIsStableSort(maxSize: nat, ops: seq<Op>, n: nat, sorted: seq<Event>)
    requires forall i | 0 <= i < |ops| :: ops[i].DoPush?
    requires StableSort(sorted, AllAccepted(Waiters([], false), maxSize, ops))
    ensures Delivered(AfterAll(Waiters([], false), maxSize, ops), DoPopAll(n)) == sorted[..Min(n, |sorted|)]
  {
    var w := Waiters([], false);
    PushesSort(w, maxSize, ops, []);
    assert [] + AllAccepted(w, maxSize, ops) == AllAccepted(w, maxSize, ops);
    StableSortUnique(AfterAll(w, maxSize, ops).q, sorted, AllAccepted(w, maxSize, ops));
  }
}
