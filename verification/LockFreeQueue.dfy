/** The single-producer single-consumer linked queue, as atomic steps over a heap of nodes.

    Each step performs at most one access to shared memory (`head_`, `tail_`, a node's `next`, a node's
    `data`, `new` or `delete`) and the two threads interleave arbitrarily.  Accesses are sequentially
    consistent.  The allocator may hand out any identifier that is not live, so identifiers of freed
    nodes may come back.  Touching a node that is not live, or moving data out of a node that
    holds none, is a `Fault`. */
module LockFreeQueue {
  import opened Basics

  type Id = nat

  // `data` is None for the sentinel and for a node whose value has been moved out.
  datatype Node<T> = Node(data: Option<T>, next: Option<Id>)

  // Where the producer stands inside push / push_batch.  `push(x)` is a batch of one.
  datatype Producer<T> =
    | Ready
    | NewFirst(rest: seq<T>)
    | NewNode(rest: seq<T>, first: Id, last: Id)
    | Append(rest: seq<T>, first: Id, last: Id, node: Id)
    | LoadTail(first: Id, last: Id)
    | Link(first: Id, last: Id, oldTail: Id)
    | StoreTail(last: Id)

  // Where the consumer stands inside pop / pop_batch / empty / the destructor.
  datatype Consumer =
    | Free
    | PopLoadHead
    | PopLoadNext(top: Id)
    | PopTake(top: Id, nxt: Id)
    | PopStoreHead(top: Id, nxt: Id)
    | PopDelete(top: Id)
    | BatchLoadHead(max: nat)
    | BatchLoadNext(top: Id, curr: Id, count: nat, max: nat)
    | BatchTake(top: Id, curr: Id, nxt: Id, count: nat, max: nat)
    | BatchStoreHead(top: Id, last: Id, count: nat)
    | SweepLoadNext(node: Id, last: Id, count: nat)
    | SweepDelete(node: Id, after: Id, last: Id, count: nat)
    | EmptyLoadHead
    | EmptyLoadNext(top: Id)
    | DestroyLoadHead
    | DestroyLoadNext(at: Option<Id>)
    | DestroyDelete(node: Id, later: Option<Id>)
    | Destroyed

  // What a call of the consumer returns.
  datatype Answer = Popped(ok: bool) | PoppedBatch(count: nat) | WasEmpty(yes: bool)

  // `requested`, `linked` and `delivered` record, in order, the values handed to push operations, those made
  // reachable by a store to `next` of the old tail, and those moved out by the consumer; `answers` what its calls
  // returned; `allocs` and `frees` count every `new` and `delete`.
  datatype State<T> = State(
    heap: map<Id, Node<T>>, head: Id, tail: Id,
    producer: Producer<T>, consumer: Consumer,
    requested: seq<T>, linked: seq<T>, delivered: seq<T>,
    answers: seq<Answer>, allocs: nat, frees: nat)

  datatype Outcome<T> = Fault | Ok(s: State<T>)

  // `Produce(id)` and `Consume` let one thread make its next step; `id` is what the allocator would return.
  datatype Action<T> =
    | StartPush(items: seq<T>)
    | Produce(newId: Id)
    | StartPop
    | StartBatch(max: nat)
    | StartEmpty
    | StartDestroy
    | Consume

  function Init<T>(sentinel: Id): State<T> {
    State(map[sentinel := Node(None, None)], sentinel, sentinel, Ready, Free, [], [], [], [], 1, 0)
  }

  // ---------------------------------------------------------------- memory

  function Alloc<T>(s: State<T>, id: Id, item: T): State<T> {
    s.(heap := s.heap[id := Node(Some(item), None)], allocs := s.allocs + 1)
  }

  function SetNext<T>(s: State<T>, id: Id, next: Option<Id>): Outcome<T> {
    if id !in s.heap then Fault else Ok(s.(heap := s.heap[id := s.heap[id].(next := next)]))
  }

  function Take<T>(s: State<T>, id: Id): Outcome<T> {
    if id !in s.heap || s.heap[id].data.None? then Fault
    else Ok(s.(heap := s.heap[id := s.heap[id].(data := None)], delivered := s.delivered + [s.heap[id].data.value]))
  }

  function Delete<T>(s: State<T>, id: Id): Outcome<T> {
    if id !in s.heap then Fault else Ok(s.(heap := s.heap - {id}, frees := s.frees + 1))
  }

  // ---------------------------------------------------------------- the two threads

  function ProducerStep<T>(s: State<T>, newId: Id): Outcome<T> {
    match s.producer
    case Ready => Ok(s)
    case NewFirst(rest) =>
      if newId in s.heap || rest == [] then Ok(s)
      else Ok(Alloc(s, newId, rest[0]).(producer := NewNode(rest[1..], newId, newId)))
    case NewNode(rest, first, last) =>
      if rest == [] then
        match SetNext(s, last, None)
        case Fault => Fault
        case Ok(s') => Ok(s'.(producer := LoadTail(first, last)))
      else if newId in s.heap then Ok(s)
      else Ok(Alloc(s, newId, rest[0]).(producer := Append(rest[1..], first, last, newId)))
    case Append(rest, first, last, node) =>
      (match SetNext(s, last, Some(node))
       case Fault => Fault
       case Ok(s') => Ok(s'.(producer := NewNode(rest, first, node))))
    case LoadTail(first, last) => Ok(s.(producer := Link(first, last, s.tail)))
    case Link(first, last, oldTail) =>
      (match SetNext(s, oldTail, Some(first))
       case Fault => Fault
       case Ok(s') => Ok(s'.(producer := StoreTail(last), linked := s'.requested)))
    case StoreTail(last) => Ok(s.(tail := last, producer := Ready))
  }

  function Returns<T>(s: State<T>, a: Answer): State<T> {
    s.(consumer := Free, answers := s.answers + [a])
  }

  function PopStep<T>(s: State<T>): Outcome<T> {
    match s.consumer
    case PopLoadHead => Ok(s.(consumer := PopLoadNext(s.head)))
    case PopLoadNext(top) =>
      if top !in s.heap then Fault
      else (match s.heap[top].next
            case None => Ok(Returns(s, Popped(false)))
            case Some(n) => Ok(s.(consumer := PopTake(top, n))))
    case PopTake(top, n) =>
      (match Take(s, n)
       case Fault => Fault
       case Ok(s') => Ok(s'.(consumer := PopStoreHead(top, n))))
    case PopStoreHead(top, n) => Ok(s.(head := n, consumer := PopDelete(top)))
    case PopDelete(top) =>
      (match Delete(s, top)
       case Fault => Fault
       case Ok(s') => Ok(Returns(s', Popped(true))))
    case _ => Ok(s)
  }

  function BatchStep<T>(s: State<T>): Outcome<T> {
    match s.consumer
    case BatchLoadHead(max) => Ok(s.(consumer := BatchLoadNext(s.head, s.head, 0, max)))
    case BatchLoadNext(top, curr, count, max) =>
      if count < max && curr !in s.heap then Fault
      else if count < max && s.heap[curr].next.Some? then
        Ok(s.(consumer := BatchTake(top, curr, s.heap[curr].next.value, count, max)))
      else if count > 0 then Ok(s.(consumer := BatchStoreHead(top, curr, count)))
      else Ok(Returns(s, PoppedBatch(0)))
    case BatchTake(top, _, n, count, max) =>
      (match Take(s, n)
       case Fault => Fault
       case Ok(s') => Ok(s'.(consumer := BatchLoadNext(top, n, count + 1, max))))
    case BatchStoreHead(top, last, count) => Ok(s.(head := last, consumer := SweepLoadNext(top, last, count)))
    case SweepLoadNext(node, last, count) =>
      if node == last then Ok(Returns(s, PoppedBatch(count)))
      else if node !in s.heap || s.heap[node].next.None? then Fault
      else Ok(s.(consumer := SweepDelete(node, s.heap[node].next.value, last, count)))
    case SweepDelete(node, after, last, count) =>
      (match Delete(s, node)
       case Fault => Fault
       case Ok(s') => Ok(s'.(consumer := SweepLoadNext(after, last, count))))
    case _ => Ok(s)
  }

  function EmptyStep<T>(s: State<T>): Outcome<T> {
    match s.consumer
    case EmptyLoadHead => Ok(s.(consumer := EmptyLoadNext(s.head)))
    case EmptyLoadNext(top) =>
      if top !in s.heap then Fault else Ok(Returns(s, WasEmpty(s.heap[top].next.None?)))
    case _ => Ok(s)
  }

  function DestroyStep<T>(s: State<T>): Outcome<T> {
    match s.consumer
    case DestroyLoadHead => Ok(s.(consumer := DestroyLoadNext(Some(s.head))))
    case DestroyLoadNext(at) =>
      (match at
       case None => Ok(s.(consumer := Destroyed))
       case Some(node) =>
         if node !in s.heap then Fault else Ok(s.(consumer := DestroyDelete(node, s.heap[node].next))))
    case DestroyDelete(node, later) =>
      (match Delete(s, node)
       case Fault => Fault
       case Ok(s') => Ok(s'.(consumer := DestroyLoadNext(later))))
    case _ => Ok(s)
  }

  predicate Popping(c: Consumer) {
    c.PopLoadHead? || c.PopLoadNext? || c.PopTake? || c.PopStoreHead? || c.PopDelete?
  }

  predicate Batching(c: Consumer) {
    c.BatchLoadHead? || c.BatchLoadNext? || c.BatchTake? || c.BatchStoreHead? || c.SweepLoadNext? || c.SweepDelete?
  }

  predicate Dying(c: Consumer) {
    c.DestroyLoadHead? || c.DestroyLoadNext? || c.DestroyDelete? || c.Destroyed?
  }

  function ConsumerStep<T>(s: State<T>): Outcome<T> {
    if Popping(s.consumer) then PopStep(s)
    else if Batching(s.consumer) then BatchStep(s)
    else if Dying(s.consumer) then DestroyStep(s)
    else EmptyStep(s)
  }

  // An action that is not possible now leaves the state alone.  The destructor starts only when neither
  // thread is inside an operation, and nothing starts afterwards: that is what it demands of its caller.
  function Step<T>(s: State<T>, a: Action<T>): Outcome<T> {
    match a
    case StartPush(items) =>
      Ok(if s.producer.Ready? && !Dying(s.consumer) && items != []
         then s.(producer := NewFirst(items), requested := s.requested + items) else s)
    case Produce(newId) => ProducerStep(s, newId)
    case StartPop => Ok(if s.consumer.Free? then s.(consumer := PopLoadHead) else s)
    case StartBatch(max) => Ok(if s.consumer.Free? then s.(consumer := BatchLoadHead(max)) else s)
    case StartEmpty => Ok(if s.consumer.Free? then s.(consumer := EmptyLoadHead) else s)
    case StartDestroy =>
      Ok(if s.consumer.Free? && s.producer.Ready? then s.(consumer := DestroyLoadHead) else s)
    case Consume => ConsumerStep(s)
  }

  function Run<T>(s: State<T>, actions: seq<Action<T>>): Outcome<T>
    decreases |actions|
  {
    if actions == [] then Ok(s)
    else
      match Step(s, actions[0])
      case Fault => Fault
      case Ok(s') => Run(s', actions[1..])
  }

  // ---------------------------------------------------------------- invariant

  // `order` lists every node allocated so far in allocation order; order[0] is the first sentinel and
  // order[i + 1] carries requested[i].  Nodes before `lo` have been freed, nodes from `hi` on are the
  // producer's unlinked batch, and `cur` is the node the consumer has advanced to.
  datatype View = View(order: seq<Id>, lo: nat, cur: nat, hi: nat)

  // The live nodes are order[lo..], all different, each pointing to its successor except where the chain
  // ends, where the batch ends, and (`pending`) where the producer is about to append its newest node.
  ghost predicate Nodes<T>(heap: map<Id, Node<T>>, v: View, pending: bool) {
    var o, n := v.order, |v.order|;
    && v.lo <= n && v.hi <= n
    && (forall i | v.lo <= i < n :: o[i] in heap)
    && |heap.Keys| == n - v.lo
    && (forall i, j | v.lo <= i < j < n :: o[i] != o[j])
    && (forall i, j | v.lo <= i < j < n && j == i + 1 && j != v.hi && !(pending && j == n - 1) ::
          heap[o[i]].next == Some(o[j]))
    && (forall i | v.lo <= i < n && (i + 1 == v.hi || i + 1 == n || (pending && i + 2 == n)) ::
          heap[o[i]].next == None)
  }

  // Nodes up to the cursor are empty; the others hold what was asked for, in order.
  ghost predicate Data<T>(heap: map<Id, Node<T>>, v: View, requested: seq<T>) {
    && |v.order| <= |requested| + 1
    && forall i | v.lo <= i < |v.order| :: v.order[i] in heap &&
         heap[v.order[i]].data == if i <= v.cur || i == 0 then None else Some(requested[i - 1])
  }

  ghost predicate Fifo<T>(s: State<T>, v: View) {
    var n := |v.order|;
    && v.lo <= v.cur < v.hi <= n && n - 1 <= |s.requested|
    && s.delivered == s.requested[..v.cur]
    && s.linked == s.requested[..v.hi - 1]
    && Rest(s.producer) == s.requested[n - 1..]
    && Data(s.heap, v, s.requested)
  }

  // Values of the push in progress for which no node exists yet.
  ghost function Rest<T>(p: Producer<T>): seq<T> {
    if p.NewFirst? || p.NewNode? || p.Append? then p.rest else []
  }

  ghost predicate ProducerAt<T>(s: State<T>, v: View)
    requires v.lo < v.hi <= |v.order|
  {
    var o, n, end := v.order, |v.order|, v.order[v.hi - 1];
    match s.producer
    case Ready => n == v.hi && s.tail == end
    case NewFirst(rest) => n == v.hi && s.tail == end && rest != []
    case NewNode(_, first, last) => n > v.hi && s.tail == end && first == o[v.hi] && last == o[n - 1]
    case Append(_, first, last, node) =>
      n > v.hi + 1 && s.tail == end && first == o[v.hi] && last == o[n - 2] && node == o[n - 1]
    case LoadTail(first, last) => n > v.hi && s.tail == end && first == o[v.hi] && last == o[n - 1]
    case Link(first, last, oldTail) =>
      n > v.hi && s.tail == end == oldTail && first == o[v.hi] && last == o[n - 1]
    case StoreTail(last) => n == v.hi && last == end  // `tail` itself may be stale, or even freed
  }

  ghost predicate ConsumerAt<T>(s: State<T>, v: View)
    requires v.lo <= v.cur < v.hi <= |v.order|
  {
    var o, lo, cur := v.order, v.lo, v.cur;
    match s.consumer
    case PopLoadNext(top) => cur == lo && s.head == o[lo] == top
    case PopTake(top, n) => cur == lo && s.head == o[lo] == top && lo + 1 < v.hi && n == o[lo + 1]
    case PopStoreHead(top, n) => cur == lo + 1 && s.head == o[lo] == top && n == o[cur]
    case PopDelete(top) => cur == lo + 1 && o[lo] == top && s.head == o[cur]
    case BatchLoadNext(top, curr, count, _) => cur == lo + count && s.head == o[lo] == top && curr == o[cur]
    case BatchTake(top, curr, n, count, max) =>
      && cur == lo + count && count < max && s.head == o[lo] == top && curr == o[cur]
      && cur + 1 < v.hi && n == o[cur + 1]
    case BatchStoreHead(top, last, _) => cur > lo && s.head == o[lo] == top && last == o[cur]
    case SweepLoadNext(node, last, _) => node == o[lo] && s.head == last == o[cur]
    case SweepDelete(node, after, last, _) =>
      cur > lo && node == o[lo] && after == o[lo + 1] && s.head == last == o[cur]
    case EmptyLoadNext(top) => cur == lo && s.head == o[lo] == top
    case _ => cur == lo && s.head == o[lo]
  }

  // The destructor walks what is left of the chain.
  ghost predicate DyingAt<T>(s: State<T>, v: View)
    requires v.lo <= |v.order|
  {
    var o, lo, n := v.order, v.lo, |v.order|;
    && s.producer.Ready? && v.hi == n
    && match s.consumer
       case DestroyLoadHead => lo < n && s.head == o[lo]
       case DestroyLoadNext(at) => at == if lo == n then None else Some(o[lo])
       case DestroyDelete(node, later) =>
         lo < n && node == o[lo] && later == if lo + 1 < n then Some(o[lo + 1]) else None
       case _ => lo == n
  }

  // Every `new` is matched by one `delete`, except for the nodes that are live.
  ghost predicate Balanced<T>(s: State<T>, v: View) {
    s.allocs == |v.order| && s.frees == v.lo
  }

  ghost predicate LiveInv<T>(s: State<T>, v: View) {
    && !Dying(s.consumer)
    && Nodes(s.heap, v, s.producer.Append?)
    && Balanced(s, v)
    && Fifo(s, v) && ProducerAt(s, v) && ConsumerAt(s, v)
  }

  ghost predicate DyingInv<T>(s: State<T>, v: View) {
    Dying(s.consumer) && Nodes(s.heap, v, false) && Balanced(s, v) && DyingAt(s, v)
  }

  ghost predicate Inv<T>(s: State<T>, v: View) {
    LiveInv(s, v) || DyingInv(s, v)
  }

  // How one step changes the view.
  ghost function NextView<T>(s: State<T>, a: Action<T>, v: View): View {
    match a
    case Produce(newId) =>
      if (s.producer.NewFirst? || s.producer.NewNode?) && s.producer.rest != [] && newId !in s.heap then
        v.(order := v.order + [newId])
      else if s.producer.Link? then v.(hi := |v.order|)
      else v
    case Consume =>
      if s.consumer.PopTake? || s.consumer.BatchTake? then v.(cur := v.cur + 1)
      else if s.consumer.PopDelete? || s.consumer.SweepDelete? || s.consumer.DestroyDelete? then v.(lo := v.lo + 1)
      else v
    case _ => v
  }

  // ---------------------------------------------------------------- each step keeps it

  lemma AllocNodes<T>(heap: map<Id, Node<T>>, v: View, id: Id, node: Node<T>)
    requires Nodes(heap, v, false) && id !in heap && node.next == None
    ensures Nodes(heap[id := node], v.(order := v.order + [id]), |v.order| > v.hi)
    ensures |v.order| == v.hi ==> Nodes(heap[id := node], v.(order := v.order + [id]), false)
  {
    assert heap[id := node].Keys == heap.Keys + {id};
    var o' := v.order + [id];
    assert forall i | 0 <= i < |v.order| :: o'[i] == v.order[i];
    forall i, j | v.lo <= i < j < |o'| && j == i + 1 && j != v.hi && j != |o'| - 1
      ensures heap[id := node][o'[i]].next == Some(o'[j])
    {
    }
  }

  lemma DeleteNodes<T>(heap: map<Id, Node<T>>, v: View, pending: bool)
    requires Nodes(heap, v, pending) && v.lo < |v.order|
    ensures Nodes(heap - {v.order[v.lo]}, v.(lo := v.lo + 1), pending)
  {
    assert (heap - {v.order[v.lo]}).Keys == heap.Keys - {v.order[v.lo]};
  }

  // Storing at order[k] (link, append, seal or take) keeps the chain if the new `next` is the right one.
  lemma StoreNodes<T>(heap: map<Id, Node<T>>, v: View, pending: bool, k: nat, node: Node<T>, hi': nat, pending': bool)
    requires Nodes(heap, v, pending) && v.lo <= k < |v.order| && hi' <= |v.order|
    requires (hi' == v.hi && pending == pending' && node.next == heap[v.order[k]].next)
          || (hi' == v.hi && pending && !pending' && k + 2 == |v.order| && v.hi <= k &&
              node.next == Some(v.order[k + 1]))
          || (!pending && !pending' && k + 1 == v.hi < hi' == |v.order| && node.next == Some(v.order[k + 1]))
    ensures Nodes(heap[v.order[k] := node], v.(hi := hi'), pending')
  {
    var h := heap[v.order[k] := node];
    assert h.Keys == heap.Keys;
    assert forall i | v.lo <= i < |v.order| && i != k :: h[v.order[i]] == heap[v.order[i]];
    if hi' == v.hi && pending == pending' {
    } else if pending {
    } else {
    }
  }

  lemma AllocData<T>(heap: map<Id, Node<T>>, v: View, requested: seq<T>, id: Id, item: T)
    requires Data(heap, v, requested) && id !in heap && v.cur < |v.order| <= |requested|
    requires item == requested[|v.order| - 1]
    ensures Data(heap[id := Node(Some(item), None)], v.(order := v.order + [id]), requested)
  {
  }

  lemma StoreData<T>(heap: map<Id, Node<T>>, v: View, requested: seq<T>, pending: bool, k: nat, next: Option<Id>,
                     hi': nat)
    requires Nodes(heap, v, pending) && Data(heap, v, requested) && v.lo <= k < |v.order|
    ensures v.order[k] in heap
    ensures Data(heap[v.order[k] := heap[v.order[k]].(next := next)], v.(hi := hi'), requested)
  {
  }

  lemma TakeData<T>(heap: map<Id, Node<T>>, v: View, requested: seq<T>, pending: bool)
    requires Nodes(heap, v, pending) && Data(heap, v, requested) && v.lo <= v.cur && v.cur + 1 < |v.order|
    ensures v.order[v.cur + 1] in heap && heap[v.order[v.cur + 1]].data == Some(requested[v.cur])
    ensures var id := v.order[v.cur + 1];
            Data(heap[id := heap[id].(data := None)], v.(cur := v.cur + 1), requested)
  {
  }

  lemma DeleteData<T>(heap: map<Id, Node<T>>, v: View, requested: seq<T>, pending: bool)
    requires Nodes(heap, v, pending) && Data(heap, v, requested) && v.lo < |v.order|
    ensures v.order[v.lo] in heap && Data(heap - {v.order[v.lo]}, v.(lo := v.lo + 1), requested)
  {
  }

  lemma NodeAt<T>(heap: map<Id, Node<T>>, v: View, pending: bool, k: nat)
    requires Nodes(heap, v, pending) && v.lo <= k < |v.order|
    ensures v.order[k] in heap
    ensures k + 1 == v.hi || k + 1 == |v.order| ==> heap[v.order[k]].next == None
    ensures k + 1 < v.hi ==>
              heap[v.order[k]].next == if pending && k + 2 == |v.order| then None else Some(v.order[k + 1])
  {
  }

  lemma ProducerKeeps<T>(s: State<T>, newId: Id, v: View)
    requires LiveInv(s, v)
    ensures ProducerStep(s, newId).Ok? && LiveInv(ProducerStep(s, newId).s, NextView(s, Produce(newId), v))
  {
    if (s.producer.NewFirst? || s.producer.NewNode?) && s.producer.rest != [] {
      if newId in s.heap {
        hide Nodes, Data;
      } else {
        AllocKeeps(s, newId, v);
      }
    } else if s.producer.NewNode? {
      SealKeeps(s, newId, v);
    } else if s.producer.Append? {
      AppendKeeps(s, newId, v);
    } else if s.producer.Link? {
      LinkKeeps(s, newId, v);
    } else {
      hide Nodes, Data;
    }
  }

  // The producer's step stored `next` in the node order[k].
  ghost predicate Stored<T>(s: State<T>, v: View, k: nat, next: Option<Id>, s': State<T>)
    requires v.lo <= k < |v.order|
  {
    var id := v.order[k];
    && id in s.heap
    && s' == s.(heap := s.heap[id := s.heap[id].(next := next)], producer := s'.producer, linked := s'.linked)
  }

  lemma StoredFifo<T>(s: State<T>, v: View, k: nat, next: Option<Id>, s': State<T>)
    requires Nodes(s.heap, v, s.producer.Append?) && Fifo(s, v)
    requires v.lo <= k < |v.order| && Stored(s, v, k, next, s')
    requires s'.linked == s.linked && Rest(s'.producer) == Rest(s.producer)
    ensures Fifo(s', v)
  {
    hide Nodes, Data;
    StoreData(s.heap, v, s.requested, s.producer.Append?, k, next, v.hi);
  }

  lemma SealStep<T>(s: State<T>, newId: Id, v: View)
    requires v.lo < v.hi <= |v.order| && ProducerAt(s, v) && v.order[|v.order| - 1] in s.heap
    requires s.producer.NewNode? && s.producer.rest == []
    ensures ProducerStep(s, newId).Ok? && NextView(s, Produce(newId), v) == v
    ensures var s' := ProducerStep(s, newId).s;
            Stored(s, v, |v.order| - 1, None, s') && ProducerAt(s', v) && s'.producer.LoadTail? && s'.linked == s.linked
  {
  }

  lemma SealKeeps<T>(s: State<T>, newId: Id, v: View)
    requires LiveInv(s, v) && s.producer.NewNode? && s.producer.rest == []
    ensures ProducerStep(s, newId).Ok? && LiveInv(ProducerStep(s, newId).s, NextView(s, Produce(newId), v))
  {
    hide Nodes, Fifo, ConsumerAt, ProducerAt, ProducerStep, NextView;
    LiveBounds(s, v);
    var n := |v.order|;
    NodeAt(s.heap, v, false, n - 1);
    SealStep(s, newId, v);
    StoredFifo(s, v, n - 1, None, ProducerStep(s, newId).s);
    StoreNodes(s.heap, v, false, n - 1, s.heap[v.order[n - 1]].(next := None), v.hi, false);
    SameConsumer(s, v, ProducerStep(s, newId).s, v);
  }

  lemma AppendStep<T>(s: State<T>, newId: Id, v: View)
    requires v.lo < v.hi <= |v.order| && ProducerAt(s, v) && s.producer.Append?
    requires |v.order| >= 2 ==> v.order[|v.order| - 2] in s.heap
    ensures v.hi + 1 < |v.order| && ProducerStep(s, newId).Ok? && NextView(s, Produce(newId), v) == v
    ensures var s' := ProducerStep(s, newId).s;
            Stored(s, v, |v.order| - 2, Some(v.order[|v.order| - 1]), s') && ProducerAt(s', v) &&
            s'.producer.NewNode? && s'.linked == s.linked && Rest(s'.producer) == Rest(s.producer)
  {
  }

  lemma AppendKeeps<T>(s: State<T>, newId: Id, v: View)
    requires LiveInv(s, v) && s.producer.Append?
    ensures ProducerStep(s, newId).Ok? && LiveInv(ProducerStep(s, newId).s, NextView(s, Produce(newId), v))
  {
    hide Nodes, Fifo, ConsumerAt, ProducerAt, ProducerStep, NextView;
    LiveBounds(s, v);
    HiBeforePending(s, v);
    var n := |v.order|;
    var next := Some(v.order[n - 1]);
    NodeAt(s.heap, v, true, n - 2);
    AppendStep(s, newId, v);
    StoredFifo(s, v, n - 2, next, ProducerStep(s, newId).s);
    StoreNodes(s.heap, v, true, n - 2, s.heap[v.order[n - 2]].(next := next), v.hi, false);
    SameConsumer(s, v, ProducerStep(s, newId).s, v);
  }

  lemma LinkKeeps<T>(s: State<T>, newId: Id, v: View)
    requires LiveInv(s, v) && s.producer.Link?
    ensures ProducerStep(s, newId).Ok? && LiveInv(ProducerStep(s, newId).s, NextView(s, Produce(newId), v))
  {
    hide Nodes, Data, ConsumerAt;
    var n, k, next := |v.order|, v.hi - 1, Some(s.producer.first);
    StoreData(s.heap, v, s.requested, false, k, next, n);
    StoreNodes(s.heap, v, false, k, s.heap[v.order[k]].(next := next), n, false);
    SameConsumer(s, v, ProducerStep(s, newId).s, NextView(s, Produce(newId), v));
  }

  // The consumer does not notice nodes being added behind its cursor.
  lemma SameConsumer<T>(s: State<T>, v: View, s': State<T>, v': View)
    requires v.lo <= v.cur < v.hi <= |v.order| && ConsumerAt(s, v)
    requires v'.lo == v.lo && v'.cur == v.cur && v.hi <= v'.hi <= |v'.order| && v.order <= v'.order
    requires s'.consumer == s.consumer && s'.head == s.head
    ensures ConsumerAt(s', v')
  {
  }

  ghost predicate Allocates<T>(s: State<T>, newId: Id) {
    (s.producer.NewFirst? || s.producer.NewNode?) && s.producer.rest != [] && newId !in s.heap
  }

  lemma AllocStep<T>(s: State<T>, newId: Id, v: View)
    requires Allocates(s, newId)
    ensures ProducerStep(s, newId).Ok? && NextView(s, Produce(newId), v) == v.(order := v.order + [newId])
    ensures var (s', item) := (ProducerStep(s, newId).s, s.producer.rest[0]);
            s' == Alloc(s, newId, item).(producer := s'.producer) && Rest(s'.producer) == Rest(s.producer)[1..]
  {
  }

  lemma AllocProducer<T>(s: State<T>, newId: Id, v: View)
    requires Allocates(s, newId) && v.lo < v.hi <= |v.order| && ProducerAt(s, v)
    ensures ProducerStep(s, newId).Ok?
    ensures ProducerAt(ProducerStep(s, newId).s, v.(order := v.order + [newId]))
    ensures ProducerStep(s, newId).s.producer.Append? <==> |v.order| > v.hi
  {
  }

  lemma AllocFifo<T>(s: State<T>, newId: Id, v: View, s': State<T>)
    requires Allocates(s, newId) && Fifo(s, v)
    requires s' == Alloc(s, newId, s.producer.rest[0]).(producer := s'.producer)
    requires Rest(s'.producer) == Rest(s.producer)[1..]
    ensures Fifo(s', v.(order := v.order + [newId]))
  {
    hide Data;
    assert s.requested[|v.order| - 1..][1..] == s.requested[|v.order|..];
    AllocData(s.heap, v, s.requested, newId, s.producer.rest[0]);
  }

  lemma AllocKeeps<T>(s: State<T>, newId: Id, v: View)
    requires LiveInv(s, v) && Allocates(s, newId)
    ensures ProducerStep(s, newId).Ok? && LiveInv(ProducerStep(s, newId).s, NextView(s, Produce(newId), v))
  {
    hide Nodes, Fifo, ConsumerAt, ProducerAt, ProducerStep, NextView;
    AllocStep(s, newId, v);
    var s', v' := ProducerStep(s, newId).s, v.(order := v.order + [newId]);
    LiveBounds(s, v);
    AllocProducer(s, newId, v);
    AllocFifo(s, newId, v, s');
    AllocNodes(s.heap, v, newId, Node(Some(s.producer.rest[0]), None));
    SameConsumer(s, v, s', v');
  }

  lemma LiveBounds<T>(s: State<T>, v: View)
    requires LiveInv(s, v)
    ensures v.lo <= v.cur < v.hi <= |v.order|
  {
    hide Nodes, Data, ConsumerAt, ProducerAt;
  }

  lemma ConsumerKeeps<T>(s: State<T>, v: View)
    requires LiveInv(s, v)
    ensures ConsumerStep(s).Ok? && LiveInv(ConsumerStep(s).s, NextView(s, Consume, v))
  {
    if s.consumer.PopTake? || s.consumer.BatchTake? {
      TakeKeeps(s, v);
    } else if s.consumer.PopDelete? || s.consumer.SweepDelete? {
      DeleteKeeps(s, v);
    } else {
      MoveKeeps(s, v);
    }
  }

  // The consumer's steps that only read or store `head_`.
  lemma MoveKeeps<T>(s: State<T>, v: View)
    requires LiveInv(s, v)
    requires !s.consumer.PopTake? && !s.consumer.BatchTake? && !s.consumer.PopDelete? && !s.consumer.SweepDelete?
    ensures ConsumerStep(s).Ok? && LiveInv(ConsumerStep(s).s, NextView(s, Consume, v))
  {
    NodeAt(s.heap, v, s.producer.Append?, v.lo);
    NodeAt(s.heap, v, s.producer.Append?, v.cur);
    HiBeforePending(s, v);
    hide Nodes, Data, ProducerAt;
    ConsumerMoves(s, v);
    SameProducer(s, v, ConsumerStep(s).s, v);
  }

  ghost predicate NextIs<T>(heap: map<Id, Node<T>>, v: View, k: nat)
    requires k < v.hi <= |v.order|
  {
    && v.order[k] in heap
    && heap[v.order[k]].next == if k + 1 == v.hi then None else Some(v.order[k + 1])
  }

  lemma ConsumerMoves<T>(s: State<T>, v: View)
    requires !Dying(s.consumer) && v.lo <= v.cur < v.hi <= |v.order| && ConsumerAt(s, v)
    requires !s.consumer.PopTake? && !s.consumer.BatchTake? && !s.consumer.PopDelete? && !s.consumer.SweepDelete?
    requires NextIs(s.heap, v, v.lo) && NextIs(s.heap, v, v.cur)
    requires v.lo < v.cur ==> v.order[v.lo] != v.order[v.cur]
    ensures ConsumerStep(s).Ok?
    ensures var s' := ConsumerStep(s).s;
            ConsumerAt(s', v) && !Dying(s'.consumer) &&
            s' == s.(consumer := s'.consumer, head := s'.head, answers := s'.answers)
  {
  }

  // The producer does not depend on where the consumer is.
  lemma SameProducer<T>(s: State<T>, v: View, s': State<T>, v': View)
    requires v.lo < v.hi <= |v.order| && ProducerAt(s, v)
    requires v'.order == v.order && v'.hi == v.hi && v'.lo < v.hi
    requires s'.producer == s.producer && s'.tail == s.tail
    ensures ProducerAt(s', v')
  {
  }

  lemma HiBeforePending<T>(s: State<T>, v: View)
    requires v.lo < v.hi <= |v.order| && ProducerAt(s, v)
    ensures s.producer.Append? ==> v.hi + 1 < |v.order|
  {
  }

  // The consumer's step took the data of the node behind the cursor.
  ghost predicate TookNext<T>(s: State<T>, v: View, s': State<T>)
    requires v.cur + 1 < |v.order|
  {
    var id := v.order[v.cur + 1];
    && id in s.heap && s.heap[id].data.Some?
    && s' == s.(heap := s.heap[id := s.heap[id].(data := None)],
                delivered := s.delivered + [s.heap[id].data.value], consumer := s'.consumer)
  }

  lemma TakeStep<T>(s: State<T>, v: View)
    requires v.lo <= v.cur < v.hi <= |v.order| && ConsumerAt(s, v) && (s.consumer.PopTake? || s.consumer.BatchTake?)
    requires v.cur + 1 < |v.order| ==>
               v.order[v.cur + 1] in s.heap && s.heap[v.order[v.cur + 1]].data.Some?
    ensures v.cur + 1 < v.hi && ConsumerStep(s).Ok? && NextView(s, Consume, v) == v.(cur := v.cur + 1)
    ensures var s' := ConsumerStep(s).s;
            ConsumerAt(s', v.(cur := v.cur + 1)) && !Dying(s'.consumer) && TookNext(s, v, s')
  {
    hide EmptyStep, DestroyStep;
  }

  lemma TakeFifo<T>(s: State<T>, v: View, s': State<T>)
    requires Nodes(s.heap, v, s.producer.Append?) && Fifo(s, v) && v.cur + 1 < v.hi
    requires v.hi <= |v.order| && TookNext(s, v, s')
    ensures Fifo(s', v.(cur := v.cur + 1)) && Nodes(s'.heap, v.(cur := v.cur + 1), s.producer.Append?)
  {
    var pending, v' := s.producer.Append?, v.(cur := v.cur + 1);
    hide Nodes, Data;
    TakeData(s.heap, v, s.requested, pending);
    var n := v.order[v.cur + 1];
    StoreNodes(s.heap, v, pending, v.cur + 1, s.heap[n].(data := None), v.hi, pending);
    CursorMoves(s'.heap, v, v', pending);
    OneLonger(s.requested, v.cur);
  }

  lemma NextData<T>(s: State<T>, v: View)
    requires Nodes(s.heap, v, s.producer.Append?) && Fifo(s, v)
    ensures v.cur + 1 < |v.order| ==> v.order[v.cur + 1] in s.heap && s.heap[v.order[v.cur + 1]].data.Some?
  {
    hide Nodes, Data;
    if v.cur + 1 < |v.order| { TakeData(s.heap, v, s.requested, s.producer.Append?); }
  }

  lemma TakeKeeps<T>(s: State<T>, v: View)
    requires LiveInv(s, v) && (s.consumer.PopTake? || s.consumer.BatchTake?)
    ensures ConsumerStep(s).Ok? && LiveInv(ConsumerStep(s).s, NextView(s, Consume, v))
  {
    hide Nodes, Fifo, ProducerAt, ConsumerAt, ConsumerStep, NextView;
    LiveBounds(s, v);
    NextData(s, v);
    TakeStep(s, v);
    var s', v' := ConsumerStep(s).s, v.(cur := v.cur + 1);
    TakeFifo(s, v, s');
    SameProducer(s, v, s', v');
  }

  lemma OneLonger<T>(values: seq<T>, k: nat)
    requires k < |values|
    ensures values[..k + 1] == values[..k] + [values[k]]
  {
  }

  lemma CursorMoves<T>(heap: map<Id, Node<T>>, v: View, v': View, pending: bool)
    requires Nodes(heap, v, pending) && v' == v.(cur := v'.cur)
    ensures Nodes(heap, v', pending)
  {
  }

  lemma DeleteStep<T>(s: State<T>, v: View)
    requires v.lo <= v.cur < v.hi <= |v.order| && ConsumerAt(s, v) && v.order[v.lo] in s.heap
    requires s.consumer.PopDelete? || s.consumer.SweepDelete?
    ensures v.lo < v.cur && ConsumerStep(s).Ok? && NextView(s, Consume, v) == v.(lo := v.lo + 1)
    ensures var s' := ConsumerStep(s).s;
            ConsumerAt(s', v.(lo := v.lo + 1)) && !Dying(s'.consumer) &&
            s' == s.(heap := s.heap - {v.order[v.lo]}, frees := s.frees + 1, consumer := s'.consumer,
                     answers := s'.answers)
  {
    hide EmptyStep, DestroyStep;
  }

  lemma DeleteFifo<T>(s: State<T>, v: View, s': State<T>)
    requires Nodes(s.heap, v, s.producer.Append?) && Fifo(s, v) && v.lo < v.cur
    requires s' == s.(heap := s.heap - {v.order[v.lo]}, frees := s'.frees, consumer := s'.consumer,
                      answers := s'.answers)
    ensures Fifo(s', v.(lo := v.lo + 1)) && Nodes(s'.heap, v.(lo := v.lo + 1), s.producer.Append?)
  {
    hide Nodes, Data;
    DeleteNodes(s.heap, v, s.producer.Append?);
    DeleteData(s.heap, v, s.requested, s.producer.Append?);
  }

  lemma DeleteKeeps<T>(s: State<T>, v: View)
    requires LiveInv(s, v) && (s.consumer.PopDelete? || s.consumer.SweepDelete?)
    ensures ConsumerStep(s).Ok? && LiveInv(ConsumerStep(s).s, NextView(s, Consume, v))
  {
    hide Nodes, Fifo, ProducerAt, ConsumerAt, ConsumerStep, NextView;
    LiveBounds(s, v);
    NodeAt(s.heap, v, s.producer.Append?, v.lo);
    DeleteStep(s, v);
    var s', v' := ConsumerStep(s).s, v.(lo := v.lo + 1);
    DeleteFifo(s, v, s');
    SameProducer(s, v, s', v');
  }

  lemma DestroyDeletes<T>(s: State<T>, v: View)
    requires DyingInv(s, v) && s.consumer.DestroyDelete?
    ensures DestroyStep(s).Ok? && DyingInv(DestroyStep(s).s, v.(lo := v.lo + 1))
  {
    NodeAt(s.heap, v, false, v.lo);
    hide Nodes;
    DeleteNodes(s.heap, v, false);
  }

  lemma DestroyKeeps<T>(s: State<T>, v: View)
    requires DyingInv(s, v)
    ensures ConsumerStep(s).Ok? && DyingInv(ConsumerStep(s).s, NextView(s, Consume, v))
  {
    if s.consumer.DestroyDelete? {
      DestroyDeletes(s, v);
    } else {
      if v.lo < |v.order| { NodeAt(s.heap, v, false, v.lo); }
      hide Nodes;
    }
  }

  lemma StartPushKeeps<T>(s: State<T>, items: seq<T>, v: View)
    requires LiveInv(s, v)
    ensures LiveInv(Step(s, StartPush(items)).s, v)
  {
    var s' := Step(s, StartPush(items)).s;
    if s' != s {
      DataGrows(s.heap, v, s.requested, items);
      hide Nodes, Data, ConsumerAt;
      SameConsumer(s, v, s', v);
      assert s.requested == s.requested[..|v.order| - 1];
      assert s'.requested[..v.cur] == s.requested[..v.cur];
    }
  }

  lemma DataGrows<T>(heap: map<Id, Node<T>>, v: View, requested: seq<T>, items: seq<T>)
    requires Data(heap, v, requested)
    ensures Data(heap, v, requested + items)
  {
  }

  lemma StartKeeps<T>(s: State<T>, a: Action<T>, v: View)
    requires LiveInv(s, v) && !a.Produce? && !a.Consume?
    ensures Step(s, a).Ok? && Inv(Step(s, a).s, v)
  {
    hide Nodes, Data;
    if a.StartPush? {
      hide ConsumerAt;
      StartPushKeeps(s, a.items, v);
    } else if s.consumer.Free? {
      hide ProducerAt;
      if !a.StartDestroy? { SameProducer(s, v, Step(s, a).s, v); }
    }
  }

  lemma StepKeeps<T>(s: State<T>, a: Action<T>, v: View)
    requires Inv(s, v)
    ensures Step(s, a).Ok? && Inv(Step(s, a).s, NextView(s, a, v))
  {
    if LiveInv(s, v) {
      hide LiveInv;
      match a
      case Produce(newId) => ProducerKeeps(s, newId, v);
      case Consume => ConsumerKeeps(s, v);
      case _ => StartKeeps(s, a, v);
    } else if a.Consume? {
      hide DyingInv;
      DestroyKeeps(s, v);
    }
  }

  lemma {:induction false} RunKeeps<T>(s: State<T>, actions: seq<Action<T>>, v: View) returns (v': View)
    requires Inv(s, v)
    ensures Run(s, actions).Ok? && Inv(Run(s, actions).s, v')
    decreases |actions|
  {
    v' := v;
    if actions != [] {
      hide Inv;
      StepKeeps(s, actions[0], v);
      v' := RunKeeps(Step(s, actions[0]).s, actions[1..], NextView(s, actions[0], v));
    }
  }

  // ---------------------------------------------------------------- what every run guarantees

  ghost predicate Reaches<T(!new)>(s: State<T>) {
    exists sentinel: Id, actions: seq<Action<T>> :: Run(Init(sentinel), actions) == Ok(s)
  }

  // No interleaving, whatever the allocator returns, ever touches or deletes a node that is not live.
  lemma NoRunFaults<T>(sentinel: Id, actions: seq<Action<T>>) returns (v: View)
    ensures Run(Init<T>(sentinel), actions).Ok? && Inv(Run(Init<T>(sentinel), actions).s, v)
  {
    hide *;
    InitInv<T>(sentinel);
    v := RunKeeps(Init<T>(sentinel), actions, View([sentinel], 0, 0, 1));
  }

  lemma InitInv<T>(sentinel: Id)
    ensures Inv(Init<T>(sentinel), View([sentinel], 0, 0, 1))
  {
    hide *;
    InitIsNew<T>(sentinel);
    NewInv(Init<T>(sentinel), View([sentinel], 0, 0, 1));
  }

  // A queue with a sentinel and nothing else.
  ghost predicate New<T>(s: State<T>, v: View) {
    && |v.order| == v.hi == 1 && v.lo == v.cur == 0
    && s.heap.Keys == {v.order[0]} && s.heap[v.order[0]] == Node(None, None)
    && s.head == s.tail == v.order[0] && s.producer.Ready? && s.consumer.Free?
    && s.requested == s.linked == s.delivered == [] && s.answers == [] && s.allocs == 1 && s.frees == 0
  }

  lemma InitIsNew<T>(sentinel: Id)
    ensures New(Init<T>(sentinel), View([sentinel], 0, 0, 1))
  {
  }

  lemma NewInv<T>(s: State<T>, v: View)
    requires New(s, v)
    ensures Inv(s, v)
  {
    hide Nodes, ProducerAt, ConsumerAt, Fifo, DyingInv;
    NewNodes(s, v);
    NewPlaces(s, v);
  }

  lemma NewNodes<T>(s: State<T>, v: View)
    requires New(s, v)
    ensures Nodes(s.heap, v, false)
  {
  }

  lemma NewPlaces<T>(s: State<T>, v: View)
    requires New(s, v)
    ensures Fifo(s, v) && ProducerAt(s, v) && ConsumerAt(s, v)
  {
    assert Data(s.heap, v, s.requested);
    hide Data;
  }

  lemma ReachableInv<T(!new)>(s: State<T>) returns (v: View)
    requires Reaches(s)
    ensures Inv(s, v)
  {
    var sentinel: Id, actions: seq<Action<T>> :| Run(Init(sentinel), actions) == Ok(s);
    v := NoRunFaults(sentinel, actions);
  }

  // The node the consumer has advanced to: everything after it is still to be delivered.
  function Cursor<T>(s: State<T>): Id {
    match s.consumer
    case PopLoadNext(top) => top
    case PopStoreHead(_, n) => n
    case EmptyLoadNext(top) => top
    case BatchLoadNext(_, curr, _, _) => curr
    case BatchTake(_, curr, _, _, _) => curr
    case BatchStoreHead(_, last, _) => last
    case _ => s.head
  }

  // c is the path obtained by following `next` from `from` to null, over live nodes.
  ghost predicate Path<T>(heap: map<Id, Node<T>>, from: Id, c: seq<Id>) {
    && |c| > 0 && c[0] == from
    && (forall i | 0 <= i < |c| :: c[i] in heap)
    && (forall i, j | 0 <= i < j < |c| && j == i + 1 :: heap[c[i]].next == Some(c[j]))
    && heap[c[|c| - 1]].next == None
  }

  ghost predicate Holds<T>(heap: map<Id, Node<T>>, ids: seq<Id>, values: seq<T>) {
    && |ids| == |values|
    && forall i | 0 <= i < |ids| :: ids[i] in heap && heap[ids[i]].data == Some(values[i])
  }

  // FIFO, nothing lost, duplicated or invented, wherever the two threads are: the values delivered followed by the
  // values on the chain behind the consumer's cursor are the values linked so far, which are the first of the values
  // pushed; all of them when no push is on its way to the link.
  lemma DeliversInOrder<T(!new)>(s: State<T>) returns (chain: seq<Id>, waiting: seq<T>)
    requires Reaches(s) && !Dying(s.consumer)
    ensures Path(s.heap, Cursor(s), chain) && Holds(s.heap, chain[1..], waiting)
    ensures s.delivered + waiting == s.linked <= s.requested
    ensures s.producer.Ready? || s.producer.StoreTail? ==> s.linked == s.requested
  {
    var v := ReachableInv(s);
    assert v.order[v.cur] == Cursor(s);
    HiBeforePending(s, v);
    hide ConsumerAt, ProducerAt, DyingInv, Cursor, Nodes, Data;
    chain, waiting := v.order[v.cur..v.hi], s.requested[v.cur..v.hi - 1];
    ChainPath(s.heap, v, s.producer.Append?);
    WaitingHeld(s.heap, v, s.requested);
  }

  lemma WaitingHeld<T>(heap: map<Id, Node<T>>, v: View, requested: seq<T>)
    requires Data(heap, v, requested) && v.lo <= v.cur < v.hi <= |v.order|
    ensures v.hi - 1 <= |requested|
    ensures Holds(heap, v.order[v.cur..v.hi][1..], requested[v.cur..v.hi - 1])
    ensures requested[..v.cur] + requested[v.cur..v.hi - 1] == requested[..v.hi - 1]
  {
    var ids, values := v.order[v.cur..v.hi][1..], requested[v.cur..v.hi - 1];
    forall i | 0 <= i < |ids| ensures ids[i] in heap && heap[ids[i]].data == Some(values[i]) {
      assert ids[i] == v.order[v.cur + 1 + i] && values[i] == requested[v.cur + i];
    }
  }

  lemma ChainPath<T>(heap: map<Id, Node<T>>, v: View, pending: bool)
    requires Nodes(heap, v, pending) && v.lo <= v.cur < v.hi && (pending ==> v.hi + 1 < |v.order|)
    ensures Path(heap, v.order[v.cur], v.order[v.cur..v.hi])
  {
    var c := v.order[v.cur..v.hi];
    assert forall i | 0 <= i < |c| :: c[i] == v.order[v.cur + i];
  }

  // Whenever pop, pop_batch or empty looks at `next`, wherever the producer is: it is null exactly when every value
  // linked so far has been delivered.
  lemma EmptyAnswerIsTrue<T(!new)>(s: State<T>)
    requires Reaches(s) && !Dying(s.consumer)
    requires s.consumer.PopLoadNext? || s.consumer.EmptyLoadNext? || s.consumer.BatchLoadNext?
    ensures Cursor(s) in s.heap
    ensures s.heap[Cursor(s)].next == None <==> s.delivered == s.linked
  {
    var chain, waiting := DeliversInOrder(s);
    if |chain| > 1 {
      assert s.heap[chain[0]].next == Some(chain[1]);
    }
  }

  // `head_` always points to a live node, and so does `tail_` except between a link store and its tail store.
  lemma EndsAreLive<T(!new)>(s: State<T>)
    requires Reaches(s) && !Dying(s.consumer)
    ensures s.head in s.heap
    ensures !s.producer.StoreTail? ==> s.tail in s.heap && s.heap[s.tail].next == None
  {
    var v := ReachableInv(s);
    NodeAt(s.heap, v, s.producer.Append?, v.lo);
    NodeAt(s.heap, v, s.producer.Append?, v.cur);
    NodeAt(s.heap, v, s.producer.Append?, v.hi - 1);
  }

  // When the destructor has finished nothing is left, and every node was deleted exactly as often as allocated.
  lemma DestructorFreesAll<T(!new)>(s: State<T>)
    requires Reaches(s) && s.consumer.Destroyed?
    ensures s.heap == map[] && s.allocs == s.frees
  {
    var v := ReachableInv(s);
    assert s.heap.Keys == {};
  }

  lemma RunOne<T>(s: State<T>, a: Action<T>)
    ensures Run(s, []) == Ok(s) && Run(s, [a]) == Step(s, a)
  {
  }

  lemma ReachStep<T(!new)>(s: State<T>, a: Action<T>) returns (s': State<T>)
    requires Reaches(s)
    ensures Step(s, a) == Ok(s') && Reaches(s')
  {
    hide Inv, NextView, Step;
    var v := ReachableInv(s);
    StepKeeps(s, a, v);
    s' := Step(s, a).s;
    var sentinel: Id, actions: seq<Action<T>> :| Run(Init(sentinel), actions) == Ok(s);
    RunJoin(Init(sentinel), actions, [a]);
    RunOne(s, a);
    assert Run(Init(sentinel), actions + [a]) == Ok(s');
  }

  lemma {:induction false} RunJoin<T>(s: State<T>, a: seq<Action<T>>, b: seq<Action<T>>)
    ensures Run(s, a + b) == match Run(s, a) case Fault => Fault case Ok(m) => Run(m, b)
    decreases |a|
  {
    if a == [] {
      assert a + b == b;
    } else {
      assert (a + b)[1..] == a[1..] + b;
      if Step(s, a[0]).Ok? { RunJoin(Step(s, a[0]).s, a[1..], b); }
    }
  }

  lemma PushBuildsNode(x: int) returns (s: State<int>)
    ensures Reaches(s) && s.producer == NewNode([], 1, 1) && s.tail == s.head == 0 && s.consumer == Free
    ensures s.heap == map[0 := Node(None, None), 1 := Node(Some(x), None)]
  {
    s := Init(0);
    assert Reaches(s) by { RunOne(s, Consume); }
    hide Reaches, ConsumerStep;
    s := ReachStep(s, StartPush([x]));
    s := ReachStep(s, Produce(1));
  }

  lemma PushUpToTailStore(x: int) returns (s: State<int>)
    ensures Reaches(s) && s.producer == StoreTail(1) && s.tail == s.head == 0 && s.consumer == Free
    ensures s.heap == map[0 := Node(None, Some(1)), 1 := Node(Some(x), None)]
  {
    hide Reaches, ConsumerStep;
    s := PushBuildsNode(x);
    s := ReachStep(s, Produce(1));
    assert s.heap == map[0 := Node(None, None), 1 := Node(Some(x), None)];
    s := ReachStep(s, Produce(1));
    s := ReachStep(s, Produce(1));
  }

  // The window is real: the node `tail_` points to can be freed before the producer stores the new tail.
  lemma TailCanBeFreed(x: int)
    ensures exists s: State<int> :: Reaches(s) && s.producer.StoreTail? && s.tail !in s.heap
  {
    hide Reaches;
    var s := PushUpToTailStore(x);
    s := ReachStep(s, StartPop);
    s := ReachStep(s, Consume);
    s := ReachStep(s, Consume);
    s := ReachStep(s, Consume);
    s := ReachStep(s, Consume);
    s := ReachStep(s, Consume);
  }
}
