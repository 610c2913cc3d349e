/** The chain of debug handlers: registered under distinct names, called in the order of priority and name until
    one of them does not answer "continue". */
module DebugChains {
  import opened Bytes
  import opened Basics
  import OrderedKeys
  import Sorting

  const SUCCESS: int := 0
  const INVALID_PARAM: int := -1
  const NOT_FOUND: int := -2
  const ALREADY_EXISTS: int := -3
  const CONTINUE_CHAIN: int := 0
  const NOT_EXECUTED: int := 2

  // `code` stands for the function pointers; `handles` says whether the one for the direction at hand is set.
  datatype Handler = Handler(name: Text, priority: int, code: nat, onRequest: bool, onResponse: bool, owned: bool)

  datatype Direction = Request | Response

  predicate Handles(h: Handler, d: Direction) {
    if d.Request? then h.onRequest else h.onResponse
  }

  // ---------------------------------------------------------------- the order

  predicate Before(a: Handler, b: Handler) {
    if a.priority != b.priority then a.priority < b.priority else OrderedKeys.Less(a.name, b.name)
  }

  lemma BeforeTotal(a: Handler, b: Handler)
    ensures a.name != b.name ==> Before(a, b) || Before(b, a)
    ensures !(Before(a, b) && Before(b, a)) && !Before(a, a)
  {
    OrderedKeys.LessTotal(a.name, b.name);
  }

  lemma BeforeTransitive(a: Handler, b: Handler, c: Handler)
    requires Before(a, b) && Before(b, c)
    ensures Before(a, c)
  {
    if a.priority == b.priority == c.priority { OrderedKeys.LessTransitive(a.name, b.name, c.name); }
  }

  ghost predicate Ascending(hs: seq<Handler>) {
    Sorting.Ascending(hs, Before)
  }

  ghost predicate DistinctNames(hs: seq<Handler>) {
    forall i, j | 0 <= i < j < |hs| :: hs[i].name != hs[j].name
  }

  function Elements(hs: seq<Handler>): set<Handler> {
    set h | h in hs
  }

  lemma FirstIsLeast(a: seq<Handler>, b: seq<Handler>)
    requires Ascending(a) && Ascending(b) && Elements(a) == Elements(b) && a != []
    ensures b != [] && (b[0] == a[0] || Before(b[0], a[0]))
  {
    assert a[0] in Elements(b);
    var i :| 0 <= i < |b| && b[i] == a[0];
  }

  // There is one ascending sequence of a set of handlers.
  lemma {:induction false} OrderUnique(a: seq<Handler>, b: seq<Handler>)
    requires Ascending(a) && Ascending(b) && Elements(a) == Elements(b)
    ensures a == b
    decreases |a|
  {
    if a == [] {
      if b != [] { FirstIsLeast(b, a); }
    } else {
      FirstIsLeast(a, b);
      FirstIsLeast(b, a);
      BeforeTotal(a[0], b[0]);
      TailElements(a);
      TailElements(b);
      OrderUnique(a[1..], b[1..]);
      assert a == [a[0]] + a[1..] && b == [b[0]] + b[1..];
    }
  }

  lemma TailElements(a: seq<Handler>)
    requires Ascending(a) && a != []
    ensures Ascending(a[1..]) && Elements(a[1..]) == Elements(a) - {a[0]}
  {
    forall h | h in a[1..] ensures h != a[0] {
      var i :| 0 <= i < |a[1..]| && a[1..][i] == h;
      BeforeTotal(a[0], a[i + 1]);
    }
    forall h | h in a && h != a[0] ensures h in a[1..] {
      var i :| 0 <= i < |a| && a[i] == h;
      assert a[1..][i - 1] == h;
    }
  }

  // The order being total on distinct names, any sorting does the same.
  function Arranged(hs: seq<Handler>): seq<Handler> {
    Sorting.Arranged(hs, Before)
  }

  lemma BeforeComparable(h: Handler, hs: seq<Handler>)
    requires forall x | x in hs :: x.name != h.name
    ensures Sorting.Comparable(h, hs, Before)
  {
    hide Before;
    forall x | x in hs ensures Before(h, x) || Before(x, h) { BeforeTotal(h, x); }
    forall x, y | x in hs && y in hs && Before(h, x) && Before(x, y) ensures Before(h, y) { BeforeTransitive(h, x, y); }
  }

  lemma {:induction false} ArrangedAscending(hs: seq<Handler>)
    requires DistinctNames(hs)
    ensures Ascending(Arranged(hs)) && multiset(Arranged(hs)) == multiset(hs)
    ensures forall x :: x in Arranged(hs) <==> x in hs
  {
    Sorting.ArrangedMembers(hs, Before);
    if hs != [] {
      ArrangedAscending(hs[1..]);
      forall x | x in Arranged(hs[1..]) ensures x.name != hs[0].name {
        var i :| 0 <= i < |hs[1..]| && hs[1..][i] == x;
        assert hs[i + 1] == x;
      }
      BeforeComparable(hs[0], Arranged(hs[1..]));
      Sorting.PlaceAscending(hs[0], Arranged(hs[1..]), Before);
    }
  }

  lemma AscendingDistinct(hs: seq<Handler>)
    requires Ascending(hs)
    ensures forall i, j | 0 <= i < j < |hs| :: hs[i] != hs[j]
  {
    forall i, j | 0 <= i < j < |hs| ensures hs[i] != hs[j] { BeforeTotal(hs[i], hs[j]); }
  }

  // ---------------------------------------------------------------- calling

  // A handler's answer, as a function of itself, the direction and the debug context: the new context and the result.
  type Behaviour<!Ctx> = (Handler, Direction, Ctx) -> (Ctx, int)

  // The context, the result and the handlers called when handlers are tried in this order.
  function Follow<Ctx>(hs: seq<Handler>, d: Direction, ctx: Ctx, call: Behaviour<Ctx>): (Ctx, int, seq<Handler>) {
    if hs == [] then (ctx, CONTINUE_CHAIN, [])
    else if !Handles(hs[0], d) then Follow(hs[1..], d, ctx, call)
    else
      var (ctx1, result) := call(hs[0], d, ctx);
      if result != CONTINUE_CHAIN then (ctx1, result, [hs[0]])
      else
        var r := Follow(hs[1..], d, ctx1, call);
        (r.0, r.1, [hs[0]] + r.2)
  }

  // The handlers with a function for the direction, in their order.
  function Eligible(hs: seq<Handler>, d: Direction): seq<Handler> {
    if hs == [] then []
    else
      var has := match d case Request => hs[0].onRequest case Response => hs[0].onResponse;
      (if has then [hs[0]] else []) + Eligible(hs[1..], d)
  }

  // The context when these handlers have been called one after the other.
  function Passed<Ctx>(called: seq<Handler>, d: Direction, ctx: Ctx, call: Behaviour<Ctx>): Ctx
    decreases |called|
  {
    if called == [] then ctx else Passed(called[1..], d, call(called[0], d, ctx).0, call)
  }

  // What the i-th of them answers.
  function AnswerOf<Ctx>(called: seq<Handler>, i: nat, d: Direction, ctx: Ctx, call: Behaviour<Ctx>): int
    requires i < |called|
  {
    call(called[i], d, Passed(called[..i], d, ctx, call)).1
  }

  lemma PassedMore<Ctx>(h: Handler, called: seq<Handler>, d: Direction, ctx: Ctx, call: Behaviour<Ctx>)
    ensures Passed([h] + called, d, ctx, call) == Passed(called, d, call(h, d, ctx).0, call)
  {
    assert ([h] + called)[1..] == called;
  }

  lemma AnswersShift<Ctx>(h: Handler, called: seq<Handler>, i: nat, d: Direction, ctx: Ctx, call: Behaviour<Ctx>)
    requires i < |called|
    ensures AnswerOf([h] + called, i + 1, d, ctx, call) == AnswerOf(called, i, d, call(h, d, ctx).0, call)
    ensures AnswerOf([h] + called, 0, d, ctx, call) == call(h, d, ctx).1
  {
    assert ([h] + called)[..i + 1] == [h] + called[..i];
    PassedMore(h, called[..i], d, ctx, call);
  }

  // All of them answer "continue" but for the last, whose answer is the result.
  ghost predicate Chained<Ctx>(called: seq<Handler>, d: Direction, ctx: Ctx, call: Behaviour<Ctx>, result: int) {
    (forall i | 0 <= i < |called| - 1 :: AnswerOf(called, i, d, ctx, call) == 0) &&
    (if called == [] then result == 0 else AnswerOf(called, |called| - 1, d, ctx, call) == result)
  }

  lemma ChainedOne<Ctx>(h: Handler, d: Direction, ctx: Ctx, call: Behaviour<Ctx>)
    ensures Chained([h], d, ctx, call, call(h, d, ctx).1) && Passed([h], d, ctx, call) == call(h, d, ctx).0
  {
    assert [h][..0] == [] && [h][1..] == [];
  }

  lemma ChainedMore<Ctx>(h: Handler, called: seq<Handler>, d: Direction, ctx: Ctx, call: Behaviour<Ctx>, result: int)
    requires call(h, d, ctx).1 == 0 && Chained(called, d, call(h, d, ctx).0, call, result)
    ensures Chained([h] + called, d, ctx, call, result)
    ensures Passed([h] + called, d, ctx, call) == Passed(called, d, call(h, d, ctx).0, call)
  {
    PassedMore(h, called, d, ctx, call);
    if called == [] {
      ChainedOne(h, d, ctx, call);
      assert [h] + called == [h];
    } else {
      var ctx1 := call(h, d, ctx).0;
      forall i | 0 <= i < |called|
        ensures AnswerOf([h] + called, i + 1, d, ctx, call) == AnswerOf(called, i, d, ctx1, call)
      {
        AnswersShift(h, called, i, d, ctx, call);
      }
      AnswersShift(h, called, 0, d, ctx, call);
      hide AnswerOf, Passed;
      forall i | 0 <= i < |called| ensures AnswerOf([h] + called, i, d, ctx, call) == 0 {
        if i > 0 { assert AnswerOf([h] + called, i - 1 + 1, d, ctx, call) == AnswerOf(called, i - 1, d, ctx1, call); }
      }
      assert AnswerOf([h] + called, |called| - 1 + 1, d, ctx, call) == AnswerOf(called, |called| - 1, d, ctx1, call);
    }
  }

  lemma FollowFirst<Ctx>(hs: seq<Handler>, d: Direction, ctx: Ctx, call: Behaviour<Ctx>)
    requires hs != []
    ensures Handles(hs[0], d) <==> match d case Request => hs[0].onRequest case Response => hs[0].onResponse
    ensures var (h, r) := (hs[0], call(hs[0], d, ctx));
            Follow(hs, d, ctx, call) ==
            if !Handles(h, d) then Follow(hs[1..], d, ctx, call)
            else if r.1 != 0 then (r.0, r.1, [h])
            else var f := Follow(hs[1..], d, r.0, call); (f.0, f.1, [h] + f.2)
  {
  }

  lemma EligibleFirst(hs: seq<Handler>, n: nat, d: Direction)
    requires hs != [] && n < |hs|
    ensures var h := hs[0];
            Eligible(hs[..n + 1], d) ==
            (if match d case Request => h.onRequest case Response => h.onResponse then [h] else []) +
            Eligible(hs[1..][..n], d)
    ensures Eligible([], d) == []
  {
    assert hs[..n + 1][1..] == hs[1..][..n];
  }

  // The first n handlers are gone through and those among them with a function for the direction are called, each on
  // the context the one before it has left; they are all there are if they all answer "continue", and end with the one
  // that does not.
  ghost predicate GoneThrough<Ctx>(hs: seq<Handler>, n: nat, d: Direction, ctx: Ctx, call: Behaviour<Ctx>, after: Ctx,
                                   result: int, called: seq<Handler>) {
    n <= |hs| && called == Eligible(hs[..n], d) && after == Passed(called, d, ctx, call) &&
    Chained(called, d, ctx, call, result) &&
    if result == 0 then n == |hs| else n > 0 && called != [] && called[|called| - 1] == hs[n - 1]
  }

  lemma GoneFirst<Ctx>(hs: seq<Handler>, d: Direction, ctx: Ctx, call: Behaviour<Ctx>)
    requires hs != [] && Handles(hs[0], d) && call(hs[0], d, ctx).1 != 0
    ensures GoneThrough(hs, 1, d, ctx, call, call(hs[0], d, ctx).0, call(hs[0], d, ctx).1, [hs[0]])
  {
    EligibleFirst(hs, 0, d);
    ChainedOne(hs[0], d, ctx, call);
    hide Eligible, Chained, Passed;
    assert hs[1..][..0] == [] && [hs[0]] + [] == [hs[0]];
  }

  lemma GoneOn<Ctx>(hs: seq<Handler>, n: nat, d: Direction, ctx: Ctx, call: Behaviour<Ctx>, after: Ctx, result: int,
                    called: seq<Handler>)
    requires hs != [] && (Handles(hs[0], d) ==> call(hs[0], d, ctx).1 == 0)
    requires GoneThrough(hs[1..], n, d, if Handles(hs[0], d) then call(hs[0], d, ctx).0 else ctx, call, after, result,
                         called)
    ensures GoneThrough(hs, n + 1, d, ctx, call, after, result, if Handles(hs[0], d) then [hs[0]] + called else called)
  {
    hide Eligible, Chained, Passed;
    EligibleFirst(hs, n, d);
    if Handles(hs[0], d) {
      ChainedMore(hs[0], called, d, ctx, call, result);
    } else {
      assert [] + called == called;
    }
    if n > 0 { assert hs[1..][n - 1] == hs[n]; }
  }

  lemma {:induction false} FollowMeans<Ctx>(hs: seq<Handler>, d: Direction, ctx: Ctx, call: Behaviour<Ctx>)
    returns (n: nat)
    ensures var (after, result, called) := Follow(hs, d, ctx, call);
            GoneThrough(hs, n, d, ctx, call, after, result, called)
    decreases |hs|
  {
    if hs == [] {
      n := 0;
    } else {
      FollowFirst(hs, d, ctx, call);
      hide *;
      var (next, answer) := call(hs[0], d, ctx);
      if Handles(hs[0], d) && answer != 0 {
        GoneFirst(hs, d, ctx, call);
        n := 1;
      } else {
        var from := if Handles(hs[0], d) then next else ctx;
        var k := FollowMeans(hs[1..], d, from, call);
        var (after, result, called) := Follow(hs[1..], d, from, call);
        GoneOn(hs, k, d, ctx, call, after, result, called);
        n := k + 1;
      }
    }
  }

  lemma {:induction false} EligibleIn(hs: seq<Handler>, d: Direction)
    ensures forall h | h in Eligible(hs, d) :: h in hs
  {
    if hs != [] { EligibleIn(hs[1..], d); }
  }

  // Lower priority numbers come first, and among equal ones the lesser name.
  ghost predicate Earlier(a: Handler, b: Handler) {
    a.priority < b.priority || (a.priority == b.priority && OrderedKeys.Less(a.name, b.name))
  }

  lemma FirstEarlier(hs: seq<Handler>, h: Handler)
    requires Ascending(hs) && hs != [] && h in hs[1..]
    ensures Earlier(hs[0], h)
  {
    var m :| 0 <= m < |hs[1..]| && hs[1..][m] == h;
    assert hs[m + 1] == h;
  }

  lemma RestAscending(hs: seq<Handler>)
    requires Ascending(hs) && hs != []
    ensures Ascending(hs[1..])
  {
  }

  lemma {:induction false} CalledInOrder(hs: seq<Handler>, d: Direction, i: nat, j: nat)
    requires Ascending(hs) && i < j < |Eligible(hs, d)|
    ensures Earlier(Eligible(hs, d)[i], Eligible(hs, d)[j])
    decreases |hs|
  {
    var rest := Eligible(hs[1..], d);
    var has := match d case Request => hs[0].onRequest case Response => hs[0].onResponse;
    RestAscending(hs);
    EligibleIn(hs[1..], d);
    hide Ascending, Earlier;
    if !has {
      assert Eligible(hs, d) == rest;
      CalledInOrder(hs[1..], d, i, j);
    } else {
      assert Eligible(hs, d) == [hs[0]] + rest;
      if i > 0 {
        CalledInOrder(hs[1..], d, i - 1, j - 1);
      } else {
        assert rest[j - 1] in rest;
        FirstEarlier(hs, rest[j - 1]);
      }
    }
  }

  class DebugChain {
    var handlers: seq<Handler>
    var sorted: bool
    var destroyed: seq<Handler>  // the handlers whose destroy() has been called, in order

    ghost predicate Valid()
      reads this
    {
      DistinctNames(handlers) && (sorted ==> Ascending(handlers))
    }

    ghost function Registered(): set<Handler>
      reads this
    {
      Elements(handlers)
    }

    constructor ()
      ensures Valid() && Registered() == {} && destroyed == []
    {
      handlers, sorted, destroyed := [], false, [];
    }

    method Find(name: Text) returns (i: nat)
      ensures i <= |handlers|
      ensures forall j | 0 <= j < i :: handlers[j].name != name
      ensures i < |handlers| ==> handlers[i].name == name
    {
      i := 0;
      while i < |handlers| && handlers[i].name != name
        invariant i <= |handlers| && forall j | 0 <= j < i :: handlers[j].name != name
      {
        i := i + 1;
      }
    }

    // None stands for a null handler or one without a name.
    method Register(handler: Option<Handler>) returns (code: int)
      requires Valid()
      modifies this`handlers, this`sorted
      ensures Valid()
      ensures code == if handler.None? then INVALID_PARAM
                      else if exists h | h in old(Registered()) :: h.name == handler.value.name then ALREADY_EXISTS
                      else SUCCESS
      ensures Registered() == old(Registered()) + if code == SUCCESS then {handler.value} else {}
    {
      if handler.None? { return INVALID_PARAM; }
      var i := Find(handler.value.name);
      if i < |handlers| {
        assert handlers[i] in Registered();
        return ALREADY_EXISTS;
      }
      assert forall h | h in Registered() :: h.name != handler.value.name;
      handlers := handlers + [handler.value];
      sorted := false;
      code := SUCCESS;
    }

    // The handlers that are left keep their order, so the chain stays sorted.
    method Unregister(name: Option<Text>) returns (code: int)
      requires Valid()
      modifies this`handlers, this`destroyed
      ensures Valid()
      ensures code == if name.None? then INVALID_PARAM
                      else if exists h | h in old(Registered()) :: h.name == name.value then SUCCESS
                      else NOT_FOUND
      ensures Registered() ==
              if code == SUCCESS then set h | h in old(Registered()) && h.name != name.value else old(Registered())
      ensures code != SUCCESS ==> destroyed == old(destroyed)
      ensures code == SUCCESS ==>
                exists h | h in old(Registered()) && h.name == name.value ::
                  destroyed == old(destroyed) + if h.owned then [h] else []
    {
      if name.None? { return INVALID_PARAM; }
      var i := Find(name.value);
      if i == |handlers| {
        assert forall h | h in Registered() :: h.name != name.value;
        return NOT_FOUND;
      }
      ghost var was := handlers;
      var handler := handlers[i];
      assert handler in Registered();
      if handler.owned { destroyed := destroyed + [handler]; }
      handlers := handlers[..i] + handlers[i + 1..];
      Removed(was, i);
      code := SUCCESS;
    }

    method SortHandlers()
      requires Valid()
      modifies this`handlers, this`sorted
      ensures Valid() && sorted && Ascending(handlers) && Registered() == old(Registered())
    {
      ArrangedAscending(handlers);
      handlers := Arranged(handlers);
      sorted := true;
      AscendingNames(handlers, old(handlers));
    }

    // `given`: none of the pointers is null.  What happens depends on the set of registered handlers alone: it is
    // what any ascending arrangement of that set does.
    method Process<Ctx>(given: bool, enabled: bool, d: Direction, ctx: Ctx, call: Behaviour<Ctx>)
      returns (code: int, after: Ctx, called: seq<Handler>)
      requires Valid()
      modifies this`handlers, this`sorted
      ensures Valid() && Registered() == old(Registered())
      ensures !given || !enabled ==>
                code == (if given then NOT_EXECUTED else INVALID_PARAM) && after == ctx && called == []
      ensures given && enabled ==>
                Ascending(handlers) && (after, code, called) == Follow(handlers, d, ctx, call) &&
                forall hs | Ascending(hs) && Elements(hs) == old(Registered()) ::
                  (after, code, called) == Follow(hs, d, ctx, call)
    {
      after, called := ctx, [];
      if !given { return INVALID_PARAM, ctx, []; }
      if !enabled { return NOT_EXECUTED, ctx, []; }
      if !sorted { SortHandlers(); }
      forall hs | Ascending(hs) && Elements(hs) == old(Registered()) ensures hs == handlers {
        OrderUnique(hs, handlers);
      }
      hide Ascending, Elements, DistinctNames, Follow;
      assert handlers[0..] == handlers;
      NonePrefixed(Follow(handlers, d, ctx, call));
      for i := 0 to |handlers|
        modifies {}
        invariant Follow(handlers, d, ctx, call) == Prefixed(called, Follow(handlers[i..], d, after, call))
      {
        var h := handlers[i];
        assert handlers[i..][0] == h && handlers[i..][1..] == handlers[i + 1..];
        FollowOne(called, handlers[i..], d, after, call);
        if Handles(h, d) {
          var (ctx1, result) := call(h, d, after);
          after, called := ctx1, called + [h];
          if result != CONTINUE_CHAIN { return result, after, called; }
        }
      }
      FollowOne(called, handlers[|handlers|..], d, after, call);
      code := CONTINUE_CHAIN;
    }
  }

  function Prefixed<Ctx>(called: seq<Handler>, r: (Ctx, int, seq<Handler>)): (Ctx, int, seq<Handler>) {
    (r.0, r.1, called + r.2)
  }

  lemma NonePrefixed<Ctx>(r: (Ctx, int, seq<Handler>))
    ensures Prefixed([], r) == r
  {
    assert [] + r.2 == r.2;
  }

  lemma FollowOne<Ctx>(called: seq<Handler>, hs: seq<Handler>, d: Direction, ctx: Ctx, call: Behaviour<Ctx>)
    ensures Prefixed(called, Follow(hs, d, ctx, call)) ==
            if hs == [] then (ctx, CONTINUE_CHAIN, called)
            else if !Handles(hs[0], d) then Prefixed(called, Follow(hs[1..], d, ctx, call))
            else
              var r := call(hs[0], d, ctx);
              if r.1 != CONTINUE_CHAIN then (r.0, r.1, called + [hs[0]])
              else Prefixed(called + [hs[0]], Follow(hs[1..], d, r.0, call))
  {
    assert called + [] == called;
    if hs != [] {
      var rest := Follow(hs[1..], d, call(hs[0], d, ctx).0, call);
      assert called + ([hs[0]] + rest.2) == called + [hs[0]] + rest.2;
    }
  }

  // Where the j-th of the handlers that are left was before.
  function Was(i: nat, j: nat): nat {
    if j < i then j else j + 1
  }

  lemma RestAt(hs: seq<Handler>, i: nat)
    requires i < |hs|
    ensures var rest := hs[..i] + hs[i + 1..];
            |rest| == |hs| - 1 && forall j | 0 <= j < |rest| :: rest[j] == hs[Was(i, j)]
  {
  }

  lemma RemovedOrder(hs: seq<Handler>, i: nat)
    requires i < |hs| && DistinctNames(hs)
    ensures var rest := hs[..i] + hs[i + 1..]; DistinctNames(rest) && (Ascending(hs) ==> Ascending(rest))
  {
    RestAt(hs, i);
    var rest := hs[..i] + hs[i + 1..];
    forall j, k | 0 <= j < k < |rest|
      ensures rest[j].name != rest[k].name && (Ascending(hs) ==> Before(rest[j], rest[k]))
    {
      hide Before;
      assert Was(i, j) < Was(i, k);
    }
  }

  lemma Removed(hs: seq<Handler>, i: nat)
    requires i < |hs| && DistinctNames(hs)
    ensures var rest := hs[..i] + hs[i + 1..];
            DistinctNames(rest) && (Ascending(hs) ==> Ascending(rest)) &&
            Elements(rest) == set h | h in Elements(hs) && h.name != hs[i].name
  {
    RemovedOrder(hs, i);
    RestAt(hs, i);
    hide Ascending;
    var rest := hs[..i] + hs[i + 1..];
    forall h | h in hs && h.name != hs[i].name ensures h in rest {
      var j :| 0 <= j < |hs| && hs[j] == h;
      assert rest[if j < i then j else j - 1] == h;
    }
    forall h | h in rest ensures h in hs && h.name != hs[i].name {
      var j :| 0 <= j < |rest| && rest[j] == h;
      assert hs[Was(i, j)] == h;
    }
  }

  // Rearranging handlers with distinct names leaves them distinct.
  lemma AscendingNames(a: seq<Handler>, b: seq<Handler>)
    requires Ascending(a) && DistinctNames(b) && forall x :: x in a <==> x in b
    ensures DistinctNames(a) && Elements(a) == Elements(b)
  {
    AscendingDistinct(a);
    forall i, j | 0 <= i < j < |a| ensures a[i].name != a[j].name {
      assert a[i] in b && a[j] in b;
      var k, l :| 0 <= k < |b| && 0 <= l < |b| && b[k] == a[i] && b[l] == a[j];
    }
  }
}
