/** An HTTP/1.1 request whose head is cut by the reads, and requests that arrive together. */
module Http1Reads {
  import opened Bytes
  import opened Basics
  import opened HttpText
  import opened HttpParsers
  import opened HttpRoundTrip
  import opened HttpSplit
  import opened Http1Connections
  import OrderedKeys

  // ---------------------------------------------------------------- headers in two reads

  lemma CompleteHeaders(c: Conn, s: seq<byte>, attached: bool)
    requires Sane(c) && c.phase == ExpectHeaders && HeadersOf(s, map[], 0).code == Ok
    ensures var r := HeadersOf(s, map[], 0);
            Pass(c.(unread := s), attached) == HeadersDone(c.(unread := r.rest), r.headers)
  {
    hide HeadersOf, HeadersDone, ResponseBytes;
  }

  lemma UnfinishedHeaders(c: Conn, h: Headers, rest: seq<byte>, attached: bool)
    requires Sane(c) && c.phase == ExpectHeaders
    requires HeadersOf(c.unread, map[], 0) == HttpParsers.HeadersRead(Again, h, rest)
    ensures Process(c, attached) == (c.(request := c.request.(headers := h), unread := rest), Ok)
  {
    hide HeadersOf, HeadersDone, ResponseBytes;
  }

  // Two reads deliver a header block that is good as a whole.  The second one stores what one read of everything
  // stores if and only if it sees every name stored by the first.
  lemma SplitDelivered(c: Conn, a: seq<byte>, b: seq<byte>, attached: bool)
    requires Sane(c) && c.phase == ExpectHeaders && c.unread == []
    requires HeadersOf(a, map[], 0).code == Again
    ensures var first := HeadersOf(a, map[], 0);
            var second := HeadersOf(first.rest + b, map[], 0);
            var c1 := Deliver(c, a, attached);
            c1 == (c.(request := c.request.(headers := first.headers), unread := first.rest), Ok) && Sane(c1.0) &&
            (HeadersOf(a + b, map[], 0).code == Ok ==>
               (Pass(c1.0.(unread := c1.0.unread + b), attached) == Pass(c.(unread := a + b), attached) <==>
                  forall n | n in first.headers :: n in second.headers) &&
               ((forall n | n in first.headers :: n in second.headers) ==>
                  Deliver(c1.0, b, attached) == Deliver(c, a + b, attached)))
  {
    hide *;
    var first, whole := HeadersOf(a, map[], 0), HeadersOf(a + b, map[], 0);
    var second := HeadersOf(first.rest + b, map[], 0);
    SplitHeaders(a, b);
    DeliverAlone(c, a, attached);
    SaneHeaders(c, first.headers, first.rest);
    SaneHeaders(c, c.request.headers, a);
    UnfinishedHeaders(c.(unread := a), first.headers, first.rest, attached);
    var c1 := c.(request := c.request.(headers := first.headers), unread := first.rest);
    if whole.code == Ok {
      CompleteHeaders(c, a + b, attached);
      CompleteHeaders(c1, first.rest + b, attached);
      var c2 := c.(unread := whole.rest);
      HeadersDoneForgets(c2, first.headers, second.headers);
      HeadersDoneKeeps(c2, second.headers);
      HeadersDoneKeeps(c2, whole.headers);
    }
    SamePass(c1, b, c, a + b, attached);
    DeliverAlone(c, a + b, attached);
  }

  lemma SaneHeaders(c: Conn, h: Headers, unread: seq<byte>)
    requires Sane(c)
    ensures Sane(c.(request := c.request.(headers := h), unread := unread)) && Sane(c.(unread := unread))
  {
  }

  lemma SamePass(c1: Conn, b: seq<byte>, c: Conn, s: seq<byte>, attached: bool)
    requires Sane(c1) && Sane(c)
    ensures Sane(c1.(unread := c1.unread + b)) && Sane(c.(unread := s))
    ensures Pass(c1.(unread := c1.unread + b), attached) == Pass(c.(unread := s), attached) ==>
              Deliver(c1, b, attached) == Process(c.(unread := s), attached)
  {
    hide Pass;
  }

  // ---------------------------------------------------------------- when two reads serve what one serves

  // What a header block decides about the connection.
  datatype Verdict = Waits | Refuses | Takes(n: nat)

  function Decision(h: Headers): Verdict {
    if Chunked(h) || BodyLength(h).None? then Refuses else Takes(BodyLength(h).value)
  }

  function VerdictOf(r: HttpParsers.HeadersRead): Verdict {
    if r.code == Again then Waits else if r.code != Ok then Refuses else Decision(r.headers)
  }

  // What can be told of a connection from outside: what it returned and wrote, what it awaits, and what it keeps
  // for later unless it is broken.
  datatype Seen = Seen(code: Code, phase: Phase, out: seq<byte>, unread: seq<byte>, contentLength: nat)

  function SeenOf(r: (Conn, Code)): Seen {
    Seen(r.1, r.0.phase, r.0.out, if r.0.phase == Errored then [] else r.0.unread, r.0.request.contentLength)
  }

  // What a verdict leads to when the octets `rest` follow the headers.
  function Effect(c: Conn, v: Verdict, rest: seq<byte>, attached: bool): Seen {
    match v
    case Waits => Seen(Ok, ExpectHeaders, c.out, rest, c.request.contentLength)
    case Refuses => Seen(Invalid, Errored, Refused(c).out, [], c.request.contentLength)
    case Takes(n) =>
      if |rest| < n then Seen(Ok, ExpectBody, c.out, [], n)
      else if attached
      then Seen(Ok, ExpectRequestLine, c.out + ResponseBytes(Reply(c.response, rest[..n])), rest[n..], 0)
      else Seen(Invalid, ExpectComplete, c.out, rest[n..], n)
  }

  // Different verdicts on the same rest show; a refusal does not depend on the rest.
  lemma EffectShows(c: Conn, v: Verdict, w: Verdict, rest: seq<byte>, other: seq<byte>, attached: bool)
    requires v.Refuses? || rest == other
    ensures Effect(c, v, rest, attached) == Effect(c, w, other, attached) <==> v == w
  {
    hide Refused, ResponseBytes, Reply;
    if v.Takes? && w.Takes? && v.n <= |rest| && w.n <= |rest| {
      assert |rest[v.n..]| == |rest| - v.n && |rest[w.n..]| == |rest| - w.n;
    }
  }

  lemma BodyTaken(c: Conn, rest: seq<byte>, attached: bool)
    requires Sane(c) && c.request.body == [] && c.unread == rest
    requires c.phase == if c.request.contentLength > 0 then ExpectBody else ExpectComplete
    ensures SeenOf(Process(c, attached)) == Effect(c, Takes(c.request.contentLength), rest, attached)
  {
    hide ResponseBytes, Reply, Process, Deliver;
    var n := c.request.contentLength;
    if n > 0 {
      var c1 := c.(unread := []);
      DeliverAlone(c1, rest, attached);
      BodyPass(c1, rest, attached);
      if |rest| >= n {
        assert [] + rest[..n] == rest[..n];
        CompletePass(WithBody(c1, rest[..n]).(phase := ExpectComplete, unread := rest[n..]), attached);
      }
    } else {
      assert rest[..0] == [] && rest[0..] == rest;
      CompletePass(c, attached);
    }
  }

  lemma TakenOrRefused(c: Conn, s: seq<byte>, attached: bool)
    requires Sane(c) && c.phase == ExpectHeaders
    ensures var r := HeadersOf(s, map[], 0);
            var v := VerdictOf(r);
            var o := Pass(c.(unread := s), attached);
            (v.Refuses? ==> o.ret == Some(Invalid) && SeenOf((o.conn, Invalid)) == Effect(c, v, r.rest, attached)) &&
            (v.Takes? ==> o.ret == None && o.conn.request.body == [] && o.conn.request.contentLength == v.n &&
                          o.conn.unread == r.rest && o.conn.out == c.out && o.conn.response == c.response &&
                          o.conn.phase == if v.n > 0 then ExpectBody else ExpectComplete)
  {
    hide HeadersOf, ResponseBytes, Reply, Chunked, BodyLength, Found;
  }

  lemma EffectOfTaking(c: Conn, d: Conn, n: nat, rest: seq<byte>, attached: bool)
    requires c.out == d.out && c.response == d.response
    ensures Effect(c, Takes(n), rest, attached) == Effect(d, Takes(n), rest, attached)
  {
    hide ResponseBytes, Reply;
  }

  // What a read does in front of a header block, for every block.
  lemma HeadersSeen(c: Conn, s: seq<byte>, attached: bool)
    requires Sane(c) && c.phase == ExpectHeaders
    ensures Sane(c.(unread := s))
    ensures var r := HeadersOf(s, map[], 0);
            SeenOf(Process(c.(unread := s), attached)) == Effect(c, VerdictOf(r), r.rest, attached)
  {
    var c1, r := c.(unread := s), HeadersOf(s, map[], 0);
    var v := VerdictOf(r);
    SaneHeaders(c, c.request.headers, s);
    TakenOrRefused(c, s, attached);
    hide HeadersOf, Process, Pass, Chunked, BodyLength, ResponseBytes, Reply, Refused, Found;
    ProcessOne(c1, attached);
    if v.Waits? {
      UnfinishedHeaders(c1, r.headers, r.rest, attached);
    } else if v.Takes? {
      var d := Pass(c1, attached).conn;
      BodyTaken(d, r.rest, attached);
      EffectOfTaking(c, d, v.n, r.rest, attached);
    }
  }

  // For every block and every cut before its end: the second of two reads leaves the connection as one read of
  // everything would, as far as that can be told from outside, if and only if what it still sees of the headers
  // decides the same as all of them: to wait, to refuse, or to take a body of the same length.
  lemma SplitServed(c: Conn, a: seq<byte>, b: seq<byte>, attached: bool)
    requires Sane(c) && c.phase == ExpectHeaders && c.unread == []
    requires HeadersOf(a, map[], 0).code == Again
    ensures Sane(Deliver(c, a, attached).0)
    ensures var second := HeadersOf(HeadersOf(a, map[], 0).rest + b, map[], 0);
            SeenOf(Deliver(Deliver(c, a, attached).0, b, attached)) == SeenOf(Deliver(c, a + b, attached)) <==>
            VerdictOf(second) == VerdictOf(HeadersOf(a + b, map[], 0))
  {
    hide *;
    var first, whole := HeadersOf(a, map[], 0), HeadersOf(a + b, map[], 0);
    var s := first.rest + b;
    var second := HeadersOf(s, map[], 0);
    SplitDelivered(c, a, b, attached);
    SplitHeaders(a, b);
    StaleDeliveryAt(c, first.headers, first.rest, b, attached);
    DeliverAlone(c, a + b, attached);
    HeadersSeen(c, s, attached);
    HeadersSeen(c, a + b, attached);
    VerdictMeans(whole);
    VerdictMeans(second);
    EffectShows(c, VerdictOf(whole), VerdictOf(second), whole.rest, second.rest, attached);
  }

  lemma VerdictMeans(r: HttpParsers.HeadersRead)
    ensures VerdictOf(r).Waits? <==> r.code == Again
    ensures VerdictOf(r).Takes? ==> r.code == Ok
  {
    hide Chunked, BodyLength;
  }

  lemma StaleDeliveryAt(c: Conn, g: Headers, kept: seq<byte>, b: seq<byte>, attached: bool)
    requires Sane(c) && c.phase == ExpectHeaders
    ensures var c1 := c.(request := c.request.(headers := g), unread := kept);
            Sane(c1) && Sane(c.(unread := kept + b)) &&
            Deliver(c1, b, attached) == Process(c.(unread := kept + b), attached)
  {
    StaleHeaders(c.(unread := kept + b), g, attached);
    hide Process;
  }

  lemma LengthLineAlone(n: nat)
    requires n < U64
    ensures HeadersOf(HeaderLine(CONTENT_LENGTH, Decimal(n)) + CRLF, map[], 0) ==
            HttpParsers.HeadersRead(Again, map[CONTENT_LENGTH := Decimal(n)], [])
  {
    var line := HeaderLine(CONTENT_LENGTH, Decimal(n)) + CRLF;
    LengthHeaderFits(n);
    HeadersOfOne(CONTENT_LENGTH, Decimal(n), [], map[], 0);
    assert line + [] == line;
    hide HeaderLine, WellFormed, Decimal;
    assert ReadLineOf([], MAX_LINE_LEN) == NoLine;
  }

  lemma NoHeadersThenComplete(c: Conn)
    requires Sane(c) && c.phase == ExpectHeaders && c.unread == CRLF
    ensures Process(c, true) == (Idle([], c.out + ResponseBytes(Reply(c.response, c.request.body))), Ok)
  {
    HeadersEnd([], map[], 0);
    assert CRLF + [] == CRLF;
    EmptyHeaders();
    hide HeadersOf, ResponseBytes, Reply, Chunked, BodyLength, WithHeaders;
    var c1 := c.(unread := [], phase := ExpectComplete, request := WithHeaders(c.request, map[]).(contentLength := 0));
    assert Pass(c, true) == Outcome(c1, None);
    BodyKept(c.request, map[]);
    CompletePass(c1, true);
  }

  lemma BodyKept(q: Request, h: Headers)
    ensures WithHeaders(q, h).body == q.body
  {
  }

  // For instance a Content-Length that arrives ahead of the empty line is lost, and the request is answered without
  // waiting for its body.
  lemma SplitHeadersForgotten(c: Conn, n: nat)
    requires Sane(c) && c.phase == ExpectHeaders && c.unread == [] && n < U64
    ensures var first := Deliver(c, HeaderLine(CONTENT_LENGTH, Decimal(n)) + CRLF, true);
            var second := Deliver(first.0, CRLF, true);
            first.1 == Ok && first.0.request.headers == map[CONTENT_LENGTH := Decimal(n)] && first.0.unread == [] &&
            second == (Idle([], c.out + ResponseBytes(Reply(c.response, []))), Ok)
  {
    var line := HeaderLine(CONTENT_LENGTH, Decimal(n)) + CRLF;
    LengthLineAlone(n);
    DeliverAlone(c, line, true);
    UnfinishedHeaders(c.(unread := line), map[CONTENT_LENGTH := Decimal(n)], [], true);
    hide HeadersOf, ResponseBytes, Reply, HeaderLine, Decimal, Process, Deliver;
    var c1 := c.(request := c.request.(headers := map[CONTENT_LENGTH := Decimal(n)]));
    DeliverAlone(c1, CRLF, true);
    NoHeadersThenComplete(c1.(unread := CRLF));
  }

  lemma EmptyHeaders()
    ensures !Chunked(map[]) && BodyLength(map[]) == Some(0)
  {
  }

  // ---------------------------------------------------------------- a head in any number of reads

  lemma UnfinishedLine(c: Conn, attached: bool)
    requires Sane(c) && c.phase == ExpectRequestLine && FirstLine(c.unread).None?
    ensures Process(c, attached) == (c, Ok)
  {
    hide FirstLine, RequestLineOf, ResponseBytes;
  }

  lemma StaleHeaders(c: Conn, g: Headers, attached: bool)
    requires Sane(c) && c.phase == ExpectHeaders
    ensures Sane(c.(request := c.request.(headers := g)))
    ensures Process(c.(request := c.request.(headers := g)), attached) == Process(c, attached)
  {
    var c1 := c.(request := c.request.(headers := g));
    var r := HeadersOf(c.unread, map[], 0);
    HeadersDoneForgets(c.(unread := r.rest), g, r.headers);
    hide HeadersOf, HeadersDone, ResponseBytes;
    assert Pass(c1, attached) == Pass(c, attached);
    hide Pass;
    ProcessOne(c, attached);
    ProcessOne(c1, attached);
  }

  // What a connection awaits between a request line and its headers.
  function AwaitsHeaders(verb: Text, path: Text, unread: seq<byte>, out: seq<byte>): (c: Conn)
    ensures Sane(c)
  {
    Conn(ExpectHeaders, NEW_REQUEST.(verb := verb, path := path), NEW_RESPONSE, unread, out)
  }

  lemma LineServed(verb: Text, path: Text, rest: seq<byte>, out: seq<byte>)
    requires Word(verb) && Word(path) && OneLine(RequestLineText(verb, path))
    requires |RequestLineText(verb, path)| < MAX_LINE_LEN
    ensures Process(Idle(RequestLineText(verb, path) + CRLF + rest, out), true) ==
            Process(AwaitsHeaders(verb, path, rest, out), true)
  {
    RequestLinePass(verb, path, rest, out, true);
    hide Pass, Process, OneLine, Word, RequestLineText;
    ProcessOne(Idle(RequestLineText(verb, path) + CRLF + rest, out), true);
  }

  function Names(h: Headers): (names: seq<Text>)
    ensures forall n :: n in names <==> n in h
  {
    OrderedKeys.Sorted(h.Keys)
  }

  lemma NamesSorted(h: Headers)
    ensures Names(h) == OrderedKeys.Sorted(h.Keys) && (forall n | n in Names(h) :: n in h) && |CRLF| == 2
    ensures Names(h) != [] ==> Names(h)[0] in h
  {
    if Names(h) != [] { assert Names(h)[0] in Names(h); }
  }

  // The request up to its body: the line and the block of headers.
  lemma HeadIs(verb: Text, path: Text, h: Headers)
    ensures RequestBytes(verb, path, h, []) == RequestLineText(verb, path) + CRLF + Block(h, Names(h))
  {
    hide RequestLineText, HeaderLines, OrderedKeys.Sorted;
    var line, lines := RequestLineText(verb, path) + CRLF, HeaderLines(h, OrderedKeys.Sorted(h.Keys));
    assert line + lines + CRLF + [] == line + lines + CRLF;
    Associate(line, lines, CRLF);
  }

  lemma AwaitsHeadersUnread(verb: Text, path: Text, a: seq<byte>, b: seq<byte>, out: seq<byte>)
    ensures AwaitsHeaders(verb, path, a, out).(unread := b) == AwaitsHeaders(verb, path, b, out)
    ensures AwaitsHeaders(verb, path, a, out).phase == ExpectHeaders && AwaitsHeaders(verb, path, a, out).unread == a
  {
  }

  lemma StaleDelivery(c: Conn, g: Headers, s: seq<byte>)
    requires Sane(c) && c.phase == ExpectHeaders
    ensures Sane(c.(request := c.request.(headers := g))) && Sane(c.(unread := c.unread + s))
    ensures Deliver(c.(request := c.request.(headers := g)), s, true) == Process(c.(unread := c.unread + s), true)
  {
    StaleHeaders(c.(unread := c.unread + s), g, true);
    hide Process;
  }

  // s is a part of the head that does not reach its end.
  predicate PartOf(verb: Text, path: Text, h: Headers, s: seq<byte>) {
    var head := RequestBytes(verb, path, h, []);
    |s| < |head| && head[..|s|] == s
  }

  ghost predicate GoodHead(verb: Text, path: Text, h: Headers) {
    Word(verb) && Word(path) && OneLine(RequestLineText(verb, path)) && |RequestLineText(verb, path)| < MAX_LINE_LEN &&
    Readable(h)
  }

  // The length of the request line with its end.
  function LineLength(verb: Text, path: Text): nat {
    |RequestLineText(verb, path)| + 2
  }

  lemma GoodHeadMeans(verb: Text, path: Text, h: Headers)
    requires GoodHead(verb, path, h)
    ensures Word(verb) && Word(path) && OneLine(RequestLineText(verb, path))
    ensures |RequestLineText(verb, path)| < MAX_LINE_LEN && Readable(h)
  {
    hide Word, OneLine, RequestLineText, Readable;
  }

  lemma LineLengthIs(verb: Text, path: Text)
    ensures LineLength(verb, path) == |RequestLineText(verb, path)| + 2 == |RequestLineText(verb, path) + CRLF|
  {
    hide RequestLineText;
  }

  lemma PartOfMeans(verb: Text, path: Text, h: Headers, s: seq<byte>)
    requires PartOf(verb, path, h, s)
    ensures |s| < |RequestBytes(verb, path, h, [])| && RequestBytes(verb, path, h, [])[..|s|] == s
  {
    hide RequestBytes;
  }

  lemma WholeHead(verb: Text, path: Text, h: Headers, rest: seq<byte>, out: seq<byte>)
    requires GoodHead(verb, path, h)
    ensures Deliver(Idle([], out), RequestBytes(verb, path, h, []) + rest, true) ==
            Process(AwaitsHeaders(verb, path, Block(h, Names(h)) + rest, out), true)
  {
    hide *;
    GoodHeadMeans(verb, path, h);
    HeadIs(verb, path, h);
    IdleHolds(RequestBytes(verb, path, h, []) + rest, out);
    DeliverAlone(Idle([], out), RequestBytes(verb, path, h, []) + rest, true);
    Associate(RequestLineText(verb, path) + CRLF, Block(h, Names(h)), rest);
    LineServed(verb, path, Block(h, Names(h)) + rest, out);
  }

  lemma IdleHolds(s: seq<byte>, out: seq<byte>)
    ensures Idle([], out).unread == [] && Idle([], out).(unread := s) == Idle(s, out) && Idle([], out).out == out
  {
  }

  lemma PartOfLine(verb: Text, path: Text, h: Headers, s: seq<byte>)
    requires GoodHead(verb, path, h) && PartOf(verb, path, h, s) && |s| < LineLength(verb, path)
    ensures FirstLine(s).None?
  {
    hide *;
    var line, block := RequestLineText(verb, path), Block(h, Names(h));
    GoodHeadMeans(verb, path, h);
    LineLengthIs(verb, path);
    PartOfMeans(verb, path, h, s);
    HeadIs(verb, path, h);
    FrontOfFront(line + CRLF, block, |s|);
    PrefixHasNoLine(line, |s|);
  }

  lemma PartOfBlock(verb: Text, path: Text, h: Headers, s: seq<byte>)
    requires GoodHead(verb, path, h) && PartOf(verb, path, h, s) && |s| >= LineLength(verb, path)
    ensures var (n, block) := (LineLength(verb, path), Block(h, Names(h)));
            |s| - n < |block| && s == RequestLineText(verb, path) + CRLF + s[n..] && s[n..] == block[..|s| - n] &&
            HeadersOf(s[n..], map[], 0).code == Again
  {
    hide *;
    var n, line, block := LineLength(verb, path), RequestLineText(verb, path) + CRLF, Block(h, Names(h));
    GoodHeadMeans(verb, path, h);
    LineLengthIs(verb, path);
    PartOfMeans(verb, path, h, s);
    HeadIs(verb, path, h);
    FirstThenRest(line, block, |s|);
    BehindFront(line, block[..|s| - n]);
    NamesSorted(h);
    PrintedBlockSplit(h, |s| - n, []);
  }

  lemma BehindFront(a: seq<byte>, b: seq<byte>)
    ensures (a + b)[|a|..] == b
  {
  }

  function Stale(c: Conn, g: Headers): Conn {
    c.(request := c.request.(headers := g))
  }

  // What a connection holds when this part of the head has arrived, but for the headers stored so far.
  function Held(verb: Text, path: Text, s: seq<byte>, out: seq<byte>): (c: Conn)
    ensures Sane(c)
  {
    if |s| < LineLength(verb, path) then Idle(s, out)
    else AwaitsHeaders(verb, path, HeadersOf(s[LineLength(verb, path)..], map[], 0).rest, out)
  }

  lemma HeldIs(verb: Text, path: Text, s: seq<byte>, g: Headers, out: seq<byte>)
    ensures |s| < LineLength(verb, path) && g == map[] ==> Stale(Held(verb, path, s, out), g) == Idle(s, out)
    ensures |s| >= LineLength(verb, path) ==>
              var kept := HeadersOf(s[LineLength(verb, path)..], map[], 0).rest;
              Held(verb, path, s, out) == AwaitsHeaders(verb, path, kept, out)
    ensures Sane(Stale(Held(verb, path, s, out), g)) && Stale(Held(verb, path, s, out), g).out == out
  {
    hide LineLength, HeadersOf;
  }

  lemma BlockReadPartly(verb: Text, path: Text, s: seq<byte>, out: seq<byte>)
    requires HeadersOf(s, map[], 0).code == Again
    ensures var r := HeadersOf(s, map[], 0);
            Process(AwaitsHeaders(verb, path, s, out), true) ==
            (Stale(AwaitsHeaders(verb, path, r.rest, out), r.headers), Ok)
  {
    hide HeadersOf, Process;
    var r := HeadersOf(s, map[], 0);
    UnfinishedHeaders(AwaitsHeaders(verb, path, s, out), r.headers, r.rest, true);
  }

  // One read of a part leaves what is held of it.
  lemma FirstRead(verb: Text, path: Text, h: Headers, s: seq<byte>, out: seq<byte>) returns (g: Headers)
    requires GoodHead(verb, path, h) && PartOf(verb, path, h, s)
    ensures Process(Idle(s, out), true) == (Stale(Held(verb, path, s, out), g), Ok)
    ensures |s| < LineLength(verb, path) ==> g == map[]
  {
    hide *;
    g := map[];
    if |s| < LineLength(verb, path) {
      HeldIs(verb, path, s, map[], out);
      PartOfLine(verb, path, h, s);
      IdleUnfinished(s, out);
    } else {
      PartOfBlock(verb, path, h, s);
      var part := s[LineLength(verb, path)..];
      g := HeadersOf(part, map[], 0).headers;
      HeldIs(verb, path, s, g, out);
      GoodHeadMeans(verb, path, h);
      LineServed(verb, path, part, out);
      BlockReadPartly(verb, path, part, out);
    }
  }

  lemma IdleUnfinished(s: seq<byte>, out: seq<byte>)
    requires FirstLine(s).None?
    ensures Process(Idle(s, out), true) == (Idle(s, out), Ok)
  {
    hide FirstLine, Process;
    UnfinishedLine(Idle(s, out), true);
  }

  lemma IdleDelivery(s: seq<byte>, more: seq<byte>, out: seq<byte>)
    ensures Deliver(Idle(s, out), more, true) == Process(Idle(s + more, out), true)
  {
    hide Process;
  }

  lemma BlockDelivery(verb: Text, path: Text, kept: seq<byte>, g: Headers, more: seq<byte>, out: seq<byte>)
    ensures Sane(Stale(AwaitsHeaders(verb, path, kept, out), g))
    ensures Deliver(Stale(AwaitsHeaders(verb, path, kept, out), g), more, true) ==
            Process(AwaitsHeaders(verb, path, kept + more, out), true)
  {
    hide Process, Deliver;
    StaleDelivery(AwaitsHeaders(verb, path, kept, out), g, more);
  }

  // So does one more read: what is kept of the headers depends only on what has arrived in all.
  lemma NextRead(verb: Text, path: Text, h: Headers, s: seq<byte>, more: seq<byte>, g: Headers, out: seq<byte>)
    returns (g1: Headers)
    requires GoodHead(verb, path, h) && PartOf(verb, path, h, s) && PartOf(verb, path, h, s + more)
    requires |s| < LineLength(verb, path) ==> g == map[]
    ensures Sane(Stale(Held(verb, path, s, out), g))
    ensures Deliver(Stale(Held(verb, path, s, out), g), more, true) == (Stale(Held(verb, path, s + more, out), g1), Ok)
    ensures |s + more| < LineLength(verb, path) ==> g1 == map[]
  {
    hide *;
    HeldIs(verb, path, s, g, out);
    if |s| < LineLength(verb, path) {
      g1 := FirstRead(verb, path, h, s + more, out);
      IdleDelivery(s, more, out);
    } else {
      var part := s[LineLength(verb, path)..];
      var kept := HeadersOf(part, map[], 0).rest;
      PartOfBlock(verb, path, h, s);
      PartOfBlock(verb, path, h, s + more);
      RestOfFront(s, more, LineLength(verb, path));
      SplitHeaders(part, more);
      g1 := HeadersOf(kept + more, map[], 0).headers;
      HeldIs(verb, path, s + more, g1, out);
      BlockDelivery(verb, path, kept, g, more, out);
      BlockReadPartly(verb, path, kept + more, out);
    }
  }

  lemma RestOfFront(a: seq<byte>, b: seq<byte>, n: nat)
    requires n <= |a|
    ensures (a + b)[n..] == a[n..] + b
  {
  }

  // Every read returns without an error.
  predicate GoesOn(c: Conn, chunks: seq<seq<byte>>)
    requires Sane(c)
    decreases |chunks|
  {
    chunks == [] || (Deliver(c, chunks[0], true).1 == Ok && GoesOn(Deliver(c, chunks[0], true).0, chunks[1..]))
  }

  lemma PartOfPart(verb: Text, path: Text, h: Headers, a: seq<byte>, b: seq<byte>)
    requires PartOf(verb, path, h, a + b)
    ensures PartOf(verb, path, h, a)
  {
    hide RequestBytes;
    assert a == (a + b)[..|a|];
  }

  lemma {:induction false} PartHeld(verb: Text, path: Text, h: Headers, s: seq<byte>, g: Headers,
                                    chunks: seq<seq<byte>>, out: seq<byte>) returns (g1: Headers)
    requires GoodHead(verb, path, h) && PartOf(verb, path, h, s + Join(chunks))
    requires |s| < LineLength(verb, path) ==> g == map[]
    ensures var c := Stale(Held(verb, path, s, out), g);
            Sane(c) && GoesOn(c, chunks) &&
            Feed(c, chunks, true) == Stale(Held(verb, path, s + Join(chunks), out), g1)
    ensures |s + Join(chunks)| < LineLength(verb, path) ==> g1 == map[]
    decreases |chunks|
  {
    hide *;
    if chunks == [] {
      g1 := g;
      NoMoreReads(verb, path, s, g, out);
    } else {
      var c, more := Stale(Held(verb, path, s, out), g), chunks[0];
      Associate(s, more, Join(chunks[1..]));
      JoinFront(chunks);
      PartOfPart(verb, path, h, s + more, Join(chunks[1..]));
      PartOfPart(verb, path, h, s, more);
      g1 := NextRead(verb, path, h, s, more, g, out);
      FeedOne(c, chunks);
      GoesOnIs(c, chunks);
      g1 := PartHeld(verb, path, h, s + more, g1, chunks[1..], out);
    }
  }

  lemma JoinFront(chunks: seq<seq<byte>>)
    requires chunks != []
    ensures Join(chunks) == chunks[0] + Join(chunks[1..])
  {
  }

  lemma GoesOnIs(c: Conn, chunks: seq<seq<byte>>)
    requires Sane(c) && chunks != []
    ensures var r := Deliver(c, chunks[0], true);
            GoesOn(c, chunks) <==> r.1 == Ok && GoesOn(r.0, chunks[1..])
  {
    hide Process;
  }

  lemma NoMoreReads(verb: Text, path: Text, s: seq<byte>, g: Headers, out: seq<byte>)
    ensures var c := Stale(Held(verb, path, s, out), g);
            Sane(c) && GoesOn(c, []) && Feed(c, [], true) == c && s + Join([]) == s
  {
    assert s + [] == s;
    hide RequestLineText, HeadersOf;
  }

  // The read that completes the head: it is served like the headers whose lines had not ended before.
  lemma LastRead(verb: Text, path: Text, h: Headers, s: seq<byte>, g: Headers, rest: seq<byte>, out: seq<byte>)
    requires GoodHead(verb, path, h) && PartOf(verb, path, h, s)
    requires |s| < LineLength(verb, path) ==> g == map[]
    ensures var (head, names) := (RequestBytes(verb, path, h, []), Names(h));
            var j := WholeLines(h, names, |s| - LineLength(verb, path));
            (forall n | n in names[j..] :: n in h) && |s| <= |head| && Sane(Stale(Held(verb, path, s, out), g)) &&
            Deliver(Stale(Held(verb, path, s, out), g), head[|s|..] + rest, true) ==
            Process(AwaitsHeaders(verb, path, Block(h, names[j..]) + rest, out), true)
  {
    hide *;
    var n, names := LineLength(verb, path), Names(h);
    NamesSorted(h);
    LaterIn(h, names, WholeLines(h, names, |s| - n));
    WholeLinesIs(h, names, |s| - n);
    HeldIs(verb, path, s, g, out);
    PartOfMeans(verb, path, h, s);
    if |s| < n {
      assert names[0..] == names;
      WholeHead(verb, path, h, rest, out);
      FromFront(RequestBytes(verb, path, h, []), |s|, rest);
      IdleDelivery(s, RequestBytes(verb, path, h, [])[|s|..] + rest, out);
      IdleDelivery([], RequestBytes(verb, path, h, []) + rest, out);
    } else {
      LastInBlock(verb, path, h, s, g, rest, out);
    }
  }

  lemma FromFront(a: seq<byte>, k: nat, b: seq<byte>)
    requires k <= |a|
    ensures a[..k] + (a[k..] + b) == a + b && [] + (a + b) == a + b
  {
    assert a[..k] + a[k..] == a;
  }

  lemma LaterIn(h: Headers, names: seq<Text>, j: nat)
    requires (forall n | n in names :: n in h) && j <= |names|
    ensures forall n | n in names[j..] :: n in h
  {
    assert forall n | n in names[j..] :: n in names;
  }

  lemma LastInBlock(verb: Text, path: Text, h: Headers, s: seq<byte>, g: Headers, rest: seq<byte>, out: seq<byte>)
    requires GoodHead(verb, path, h) && PartOf(verb, path, h, s) && |s| >= LineLength(verb, path)
    ensures var (head, names) := (RequestBytes(verb, path, h, []), Names(h));
            var j := WholeLines(h, names, |s| - LineLength(verb, path));
            var kept := HeadersOf(s[LineLength(verb, path)..], map[], 0).rest;
            (forall n | n in names[j..] :: n in h) && |s| <= |head| &&
            Sane(Stale(AwaitsHeaders(verb, path, kept, out), g)) &&
            Deliver(Stale(AwaitsHeaders(verb, path, kept, out), g), head[|s|..] + rest, true) ==
            Process(AwaitsHeaders(verb, path, Block(h, names[j..]) + rest, out), true)
  {
    hide *;
    var n, block := LineLength(verb, path), Block(h, Names(h));
    var m := |s| - n;
    PartOfBlock(verb, path, h, s);
    PartOfMeans(verb, path, h, s);
    LineLengthIs(verb, path);
    HeadIs(verb, path, h);
    FirstThenRest(RequestLineText(verb, path) + CRLF, block, |s|);
    NamesSorted(h);
    GoodHeadMeans(verb, path, h);
    PrintedBlockSplit(h, m, rest);
    var kept := HeadersOf(s[n..], map[], 0).rest;
    Associate(kept, block[m..], rest);
    BlockDelivery(verb, path, kept, g, block[m..] + rest, out);
  }

  // The head of a request in any number of reads, cut anywhere: the request is served as if only the headers from the
  // j-th on had been sent, j being the number of header lines that end before the last cut.  As far as that can be
  // told from outside, it is served like the whole head in one read if and only if these headers decide the same.
  lemma HeadInReads(verb: Text, path: Text, h: Headers, chunks: seq<seq<byte>>, rest: seq<byte>, out: seq<byte>)
    requires GoodHead(verb, path, h) && PartOf(verb, path, h, Join(chunks))
    ensures var (head, names, k) := (RequestBytes(verb, path, h, []), Names(h), |Join(chunks)|);
            var j := WholeLines(h, names, k - LineLength(verb, path));
            var begun := Feed(Idle([], out), chunks, true);
            var done := Deliver(begun, head[k..] + rest, true);
            GoesOn(Idle([], out), chunks) && begun.out == out && (forall n | n in names[j..] :: n in h) &&
            done == Process(AwaitsHeaders(verb, path, Block(h, names[j..]) + rest, out), true) &&
            (j == 0 ==> done == Deliver(Idle([], out), head + rest, true)) &&
            (SeenOf(done) == SeenOf(Deliver(Idle([], out), head + rest, true)) <==>
             Decision(Restrict(h, names[j..])) == Decision(h))
  {
    hide *;
    var names, s := Names(h), Join(chunks);
    var j := WholeLines(h, names, |s| - LineLength(verb, path));
    HeldAtFirst(verb, path, out);
    assert [] + s == s;
    var g := PartHeld(verb, path, h, [], map[], chunks, out);
    LastRead(verb, path, h, s, g, rest, out);
    HeldIs(verb, path, s, g, out);
    WholeHead(verb, path, h, rest, out);
    assert names[0..] == names;
    GoodHeadMeans(verb, path, h);
    LaterHeadersSeen(verb, path, h, j, rest, out);
    LaterHeadersSeen(verb, path, h, 0, rest, out);
    NothingLeftOut(h);
    EffectShows(AwaitsHeaders(verb, path, [], out), Decision(Restrict(h, names[j..])), Decision(h), rest, rest, true);
  }

  lemma HeldAtFirst(verb: Text, path: Text, out: seq<byte>)
    ensures Stale(Held(verb, path, [], out), map[]) == Idle([], out) && LineLength(verb, path) > 0
  {
    hide RequestLineText, HeadersOf;
  }

  lemma NothingLeftOut(h: Headers)
    ensures (forall n | n in Names(h)[0..] :: n in h) && Restrict(h, Names(h)[0..]) == h
  {
    AllRestricted(h);
    assert Names(h)[0..] == Names(h);
    StoreNothing(Restrict(h, Names(h)));
    hide OrderedKeys.Sorted, OrderedKeys.Ascending;
  }

  lemma LaterHeadersSeen(verb: Text, path: Text, h: Headers, j: nat, rest: seq<byte>, out: seq<byte>)
    requires Readable(h) && j <= |Names(h)|
    ensures forall n | n in Names(h)[j..] :: n in h
    ensures SeenOf(Process(AwaitsHeaders(verb, path, Block(h, Names(h)[j..]) + rest, out), true)) ==
            Effect(AwaitsHeaders(verb, path, [], out), Decision(Restrict(h, Names(h)[j..])), rest, true)
  {
    hide *;
    var names := Names(h)[j..];
    NamesSorted(h);
    ReadableNames(h, j);
    BlockRead(h, names, rest);
    AwaitsHeadersUnread(verb, path, [], Block(h, names) + rest, out);
    HeadersSeen(AwaitsHeaders(verb, path, [], out), Block(h, names) + rest, true);
    VerdictOfGood(Restrict(h, names), rest);
  }

  lemma VerdictOfGood(h: Headers, rest: seq<byte>)
    ensures VerdictOf(HttpParsers.HeadersRead(Ok, h, rest)) == Decision(h)
  {
    hide Decision;
  }

  // ---------------------------------------------------------------- requests that arrive together

  datatype Req = Req(verb: Text, path: Text, h: Headers, body: seq<byte>)

  ghost predicate Servable(r: Req) {
    Word(r.verb) && Word(r.path) && OneLine(RequestLineText(r.verb, r.path)) &&
    |RequestLineText(r.verb, r.path)| < MAX_LINE_LEN &&
    Readable(r.h) && !Chunked(r.h) && BodyLength(r.h) == Some(|r.body|)
  }

  function Requests(rs: seq<Req>): seq<byte> {
    if rs == [] then [] else RequestBytes(rs[0].verb, rs[0].path, rs[0].h, rs[0].body) + Requests(rs[1..])
  }

  function Answers(rs: seq<Req>): seq<byte> {
    if rs == [] then [] else ResponseBytes(Reply(NEW_RESPONSE, rs[0].body)) + Answers(rs[1..])
  }

  lemma NextServed(rs: seq<Req>, rest: seq<byte>, chunk: seq<byte>, out: seq<byte>)
    requires rs != [] && Servable(rs[0])
    ensures Deliver(Idle(Requests(rs) + rest, out), chunk, true) ==
            (Idle(Requests(rs[1..]) + (rest + chunk), out + ResponseBytes(Reply(NEW_RESPONSE, rs[0].body))), Ok)
  {
    var r, more := rs[0], Requests(rs[1..]);
    var bytes := RequestBytes(r.verb, r.path, r.h, r.body);
    RequestServed(r.verb, r.path, r.h, r.body, more + (rest + chunk), out);
    hide RequestBytes, Process, ResponseBytes, Reply, RequestLineText, Readable, Chunked, BodyLength;
    assert Requests(rs) + rest + chunk == bytes + (more + (rest + chunk)) by {
      Associate(bytes + more, rest, chunk);
      Associate(bytes, more, rest + chunk);
    }
  }

  // However many requests are buffered, every read answers one of them, the oldest, and only reads that deliver
  // something do; what each read delivers is added behind, so while requests are waiting the buffer shrinks or grows
  // by the difference between one request and one read.
  lemma {:induction false} OnePerRead(rs: seq<Req>, rest: seq<byte>, chunks: seq<seq<byte>>, out: seq<byte>)
    requires |chunks| <= |rs| && forall i | 0 <= i < |rs| :: Servable(rs[i])
    ensures Feed(Idle(Requests(rs) + rest, out), chunks, true) ==
            Idle(Requests(rs[|chunks|..]) + (rest + Join(chunks)), out + Answers(rs[..|chunks|]))
    decreases |chunks|
  {
    hide *;
    if chunks == [] {
      NoReads(rs, rest, out);
    } else {
      NextServed(rs, rest, chunks[0], out);
      FeedOne(Idle(Requests(rs) + rest, out), chunks);
      var answer := ResponseBytes(Reply(NEW_RESPONSE, rs[0].body));
      OnePerRead(rs[1..], rest + chunks[0], chunks[1..], out + answer);
      Associate(rest, chunks[0], Join(chunks[1..]));
      OneServed(rs, |chunks|);
      Associate(out, answer, Answers(rs[1..][..|chunks| - 1]));
    }
  }

  lemma NoReads(rs: seq<Req>, rest: seq<byte>, out: seq<byte>)
    ensures Feed(Idle(Requests(rs) + rest, out), [], true) ==
            Idle(Requests(rs[0..]) + (rest + Join([])), out + Answers(rs[..0]))
  {
    hide Idle, Requests;
    assert rs[0..] == rs && rest + [] == rest && out + [] == out && rs[..0] == [];
  }

  lemma FeedOne(c: Conn, chunks: seq<seq<byte>>)
    requires Sane(c) && chunks != []
    ensures Sane(Deliver(c, chunks[0], true).0) && Join(chunks) == chunks[0] + Join(chunks[1..])
    ensures Feed(c, chunks, true) == Feed(Deliver(c, chunks[0], true).0, chunks[1..], true)
  {
    hide Process;
  }

  lemma OneServed(rs: seq<Req>, n: nat)
    requires 0 < n <= |rs|
    ensures rs[1..][n - 1..] == rs[n..]
    ensures Answers(rs[..n]) == ResponseBytes(Reply(NEW_RESPONSE, rs[0].body)) + Answers(rs[1..][..n - 1])
  {
    assert rs[..n][1..] == rs[1..][..n - 1];
  }
}
