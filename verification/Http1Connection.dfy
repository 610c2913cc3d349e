/** The HTTP/1.1 side of a connection as a state machine: what the octets that have arrived do to it. */
module Http1Connections {
  import opened Bytes
  import opened Basics
  import opened HttpText
  import opened HttpParsers
  import opened HttpRoundTrip
  import OrderedKeys

  datatype Phase = ExpectRequestLine | ExpectHeaders | ExpectBody | ExpectComplete | Errored

  datatype Request = Request(verb: Text, path: Text, version: Text, headers: Headers, body: seq<byte>,
                             contentLength: nat, debugToken: Text)

  const NEW_REQUEST: Request := Request([], [], VERSION, map[], [], 0, [])
  const NEW_RESPONSE: Response := Response(200, Ascii("OK"), map[], [])

  // `unread` is what is buffered, `out` everything written to the TLS layer.
  datatype Conn = Conn(phase: Phase, request: Request, response: Response, unread: seq<byte>, out: seq<byte>)

  function Idle(unread: seq<byte>, out: seq<byte>): (c: Conn)
    ensures Sane(c)
  {
    Conn(ExpectRequestLine, NEW_REQUEST, NEW_RESPONSE, unread, out)
  }

  // What every state a connection gets into satisfies.
  predicate Sane(c: Conn) {
    (c.phase == ExpectBody ==> |c.request.body| < c.request.contentLength) &&
    (c.phase == ExpectRequestLine || c.phase == ExpectHeaders ==> c.request.body == []) &&
    |c.response.statusText| <= 1000 && -0x8000_0000 <= c.response.statusCode < 0x8000_0000 &&
    |c.response.body| < U64
  }

  // ---------------------------------------------------------------- one pass of the loop

  // None: the loop goes round again.
  datatype Outcome = Outcome(conn: Conn, ret: Option<Code>)

  function Refused(c: Conn): Conn {
    var r := c.response.(statusCode := 400, statusText := Ascii("Bad Request"));
    c.(phase := Errored, response := r, out := c.out + ResponseBytes(r))
  }

  function PassRequestLine(c: Conn): Outcome {
    match ReadLineOf(c.unread, MAX_LINE_LEN)
    case NoLine => Outcome(c, Some(Ok))
    case LongLine => Outcome(Refused(c), Some(Invalid))
    case Line(line, rest) =>
      var q := RequestLineOf(line);
      var c1 := c.(unread := rest, request := c.request.(verb := q.verb, path := q.path, version := q.version));
      if q.code != Ok then Outcome(Refused(c1), Some(Invalid)) else Outcome(c1.(phase := ExpectHeaders), None)
  }

  predicate Chunked(h: Headers) {
    var te := Found(h, Ascii("Transfer-Encoding"));
    te.Some? && (Contains(te.value, Ascii("chunked")) || Contains(te.value, Ascii("CHUNKED")))
  }

  // The length of the body that the headers announce; None: there is no such number.
  function BodyLength(h: Headers): Option<nat> {
    var v := Found(h, CONTENT_LENGTH);
    if v.None? then Some(0) else ParseUnsigned(v.value)
  }

  function WithHeaders(q: Request, h: Headers): Request {
    var token := Found(h, Ascii("Debug-Token"));
    q.(headers := h, debugToken := if token.Some? then token.value else q.debugToken)
  }

  // What complete headers lead to.
  function HeadersDone(c: Conn, h: Headers): Outcome {
    if Chunked(h) then Outcome(Refused(c.(request := c.request.(headers := h))), Some(Invalid))
    else
      var q := WithHeaders(c.request, h);
      var n := BodyLength(h);
      if n.None? then Outcome(Refused(c.(request := q)), Some(Invalid))
      else
        var phase := if n.value > 0 then ExpectBody else ExpectComplete;
        Outcome(c.(request := q.(contentLength := n.value), phase := phase), None)
  }

  // The headers stored in the request so far play no part in what complete headers lead to.
  lemma HeadersDoneForgets(c: Conn, g: Headers, h: Headers)
    ensures HeadersDone(c.(request := c.request.(headers := g)), h) == HeadersDone(c, h)
  {
    hide Chunked, BodyLength, Found, ResponseBytes;
  }

  lemma HeadersDoneKeeps(c: Conn, h: Headers)
    ensures HeadersDone(c, h).conn.request.headers == h
  {
    hide Chunked, BodyLength, Found, ResponseBytes;
  }

  function PassHeaders(c: Conn): Outcome {
    var r := HeadersOf(c.unread, map[], 0);
    var c1 := c.(unread := r.rest);
    if r.code == Again then Outcome(c1.(request := c.request.(headers := r.headers)), Some(Ok))
    else if r.code != Ok then Outcome(Refused(c1.(request := c.request.(headers := r.headers))), Some(Invalid))
    else HeadersDone(c1, r.headers)
  }

  function PassBody(c: Conn): Outcome
    requires Sane(c) && c.phase == ExpectBody
  {
    var n := Min(|c.unread|, c.request.contentLength - |c.request.body|);
    var body := c.request.body + c.unread[..n];
    var c1 := c.(request := c.request.(body := body), unread := c.unread[n..]);
    if |body| == c.request.contentLength then Outcome(c1.(phase := ExpectComplete), None) else Outcome(c1, Some(Ok))
  }

  // The body is echoed, as far as 32 bits count it; an empty one is answered "OK".
  function Reply(r: Response, body: seq<byte>): Response {
    var n := |body| % U32;
    r.(statusCode := 200, statusText := Ascii("OK"),
       headers := r.headers[Ascii("Content-Type") := Ascii("text/plain")],
       body := if n > 0 then body[..n] else Ascii("OK"))
  }

  // The echo is the body itself exactly if there is a body and its length fits in 32 bits.
  lemma EchoIsWhole(r: Response, body: seq<byte>)
    ensures Reply(r, body).body == body <==> 0 < |body| < U32
  {
    assert |Ascii("OK")| == 2;
    hide Ascii;
    if 0 < |body| < U32 {
      assert body[..|body|] == body;
    } else {
      assert |body| % U32 < |body| || body == [];
    }
  }

  // Without an attached connection nothing is answered, and the request stays complete.
  function PassComplete(c: Conn, attached: bool): Outcome {
    if !attached then Outcome(c, Some(Invalid))
    else Outcome(Idle(c.unread, c.out + ResponseBytes(Reply(c.response, c.request.body))), Some(Ok))
  }

  function Pass(c: Conn, attached: bool): Outcome
    requires Sane(c)
  {
    match c.phase
    case ExpectRequestLine => PassRequestLine(c)
    case ExpectHeaders => PassHeaders(c)
    case ExpectBody => PassBody(c)
    case ExpectComplete => PassComplete(c, attached)
    case Errored => Outcome(Refused(c), Some(Invalid))
  }

  function Rank(p: Phase): nat {
    match p
    case ExpectRequestLine => 3
    case ExpectHeaders => 2
    case ExpectBody => 1
    case _ => 0
  }

  lemma PassKeeps(c: Conn, attached: bool)
    requires Sane(c)
    ensures var o := Pass(c, attached); Sane(o.conn) && (o.ret.None? ==> Rank(o.conn.phase) < Rank(c.phase))
  {
    hide ReadLineOf, HeadersOf, RequestLineOf, Chunked, BodyLength, Found, ResponseBytes, Reply;
  }

  // Passes until one of them returns.
  function Process(c: Conn, attached: bool): (r: (Conn, Code))
    requires Sane(c)
    ensures Sane(r.0)
    decreases Rank(c.phase)
  {
    PassKeeps(c, attached);
    var o := Pass(c, attached);
    if o.ret.None? then Process(o.conn, attached) else (o.conn, o.ret.value)
  }

  // ---------------------------------------------------------------- bodies

  // A read delivers a chunk.
  function Deliver(c: Conn, chunk: seq<byte>, attached: bool): (Conn, Code)
    requires Sane(c)
  {
    Process(c.(unread := c.unread + chunk), attached)
  }

  function Feed(c: Conn, chunks: seq<seq<byte>>, attached: bool): (r: Conn)
    requires Sane(c)
    ensures Sane(r)
    decreases |chunks|
  {
    if chunks == [] then c else Feed(Deliver(c, chunks[0], attached).0, chunks[1..], attached)
  }

  function Need(c: Conn): int {
    c.request.contentLength - |c.request.body|
  }

  function WithBody(c: Conn, more: seq<byte>): Conn {
    c.(request := c.request.(body := c.request.body + more))
  }

  lemma BodyOutcome(c: Conn)
    requires Sane(c) && c.phase == ExpectBody
    ensures var n := Min(|c.unread|, c.request.contentLength - |c.request.body|);
            var q := c.request.(body := c.request.body + c.unread[..n]);
            PassBody(c) ==
            if |q.body| == c.request.contentLength
            then Outcome(c.(request := q, unread := c.unread[n..], phase := ExpectComplete), None)
            else Outcome(c.(request := q, unread := c.unread[n..]), Some(Ok))
  {
  }

  lemma ProcessOne(c: Conn, attached: bool)
    requires Sane(c)
    ensures var o := Pass(c, attached);
            Sane(o.conn) &&
            Process(c, attached) == if o.ret.None? then Process(o.conn, attached) else (o.conn, o.ret.value)
  {
    hide Pass;
    PassKeeps(c, attached);
  }

  lemma PassOnBody(c: Conn, attached: bool)
    requires Sane(c) && c.phase == ExpectBody
    ensures Pass(c, attached) == PassBody(c)
  {
  }

  lemma BodyPass(c: Conn, chunk: seq<byte>, attached: bool)
    requires Sane(c) && c.phase == ExpectBody && c.unread == []
    ensures |chunk| < Need(c) ==> Deliver(c, chunk, attached) == (WithBody(c, chunk), Ok)
    ensures |chunk| >= Need(c) ==>
              var done := WithBody(c, chunk[..Need(c)]).(phase := ExpectComplete, unread := chunk[Need(c)..]);
              Sane(done) && Deliver(c, chunk, attached) == Process(done, attached)
  {
    DeliverAlone(c, chunk, attached);
    hide Process, Deliver, Pass, PassBody;
    var c1 := c.(unread := chunk);
    ProcessOne(c1, attached);
    PassOnBody(c1, attached);
    BodyOutcome(c1);
    if |chunk| < Need(c) {
      assert chunk[..|chunk|] == chunk && chunk[|chunk|..] == [];
    }
  }

  lemma WithBodyTwice(c: Conn, a: seq<byte>, b: seq<byte>)
    ensures WithBody(WithBody(c, a), b) == WithBody(c, a + b)
  {
    assert c.request.body + a + b == c.request.body + (a + b);
  }

  // While less than the announced length has arrived, all of it is body and nothing is left unread.
  lemma {:induction false} BodyCollected(c: Conn, chunks: seq<seq<byte>>, attached: bool)
    requires Sane(c) && c.phase == ExpectBody && c.unread == [] && |Join(chunks)| < Need(c)
    ensures Feed(c, chunks, attached) == WithBody(c, Join(chunks))
    decreases |chunks|
  {
    if chunks == [] {
      assert c.request.body + [] == c.request.body;
    } else {
      BodyPass(c, chunks[0], attached);
      hide Deliver;
      BodyCollected(WithBody(c, chunks[0]), chunks[1..], attached);
      WithBodyTwice(c, chunks[0], Join(chunks[1..]));
    }
  }

  // The read that completes the body leaves the state at once: the request is answered with exactly the announced
  // number of octets, and what came behind them stays unread, in order.  How the octets were cut does not matter.
  lemma BodyFramed(c: Conn, chunks: seq<seq<byte>>, last: seq<byte>, attached: bool)
    requires Sane(c) && c.phase == ExpectBody && c.unread == []
    requires |Join(chunks)| < Need(c) <= |Join(chunks) + last|
    ensures var all := Join(chunks) + last;
            var done := WithBody(c, all[..Need(c)]).(phase := ExpectComplete, unread := all[Need(c)..]);
            Deliver(Feed(c, chunks, attached), last, attached) ==
            (if attached
             then (Idle(all[Need(c)..], c.out + ResponseBytes(Reply(c.response, done.request.body))), Ok)
             else (done, Invalid))
  {
    hide *;
    var some, n := Join(chunks), Need(c) - |Join(chunks)|;
    BodyCollected(c, chunks, attached);
    NeedAfter(c, some);
    BodyPass(WithBody(c, some), last, attached);
    WithBodyTwice(c, some, last[..n]);
    FirstThenRest(some, last, Need(c));
    CompletePass(WithBody(c, some + last[..n]).(phase := ExpectComplete, unread := last[n..]), attached);
    OnlyBodyGrows(c, some + last[..n]);
  }

  lemma NeedAfter(c: Conn, some: seq<byte>)
    requires Sane(c) && c.phase == ExpectBody && |some| < Need(c)
    ensures var c1 := WithBody(c, some);
            Sane(c1) && c1.phase == ExpectBody && c1.unread == c.unread && Need(c1) == Need(c) - |some|
  {
  }

  lemma OnlyBodyGrows(c: Conn, more: seq<byte>)
    ensures WithBody(c, more).out == c.out && WithBody(c, more).response == c.response
  {
  }

  lemma CompletePass(c: Conn, attached: bool)
    requires Sane(c) && c.phase == ExpectComplete
    ensures Process(c, attached) ==
            if attached then (Idle(c.unread, c.out + ResponseBytes(Reply(c.response, c.request.body))), Ok)
            else (c, Invalid)
  {
    hide ResponseBytes, Reply, Idle;
    assert Pass(c, attached) == PassComplete(c, attached);
  }

  // ---------------------------------------------------------------- whole requests

  function RequestLineText(verb: Text, path: Text): Text {
    verb + [SP] + path + [SP] + VERSION
  }

  function RequestBytes(verb: Text, path: Text, h: Headers, body: seq<byte>): seq<byte> {
    RequestLineText(verb, path) + CRLF + HeaderLines(h, OrderedKeys.Sorted(h.Keys)) + CRLF + body
  }

  predicate Word(s: Text) {
    s != [] && NoSpaces(s)
  }

  lemma RequestLinePass(verb: Text, path: Text, rest: Text, out: seq<byte>, attached: bool)
    requires Word(verb) && Word(path) && OneLine(RequestLineText(verb, path))
    requires |RequestLineText(verb, path)| < MAX_LINE_LEN
    ensures var q := NEW_REQUEST.(verb := verb, path := path);
            Pass(Idle(RequestLineText(verb, path) + CRLF + rest, out), attached) ==
            Outcome(Conn(ExpectHeaders, q, NEW_RESPONSE, rest, out), None)
  {
    var line := RequestLineText(verb, path);
    assert line == verb + [SP] + path + [SP] + VERSION;
    RequestLineRead(line, verb, [SP], path, [SP]);
    ReadOne(line, rest);
    hide ReadLineOf, RequestLineOf, OneLine, RequestLineText;
  }

  lemma HeadersRead(h: Headers, body: seq<byte>)
    requires Readable(h)
    ensures HeadersOf(HeaderLines(h, OrderedKeys.Sorted(h.Keys)) + CRLF + body, map[], 0) ==
            HttpParsers.HeadersRead(Ok, h, body)
  {
    AllRestricted(h);
    hide OrderedKeys.Sorted, OrderedKeys.Ascending, HeaderLines, HeadersOf, WellFormed, Restrict;
    var names := OrderedKeys.Sorted(h.Keys);
    Associate(HeaderLines(h, names), CRLF, body);
    HeaderLinesRead(h, names, CRLF + body, map[], 0);
    HeadersEnd(body, h, |names|);
  }

  lemma HeadersPass(c: Conn, h: Headers, body: seq<byte>, attached: bool)
    requires Sane(c) && c.phase == ExpectHeaders && Readable(h) && !Chunked(h) && BodyLength(h).Some?
    requires c.unread == HeaderLines(h, OrderedKeys.Sorted(h.Keys)) + CRLF + body
    ensures var n := BodyLength(h).value;
            Pass(c, attached) ==
            Outcome(c.(unread := body, request := WithHeaders(c.request, h).(contentLength := n),
                       phase := if n > 0 then ExpectBody else ExpectComplete), None)
  {
    HeadersRead(h, body);
    hide HeadersOf, HeaderLines, Chunked, BodyLength, WithHeaders, OrderedKeys.Sorted, Readable;
  }

  // The request once its headers have been read.
  function Headed(verb: Text, path: Text, h: Headers, n: nat): Request {
    WithHeaders(NEW_REQUEST.(verb := verb, path := path), h).(contentLength := n)
  }

  lemma HeadedFresh(verb: Text, path: Text, h: Headers, n: nat)
    ensures Headed(verb, path, h, n).body == [] && Headed(verb, path, h, n).contentLength == n
  {
  }

  // Request line and headers, arriving in one piece with whatever follows them, lead to the body.
  lemma HeadServed(verb: Text, path: Text, h: Headers, n: nat, rest: seq<byte>, out: seq<byte>)
    requires Word(verb) && Word(path) && OneLine(RequestLineText(verb, path))
    requires |RequestLineText(verb, path)| < MAX_LINE_LEN
    requires Readable(h) && !Chunked(h) && BodyLength(h) == Some(n)
    ensures var phase := if n > 0 then ExpectBody else ExpectComplete;
            var c := Conn(phase, Headed(verb, path, h, n), NEW_RESPONSE, rest, out);
            Sane(c) && Process(Idle(RequestBytes(verb, path, h, []) + rest, out), true) == Process(c, true)
  {
    hide ResponseBytes, Reply, Chunked, BodyLength, Readable, OneLine, RequestLineText, Word, Found;
    hide HeaderLines, OrderedKeys.Sorted;
    var line, lines := RequestLineText(verb, path), HeaderLines(h, OrderedKeys.Sorted(h.Keys));
    var tail := lines + CRLF + rest;
    var start := Idle(RequestBytes(verb, path, h, []) + rest, out);
    assert start.unread == line + CRLF + tail by {
      Regroup4(line + CRLF, lines, CRLF, [], rest);
      assert [] + rest == rest;
    }
    RequestLinePass(verb, path, tail, out, true);
    var c1 := Conn(ExpectHeaders, NEW_REQUEST.(verb := verb, path := path), NEW_RESPONSE, tail, out);
    HeadersPass(c1, h, rest, true);
    hide Process, Pass, PassRequestLine, PassHeaders, WithHeaders;
    ProcessOne(start, true);
    ProcessOne(c1, true);
  }

  // A whole request that arrives on an idle connection, with whatever follows it, is answered, and what follows is
  // left for the next request.  The answer carries the request's own body exactly if that is not empty and shorter
  // than 2^32 octets.
  lemma RequestServed(verb: Text, path: Text, h: Headers, body: seq<byte>, rest: seq<byte>, out: seq<byte>)
    requires Word(verb) && Word(path) && OneLine(RequestLineText(verb, path))
    requires |RequestLineText(verb, path)| < MAX_LINE_LEN
    requires Readable(h) && !Chunked(h) && BodyLength(h) == Some(|body|)
    ensures Process(Idle(RequestBytes(verb, path, h, body) + rest, out), true) ==
            (Idle(rest, out + ResponseBytes(Reply(NEW_RESPONSE, body))), Ok)
    ensures Reply(NEW_RESPONSE, body).body == body <==> 0 < |body| < U32
  {
    EchoIsWhole(NEW_RESPONSE, body);
    HeadThenBody(verb, path, h, body, rest);
    HeadServed(verb, path, h, |body|, body + rest, out);
    HeadedFresh(verb, path, h, |body|);
    hide Process, ResponseBytes, Reply, Headed, RequestBytes, Chunked, BodyLength, Readable, OneLine;
    var phase := if |body| > 0 then ExpectBody else ExpectComplete;
    BodyThere(Conn(phase, Headed(verb, path, h, |body|), NEW_RESPONSE, body + rest, out), body, rest);
  }

  lemma HeadThenBody(verb: Text, path: Text, h: Headers, body: seq<byte>, rest: seq<byte>)
    ensures RequestBytes(verb, path, h, body) + rest == RequestBytes(verb, path, h, []) + (body + rest)
  {
    hide RequestLineText, HeaderLines, OrderedKeys.Sorted;
    var head := RequestLineText(verb, path) + CRLF + HeaderLines(h, OrderedKeys.Sorted(h.Keys)) + CRLF;
    assert head + [] == head;
    Associate(head, body, rest);
  }

  lemma RequestBegun(verb: Text, path: Text, h: Headers, n: nat, first: seq<byte>, out: seq<byte>)
    requires Word(verb) && Word(path) && OneLine(RequestLineText(verb, path))
    requires |RequestLineText(verb, path)| < MAX_LINE_LEN
    requires Readable(h) && !Chunked(h) && BodyLength(h) == Some(n) && |first| < n
    ensures Deliver(Idle([], out), RequestBytes(verb, path, h, []) + first, true) ==
            (Conn(ExpectBody, Headed(verb, path, h, n).(body := first), NEW_RESPONSE, [], out), Ok)
  {
    HeadServed(verb, path, h, n, first, out);
    HeadedFresh(verb, path, h, n);
    DeliverAlone(Idle([], out), RequestBytes(verb, path, h, []) + first, true);
    hide Process, Deliver, Headed, RequestBytes, Chunked, BodyLength, Readable, OneLine, RequestLineText;
    var c := Conn(ExpectBody, Headed(verb, path, h, n), NEW_RESPONSE, [], out);
    DeliverAlone(c, first, true);
    BodyPass(c, first, true);
    assert [] + first == first;
  }

  lemma BodyFinished(c: Conn, first: seq<byte>, chunks: seq<seq<byte>>, last: seq<byte>, n: nat)
    requires Sane(c) && c.phase == ExpectBody && c.unread == []
    requires c.request.body == first && c.request.contentLength == n
    requires |first| + |Join(chunks)| < n <= |first + (Join(chunks) + last)|
    ensures var all := first + (Join(chunks) + last);
            Deliver(Feed(c, chunks, true), last, true) ==
            (Idle(all[n..], c.out + ResponseBytes(Reply(c.response, all[..n]))), Ok)
  {
    hide *;
    var s, m := Join(chunks) + last, n - |first|;
    NeedIs(c, s[..m]);
    FirstThenRest(first, s, n);
    BodyFramed(c, chunks, last, true);
  }

  lemma NeedIs(c: Conn, more: seq<byte>)
    ensures Need(c) == c.request.contentLength - |c.request.body|
    ensures WithBody(c, more).request.body == c.request.body + more
  {
  }

  // Of a request whose head arrives in one piece the body may follow in any number of reads, cut anywhere; the read
  // that completes it is the one that answers the request.  The answer carries exactly the announced octets if and
  // only if there are fewer than 2^32 of them.
  lemma RequestServedInReads(verb: Text, path: Text, h: Headers, n: nat, first: seq<byte>, chunks: seq<seq<byte>>,
                             last: seq<byte>, out: seq<byte>)
    requires Word(verb) && Word(path) && OneLine(RequestLineText(verb, path))
    requires |RequestLineText(verb, path)| < MAX_LINE_LEN
    requires Readable(h) && !Chunked(h) && BodyLength(h) == Some(n)
    ensures var all := first + (Join(chunks) + last);
            var begun := Deliver(Idle([], out), RequestBytes(verb, path, h, []) + first, true);
            |first| + |Join(chunks)| < n <= |all| ==>
              begun.1 == Ok && begun.0.phase == ExpectBody && begun.0.out == out &&
              Deliver(Feed(begun.0, chunks, true), last, true) ==
              (Idle(all[n..], out + ResponseBytes(Reply(NEW_RESPONSE, all[..n]))), Ok) &&
              (Reply(NEW_RESPONSE, all[..n]).body == all[..n] <==> n < U32)
  {
    hide Process, Deliver, Feed, Headed, RequestBytes, Chunked, BodyLength, Readable, OneLine, RequestLineText;
    hide ResponseBytes, Reply, Idle, Ascii, Word;
    if |first| + |Join(chunks)| < n <= |first + (Join(chunks) + last)| {
      EchoIsWhole(NEW_RESPONSE, (first + (Join(chunks) + last))[..n]);
      RequestBegun(verb, path, h, n, first, out);
      HeadedFresh(verb, path, h, n);
      var c := Conn(ExpectBody, Headed(verb, path, h, n).(body := first), NEW_RESPONSE, [], out);
      BodyFinished(c, first, chunks, last, n);
    }
  }

  lemma BodyThere(c: Conn, body: seq<byte>, rest: seq<byte>)
    requires Sane(c) && c.request.body == [] && c.request.contentLength == |body| && c.unread == body + rest
    requires c.phase == if |body| > 0 then ExpectBody else ExpectComplete
    ensures Process(c, true) == (Idle(rest, c.out + ResponseBytes(Reply(c.response, body))), Ok)
  {
    hide ResponseBytes, Reply;
    if |body| > 0 {
      DeliverAlone(c.(unread := []), body + rest, true);
      BodyPass(c.(unread := []), body + rest, true);
      assert (body + rest)[..|body|] == body && (body + rest)[|body|..] == rest;
      assert [] + body == body;
      hide Process, Deliver;
      CompletePass(WithBody(c, body).(phase := ExpectComplete, unread := rest), true);
    } else {
      assert body + rest == rest && body == [];
      CompletePass(c, true);
    }
  }

  lemma Regroup4(a: Text, b: Text, c: Text, d: Text, e: Text)
    ensures a + b + c + d + e == a + (b + c + (d + e))
  {
  }

  lemma DeliverAlone(c: Conn, chunk: seq<byte>, attached: bool)
    requires Sane(c) && c.unread == []
    ensures Deliver(c, chunk, attached) == Process(c.(unread := chunk), attached)
  {
    assert [] + chunk == chunk;
  }

  lemma LengthHeaderFits(n: nat)
    requires n < U64
    ensures WellFormed(CONTENT_LENGTH, Decimal(n))
  {
    DigitsOfSize(n);
    ShortIsOneLine(CONTENT_LENGTH);
    ShortIsOneLine(Decimal(n));
  }

  // ---------------------------------------------------------------- the answer, read back

  const CONTENT_TYPE: Text := Ascii("Content-Type")
  const TEXT_PLAIN: Text := Ascii("text/plain")

  lemma TypeNameLength()
    ensures |CStr(CONTENT_TYPE)| == 12
  {
    NoNulStays(CONTENT_TYPE);
    hide CStr;
  }

  lemma LengthNameLength()
    ensures |CStr(CONTENT_LENGTH)| == 14
  {
    NoNulStays(CONTENT_LENGTH);
    hide CStr;
  }

  lemma NamesDiffer()
    ensures !SameName(CONTENT_TYPE, CONTENT_LENGTH)
  {
    TypeNameLength();
    LengthNameLength();
    hide CStr, Ascii;
  }

  lemma TypeIsWellFormed()
    ensures WellFormed(CONTENT_TYPE, TEXT_PLAIN)
  {
    ShortIsOneLine(CONTENT_TYPE);
    ShortIsOneLine(TEXT_PLAIN);
  }

  lemma SingleName(h: Headers, name: Text, other: Text)
    requires h.Keys == {name} && !SameName(name, other)
    ensures !HasName(OrderedKeys.Sorted(h.Keys), other)
  {
    var names := OrderedKeys.Sorted(h.Keys);
    hide SameName, OrderedKeys.Sorted, OrderedKeys.Ascending;
    assert |names| == 1 && names[0] in names;
    assert names[1..] == [];
  }

  lemma StatusLineIsOne(r: Response)
    requires r.statusCode == 200 && r.statusText == Ascii("OK")
    ensures OneLine(StatusLine(r)) && |StatusLine(r)| < MAX_LINE_LEN
  {
    DigitsOfSize(200);
    var a, b, c := VERSION, Decimal(200), Ascii("OK");
    ShortIsOneLine(a);
    ShortIsOneLine(b);
    ShortIsOneLine(c);
    hide OneLine, Decimal;
    OneLineJoin(b, SP, c);
    OneLineJoin(a, SP, b + [SP] + c);
    assert StatusLine(r) == a + [SP] + (b + [SP] + c);
  }

  lemma AnswerHeaders(r: Response)
    requires r.headers == map[CONTENT_TYPE := TEXT_PLAIN] && 0 < |r.body| < U64
    ensures Sent(r) == map[CONTENT_TYPE := TEXT_PLAIN, CONTENT_LENGTH := Decimal(|r.body|)] && Readable(Sent(r))
  {
    NamesDiffer();
    TypeIsWellFormed();
    LengthHeaderFits(|r.body|);
    SingleName(r.headers, CONTENT_TYPE, CONTENT_LENGTH);
    hide WellFormed, SameName, HasName, OrderedKeys.Sorted, OrderedKeys.Ascending, Decimal;
    assert Sent(r).Keys == {CONTENT_TYPE, CONTENT_LENGTH};
    assert |Sent(r)| == |Sent(r).Keys| <= 2;
  }

  // What the client makes of the answer to a request with this body: the headers, among them the length of the
  // answer, and the answer itself.
  lemma AnswerReadBack(body: seq<byte>)
    ensures var r := Reply(NEW_RESPONSE, body);
            var first := ReadLineOf(ResponseBytes(r), MAX_LINE_LEN);
            first.Line? && first.text == StatusLine(r) &&
            HeadersOf(first.rest, map[], 0) ==
            HttpParsers.HeadersRead(Ok, map[CONTENT_TYPE := TEXT_PLAIN, CONTENT_LENGTH := Decimal(|r.body|)], r.body) &&
            (r.body == body <==> 0 < |body| < U32)
  {
    ReplyShape(body);
    hide *;
    var r := Reply(NEW_RESPONSE, body);
    AnswerHeaders(r);
    StatusLineIsOne(r);
    ResponseReadBack(r);
  }

  lemma ReplyShape(body: seq<byte>)
    ensures var r := Reply(NEW_RESPONSE, body);
            r.statusCode == 200 && r.statusText == Ascii("OK") && r.headers == map[CONTENT_TYPE := TEXT_PLAIN] &&
            0 < |r.body| < U64 && (r.body == body <==> 0 < |body| < U32)
  {
    assert |Ascii("OK")| == 2;
    hide Ascii;
    EchoIsWhole(NEW_RESPONSE, body);
  }
}
