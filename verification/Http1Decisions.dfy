/** What an HTTP/1.1 connection does with what it reads, said in terms of the octets and header names themselves:
    which requests are refused and how, how long a body is taken to be, and the very octets of the answers. */
module Http1Decisions {
  import opened Bytes
  import opened Basics
  import opened HttpText
  import opened HttpParsers
  import opened HttpRoundTrip
  import opened HttpMeanings
  import opened HttpSplit
  import opened Http1Connections
  import opened Http1Reads
  import OrderedKeys

  // ---------------------------------------------------------------- octets of the answers

  const BAD_REQUEST: Text := Ascii("HTTP/1.1 400 Bad Request\r\n\r\n")

  // A refusal on a connection that has answered nothing since its last request.
  lemma RefusalOctets()
    ensures ResponseBytes(NEW_RESPONSE.(statusCode := 400, statusText := Ascii("Bad Request"))) == BAD_REQUEST
  {
    var r := NEW_RESPONSE.(statusCode := 400, statusText := Ascii("Bad Request"));
    AsciiNumbers();
    AsciiCrLf();
    AsciiJoin("HTTP/1.1", " ");
    AsciiJoin("HTTP/1.1 ", "400");
    AsciiJoin("HTTP/1.1 400", " ");
    AsciiJoin("HTTP/1.1 400 ", "Bad Request");
    AsciiJoin("HTTP/1.1 400 Bad Request", "\r\n");
    AsciiJoin("HTTP/1.1 400 Bad Request\r\n", "\r\n");
    NoHeaders(r);
    hide Ascii, DecimalInt, HeaderLines, LengthLine, OrderedKeys.Sorted;
    var head := Ascii("HTTP/1.1 400 Bad Request") + CRLF;
    assert StatusLine(r) == Ascii("HTTP/1.1 400 Bad Request");
    assert head + [] + [] + CRLF + [] == head + CRLF;
  }

  lemma NoHeaders(r: Response)
    requires r.headers == map[] && r.body == []
    ensures LengthLine(r) == []
    ensures (forall n | n in OrderedKeys.Sorted(r.headers.Keys) :: n in r.headers)
    ensures HeaderLines(r.headers, OrderedKeys.Sorted(r.headers.Keys)) == []
  {
    assert r.headers.Keys == {};
    hide HasName;
  }

  lemma StatusOctets(r: Response)
    requires r.statusCode == 200 && r.statusText == Ascii("OK")
    ensures StatusLine(r) == Ascii("HTTP/1.1 200 OK")
  {
    AsciiNumbers();
    AsciiCrLf();
    AsciiJoin("HTTP/1.1", " ");
    AsciiJoin("HTTP/1.1 ", "200");
    AsciiJoin("HTTP/1.1 200", " ");
    AsciiJoin("HTTP/1.1 200 ", "OK");
    hide Ascii, DecimalInt;
  }

  lemma HeaderOctets(length: Text)
    ensures HeaderLine(CONTENT_TYPE, TEXT_PLAIN) == Ascii("Content-Type: text/plain")
    ensures HeaderLine(CONTENT_LENGTH, length) == Ascii("Content-Length: ") + length
  {
    AsciiCrLf();
    AsciiJoin("Content-Type", ": ");
    AsciiJoin("Content-Type: ", "text/plain");
    AsciiJoin("Content-Length", ": ");
    hide Ascii;
    Associate(CONTENT_TYPE, [COLON], [SP]);
    Associate(CONTENT_LENGTH, [COLON], [SP]);
  }

  lemma OneHeader(r: Response)
    requires r.headers == map[CONTENT_TYPE := TEXT_PLAIN] && r.body != []
    ensures (forall n | n in OrderedKeys.Sorted(r.headers.Keys) :: n in r.headers)
    ensures HeaderLines(r.headers, OrderedKeys.Sorted(r.headers.Keys)) == HeaderLine(CONTENT_TYPE, TEXT_PLAIN) + CRLF
    ensures LengthLine(r) == HeaderLine(CONTENT_LENGTH, Decimal(|r.body|)) + CRLF
  {
    NamesDiffer();
    SingleName(r.headers, CONTENT_TYPE, CONTENT_LENGTH);
    var names := OrderedKeys.Sorted(r.headers.Keys);
    assert |names| == 1 && names[0] in names && names[1..] == [];
    hide HasName, HeaderLine, Ascii, OrderedKeys.Sorted, OrderedKeys.Ascending, Decimal;
    assert HeaderLine(CONTENT_TYPE, TEXT_PLAIN) + CRLF + [] == HeaderLine(CONTENT_TYPE, TEXT_PLAIN) + CRLF;
  }

  lemma Grouped(head: Text, name: Text, key: Text, length: Text, end: Text, body: Text)
    ensures head + (name + end) + (key + length + end) + end + body ==
            head + name + end + key + length + end + end + body
  {
    Associate(head, name, end);
    Associate(head + name + end, key + length, end);
    Associate(head + name + end, key, length);
  }

  // The body of an answer: that of the request, or "OK" for one that has none, or whose length is a multiple of 2^32.
  function Echo(body: seq<byte>): seq<byte> {
    if |body| % U32 == 0 then Ascii("OK") else body[..|body| % U32]
  }

  lemma ReplyIs(body: seq<byte>)
    ensures var r := Reply(NEW_RESPONSE, body);
            r.statusCode == 200 && r.statusText == Ascii("OK") && r.headers == map[CONTENT_TYPE := TEXT_PLAIN] &&
            r.body == Echo(body) && r.body != []
  {
    assert |Ascii("OK")| == 2;
    hide Ascii;
  }

  // Every octet of an answer.
  lemma AnswerOctets(body: seq<byte>)
    ensures ResponseBytes(Reply(NEW_RESPONSE, body)) ==
            Ascii("HTTP/1.1 200 OK") + CRLF + Ascii("Content-Type: text/plain") + CRLF +
            Ascii("Content-Length: ") + Decimal(|Echo(body)|) + CRLF + CRLF + Echo(body)
  {
    var r := Reply(NEW_RESPONSE, body);
    ReplyIs(body);
    StatusOctets(r);
    OneHeader(r);
    HeaderOctets(Decimal(|r.body|));
    hide Ascii, Reply, Echo, StatusLine, HeaderLine, HeaderLines, LengthLine, OrderedKeys.Sorted, Decimal;
    Grouped(Ascii("HTTP/1.1 200 OK") + CRLF, Ascii("Content-Type: text/plain"), Ascii("Content-Length: "),
            Decimal(|r.body|), CRLF, r.body);
  }

  // ---------------------------------------------------------------- complete headers

  // The answer to what is refused.
  function Refusal(c: Conn): seq<byte> {
    ResponseBytes(c.response.(statusCode := 400, statusText := Ascii("Bad Request")))
  }

  ghost predicate IsRefused(c: Conn, r: (Conn, Code)) {
    r.1 == Invalid && r.0.phase == Errored && r.0.out == c.out + Refusal(c)
  }

  lemma SeenRefused(c: Conn, r: (Conn, Code), rest: seq<byte>, attached: bool)
    requires SeenOf(r) == Effect(c, Refuses, rest, attached)
    ensures IsRefused(c, r)
  {
    hide ResponseBytes, Ascii;
  }

  const TRANSFER_ENCODING: Text := Ascii("Transfer-Encoding")

  // The transfer encoding that counts has this part in it.
  ghost predicate Encoded(h: Headers, part: Text) {
    exists te, a, b :: Counts(h, TRANSFER_ENCODING, te) && h[te] == a + part + b
  }

  lemma ChunkedIs(h: Headers)
    ensures Chunked(h) <==> Encoded(h, Ascii("chunked")) || Encoded(h, Ascii("CHUNKED"))
  {
    var small, large := Ascii("chunked"), Ascii("CHUNKED");
    hide Contains, Found, Counts, Ascii;
    if Found(h, TRANSFER_ENCODING).Some? {
      var te := FoundCounts(h, TRANSFER_ENCODING);
      CountsIsIn(h, te);
      ContainsIs(h[te], small);
      ContainsIs(h[te], large);
      forall k | Counts(h, TRANSFER_ENCODING, k) ensures k == te { CountsOnce(h, TRANSFER_ENCODING, k, te); }
    } else {
      forall k | Counts(h, TRANSFER_ENCODING, k) ensures false { FoundIs(h, TRANSFER_ENCODING, k); }
    }
  }

  lemma CountsIsIn(h: Headers, k: Text)
    requires Counts(h, TRANSFER_ENCODING, k)
    ensures k in h
  {
  }

  lemma CountsOnce(h: Headers, name: Text, k: Text, m: Text)
    requires Counts(h, name, k) && Counts(h, name, m)
    ensures k == m
  {
    hide SameName, OrderedKeys.Less;
    OrderedKeys.LessTotal(k, m);
  }

  // A request whose transfer encoding has "chunked" or "CHUNKED" in it is refused, whatever else it says.
  lemma ChunkedRefused(c: Conn, s: seq<byte>, attached: bool)
    requires Sane(c) && c.phase == ExpectHeaders && HeadersOf(s, map[], 0).code == Ok
    ensures Sane(c.(unread := s))
    ensures var h := HeadersOf(s, map[], 0).headers;
            Encoded(h, Ascii("chunked")) || Encoded(h, Ascii("CHUNKED")) ==>
              IsRefused(c, Process(c.(unread := s), attached))
  {
    hide *;
    var r := HeadersOf(s, map[], 0);
    HeadersSeen(c, s, attached);
    ChunkedIs(r.headers);
    if Encoded(r.headers, Ascii("chunked")) || Encoded(r.headers, Ascii("CHUNKED")) {
      ChunkedVerdict(r);
      SeenRefused(c, Process(c.(unread := s), attached), r.rest, attached);
    }
  }

  lemma ChunkedVerdict(r: HttpParsers.HeadersRead)
    requires r.code == Ok && Chunked(r.headers)
    ensures VerdictOf(r) == Refuses
  {
    hide Chunked;
  }

  // What a Content-Length leads to: a refusal if it is no number, else a body of that many octets.
  ghost predicate LengthDecided(c: Conn, length: Text, rest: seq<byte>, r: (Conn, Code), attached: bool) {
    ((forall n: nat, a, b, d :: !IsNumber(CStr(length), a, b, d, n)) ==> IsRefused(c, r)) &&
    (forall n: nat, a, b, d | IsNumber(CStr(length), a, b, d, n) :: SeenOf(r) == Effect(c, Takes(n), rest, attached))
  }

  // Any other request is decided by its Content-Length alone; without one it has no body.
  lemma LengthDecides(c: Conn, s: seq<byte>, attached: bool)
    requires Sane(c) && c.phase == ExpectHeaders && HeadersOf(s, map[], 0).code == Ok
    requires var h := HeadersOf(s, map[], 0).headers;
             !Encoded(h, Ascii("chunked")) && !Encoded(h, Ascii("CHUNKED"))
    ensures Sane(c.(unread := s))
    ensures var (h, rest) := (HeadersOf(s, map[], 0).headers, HeadersOf(s, map[], 0).rest);
            var r := Process(c.(unread := s), attached);
            ((forall k | k in h :: !SameName(k, CONTENT_LENGTH)) ==>
               SeenOf(r) == Effect(c, Takes(0), rest, attached)) &&
            (forall k | Counts(h, CONTENT_LENGTH, k) :: LengthDecided(c, h[k], rest, r, attached))
  {
    hide *;
    var r := HeadersOf(s, map[], 0);
    HeadersSeen(c, s, attached);
    var p := Process(c.(unread := s), attached);
    ChunkedIs(r.headers);
    if forall k | k in r.headers :: !SameName(k, CONTENT_LENGTH) {
      NoLengthVerdict(r);
    }
    forall k | Counts(r.headers, CONTENT_LENGTH, k)
      ensures k in r.headers && LengthDecided(c, r.headers[k], r.rest, p, attached)
    {
      LengthVerdict(r, k);
      if VerdictOf(r) == Refuses { SeenRefused(c, p, r.rest, attached); }
      ToLengthDecided(c, r.headers[k], r.rest, p, attached, VerdictOf(r));
    }
  }

  lemma ToLengthDecided(c: Conn, length: Text, rest: seq<byte>, r: (Conn, Code), attached: bool, v: Verdict)
    requires (forall n: nat, a, b, d :: !IsNumber(CStr(length), a, b, d, n)) <==> v == Refuses
    requires forall n: nat, a, b, d | IsNumber(CStr(length), a, b, d, n) :: v == Takes(n)
    requires SeenOf(r) == Effect(c, v, rest, attached) && (v == Refuses ==> IsRefused(c, r))
    ensures LengthDecided(c, length, rest, r, attached)
  {
    hide IsNumber, CStr, IsRefused, SeenOf, Effect;
  }

  lemma NoLengthVerdict(r: HttpParsers.HeadersRead)
    requires r.code == Ok && !Chunked(r.headers) && forall k | k in r.headers :: !SameName(k, CONTENT_LENGTH)
    ensures VerdictOf(r) == Takes(0)
  {
    NotFound(r.headers, CONTENT_LENGTH);
    hide Chunked, Found, SameName;
  }

  lemma NumberOrNot(v: Text)
    ensures (forall n: nat, a, b, d :: !IsNumber(CStr(v), a, b, d, n)) <==> ParseUnsigned(v) == None
    ensures forall n: nat, a, b, d | IsNumber(CStr(v), a, b, d, n) :: ParseUnsigned(v) == Some(n)
  {
    hide *;
    forall n: nat, a, b, d | IsNumber(CStr(v), a, b, d, n) ensures ParseUnsigned(v) == Some(n) {
      NumberRead(v, a, b, d, n);
    }
    if ParseUnsigned(v).Some? {
      var a, b, d := NumberSplit(v, ParseUnsigned(v).value);
    }
  }

  lemma LengthVerdict(r: HttpParsers.HeadersRead, k: Text)
    requires r.code == Ok && !Chunked(r.headers) && Counts(r.headers, CONTENT_LENGTH, k)
    ensures k in r.headers
    ensures (forall n: nat, a, b, d :: !IsNumber(CStr(r.headers[k]), a, b, d, n)) <==> VerdictOf(r) == Refuses
    ensures forall n: nat, a, b, d | IsNumber(CStr(r.headers[k]), a, b, d, n) :: VerdictOf(r) == Takes(n)
  {
    hide *;
    LengthFound(r, k);
    NumberOrNot(r.headers[k]);
  }

  lemma LengthFound(r: HttpParsers.HeadersRead, k: Text)
    requires r.code == Ok && !Chunked(r.headers) && Counts(r.headers, CONTENT_LENGTH, k)
    ensures k in r.headers
    ensures VerdictOf(r) == var n := ParseUnsigned(r.headers[k]); if n.None? then Refuses else Takes(n.value)
  {
    FoundIs(r.headers, CONTENT_LENGTH, k);
    CountedIn(r.headers, CONTENT_LENGTH, k);
    hide Chunked, Found, Counts, ParseUnsigned, Ascii;
  }

  lemma CountedIn(h: Headers, name: Text, k: Text)
    requires Counts(h, name, k)
    ensures k in h
  {
  }

  // What of complete headers is kept with a request whose body is still to come.
  lemma HeadersStored(c: Conn, s: seq<byte>, n: nat, attached: bool)
    requires Sane(c) && c.phase == ExpectHeaders
    requires VerdictOf(HeadersOf(s, map[], 0)) == Takes(n) && |HeadersOf(s, map[], 0).rest| < n
    ensures Sane(c.(unread := s))
    ensures var (h, rest) := (HeadersOf(s, map[], 0).headers, HeadersOf(s, map[], 0).rest);
            var q := Process(c.(unread := s), attached).0.request;
            q == c.request.(headers := h, contentLength := n, body := rest, debugToken := q.debugToken) &&
            (forall k | Counts(h, Ascii("Debug-Token"), k) :: q.debugToken == h[k]) &&
            ((forall k | k in h :: !SameName(k, Ascii("Debug-Token"))) ==> q.debugToken == c.request.debugToken)
  {
    var r := HeadersOf(s, map[], 0);
    var token := Ascii("Debug-Token");
    SaneHeaders(c, c.request.headers, s);
    var q := WithHeaders(c.request, r.headers).(contentLength := n);
    HeadersTaken(c, s, n, attached);
    forall k | Counts(r.headers, token, k) ensures k in r.headers && q.debugToken == r.headers[k] {
      FoundIs(r.headers, token, k);
    }
    if forall k | k in r.headers :: !SameName(k, token) { NotFound(r.headers, token); }
  }

  lemma HeadersTaken(c: Conn, s: seq<byte>, n: nat, attached: bool)
    requires Sane(c) && c.phase == ExpectHeaders && Sane(c.(unread := s))
    requires VerdictOf(HeadersOf(s, map[], 0)) == Takes(n) && |HeadersOf(s, map[], 0).rest| < n
    ensures var r := HeadersOf(s, map[], 0);
            Process(c.(unread := s), attached).0.request ==
            WithHeaders(c.request, r.headers).(contentLength := n, body := r.rest)
  {
    var r := HeadersOf(s, map[], 0);
    var q := WithHeaders(c.request, r.headers).(contentLength := n);
    BodyKept(c.request, r.headers);
    hide HeadersOf, Chunked, BodyLength, WithHeaders, ResponseBytes;
    var d := c.(request := q, unread := r.rest, phase := ExpectBody);
    assert Pass(c.(unread := s), attached) == Outcome(d, None);
    ProcessOne(c.(unread := s), attached);
    hide Pass, Process;
    DeliverAlone(d.(unread := []), r.rest, attached);
    BodyPass(d.(unread := []), r.rest, attached);
    assert q.body == [] && [] + r.rest == r.rest;
  }

  // A header block is refused at its first line that is too long, that does not split into name and value within the
  // limits, or that is the hundred and first.
  lemma BadHeaderRefused(c: Conn, h: Headers, names: seq<Text>, line: Text, rest: seq<byte>, attached: bool)
    requires Sane(c) && c.phase == ExpectHeaders && OneLine(line) && line != [] && |names| <= 100
    requires forall n | n in names :: n in h && WellFormed(n, h[n])
    requires |line| >= 8192 || |names| == 100 ||
             forall m, v, a, b, d, e :: IsHeader(line, a, m, b, d, v, e) ==> !(0 < |m| <= 256 && |v| <= 4096)
    ensures var s := HeaderLines(h, names) + (line + CRLF + rest);
            Sane(c.(unread := s)) && IsRefused(c, Process(c.(unread := s), attached))
  {
    var s := HeaderLines(h, names) + (line + CRLF + rest);
    HeaderLinesRead(h, names, line + CRLF + rest, map[], 0);
    LineIs(line, rest, MAX_LINE_LEN);
    NoHeaderHere(line);
    hide HeaderLines, ReadLineOf, HeaderOf, OneLine, WellFormed, IsHeader;
    var r := HeadersOf(line + CRLF + rest, map[] + Restrict(h, names), |names|);
    assert r.code != Ok && r.code != Again;
    hide *;
    HeadersSeen(c, s, attached);
    BadVerdict(r);
    SeenRefused(c, Process(c.(unread := s), attached), r.rest, attached);
  }

  lemma NoHeaderHere(line: Text)
    ensures (forall m, v, a, b, d, e :: IsHeader(line, a, m, b, d, v, e) ==> !(0 < |m| <= 256 && |v| <= 4096)) ==>
              HeaderOf(line).BadHeader? && HeaderOf(line).code != Ok && HeaderOf(line).code != Again
  {
    hide HeaderOf, IsHeader;
    if HeaderOf(line).Header? { HeaderIs(line, HeaderOf(line).name, HeaderOf(line).value); }
  }

  lemma BadVerdict(r: HttpParsers.HeadersRead)
    requires r.code != Ok && r.code != Again
    ensures VerdictOf(r) == Refuses
  {
  }

  // ---------------------------------------------------------------- request lines

  // A first line that is too long, or no request line of HTTP/1.1, is refused, whatever follows it.
  lemma BadLineRefused(c: Conn, line: Text, rest: seq<byte>, attached: bool)
    requires Sane(c) && c.phase == ExpectRequestLine && c.unread == line + CRLF + rest && OneLine(line)
    requires |line| >= 8192 || forall m, g1, p, g2 :: !IsRequestLine(line, m, g1, p, g2, Ascii("HTTP/1.1"))
    ensures IsRefused(c, Process(c, attached))
  {
    LineIs(line, rest, MAX_LINE_LEN);
    GoodLine(line);
    hide ReadLineOf, RequestLineOf, IsRequestLine, ResponseBytes, Ascii, OneLine;
    ProcessOne(c, attached);
  }

  lemma GoodLine(line: Text)
    ensures RequestLineOf(line).code == Ok ==>
              exists m, g1, p, g2 :: IsRequestLine(line, m, g1, p, g2, Ascii("HTTP/1.1"))
  {
    RequestLineMeaning(line);
    hide RequestLineOf, IsRequestLine, Ascii;
  }

  // ---------------------------------------------------------------- after a refusal

  function Times(s: seq<byte>, n: nat): seq<byte> {
    if n == 0 then [] else s + Times(s, n - 1)
  }

  // A refused connection stays refused: every further read is answered with the same refusal and read no further.
  lemma {:induction false} RefusedForGood(c: Conn, chunks: seq<seq<byte>>, attached: bool)
    requires Sane(c) && c.phase == Errored
    ensures var r := Feed(c, chunks, attached);
            r.phase == Errored && r.out == c.out + Times(Refusal(c), |chunks|) && r.unread == c.unread + Join(chunks)
    decreases |chunks|
  {
    hide ResponseBytes, Ascii;
    if chunks == [] {
      assert c.out + [] == c.out && c.unread + [] == c.unread;
    } else {
      var r := Deliver(c, chunks[0], attached).0;
      RefusedAgain(c, chunks[0], attached);
      hide Deliver, Refusal;
      RefusedForGood(r, chunks[1..], attached);
      Associate(c.out, Refusal(c), Times(Refusal(c), |chunks| - 1));
      Associate(c.unread, chunks[0], Join(chunks[1..]));
    }
  }

  lemma RefusedAgain(c: Conn, chunk: seq<byte>, attached: bool)
    requires Sane(c) && c.phase == Errored
    ensures var (r, code) := Deliver(c, chunk, attached);
            code == Invalid && Sane(r) && r.phase == Errored && r.out == c.out + Refusal(c) &&
            r.unread == c.unread + chunk && Refusal(r) == Refusal(c)
  {
    var d := c.(unread := c.unread + chunk);
    assert Sane(d);
    ProcessOne(d, attached);
    hide ResponseBytes, Ascii, Process;
  }
}
