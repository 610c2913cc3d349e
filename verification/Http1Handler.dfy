/** The HTTP/1.1 handler: buffers what the TLS layer delivers and runs the request state machine over it.
    Every method is tied to the state machine of Http1Connections. */
module Http1Handlers {
  import opened Bytes
  import opened Basics
  import opened Buffers
  import opened HttpText
  import opened HttpParsers
  import opened HttpRoundTrip
  import opened Http1Connections
  import opened Tls
  import OrderedKeys

  class Http1Handler {
    const attached: bool  // a Connection has been set
    const plaintext: Buffer
    const parser: HttpParser
    var phase: Phase
    var request: Request
    var response: Response
    var out: seq<byte>

    ghost function State(): Conn
      reads this, plaintext
      requires plaintext.Valid()
    {
      Conn(phase, request, response, plaintext.Unread(), out)
    }

    ghost predicate Valid()
      reads this, plaintext
    {
      plaintext.Valid() && parser.buffer == plaintext && Sane(State())
    }

    lemma StateIs()
      requires plaintext.Valid()
      ensures State() == Conn(phase, request, response, plaintext.Unread(), out)
    {
    }

    lemma ValidMeans()
      ensures Valid() <==> plaintext.Valid() && parser.buffer == plaintext && Sane(State())
    {
    }

    constructor (attached: bool)
      ensures Valid() && State() == Idle([], []) && this.attached == attached
      ensures fresh(plaintext) && fresh(parser)
    {
      var b := new Buffer(DEFAULT_INITIAL_CAPACITY);
      this.attached := attached;
      plaintext := b;
      parser := new HttpParser(b);
      phase, request, response, out := ExpectRequestLine, NEW_REQUEST, NEW_RESPONSE, [];
    }

    method Reset()
      requires plaintext.Valid() && parser.buffer == plaintext
      modifies this`phase, this`request, this`response, parser`errorCode
      ensures Valid() && State() == Idle(plaintext.Unread(), out)
    {
      phase, request, response := ExpectRequestLine, NEW_REQUEST, NEW_RESPONSE;
      parser.errorCode := Ok;
    }

    // The sum of the sizes over all headers.
    static method RoomForHeaders(h: Headers) returns (n: nat)
      ensures var names := OrderedKeys.Sorted(h.Keys);
              (forall x | x in names :: x in h) && n == HeaderRoom(h, names)
    {
      var names := OrderedKeys.Sorted(h.Keys);
      RoomStart(h);
      hide *;
      n := 0;
      for i := 0 to |names|
        invariant RoomUpTo(h, names, i, n)
      {
        RoomNext(h, names, i, n);
        n := n + |names[i]| + |h[names[i]]| + 32;
      }
      RoomEnd(h, names, n);
    }

    // A first attempt with the estimated size, a second one if that was not enough.
    method GenerateResponse() returns (code: Code)
      modifies this`out, parser`errorCode
      ensures code == if |ResponseBytes(response)| <= Estimate(response) ||
                         |ResponseBytes(response)| <= 4096 + |response.body| then Ok else NoRoom
      ensures out == if code == Ok then old(out) + ResponseBytes(response) else old(out)
    {
      var room := RoomForHeaders(response.headers);
      EstimateIs(response);
      hide *;
      var estimated := 1024 + room + |response.body| + 64;
      var buf := new byte[estimated];
      var outLen;
      code, outLen := parser.BuildResponse(response, buf);
      if code == NoRoom {
        buf := new byte[4096 + |response.body|];
        code, outLen := parser.BuildResponse(response, buf);
      }
      if code != Ok { return; }
      out := out + buf[..outLen];
    }

    method Refuse() returns (ret: Code)
      requires Valid()
      modifies this`phase, this`response, this`out, parser`errorCode
      ensures Valid() && State() == Refused(old(State())) && ret == Invalid
    {
      hide *;
      ValidMeans();
      StateIs();
      ghost var c := State();
      RefusalFits(c);
      phase := Errored;
      response := response.(statusCode := 400, statusText := Ascii("Bad Request"));
      var code := GenerateResponse();
      ret := Invalid;
      StateIs();
      ValidMeans();
    }

    method ReadRequestLine() returns (ret: Option<Code>)
      requires Valid() && phase == ExpectRequestLine
      modifies this, parser`errorCode, plaintext`readIdx
      ensures Valid() && Outcome(State(), ret) == PassRequestLine(old(State()))
    {
      hide ReadLineOf, RequestLineOf, ResponseBytes;
      var code, line := parser.ReadLine(MAX_LINE_LEN);
      if code == Code.Again { return Some(Ok); }
      if code != Ok {
        var r := Refuse();
        return Some(r);
      }
      var verb, path, version;
      code, verb, path, version := parser.ParseRequestLine(line);
      request := request.(verb := verb, path := path, version := version);
      if code != Ok {
        var r := Refuse();
        return Some(r);
      }
      phase := ExpectHeaders;
      ret := None;
    }

    method ReadHeaders() returns (ret: Option<Code>)
      requires Valid() && phase == ExpectHeaders
      modifies this, parser`errorCode, plaintext`readIdx
      ensures Valid() && Outcome(State(), ret) == PassHeaders(old(State()))
    {
      hide HeadersOf, ResponseBytes, HeadersDone;
      var code, headers := parser.ParseHeaders();
      request := request.(headers := headers);
      if code == Code.Again { return Some(Ok); }
      if code != Ok {
        var r := Refuse();
        return Some(r);
      }
      HeadersDoneForgets(old(State()).(unread := plaintext.Unread()), headers, headers);
      ret := TakeHeaders();
    }

    // What complete headers mean for the rest of the request.
    method TakeHeaders() returns (ret: Option<Code>)
      requires Valid() && phase == ExpectHeaders
      modifies this, parser`errorCode
      ensures Valid() && Outcome(State(), ret) == HeadersDone(old(State()), old(request.headers))
    {
      hide Found, Contains, ParseUnsigned, ResponseBytes;
      var te := HttpParser.FindHeader(request.headers, Ascii("Transfer-Encoding"));
      if te.Some? {
        if Contains(te.value, Ascii("chunked")) || Contains(te.value, Ascii("CHUNKED")) {
          var r := Refuse();
          return Some(r);
        }
      }
      var token := HttpParser.FindHeader(request.headers, Ascii("Debug-Token"));
      if token.Some? { request := request.(debugToken := token.value); }
      var value := HttpParser.FindHeader(request.headers, CONTENT_LENGTH);
      if value.Some? {
        var cl := ParseUnsigned(value.value);
        if cl.None? {
          var r := Refuse();
          return Some(r);
        }
        request := request.(contentLength := cl.value);
      } else {
        request := request.(contentLength := 0);
      }
      phase := if request.contentLength > 0 then ExpectBody else ExpectComplete;
      ret := None;
    }

    // Takes n octets out of the buffer.
    method MoveToBody(n: nat)
      requires plaintext.Valid() && n <= |plaintext.Unread()|
      modifies this`request, plaintext`readIdx
      ensures plaintext.Valid() && plaintext.Unread() == old(plaintext.Unread())[n..]
      ensures request == old(request).(body := old(request).body + old(plaintext.Unread())[..n])
    {
      var data := plaintext.Peek(n);
      request := request.(body := request.body + data);
      plaintext.Skip(n);
    }

    method ReadBody() returns (ret: Option<Code>)
      requires Valid() && phase == ExpectBody
      modifies this, plaintext`readIdx
      ensures Valid() && Outcome(State(), ret) == PassBody(old(State()))
    {
      hide *;
      ValidMeans();
      StateIs();
      ghost var c := State();
      BodyOutcome(c);
      PassOnBody(c, attached);
      PassKeeps(c, attached);
      BodyWanted(c);
      var remaining := request.contentLength - |request.body|;
      var readable := plaintext.ReadableBytes();
      var n := Min(readable, remaining);
      if n > 0 {
        MoveToBody(n);
      } else {
        assert c.request.body + c.unread[..n] == request.body && c.unread[n..] == plaintext.Unread();
      }
      if |request.body| == request.contentLength {
        phase := ExpectComplete;
        ret := None;
      } else {
        ret := Some(Ok);
      }
      StateIs();
      ValidMeans();
    }

    method CompleteRequest() returns (ret: Option<Code>)
      requires Valid() && phase == ExpectComplete
      modifies this, parser`errorCode
      ensures Valid() && Outcome(State(), ret) == PassComplete(old(State()), attached)
    {
      if !attached { return Some(Invalid); }
      var bodyLen := |request.body| % U32;
      response := response.(statusCode := 200, statusText := Ascii("OK"),
                            headers := response.headers[Ascii("Content-Type") := Ascii("text/plain")]);
      if bodyLen > 0 {
        response := response.(body := request.body[..bodyLen]);
      } else {
        response := response.(body := Ascii("OK"));
      }
      assert response == Reply(old(response), request.body);
      EstimateSuffices(response);
      hide ResponseBytes, Estimate, Reply;
      var code := GenerateResponse();
      Reset();
      ret := Some(code);
    }

    // Passes of the state machine until one of them has to return.
    method Advance() returns (ret: Code)
      requires Valid()
      modifies this, parser`errorCode, plaintext`readIdx
      ensures Valid() && (State(), ret) == Process(old(State()), attached)
    {
      hide PassRequestLine, PassHeaders, PassBody, PassComplete, Refused;
      while true
        invariant Valid() && Process(State(), attached) == Process(old(State()), attached)
        decreases Rank(phase)
      {
        ghost var c := State();
        PassKeeps(c, attached);
        var r: Option<Code>;
        match phase {
          case ExpectRequestLine => r := ReadRequestLine();
          case ExpectHeaders => r := ReadHeaders();
          case ExpectBody => r := ReadBody();
          case ExpectComplete => r := CompleteRequest();
          case Errored =>
            var code := Refuse();
            r := Some(code);
        }
        assert Outcome(State(), r) == Pass(c, attached);
        if r.Some? { return r.value; }
      }
    }

    // Not `defined`: the buffer is written beyond its end.
    method OnRead(input: TlsRead) returns (ret: Code, defined: bool)
      requires Valid()
      requires input.Delivered? ==> |input.bytes| <= TEMP_BUFFER_SIZE
      modifies this, parser`errorCode, plaintext
      ensures defined <==> (input.Delivered? ==> old(|plaintext.Unread()|) + |input.bytes| <= MAX_CAPACITY)
      ensures defined ==> Valid()
      ensures input == TlsRead.Again ==> ret == Ok && State() == old(State())
      ensures input == TlsFailed ==> ret == Invalid && State() == Refused(old(State()))
      ensures input.Delivered? && defined ==> (State(), ret) == Deliver(old(State()), input.bytes, attached)
    {
      if input == TlsRead.Again { return Ok, true; }
      defined := true;
      hide Process, ResponseBytes;
      if input == TlsFailed {
        ret := Refuse();
        return;
      }
      if |input.bytes| > 0 {
        var n;
        n, defined := plaintext.Write(input.bytes);
        if !defined { return Invalid, false; }
      }
      assert plaintext.Unread() == old(plaintext.Unread()) + input.bytes;
      ret := Advance();
    }
  }

  lemma RefusalFits(c: Conn)
    requires Sane(c)
    ensures Sane(Refused(c)) && |ResponseBytes(Refused(c).response)| <= Estimate(Refused(c).response)
    ensures var r := c.response.(statusCode := 400, statusText := Ascii("Bad Request"));
            Refused(c) == c.(phase := Errored, response := r, out := c.out + ResponseBytes(r))
  {
    EstimateSuffices(Refused(c).response);
    hide ResponseBytes, Estimate;
  }

  lemma BodyWanted(c: Conn)
    requires Sane(c) && c.phase == ExpectBody
    ensures |c.request.body| < c.request.contentLength
  {
  }

  lemma EstimateIs(r: Response)
    ensures var names := OrderedKeys.Sorted(r.headers.Keys);
            (forall n | n in names :: n in r.headers) &&
            Estimate(r) == 1024 + HeaderRoom(r.headers, names) + |r.body| + 64
  {
  }
}
