/** The HTTP/2 side of a connection: frames are cut out of a buffered byte stream and dispatched.

    The TLS layer is an identity pipe: `out` collects what is written to it, and what it delivers is the argument
    of `OnRead`.  Every method is tied to the specification functions of Http2Streams. */
module Http2Handlers {
  import opened Bytes
  import opened Basics
  import opened Buffers
  import opened HpackPrimitives
  import opened Http2Frames
  import opened Http2Streams
  import opened Tls
  import Hpack

  lemma FrameSizePositive()
    ensures LOCAL_MAX_FRAME_SIZE > 0
  {
  }

  lemma FirstFragment(o: seq<byte>, block: seq<byte>, max: nat, id: nat, endStream: bool)
    requires max > 0
    ensures var flags := Http2Handler.HeaderFlags(endStream);
            o + FramesBytes(HeaderFrames(block, max, id, endStream)) ==
            if |block| <= max then o + FrameBytes(Frame(HEADERS, flags, id, block))
            else o + FrameBytes(Frame(HEADERS, flags - END_HEADERS, id, block[..max])) +
                 FramesBytes(Continuations(block[max..], max, id))
  {
    HeaderFramesUnfold(block, max, id, endStream);
    hide HeaderFrames, Continuations, FramesBytes, FrameBytes;
    var flags := Http2Handler.HeaderFlags(endStream);
    if |block| <= max {
      FramesBytesCons(Frame(HEADERS, flags, id, block), []);
    } else {
      var f, rest := Frame(HEADERS, flags - END_HEADERS, id, block[..max]), Continuations(block[max..], max, id);
      FramesBytesCons(f, rest);
      Associate(o, FrameBytes(f), FramesBytes(rest));
    }
  }

  lemma NextFragment(o: seq<byte>, block: seq<byte>, offset: nat, max: nat, id: nat)
    requires max > 0 && offset + max < |block|
    ensures o + FramesBytes(Continuations(block[offset..], max, id)) ==
            o + FrameBytes(Frame(CONTINUATION, 0, id, block[offset..offset + max])) +
            FramesBytes(Continuations(block[offset + max..], max, id))
  {
    ContinuationsUnfold(block[offset..], max, id);
    hide Continuations, FramesBytes, FrameBytes;
    assert block[offset..][..max] == block[offset..offset + max];
    assert block[offset..][max..] == block[offset + max..];
    var f := Frame(CONTINUATION, 0, id, block[offset..offset + max]);
    var rest := Continuations(block[offset + max..], max, id);
    FramesBytesCons(f, rest);
    Associate(o, FrameBytes(f), FramesBytes(rest));
  }

  lemma LastFragment(o: seq<byte>, block: seq<byte>, offset: nat, max: nat, id: nat)
    requires max > 0 && offset <= |block| <= offset + max
    ensures o + FramesBytes(Continuations(block[offset..], max, id)) ==
            o + FrameBytes(Frame(CONTINUATION, END_HEADERS, id, block[offset..]))
  {
    ContinuationsUnfold(block[offset..], max, id);
    hide Continuations, FramesBytes, FrameBytes;
    FramesBytesCons(Frame(CONTINUATION, END_HEADERS, id, block[offset..]), []);
  }

  lemma NothingBefore(s: seq<byte>)
    ensures [] + s == s
  {
  }

  const DEFAULT_SETTINGS: Settings := Settings(4096, 0, 100, 65535, 16384, 0xFFFF_FFFF)

  // header_table_size, enable_push, max_concurrent_streams, initial_window_size, max_frame_size
  function LocalParameters(): seq<(nat, nat)> {
    [(1, 4096), (2, 0), (3, 100), (4, 65535), (5, LOCAL_MAX_FRAME_SIZE)]
  }

  function SettingsBytes(params: seq<(nat, nat)>): seq<byte> {
    if params == [] then []
    else SettingsBytes(params[..|params| - 1]) +
         BigEndian(params[|params| - 1].0, 2) + BigEndian(params[|params| - 1].1, 4)
  }

  class Http2Handler {
    const attached: bool  // a Connection has been set
    const plaintext: Buffer
    var streams: map<nat, Stream>
    var settings: Settings
    var ackReceived: bool
    var ackSent: bool
    var out: seq<byte>

    ghost function State(): Conn
      reads this
    {
      Conn(streams, settings, ackReceived, ackSent, out)
    }

    // init(): nothing known yet, and our own settings announced.
    constructor (attached: bool)
      ensures plaintext.Valid() && plaintext.Unread() == [] && fresh(plaintext) && this.attached == attached
      ensures State() == Conn(map[], DEFAULT_SETTINGS, false, false,
                              FrameBytes(Frame(SETTINGS, 0, 0, SettingsBytes(LocalParameters()))))
    {
      hide FrameBytes, SettingsBytes, LocalParameters;
      this.attached := attached;
      plaintext := new Buffer(DEFAULT_INITIAL_CAPACITY);
      streams, settings := map[], DEFAULT_SETTINGS;
      ackReceived, ackSent := false, false;
      out := [];
      new;
      SendSettings();
      NothingBefore(out);
    }

    // ---------------------------------------------------------------- writing frames

    method WriteFrame(kind: byte, streamId: nat, flags: byte, payload: seq<byte>)
      requires streamId < 0x8000_0000
      modifies this`out
      ensures out == old(out) + FrameBytes(Frame(kind, flags, streamId, payload))
    {
      var len := |payload|;
      var header: seq<byte> := [
        len / 65536 % 256, len / 256 % 256, len % 256, kind, flags,
        streamId / 16777216 % 128, streamId / 65536 % 256, streamId / 256 % 256, streamId % 256
      ];
      HeaderOctets(Frame(kind, flags, streamId, payload));
      assert header == FrameHeader(Frame(kind, flags, streamId, payload));
      out := out + header;
      if len > 0 {
        out := out + payload;
      }
    }

    method SendSettings()
      modifies this`out
      ensures out == old(out) + FrameBytes(Frame(SETTINGS, 0, 0, SettingsBytes(LocalParameters())))
    {
      var params := LocalParameters();
      var payload := [];
      for i := 0 to |params|
        invariant payload == SettingsBytes(params[..i])
      {
        assert params[..i + 1][..i] == params[..i];
        payload := payload + BigEndian(params[i].0, 2) + BigEndian(params[i].1, 4);
      }
      assert params[..|params|] == params;
      WriteFrame(SETTINGS, 0, 0, payload);
    }

    static function HeaderFlags(endStream: bool): (f: byte)
      ensures f >= END_HEADERS && f - END_HEADERS == if endStream then END_STREAM else 0
    {
      if endStream then END_HEADERS + END_STREAM else END_HEADERS
    }

    // HEADERS, then CONTINUATION frames as long as the block exceeds the frame size.
    method SendHeadersFrame(streamId: nat, headers: Hpack.Headers, endStream: bool)
      requires streamId < 0x8000_0000
      modifies this`out
      ensures out == old(out) +
              FramesBytes(HeaderFrames(Hpack.BlockBytes(headers), LOCAL_MAX_FRAME_SIZE, streamId, endStream))
    {
      hide *;
      var payload := Hpack.Encode(headers);
      var max := LOCAL_MAX_FRAME_SIZE;
      FrameSizePositive();
      var flags, firstFlags := HeaderFlags(endStream), HeaderFlags(endStream) - END_HEADERS;
      ghost var goal := out + FramesBytes(HeaderFrames(payload, max, streamId, endStream));
      FirstFragment(out, payload, max, streamId, endStream);
      if |payload| <= max {
        WriteFrame(HEADERS, streamId, flags, payload);
        return;
      }
      WriteFrame(HEADERS, streamId, firstFlags, payload[..max]);
      var offset := max;
      while offset + max < |payload|
        invariant max <= offset < |payload|
        invariant out + FramesBytes(Continuations(payload[offset..], max, streamId)) == goal
        decreases |payload| - offset
      {
        NextFragment(out, payload, offset, max, streamId);
        WriteFrame(CONTINUATION, streamId, 0, payload[offset..offset + max]);
        offset := offset + max;
      }
      LastFragment(out, payload, offset, max, streamId);
      WriteFrame(CONTINUATION, streamId, END_HEADERS, payload[offset..]);
    }

    method SendDataFrame(streamId: nat, data: seq<byte>, endStream: bool)
      requires streamId < 0x8000_0000
      modifies this`out
      ensures out == old(out) + FramesBytes(DataFrames(data, LOCAL_MAX_FRAME_SIZE, streamId, endStream))
    {
      hide FrameBytes;
      var max := LOCAL_MAX_FRAME_SIZE;
      var offset := 0;
      ghost var goal := out + FramesBytes(DataFrames(data, max, streamId, endStream));
      assert data[0..] == data;
      while offset < |data|
        invariant offset <= |data|
        invariant out + FramesBytes(DataFrames(data[offset..], max, streamId, endStream)) == goal
        decreases |data| - offset
      {
        var n := Min(|data| - offset, max);
        var last := offset + n == |data|;
        var flags: byte := if last && endStream then END_STREAM else 0;
        assert data[offset..][..n] == data[offset..offset + n] && data[offset..][n..] == data[offset + n..];
        FramesBytesCons(Frame(DATA, flags, streamId, data[offset..offset + n]),
                        DataFrames(data[offset + n..], max, streamId, endStream));
        WriteFrame(DATA, streamId, flags, data[offset..offset + n]);
        offset := offset + n;
      }
      assert data[offset..] == [];
    }

    method SendSettingsAck()
      modifies this`out, this`ackSent
      ensures ackSent
      ensures out == if old(ackSent) then old(out) else old(out) + FrameBytes(Frame(SETTINGS, ACK, 0, []))
    {
      if !ackSent {
        ackSent := true;
        WriteFrame(SETTINGS, 0, ACK, []);
      }
    }

    // Answers a request: the body is echoed, or "OK" is sent.
    method CompleteRequest(streamId: nat) returns (ret: Ret)
      requires streamId in streams && streamId < 0x8000_0000
      modifies this`out
      ensures ret == if attached then Fine else Failed
      ensures out == if attached then old(out) + FramesBytes(Response(streamId, streams[streamId].body)) else old(out)
    {
      hide *;
      if !attached { return Failed; }
      var body := streams[streamId].body;
      FrameSizePositive();
      ResponseOctets(streamId, body);
      ghost var before := out;
      SendHeadersFrame(streamId, OkHeaders(), false);
      ghost var head := FramesBytes(HeaderFrames(Hpack.BlockBytes(OkHeaders()), LOCAL_MAX_FRAME_SIZE, streamId, false));
      assert out == before + head;
      if body != [] {
        SendDataFrame(streamId, body, true);
      } else {
        SendDataFrame(streamId, Ascii("OK"), true);
      }
      ghost var reply := if body != [] then body else Ascii("OK");
      ghost var tail := FramesBytes(DataFrames(reply, LOCAL_MAX_FRAME_SIZE, streamId, true));
      assert out == before + head + tail;
      Associate(before, head, tail);
      ret := Fine;
    }

    // ---------------------------------------------------------------- handling frames

    method HandleSettings(payload: seq<byte>)
      modifies this
      ensures (State(), Fine) == Handle(old(State()), Frame(SETTINGS, 0, 0, payload), attached)
    {
      if |payload| == 0 {
        ackReceived := true;
        return;
      }
      var pos := 0;
      ghost var goal := ApplySettings(settings, payload);
      assert payload[0..] == payload;
      while pos + 6 <= |payload|
        invariant pos <= |payload|
        invariant ApplySettings(settings, payload[pos..]) == goal
        invariant streams == old(streams) && out == old(out)
        invariant ackReceived == old(ackReceived) && ackSent == old(ackSent)
        decreases |payload| - pos
      {
        ghost var rest := payload[pos..];
        var id := FromBigEndian(payload[pos..pos + 2]);
        var value := FromBigEndian(payload[pos + 2..pos + 6]);
        assert rest[..2] == payload[pos..pos + 2] && rest[2..6] == payload[pos + 2..pos + 6];
        assert rest[6..] == payload[pos + 6..];
        settings := ApplySetting(settings, id, value);
        pos := pos + 6;
      }
      SendSettingsAck();
    }

    method HandleHeaders(streamId: nat, payload: seq<byte>, flags: byte) returns (ret: Ret)
      requires streamId < 0x8000_0000
      modifies this`streams, this`out
      ensures (State(), ret) == Handle(old(State()), Frame(HEADERS, flags, streamId, payload), attached)
    {
      hide Response, FramesBytes, Hpack.DecodeFrom;
      var stream := if streamId in streams then streams[streamId] else FRESH;
      if stream.phase == Idle { stream := stream.(phase := Open); }
      streams := streams[streamId := stream];
      var st, headers := Hpack.Decode(payload);
      if st == Invalid { return Failed; }
      if st == HpackPrimitives.Undefined { return Http2Streams.Undefined; }
      stream := stream.(headers := stream.headers + headers);
      if HasEndHeaders(flags) && HasEndStream(flags) { stream := stream.(phase := HalfClosedRemote); }
      streams := streams[streamId := stream];
      assert streams == old(streams)[streamId := stream];
      ret := Fine;
      if HasEndHeaders(flags) && HasEndStream(flags) {
        ret := CompleteRequest(streamId);
      }
    }

    method HandleData(streamId: nat, payload: seq<byte>, flags: byte) returns (ret: Ret)
      requires streamId < 0x8000_0000
      modifies this`streams, this`out
      ensures (State(), ret) == Handle(old(State()), Frame(DATA, flags, streamId, payload), attached)
    {
      hide Response, FramesBytes;
      if streamId !in streams { return Failed; }
      var stream := streams[streamId];
      if |payload| > 0 { stream := stream.(body := stream.body + payload); }
      assert stream.body == streams[streamId].body + payload;
      if HasEndStream(flags) { stream := stream.(phase := HalfClosedRemote); }
      streams := streams[streamId := stream];
      ret := Fine;
      if HasEndStream(flags) {
        ret := CompleteRequest(streamId);
      }
    }

    method HandleContinuation(streamId: nat, payload: seq<byte>, flags: byte) returns (ret: Ret)
      requires streamId < 0x8000_0000
      modifies this`streams, this`out
      ensures (State(), ret) == Handle(old(State()), Frame(CONTINUATION, flags, streamId, payload), attached)
    {
      hide Response, FramesBytes, Hpack.DecodeFrom;
      if streamId !in streams { return Failed; }
      var stream := streams[streamId];
      assert streams[streamId := stream] == streams;
      var st, headers := Hpack.Decode(payload);
      if st == Invalid { return Failed; }
      if st == HpackPrimitives.Undefined { return Http2Streams.Undefined; }
      stream := stream.(headers := stream.headers + headers);
      streams := streams[streamId := stream];
      ret := Fine;
      if HasEndHeaders(flags) && stream.phase == HalfClosedRemote {
        ret := CompleteRequest(streamId);
      }
    }

    method HandleWindowUpdate(streamId: nat, increment: nat) returns (ret: Ret)
      requires increment <= MAX_WINDOW
      modifies this`streams
      ensures ret == if increment == 0 then Failed else Fine
      ensures streams == if increment == 0 then old(streams) else AllWidened(old(streams), streamId, increment)
    {
      if increment == 0 { return Failed; }
      if streamId == 0 {
        var pending := streams.Keys;
        while pending != {}
          invariant pending <= streams.Keys == old(streams).Keys
          invariant forall id | id in streams ::
            streams[id] == if id in pending then old(streams)[id] else Widened(old(streams)[id], increment)
          decreases pending
        {
          var id :| id in pending;
          streams := streams[id := Widened(streams[id], increment)];
          pending := pending - {id};
        }
      } else if streamId in streams {
        streams := streams[streamId := Widened(streams[streamId], increment)];
      }
      ret := Fine;
    }

    // Stream 0 stands for all streams.
    static function AllWidened(streams: map<nat, Stream>, streamId: nat, increment: nat): map<nat, Stream> {
      map id | id in streams ::
        if streamId == 0 || id == streamId then Widened(streams[id], increment) else streams[id]
    }

    method HandleFrame(f: Frame) returns (ret: Ret)
      requires f.streamId < 0x8000_0000
      modifies this
      ensures (State(), ret) == Handle(old(State()), f, attached)
    {
      ghost var c := State();
      assert State() == c;
      hide *;
      ret := Fine;
      if f.kind == SETTINGS {
        SettingsHandled(c, f, attached);
        HandleSettings(f.payload);
      } else if f.kind == HEADERS {
        ret := HandleHeaders(f.streamId, f.payload, f.flags);
      } else if f.kind == DATA {
        ret := HandleData(f.streamId, f.payload, f.flags);
      } else if f.kind == CONTINUATION {
        ret := HandleContinuation(f.streamId, f.payload, f.flags);
      } else if f.kind == WINDOW_UPDATE {
        WindowHandled(c, f, attached);
        if |f.payload| >= 4 {
          ret := HandleWindowUpdate(f.streamId, FromBigEndian(f.payload[..4]) % 0x8000_0000);
        }
      } else if f.kind == RST_STREAM {
        RstHandled(c, f, attached);
        if |f.payload| >= 4 && f.streamId in streams {
          streams := streams[f.streamId := streams[f.streamId].(phase := Closed)];
        }
      } else if f.kind == PING {
        PingHandled(c, f, attached);
        if |f.payload| >= 8 {
          WriteFrame(PING, 0, ACK, f.payload[..8]);
        }
      } else {
        OthersIgnored(c, f, attached);
      }
    }

    // ---------------------------------------------------------------- reading

    // None: no complete frame is buffered.  A frame is consumed whatever its handling returns.
    method ReadFrame() returns (ret: Option<Ret>)
      requires plaintext.Valid()
      modifies this, plaintext`readIdx
      ensures plaintext.Valid()
      ensures ret.Some? <==> FirstFrame(old(plaintext.Unread())).Some?
      ensures ret.None? ==> State() == old(State()) && plaintext.Unread() == old(plaintext.Unread())
      ensures ret.Some? ==>
                var first := FirstFrame(old(plaintext.Unread())).value;
                (State(), ret.value) == Handle(old(State()), first.0, attached) && plaintext.Unread() == first.1
    {
      hide Handle, FirstFrame, FromBigEndian, PayloadLength;
      ghost var s := plaintext.Unread();
      var readable := plaintext.ReadableBytes();
      FirstFrameIs(s);
      if readable < FRAME_HEADER_SIZE { return None; }
      var data := plaintext.Peek(FRAME_HEADER_SIZE);
      HeaderFields(s, data);
      var length := data[0] as int * 65536 + data[1] as int * 256 + data[2] as int;
      var streamId := (data[5] as int * 16777216 + data[6] as int * 65536 + data[7] as int * 256 + data[8] as int)
                      % 0x8000_0000;
      if readable < FRAME_HEADER_SIZE + length { return None; }
      plaintext.Skip(FRAME_HEADER_SIZE);
      var payload := plaintext.Peek(length);
      FrameCut(s, FRAME_HEADER_SIZE, length);
      var r := HandleFrame(Frame(data[3], data[4], streamId, payload));
      plaintext.Skip(length);
      ret := Some(r);
    }

    // All buffered frames in order, until one fails or only an incomplete frame is left.
    method ReadFrames() returns (ret: Ret)
      requires plaintext.Valid()
      modifies this, plaintext`readIdx
      ensures plaintext.Valid()
      ensures var s := old(plaintext.Unread());
              var r := HandleAll(old(State()), Frames(s), attached);
              State() == r.0 && ret == r.1 && plaintext.Unread() == After(s, r.2) &&
              (ret == Fine ==> plaintext.Unread() == Residue(s))
    {
      hide *;
      ghost var s, c := plaintext.Unread(), State();
      ghost var taken := 0;
      ReachedStart(c, s, attached);
      while true
        invariant plaintext.Valid()
        invariant Reached(c, s, State(), plaintext.Unread(), taken, attached)
        decreases |plaintext.Unread()|
      {
        ghost var c1, s1 := State(), plaintext.Unread();
        var r := ReadFrame();
        if r == None {
          ReachedEnd(c, s, c1, s1, taken, attached);
          return Fine;
        }
        ReachedNext(c, s, c1, s1, taken, attached);
        taken := taken + 1;
        if r.value != Fine { return r.value; }
      }
    }

    method OnRead(input: TlsRead) returns (ret: Ret)
      requires plaintext.Valid()
      requires input.Delivered? ==> |input.bytes| <= TEMP_BUFFER_SIZE
      modifies this, plaintext
      ensures plaintext.Valid()
      ensures match input
              case Again => ret == Fine && State() == old(State()) && plaintext.Unread() == old(plaintext.Unread())
              case TlsFailed =>
                ret == Failed && State() == old(State()) && plaintext.Unread() == old(plaintext.Unread())
              case Delivered(bytes) =>
                var s := old(plaintext.Unread()) + bytes;
                if |s| > MAX_CAPACITY then ret == Ret.Undefined
                else
                  var r := HandleAll(old(State()), Frames(s), attached);
                  State() == r.0 && ret == r.1 && plaintext.Unread() == After(s, r.2) &&
                  (ret == Fine ==>
                     plaintext.Unread() == Residue(s) && |plaintext.Unread()| < Pow256(3) + FRAME_HEADER_SIZE)
    {
      if input == Again { return Fine; }
      if input == TlsFailed { return Failed; }
      if |input.bytes| > 0 {
        var n, defined := plaintext.Write(input.bytes);
        if !defined { return Ret.Undefined; }
      }
      ghost var s := old(plaintext.Unread()) + input.bytes;
      assert plaintext.Unread() == s;
      ResidueIncomplete(s);
      hide HandleAll, Frames, Residue, After, Pow256;
      ret := ReadFrames();
    }
  }

  // ---------------------------------------------------------------- what Handle comes to, kind by kind

  lemma ResponseOctets(id: nat, body: seq<byte>)
    ensures FramesBytes(Response(id, body)) ==
            FramesBytes(HeaderFrames(Hpack.BlockBytes(OkHeaders()), LOCAL_MAX_FRAME_SIZE, id, false)) +
            FramesBytes(DataFrames(if body != [] then body else Ascii("OK"), LOCAL_MAX_FRAME_SIZE, id, true))
  {
    var head := HeaderFrames(Hpack.BlockBytes(OkHeaders()), LOCAL_MAX_FRAME_SIZE, id, false);
    hide FramesBytes, HeaderFrames, DataFrames, OkHeaders, Hpack.BlockBytes, Ascii;
    FramesBytesJoin(head, DataFrames(ReplyBody(body), LOCAL_MAX_FRAME_SIZE, id, true));
  }

  lemma SettingsHandled(c: Conn, f: Frame, attached: bool)
    requires f.kind == SETTINGS
    ensures Handle(c, f, attached) == Handle(c, Frame(SETTINGS, 0, 0, f.payload), attached)
  {
  }

  lemma WindowHandled(c: Conn, f: Frame, attached: bool)
    requires f.kind == WINDOW_UPDATE
    ensures |f.payload| < 4 ==> Handle(c, f, attached) == (c, Fine)
    ensures |f.payload| >= 4 ==>
              var n := FromBigEndian(f.payload[..4]) % 0x8000_0000;
              Handle(c, f, attached) ==
                if n == 0 then (c, Failed)
                else (c.(streams := Http2Handler.AllWidened(c.streams, f.streamId, n)), Fine)
  {
    hide FromBigEndian, HeadersEffect, ContinuationEffect, DataEffect, Response, FramesBytes;
    var r := Handle(c, f, attached).0;
    if |f.payload| < 4 {
      assert r.streams == c.streams;
    } else {
      var n := FromBigEndian(f.payload[..4]) % 0x8000_0000;
      assert Increment(f) == n;
      assert r.streams == if n == 0 then c.streams else Http2Handler.AllWidened(c.streams, f.streamId, n);
    }
  }

  lemma RstHandled(c: Conn, f: Frame, attached: bool)
    requires f.kind == RST_STREAM
    ensures Handle(c, f, attached) ==
            (if |f.payload| >= 4 && f.streamId in c.streams
             then c.(streams := c.streams[f.streamId := c.streams[f.streamId].(phase := Closed)]) else c, Fine)
  {
    hide FromBigEndian, HeadersEffect, ContinuationEffect, DataEffect, Response, FramesBytes;
    if f.streamId in c.streams { assert c.streams[f.streamId := c.streams[f.streamId]] == c.streams; }
  }

  lemma PingHandled(c: Conn, f: Frame, attached: bool)
    requires f.kind == PING
    ensures Handle(c, f, attached) ==
            (if |f.payload| >= 8 then c.(out := c.out + FrameBytes(Frame(PING, ACK, 0, f.payload[..8]))) else c, Fine)
  {
    hide FrameBytes;
  }

  lemma OthersIgnored(c: Conn, f: Frame, attached: bool)
    requires f.kind !in {SETTINGS, HEADERS, DATA, CONTINUATION, WINDOW_UPDATE, RST_STREAM, PING}
    ensures Handle(c, f, attached) == (c, Fine)
  {
    hide FromBigEndian, HeadersEffect, ContinuationEffect, DataEffect, Response, FramesBytes;
    if f.streamId in c.streams { assert c.streams[f.streamId := c.streams[f.streamId]] == c.streams; }
  }

  // ---------------------------------------------------------------- octets of the frame header

  lemma HeaderOctets(f: Frame)
    requires f.streamId < 0x8000_0000
    ensures var n, id := |f.payload|, f.streamId;
            FrameHeader(f) == [n / 65536 % 256, n / 256 % 256, n % 256, f.kind, f.flags,
                               id / 16777216 % 128, id / 65536 % 256, id / 256 % 256, id % 256]
  {
    var n, id := |f.payload|, f.streamId;
    BigEndian3(n);
    BigEndian4(id);
  }

  lemma BigEndian3(n: nat)
    ensures BigEndian(n, 3) == [n / 65536 % 256, n / 256 % 256, n % 256]
  {
    assert BigEndian(n / 256 / 256 / 256, 0) == [];
    assert BigEndian(n / 256 / 256, 1) == [n / 256 / 256 % 256];
    assert BigEndian(n / 256, 2) == [n / 256 / 256 % 256, n / 256 % 256];
  }

  lemma BigEndian4(n: nat)
    requires n < 0x8000_0000
    ensures BigEndian(n, 4) == [n / 16777216 % 128, n / 65536 % 256, n / 256 % 256, n % 256]
  {
    var m := n / 256;
    assert BigEndian(n, 4) == BigEndian(m, 3) + [n % 256];
    BigEndian3(m);
    hide BigEndian;
    TopOctet(n);
    NextOctet(n);
  }

  lemma TopOctet(n: nat)
    requires n < 0x8000_0000
    ensures n / 256 / 65536 % 256 == n / 16777216 % 128
  {
    var q, r := n / 16777216, n % 16777216;
    assert n == q * 16777216 + r && n / 256 == q * 65536 + r / 256;
    assert n / 256 / 65536 == q;
  }

  lemma NextOctet(n: nat)
    ensures n / 256 / 256 == n / 65536
  {
    var q, r := n / 65536, n % 65536;
    assert n == q * 65536 + r && n / 256 == q * 256 + r / 256;
  }

  lemma Octets3(s: seq<byte>)
    requires |s| == 3
    ensures FromBigEndian(s) == s[0] as int * 65536 + s[1] as int * 256 + s[2] as int
  {
    assert s[..3] == s && s[..2][..1][..0] == [] && s[..2][..1] == [s[0]] && s[..2] == [s[0], s[1]];
    assert FromBigEndian([s[0]]) == s[0];
    assert FromBigEndian([s[0], s[1]]) == s[0] as int * 256 + s[1] as int;
  }

  // The fields of a frame header, read octet by octet.
  lemma HeaderFields(s: seq<byte>, data: seq<byte>)
    requires |s| >= FRAME_HEADER_SIZE && data == s[..FRAME_HEADER_SIZE]
    ensures PayloadLength(s) == data[0] as int * 65536 + data[1] as int * 256 + data[2] as int
    ensures FromBigEndian(s[5..9]) ==
            data[5] as int * 16777216 + data[6] as int * 65536 + data[7] as int * 256 + data[8] as int
    ensures data[3] == s[3] && data[4] == s[4]
  {
    assert s[..3] == data[..3] && s[5..9] == data[5..9];
    Octets3(data[..3]);
    Octets4(data[5..9]);
    hide FromBigEndian;
  }

  lemma FirstFrameIs(s: seq<byte>)
    ensures |s| < FRAME_HEADER_SIZE ==> FirstFrame(s) == None
    ensures |s| >= FRAME_HEADER_SIZE ==>
              var n := FRAME_HEADER_SIZE + PayloadLength(s);
              FirstFrame(s) ==
              if |s| < n then None
              else Some((Frame(s[3], s[4], FromBigEndian(s[5..9]) % 0x8000_0000, s[9..n]), s[n..]))
  {
    hide PayloadLength, FromBigEndian;
  }

  lemma FrameCut(s: seq<byte>, head: nat, length: nat)
    requires head + length <= |s|
    ensures s[head..][..length] == s[head..head + length] && s[head..][length..] == s[head + length..]
  {
  }

  lemma Octets4(s: seq<byte>)
    requires |s| == 4
    ensures FromBigEndian(s) ==
            s[0] as int * 16777216 + s[1] as int * 65536 + s[2] as int * 256 + s[3] as int
  {
    Octets3(s[..3]);
  }

  // ---------------------------------------------------------------- progress through the stream

  // The frames of a stream are handled one by one.
  lemma TakeOne(c: Conn, s: seq<byte>, attached: bool)
    ensures FirstFrame(s).None? ==> HandleAll(c, Frames(s), attached) == (c, Fine, 0)
    ensures FirstFrame(s).Some? ==>
              |FirstFrame(s).value.1| < |s| &&
              var h := Handle(c, FirstFrame(s).value.0, attached);
              HandleAll(c, Frames(s), attached) ==
                if h.1 != Fine then (h.0, h.1, 1)
                else More(HandleAll(h.0, Frames(FirstFrame(s).value.1), attached), 1)
  {
    hide Handle;
    if FirstFrame(s).Some? {
      assert Frames(s)[1..] == Frames(FirstFrame(s).value.1);
    }
  }

  // `n` frames had been taken before.
  function More(r: (Conn, Ret, nat), n: nat): (Conn, Ret, nat) {
    (r.0, r.1, r.2 + n)
  }

  // `taken` frames into the stream s, what is left is s1 and the connection has become c1.
  ghost predicate Reached(c: Conn, s: seq<byte>, c1: Conn, s1: seq<byte>, taken: nat, attached: bool) {
    HandleAll(c, Frames(s), attached) == More(HandleAll(c1, Frames(s1), attached), taken) && After(s, taken) == s1
  }

  lemma ReachedStart(c: Conn, s: seq<byte>, attached: bool)
    ensures Reached(c, s, c, s, 0, attached)
  {
    hide HandleAll, Frames;
  }

  lemma ReachedNext(c: Conn, s: seq<byte>, c1: Conn, s1: seq<byte>, taken: nat, attached: bool)
    requires Reached(c, s, c1, s1, taken, attached) && FirstFrame(s1).Some?
    ensures var (first, h) := (FirstFrame(s1).value, Handle(c1, FirstFrame(s1).value.0, attached));
            |first.1| < |s1| &&
            (h.1 == Fine ==> Reached(c, s, h.0, first.1, taken + 1, attached)) &&
            (h.1 != Fine ==>
               HandleAll(c, Frames(s), attached) == (h.0, h.1, taken + 1) && After(s, taken + 1) == first.1)
  {
    hide HandleAll, Frames, FirstFrame, After, Handle;
    TakeOne(c1, s1, attached);
    AfterOneMore(s, taken);
  }

  lemma ReachedEnd(c: Conn, s: seq<byte>, c1: Conn, s1: seq<byte>, taken: nat, attached: bool)
    requires Reached(c, s, c1, s1, taken, attached) && FirstFrame(s1).None?
    ensures HandleAll(c, Frames(s), attached) == (c1, Fine, taken) && After(s, taken) == s1 == Residue(s)
  {
    hide HandleAll, Frames, FirstFrame, After, Handle;
    TakeOne(c1, s1, attached);
    AfterOneMore(s, taken);
  }

  lemma {:induction false} AfterOneMore(s: seq<byte>, n: nat)
    ensures FirstFrame(After(s, n)).Some? ==> After(s, n + 1) == FirstFrame(After(s, n)).value.1
    ensures FirstFrame(After(s, n)).None? ==> Residue(s) == After(s, n)
    decreases n
  {
    hide FirstFrame;
    if n > 0 && FirstFrame(s).Some? { AfterOneMore(FirstFrame(s).value.1, n - 1); }
  }
}
