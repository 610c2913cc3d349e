/** What each HTTP/2 frame does to the connection: the streams, the settings, and the octets sent back.
    A frame touches its own stream only, except WINDOW_UPDATE on stream 0. */
module Http2Streams {
  import opened Bytes
  import opened Basics
  import opened Buffers
  import opened Http2Frames
  import Hpack

  const LOCAL_MAX_FRAME_SIZE: nat := 16384
  const INITIAL_WINDOW: nat := 65535
  const MAX_WINDOW: nat := 0x7FFF_FFFF

  datatype Phase = Idle | Open | HalfClosedLocal | HalfClosedRemote | Closed

  datatype Stream = Stream(phase: Phase, headers: Hpack.Headers, body: seq<byte>, sendWindow: int)

  const FRESH: Stream := Stream(Idle, map[], [], INITIAL_WINDOW)

  datatype Settings = Settings(headerTableSize: nat, enablePush: nat, maxConcurrentStreams: nat,
                               initialWindowSize: nat, maxFrameSize: nat, maxHeaderListSize: nat)

  // `out` is everything written to the TLS layer so far.
  datatype Conn = Conn(streams: map<nat, Stream>, settings: Settings, ackReceived: bool, ackSent: bool, out: seq<byte>)

  // `Undefined`: the original's behaviour is not defined, because a header fragment holds an integer that the decoder
  // shifts too far, or because the buffer is written beyond its end.
  datatype Ret = Fine | Failed | Undefined

  // ---------------------------------------------------------------- one stream

  // What a frame does to a stream: its new state (None: still absent), the return code, and whether the
  // request is complete and gets its answer.
  datatype Effect = Effect(stream: Option<Stream>, ret: Ret, answered: bool)

  // The answer needs a connection to be attached.
  function Completed(st: Stream, attached: bool): Effect {
    Effect(Some(st), if attached then Fine else Failed, attached)
  }

  function HeadersEffect(s: Option<Stream>, f: Frame, attached: bool): Effect {
    var st := if s.Some? then s.value else FRESH;
    var active := if st.phase == Idle then st.(phase := Open) else st;
    match Hpack.DecodeFrom(f.payload, map[])
    case DecodeInvalid => Effect(Some(active), Failed, false)
    case DecodeUndefined => Effect(Some(active), Undefined, false)
    case Decoded(h) =>
      var merged := active.(headers := active.headers + h);
      if HasEndHeaders(f.flags) && HasEndStream(f.flags) then
        Completed(merged.(phase := HalfClosedRemote), attached)
      else Effect(Some(merged), Fine, false)
  }

  function DataEffect(s: Option<Stream>, f: Frame, attached: bool): Effect {
    if s.None? then Effect(None, Failed, false)
    else
      var st := s.value.(body := s.value.body + f.payload);
      if HasEndStream(f.flags) then Completed(st.(phase := HalfClosedRemote), attached)
      else Effect(Some(st), Fine, false)
  }

  function ContinuationEffect(s: Option<Stream>, f: Frame, attached: bool): Effect {
    if s.None? then Effect(None, Failed, false)
    else
      match Hpack.DecodeFrom(f.payload, map[])
      case DecodeInvalid => Effect(s, Failed, false)
      case DecodeUndefined => Effect(s, Undefined, false)
      case Decoded(h) =>
        var merged := s.value.(headers := s.value.headers + h);
        if HasEndHeaders(f.flags) && merged.phase == HalfClosedRemote then Completed(merged, attached)
        else Effect(Some(merged), Fine, false)
  }

  function RstEffect(s: Option<Stream>, f: Frame): Effect {
    Effect(if s.Some? && |f.payload| >= 4 then Some(s.value.(phase := Closed)) else s, Fine, false)
  }

  // The window grows, up to its maximum.
  function Widened(st: Stream, increment: nat): Stream {
    st.(sendWindow := if st.sendWindow > MAX_WINDOW - increment then MAX_WINDOW else st.sendWindow + increment)
  }

  function Increment(f: Frame): nat
    requires |f.payload| >= 4
  {
    FromBigEndian(f.payload[..4]) % 0x8000_0000
  }

  // None: the frame is too short and is ignored.
  function WindowEffect(s: Option<Stream>, f: Frame): Effect {
    if |f.payload| < 4 then Effect(s, Fine, false)
    else if Increment(f) == 0 then Effect(s, Failed, false)
    else Effect(if s.Some? then Some(Widened(s.value, Increment(f))) else s, Fine, false)
  }

  // The effect of a frame on the stream it names, or on any stream for WINDOW_UPDATE 0.
  function EffectOn(s: Option<Stream>, f: Frame, attached: bool): (e: Effect)
    ensures s.Some? || e.answered ==> e.stream.Some?
  {
    if f.kind == HEADERS then HeadersEffect(s, f, attached)
    else if f.kind == DATA then DataEffect(s, f, attached)
    else if f.kind == CONTINUATION then ContinuationEffect(s, f, attached)
    else if f.kind == RST_STREAM then RstEffect(s, f)
    else if f.kind == WINDOW_UPDATE then WindowEffect(s, f)
    else Effect(s, Fine, false)
  }

  // ---------------------------------------------------------------- the connection

  function Lookup(streams: map<nat, Stream>, id: nat): Option<Stream> {
    if id in streams then Some(streams[id]) else None
  }

  function Put(streams: map<nat, Stream>, id: nat, s: Option<Stream>): map<nat, Stream> {
    if s.Some? then streams[id := s.value] else streams
  }

  function OkHeaders(): Hpack.Headers {
    map[Ascii(":status") := Ascii("200"), Ascii("content-type") := Ascii("text/plain")]
  }

  // The body is echoed; a request without one is answered "OK".
  function ReplyBody(body: seq<byte>): seq<byte> {
    if body == [] then Ascii("OK") else body
  }

  function Response(id: nat, body: seq<byte>): seq<Frame> {
    HeaderFrames(Hpack.BlockBytes(OkHeaders()), LOCAL_MAX_FRAME_SIZE, id, false) +
    DataFrames(ReplyBody(body), LOCAL_MAX_FRAME_SIZE, id, true)
  }

  function ApplySetting(s: Settings, id: nat, value: nat): Settings {
    if id == 1 then s.(headerTableSize := value)
    else if id == 2 then s.(enablePush := value)
    else if id == 3 then s.(maxConcurrentStreams := value)
    else if id == 4 then s.(initialWindowSize := value)
    else if id == 5 then s.(maxFrameSize := value)
    else if id == 6 then s.(maxHeaderListSize := value)
    else s
  }

  // Six octets a parameter; a shorter tail is ignored.
  function ApplySettings(s: Settings, payload: seq<byte>): Settings
    decreases |payload|
  {
    if |payload| < 6 then s
    else ApplySettings(ApplySetting(s, FromBigEndian(payload[..2]), FromBigEndian(payload[2..6])), payload[6..])
  }

  function Handle(c: Conn, f: Frame, attached: bool): (Conn, Ret) {
    if f.kind == SETTINGS then
      if f.payload == [] then (c.(ackReceived := true), Fine)
      else
        var c1 := c.(settings := ApplySettings(c.settings, f.payload), ackSent := true);
        (if c.ackSent then c1 else c1.(out := c.out + FrameBytes(Frame(SETTINGS, ACK, 0, []))), Fine)
    else if f.kind == PING then
      (if |f.payload| >= 8 then c.(out := c.out + FrameBytes(Frame(PING, ACK, 0, f.payload[..8]))) else c, Fine)
    else if f.kind == WINDOW_UPDATE && f.streamId == 0 then
      (c.(streams := map id | id in c.streams :: WindowEffect(Some(c.streams[id]), f).stream.value),
       WindowEffect(None, f).ret)
    else
      var e := EffectOn(Lookup(c.streams, f.streamId), f, attached);
      (c.(streams := Put(c.streams, f.streamId, e.stream),
          out := if e.answered then c.out + FramesBytes(Response(f.streamId, e.stream.value.body)) else c.out),
       e.ret)
  }

  // Frames in order, up to and including the first that fails; how many were taken.
  function HandleAll(c: Conn, fs: seq<Frame>, attached: bool): (r: (Conn, Ret, nat))
    ensures r.2 <= |fs| && (r.1 == Fine ==> r.2 == |fs|)
    decreases |fs|
  {
    if fs == [] then (c, Fine, 0)
    else
      var (c1, ret) := Handle(c, fs[0], attached);
      if ret != Fine then (c1, ret, 1)
      else
        var (c2, r, n) := HandleAll(c1, fs[1..], attached);
        (c2, r, n + 1)
  }

  // ---------------------------------------------------------------- isolation

  // The frames that concern a stream.
  predicate Concerns(f: Frame, id: nat) {
    if f.kind == SETTINGS || f.kind == PING then false
    else f.streamId == id || (f.kind == WINDOW_UPDATE && f.streamId == 0)
  }

  function Own(fs: seq<Frame>, id: nat): seq<Frame> {
    if fs == [] then [] else (if Concerns(fs[0], id) then [fs[0]] else []) + Own(fs[1..], id)
  }

  // A stream on its own: its state after its own frames, and whether none of them failed.
  function Solo(s: Option<Stream>, fs: seq<Frame>, attached: bool): (Option<Stream>, bool)
    decreases |fs|
  {
    if fs == [] then (s, true)
    else
      var e := EffectOn(s, fs[0], attached);
      if e.ret != Fine then (e.stream, false) else Solo(e.stream, fs[1..], attached)
  }

  lemma HandleConcerned(c: Conn, f: Frame, attached: bool, id: nat)
    requires Handle(c, f, attached).1 == Fine
    ensures Lookup(Handle(c, f, attached).0.streams, id) ==
            if Concerns(f, id) then EffectOn(Lookup(c.streams, id), f, attached).stream else Lookup(c.streams, id)
    ensures Concerns(f, id) ==> EffectOn(Lookup(c.streams, id), f, attached).ret == Fine
  {
    hide HeadersEffect, ContinuationEffect, Response;
  }

  // In a run without errors a stream ends up exactly as if it had been alone on the connection.
  lemma {:induction false} StreamIsolation(c: Conn, fs: seq<Frame>, attached: bool, id: nat)
    requires HandleAll(c, fs, attached).1 == Fine
    ensures Solo(Lookup(c.streams, id), Own(fs, id), attached) ==
            (Lookup(HandleAll(c, fs, attached).0.streams, id), true)
    decreases |fs|
  {
    hide *;
    if fs == [] {
      NothingHandled(c, attached, id);
    } else {
      HandleFirst(c, fs, attached);
      HandleConcerned(c, fs[0], attached, id);
      StreamIsolation(Handle(c, fs[0], attached).0, fs[1..], attached, id);
      OwnFirst(fs, id);
      SoloFirst(Lookup(c.streams, id), fs[0], Own(fs[1..], id), attached);
    }
  }

  lemma NothingHandled(c: Conn, attached: bool, id: nat)
    ensures HandleAll(c, [], attached) == (c, Fine, 0)
    ensures Solo(Lookup(c.streams, id), Own([], id), attached) == (Lookup(c.streams, id), true)
  {
  }

  lemma HandleFirst(c: Conn, fs: seq<Frame>, attached: bool)
    requires fs != []
    ensures var (r, h) := (HandleAll(c, fs, attached), Handle(c, fs[0], attached));
            if h.1 != Fine then r == (h.0, h.1, 1)
            else r.0 == HandleAll(h.0, fs[1..], attached).0 && r.1 == HandleAll(h.0, fs[1..], attached).1
  {
    hide Handle;
  }

  lemma OwnFirst(fs: seq<Frame>, id: nat)
    requires fs != []
    ensures Own(fs, id) == if Concerns(fs[0], id) then [fs[0]] + Own(fs[1..], id) else Own(fs[1..], id)
  {
    hide Concerns;
  }

  lemma SoloFirst(s: Option<Stream>, f: Frame, fs: seq<Frame>, attached: bool)
    ensures var e := EffectOn(s, f, attached);
            Solo(s, [f] + fs, attached) == if e.ret != Fine then (e.stream, false) else Solo(e.stream, fs, attached)
  {
    hide EffectOn;
    assert ([f] + fs)[1..] == fs;
  }

  // And a run has no errors exactly when none of the streams has one on its own.
  lemma {:induction false} FineWhenAllSolo(c: Conn, fs: seq<Frame>, attached: bool)
    requires forall id: nat :: Solo(Lookup(c.streams, id), Own(fs, id), attached).1
    ensures HandleAll(c, fs, attached).1 == Fine
    decreases |fs|
  {
    if fs != [] {
      var f := fs[0];
      HandleFine(c, fs, attached);
      hide *;
      var c1 := Handle(c, f, attached).0;
      forall id: nat ensures Solo(Lookup(c1.streams, id), Own(fs[1..], id), attached).1 {
        HandleConcerned(c, f, attached, id);
        assert Solo(Lookup(c.streams, id), Own(fs, id), attached).1;
        OwnFirst(fs, id);
        SoloFirst(Lookup(c.streams, id), f, Own(fs[1..], id), attached);
      }
      FineWhenAllSolo(c1, fs[1..], attached);
      HandleFirst(c, fs, attached);
    }
  }

  lemma HandleFine(c: Conn, fs: seq<Frame>, attached: bool)
    requires fs != [] && forall id: nat :: Solo(Lookup(c.streams, id), Own(fs, id), attached).1
    ensures Handle(c, fs[0], attached).1 == Fine
  {
    var f := fs[0];
    OwnEffectDecides(c, f, attached);
    hide Handle, EffectOn, Concerns;
    assert Solo(Lookup(c.streams, f.streamId), Own(fs, f.streamId), attached).1;
    assert Concerns(f, f.streamId) ==> Own(fs, f.streamId)[0] == f;
  }

  lemma OwnEffectDecides(c: Conn, f: Frame, attached: bool)
    ensures (Concerns(f, f.streamId) ==> EffectOn(Lookup(c.streams, f.streamId), f, attached).ret == Fine)
            ==> Handle(c, f, attached).1 == Fine
  {
    hide HeadersEffect, DataEffect, ContinuationEffect, Response;
  }

  // Two runs in which every stream sees the same frames in the same order leave the same streams behind,
  // and one has errors only if the other has.
  lemma ReorderingIrrelevant(c: Conn, fs: seq<Frame>, gs: seq<Frame>, attached: bool)
    requires HandleAll(c, fs, attached).1 == Fine
    requires forall id: nat :: Own(fs, id) == Own(gs, id)
    ensures HandleAll(c, gs, attached).1 == Fine
    ensures HandleAll(c, gs, attached).0.streams == HandleAll(c, fs, attached).0.streams
  {
    hide HandleAll, Solo, Own;
    forall id: nat ensures Solo(Lookup(c.streams, id), Own(gs, id), attached).1 {
      StreamIsolation(c, fs, attached, id);
    }
    FineWhenAllSolo(c, gs, attached);
    var a, b := HandleAll(c, fs, attached).0.streams, HandleAll(c, gs, attached).0.streams;
    forall id: nat ensures Lookup(a, id) == Lookup(b, id) {
      StreamIsolation(c, fs, attached, id);
      StreamIsolation(c, gs, attached, id);
    }
    SameStreams(a, b);
  }

  lemma SameStreams(a: map<nat, Stream>, b: map<nat, Stream>)
    requires forall id: nat :: Lookup(a, id) == Lookup(b, id)
    ensures a == b
  {
    forall id: nat ensures id in a <==> id in b {
      assert Lookup(a, id) == Lookup(b, id);
    }
    forall id: nat | id in a ensures a[id] == b[id] {
      assert Lookup(a, id) == Lookup(b, id);
    }
  }

  // ---------------------------------------------------------------- what a stream holds

  function BodyOf(s: Option<Stream>): seq<byte> {
    if s.Some? then s.value.body else []
  }

  function HeadersOf(s: Option<Stream>): Hpack.Headers {
    if s.Some? then s.value.headers else map[]
  }

  function DataPayloads(fs: seq<Frame>): seq<byte> {
    if fs == [] then [] else (if fs[0].kind == DATA then fs[0].payload else []) + DataPayloads(fs[1..])
  }

  // Each header fragment is decoded by itself and stored over the earlier ones.
  function Fragments(h: Hpack.Headers, fs: seq<Frame>): Hpack.Headers
    decreases |fs|
  {
    if fs == [] then h
    else
      var d := Hpack.DecodeFrom(fs[0].payload, map[]);
      var stores := (fs[0].kind == HEADERS || fs[0].kind == CONTINUATION) && d.Decoded?;
      Fragments(if stores then h + d.headers else h, fs[1..])
  }

  lemma {:induction false} SoloContents(s: Option<Stream>, fs: seq<Frame>, attached: bool)
    requires Solo(s, fs, attached).1
    ensures BodyOf(Solo(s, fs, attached).0) == BodyOf(s) + DataPayloads(fs)
    ensures HeadersOf(Solo(s, fs, attached).0) == Fragments(HeadersOf(s), fs)
    decreases |fs|
  {
    hide *;
    if fs == [] {
      NothingStored(s, attached);
    } else {
      var f, rest := fs[0], fs[1..];
      assert [f] + rest == fs;
      SoloFirst(s, f, rest, attached);
      EffectContents(s, f, attached);
      ContentsCons(HeadersOf(s), fs);
      SoloContents(EffectOn(s, f, attached).stream, rest, attached);
      Associate(BodyOf(s), DataPayloads([f]), DataPayloads(rest));
    }
  }

  lemma NothingStored(s: Option<Stream>, attached: bool)
    ensures Solo(s, [], attached).0 == s && BodyOf(s) == BodyOf(s) + DataPayloads([])
    ensures HeadersOf(s) == Fragments(HeadersOf(s), [])
  {
    assert BodyOf(s) + [] == BodyOf(s);
  }

  lemma ContentsCons(h: Hpack.Headers, fs: seq<Frame>)
    requires fs != []
    ensures DataPayloads(fs) == DataPayloads([fs[0]]) + DataPayloads(fs[1..])
    ensures Fragments(h, fs) == Fragments(Fragments(h, [fs[0]]), fs[1..])
  {
    assert DataPayloads([fs[0]]) == if fs[0].kind == DATA then fs[0].payload else [];
    assert [fs[0]][1..] == [];
  }

  lemma EffectContents(s: Option<Stream>, f: Frame, attached: bool)
    requires EffectOn(s, f, attached).ret == Fine
    ensures var r := EffectOn(s, f, attached).stream;
            BodyOf(r) == BodyOf(s) + DataPayloads([f]) && HeadersOf(r) == Fragments(HeadersOf(s), [f])
  {
    hide Hpack.DecodeFrom;
    assert DataPayloads([f]) == if f.kind == DATA then f.payload else [];
    assert [f][1..] == [];
  }

  // After an error-free run from a new connection, a stream's body is the concatenation of its own DATA
  // payloads and its headers are the fold of its own header fragments.
  lemma StreamContents(c: Conn, fs: seq<Frame>, attached: bool, id: nat)
    requires id !in c.streams && HandleAll(c, fs, attached).1 == Fine
    ensures var s := Lookup(HandleAll(c, fs, attached).0.streams, id);
            BodyOf(s) == DataPayloads(Own(fs, id)) && HeadersOf(s) == Fragments(map[], Own(fs, id))
  {
    hide HandleAll, Solo, DataPayloads, Fragments, Own;
    StreamIsolation(c, fs, attached, id);
    SoloContents(None, Own(fs, id), attached);
  }
}
