/** What HTTP/2 frames mean to a connection, by their numbers and octets (sections 6.2 to 6.10 of RFC 7540). */
module Http2Meanings {
  import opened Bytes
  import opened Basics
  import opened Buffers
  import opened Http2Frames
  import opened Http2Streams
  import opened Http2Handlers
  import opened Http2Connections
  import Hpack

  // ---------------------------------------------------------------- settings

  // The value the last parameter with this identifier gives, if there is one.
  function LastOf(params: seq<(nat, nat)>, id: nat, start: nat): nat {
    if params == [] then start
    else
      var last := params[|params| - 1];
      if last.0 == id then last.1 else LastOf(params[..|params| - 1], id, start)
  }

  lemma {:induction false} AdoptIs(s: Settings, params: seq<(nat, nat)>)
    ensures var r := Adopt(s, params);
            r.headerTableSize == LastOf(params, 1, s.headerTableSize) &&
            r.enablePush == LastOf(params, 2, s.enablePush) &&
            r.maxConcurrentStreams == LastOf(params, 3, s.maxConcurrentStreams) &&
            r.initialWindowSize == LastOf(params, 4, s.initialWindowSize) &&
            r.maxFrameSize == LastOf(params, 5, s.maxFrameSize) &&
            r.maxHeaderListSize == LastOf(params, 6, s.maxHeaderListSize)
    decreases |params|
  {
    if params != [] { AdoptIs(s, params[..|params| - 1]); }
  }

  // Of every parameter the last value counts, under the number it has in section 6.5.2 of RFC 7540; unknown ones and
  // what is left of a payload that ends inside a parameter are ignored.
  lemma SettingsMean(s: Settings, params: seq<(nat, nat)>, tail: seq<byte>)
    requires (forall p | p in params :: p.0 < Pow256(2) && p.1 < Pow256(4)) && |tail| < 6
    ensures var r := ApplySettings(s, SettingsBytes(params) + tail);
            r.headerTableSize == LastOf(params, 1, s.headerTableSize) &&
            r.enablePush == LastOf(params, 2, s.enablePush) &&
            r.maxConcurrentStreams == LastOf(params, 3, s.maxConcurrentStreams) &&
            r.initialWindowSize == LastOf(params, 4, s.initialWindowSize) &&
            r.maxFrameSize == LastOf(params, 5, s.maxFrameSize) &&
            r.maxHeaderListSize == LastOf(params, 6, s.maxHeaderListSize)
  {
    var r := Adopt(s, params);
    assert ApplySettings(r, tail) == r;
    hide ApplySettings, SettingsBytes, Adopt, Pow256, LastOf;
    SettingsRead(s, params);
    SettingsJoin(s, SettingsBytes(params), tail);
    AdoptIs(s, params);
  }

  lemma Big2(n: nat)
    requires n < 65536
    ensures BigEndian(n, 2) == [n / 256, n % 256]
  {
    assert BigEndian(n / 256, 1) == BigEndian(n / 256 / 256, 0) + [n / 256 % 256] == [n / 256];
  }

  lemma Big4(n: nat)
    requires n < 0x1_0000_0000
    ensures BigEndian(n, 4) == [n / 16777216, n / 65536 % 256, n / 256 % 256, n % 256]
  {
    assert BigEndian(n / 65536, 2) == [n / 65536 / 256, n / 65536 % 256] by { Big2(n / 65536); }
    assert BigEndian(n / 256, 3) == BigEndian(n / 256 / 256, 2) + [n / 256 % 256];
  }

  // ---------------------------------------------------------------- frames without a stream

  // A PING is echoed, eight octets of it; a shorter one is ignored.
  lemma PingEchoed(c: Conn, f: Frame, attached: bool)
    requires f.kind == 6
    ensures Handle(c, f, attached) ==
            (if |f.payload| < 8 then c
             else c.(out := c.out + ([0, 0, 8, 6, 1, 0, 0, 0, 0] + f.payload[..8])), Fine)
  {
    if |f.payload| >= 8 { HeaderOctets(Frame(PING, ACK, 0, f.payload[..8])); }
    hide FrameHeader, BigEndian;
  }

  // The first SETTINGS with parameters is acknowledged, the others are not; an empty one is taken for an
  // acknowledgement, whatever its flags say.
  lemma SettingsAcknowledged(c: Conn, f: Frame, attached: bool)
    requires f.kind == 4
    ensures Handle(c, f, attached) ==
            (if f.payload == [] then c.(ackReceived := true)
             else c.(settings := ApplySettings(c.settings, f.payload), ackSent := true,
                     out := if c.ackSent then c.out else c.out + [0, 0, 0, 4, 1, 0, 0, 0, 0]), Fine)
  {
    AckOctets();
    hide FrameBytes, ApplySettings;
  }

  lemma AckOctets()
    ensures FrameBytes(Frame(SETTINGS, ACK, 0, [])) == [0, 0, 0, 4, 1, 0, 0, 0, 0]
  {
    var ack := Frame(SETTINGS, ACK, 0, []);
    HeaderOctets(ack);
    assert FrameHeader(ack) == [0, 0, 0, 4, 1, 0, 0, 0, 0];
    hide FrameHeader;
    assert FrameHeader(ack) + [] == FrameHeader(ack);
  }

  // Frames of the other kinds, GOAWAY among them, change nothing.
  lemma OthersIgnored(c: Conn, f: Frame, attached: bool)
    requires f.kind == 2 || f.kind == 5 || f.kind == 7 || f.kind > 9
    ensures Handle(c, f, attached) == (c, Fine)
  {
    if f.streamId in c.streams { assert c.streams[f.streamId := c.streams[f.streamId]] == c.streams; }
  }

  // ---------------------------------------------------------------- which runs fail

  // The stream is known, or a HEADERS frame among the first i opens it.
  ghost predicate Known(c: Conn, fs: seq<Frame>, i: nat, id: nat)
    requires i <= |fs|
  {
    id in c.streams || exists j | 0 <= j < i :: fs[j].kind == 1 && fs[j].streamId == id
  }

  // The number in a WINDOW_UPDATE, without the reserved bit.
  function WindowIncrement(f: Frame): nat
    requires |f.payload| >= 4
  {
    FromBigEndian(f.payload[..4]) % 0x8000_0000
  }

  // HEADERS and CONTINUATION must decode by themselves, CONTINUATION and DATA need a known stream, and a
  // WINDOW_UPDATE must not be zero.
  ghost predicate Acceptable(f: Frame, known: bool) {
    (f.kind == 1 || f.kind == 9 ==> Hpack.DecodeFrom(f.payload, map[]).Decoded?) &&
    (f.kind == 0 || f.kind == 9 ==> known) &&
    (f.kind == 8 && |f.payload| >= 4 ==> WindowIncrement(f) > 0)
  }

  lemma StepAccepts(c: Conn, f: Frame)
    ensures Handle(c, f, true).1 == Fine <==> Acceptable(f, f.streamId in c.streams)
    ensures Handle(c, f, true).0.streams.Keys == c.streams.Keys + if f.kind == 1 then {f.streamId} else {}
  {
    hide Hpack.DecodeFrom, Response, FromBigEndian, ApplySettings, FramesBytes, FrameBytes;
  }

  // Which runs fail, by what came before each frame.
  ghost predicate AllAcceptable(c: Conn, fs: seq<Frame>) {
    forall i | 0 <= i < |fs| :: Acceptable(fs[i], Known(c, fs, i, fs[i].streamId))
  }

  lemma {:induction false} RunAccepts(c: Conn, fs: seq<Frame>)
    ensures HandleAll(c, fs, true).1 == Fine <==> AllAcceptable(c, fs)
    decreases |fs|
  {
    if fs != [] {
      var r := Handle(c, fs[0], true).0;
      StepAccepts(c, fs[0]);
      HandleFirst(c, fs, true);
      hide Handle, HandleAll, Acceptable, AllAcceptable;
      RunAccepts(r, fs[1..]);
      FirstThenRestAccepted(c, r, fs);
    }
  }

  lemma FirstThenRestAccepted(c: Conn, r: Conn, fs: seq<Frame>)
    requires fs != []
    requires r.streams.Keys == c.streams.Keys + if fs[0].kind == 1 then {fs[0].streamId} else {}
    ensures AllAcceptable(c, fs) <==> Acceptable(fs[0], fs[0].streamId in c.streams) && AllAcceptable(r, fs[1..])
  {
    var rest := fs[1..];
    KnownFirst(c, fs);
    forall i | 0 <= i < |rest|
      ensures Known(r, rest, i, rest[i].streamId) <==> Known(c, fs, i + 1, fs[i + 1].streamId)
    {
      KnownShift(c, r, fs, i, rest[i].streamId);
    }
    hide Acceptable, Known;
    if AllAcceptable(c, fs) {
      forall i | 0 <= i < |rest| ensures Acceptable(rest[i], Known(r, rest, i, rest[i].streamId)) {
        assert Acceptable(fs[i + 1], Known(c, fs, i + 1, fs[i + 1].streamId));
      }
    }
    if Acceptable(fs[0], fs[0].streamId in c.streams) && AllAcceptable(r, rest) {
      forall i | 0 <= i < |fs| ensures Acceptable(fs[i], Known(c, fs, i, fs[i].streamId)) {
        if i > 0 { assert Acceptable(rest[i - 1], Known(r, rest, i - 1, rest[i - 1].streamId)); }
      }
    }
  }

  lemma KnownFirst(c: Conn, fs: seq<Frame>)
    requires fs != []
    ensures Known(c, fs, 0, fs[0].streamId) <==> fs[0].streamId in c.streams
  {
  }

  lemma KnownShift(c: Conn, r: Conn, fs: seq<Frame>, i: nat, id: nat)
    requires fs != [] && i < |fs|
    requires r.streams.Keys == c.streams.Keys + if fs[0].kind == 1 then {fs[0].streamId} else {}
    ensures Known(r, fs[1..], i, id) <==> Known(c, fs, i + 1, id)
  {
    if id in c.streams {
    } else if fs[0].kind == 1 && fs[0].streamId == id {
      assert id in r.streams.Keys;
    } else {
      assert id in r.streams <==> id in r.streams.Keys;
      if Known(c, fs, i + 1, id) {
        var j :| 0 <= j < i + 1 && fs[j].kind == 1 && fs[j].streamId == id;
        assert fs[1..][j - 1] == fs[j];
      }
      if Known(r, fs[1..], i, id) {
        var j :| 0 <= j < i && fs[1..][j].kind == 1 && fs[1..][j].streamId == id;
        assert fs[j + 1] == fs[1..][j];
      }
    }
  }

  // ---------------------------------------------------------------- windows and phases

  function Increments(fs: seq<Frame>): nat {
    if fs == [] then 0
    else (if fs[0].kind == 8 && |fs[0].payload| >= 4 then WindowIncrement(fs[0]) else 0) + Increments(fs[1..])
  }

  function Capped(n: int): int {
    if n > 0x7FFF_FFFF then 0x7FFF_FFFF else n
  }

  // What the frame makes of a stream that is there: closed by RST_STREAM, half closed by the end of its request.
  function Marks(f: Frame, p: Phase): Phase {
    if f.kind == 3 && |f.payload| >= 4 then Closed
    else if f.kind == 0 && f.flags % 2 == 1 then HalfClosedRemote
    else if f.kind == 1 && f.flags % 2 == 1 && f.flags / 4 % 2 == 1 then HalfClosedRemote
    else if f.kind == 1 && p == Idle then Open
    else p
  }

  function PhaseAfter(fs: seq<Frame>, p: Phase): Phase
    decreases |fs|
  {
    if fs == [] then p else PhaseAfter(fs[1..], Marks(fs[0], p))
  }

  lemma EffectMarks(st: Stream, f: Frame, attached: bool)
    requires EffectOn(Some(st), f, attached).ret == Fine && st.sendWindow <= 0x7FFF_FFFF
    ensures var e := EffectOn(Some(st), f, attached);
            e.stream.Some? && e.stream.value.phase == Marks(f, st.phase) &&
            e.stream.value.sendWindow ==
            Capped(st.sendWindow + if f.kind == 8 && |f.payload| >= 4 then WindowIncrement(f) else 0)
  {
    hide Hpack.DecodeFrom, FromBigEndian;
  }

  // After any of its frames a stream has the window it had plus all increments, up to 2^31 - 1, and the phase that the
  // last frame to change it has given it.
  lemma {:induction false} WindowAndPhase(st: Stream, fs: seq<Frame>, attached: bool)
    requires Solo(Some(st), fs, attached).1 && st.sendWindow <= 0x7FFF_FFFF
    ensures var r := Solo(Some(st), fs, attached).0;
            r.Some? && r.value.sendWindow == Capped(st.sendWindow + Increments(fs)) &&
            r.value.phase == PhaseAfter(fs, st.phase)
    decreases |fs|
  {
    if fs != [] {
      SoloFirst(Some(st), fs[0], fs[1..], attached);
      assert [fs[0]] + fs[1..] == fs;
      EffectMarks(st, fs[0], attached);
      hide EffectOn, Marks, WindowIncrement;
      WindowAndPhase(EffectOn(Some(st), fs[0], attached).stream.value, fs[1..], attached);
    }
  }

  // ---------------------------------------------------------------- what a new connection sends

  lemma OneParameter(params: seq<(nat, nat)>, id: nat, value: nat)
    requires id < 256 && value < 65536
    ensures SettingsBytes(params + [(id, value)]) ==
            SettingsBytes(params) + ([0, id] + [0, 0, value / 256, value % 256])
  {
    LastParameter(params, id, value);
    hide SettingsBytes, BigEndian;
    Big2(id);
    Big4(value);
    Associate(SettingsBytes(params), [0, id], [0, 0, value / 256, value % 256]);
  }

  lemma LastParameter(params: seq<(nat, nat)>, id: nat, value: nat)
    ensures SettingsBytes(params + [(id, value)]) == SettingsBytes(params) + BigEndian(id, 2) + BigEndian(value, 4)
  {
    hide BigEndian;
    assert (params + [(id, value)])[..|params|] == params;
  }

  // The octets of the first SETTINGS frame.
  lemma FirstOctets()
    ensures FrameBytes(Frame(SETTINGS, 0, 0, SettingsBytes(LocalParameters()))) ==
            [0, 0, 30, 4, 0, 0, 0, 0, 0] + ([0, 1, 0, 0, 16, 0] + [0, 2, 0, 0, 0, 0] + [0, 3, 0, 0, 0, 100] +
                                            [0, 4, 0, 0, 255, 255] + [0, 5, 0, 0, 64, 0])
  {
    var payload := SettingsBytes(LocalParameters());
    LocalPayload();
    hide SettingsBytes, LocalParameters, BigEndian;
    FivePlain(payload);
    HeaderOctets(Frame(SETTINGS, 0, 0, payload));
  }

  lemma LocalList()
    ensures LocalParameters() == [] + [(1, 4096)] + [(2, 0)] + [(3, 100)] + [(4, 65535)] + [(5, 16384)]
  {
  }

  lemma LocalPayload()
    ensures SettingsBytes(LocalParameters()) ==
            [] + ([0, 1] + [0, 0, 16, 0]) + ([0, 2] + [0, 0, 0, 0]) + ([0, 3] + [0, 0, 0, 100]) +
            ([0, 4] + [0, 0, 255, 255]) + ([0, 5] + [0, 0, 64, 0])
  {
    assert SettingsBytes([]) == [];
    LocalList();
    hide *;
    OneParameter([], 1, 4096);
    OneParameter([] + [(1, 4096)], 2, 0);
    OneParameter([] + [(1, 4096)] + [(2, 0)], 3, 100);
    OneParameter([] + [(1, 4096)] + [(2, 0)] + [(3, 100)], 4, 65535);
    OneParameter([] + [(1, 4096)] + [(2, 0)] + [(3, 100)] + [(4, 65535)], 5, 16384);
  }

  lemma FivePlain(payload: seq<byte>)
    requires payload == [] + ([0, 1] + [0, 0, 16, 0]) + ([0, 2] + [0, 0, 0, 0]) + ([0, 3] + [0, 0, 0, 100]) +
                        ([0, 4] + [0, 0, 255, 255]) + ([0, 5] + [0, 0, 64, 0])
    ensures payload == [0, 1, 0, 0, 16, 0] + [0, 2, 0, 0, 0, 0] + [0, 3, 0, 0, 0, 100] + [0, 4, 0, 0, 255, 255] +
                       [0, 5, 0, 0, 64, 0]
    ensures |payload| == 30
  {
    assert [0, 1] + [0, 0, 16, 0] == [0, 1, 0, 0, 16, 0] && [0, 2] + [0, 0, 0, 0] == [0, 2, 0, 0, 0, 0];
    assert [0, 3] + [0, 0, 0, 100] == [0, 3, 0, 0, 0, 100] && [0, 4] + [0, 0, 255, 255] == [0, 4, 0, 0, 255, 255];
    assert [0, 5] + [0, 0, 64, 0] == [0, 5, 0, 0, 64, 0];
  }
}
