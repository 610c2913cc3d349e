/** What a run of frames makes the connection write, and what each stream is sent of it. */
module Http2Answers {
  import opened Bytes
  import opened Basics
  import opened Http2Frames
  import opened Http2Streams
  import Hpack

  // The frames written while one frame is handled.
  function Writes(c: Conn, f: Frame, attached: bool): seq<Frame> {
    if f.kind == SETTINGS then (if f.payload == [] || c.ackSent then [] else [Frame(SETTINGS, ACK, 0, [])])
    else if f.kind == PING then (if |f.payload| >= 8 then [Frame(PING, ACK, 0, f.payload[..8])] else [])
    else if f.kind == WINDOW_UPDATE && f.streamId == 0 then []
    else
      var e := EffectOn(Lookup(c.streams, f.streamId), f, attached);
      if e.answered then Response(f.streamId, e.stream.value.body) else []
  }

  // The frames written in a run, up to and including the first frame that fails.
  function AllWrites(c: Conn, fs: seq<Frame>, attached: bool): seq<Frame>
    decreases |fs|
  {
    if fs == [] then []
    else
      var h := Handle(c, fs[0], attached);
      Writes(c, fs[0], attached) + if h.1 != Fine then [] else AllWrites(h.0, fs[1..], attached)
  }

  lemma HandleWrites(c: Conn, f: Frame, attached: bool)
    ensures Handle(c, f, attached).0.out == c.out + FramesBytes(Writes(c, f, attached))
  {
    hide FrameBytes, HeadersEffect, DataEffect, ContinuationEffect, Response;
    assert c.out + [] == c.out;
    FramesBytesCons(Frame(SETTINGS, ACK, 0, []), []);
    if |f.payload| >= 8 { FramesBytesCons(Frame(PING, ACK, 0, f.payload[..8]), []); }
  }

  // The octets written in a run are those of these frames, in order.
  lemma {:induction false} RunWrites(c: Conn, fs: seq<Frame>, attached: bool)
    ensures HandleAll(c, fs, attached).0.out == c.out + FramesBytes(AllWrites(c, fs, attached))
    decreases |fs|
  {
    hide *;
    if fs == [] {
      NoWrites(c, attached);
    } else {
      var h, now := Handle(c, fs[0], attached), Writes(c, fs[0], attached);
      HandleWrites(c, fs[0], attached);
      OneThenRest(c, fs, attached);
      if h.1 == Fine {
        RunWrites(h.0, fs[1..], attached);
        WritesJoin(c.out, now, AllWrites(h.0, fs[1..], attached));
      }
    }
  }

  lemma NoWrites(c: Conn, attached: bool)
    ensures HandleAll(c, [], attached).0.out == c.out + FramesBytes(AllWrites(c, [], attached))
  {
    assert c.out + [] == c.out;
  }

  lemma OneThenRest(c: Conn, fs: seq<Frame>, attached: bool)
    requires fs != []
    ensures var (h, now) := (Handle(c, fs[0], attached), Writes(c, fs[0], attached));
            HandleAll(c, fs, attached).0 == (if h.1 != Fine then h.0 else HandleAll(h.0, fs[1..], attached).0) &&
            AllWrites(c, fs, attached) == if h.1 != Fine then now else now + AllWrites(h.0, fs[1..], attached)
  {
    hide Handle, Writes;
    assert Writes(c, fs[0], attached) + [] == Writes(c, fs[0], attached);
  }

  lemma WritesJoin(out: seq<byte>, now: seq<Frame>, later: seq<Frame>)
    ensures out + FramesBytes(now) + FramesBytes(later) == out + FramesBytes(now + later)
  {
    hide FramesBytes;
    FramesBytesJoin(now, later);
    Associate(out, FramesBytes(now), FramesBytes(later));
  }

  // ---------------------------------------------------------------- what one stream is sent

  // Answers only; the acknowledgements of SETTINGS and PING belong to no stream.
  predicate SentTo(f: Frame, id: nat) {
    (f.kind == HEADERS || f.kind == CONTINUATION || f.kind == DATA) && f.streamId == id
  }

  function OnStream(fs: seq<Frame>, id: nat): seq<Frame> {
    if fs == [] then [] else Part(fs[0], id) + OnStream(fs[1..], id)
  }

  function Part(f: Frame, id: nat): seq<Frame> {
    if SentTo(f, id) then [f] else []
  }

  // What a stream is sent when it is alone on the connection.
  function SoloWrites(s: Option<Stream>, fs: seq<Frame>, id: nat, attached: bool): seq<Frame>
    decreases |fs|
  {
    if fs == [] then []
    else
      var e := EffectOn(s, fs[0], attached);
      (if e.answered then Response(id, e.stream.value.body) else []) +
      if e.ret != Fine then [] else SoloWrites(e.stream, fs[1..], id, attached)
  }

  lemma OnStreamCons(f: Frame, fs: seq<Frame>, id: nat)
    ensures OnStream([f] + fs, id) == Part(f, id) + OnStream(fs, id)
  {
    hide Part;
    assert ([f] + fs)[1..] == fs;
  }

  lemma {:induction false} OnStreamJoin(a: seq<Frame>, b: seq<Frame>, id: nat)
    ensures OnStream(a + b, id) == OnStream(a, id) + OnStream(b, id)
    decreases |a|
  {
    if a == [] {
      assert a + b == b;
    } else {
      assert a == [a[0]] + a[1..] && a + b == [a[0]] + (a[1..] + b);
      hide OnStream, Part;
      OnStreamCons(a[0], a[1..], id);
      OnStreamCons(a[0], a[1..] + b, id);
      OnStreamJoin(a[1..], b, id);
      Associate(Part(a[0], id), OnStream(a[1..], id), OnStream(b, id));
    }
  }

  lemma {:induction false} OnStreamAll(fs: seq<Frame>, id: nat, to: nat)
    requires forall i | 0 <= i < |fs| :: SentTo(fs[i], to)
    ensures OnStream(fs, id) == if id == to then fs else []
  {
    if fs != [] { OnStreamAll(fs[1..], id, to); }
  }

  lemma ResponseSentTo(id: nat, body: seq<byte>)
    ensures forall i | 0 <= i < |Response(id, body)| :: SentTo(Response(id, body)[i], id)
  {
    assert LOCAL_MAX_FRAME_SIZE > 0;
    HeaderFramesWhole(Hpack.BlockBytes(OkHeaders()), LOCAL_MAX_FRAME_SIZE, id, false);
    DataFramesWhole(ReplyBody(body), LOCAL_MAX_FRAME_SIZE, id, true);
    hide Hpack.BlockBytes, OkHeaders, HeaderFrames, DataFrames, Payloads, HasEndStream, HasEndHeaders, ReplyBody;
  }

  lemma AnswerSentTo(id: nat, to: nat, body: seq<byte>)
    ensures OnStream(Response(to, body), id) == if id == to then Response(to, body) else []
    ensures OnStream([], id) == []
  {
    hide Response, SentTo;
    ResponseSentTo(to, body);
    OnStreamAll(Response(to, body), id, to);
  }

  // One frame sends something to the stream it concerns and to no other.
  lemma OneFrameSends(c: Conn, f: Frame, attached: bool, id: nat)
    ensures OnStream(Writes(c, f, attached), id) ==
            var e := EffectOn(Lookup(c.streams, id), f, attached);
            if Concerns(f, id) && e.answered then Response(id, e.stream.value.body) else []
  {
    OnlyRequestsAnswered(Lookup(c.streams, f.streamId), f, attached);
    OnlyRequestsAnswered(Lookup(c.streams, id), f, attached);
    if f.kind == SETTINGS || f.kind == PING {
      hide EffectOn, Response, OnStream, SentTo, Writes;
      Acknowledges(c, f, attached, id);
    } else {
      hide EffectOn, Response, OnStream, SentTo;
      var e := EffectOn(Lookup(c.streams, f.streamId), f, attached);
      AnswerSentTo(id, f.streamId, if e.answered then e.stream.value.body else []);
    }
  }

  lemma Acknowledges(c: Conn, f: Frame, attached: bool, id: nat)
    requires f.kind == SETTINGS || f.kind == PING
    ensures OnStream(Writes(c, f, attached), id) == []
  {
    var fs := Writes(c, f, attached);
    assert |fs| <= 1 && (fs != [] ==> !SentTo(fs[0], id) && fs[1..] == []);
  }

  lemma OnlyRequestsAnswered(s: Option<Stream>, f: Frame, attached: bool)
    ensures EffectOn(s, f, attached).answered ==> f.kind == HEADERS || f.kind == DATA || f.kind == CONTINUATION
  {
    hide HeadersEffect, DataEffect, ContinuationEffect;
  }

  // In a run without errors a stream is sent exactly what it would be sent alone on the connection.
  lemma {:induction false} AnswersIsolated(c: Conn, fs: seq<Frame>, attached: bool, id: nat)
    requires HandleAll(c, fs, attached).1 == Fine
    ensures OnStream(AllWrites(c, fs, attached), id) == SoloWrites(Lookup(c.streams, id), Own(fs, id), id, attached)
    decreases |fs|
  {
    if fs != [] {
      var f, h, now := fs[0], Handle(c, fs[0], attached), Writes(c, fs[0], attached);
      hide Handle, EffectOn, Concerns, Writes, Response, SentTo;
      HandleConcerned(c, f, attached, id);
      OneFrameSends(c, f, attached, id);
      AnswersIsolated(h.0, fs[1..], attached, id);
      OnStreamJoin(now, AllWrites(h.0, fs[1..], attached), id);
      if Concerns(f, id) {
        assert Own(fs, id)[0] == f && Own(fs, id)[1..] == Own(fs[1..], id);
      } else {
        assert Own(fs, id) == Own(fs[1..], id);
      }
    }
  }

  // Reordering frames across streams changes what goes to no stream: the frames written are others in the order only
  // in which the streams take turns.
  lemma ReorderingKeepsAnswers(c: Conn, fs: seq<Frame>, gs: seq<Frame>, attached: bool)
    requires HandleAll(c, fs, attached).1 == Fine
    requires forall id: nat :: Own(fs, id) == Own(gs, id)
    ensures HandleAll(c, fs, attached).0.out == c.out + FramesBytes(AllWrites(c, fs, attached))
    ensures HandleAll(c, gs, attached).0.out == c.out + FramesBytes(AllWrites(c, gs, attached))
    ensures forall id: nat ::
              OnStream(AllWrites(c, fs, attached), id) == OnStream(AllWrites(c, gs, attached), id)
  {
    hide HandleAll, AllWrites, OnStream, SoloWrites, Own, FramesBytes;
    ReorderingIrrelevant(c, fs, gs, attached);
    RunWrites(c, fs, attached);
    RunWrites(c, gs, attached);
    forall id: nat ensures OnStream(AllWrites(c, fs, attached), id) == OnStream(AllWrites(c, gs, attached), id) {
      AnswersIsolated(c, fs, attached, id);
      AnswersIsolated(c, gs, attached, id);
    }
  }
}
