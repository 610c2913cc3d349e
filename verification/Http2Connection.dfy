/** Whole runs of an HTTP/2 connection: a byte stream delivered in chunks, and a request echoed end to end. */
module Http2Connections {
  import opened Bytes
  import opened Basics
  import opened Buffers
  import opened HpackPrimitives
  import opened Hpack
  import opened Http2Frames
  import opened Http2Streams
  import opened Http2Fragments
  import opened Http2Handlers
  import opened Tls
  import OrderedKeys

  // ---------------------------------------------------------------- runs in pieces

  lemma {:induction false} HandleAllJoin(c: Conn, a: seq<Frame>, b: seq<Frame>, attached: bool)
    ensures HandleAll(c, a + b, attached) ==
            var r := HandleAll(c, a, attached);
            if r.1 != Fine then r else More(HandleAll(r.0, b, attached), |a|)
    decreases |a|
  {
    hide Handle;
    if a == [] {
      assert a + b == b;
    } else {
      assert (a + b)[1..] == a[1..] + b;
      HandleAllJoin(Handle(c, a[0], attached).0, a[1..], b, attached);
    }
  }

  // What a run over the octets kept so far and the chunks still to come leads to.
  ghost predicate SameEnd(c: Conn, s: seq<byte>, c1: Conn, s1: seq<byte>, attached: bool) {
    var (r, r1) := (HandleAll(c, Frames(s), attached), HandleAll(c1, Frames(s1), attached));
    r.0 == r1.0 && r.1 == r1.1 && Residue(s) == Residue(s1)
  }

  lemma OneChunk(c: Conn, kept: seq<byte>, chunk: seq<byte>, rest: seq<byte>, attached: bool)
    ensures var (s, r) := (kept + chunk, HandleAll(c, Frames(kept + chunk), attached));
            (r.1 == Fine ==> SameEnd(c, kept + (chunk + rest), r.0, Residue(s) + rest, attached)) &&
            (r.1 != Fine ==> HandleAll(c, Frames(kept + (chunk + rest)), attached) == r)
  {
    hide HandleAll, Frames, Residue;
    var s := kept + chunk;
    assert kept + (chunk + rest) == s + rest;
    FramesJoin(s, rest);
    HandleAllJoin(c, Frames(s), Frames(Residue(s) + rest), attached);
  }

  lemma SameEndTrans(c: Conn, s: seq<byte>, c1: Conn, s1: seq<byte>, c2: Conn, s2: seq<byte>, attached: bool)
    requires SameEnd(c, s, c1, s1, attached) && SameEnd(c1, s1, c2, s2, attached)
    ensures SameEnd(c, s, c2, s2, attached)
  {
    hide HandleAll, Frames, Residue;
  }

  lemma SameEndSelf(c: Conn, s: seq<byte>, attached: bool)
    ensures SameEnd(c, s, c, s, attached)
  {
    hide HandleAll, Frames, Residue;
  }

  lemma RoomForChunk(s: seq<byte>, chunk: seq<byte>)
    requires FirstFrame(s).None? && |chunk| <= TEMP_BUFFER_SIZE
    ensures |s| + |chunk| <= MAX_CAPACITY
  {
    hide FromBigEndian;
    assert Pow256(3) == 0x100_0000;
  }

  lemma NothingToRead(c: Conn, s: seq<byte>, attached: bool)
    requires FirstFrame(s).None?
    ensures HandleAll(c, Frames(s), attached) == (c, Fine, 0) && Residue(s) == s
  {
    hide FirstFrame;
  }

  lemma NothingLeft(s: seq<byte>)
    ensures FirstFrame(Residue(s)).None?
  {
    ResidueIncomplete(s);
  }

  // However a byte stream is cut into reads, the handler ends up as if it had arrived at once; the buffer never
  // has to refuse a read, and a failure is reported at the frame that causes it.
  method Receive(h: Http2Handler, chunks: seq<seq<byte>>) returns (ret: Ret)
    requires h.plaintext.Valid() && FirstFrame(h.plaintext.Unread()).None?
    requires forall i | 0 <= i < |chunks| :: |chunks[i]| <= TEMP_BUFFER_SIZE
    modifies h, h.plaintext
    ensures h.plaintext.Valid()
    ensures var s := old(h.plaintext.Unread()) + Join(chunks);
            var r := HandleAll(old(h.State()), Frames(s), h.attached);
            h.State() == r.0 && ret == r.1 && (ret == Fine ==> h.plaintext.Unread() == Residue(s))
  {
    hide HandleAll, Frames, Residue, FirstFrame, After, Pow256;
    ghost var c, s := h.State(), h.plaintext.Unread() + Join(chunks);
    ret := Fine;
    assert chunks[0..] == chunks;
    SameEndSelf(c, s, h.attached);
    for i := 0 to |chunks|
      invariant h.plaintext.Valid() && FirstFrame(h.plaintext.Unread()).None?
      invariant SameEnd(c, s, h.State(), h.plaintext.Unread() + Join(chunks[i..]), h.attached)
    {
      ghost var c1, kept, rest := h.State(), h.plaintext.Unread(), Join(chunks[i + 1..]);
      JoinFrom(chunks, i);
      RoomForChunk(kept, chunks[i]);
      ret := h.OnRead(Delivered(chunks[i]));
      OneChunk(c1, kept, chunks[i], rest, h.attached);
      if ret != Fine { return; }
      NothingLeft(kept + chunks[i]);
      SameEndTrans(c, s, c1, kept + (chunks[i] + rest), h.State(), h.plaintext.Unread() + rest, h.attached);
    }
    assert h.plaintext.Unread() + Join(chunks[|chunks|..]) == h.plaintext.Unread();
    NothingToRead(h.State(), h.plaintext.Unread(), h.attached);
    ret := Fine;
  }

  // Frames printed by this code, cut into reads in any way, are handled one by one in order, and an error-free run
  // leaves nothing buffered.
  method ReceivePrinted(h: Http2Handler, ghost fs: seq<Frame>, chunks: seq<seq<byte>>) returns (ret: Ret)
    requires h.plaintext.Valid() && h.plaintext.Unread() == []
    requires forall i | 0 <= i < |chunks| :: |chunks[i]| <= TEMP_BUFFER_SIZE
    requires Join(chunks) == FramesBytes(fs) && forall i | 0 <= i < |fs| :: Printable(fs[i])
    modifies h, h.plaintext
    ensures h.plaintext.Valid()
    ensures var r := HandleAll(old(h.State()), fs, h.attached);
            h.State() == r.0 && ret == r.1 && (ret == Fine ==> h.plaintext.Unread() == [])
  {
    hide HandleAll, Frames, Residue, FirstFrame, FramesBytes, Printable, Join;
    NoBytesNoFrames();
    PrintedFrames(fs, []);
    assert [] + Join(chunks) == FramesBytes(fs) && FramesBytes(fs) + [] == FramesBytes(fs) && fs + [] == fs;
    ret := Receive(h, chunks);
  }

  lemma JoinFrom(chunks: seq<seq<byte>>, i: nat)
    requires i < |chunks|
    ensures Join(chunks[i..]) == chunks[i] + Join(chunks[i + 1..])
  {
    assert chunks[i..][1..] == chunks[i + 1..];
  }

  // ---------------------------------------------------------------- a request and its echo

  function With(c: Conn, id: nat, st: Stream): Conn {
    c.(streams := c.streams[id := st])
  }

  lemma StepHeaders(c: Conn, f: Frame)
    requires f.kind == HEADERS && !HasEndStream(f.flags) && f.streamId !in c.streams
    ensures var d := DecodeFrom(f.payload, map[]);
            var (c1, ret) := Handle(c, f, true);
            (ret == Fine <==> d.Decoded?) &&
            (ret == Fine ==> c1 == With(c, f.streamId, Stream(Open, d.headers, [], INITIAL_WINDOW)))
  {
    hide DecodeFrom, Response, FramesBytes;
    var d := DecodeFrom(f.payload, map[]);
    if d.Decoded? { assert map[] + d.headers == d.headers; }
  }

  lemma StepContinuation(c: Conn, f: Frame)
    requires f.kind == CONTINUATION && f.streamId in c.streams && c.streams[f.streamId].phase == Open
    ensures var (d, st) := (DecodeFrom(f.payload, map[]), c.streams[f.streamId]);
            var (c1, ret) := Handle(c, f, true);
            (ret == Fine <==> d.Decoded?) &&
            (ret == Fine ==> c1 == With(c, f.streamId, st.(headers := st.headers + d.headers)))
  {
    hide DecodeFrom, Response, FramesBytes;
  }

  // The continuations of an open stream are taken exactly if each of them decodes.
  lemma {:induction false} ContinuationsRun(c: Conn, fs: seq<Frame>, id: nat)
    requires id in c.streams && c.streams[id].phase == Open
    requires forall i | 0 <= i < |fs| :: fs[i].kind == CONTINUATION && fs[i].streamId == id
    ensures var (r, st) := (HandleAll(c, fs, true), c.streams[id]);
            (r.1 == Fine <==> AllDecode(fs)) &&
            (r.1 == Fine ==> r.0 == With(c, id, st.(headers := Fragments(st.headers, fs))))
    decreases |fs|
  {
    hide Handle, DecodeFrom, AllDecode;
    var st := c.streams[id];
    if fs == [] {
      assert AllDecode(fs) by { NoFramesDecode(); }
      assert c.streams[id := st] == c.streams;
    } else {
      assert [fs[0]] + fs[1..] == fs;
      AllDecodeCons(fs[0], fs[1..]);
      StepContinuation(c, fs[0]);
      if Handle(c, fs[0], true).1 == Fine {
        var c1 := Handle(c, fs[0], true).0;
        ContinuationsRun(c1, fs[1..], id);
        assert c1.streams[id := c1.streams[id].(headers := Fragments(c1.streams[id].headers, fs[1..]))] ==
               c.streams[id := st.(headers := Fragments(st.headers, fs))];
      }
    }
  }

  lemma NoFramesDecode()
    ensures AllDecode([])
  {
  }

  // A header block without END_STREAM opens its stream.
  lemma HeadersRun(c: Conn, first: Frame, rest: seq<Frame>)
    requires first.kind == HEADERS && !HasEndStream(first.flags) && first.streamId !in c.streams
    requires forall i | 0 <= i < |rest| :: rest[i].kind == CONTINUATION && rest[i].streamId == first.streamId
    ensures var (fs, r) := ([first] + rest, HandleAll(c, [first] + rest, true));
            (r.1 == Fine <==> AllDecode(fs)) &&
            (r.1 == Fine ==>
               r.0 == With(c, first.streamId, Stream(Open, Fragments(map[], fs), [], INITIAL_WINDOW)))
  {
    hide *;
    var id, h := first.streamId, DecodeFrom(first.payload, map[]);
    AllDecodeCons(first, rest);
    StepHeaders(c, first);
    HandleFirst(c, [first] + rest, true);
    assert ([first] + rest)[1..] == rest;
    if h.Decoded? {
      var st := Stream(Open, h.headers, [], INITIAL_WINDOW);
      FragmentsFirst(first, rest);
      WithMeans(c, id, st, st.(headers := Fragments(h.headers, rest)));
      ContinuationsRun(With(c, id, st), rest, id);
    }
  }

  lemma FragmentsFirst(f: Frame, rest: seq<Frame>)
    requires f.kind == HEADERS && DecodeFrom(f.payload, map[]).Decoded?
    ensures Fragments(map[], [f] + rest) == Fragments(DecodeFrom(f.payload, map[]).headers, rest)
  {
    hide DecodeFrom;
    var h := DecodeFrom(f.payload, map[]).headers;
    assert ([f] + rest)[1..] == rest && map[] + h == h;
  }

  lemma WithMeans(c: Conn, id: nat, a: Stream, b: Stream)
    ensures id in With(c, id, a).streams && With(c, id, a).streams[id] == a
    ensures With(With(c, id, a), id, b) == With(c, id, b)
  {
    assert c.streams[id := a][id := b] == c.streams[id := b];
  }

  function Collected(c: Conn, id: nat, more: seq<byte>): Conn
    requires id in c.streams
  {
    With(c, id, c.streams[id].(body := c.streams[id].body + more))
  }

  function Answered(c: Conn, id: nat, more: seq<byte>): Conn
    requires id in c.streams
  {
    var st := c.streams[id].(body := c.streams[id].body + more, phase := HalfClosedRemote);
    With(c, id, st).(out := c.out + FramesBytes(Response(id, st.body)))
  }

  lemma AnsweredLater(c: Conn, id: nat, a: seq<byte>, b: seq<byte>)
    requires id in c.streams
    ensures id in Collected(c, id, a).streams && Answered(Collected(c, id, a), id, b) == Answered(c, id, a + b)
  {
    hide Response, FramesBytes;
    Associate(c.streams[id].body, a, b);
    var end := c.streams[id].(body := c.streams[id].body + (a + b), phase := HalfClosedRemote);
    assert Collected(c, id, a).streams[id := end] == c.streams[id := end];
  }

  lemma StepData(c: Conn, f: Frame)
    requires f.kind == DATA && f.streamId in c.streams
    ensures Handle(c, f, true) ==
            (if HasEndStream(f.flags) then Answered(c, f.streamId, f.payload) else Collected(c, f.streamId, f.payload),
             Fine)
  {
    hide Response, FramesBytes;
  }

  // A body sent with END_STREAM is collected, and answered when it is complete.
  lemma {:induction false} DataRun(c: Conn, data: seq<byte>, max: nat, id: nat)
    requires max > 0 && data != [] && id in c.streams
    ensures HandleAll(c, DataFrames(data, max, id, true), true) ==
            (Answered(c, id, data), Fine, |DataFrames(data, max, id, true)|)
    decreases |data|
  {
    hide *;
    var fs, n := DataFrames(data, max, id, true), Min(|data|, max);
    DataFront(data, max, id);
    StepData(c, fs[0]);
    OneHandled(c, fs);
    if n < |data| {
      AnsweredLater(c, id, data[..n], data[n..]);
      DataRun(Collected(c, id, data[..n]), data[n..], max, id);
      assert data[..n] + data[n..] == data;
    }
  }

  lemma DataFront(data: seq<byte>, max: nat, id: nat)
    requires max > 0 && data != []
    ensures var (fs, n) := (DataFrames(data, max, id, true), Min(|data|, max));
            n <= |data| && fs != [] && fs[1..] == DataFrames(data[n..], max, id, true) &&
            (n == |data| ==> fs[1..] == [] && data[..n] == data) && (n < |data| ==> 0 < n) &&
            fs[0].kind == DATA && fs[0].streamId == id && fs[0].payload == data[..n] &&
            (HasEndStream(fs[0].flags) <==> n == |data|)
  {
  }

  lemma OneHandled(c: Conn, fs: seq<Frame>)
    requires fs != []
    ensures var h := Handle(c, fs[0], true);
            h.1 == Fine ==>
              (fs[1..] == [] ==> HandleAll(c, fs, true) == (h.0, Fine, |fs|)) &&
              (HandleAll(h.0, fs[1..], true).1 == Fine ==>
                 HandleAll(c, fs, true) == (HandleAll(h.0, fs[1..], true).0, Fine, |fs|))
  {
    hide Handle;
  }

  lemma HeaderPart(c: Conn, h: Headers, max: nat, id: nat)
    requires Fits(h) && max > 0 && id !in c.streams
    ensures In(h, OrderedKeys.Sorted(h.Keys))
    ensures var r := HandleAll(c, HeaderFrames(BlockBytes(h), max, id, false), true);
            (r.1 == Fine <==> CutsBetweenFields(h, OrderedKeys.Sorted(h.Keys), max)) &&
            (r.1 == Fine ==> r.0 == With(c, id, Stream(Open, h - {[]}, [], INITIAL_WINDOW)))
  {
    hide *;
    var names := OrderedKeys.Sorted(h.Keys);
    BlockIsNames(h);
    var fs := HeaderFrames(BlockBytes(h), max, id, false);
    HeaderFramesWhole(BlockBytes(h), max, id, false);
    HeaderFramesDecode(h, names, max, id, false);
    assert fs == [fs[0]] + fs[1..];
    HeadersRun(c, fs[0], fs[1..]);
    if AllDecode(fs) {
      FragmentsWhole(map[], fs);
      BlockRoundTrip(h);
      assert map[] + (h - {[]}) == h - {[]};
    }
  }

  lemma BodyPart(c: Conn, h: Headers, body: seq<byte>, max: nat, id: nat)
    requires body != [] && max > 0
    ensures var fs := DataFrames(body, max, id, true);
            HandleAll(With(c, id, Stream(Open, h, [], INITIAL_WINDOW)), fs, true) ==
            (With(c, id, Stream(HalfClosedRemote, h, body, INITIAL_WINDOW))
             .(out := c.out + FramesBytes(Response(id, body))), Fine, |fs|)
  {
    hide HandleAll, DataFrames, Response, FramesBytes;
    var c1 := With(c, id, Stream(Open, h, [], INITIAL_WINDOW));
    DataRun(c1, body, max, id);
    assert [] + body == body;
    var end := Stream(HalfClosedRemote, h, body, INITIAL_WINDOW);
    assert c1.streams[id := end] == c.streams[id := end];
  }

  // A request sent with this code's own sender on a new stream is taken exactly if its header block is cut
  // between fields only; then it is answered once, with its own body, and the stream holds what was sent.
  lemma RequestServed(c: Conn, h: Headers, body: seq<byte>, max: nat, id: nat)
    requires Fits(h) && max > 0 && id !in c.streams && body != []
    ensures In(h, OrderedKeys.Sorted(h.Keys))
    ensures var fs := HeaderFrames(BlockBytes(h), max, id, false) + DataFrames(body, max, id, true);
            var r := HandleAll(c, fs, true);
            (r.1 == Fine <==> CutsBetweenFields(h, OrderedKeys.Sorted(h.Keys), max)) &&
            (r.1 == Fine ==>
               r.0 == With(c, id, Stream(HalfClosedRemote, h - {[]}, body, INITIAL_WINDOW))
                      .(out := c.out + FramesBytes(Response(id, body))))
  {
    HeaderPart(c, h, max, id);
    BodyPart(c, h - {[]}, body, max, id);
    hide HandleAll, BlockBytes, CutsBetweenFields, Fits, HeaderFrames, DataFrames, Response, FramesBytes, In;
    hide OrderedKeys.Sorted, With;
    HandleAllJoin(c, HeaderFrames(BlockBytes(h), max, id, false), DataFrames(body, max, id, true), true);
  }

  lemma BlockIsNames(h: Headers)
    ensures In(h, OrderedKeys.Sorted(h.Keys)) && BlockBytes(h) == NamesBytes(h, OrderedKeys.Sorted(h.Keys))
  {
    var names := OrderedKeys.Sorted(h.Keys);
    assert forall i | 0 <= i < |names| :: names[i] in names;
  }

  lemma SmallFrames(block: seq<byte>, data: seq<byte>, id: nat)
    requires id < 0x8000_0000
    ensures var max := LOCAL_MAX_FRAME_SIZE;
            var (head, tail) := (HeaderFrames(block, max, id, false), DataFrames(data, max, id, true));
            (forall i | 0 <= i < |head| :: Printable(head[i]) && head[i].kind != DATA) &&
            (forall i | 0 <= i < |tail| :: Printable(tail[i]) && tail[i].kind == DATA) && Payloads(tail) == data
  {
    assert LOCAL_MAX_FRAME_SIZE < Pow256(3);
    FrameSizePositive();
    hide HeaderFrames, DataFrames, Payloads, Pow256, HasEndHeaders, HasEndStream;
    HeaderFramesWhole(block, LOCAL_MAX_FRAME_SIZE, id, false);
    DataFramesWhole(data, LOCAL_MAX_FRAME_SIZE, id, true);
  }

  lemma ResponseShape(id: nat, body: seq<byte>)
    requires id < 0x8000_0000
    ensures var fs := Response(id, body);
            (forall i | 0 <= i < |fs| :: Printable(fs[i])) && DataPayloads(fs) == ReplyBody(body)
  {
    hide BlockBytes, OkHeaders, HeaderFrames, DataFrames, Payloads, DataPayloads, ReplyBody, Pow256, Printable;
    SmallFrames(BlockBytes(OkHeaders()), ReplyBody(body), id);
    OnlyData(HeaderFrames(BlockBytes(OkHeaders()), LOCAL_MAX_FRAME_SIZE, id, false),
             DataFrames(ReplyBody(body), LOCAL_MAX_FRAME_SIZE, id, true));
  }

  lemma FieldIsShort(name: Text, value: Text)
    requires |name| < U32 && |value| < U32
    ensures |FieldBytes(name, value)| <= |name| + |value| + 13
  {
    var idx := FieldShape(name, value);
    IntAtMostSix(|name|, 0, 7);
    IntAtMostSix(|value|, 0, 7);
    hide FieldBytes, IntBytes;
  }

  lemma OkHeadersSmall()
    ensures forall n | n in OkHeaders() :: |n| <= 12 && |OkHeaders()[n]| <= 10
    ensures |OkHeaders().Keys| <= 2
  {
    assert OkHeaders().Keys == {Ascii(":status"), Ascii("content-type")};
  }

  lemma OkBlockIsShort()
    ensures |BlockBytes(OkHeaders())| <= LOCAL_MAX_FRAME_SIZE
  {
    var h := OkHeaders();
    var names := OrderedKeys.Sorted(h.Keys);
    OkHeadersSmall();
    BlockIsNames(h);
    hide BlockBytes, OrderedKeys.Sorted, OrderedKeys.Ascending, OkHeaders, NamesBytes;
    assert forall n | n in names :: n in h;
    ShortBlock(h, names, 35);
    assert |names| * 35 <= 70;
  }

  lemma {:induction false} ShortBlock(h: Headers, names: seq<Text>, max: nat)
    requires In(h, names) && forall n | n in names :: n in h && |n| < U32 && |h[n]| < U32 && |n| + |h[n]| + 13 <= max
    ensures |NamesBytes(h, names)| <= |names| * max
  {
    hide FieldBytes;
    if names != [] {
      var front, n := names[..|names| - 1], names[|names| - 1];
      assert n in names && forall x | x in front :: x in names;
      FieldIsShort(n, h[n]);
      ShortBlock(h, front, max);
      OneTimesMore(|front|, max);
    }
  }

  lemma OneTimesMore(n: nat, max: nat)
    ensures n * max + max == (n + 1) * max
  {
  }

  // What the answer tells its reader: the frames come apart again, the first one is a whole header block that decodes
  // to the status headers, and the DATA payloads add up to the body.
  lemma AnswerReadBack(id: nat, body: seq<byte>)
    requires id < 0x8000_0000
    ensures Frames(FramesBytes(Response(id, body))) == Response(id, body) != []
    ensures var first := Response(id, body)[0];
            first.kind == HEADERS && first.streamId == id && first.flags == END_HEADERS &&
            DecodeFrom(first.payload, map[]) ==
            Decoded(map[Ascii(":status") := Ascii("200"), Ascii("content-type") := Ascii("text/plain")])
    ensures forall i | 0 < i < |Response(id, body)| :: Response(id, body)[i].kind == DATA
    ensures DataPayloads(Response(id, body)) == if body == [] then Ascii("OK") else body
  {
    hide *;
    OkIs(body);
    var fs := Response(id, body);
    ResponseShape(id, body);
    PrintedFrames(fs, []);
    NoBytesNoFrames();
    assert FramesBytes(fs) + [] == FramesBytes(fs) && fs + [] == fs;
    OkHeadersFit();
    BlockRoundTrip(OkHeaders());
    assert OkHeaders() - {[]} == OkHeaders();
    ResponseFrames(id, body);
  }

  lemma ResponseFrames(id: nat, body: seq<byte>)
    ensures var data := DataFrames(ReplyBody(body), LOCAL_MAX_FRAME_SIZE, id, true);
            Response(id, body) == [Frame(HEADERS, END_HEADERS, id, BlockBytes(OkHeaders()))] + data &&
            forall i | 0 <= i < |data| :: data[i].kind == DATA
  {
    OkBlockIsShort();
    FrameSizePositive();
    HeaderFramesUnfold(BlockBytes(OkHeaders()), LOCAL_MAX_FRAME_SIZE, id, false);
    DataFramesWhole(ReplyBody(body), LOCAL_MAX_FRAME_SIZE, id, true);
    hide BlockBytes, OkHeaders, HeaderFrames, DataFrames, Payloads, HasEndStream, ReplyBody;
  }

  lemma OkIs(body: seq<byte>)
    ensures OkHeaders() == map[Ascii(":status") := Ascii("200"), Ascii("content-type") := Ascii("text/plain")]
    ensures ReplyBody(body) == if body == [] then Ascii("OK") else body
  {
    hide Ascii;
  }

  lemma OkHeadersFit()
    ensures Fits(OkHeaders()) && [] !in OkHeaders()
  {
  }

  lemma {:induction false} OnlyData(head: seq<Frame>, data: seq<Frame>)
    requires forall i | 0 <= i < |head| :: head[i].kind != DATA
    requires forall i | 0 <= i < |data| :: data[i].kind == DATA
    ensures DataPayloads(head + data) == Payloads(data)
    decreases |head|
  {
    if head != [] {
      assert (head + data)[1..] == head[1..] + data;
      OnlyData(head[1..], data);
    } else {
      assert head + data == data;
      AllData(data);
    }
  }

  lemma {:induction false} AllData(data: seq<Frame>)
    requires forall i | 0 <= i < |data| :: data[i].kind == DATA
    ensures DataPayloads(data) == Payloads(data)
  {
    if data != [] { AllData(data[1..]); }
  }

  // ---------------------------------------------------------------- settings

  function Parameter(id: nat, value: nat): seq<byte> {
    BigEndian(id, 2) + BigEndian(value, 4)
  }

  lemma ParameterRead(s: Settings, id: nat, value: nat)
    requires id < Pow256(2) && value < Pow256(4)
    ensures |Parameter(id, value)| == 6
    ensures ApplySettings(s, Parameter(id, value)) == ApplySetting(s, id, value)
  {
    BigEndianLength(id, 2);
    BigEndianLength(value, 4);
    BigEndianRoundTrip(id, 2);
    BigEndianRoundTrip(value, 4);
    var p := Parameter(id, value);
    hide BigEndian, FromBigEndian, Pow256, ApplySetting;
    assert p[..2] == BigEndian(id, 2) && p[2..6] == BigEndian(value, 4);
    assert ApplySettings(ApplySetting(s, id, value), p[6..]) == ApplySetting(s, id, value);
  }

  lemma {:induction false} SettingsJoin(s: Settings, a: seq<byte>, b: seq<byte>)
    requires |a| % 6 == 0
    ensures ApplySettings(s, a + b) == ApplySettings(ApplySettings(s, a), b)
    decreases |a|
  {
    hide ApplySetting, FromBigEndian;
    if a == [] {
      assert a + b == b;
    } else {
      assert (a + b)[..2] == a[..2] && (a + b)[2..6] == a[2..6] && (a + b)[6..] == a[6..] + b;
      SettingsJoin(ApplySetting(s, FromBigEndian(a[..2]), FromBigEndian(a[2..6])), a[6..], b);
    }
  }

  // A list of parameters applied in order.
  function Adopt(s: Settings, params: seq<(nat, nat)>): Settings {
    if params == [] then s
    else
      var last := params[|params| - 1];
      ApplySetting(Adopt(s, params[..|params| - 1]), last.0, last.1)
  }

  // A printed SETTINGS payload tells its reader the parameters it was printed from.
  lemma {:induction false} SettingsRead(s: Settings, params: seq<(nat, nat)>)
    requires forall p | p in params :: p.0 < Pow256(2) && p.1 < Pow256(4)
    ensures |SettingsBytes(params)| == 6 * |params| && ApplySettings(s, SettingsBytes(params)) == Adopt(s, params)
    decreases |params|
  {
    hide ApplySetting, Pow256, BigEndian;
    if params != [] {
      hide ApplySettings;
      var front, last := params[..|params| - 1], params[|params| - 1];
      assert last in params;
      SettingsRead(s, front);
      ParameterRead(Adopt(s, front), last.0, last.1);
      SettingsJoin(s, SettingsBytes(front), Parameter(last.0, last.1));
      Associate(SettingsBytes(front), BigEndian(last.0, 2), BigEndian(last.1, 4));
    } else {
      assert SettingsBytes(params) == [];
    }
  }
}
