/** HTTP/2 frames on the wire (section 4.1 of RFC 7540): the printer, the parser of a byte stream, and the
    splitting of header blocks and bodies into frames. */
module Http2Frames {
  import opened Bytes
  import opened Basics
  import opened Buffers

  const FRAME_HEADER_SIZE: nat := 9

  const DATA: byte := 0
  const HEADERS: byte := 1
  const RST_STREAM: byte := 3
  const SETTINGS: byte := 4
  const PING: byte := 6
  const WINDOW_UPDATE: byte := 8
  const CONTINUATION: byte := 9

  const END_STREAM: byte := 1
  const ACK: byte := 1
  const END_HEADERS: byte := 4

  predicate HasEndStream(flags: byte) {
    flags % 2 == 1
  }

  predicate HasEndHeaders(flags: byte) {
    flags / 4 % 2 == 1
  }

  datatype Frame = Frame(kind: byte, flags: byte, streamId: nat, payload: seq<byte>)

  // What the length and stream fields can hold.
  predicate Printable(f: Frame) {
    |f.payload| < Pow256(3) && f.streamId < 0x8000_0000
  }

  // The length field keeps the low 24 bits, the stream field the low 31.
  function FrameHeader(f: Frame): seq<byte> {
    BigEndian(|f.payload|, 3) + [f.kind, f.flags] + BigEndian(f.streamId % 0x8000_0000, 4)
  }

  function FrameBytes(f: Frame): seq<byte> {
    FrameHeader(f) + f.payload
  }

  function FramesBytes(fs: seq<Frame>): seq<byte> {
    if fs == [] then [] else FrameBytes(fs[0]) + FramesBytes(fs[1..])
  }

  lemma {:induction false} FramesBytesJoin(a: seq<Frame>, b: seq<Frame>)
    ensures FramesBytes(a + b) == FramesBytes(a) + FramesBytes(b)
    decreases |a|
  {
    hide FrameBytes;
    if a == [] {
      assert a + b == b;
    } else {
      assert (a + b)[1..] == a[1..] + b;
      FramesBytesJoin(a[1..], b);
    }
  }

  lemma FramesBytesCons(f: Frame, fs: seq<Frame>)
    ensures FramesBytes([f] + fs) == FrameBytes(f) + FramesBytes(fs) && FramesBytes([f]) == FrameBytes(f)
  {
    assert ([f] + fs)[1..] == fs && [f][1..] == [];
  }

  // ---------------------------------------------------------------- the parser

  function PayloadLength(s: seq<byte>): (n: nat)
    requires |s| >= FRAME_HEADER_SIZE
    ensures n < Pow256(3)
  {
    FromBigEndianRoundTrip(s[..3]);
    FromBigEndian(s[..3])
  }

  // The first complete frame of a byte stream and what follows it.
  function FirstFrame(s: seq<byte>): (r: Option<(Frame, seq<byte>)>)
    ensures r.Some? ==> |r.value.1| + FRAME_HEADER_SIZE <= |s|
  {
    if |s| < FRAME_HEADER_SIZE || |s| < FRAME_HEADER_SIZE + PayloadLength(s) then None
    else
      var n := FRAME_HEADER_SIZE + PayloadLength(s);
      Some((Frame(s[3], s[4], FromBigEndian(s[5..9]) % 0x8000_0000, s[9..n]), s[n..]))
  }

  function Frames(s: seq<byte>): seq<Frame>
    decreases |s|
  {
    match FirstFrame(s)
    case None => []
    case Some((f, rest)) => [f] + Frames(rest)
  }

  // The octets behind the last complete frame.
  function Residue(s: seq<byte>): (r: seq<byte>)
    decreases |s|
  {
    match FirstFrame(s)
    case None => s
    case Some((_, rest)) => Residue(rest)
  }

  // The octets behind the first n complete frames.
  function After(s: seq<byte>, n: nat): seq<byte>
    decreases |s|
  {
    if n == 0 then s
    else
      match FirstFrame(s)
      case None => s
      case Some((_, rest)) => After(rest, n - 1)
  }

  lemma FrameRoundTrip(f: Frame, rest: seq<byte>)
    requires Printable(f)
    ensures FirstFrame(FrameBytes(f) + rest) == Some((f, rest))
  {
    var len, id := BigEndian(|f.payload|, 3), BigEndian(f.streamId, 4);
    BigEndianLength(|f.payload|, 3);
    BigEndianLength(f.streamId, 4);
    BigEndianRoundTrip(|f.payload|, 3);
    assert Pow256(4) == 0x1_0000_0000;
    BigEndianRoundTrip(f.streamId, 4);
    hide BigEndian, FromBigEndian, Pow256;
    var s := FrameBytes(f) + rest;
    assert s[..3] == len && s[3] == f.kind && s[4] == f.flags && s[5..9] == id;
    var n := FRAME_HEADER_SIZE + |f.payload|;
    assert s[9..n] == f.payload && s[n..] == rest;
  }

  lemma FirstFrameLocal(a: seq<byte>, b: seq<byte>)
    requires FirstFrame(a).Some?
    ensures FirstFrame(a + b) == Some((FirstFrame(a).value.0, FirstFrame(a).value.1 + b))
  {
    hide FromBigEndian;
    assert (a + b)[..3] == a[..3] && (a + b)[5..9] == a[5..9];
    var n := FRAME_HEADER_SIZE + PayloadLength(a);
    assert (a + b)[9..n] == a[9..n] && (a + b)[n..] == a[n..] + b;
  }

  // Reading a stream in two parts finds the same frames and leaves the same residue.
  lemma {:induction false} FramesJoin(a: seq<byte>, b: seq<byte>)
    ensures Frames(a + b) == Frames(a) + Frames(Residue(a) + b)
    ensures Residue(a + b) == Residue(Residue(a) + b)
    decreases |a|
  {
    hide FirstFrame;
    if FirstFrame(a).Some? {
      FirstFrameLocal(a, b);
      FramesJoin(FirstFrame(a).value.1, b);
    }
  }

  // What is kept between reads is less than one frame of maximal size.
  lemma {:induction false} ResidueIncomplete(s: seq<byte>)
    ensures FirstFrame(Residue(s)).None? && |Residue(s)| < Pow256(3) + FRAME_HEADER_SIZE
    decreases |s|
  {
    if FirstFrame(s).Some? { ResidueIncomplete(FirstFrame(s).value.1); }
  }

  lemma FrameThen(f: Frame, rest: seq<byte>)
    requires Printable(f)
    ensures Frames(FrameBytes(f) + rest) == [f] + Frames(rest)
    ensures Residue(FrameBytes(f) + rest) == Residue(rest)
  {
    FrameRoundTrip(f, rest);
    hide FirstFrame, FrameBytes, Printable;
  }

  lemma {:induction false} PrintedFrames(fs: seq<Frame>, rest: seq<byte>)
    requires forall i | 0 <= i < |fs| :: Printable(fs[i])
    ensures Frames(FramesBytes(fs) + rest) == fs + Frames(rest)
    ensures Residue(FramesBytes(fs) + rest) == Residue(rest)
    decreases |fs|
  {
    hide Frames, Residue, FrameBytes, Printable;
    if fs == [] {
      assert FramesBytes(fs) + rest == rest;
    } else {
      var tail := FramesBytes(fs[1..]) + rest;
      assert FramesBytes(fs) + rest == FrameBytes(fs[0]) + tail;
      FrameThen(fs[0], tail);
      PrintedFrames(fs[1..], rest);
      assert [fs[0]] + (fs[1..] + Frames(rest)) == fs + Frames(rest);
    }
  }

  lemma NoBytesNoFrames()
    ensures Frames([]) == [] && Residue([]) == [] && FirstFrame([]).None?
  {
  }

  // ---------------------------------------------------------------- any chunking

  // The frames handed over and the octets kept when a stream arrives chunk by chunk.
  function Feed(kept: seq<byte>, chunks: seq<seq<byte>>): (seq<Frame>, seq<byte>)
    decreases |chunks|
  {
    if chunks == [] then ([], kept)
    else
      var s := kept + chunks[0];
      var (fs, left) := Feed(Residue(s), chunks[1..]);
      (Frames(s) + fs, left)
  }

  lemma {:induction false} ChunkingIrrelevant(kept: seq<byte>, chunks: seq<seq<byte>>)
    requires FirstFrame(kept).None?
    ensures Feed(kept, chunks) == (Frames(kept + Join(chunks)), Residue(kept + Join(chunks)))
    decreases |chunks|
  {
    if chunks == [] {
      assert kept + Join(chunks) == kept;
    } else {
      hide FirstFrame;
      var s := kept + chunks[0];
      assert kept + Join(chunks) == s + Join(chunks[1..]);
      FramesJoin(s, Join(chunks[1..]));
      ResidueIncomplete(s);
      ChunkingIrrelevant(Residue(s), chunks[1..]);
    }
  }

  // Printed frames cut into arbitrary chunks come out as the same frames, in order, with nothing left over.
  lemma PrintedThenChunked(fs: seq<Frame>, chunks: seq<seq<byte>>)
    requires forall i | 0 <= i < |fs| :: Printable(fs[i])
    requires Join(chunks) == FramesBytes(fs)
    ensures Feed([], chunks) == (fs, [])
  {
    hide Frames, Residue, FirstFrame, FramesBytes, Feed, Printable, Join;
    NoBytesNoFrames();
    ChunkingIrrelevant([], chunks);
    var s := FramesBytes(fs);
    assert [] + Join(chunks) == s && s + [] == s && fs + [] == fs;
    PrintedFrames(fs, []);
  }

  // ---------------------------------------------------------------- splitting

  function Continuations(rest: seq<byte>, max: nat, id: nat): (fs: seq<Frame>)
    requires max > 0
    ensures |fs| >= 1
  {
    if |rest| <= max then [Frame(CONTINUATION, END_HEADERS, id, rest)]
    else [Frame(CONTINUATION, 0, id, rest[..max])] + Continuations(rest[max..], max, id)
  }

  // A header block as one HEADERS frame or as HEADERS and CONTINUATION frames.
  function HeaderFrames(block: seq<byte>, max: nat, id: nat, endStream: bool): (fs: seq<Frame>)
    requires max > 0
    ensures |fs| >= 1
  {
    var first := if endStream then END_STREAM else 0;
    if |block| <= max then [Frame(HEADERS, END_HEADERS + first, id, block)]
    else [Frame(HEADERS, first, id, block[..max])] + Continuations(block[max..], max, id)
  }

  lemma HeaderFramesUnfold(block: seq<byte>, max: nat, id: nat, endStream: bool)
    requires max > 0
    ensures HeaderFrames(block, max, id, endStream) ==
            if |block| <= max then [Frame(HEADERS, END_HEADERS + (if endStream then END_STREAM else 0), id, block)]
            else [Frame(HEADERS, if endStream then END_STREAM else 0, id, block[..max])] +
                 Continuations(block[max..], max, id)
  {
  }

  lemma ContinuationsUnfold(rest: seq<byte>, max: nat, id: nat)
    requires max > 0
    ensures Continuations(rest, max, id) ==
            if |rest| <= max then [Frame(CONTINUATION, END_HEADERS, id, rest)]
            else [Frame(CONTINUATION, 0, id, rest[..max])] + Continuations(rest[max..], max, id)
  {
  }

  function DataFrames(data: seq<byte>, max: nat, id: nat, endStream: bool): seq<Frame>
    requires max > 0
  {
    if data == [] then []
    else
      var n := Min(|data|, max);
      [Frame(DATA, if n == |data| && endStream then END_STREAM else 0, id, data[..n])] +
      DataFrames(data[n..], max, id, endStream)
  }

  function Payloads(fs: seq<Frame>): seq<byte> {
    if fs == [] then [] else fs[0].payload + Payloads(fs[1..])
  }

  lemma {:induction false} ContinuationsWhole(rest: seq<byte>, max: nat, id: nat)
    requires max > 0
    ensures var fs := Continuations(rest, max, id);
            Payloads(fs) == rest &&
            forall i | 0 <= i < |fs| ::
              fs[i].kind == CONTINUATION && fs[i].streamId == id && |fs[i].payload| <= max &&
              fs[i].flags == if i == |fs| - 1 then END_HEADERS else 0
    decreases |rest|
  {
    var fs := Continuations(rest, max, id);
    if |rest| > max {
      ContinuationsWhole(rest[max..], max, id);
      assert fs[1..] == Continuations(rest[max..], max, id);
      assert rest == rest[..max] + rest[max..];
    } else {
      assert Payloads(fs) == fs[0].payload + Payloads([]);
    }
  }

  // The fragments make up the block, none exceeds the limit; END_STREAM is on the first frame only,
  // END_HEADERS on the last only.
  lemma HeaderFramesWhole(block: seq<byte>, max: nat, id: nat, endStream: bool)
    requires max > 0
    ensures var fs := HeaderFrames(block, max, id, endStream);
            Payloads(fs) == block &&
            forall i | 0 <= i < |fs| ::
              fs[i].streamId == id && |fs[i].payload| <= max &&
              fs[i].kind == (if i == 0 then HEADERS else CONTINUATION) &&
              (HasEndHeaders(fs[i].flags) <==> i == |fs| - 1) &&
              (HasEndStream(fs[i].flags) <==> i == 0 && endStream)
  {
    var fs := HeaderFrames(block, max, id, endStream);
    if |block| > max {
      ContinuationsWhole(block[max..], max, id);
      assert fs[1..] == Continuations(block[max..], max, id);
      assert block == block[..max] + block[max..];
    } else {
      assert Payloads(fs) == fs[0].payload + Payloads([]);
    }
  }

  // The chunks make up the body, none is empty or exceeds the limit, and END_STREAM is on the last only;
  // so an empty body sends no frame at all, and its end of stream is never announced.
  lemma {:induction false} DataFramesWhole(data: seq<byte>, max: nat, id: nat, endStream: bool)
    requires max > 0
    ensures var fs := DataFrames(data, max, id, endStream);
            Payloads(fs) == data && (fs == [] <==> data == []) &&
            forall i | 0 <= i < |fs| ::
              fs[i].kind == DATA && fs[i].streamId == id && 0 < |fs[i].payload| <= max &&
              (HasEndStream(fs[i].flags) <==> i == |fs| - 1 && endStream)
    decreases |data|
  {
    DataFramesUnfold(data, max, id, endStream);
    if data == [] {
    } else {
      hide DataFrames, Payloads;
      var fs, n := DataFrames(data, max, id, endStream), Min(|data|, max);
      var rest := DataFrames(data[n..], max, id, endStream);
      DataFramesWhole(data[n..], max, id, endStream);
      PayloadsFirst(fs[0], rest);
      assert data == data[..n] + data[n..];
      forall i | 0 < i < |fs| ensures fs[i] == rest[i - 1] {
      }
    }
  }

  lemma DataFramesUnfold(data: seq<byte>, max: nat, id: nat, endStream: bool)
    requires max > 0
    ensures data == [] ==> DataFrames(data, max, id, endStream) == []
    ensures data != [] ==>
              var n := Min(|data|, max);
              DataFrames(data, max, id, endStream) ==
              [Frame(DATA, if n == |data| && endStream then END_STREAM else 0, id, data[..n])] +
              DataFrames(data[n..], max, id, endStream)
  {
  }

  lemma PayloadsFirst(f: Frame, fs: seq<Frame>)
    ensures Payloads([f] + fs) == f.payload + Payloads(fs)
  {
    assert ([f] + fs)[1..] == fs;
  }
}
