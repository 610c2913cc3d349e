/** What this receiver makes of header blocks that a sender of the same code has split.

    Every fragment is decoded by itself, so a block split in the middle of a field is refused; and END_STREAM is
    looked at only on a frame that also carries END_HEADERS, so a split request is never answered. */
module Http2Fragments {
  import opened Bytes
  import opened Basics
  import opened HpackPrimitives
  import opened Hpack
  import opened Http2Frames
  import opened Http2Streams
  import OrderedKeys
  import StaticTable

  // ---------------------------------------------------------------- cut-off fields

  lemma LiteralPrefixRejected(idx: nat, name: Text, value: Text, k: nat)
    requires |name| < U32 && |value| < U32 && idx <= StaticTable.SIZE
    requires k < |(if idx == 0 then StringBytes(name) else []) + StringBytes(value)|
    ensures ParseLiteral(idx, ((if idx == 0 then StringBytes(name) else []) + StringBytes(value))[..k]) == RepInvalid
  {
    hide StringBytes, ParseString, StaticTable.Name;
    var first := if idx == 0 then StringBytes(name) else [];
    var s := (first + StringBytes(value))[..k];
    if k < |first| {
      assert s == StringBytes(name)[..k];
      StringPrefixRejected(name, k);
    } else {
      var m := k - |first|;
      assert s == first + StringBytes(value)[..m];
      StringPrefixRejected(value, m);
      if idx == 0 {
        StringRoundTrip(name, StringBytes(value)[..m]);
      } else {
        assert s == StringBytes(value)[..m];
      }
    }
  }

  function LiteralBytes(idx: nat, name: Text, value: Text): seq<byte> {
    (if idx == 0 then StringBytes(name) else []) + StringBytes(value)
  }

  // A field is a single octet, or a literal behind an octet that holds the name index.
  lemma FieldShape(name: Text, value: Text) returns (idx: nat)
    ensures idx <= StaticTable.SIZE
    ensures |FieldBytes(name, value)| == 1 || FieldBytes(name, value) == [0x40 + idx] + LiteralBytes(idx, name, value)
  {
    hide IntBytes, StringBytes, StaticTable.Name, StaticTable.Value, StaticTable.FirstIndex, StaticTable.Matches;
    var full := StaticTable.FirstIndex(1, name, value, false);
    var named := StaticTable.FirstIndex(1, name, [], true);
    idx := if named > 0 then named else 0;
    if full > 0 {
      SmallInt(full, 0x80, 7);
    } else if named > 0 {
      SmallInt(named, 0x40, 6);
    }
  }

  lemma LiteralParsed(first: byte, s: seq<byte>)
    requires 0x40 <= first < 0x80
    ensures ParseRep([first] + s) == ParseLiteral(first % 0x40, s)
  {
    assert ([first] + s)[1..] == s;
  }

  // No proper prefix of a printed field is accepted.
  lemma FieldPrefixRejected(name: Text, value: Text, k: nat)
    requires |name| < U32 && |value| < U32 && 0 < k < |FieldBytes(name, value)|
    ensures ParseRep(FieldBytes(name, value)[..k]) == RepInvalid
  {
    hide FieldBytes, ParseRep, ParseLiteral, StringBytes;
    var idx := FieldShape(name, value);
    var body := LiteralBytes(idx, name, value);
    assert FieldBytes(name, value)[..k] == [0x40 + idx] + body[..k - 1];
    LiteralPrefixRejected(idx, name, value, k - 1);
    LiteralParsed(0x40 + idx, body[..k - 1]);
  }

  // ---------------------------------------------------------------- where a block may be cut

  ghost predicate In(h: Headers, names: seq<Text>) {
    forall i | 0 <= i < |names| :: names[i] in h
  }

  // k octets are exactly the first few fields.
  ghost predicate Boundary(h: Headers, names: seq<Text>, k: nat)
    requires In(h, names)
  {
    k == 0 ||
    (names != [] &&
     var n := |FieldBytes(names[0], h[names[0]])|; k >= n && Boundary(h, names[1..], k - n))
  }

  lemma {:induction false} NamesFront(h: Headers, names: seq<Text>)
    requires names != [] && In(h, names)
    ensures NamesBytes(h, names) == FieldBytes(names[0], h[names[0]]) + NamesBytes(h, names[1..])
    decreases |names|
  {
    hide FieldBytes;
    var front, last := names[..|names| - 1], names[|names| - 1];
    if |names| == 1 {
      assert front == [] && names[1..] == [];
    } else {
      assert front[1..] == names[1..][..|names| - 2];
      NamesFront(h, front);
      Associate(FieldBytes(names[0], h[names[0]]), NamesBytes(h, front[1..]), FieldBytes(last, h[last]));
    }
  }

  // A prefix of a block decodes exactly when it ends at the end of a field.
  lemma {:induction false} PrefixDecodes(h: Headers, names: seq<Text>, k: nat, into: Headers)
    requires Fits(h) && In(h, names) && k <= |NamesBytes(h, names)|
    ensures DecodeFrom(NamesBytes(h, names)[..k], into).Decoded? <==> Boundary(h, names, k)
    decreases |names|
  {
    hide ParseRep, FieldBytes, NamesBytes;
    var s := NamesBytes(h, names)[..k];
    if k == 0 {
      assert s == [];
    } else if names == [] {
      assert false by { NoNames(h); }
    } else {
      var n, v := names[0], h[names[0]];
      var field, rest := FieldBytes(n, v), names[1..];
      NamesFront(h, names);
      FieldRoundTrip(n, v, []);
      if k < |field| {
        assert s == field[..k];
        FieldPrefixRejected(n, v, k);
      } else {
        assert s == field + NamesBytes(h, rest)[..k - |field|];
        FieldDecodes(n, v, NamesBytes(h, rest)[..k - |field|], into);
        PrefixDecodes(h, rest, k - |field|, Store(into, if n == [] then None else Some((n, v))));
      }
    }
  }

  lemma NoNames(h: Headers)
    ensures NamesBytes(h, []) == []
  {
  }

  // Behind a boundary the block goes on as the block of the remaining fields.
  lemma {:induction false} BlockFrom(h: Headers, names: seq<Text>, k: nat) returns (rest: seq<Text>)
    requires In(h, names) && k <= |NamesBytes(h, names)| && Boundary(h, names, k)
    ensures In(h, rest) && NamesBytes(h, names)[k..] == NamesBytes(h, rest)
    ensures forall m: nat :: Boundary(h, rest, m) ==> Boundary(h, names, k + m)
    ensures forall m: nat :: Boundary(h, names, k + m) ==> Boundary(h, rest, m)
    decreases |names|
  {
    hide FieldBytes, NamesBytes;
    if k == 0 {
      rest := names;
    } else {
      var n := |FieldBytes(names[0], h[names[0]])|;
      NamesFront(h, names);
      rest := BlockFrom(h, names[1..], k - n);
      assert NamesBytes(h, names)[k..] == NamesBytes(h, names[1..])[k - n..];
      forall m: nat ensures Boundary(h, rest, m) <==> Boundary(h, names, k + m) {
        assert Boundary(h, names, k + m) <==> Boundary(h, names[1..], (k - n) + m) by {
          assert k + m - n == (k - n) + m && k + m > 0;
        }
      }
    }
  }

  // Every multiple of the frame size inside the block is the end of a field.
  ghost predicate CutsBetweenFields(h: Headers, names: seq<Text>, max: nat)
    requires In(h, names) && max > 0
  {
    forall k: nat | 0 < k < |NamesBytes(h, names)| && k % max == 0 :: Boundary(h, names, k)
  }

  ghost predicate AllDecode(fs: seq<Frame>) {
    forall i | 0 <= i < |fs| :: DecodeFrom(fs[i].payload, map[]).Decoded?
  }

  lemma ModShift(k: nat, max: nat)
    requires max > 0 && k >= max
    ensures (k - max) % max == k % max
  {
    DivMod(k / max - 1, max, k % max);
    assert k == k / max * max + k % max;
    assert k - max == (k / max - 1) * max + k % max;
  }

  lemma CutsShift(h: Headers, names: seq<Text>, max: nat) returns (rest: seq<Text>)
    requires In(h, names) && 0 < max < |NamesBytes(h, names)| && Boundary(h, names, max)
    ensures In(h, rest) && NamesBytes(h, names)[max..] == NamesBytes(h, rest)
    ensures CutsBetweenFields(h, names, max) <==> CutsBetweenFields(h, rest, max)
  {
    hide NamesBytes, Boundary;
    rest := BlockFrom(h, names, max);
    forall k: nat | 0 < k < |NamesBytes(h, names)| && k % max == 0 && CutsBetweenFields(h, rest, max)
      ensures Boundary(h, names, k)
    {
      if k > max { ModShift(k, max); assert Boundary(h, rest, k - max); }
    }
    forall k: nat | 0 < k < |NamesBytes(h, rest)| && k % max == 0 && CutsBetweenFields(h, names, max)
      ensures Boundary(h, rest, k)
    {
      ModShift(k + max, max);
      assert Boundary(h, names, k + max);
    }
  }

  lemma {:induction false} ContinuationsDecode(h: Headers, names: seq<Text>, max: nat, id: nat)
    requires Fits(h) && In(h, names) && max > 0
    ensures AllDecode(Continuations(NamesBytes(h, names), max, id)) <==> CutsBetweenFields(h, names, max)
    decreases |NamesBytes(h, names)|
  {
    var block := NamesBytes(h, names);
    if |block| <= max {
      NoCuts(h, names, max);
      WholeDecodes(h, names);
      OneDecodes(Frame(CONTINUATION, END_HEADERS, id, block));
    } else {
      hide DecodeFrom, NamesBytes, Boundary, CutsBetweenFields, AllDecode, Fits;
      FirstCut(h, names, max);
      AllDecodeCons(Frame(CONTINUATION, 0, id, block[..max]), Continuations(block[max..], max, id));
      if Boundary(h, names, max) {
        var rest := CutsShift(h, names, max);
        ContinuationsDecode(h, rest, max, id);
      }
    }
  }

  lemma NoCuts(h: Headers, names: seq<Text>, max: nat)
    requires In(h, names) && |NamesBytes(h, names)| <= max && max > 0
    ensures CutsBetweenFields(h, names, max)
  {
    hide NamesBytes, Boundary;
    forall k: nat | 0 < k < max ensures k % max == k {
      DivMod(0, max, k);
    }
  }

  lemma OneDecodes(f: Frame)
    ensures AllDecode([f]) <==> DecodeFrom(f.payload, map[]).Decoded?
  {
    AllDecodeCons(f, []);
    assert [f] + [] == [f];
  }

  lemma WholeDecodes(h: Headers, names: seq<Text>)
    requires Fits(h) && In(h, names)
    ensures DecodeFrom(NamesBytes(h, names), map[]).Decoded?
  {
    hide DecodeFrom, NamesBytes;
    NamesDecode(h, names, [], map[]);
    DecodeNothing(StoreAll(h, names, map[]));
    assert NamesBytes(h, names) + [] == NamesBytes(h, names);
  }

  lemma FirstCut(h: Headers, names: seq<Text>, max: nat)
    requires Fits(h) && In(h, names) && 0 < max < |NamesBytes(h, names)|
    ensures DecodeFrom(NamesBytes(h, names)[..max], map[]).Decoded? <==> Boundary(h, names, max)
    ensures !Boundary(h, names, max) ==> !CutsBetweenFields(h, names, max)
  {
    hide DecodeFrom, NamesBytes, Boundary;
    PrefixDecodes(h, names, max, map[]);
    DivMod(1, max, 0);
  }

  lemma AllDecodeCons(f: Frame, fs: seq<Frame>)
    ensures AllDecode([f] + fs) <==> DecodeFrom(f.payload, map[]).Decoded? && AllDecode(fs)
  {
    hide DecodeFrom;
    if AllDecode([f] + fs) {
      assert ([f] + fs)[0] == f;
      assert forall i | 0 <= i < |fs| :: ([f] + fs)[i + 1] == fs[i];
    }
  }

  lemma HeaderFramesDecode(h: Headers, names: seq<Text>, max: nat, id: nat, endStream: bool)
    requires Fits(h) && In(h, names) && max > 0
    ensures AllDecode(HeaderFrames(NamesBytes(h, names), max, id, endStream)) <==> CutsBetweenFields(h, names, max)
  {
    hide NamesBytes, CutsBetweenFields, Fits;
    ContinuationsDecode(h, names, max, id);
    SamePayloads(NamesBytes(h, names), max, id, endStream);
  }

  // Only the kind and the flags tell the first frame from a continuation.
  lemma SamePayloads(block: seq<byte>, max: nat, id: nat, endStream: bool)
    requires max > 0
    ensures AllDecode(HeaderFrames(block, max, id, endStream)) <==> AllDecode(Continuations(block, max, id))
  {
    hide DecodeFrom;
    if |block| <= max {
      OneDecodes(HeaderFrames(block, max, id, endStream)[0]);
      OneDecodes(Continuations(block, max, id)[0]);
    } else {
      hide AllDecode;
      var rest := Continuations(block[max..], max, id);
      AllDecodeCons(HeaderFrames(block, max, id, endStream)[0], rest);
      AllDecodeCons(Continuations(block, max, id)[0], rest);
    }
  }

  // ---------------------------------------------------------------- what the receiver accepts

  // Header frames on a stream fail exactly when one of them does not decode.
  lemma {:induction false} SoloHeaderFrames(s: Option<Stream>, fs: seq<Frame>)
    requires forall i | 0 <= i < |fs| :: fs[i].kind == HEADERS || fs[i].kind == CONTINUATION
    requires s.None? && fs != [] ==> fs[0].kind == HEADERS
    ensures Solo(s, fs, true).1 <==> AllDecode(fs)
    decreases |fs|
  {
    if fs != [] {
      HeaderEffectFine(s, fs[0]);
      hide EffectOn, DecodeFrom;
      AllDecodeCons(fs[0], fs[1..]);
      assert [fs[0]] + fs[1..] == fs;
      SoloHeaderFrames(EffectOn(s, fs[0], true).stream, fs[1..]);
    }
  }

  lemma HeaderEffectFine(s: Option<Stream>, f: Frame)
    requires f.kind == HEADERS || (f.kind == CONTINUATION && s.Some?)
    ensures EffectOn(s, f, true).ret == Fine <==> DecodeFrom(f.payload, map[]).Decoded?
    ensures EffectOn(s, f, true).stream.Some?
  {
    hide DecodeFrom;
  }

  // Decoding into a map is decoding into the empty map and storing the result over it.
  lemma {:induction false} DecodeOver(s: seq<byte>, a: Headers, b: Headers)
    ensures DecodeFrom(s, b).Decoded? <==> DecodeFrom(s, a + b).Decoded?
    ensures DecodeFrom(s, b).Decoded? ==> DecodeFrom(s, a + b).headers == a + DecodeFrom(s, b).headers
    decreases |s|
  {
    hide ParseRep;
    if s != [] && ParseRep(s).RepOk? {
      var r := ParseRep(s);
      assert Store(a + b, r.field) == a + Store(b, r.field);
      DecodeOver(r.rest, a, Store(b, r.field));
    }
  }

  lemma MapsAssociate(a: Headers, b: Headers, c: Headers)
    ensures a + b + c == a + (b + c)
  {
  }

  // Fragments that decode one by one add up to the decoding of the whole block.
  lemma {:induction false} FragmentsWhole(h: Headers, fs: seq<Frame>)
    requires AllDecode(fs) && forall i | 0 <= i < |fs| :: fs[i].kind == HEADERS || fs[i].kind == CONTINUATION
    ensures DecodeFrom(Payloads(fs), map[]).Decoded?
    ensures Fragments(h, fs) == h + DecodeFrom(Payloads(fs), map[]).headers
    decreases |fs|
  {
    if fs == [] {
      assert h + map[] == h;
    } else {
      var d := DecodeFrom(fs[0].payload, map[]).headers;
      hide DecodeFrom;
      assert [fs[0]] + fs[1..] == fs;
      AllDecodeCons(fs[0], fs[1..]);
      FragmentsWhole(h + d, fs[1..]);
      DecodeJoin(fs[0].payload, Payloads(fs[1..]), map[]);
      DecodeOver(Payloads(fs[1..]), d, map[]);
      assert d + map[] == d;
      MapsAssociate(h, d, DecodeFrom(Payloads(fs[1..]), map[]).headers);
    }
  }

  lemma AcceptedFragments(h: Headers, fs: seq<Frame>)
    requires Fits(h) && Payloads(fs) == BlockBytes(h) && AllDecode(fs) && Solo(None, fs, true).1
    requires forall i | 0 <= i < |fs| :: fs[i].kind == HEADERS || fs[i].kind == CONTINUATION
    ensures HeadersOf(Solo(None, fs, true).0) == h - {[]}
  {
    hide DecodeFrom, Solo, Fits, BlockBytes, Fragments, Payloads, AllDecode;
    SoloContents(None, fs, true);
    FragmentsWhole(map[], fs);
    BlockRoundTrip(h);
    assert map[] + (h - {[]}) == h - {[]};
  }

  // A split header block is accepted by a new stream precisely when every cut falls between two fields; it then
  // yields the headers that were sent.  A block cut inside a field is refused as invalid.
  lemma SplitBlockReceived(h: Headers, max: nat, id: nat, endStream: bool)
    requires Fits(h) && max > 0
    ensures In(h, OrderedKeys.Sorted(h.Keys))
    ensures var fs := HeaderFrames(BlockBytes(h), max, id, endStream);
            (Solo(None, fs, true).1 <==> CutsBetweenFields(h, OrderedKeys.Sorted(h.Keys), max)) &&
            (Solo(None, fs, true).1 ==> HeadersOf(Solo(None, fs, true).0) == h - {[]})
  {
    hide DecodeFrom, NamesBytes, CutsBetweenFields, Solo, Fits, OrderedKeys.Sorted, Payloads, HeaderFrames, AllDecode;
    var names := OrderedKeys.Sorted(h.Keys);
    assert forall i | 0 <= i < |names| :: names[i] in names;
    var fs := HeaderFrames(BlockBytes(h), max, id, endStream);
    HeaderFramesWhole(BlockBytes(h), max, id, endStream);
    HeaderFramesDecode(h, names, max, id, endStream);
    SoloHeaderFrames(None, fs);
    if Solo(None, fs, true).1 { AcceptedFragments(h, fs); }
  }

  // No boundary falls inside these octets of the block.
  ghost predicate Whole(h: Headers, names: seq<Text>, p: nat, length: nat) {
    In(h, names) && p + length <= |NamesBytes(h, names)| &&
    forall k: nat | p < k < p + length :: !Boundary(h, names, k)
  }

  lemma FirstWhole(h: Headers, names: seq<Text>)
    requires names != [] && In(h, names)
    ensures names[0] in h && Whole(h, names, 0, |FieldBytes(names[0], h[names[0]])|)
  {
    NamesFront(h, names);
    hide NamesBytes, FieldBytes;
  }

  lemma LaterWhole(h: Headers, names: seq<Text>, p: nat, length: nat)
    requires names != [] && In(h, names) && names[0] in h && Whole(h, names[1..], p, length)
    ensures Whole(h, names, |FieldBytes(names[0], h[names[0]])| + p, length)
  {
    NamesFront(h, names);
    var n := |FieldBytes(names[0], h[names[0]])|;
    hide NamesBytes, FieldBytes, Boundary;
    forall k: nat | n + p < k < n + p + length ensures !Boundary(h, names, k) {
      BoundaryFront(h, names, k);
      assert p < k - n < p + length;
    }
  }

  // The i-th field starts at p.
  lemma {:induction false} InsideField(h: Headers, names: seq<Text>, i: nat) returns (p: nat)
    requires In(h, names) && i < |names|
    ensures Whole(h, names, p, |FieldBytes(names[i], h[names[i]])|)
    decreases i
  {
    hide NamesBytes, FieldBytes, Whole;
    if i == 0 {
      p := 0;
      FirstWhole(h, names);
    } else {
      InFront(h, names);
      var q := InsideField(h, names[1..], i - 1);
      p := |FieldBytes(names[0], h[names[0]])| + q;
      LaterWhole(h, names, q, |FieldBytes(names[i], h[names[i]])|);
    }
  }

  lemma InFront(h: Headers, names: seq<Text>)
    requires names != [] && In(h, names)
    ensures In(h, names[1..]) && names[0] in h
  {
  }

  lemma BoundaryFront(h: Headers, names: seq<Text>, k: nat)
    requires names != [] && In(h, names) && names[0] in h && k > 0
    ensures var n := |FieldBytes(names[0], h[names[0]])|;
            Boundary(h, names, k) ==> k >= n && In(h, names[1..]) && Boundary(h, names[1..], k - n)
  {
    hide FieldBytes;
  }

  lemma MultipleInside(p: nat, length: nat, max: nat) returns (k: nat)
    requires 0 < max < length
    ensures p < k < p + length && k % max == 0
  {
    var q := p / max;
    k := (q + 1) * max;
    DivMod(q + 1, max, 0);
    assert p == q * max + p % max;
    assert k == q * max + max;
  }

  // For instance no block that contains a field longer than a frame is ever accepted back.
  lemma LongFieldRefused(h: Headers, name: Text, max: nat, id: nat, endStream: bool)
    requires Fits(h) && name in h && max > 0
    ensures |FieldBytes(name, h[name])| > max ==>
              !Solo(None, HeaderFrames(BlockBytes(h), max, id, endStream), true).1
  {
    hide *;
    SplitBlockReceived(h, max, id, endStream);
    AllKeysThere(h);
    if |FieldBytes(name, h[name])| > max { LongFieldCut(h, OrderedKeys.Sorted(h.Keys), name, max); }
  }

  lemma AllKeysThere(h: Headers)
    ensures forall n | n in h :: n in OrderedKeys.Sorted(h.Keys)
  {
  }

  lemma LongFieldCut(h: Headers, names: seq<Text>, name: Text, max: nat)
    requires In(h, names) && name in names && name in h && 0 < max < |FieldBytes(name, h[name])|
    ensures !CutsBetweenFields(h, names, max)
  {
    hide FieldBytes, NamesBytes, Boundary;
    var i :| 0 <= i < |names| && names[i] == name;
    var p := InsideField(h, names, i);
    var k := MultipleInside(p, |FieldBytes(name, h[name])|, max);
    assert !Boundary(h, names, k);
  }

  // ---------------------------------------------------------------- the end of the stream

  // How many of a stream's own frames cause its request to be answered.
  function Answers(s: Option<Stream>, fs: seq<Frame>): nat
    decreases |fs|
  {
    if fs == [] then 0
    else
      var e := EffectOn(s, fs[0], true);
      (if e.answered then 1 else 0) + (if e.ret != Fine then 0 else Answers(e.stream, fs[1..]))
  }

  lemma OpenStaysOpen(st: Stream, f: Frame)
    requires st.phase == Open && f.kind == CONTINUATION
    ensures var e := EffectOn(Some(st), f, true); !e.answered && e.stream.Some? && e.stream.value.phase == Open
  {
    hide DecodeFrom;
  }

  lemma {:induction false} ContinuationsNeverAnswer(st: Stream, fs: seq<Frame>)
    requires st.phase == Open && forall i | 0 <= i < |fs| :: fs[i].kind == CONTINUATION
    ensures Answers(Some(st), fs) == 0
    decreases |fs|
  {
    if fs != [] {
      OpenStaysOpen(st, fs[0]);
      hide EffectOn;
      var e := EffectOn(Some(st), fs[0], true);
      if e.ret == Fine { ContinuationsNeverAnswer(e.stream.value, fs[1..]); }
    }
  }

  lemma WholeRequestAnswered(block: seq<byte>, id: nat)
    requires DecodeFrom(block, map[]).Decoded?
    ensures Answers(None, [Frame(HEADERS, END_HEADERS + END_STREAM, id, block)]) == 1
  {
    hide DecodeFrom;
    var fs := [Frame(HEADERS, END_HEADERS + END_STREAM, id, block)];
    assert fs[1..] == [];
  }

  lemma UnfinishedHeadersOpen(f: Frame)
    requires f.kind == HEADERS && !HasEndHeaders(f.flags)
    ensures var e := EffectOn(None, f, true); !e.answered && e.stream.Some? && e.stream.value.phase == Open
  {
    hide DecodeFrom;
  }

  lemma AnswersCons(s: Option<Stream>, f: Frame, fs: seq<Frame>)
    ensures var e := EffectOn(s, f, true);
            Answers(s, [f] + fs) == (if e.answered then 1 else 0) + (if e.ret != Fine then 0 else Answers(e.stream, fs))
  {
    assert ([f] + fs)[1..] == fs;
  }

  lemma SplitAnswers(first: Frame, rest: seq<Frame>)
    requires first.kind == HEADERS && !HasEndHeaders(first.flags)
    requires forall i | 0 <= i < |rest| :: rest[i].kind == CONTINUATION
    ensures Answers(None, [first] + rest) == 0
  {
    UnfinishedHeadersOpen(first);
    AnswersCons(None, first, rest);
    hide EffectOn, Answers;
    var e := EffectOn(None, first, true);
    ContinuationsNeverAnswer(e.stream.value, rest);
  }

  lemma LongHeaderFrames(block: seq<byte>, max: nat, id: nat)
    requires 0 < max < |block|
    ensures HeaderFrames(block, max, id, true) ==
            [Frame(HEADERS, END_STREAM, id, block[..max])] + Continuations(block[max..], max, id)
    ensures forall i | 0 <= i < |Continuations(block[max..], max, id)| ::
              Continuations(block[max..], max, id)[i].kind == CONTINUATION
  {
    ContinuationsWhole(block[max..], max, id);
  }

  // A request without a body, sent by this code's own sender, is answered exactly if its header block fits in
  // one frame: split, its END_STREAM is never noticed.
  lemma SplitRequestUnanswered(h: Headers, max: nat, id: nat)
    requires Fits(h) && max > 0
    ensures Answers(None, HeaderFrames(BlockBytes(h), max, id, true)) == if |BlockBytes(h)| <= max then 1 else 0
  {
    var block := BlockBytes(h);
    if |block| <= max {
      assert DecodeFrom(block, map[]).Decoded? by { BlockRoundTrip(h); }
      hide *;
      WholeRequestAnswered(block, id);
      OneHeaderFrame(block, max, id);
    } else {
      hide *;
      LongHeaderFrames(block, max, id);
      assert !HasEndHeaders(END_STREAM) by { FlagsOfFirst(); }
      SplitAnswers(Frame(HEADERS, END_STREAM, id, block[..max]), Continuations(block[max..], max, id));
    }
  }

  lemma OneHeaderFrame(block: seq<byte>, max: nat, id: nat)
    requires |block| <= max && max > 0
    ensures HeaderFrames(block, max, id, true) == [Frame(HEADERS, END_HEADERS + END_STREAM, id, block)]
  {
  }

  lemma FlagsOfFirst()
    ensures !HasEndHeaders(END_STREAM)
  {
  }
}
