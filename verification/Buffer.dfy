/** The growable byte buffer: a vector with a read and a write index.

    The unread octets `data[readIdx..writeIdx]` are a byte queue with the octets already read behind it; every
    method says what it does to both. */
module Buffers {
  import opened Basics
  import opened Bytes

  const DEFAULT_INITIAL_CAPACITY: nat := 8192
  const MIN_CAPACITY: nat := 1024
  const MAX_CAPACITY: nat := 64 * 1024 * 1024
  const GROWTH_THRESHOLD_DOUBLE: nat := 64 * 1024
  const GROWTH_THRESHOLD_15X: nat := 1024 * 1024
  const GROWTH_LINEAR_INCREMENT: nat := 256 * 1024

  // vector::resize
  function Resized(s: seq<byte>, n: nat): (r: seq<byte>)
    ensures |r| == n
    ensures forall i | 0 <= i < n && i < |s| :: r[i] == s[i]
  {
    if n <= |s| then s[..n] else s + seq(n - |s|, _ => 0)
  }

  // Three regimes, then the need, then the ceiling.
  function Growth(current: nat, required: nat): (r: nat)
    ensures r <= MAX_CAPACITY
    ensures required <= MAX_CAPACITY ==> r >= required
    ensures required > MAX_CAPACITY ==> r == MAX_CAPACITY
    ensures current <= MAX_CAPACITY ==> r >= current
  {
    var grown :=
      if current < GROWTH_THRESHOLD_DOUBLE then current * 2
      else if current < GROWTH_THRESHOLD_15X then current + current / 2
      else current + GROWTH_LINEAR_INCREMENT;
    Min(Max(grown, required), MAX_CAPACITY)
  }

  // Storage doubles up to 64 KiB, then grows by half up to 1 MiB, then by 256 KiB; a need beyond that, and the
  // ceiling of 64 MiB, decide instead.
  lemma GrowthRegimes(current: nat, required: nat)
    ensures required <= 2 * current && current < 65536 ==> Growth(current, required) == 2 * current
    ensures 2 * required <= 3 * current - 1 && 65536 <= current < 1048576 ==>
              Growth(current, required) == current * 3 / 2
    ensures required <= current + 262144 && 1048576 <= current <= 67108864 - 262144 ==>
              Growth(current, required) == current + 262144
    ensures 67108864 - 262144 <= current ==> Growth(current, required) == 67108864
    ensures required > 2 * current && required > current + 262144 && required <= 67108864 ==>
              Growth(current, required) == required
  {
  }

  // Splitting data[i..j] at k.
  lemma Split(data: seq<byte>, i: nat, k: nat, j: nat)
    requires i <= k <= j <= |data|
    ensures data[..k] == data[..i] + data[i..j][..k - i] && data[k..j] == data[i..j][k - i..]
    ensures data[..k][i..] == data[i..k] && data[..k][..i] == data[..i] && data[i..j] == data[i..k] + data[k..j]
  {
  }

  // A longer or shorter vector has the same octets in front.
  lemma ResizedFront(s: seq<byte>, n: nat, i: nat, j: nat)
    requires i <= j <= |s| && j <= n
    ensures Resized(s, n)[..i] == s[..i] && Resized(s, n)[i..j] == s[i..j]
  {
  }

  class Buffer {
    var data: seq<byte>
    var readIdx: nat
    var writeIdx: nat

    ghost predicate Valid()
      reads this
    {
      readIdx <= writeIdx <= |data| <= MAX_CAPACITY
    }

    ghost function Unread(): seq<byte>
      reads this
      requires Valid()
    {
      data[readIdx..writeIdx]
    }

    // The octets read and still in the storage, as far back as `unskip` can go.
    ghost function Behind(): seq<byte>
      reads this
      requires Valid()
    {
      data[..readIdx]
    }

    constructor (initialCapacity: nat)
      ensures Valid() && Unread() == [] && Behind() == []
      ensures |data| == Min(Max(initialCapacity, MIN_CAPACITY), MAX_CAPACITY)
    {
      var cap := Min(Max(initialCapacity, MIN_CAPACITY), MAX_CAPACITY);
      data := seq(cap, _ => 0);
      readIdx, writeIdx := 0, 0;
    }

    // ---------------------------------------------------------------- sizes

    method ReadableBytes() returns (n: nat)
      requires Valid()
      ensures n == |Unread()|
    {
      n := writeIdx - readIdx;
    }

    method WritableBytes() returns (n: nat)
      requires Valid()
      ensures n == |data| - writeIdx == |data| - |Behind()| - |Unread()|
    {
      n := |data| - writeIdx;
    }

    // ---------------------------------------------------------------- room

    method Compact()
      requires Valid()
      modifies this
      ensures Valid() && Unread() == old(Unread())
      ensures Behind() == [] && |data| == old(|data|)
    {
      if readIdx == 0 { return; }
      var len := writeIdx - readIdx;
      data := data[readIdx..writeIdx] + data[len..];
      readIdx, writeIdx := 0, len;
    }

    method Resize(newCapacity: nat) returns (ok: bool)
      requires Valid() && writeIdx <= newCapacity
      modifies this`data
      ensures Valid() && Unread() == old(Unread()) && Behind() == old(Behind())
      ensures ok == (newCapacity <= MAX_CAPACITY)
      ensures |data| == if ok then newCapacity else old(|data|)
    {
      if newCapacity > MAX_CAPACITY { return false; }
      ResizedFront(data, newCapacity, readIdx, writeIdx);
      data := Resized(data, newCapacity);
      ok := true;
    }

    // Always answers true, but there is room exactly when the unread octets and the new ones fit in
    // MAX_CAPACITY together: the growth computation stops at that ceiling and still reports success.
    method EnsureWritable(len: nat) returns (ok: bool)
      requires Valid()
      modifies this
      ensures Valid() && Unread() == old(Unread())
      ensures ok
      ensures |data| - writeIdx >= len <==> |Unread()| + len <= MAX_CAPACITY
      ensures old(|data| - writeIdx) >= len ==> data == old(data) && readIdx == old(readIdx)
      ensures old(|data| - writeIdx) < len ==>
                Behind() == [] &&
                |data| == if old(|data|) - |Unread()| >= len then old(|data|) else Growth(old(|data|), |Unread()| + len)
    {
      var room := WritableBytes();
      if room >= len { return true; }
      if readIdx > 0 {
        Compact();
        room := WritableBytes();
        if room >= len { return true; }
      }
      var required := writeIdx + len;
      ok := Resize(Growth(|data|, required));
    }

    method ReserveCapacity(newCapacity: nat) returns (ok: bool)
      requires Valid()
      modifies this`data
      ensures Valid() && Unread() == old(Unread()) && Behind() == old(Behind())
      ensures ok == (newCapacity <= old(|data|) || newCapacity <= MAX_CAPACITY)
      ensures |data| == if ok then Max(newCapacity, old(|data|)) else old(|data|)
    {
      if newCapacity <= |data| { return true; }
      if newCapacity > MAX_CAPACITY { return false; }
      ok := Resize(newCapacity);
    }

    method Clear()
      requires Valid()
      modifies this`readIdx, this`writeIdx
      ensures Valid() && Unread() == [] && Behind() == []
    {
      readIdx, writeIdx := 0, 0;
    }

    method Reset()
      requires Valid()
      modifies this
      ensures Valid() && Unread() == [] && Behind() == [] && |data| == DEFAULT_INITIAL_CAPACITY
    {
      readIdx, writeIdx := 0, 0;
      data := Resized(data, DEFAULT_INITIAL_CAPACITY);
    }

    method ShrinkToFit()
      requires Valid()
      modifies this
      ensures Valid() && Unread() == old(Unread()) && Behind() == []
      ensures |data| == if old(Unread()) == [] then DEFAULT_INITIAL_CAPACITY else |Unread()|
    {
      var needed := ReadableBytes();
      if needed == 0 {
        Reset();
        return;
      }
      Compact();
      if writeIdx < |data| {
        var ok := Resize(writeIdx);
      }
    }

    // ---------------------------------------------------------------- writing

    // memcpy to the write pointer, after room has been made
    method Append(bytes: seq<byte>)
      requires Valid() && |data| - writeIdx >= |bytes|
      modifies this`data, this`writeIdx
      ensures Valid() && Unread() == old(Unread()) + bytes && Behind() == old(Behind())
      ensures |data| == old(|data|) && writeIdx == old(writeIdx) + |bytes|
    {
      data := data[..writeIdx] + bytes + data[writeIdx + |bytes|..];
      Commit(|bytes|);
    }

    // Commits no more than the room there is.
    method Commit(len: nat)
      requires Valid()
      modifies this`writeIdx
      ensures Valid() && writeIdx == Min(old(writeIdx) + len, |data|)
      ensures Unread() == data[readIdx..writeIdx] && Behind() == old(Behind())
    {
      writeIdx := writeIdx + Min(len, |data| - writeIdx);
    }

    // `ensure_writable` answers true even without room; the copy then runs over the end of the storage.  `defined`
    // says that it does not.
    method Write(bytes: seq<byte>) returns (n: nat, defined: bool)
      requires Valid()
      modifies this
      ensures Valid() && (defined <==> old(|Unread()|) + |bytes| <= MAX_CAPACITY)
      ensures defined ==> Unread() == old(Unread()) + bytes && n == |bytes|
      ensures defined && (bytes == [] || old(|data| - writeIdx) >= |bytes|) ==>
                Behind() == old(Behind()) && |data| == old(|data|)
      ensures defined && old(|data| - writeIdx) < |bytes| ==>
                Behind() == [] &&
                |data| == if old(|data| - |Unread()|) >= |bytes| then old(|data|)
                          else Growth(old(|data|), old(|Unread()|) + |bytes|)
    {
      n, defined := 0, true;
      if bytes == [] { return; }
      var ok := EnsureWritable(|bytes|);
      if ok {
        defined := |data| - writeIdx >= |bytes|;
        if defined {
          Append(bytes);
          n := |bytes|;
        }
      }
    }

    // ---------------------------------------------------------------- reading

    method Skip(len: nat)
      requires Valid()
      modifies this`readIdx
      ensures Valid() && Unread() == old(Unread())[Min(len, old(|Unread()|))..]
      ensures Behind() == old(Behind()) + old(Unread())[..Min(len, old(|Unread()|))]
    {
      Split(data, readIdx, readIdx + Min(len, writeIdx - readIdx), writeIdx);
      readIdx := readIdx + Min(len, writeIdx - readIdx);
    }

    // Steps back over octets already read, at most to the start of the storage.
    method Unskip(len: nat)
      requires Valid()
      modifies this`readIdx
      ensures var k := |old(Behind())| - Min(len, |old(Behind())|);
              Valid() && Behind() == old(Behind())[..k] && Unread() == old(Behind())[k..] + old(Unread())
    {
      Split(data, readIdx - Min(len, readIdx), readIdx, writeIdx);
      if len <= readIdx {
        readIdx := readIdx - len;
      } else {
        readIdx := 0;
      }
    }

    method Peek(len: nat) returns (r: seq<byte>)
      requires Valid()
      ensures r == Unread()[..Min(len, |Unread()|)]
    {
      var n := Min(len, writeIdx - readIdx);
      r := data[readIdx..readIdx + n];
    }

    method PeekAt(offset: nat) returns (ok: bool, b: byte)
      requires Valid()
      ensures ok == (offset < |Unread()|)
      ensures b == if ok then Unread()[offset] else 0
    {
      if offset >= writeIdx - readIdx { return false, 0; }
      return true, data[readIdx + offset];
    }

    method Read(len: nat) returns (r: seq<byte>)
      requires Valid()
      modifies this`readIdx
      ensures Valid() && old(Unread()) == r + Unread() && Behind() == old(Behind()) + r
      ensures |r| == Min(len, old(|Unread()|))
    {
      var n := Min(len, writeIdx - readIdx);
      r := data[readIdx..readIdx + n];
      Skip(n);
    }

    // ---------------------------------------------------------------- big-endian integers

    method WriteUint(value: nat, width: nat) returns (n: nat, defined: bool)
      requires Valid() && value < Pow256(width)
      modifies this
      ensures Valid() && (defined <==> old(|Unread()|) + width <= MAX_CAPACITY)
      ensures defined ==> Unread() == old(Unread()) + BigEndian(value, width) && n == width
    {
      BigEndianLength(value, width);
      n, defined := Write(BigEndian(value, width));
    }

    // Too few octets: nothing is consumed and 0 is returned.
    method ReadUint(width: nat) returns (ok: bool, value: nat)
      requires Valid()
      modifies this`readIdx
      ensures Valid() && ok == (old(|Unread()|) >= width)
      ensures ok ==> value == FromBigEndian(old(Unread())[..width]) && Unread() == old(Unread())[width..] &&
                     Behind() == old(Behind()) + old(Unread())[..width]
      ensures !ok ==> value == 0 && Unread() == old(Unread()) && Behind() == old(Behind())
    {
      if writeIdx - readIdx < width { return false, 0; }
      var r := Read(width);
      assert old(Unread())[..width] == r && old(Unread())[width..] == Unread();
      return true, FromBigEndian(r);
    }
  }

  // ---------------------------------------------------------------- every sequence of operations

  datatype Op =
    | OpWrite(bytes: seq<byte>)
    | OpRead(len: nat)
    | OpPeek(len: nat)
    | OpSkip(len: nat)
    | OpUnskip(len: nat)
    | OpCompact
    | OpEnsureWritable(len: nat)
    | OpReserve(len: nat)
    | OpShrink
    | OpClear
    | OpReset

  // A tape with the octets read, those to be read, and room for more.
  datatype Tape = Tape(behind: seq<byte>, unread: seq<byte>, capacity: nat)

  ghost function TapeOf(b: Buffer): Tape
    reads b
    requires b.Valid()
  {
    Tape(b.Behind(), b.Unread(), |b.data|)
  }

  function Room(t: Tape): int {
    t.capacity - |t.behind| - |t.unread|
  }

  // Drops the octets read when there is no room, and grows when that is not enough.
  function WithRoom(t: Tape, len: nat): Tape {
    if Room(t) >= len then t
    else if t.capacity - |t.unread| >= len then t.(behind := [])
    else t.(behind := [], capacity := Growth(t.capacity, |t.unread| + len))
  }

  function Forward(t: Tape, len: nat): Tape {
    var n := Min(len, |t.unread|);
    t.(behind := t.behind + t.unread[..n], unread := t.unread[n..])
  }

  function Back(t: Tape, len: nat): Tape {
    var k := |t.behind| - Min(len, |t.behind|);
    t.(behind := t.behind[..k], unread := t.behind[k..] + t.unread)
  }

  // What an operation does to the tape, and what it hands out.
  function TapeStep(t: Tape, op: Op): (Tape, seq<byte>) {
    match op
    case OpWrite(bytes) =>
      if bytes == [] then (t, []) else (WithRoom(t, |bytes|).(unread := t.unread + bytes), [])
    case OpRead(len) => (Forward(t, len), t.unread[..Min(len, |t.unread|)])
    case OpPeek(len) => (t, t.unread[..Min(len, |t.unread|)])
    case OpSkip(len) => (Forward(t, len), [])
    case OpUnskip(len) => (Back(t, len), [])
    case OpCompact => (t.(behind := []), [])
    case OpEnsureWritable(len) => (WithRoom(t, len), [])
    case OpReserve(len) => (t.(capacity := if len <= MAX_CAPACITY then Max(len, t.capacity) else t.capacity), [])
    case OpShrink => (Tape([], t.unread, if t.unread == [] then DEFAULT_INITIAL_CAPACITY else |t.unread|), [])
    case OpClear => (Tape([], [], t.capacity), [])
    case OpReset => (Tape([], [], DEFAULT_INITIAL_CAPACITY), [])
  }

  function TapeRun(t: Tape, ops: seq<Op>): (Tape, seq<byte>)
    decreases |ops|
  {
    if ops == [] then (t, [])
    else
      var (t1, out1) := TapeStep(t, ops[0]);
      var (t2, out2) := TapeRun(t1, ops[1..]);
      (t2, out1 + out2)
  }

  // Every write is defined.
  predicate TapeFits(t: Tape, ops: seq<Op>)
    decreases |ops|
  {
    ops == [] ||
    ((ops[0].OpWrite? ==> |t.unread| + |ops[0].bytes| <= MAX_CAPACITY) && TapeFits(TapeStep(t, ops[0]).0, ops[1..]))
  }

  method Apply(b: Buffer, op: Op) returns (out: seq<byte>)
    requires b.Valid() && (op.OpWrite? ==> |b.Unread()| + |op.bytes| <= MAX_CAPACITY)
    modifies b
    ensures b.Valid() && (TapeOf(b), out) == TapeStep(old(TapeOf(b)), op)
  {
    RoomIs(b);
    hide Growth, Buffer.Unread, Buffer.Behind;
    out := [];
    var n, ok;
    match op {
      case OpWrite(bytes) =>
        n, ok := b.Write(bytes);
        if bytes == [] { NothingWritten(old(b.Unread())); }
      case OpRead(len) =>
        out := b.Read(len);
        FrontAndRest(old(b.Unread()), out, b.Unread());
      case OpPeek(len) => out := b.Peek(len);
      case OpSkip(len) => b.Skip(len);
      case OpUnskip(len) => b.Unskip(len);
      case OpCompact => b.Compact();
      case OpEnsureWritable(len) => ok := b.EnsureWritable(len);
      case OpReserve(len) => ok := b.ReserveCapacity(len);
      case OpShrink => b.ShrinkToFit();
      case OpClear => b.Clear();
      case OpReset => b.Reset();
    }
  }

  lemma RoomIs(b: Buffer)
    requires b.Valid()
    ensures |b.data| - b.writeIdx == Room(TapeOf(b))
  {
  }

  lemma NothingWritten(s: seq<byte>)
    ensures s + [] == s
  {
  }

  lemma FrontAndRest(s: seq<byte>, a: seq<byte>, b: seq<byte>)
    requires s == a + b
    ensures s[..|a|] == a && s[|a|..] == b
  {
  }

  // A buffer put through any sequence of operations is that tape.
  method Simulate(b: Buffer, ops: seq<Op>) returns (out: seq<byte>)
    requires b.Valid() && TapeFits(TapeOf(b), ops)
    modifies b
    ensures b.Valid() && (TapeOf(b), out) == TapeRun(old(TapeOf(b)), ops)
    decreases |ops|
  {
    out := [];
    if ops == [] { return; }
    out := Apply(b, ops[0]);
    hide TapeStep;
    var rest := Simulate(b, ops[1..]);
    out := out + rest;
  }

  // ---------------------------------------------------------------- the tape as a byte queue

  // What an operation other than `unskip` does to the byte queue, and what it hands out.
  function QueueStep(q: seq<byte>, op: Op): (seq<byte>, seq<byte>) {
    match op
    case OpWrite(bytes) => (q + bytes, [])
    case OpRead(len) => (q[Min(len, |q|)..], q[..Min(len, |q|)])
    case OpPeek(len) => (q, q[..Min(len, |q|)])
    case OpSkip(len) => (q[Min(len, |q|)..], [])
    case OpClear => ([], [])
    case OpReset => ([], [])
    case _ => (q, [])
  }

  function QueueRun(q: seq<byte>, ops: seq<Op>): (seq<byte>, seq<byte>)
    decreases |ops|
  {
    if ops == [] then (q, [])
    else
      var (q1, out1) := QueueStep(q, ops[0]);
      var (q2, out2) := QueueRun(q1, ops[1..]);
      (q2, out1 + out2)
  }

  lemma StepIsQueue(t: Tape, op: Op)
    requires !op.OpUnskip?
    ensures (TapeStep(t, op).0.unread, TapeStep(t, op).1) == QueueStep(t.unread, op)
  {
    hide Growth;
    assert t.unread + [] == t.unread;
  }

  // Compaction, growth and shrinking cannot be told from outside as long as nobody steps back.
  lemma {:induction false} TapeIsQueue(t: Tape, ops: seq<Op>)
    requires forall i | 0 <= i < |ops| :: !ops[i].OpUnskip?
    ensures (TapeRun(t, ops).0.unread, TapeRun(t, ops).1) == QueueRun(t.unread, ops)
    decreases |ops|
  {
    if ops != [] {
      StepIsQueue(t, ops[0]);
      hide TapeStep, QueueStep;
      TapeIsQueue(TapeStep(t, ops[0]).0, ops[1..]);
    }
  }

  // ---------------------------------------------------------------- stepping back

  // Everything on the tape.
  function Line(t: Tape): seq<byte> {
    t.behind + t.unread
  }

  function Written(ops: seq<Op>): seq<byte> {
    if ops == [] then [] else (if ops[0].OpWrite? then ops[0].bytes else []) + Written(ops[1..])
  }

  // The operation drops nothing from the tape.
  predicate Keeps(t: Tape, op: Op) {
    match op
    case OpWrite(bytes) => t.behind == [] || bytes == [] || Room(t) >= |bytes|
    case OpEnsureWritable(len) => t.behind == [] || Room(t) >= len
    case OpCompact => t.behind == []
    case OpShrink => t.behind == []
    case OpClear => Line(t) == []
    case OpReset => Line(t) == []
    case _ => true
  }

  predicate AllKeep(t: Tape, ops: seq<Op>)
    decreases |ops|
  {
    ops == [] || (Keeps(t, ops[0]) && AllKeep(TapeStep(t, ops[0]).0, ops[1..]))
  }

  lemma StepLine(t: Tape, op: Op)
    ensures var more := if op.OpWrite? then op.bytes else [];
            var t1 := TapeStep(t, op).0;
            |Line(t1)| <= |Line(t)| + |more| &&
            if Keeps(t, op) then Line(t1) == Line(t) + more else |Line(t1)| < |Line(t)| + |more|
  {
    hide Growth;
    assert Line(t) + [] == Line(t);
    if op.OpWrite? { Associate(t.behind, t.unread, op.bytes); }
  }

  // What was on the tape is still there after any operations, followed by what they wrote, if and only if none of
  // them compacts or clears.
  lemma {:induction false} LineKept(t: Tape, ops: seq<Op>)
    ensures var t1 := TapeRun(t, ops).0;
            |Line(t1)| <= |Line(t)| + |Written(ops)| && (Line(t1) == Line(t) + Written(ops) <==> AllKeep(t, ops))
    decreases |ops|
  {
    if ops == [] {
      assert Line(t) + [] == Line(t);
    } else {
      StepLine(t, ops[0]);
      hide TapeStep, Line, Keeps;
      LineKept(TapeStep(t, ops[0]).0, ops[1..]);
      Associate(Line(t), if ops[0].OpWrite? then ops[0].bytes else [], Written(ops[1..]));
    }
  }

  lemma BackTo(t: Tape, behind: seq<byte>, unread: seq<byte>)
    requires Line(t) == behind + unread && |behind| <= |t.behind|
    ensures Back(t, |t.behind| - |behind|).behind == behind && Back(t, |t.behind| - |behind|).unread == unread
  {
    assert t.behind[..|behind|] == Line(t)[..|behind|] == behind;
    assert t.behind[|behind|..] + t.unread == Line(t)[|behind|..] == unread;
  }

  // Stepping back by as far as the reading position has moved undoes a skip, and every read and skip after it,
  // whatever was written in between, as long as nothing was dropped from the storage.
  lemma BackAgain(t: Tape, len: nat, ops: seq<Op>)
    requires AllKeep(Forward(t, len), ops)
    ensures var end := TapeRun(Forward(t, len), ops).0;
            |end.behind| >= |t.behind| ==>
              var again := Back(end, |end.behind| - |t.behind|);
              again.behind == t.behind && again.unread == t.unread + Written(ops)
  {
    var end := TapeRun(Forward(t, len), ops).0;
    LineKept(Forward(t, len), ops);
    ForwardKeeps(t, len);
    hide TapeRun, AllKeep, Forward, Back, Written;
    Associate(t.behind, t.unread, Written(ops));
    if |end.behind| >= |t.behind| { BackTo(end, t.behind, t.unread + Written(ops)); }
  }

  lemma ForwardKeeps(t: Tape, len: nat)
    ensures Line(Forward(t, len)) == Line(t)
  {
    StepLine(t, OpSkip(len));
    assert Line(t) + [] == Line(t);
  }

  // The same of the buffer itself.
  method SkipThenUnskip(b: Buffer, len: nat, ops: seq<Op>) returns (out: seq<byte>)
    requires b.Valid()
    requires var t := Forward(TapeOf(b), len);
             TapeFits(t, ops) && AllKeep(t, ops) && |TapeRun(t, ops).0.behind| >= |b.Behind()|
    modifies b
    ensures b.Valid() && b.Unread() == old(b.Unread()) + Written(ops) && b.Behind() == old(b.Behind())
  {
    hide *;
    ghost var start := TapeOf(b);
    ReadIndex(b);
    var from := b.readIdx;
    BackAgain(start, len, ops);
    SkipIs(start, len);
    out := Apply(b, OpSkip(len));
    out := Simulate(b, ops);
    ReadIndex(b);
    SkipIs(TapeOf(b), b.readIdx - from);
    var nothing := Apply(b, OpUnskip(b.readIdx - from));
    ReadIndex(b);
  }

  lemma ReadIndex(b: Buffer)
    requires b.Valid()
    ensures b.readIdx == |b.Behind()| && TapeOf(b).behind == b.Behind() && TapeOf(b).unread == b.Unread()
  {
  }

  lemma SkipIs(t: Tape, len: nat)
    ensures TapeStep(t, OpSkip(len)).0 == Forward(t, len) && TapeStep(t, OpUnskip(len)).0 == Back(t, len)
  {
  }

  // ---------------------------------------------------------------- integers as octets

  function Pow256(n: nat): (p: nat)
    ensures p >= 1
  {
    if n == 0 then 1 else 256 * Pow256(n - 1)
  }

  // Most significant octet first.
  function BigEndian(value: nat, width: nat): seq<byte> {
    if width == 0 then [] else BigEndian(value / 256, width - 1) + [value % 256]
  }

  function FromBigEndian(s: seq<byte>): nat {
    if s == [] then 0 else FromBigEndian(s[..|s| - 1]) * 256 + s[|s| - 1]
  }

  lemma {:induction false} BigEndianLength(value: nat, width: nat)
    ensures |BigEndian(value, width)| == width
  {
    if width > 0 { BigEndianLength(value / 256, width - 1); }
  }

  // Reading undoes writing.
  lemma {:induction false} BigEndianRoundTrip(value: nat, width: nat)
    requires value < Pow256(width)
    ensures FromBigEndian(BigEndian(value, width)) == value
  {
    if width > 0 {
      BigEndianRoundTrip(value / 256, width - 1);
      var s := BigEndian(value, width);
      assert s[..|s| - 1] == BigEndian(value / 256, width - 1);
    }
  }

  // And writing undoes reading.
  lemma {:induction false} FromBigEndianRoundTrip(s: seq<byte>)
    ensures FromBigEndian(s) < Pow256(|s|) && BigEndian(FromBigEndian(s), |s|) == s
  {
    if s != [] {
      FromBigEndianRoundTrip(s[..|s| - 1]);
      assert s == s[..|s| - 1] + [s[|s| - 1]];
    }
  }
}
