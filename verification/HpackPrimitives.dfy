/** The integer and string representations of HPACK (sections 5.1 and 5.2 of RFC 7541), without Huffman coding. */
module HpackPrimitives {
  import opened Bytes
  import opened Basics

  // ---------------------------------------------------------------- what the printer writes

  // (value & 0x7F) | 0x80
  function Group(n: nat): byte {
    n % 128 + 128
  }

  // Seven bits at a time, least significant first; the top bit says that more follow.
  function Groups(n: nat): (g: seq<byte>)
    ensures |g| >= 1
  {
    if n < 128 then [n] else [Group(n)] + Groups(n / 128)
  }

  // 1 << bits
  function Span(bits: nat): (m: nat)
    requires 1 <= bits <= 8
    ensures 2 <= m <= 256
  {
    if bits == 1 then 2 else if bits == 2 then 4 else if bits == 3 then 8 else if bits == 4 then 16
    else if bits == 5 then 32 else if bits == 6 then 64 else if bits == 7 then 128 else 256
  }

  lemma SpanDoubles(bits: nat)
    requires 1 <= bits < 8
    ensures Span(1) == 2 && Span(bits + 1) == 2 * Span(bits)
  {
  }

  // (prefix & ~mask) | low
  function FirstByte(prefix: byte, bits: nat, low: nat): (b: byte)
    requires 1 <= bits <= 8 && low < Span(bits)
    ensures b % Span(bits) == low && b / Span(bits) == prefix / Span(bits)
  {
    var m := Span(bits);
    FirstByteFits(prefix, m, low);
    DivMod(prefix / m, m, low);
    prefix / m * m + low
  }

  lemma FirstByteFits(prefix: byte, m: nat, low: nat)
    requires m in {2, 4, 8, 16, 32, 64, 128, 256} && low < m
    ensures 0 <= prefix / m * m + low < 256
  {
    if m == 2 { assert prefix / 2 * 2 + low < 256; }
    if m == 4 { assert prefix / 4 * 4 + low < 256; }
    if m == 8 { assert prefix / 8 * 8 + low < 256; }
    if m == 16 { assert prefix / 16 * 16 + low < 256; }
    if m == 32 { assert prefix / 32 * 32 + low < 256; }
    if m == 64 { assert prefix / 64 * 64 + low < 256; }
    if m == 128 { assert prefix / 128 * 128 + low < 256; }
    if m == 256 { assert prefix / 256 * 256 + low < 256; }
  }

  lemma DivMod(q: nat, m: nat, r: nat)
    requires r < m
    ensures (q * m + r) % m == r && (q * m + r) / m == q
  {
    var x := q * m + r;
    var p := x / m;
    assert x == m * p + x % m;
    assert (q - p) * m == q * m - p * m && (p - q) * m == p * m - q * m;
    if p < q { AtLeast(q - p, m); }
    if p > q { AtLeast(p - q, m); }
  }

  function IntBytes(value: nat, prefix: byte, bits: nat): (r: seq<byte>)
    requires 1 <= bits <= 8
    ensures |r| >= 1
  {
    var mask := Span(bits) - 1;
    if value < mask then [FirstByte(prefix, bits, value)] else [FirstByte(prefix, bits, mask)] + Groups(value - mask)
  }

  // The length field is a 32-bit cast of the size.
  function Size32(s: Text): (n: nat)
    ensures n < U32 && n <= |s| && (n == |s| <==> |s| < U32)
  {
    |s| % U32
  }

  function StringBytes(s: Text): seq<byte> {
    IntBytes(Size32(s), 0, 7) + s
  }

  method EncodeInt(out: seq<byte>, value: nat, prefix: byte, bits: nat) returns (r: seq<byte>)
    requires 1 <= bits <= 8 && value < U32
    ensures r == out + IntBytes(value, prefix, bits)
  {
    var mask := Span(bits) - 1;
    IntBytesParts(out, value, prefix, bits);
    hide *;
    if value < mask {
      r := out + [FirstByte(prefix, bits, value)];
    } else {
      r := out + [FirstByte(prefix, bits, mask)];
      var v := value - mask;
      while v >= 128
        invariant v >= 0
        invariant r + Groups(v) == out + IntBytes(value, prefix, bits)
      {
        NextGroup(r, v);
        r := r + [Group(v)];
        v := v / 128;
      }
      NextGroup(r, v);
      r := r + [v];
    }
  }

  lemma NextGroup(r: seq<byte>, n: nat)
    ensures n >= 128 ==> r + Groups(n) == r + [Group(n)] + Groups(n / 128) && 0 <= n / 128 < n
    ensures n < 128 ==> r + Groups(n) == r + [n]
  {
    if n >= 128 { Associate(r, [Group(n)], Groups(n / 128)); }
  }

  lemma IntBytesParts(out: seq<byte>, value: nat, prefix: byte, bits: nat)
    requires 1 <= bits <= 8
    ensures var mask := Span(bits) - 1;
            out + IntBytes(value, prefix, bits) ==
            if value < mask then out + [FirstByte(prefix, bits, value)]
            else out + [FirstByte(prefix, bits, mask)] + Groups(value - mask)
  {
    hide Span, FirstByte, Groups;
    var mask := Span(bits) - 1;
    if value >= mask { Associate(out, [FirstByte(prefix, bits, mask)], Groups(value - mask)); }
  }

  method EncodeString(out: seq<byte>, str: Text) returns (r: seq<byte>)
    ensures r == out + StringBytes(str)
  {
    hide Size32, IntBytes;
    ghost var head := IntBytes(Size32(str), 0, 7);
    r := EncodeInt(out, Size32(str), 0, 7);
    for i := 0 to |str|
      invariant r == out + head + str[..i]
    {
      r := r + [str[i]];
    }
    assert str[..|str|] == str;
  }

  // ---------------------------------------------------------------- what the parser reads

  // `Undefined`: the source shifts a 32-bit int by 32 bits or more, or a bit out of it.
  datatype IntParse = IntOk(value: nat, rest: seq<byte>) | IntInvalid | IntUndefined

  function Shl(n: nat, shift: nat): nat {
    n * Pow2(shift)
  }

  function ParseGroups(s: seq<byte>, value: nat, shift: nat): (r: IntParse)
    ensures r.IntOk? ==> |r.rest| < |s|
  {
    if s == [] then IntInvalid
    else if shift >= 32 || Shl(s[0] % 128, shift) >= U32 then IntUndefined
    else
      var v := (value + Shl(s[0] % 128, shift)) % U32;
      if s[0] < 128 then IntOk(v, s[1..]) else ParseGroups(s[1..], v, shift + 7)
  }

  function ParseInt(s: seq<byte>, bits: nat): (r: IntParse)
    requires 1 <= bits <= 8
    ensures r.IntOk? ==> |r.rest| < |s|
  {
    if s == [] then IntInvalid
    else
      var mask := Span(bits) - 1;
      var v := s[0] % Span(bits);
      if v < mask then IntOk(v, s[1..]) else ParseGroups(s[1..], v, 0)
  }

  datatype StringParse = StringOk(value: Text, rest: seq<byte>) | StringInvalid | StringUndefined

  function ParseString(s: seq<byte>): (r: StringParse)
    ensures r.StringOk? ==> |r.rest| < |s|
  {
    match ParseInt(s, 7)
    case IntInvalid => StringInvalid
    case IntUndefined => StringUndefined
    case IntOk(len, rest) => if len > |rest| then StringInvalid else StringOk(rest[..len], rest[len..])
  }

  datatype Status = Good | Invalid | Undefined

  // The cursor moves only on success.
  method DecodeInt(data: seq<byte>, pos: nat, bits: nat) returns (st: Status, value: nat, next: nat)
    requires pos <= |data| && 1 <= bits <= 8
    ensures match ParseInt(data[pos..], bits)
            case IntOk(v, rest) => st == Good && value == v && pos < next <= |data| && data[next..] == rest
            case IntInvalid => st == Invalid && next == pos
            case IntUndefined => st == Undefined && next == pos
  {
    value, next := 0, pos;
    if pos >= |data| { return Invalid, 0, pos; }
    var mask := Span(bits) - 1;
    var v := data[pos] % Span(bits);
    var at := pos + 1;
    if v < mask { return Good, v, at; }
    var shift := 0;
    ghost var goal := ParseGroups(data[pos + 1..], v, 0);
    while at < |data|
      invariant pos < at <= |data|
      invariant v >= 0
      invariant ParseGroups(data[at..], v, shift) == goal
    {
      var b := data[at];
      if shift >= 32 || Shl(b % 128, shift) >= U32 { return Undefined, 0, pos; }
      assert data[at..][1..] == data[at + 1..];
      v := (v + Shl(b % 128, shift)) % U32;
      at := at + 1;
      shift := shift + 7;
      if b < 128 { return Good, v, at; }
    }
    st := Invalid;
  }

  method DecodeString(data: seq<byte>, pos: nat) returns (st: Status, value: Text, next: nat)
    requires pos <= |data|
    ensures match ParseString(data[pos..])
            case StringOk(v, rest) => st == Good && value == v && pos < next <= |data| && data[next..] == rest
            case StringInvalid => st == Invalid && next == pos
            case StringUndefined => st == Undefined && next == pos
  {
    value := [];
    var len;
    st, len, next := DecodeInt(data, pos, 7);
    if st != Good { return; }
    if next + len > |data| { return Invalid, [], pos; }
    value := data[next..next + len];
    assert data[next..][..len] == value && data[next..][len..] == data[next + len..];
    next := next + len;
  }

  // ---------------------------------------------------------------- the two undo each other

  lemma {:induction false} GroupsParse(n: nat, value: nat, shift: nat, rest: seq<byte>)
    requires shift < 32 && value + Shl(n, shift) < U32
    ensures ParseGroups(Groups(n) + rest, value, shift) == IntOk(value + Shl(n, shift), rest)
    decreases n
  {
    hide Shl;
    var s := Groups(n) + rest;
    if n < 128 {
      assert s[0] == n && s[1..] == rest;
    } else {
      GroupSplit(n, value, shift);
      assert s[0] == n % 128 + 128 && s[1..] == Groups(n / 128) + rest;
      GroupsParse(n / 128, value + Shl(n % 128, shift), shift + 7, rest);
    }
  }

  // One seven-bit group peeled off.
  lemma GroupSplit(n: nat, value: nat, shift: nat)
    requires n >= 128 && value + Shl(n, shift) < U32
    ensures Shl(n, shift) == Shl(n % 128, shift) + Shl(n / 128, shift + 7)
    ensures shift + 7 < 32
  {
    Pow2Is32();
    Pow2Add(shift, 7);
    Distribute(n % 128, n / 128, Pow2(shift));
    AtLeast(n / 128, Pow2(shift + 7));
    if shift + 7 > 32 { Pow2Grows(32, shift + 7); }
  }

  lemma Distribute(a: nat, q: nat, p: nat)
    ensures (a + q * 128) * p == a * p + q * (p * 128)
    ensures a * p >= 0 && q * (p * 128) >= 0
  {
  }

  lemma AtLeast(q: nat, p: nat)
    requires q >= 1
    ensures q * p >= p
  {
  }

  lemma {:induction false} GroupsPrefixRejected(n: nat, value: nat, shift: nat, k: nat)
    requires shift < 32 && value + Shl(n, shift) < U32 && k < |Groups(n)|
    ensures ParseGroups(Groups(n)[..k], value, shift) == IntInvalid
    decreases n
  {
    hide Shl;
    if k > 0 {
      GroupSplit(n, value, shift);
      var s := Groups(n)[..k];
      assert s[0] == n % 128 + 128 && s[1..] == Groups(n / 128)[..k - 1];
      GroupsPrefixRejected(n / 128, value + Shl(n % 128, shift), shift + 7, k - 1);
    }
  }

  lemma {:induction false} GroupsLength(n: nat, k: nat)
    requires k >= 1 && n < Pow2(7 * k)
    ensures |Groups(n)| <= k
    decreases k
  {
    if n >= 128 {
      Pow2Is32();
      assert k > 1;
      Pow2Add(7 * (k - 1), 7);
      assert n / 128 < Pow2(7 * (k - 1));
      GroupsLength(n / 128, k - 1);
    }
  }

  lemma Shl0(n: nat)
    ensures Shl(n, 0) == n
  {
  }

  // Reading back an integer yields it and stops exactly where it ends, whatever follows; the bits of the
  // first octet above the prefix width are those of `prefix`.
  lemma IntRoundTrip(value: nat, prefix: byte, bits: nat, rest: seq<byte>)
    requires 1 <= bits <= 8 && value < U32
    ensures ParseInt(IntBytes(value, prefix, bits) + rest, bits) == IntOk(value, rest)
    ensures IntBytes(value, prefix, bits)[0] / Span(bits) == prefix / Span(bits)
  {
    hide Span, Groups, ParseGroups, Shl;
    var mask := Span(bits) - 1;
    var s := IntBytes(value, prefix, bits) + rest;
    if value < mask {
      assert s[1..] == rest;
    } else {
      assert s[1..] == Groups(value - mask) + rest;
      Shl0(value - mask);
      GroupsParse(value - mask, mask, 0, rest);
    }
  }

  lemma IntAtMostSix(value: nat, prefix: byte, bits: nat)
    requires 1 <= bits <= 8 && value < U32
    ensures |IntBytes(value, prefix, bits)| <= 6
  {
    if value >= Span(bits) - 1 {
      assert value < Pow2(35) by { Pow2Is32(); Pow2Grows(32, 35); }
      GroupsLength(value - (Span(bits) - 1), 5);
    }
  }

  // A cut-off integer is rejected.
  lemma IntPrefixRejected(value: nat, prefix: byte, bits: nat, k: nat)
    requires 1 <= bits <= 8 && value < U32 && k < |IntBytes(value, prefix, bits)|
    ensures ParseInt(IntBytes(value, prefix, bits)[..k], bits) == IntInvalid
  {
    var mask := Span(bits) - 1;
    if k > 0 {
      var s := IntBytes(value, prefix, bits);
      assert s[..k][1..] == Groups(value - mask)[..k - 1];
      Shl0(value - mask);
      GroupsPrefixRejected(value - mask, mask, 0, k - 1);
    }
  }

  // A string comes back, with the cursor exactly behind it, precisely when its size fits in 32 bits.
  lemma StringRoundTrip(s: Text, rest: seq<byte>)
    ensures ParseString(StringBytes(s) + rest) == StringOk(s, rest) <==> |s| < U32
  {
    hide Size32, IntBytes, ParseInt;
    var n := Size32(s);
    assert StringBytes(s) + rest == IntBytes(n, 0, 7) + (s + rest);
    IntRoundTrip(n, 0, 7, s + rest);
    if |s| < U32 {
      assert (s + rest)[..|s|] == s && (s + rest)[|s|..] == rest;
    } else {
      assert |(s + rest)[..n]| < |s|;
    }
  }

  lemma StringPrefixRejected(s: Text, k: nat)
    requires |s| < U32 && k < |StringBytes(s)|
    ensures ParseString(StringBytes(s)[..k]) == StringInvalid
  {
    hide Size32, IntBytes, ParseInt;
    var head := IntBytes(|s|, 0, 7);
    if k < |head| {
      assert StringBytes(s)[..k] == head[..k];
      IntPrefixRejected(|s|, 0, 7, k);
    } else {
      assert StringBytes(s)[..k] == head + s[..k - |head|];
      IntRoundTrip(|s|, 0, 7, s[..k - |head|]);
    }
  }

  // What has been read does not depend on what follows it.
  lemma {:induction false} GroupsLocal(a: seq<byte>, b: seq<byte>, value: nat, shift: nat)
    requires ParseGroups(a, value, shift).IntOk?
    ensures var r := ParseGroups(a, value, shift); ParseGroups(a + b, value, shift) == IntOk(r.value, r.rest + b)
    decreases |a|
  {
    assert (a + b)[1..] == a[1..] + b;
    if a[0] >= 128 {
      GroupsLocal(a[1..], b, (value + Shl(a[0] % 128, shift)) % U32, shift + 7);
    }
  }

  lemma IntLocal(a: seq<byte>, b: seq<byte>, bits: nat)
    requires 1 <= bits <= 8 && ParseInt(a, bits).IntOk?
    ensures var r := ParseInt(a, bits); ParseInt(a + b, bits) == IntOk(r.value, r.rest + b)
  {
    assert (a + b)[1..] == a[1..] + b;
    var v := a[0] % Span(bits);
    if v >= Span(bits) - 1 { GroupsLocal(a[1..], b, v, 0); }
  }

  lemma StringLocal(a: seq<byte>, b: seq<byte>)
    requires ParseString(a).StringOk?
    ensures var r := ParseString(a); ParseString(a + b) == StringOk(r.value, r.rest + b)
  {
    IntLocal(a, b, 7);
    var r := ParseInt(a, 7);
    assert (r.rest + b)[..r.value] == r.rest[..r.value];
    assert (r.rest + b)[r.value..] == r.rest[r.value..] + b;
  }
}
