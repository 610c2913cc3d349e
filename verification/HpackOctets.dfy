/** What header blocks say octet by octet (section 6 of RFC 7541): every representation the decoder knows, and which
    of them the encoder chooses. */
module HpackOctets {
  import opened Bytes
  import opened Basics
  import opened HpackPrimitives
  import opened Hpack
  import StaticTable

  // ---------------------------------------------------------------- representations

  const WITHOUT_INDEXING: byte := 0x00
  const NEVER_INDEXED: byte := 0x10
  const WITH_INDEXING: byte := 0x40

  // A literal takes its name from the static table (`idx`), or brings a new one when `idx` is 0.
  datatype Rep =
    | Indexed(i: nat)
    | Literal(form: byte, idx: nat, name: Text, value: Text)
    | SizeUpdate(size: nat)

  predicate Printable(r: Rep) {
    match r
    case Indexed(i) => i < U32
    case Literal(form, idx, name, value) =>
      ((form == WITH_INDEXING && idx < 0x40) || ((form == WITHOUT_INDEXING || form == NEVER_INDEXED) && idx < 0x10)) &&
      |name| < U32 && |value| < U32
    case SizeUpdate(size) => size < U32
  }

  function RepBytes(r: Rep): seq<byte>
    requires Printable(r)
  {
    match r
    case Indexed(i) => IntBytes(i, 0x80, 7)
    case Literal(form, idx, name, value) =>
      [form + idx] + (if idx == 0 then StringBytes(name) else []) + StringBytes(value)
    case SizeUpdate(size) => IntBytes(size, 0x20, 5)
  }

  // The header map after the representation.  Indices outside the table and empty names store nothing.
  function Says(r: Rep, h: Headers): Headers {
    match r
    case Indexed(i) => if 1 <= i <= StaticTable.SIZE then h[StaticTable.Name(i) := StaticTable.Value(i)] else h
    case Literal(_, idx, name, value) =>
      if idx == 0 then (if name == [] then h else h[name := value])
      else if idx <= StaticTable.SIZE then h[StaticTable.Name(idx) := value]
      else h
    case SizeUpdate(_) => h
  }

  function AllBytes(rs: seq<Rep>): seq<byte>
    requires forall i | 0 <= i < |rs| :: Printable(rs[i])
  {
    if rs == [] then [] else RepBytes(rs[0]) + AllBytes(rs[1..])
  }

  function AllSay(rs: seq<Rep>, h: Headers): Headers
    decreases |rs|
  {
    if rs == [] then h else AllSay(rs[1..], Says(rs[0], h))
  }

  // ---------------------------------------------------------------- reading one

  lemma FirstOctet(i: nat, prefix: byte, bits: nat)
    requires (prefix == 0x80 && bits == 7) || (prefix == 0x20 && bits == 5)
    ensures IntBytes(i, prefix, bits) != [] && prefix <= IntBytes(i, prefix, bits)[0] < 2 * prefix
  {
    var m := Span(bits);
    var low := if i < m - 1 then i else m - 1;
    assert prefix / m * m == prefix;
    assert IntBytes(i, prefix, bits)[0] == FirstByte(prefix, bits, low) == prefix + low;
  }

  lemma IndexedRead(i: nat, rest: seq<byte>, h: Headers)
    requires i < U32
    ensures DecodeFrom(IntBytes(i, 0x80, 7) + rest, h) == DecodeFrom(rest, Says(Indexed(i), h))
  {
    FirstOctet(i, 0x80, 7);
    IntRoundTrip(i, 0x80, 7, rest);
    hide IntBytes, ParseInt, ParseLiteral, StaticTable.Name, StaticTable.Value;
  }

  lemma SizeUpdateRead(size: nat, rest: seq<byte>, h: Headers)
    requires size < U32
    ensures DecodeFrom(IntBytes(size, 0x20, 5) + rest, h) == DecodeFrom(rest, h)
  {
    FirstOctet(size, 0x20, 5);
    IntRoundTrip(size, 0x20, 5, rest);
    hide IntBytes, ParseInt, ParseLiteral;
  }

  // What stands behind the first octet of a literal.
  function Tail(idx: nat, name: Text, value: Text): seq<byte> {
    (if idx == 0 then StringBytes(name) else []) + StringBytes(value)
  }

  lemma TailRead(idx: nat, name: Text, value: Text, rest: seq<byte>)
    requires |name| < U32 && |value| < U32
    ensures var n := if idx == 0 then name else if idx <= StaticTable.SIZE then StaticTable.Name(idx) else [];
            ParseLiteral(idx, Tail(idx, name, value) + rest) == RepOk(FieldOf(n, value), rest)
  {
    hide StringBytes, ParseString, StaticTable.Name;
    StringRoundTrip(value, rest);
    if idx == 0 {
      StringRoundTrip(name, StringBytes(value) + rest);
      Associate(StringBytes(name), StringBytes(value), rest);
    } else {
      assert [] + StringBytes(value) == StringBytes(value);
    }
  }

  lemma LiteralParts(form: byte, idx: nat, name: Text, value: Text, rest: seq<byte>)
    requires Printable(Literal(form, idx, name, value))
    ensures var s := RepBytes(Literal(form, idx, name, value)) + rest;
            s != [] && s[0] == form + idx && s[1..] == Tail(idx, name, value) + rest
    ensures RepBytes(Literal(form, idx, name, value)) == [form + idx] + Tail(idx, name, value)
  {
    hide StringBytes;
    Associate([form + idx], if idx == 0 then StringBytes(name) else [], StringBytes(value));
    Associate([form + idx], Tail(idx, name, value), rest);
  }

  lemma LiteralIs(form: byte, idx: nat, name: Text, value: Text, s: seq<byte>)
    requires Printable(Literal(form, idx, name, value)) && s != [] && s[0] == form + idx
    ensures ParseRep(s) == ParseLiteral(idx, s[1..])
  {
    hide ParseLiteral, ParseInt;
  }

  lemma LiteralRead(form: byte, idx: nat, name: Text, value: Text, rest: seq<byte>, h: Headers)
    requires Printable(Literal(form, idx, name, value))
    ensures DecodeFrom(RepBytes(Literal(form, idx, name, value)) + rest, h) ==
            DecodeFrom(rest, Says(Literal(form, idx, name, value), h))
  {
    var s := RepBytes(Literal(form, idx, name, value)) + rest;
    LiteralParts(form, idx, name, value, rest);
    LiteralIs(form, idx, name, value, s);
    TailRead(idx, name, value, rest);
    hide ParseRep, ParseLiteral, RepBytes, Tail, StaticTable.Name;
  }

  lemma RepRead(r: Rep, rest: seq<byte>, h: Headers)
    requires Printable(r)
    ensures RepBytes(r) != [] && DecodeFrom(RepBytes(r) + rest, h) == DecodeFrom(rest, Says(r, h))
  {
    match r
    case Indexed(i) => hide DecodeFrom; IndexedRead(i, rest, h);
    case SizeUpdate(size) => hide DecodeFrom; SizeUpdateRead(size, rest, h);
    case Literal(form, idx, name, value) => hide DecodeFrom; LiteralRead(form, idx, name, value, rest, h);
  }

  // A block of any representations in any order decodes to what they say, one after the other.
  lemma {:induction false} BlockRead(rs: seq<Rep>, h: Headers)
    requires forall i | 0 <= i < |rs| :: Printable(rs[i])
    ensures DecodeFrom(AllBytes(rs), h) == Decoded(AllSay(rs, h))
    decreases |rs|
  {
    hide Printable, RepBytes, Says, DecodeFrom;
    if rs == [] {
      DecodeNothing(h);
    } else {
      RepRead(rs[0], AllBytes(rs[1..]), h);
      BlockRead(rs[1..], Says(rs[0], h));
    }
  }

  // What the fifth octet behind a full prefix must be for the integer to have a value: any sum is taken modulo 2^32.
  lemma LongIntegers(first: byte, bits: nat, a: byte, b: byte, c: byte, d: byte, e: byte, rest: seq<byte>)
    requires 1 <= bits <= 8 && first % Span(bits) == Span(bits) - 1
    requires a >= 128 && b >= 128 && c >= 128 && d >= 128
    ensures var n := Span(bits) - 1 + a % 128 + b % 128 * 0x80 + c % 128 * 0x4000 + d % 128 * 0x20_0000;
            ParseInt([first, a, b, c, d, e] + rest, bits) ==
            if e % 128 >= 16 then IntUndefined
            else if e < 128 then IntOk((n + e * 0x1000_0000) % U32, rest)
            else if rest == [] then IntInvalid
            else IntUndefined
  {
    var m := Span(bits) - 1;
    var v4 := m + a % 128 + b % 128 * 0x80 + c % 128 * 0x4000 + d % 128 * 0x20_0000;
    var s := [first, a, b, c, d, e] + rest;
    assert s[1..] == [a] + ([b] + ([c] + ([d] + ([e] + rest))));
    assert ParseInt(s, bits) == ParseGroups(s[1..], m, 0);
    var v5 := (v4 + e % 128 * 0x1000_0000) % U32;
    Pow2s();
    assert U32 == 0x1_0000_0000;
    hide *;
    FourGroups(a, b, c, d, [e] + rest, m);
    GroupRead(e, rest, v4, 28);
    TooFar(rest, v5);
  }

  lemma TooFar(s: seq<byte>, value: nat)
    ensures ParseGroups(s, value, 35) == if s == [] then IntInvalid else IntUndefined
  {
  }

  lemma FourGroups(a: byte, b: byte, c: byte, d: byte, rest: seq<byte>, value: nat)
    requires a >= 128 && b >= 128 && c >= 128 && d >= 128 && value < 256
    ensures ParseGroups([a] + ([b] + ([c] + ([d] + rest))), value, 0) ==
            ParseGroups(rest, value + a % 128 + b % 128 * 0x80 + c % 128 * 0x4000 + d % 128 * 0x20_0000, 28)
  {
    Pow2s();
    hide ParseGroups, Pow2;
    GroupGoesOn(a, [b] + ([c] + ([d] + rest)), value, 0, 1);
    GroupGoesOn(b, [c] + ([d] + rest), value + a % 128, 7, 0x80);
    GroupGoesOn(c, [d] + rest, value + a % 128 + b % 128 * 0x80, 14, 0x4000);
    GroupGoesOn(d, rest, value + a % 128 + b % 128 * 0x80 + c % 128 * 0x4000, 21, 0x20_0000);
  }

  lemma GroupGoesOn(b: byte, rest: seq<byte>, value: nat, shift: nat, unit: nat)
    requires shift < 32 && Pow2(shift) == unit && b >= 128 && value + b % 128 * unit < U32
    ensures ParseGroups([b] + rest, value, shift) == ParseGroups(rest, value + b % 128 * unit, shift + 7)
  {
    hide Pow2;
    GroupRead(b, rest, value, shift);
  }

  lemma Pow2s()
    ensures Pow2(0) == 1 && Pow2(7) == 0x80 && Pow2(14) == 0x4000 && Pow2(21) == 0x20_0000 && Pow2(28) == 0x1000_0000
  {
    Pow2Is32();
    Pow2Add(7, 7);
    Pow2Add(14, 7);
    Pow2Add(21, 7);
  }

  lemma GroupRead(b: byte, rest: seq<byte>, value: nat, shift: nat)
    requires shift < 32
    ensures ParseGroups([b] + rest, value, shift) ==
            if b % 128 * Pow2(shift) >= U32 then IntUndefined
            else if b < 128 then IntOk((value + b % 128 * Pow2(shift)) % U32, rest)
            else ParseGroups(rest, (value + b % 128 * Pow2(shift)) % U32, shift + 7)
  {
    assert ([b] + rest)[1..] == rest;
  }

  // The Huffman bit in front of a length is ignored: the octets are taken as they are.
  lemma HuffmanBitIgnored(s: Text, rest: seq<byte>)
    requires |s| < 127
    ensures ParseString([0x80 + |s|] + s + rest) == StringOk(s, rest)
  {
    var t := [0x80 + |s|] + s + rest;
    assert t[1..] == s + rest;
    assert (s + rest)[..|s|] == s && (s + rest)[|s|..] == rest;
  }

  // ---------------------------------------------------------------- cut off

  lemma TailPrefixRejected(idx: nat, name: Text, value: Text, k: nat)
    requires |name| < U32 && |value| < U32 && k < |Tail(idx, name, value)|
    ensures ParseLiteral(idx, Tail(idx, name, value)[..k]) == RepInvalid
  {
    hide StringBytes, ParseString, StaticTable.Name;
    var head, t := StringBytes(name), Tail(idx, name, value);
    if idx == 0 && k < |head| {
      assert t[..k] == head[..k];
      StringPrefixRejected(name, k);
    } else if idx == 0 {
      assert t[..k] == head + StringBytes(value)[..k - |head|];
      StringRoundTrip(name, StringBytes(value)[..k - |head|]);
      StringPrefixRejected(value, k - |head|);
    } else {
      assert t == StringBytes(value);
      StringPrefixRejected(value, k);
    }
  }

  lemma LiteralPrefixRejected(form: byte, idx: nat, name: Text, value: Text, k: nat)
    requires Printable(Literal(form, idx, name, value)) && 0 < k < |RepBytes(Literal(form, idx, name, value))|
    ensures ParseRep(RepBytes(Literal(form, idx, name, value))[..k]) == RepInvalid
  {
    hide *;
    var s, t := RepBytes(Literal(form, idx, name, value)), Tail(idx, name, value);
    LiteralParts(form, idx, name, value, []);
    LiteralSizes(form, idx, name, value);
    assert s == [form + idx] + t;
    assert s[..k][0] == form + idx && s[..k][1..] == t[..k - 1];
    LiteralIs(form, idx, name, value, s[..k]);
    TailPrefixRejected(idx, name, value, k - 1);
  }

  lemma LiteralSizes(form: byte, idx: nat, name: Text, value: Text)
    requires Printable(Literal(form, idx, name, value))
    ensures |name| < U32 && |value| < U32 && form + idx < 256
  {
  }

  lemma IntRepPrefixRejected(i: nat, prefix: byte, bits: nat, k: nat)
    requires (prefix == 0x80 && bits == 7) || (prefix == 0x20 && bits == 5)
    requires i < U32 && 0 < k < |IntBytes(i, prefix, bits)|
    ensures ParseRep(IntBytes(i, prefix, bits)[..k]) == RepInvalid
  {
    FirstOctet(i, prefix, bits);
    IntPrefixRejected(i, prefix, bits, k);
    var s := IntBytes(i, prefix, bits)[..k];
    assert s[0] == IntBytes(i, prefix, bits)[0];
    hide IntBytes, ParseInt, ParseLiteral;
  }

  // A representation that is cut off after at least one octet is rejected, whatever has been read before.
  lemma RepPrefixRejected(rs: seq<Rep>, r: Rep, k: nat, h: Headers)
    requires (forall i | 0 <= i < |rs| :: Printable(rs[i])) && Printable(r) && 0 < k < |RepBytes(r)|
    ensures DecodeFrom(AllBytes(rs) + RepBytes(r)[..k], h) == DecodeInvalid
  {
    match r {
      case Indexed(i) => IntRepPrefixRejected(i, 0x80, 7, k);
      case SizeUpdate(size) => IntRepPrefixRejected(size, 0x20, 5, k);
      case Literal(form, idx, name, value) => LiteralPrefixRejected(form, idx, name, value, k);
    }
    var cut := RepBytes(r)[..k];
    hide RepBytes, ParseRep, Printable, AllBytes, AllSay;
    BlockRead(rs, h);
    DecodeJoin(AllBytes(rs), cut, h);
  }

  // ---------------------------------------------------------------- what the encoder chooses

  predicate Full(i: nat, name: Text, value: Text) {
    1 <= i <= StaticTable.SIZE && StaticTable.Name(i) == name && StaticTable.Value(i) == value
  }

  predicate Named(i: nat, name: Text) {
    1 <= i <= StaticTable.SIZE && StaticTable.Name(i) == name
  }

  lemma FullSearch(name: Text, value: Text)
    ensures var full := StaticTable.FirstIndex(1, name, value, false);
            if full > 0 then Full(full, name, value) && forall j: nat | j < full :: !Full(j, name, value)
            else forall j: nat :: !Full(j, name, value)
  {
    hide StaticTable.Name, StaticTable.Value, StaticTable.FirstIndex;
    assert forall j: nat | Full(j, name, value) :: StaticTable.Matches(j, name, value, false);
  }

  lemma NamedSearch(name: Text)
    ensures var named := StaticTable.FirstIndex(1, name, [], true);
            if named > 0 then Named(named, name) && forall j: nat | j < named :: !Named(j, name)
            else forall j: nat :: !Named(j, name)
  {
    hide StaticTable.Name, StaticTable.Value, StaticTable.FirstIndex;
    assert forall j: nat | Named(j, name) :: StaticTable.Matches(j, name, [], true);
  }

  lemma FullIsNamed(i: nat, name: Text, value: Text)
    requires Full(i, name, value)
    ensures Named(i, name) && i <= StaticTable.SIZE
  {
  }

  lemma FieldBytesIs(name: Text, value: Text)
    ensures var full := StaticTable.FirstIndex(1, name, value, false);
            var named := StaticTable.FirstIndex(1, name, [], true);
            FieldBytes(name, value) ==
            if full > 0 then [0x80 + full]
            else if named > 0 then [0x40 + named] + StringBytes(value)
            else [0x40] + StringBytes(name) + StringBytes(value)
  {
    var full := StaticTable.FirstIndex(1, name, value, false);
    var named := StaticTable.FirstIndex(1, name, [], true);
    hide IntBytes, StringBytes, StaticTable.FirstIndex, StaticTable.Matches, Span;
    if full > 0 {
      SmallInt(full, 0x80, 7);
    } else if named > 0 {
      SmallInt(named, 0x40, 6);
    }
  }

  // The least entry with name and value, else the least with the name, else the name itself.
  lemma EncoderChoice(name: Text, value: Text, i: nat)
    ensures Full(i, name, value) && (forall j: nat | j < i :: !Full(j, name, value)) ==>
              FieldBytes(name, value) == [0x80 + i]
    ensures Named(i, name) && (forall j: nat :: !Full(j, name, value)) && (forall j: nat | j < i :: !Named(j, name)) ==>
              FieldBytes(name, value) == [0x40 + i] + StringBytes(value)
    ensures (forall j: nat :: !Named(j, name)) ==>
              FieldBytes(name, value) == [0x40] + StringBytes(name) + StringBytes(value)
  {
    hide *;
    FieldBytesIs(name, value);
    FullSearch(name, value);
    NamedSearch(name);
    var full := StaticTable.FirstIndex(1, name, value, false);
    if full > 0 { FullIsNamed(full, name, value); }
  }
}
