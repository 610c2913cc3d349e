/** Header blocks of HPACK (section 6 of RFC 7541): the encoder prints a header map over the static table, the
    decoder reads representations one after another into a map.  There is no dynamic table and no Huffman coding. */
module Hpack {
  import opened Bytes
  import opened Basics
  import opened HpackPrimitives
  import OrderedKeys
  import StaticTable

  type Headers = map<Text, Text>

  // ---------------------------------------------------------------- encoder

  function FieldBytes(name: Text, value: Text): seq<byte> {
    var full := StaticTable.FirstIndex(1, name, value, false);
    var named := StaticTable.FirstIndex(1, name, [], true);
    if full > 0 then IntBytes(full, 0x80, 7)
    else if named > 0 then IntBytes(named, 0x40, 6) + StringBytes(value)
    else [0x40] + StringBytes(name) + StringBytes(value)
  }

  function NamesBytes(h: Headers, names: seq<Text>): seq<byte>
    requires forall i | 0 <= i < |names| :: names[i] in h
  {
    if names == [] then []
    else NamesBytes(h, names[..|names| - 1]) + FieldBytes(names[|names| - 1], h[names[|names| - 1]])
  }

  function BlockBytes(h: Headers): seq<byte> {
    var names := OrderedKeys.Sorted(h.Keys);
    assert forall i | 0 <= i < |names| :: names[i] in names;
    NamesBytes(h, names)
  }

  method EncodeField(out: seq<byte>, name: Text, value: Text) returns (r: seq<byte>)
    ensures r == out + FieldBytes(name, value)
  {
    hide IntBytes, StringBytes, StaticTable.Name, StaticTable.Value, StaticTable.FirstIndex;
    var idx := StaticTable.FindStaticIndex(name, value);
    if idx > 0 {
      r := EncodeInt(out, idx, 0x80, 7);
    } else {
      idx := StaticTable.FindStaticNameIndex(name);
      if idx > 0 {
        r := EncodeInt(out, idx, 0x40, 6);
        r := EncodeString(r, value);
      } else {
        var r1 := EncodeString(out + [0x40], name);
        r := EncodeString(r1, value);
        Associate(out, [0x40], StringBytes(name));
        Associate(out, [0x40] + StringBytes(name), StringBytes(value));
      }
    }
  }

  // `out` is the block of the first i fields.
  ghost predicate EncodedUpTo(h: Headers, names: seq<Text>, i: nat, out: seq<byte>) {
    i <= |names| && (forall k | 0 <= k < |names| :: names[k] in h) && out == NamesBytes(h, names[..i])
  }

  lemma EncodedStart(h: Headers)
    ensures EncodedUpTo(h, OrderedKeys.Sorted(h.Keys), 0, [])
  {
    var names := OrderedKeys.Sorted(h.Keys);
    assert forall i | 0 <= i < |names| :: names[i] in names;
  }

  lemma EncodedNext(h: Headers, names: seq<Text>, i: nat, out: seq<byte>)
    requires EncodedUpTo(h, names, i, out) && i < |names|
    ensures names[i] in h && EncodedUpTo(h, names, i + 1, out + FieldBytes(names[i], h[names[i]]))
  {
    hide FieldBytes;
    assert names[..i + 1][..i] == names[..i];
  }

  lemma EncodedAll(h: Headers, out: seq<byte>)
    requires EncodedUpTo(h, OrderedKeys.Sorted(h.Keys), |OrderedKeys.Sorted(h.Keys)|, out)
    ensures out == BlockBytes(h)
  {
    var names := OrderedKeys.Sorted(h.Keys);
    assert names[..|names|] == names;
  }

  method Encode(headers: Headers) returns (out: seq<byte>)
    ensures out == BlockBytes(headers)
  {
    hide *;
    out := [];
    var names := OrderedKeys.Sorted(headers.Keys);
    EncodedStart(headers);
    for i := 0 to |names|
      invariant EncodedUpTo(headers, names, i, out)
    {
      EncodedNext(headers, names, i, out);
      out := EncodeField(out, names[i], headers[names[i]]);
    }
    EncodedAll(headers, out);
  }

  // ---------------------------------------------------------------- decoder

  // One representation read: the field it stores, if any, and what follows it.
  datatype RepParse = RepOk(field: Option<(Text, Text)>, rest: seq<byte>) | RepInvalid | RepUndefined

  // An empty name stores nothing.
  function FieldOf(name: Text, value: Text): Option<(Text, Text)> {
    if name == [] then None else Some((name, value))
  }

  // Name index or new name, then value.
  function ParseLiteral(idx: nat, s: seq<byte>): (r: RepParse)
    ensures r.RepOk? ==> |r.rest| < |s|
  {
    var n := if idx == 0 then ParseString(s)
             else StringOk(if idx <= StaticTable.SIZE then StaticTable.Name(idx) else [], s);
    match n
    case StringInvalid => RepInvalid
    case StringUndefined => RepUndefined
    case StringOk(name, s1) =>
      match ParseString(s1)
      case StringInvalid => RepInvalid
      case StringUndefined => RepUndefined
      case StringOk(value, s2) => RepOk(FieldOf(name, value), s2)
  }

  function ParseRep(s: seq<byte>): (r: RepParse)
    requires s != []
    ensures r.RepOk? ==> |r.rest| < |s|
  {
    if s[0] >= 0x80 then
      match ParseInt(s, 7)
      case IntInvalid => RepInvalid
      case IntUndefined => RepUndefined
      case IntOk(i, rest) =>
        RepOk(if 0 < i <= StaticTable.SIZE then Some((StaticTable.Name(i), StaticTable.Value(i))) else None, rest)
    else if s[0] >= 0x40 then ParseLiteral(s[0] % 0x40, s[1..])
    else if s[0] >= 0x20 then
      match ParseInt(s, 5)
      case IntInvalid => RepInvalid
      case IntUndefined => RepUndefined
      case IntOk(_, rest) => RepOk(None, rest)
    else ParseLiteral(s[0] % 0x10, s[1..])
  }

  datatype Decoded = Decoded(headers: Headers) | DecodeInvalid | DecodeUndefined

  function Store(h: Headers, field: Option<(Text, Text)>): Headers {
    if field.None? then h else h[field.value.0 := field.value.1]
  }

  function DecodeFrom(s: seq<byte>, h: Headers): Decoded
    decreases |s|
  {
    if s == [] then Decoded(h)
    else
      match ParseRep(s)
      case RepInvalid => DecodeInvalid
      case RepUndefined => DecodeUndefined
      case RepOk(field, rest) => DecodeFrom(rest, Store(h, field))
  }

  method DecodeLiteral(data: seq<byte>, pos: nat, idx: nat)
    returns (st: Status, field: Option<(Text, Text)>, next: nat)
    requires pos <= |data|
    ensures match ParseLiteral(idx, data[pos..])
            case RepOk(f, rest) => st == Good && field == f && pos < next <= |data| && data[next..] == rest
            case RepInvalid => st == Invalid
            case RepUndefined => st == Undefined
  {
    hide ParseString, StaticTable.Name;
    field, next := None, pos;
    var name: Text := [];
    if idx == 0 {
      st, name, next := DecodeString(data, pos);
      if st != Good { return; }
    } else if idx <= StaticTable.SIZE {
      name := StaticTable.Name(idx);
    }
    var value;
    st, value, next := DecodeString(data, next);
    if st == Good { field := FieldOf(name, value); }
  }

  // `st` is Good exactly when the whole block is well formed; `headers` is what it says.
  method Decode(data: seq<byte>) returns (st: Status, headers: Headers)
    ensures match DecodeFrom(data, map[])
            case Decoded(h) => st == Good && headers == h
            case DecodeInvalid => st == Invalid
            case DecodeUndefined => st == Undefined
  {
    hide ParseLiteral, ParseInt;
    headers := map[];
    var ptr := 0;
    assert data[0..] == data;
    while ptr < |data|
      invariant ptr <= |data|
      invariant DecodeFrom(data[ptr..], headers) == DecodeFrom(data, map[])
      decreases |data| - ptr
    {
      var b := data[ptr];
      var field: Option<(Text, Text)> := None;
      ghost var s := data[ptr..];
      assert s[0] == b && s[1..] == data[ptr + 1..];
      if b >= 0x80 {
        var i;
        st, i, ptr := DecodeInt(data, ptr, 7);
        if st != Good { return; }
        if 0 < i <= StaticTable.SIZE { field := Some((StaticTable.Name(i), StaticTable.Value(i))); }
      } else if b >= 0x40 {
        st, field, ptr := DecodeLiteral(data, ptr + 1, b % 0x40);
        if st != Good { return; }
      } else if b >= 0x20 {
        var size;
        st, size, ptr := DecodeInt(data, ptr, 5);
        if st != Good { return; }
      } else {
        st, field, ptr := DecodeLiteral(data, ptr + 1, b % 0x10);
        if st != Good { return; }
      }
      assert ParseRep(s) == RepOk(field, data[ptr..]);
      if field.Some? { headers := headers[field.value.0 := field.value.1]; }
    }
    st := Good;
  }

  // ---------------------------------------------------------------- round trip

  lemma LiteralRoundTrip(idx: nat, name: Text, value: Text, rest: seq<byte>)
    requires |name| < U32 && |value| < U32
    requires 0 < idx <= StaticTable.SIZE ==> name == StaticTable.Name(idx)
    requires idx <= StaticTable.SIZE
    ensures ParseLiteral(idx, (if idx == 0 then StringBytes(name) else []) + StringBytes(value) + rest) ==
            RepOk(FieldOf(name, value), rest)
  {
    hide StringBytes, ParseString, StaticTable.Name;
    StringRoundTrip(value, rest);
    if idx == 0 {
      StringRoundTrip(name, StringBytes(value) + rest);
      assert StringBytes(name) + StringBytes(value) + rest == StringBytes(name) + (StringBytes(value) + rest);
    } else {
      assert [] + StringBytes(value) + rest == StringBytes(value) + rest;
    }
  }

  // A table index needs a single octet.
  lemma SmallInt(idx: nat, prefix: byte, bits: nat)
    requires idx <= StaticTable.SIZE && ((bits == 7 && prefix == 0x80) || (bits == 6 && prefix == 0x40))
    ensures IntBytes(idx, prefix, bits) == [prefix + idx]
  {
  }

  lemma IndexedReadBack(full: nat, name: Text, value: Text, rest: seq<byte>)
    requires 0 < full <= StaticTable.SIZE && StaticTable.Matches(full, name, value, false)
    ensures IntBytes(full, 0x80, 7) != []
    ensures ParseRep(IntBytes(full, 0x80, 7) + rest) == RepOk(FieldOf(name, value), rest)
  {
    hide IntBytes, ParseInt, ParseLiteral, StaticTable.Name, StaticTable.Value;
    SmallInt(full, 0x80, 7);
    IntRoundTrip(full, 0x80, 7, rest);
  }

  lemma NamedReadBack(named: nat, name: Text, value: Text, rest: seq<byte>)
    requires |name| < U32 && |value| < U32
    requires 0 < named <= StaticTable.SIZE && StaticTable.Matches(named, name, [], true)
    ensures IntBytes(named, 0x40, 6) != []
    ensures ParseRep(IntBytes(named, 0x40, 6) + StringBytes(value) + rest) == RepOk(FieldOf(name, value), rest)
  {
    hide IntBytes, StringBytes, ParseInt, ParseLiteral, StaticTable.Name;
    SmallInt(named, 0x40, 6);
    LiteralRoundTrip(named, name, value, rest);
    var s := [0x40 + named] + StringBytes(value) + rest;
    assert s[0] == 0x40 + named && s[1..] == [] + StringBytes(value) + rest;
  }

  lemma NewNameReadBack(name: Text, value: Text, rest: seq<byte>)
    requires |name| < U32 && |value| < U32
    ensures ParseRep([0x40] + StringBytes(name) + StringBytes(value) + rest) == RepOk(FieldOf(name, value), rest)
  {
    hide StringBytes, ParseInt, ParseLiteral;
    LiteralRoundTrip(0, name, value, rest);
    var s := [0x40] + StringBytes(name) + StringBytes(value) + rest;
    assert s[0] == 0x40 && s[1..] == StringBytes(name) + StringBytes(value) + rest;
  }

  // One printed field reads back as itself; a field with an empty name is dropped.
  lemma FieldRoundTrip(name: Text, value: Text, rest: seq<byte>)
    requires |name| < U32 && |value| < U32
    ensures FieldBytes(name, value) != []
    ensures ParseRep(FieldBytes(name, value) + rest) == RepOk(FieldOf(name, value), rest)
  {
    hide IntBytes, StringBytes, ParseRep, FieldOf, StaticTable.FirstIndex, StaticTable.Matches;
    var full := StaticTable.FirstIndex(1, name, value, false);
    var named := StaticTable.FirstIndex(1, name, [], true);
    if full > 0 {
      IndexedReadBack(full, name, value, rest);
    } else if named > 0 {
      NamedReadBack(named, name, value, rest);
    } else {
      NewNameReadBack(name, value, rest);
    }
  }

  // The fields listed in `names`, stored in order.
  ghost function StoreAll(h: Headers, names: seq<Text>, into: Headers): Headers
    requires forall i | 0 <= i < |names| :: names[i] in h
  {
    if names == [] then into
    else
      var n := names[|names| - 1];
      Store(StoreAll(h, names[..|names| - 1], into), FieldOf(n, h[n]))
  }

  ghost predicate Fits(h: Headers) {
    forall n | n in h :: |n| < U32 && |h[n]| < U32
  }

  lemma FieldDecodes(name: Text, value: Text, rest: seq<byte>, into: Headers)
    requires |name| < U32 && |value| < U32
    ensures DecodeFrom(FieldBytes(name, value) + rest, into) ==
            DecodeFrom(rest, Store(into, FieldOf(name, value)))
  {
    FieldRoundTrip(name, value, rest);
    hide ParseRep, FieldBytes;
  }

  lemma {:induction false} NamesDecode(h: Headers, names: seq<Text>, rest: seq<byte>, into: Headers)
    requires Fits(h) && forall i | 0 <= i < |names| :: names[i] in h
    ensures DecodeFrom(NamesBytes(h, names) + rest, into) == DecodeFrom(rest, StoreAll(h, names, into))
    decreases |names|
  {
    if names == [] {
      assert NamesBytes(h, names) + rest == rest;
    } else {
      hide DecodeFrom, FieldBytes;
      var front, n := names[..|names| - 1], names[|names| - 1];
      var field := FieldBytes(n, h[n]);
      Associate(NamesBytes(h, front), field, rest);
      NamesDecode(h, front, field + rest, into);
      FieldDecodes(n, h[n], rest, StoreAll(h, front, into));
    }
  }

  lemma {:induction false} StoreAllIs(h: Headers, names: seq<Text>, into: Headers)
    requires forall i | 0 <= i < |names| :: names[i] in h
    ensures forall n :: n in StoreAll(h, names, into) <==> n in into || (n in names && n != [])
    ensures forall n | n in names && n != [] :: StoreAll(h, names, into)[n] == h[n]
    ensures forall n | n in into && (n !in names || n == []) :: StoreAll(h, names, into)[n] == into[n]
    decreases |names|
  {
    if names != [] {
      var front := names[..|names| - 1];
      assert names == front + [names[|names| - 1]];
      StoreAllIs(h, front, into);
    }
  }

  lemma DecodeNothing(h: Headers)
    ensures DecodeFrom([], h) == Decoded(h)
  {
  }

  lemma StoreAllOfMap(h: Headers, names: seq<Text>)
    requires forall n :: n in names <==> n in h
    requires forall i | 0 <= i < |names| :: names[i] in h
    ensures StoreAll(h, names, map[]) == h - {[]}
  {
    hide StoreAll;
    StoreAllIs(h, names, map[]);
  }

  lemma FittingReadBack(h: Headers)
    requires Fits(h)
    ensures DecodeFrom(BlockBytes(h), map[]) == Decoded(h - {[]})
  {
    hide DecodeFrom, NamesBytes, StoreAll, OrderedKeys.Sorted, Fits;
    var names := OrderedKeys.Sorted(h.Keys);
    assert forall i | 0 <= i < |names| :: names[i] in names;
    NamesDecode(h, names, [], map[]);
    assert BlockBytes(h) + [] == BlockBytes(h);
    DecodeNothing(StoreAll(h, names, map[]));
    StoreAllOfMap(h, names);
  }

  lemma {:induction false} GroupsFit(s: seq<byte>, value: nat, shift: nat)
    ensures ParseGroups(s, value, shift).IntOk? ==> ParseGroups(s, value, shift).value < U32
    decreases |s|
  {
    hide Shl;
    if s != [] { GroupsFit(s[1..], (value + Shl(s[0] % 128, shift)) % U32, shift + 7); }
  }

  lemma StringFits(s: seq<byte>)
    ensures ParseString(s).StringOk? ==> |ParseString(s).value| < U32
  {
    hide ParseGroups;
    if s != [] { GroupsFit(s[1..], s[0] % Span(7), 0); }
  }

  lemma LiteralFits(idx: nat, s: seq<byte>)
    ensures match ParseLiteral(idx, s)
            case RepOk(Some(f), _) => |f.0| < U32 && |f.1| < U32
            case _ => true
  {
    hide ParseString;
    StringFits(s);
    if idx == 0 && ParseString(s).StringOk? { StringFits(ParseString(s).rest); }
  }

  // Whatever the decoder stores is shorter than 2^32 octets.
  lemma {:induction false} DecodedFits(s: seq<byte>, h: Headers)
    requires Fits(h)
    ensures DecodeFrom(s, h).Decoded? ==> Fits(DecodeFrom(s, h).headers)
    decreases |s|
  {
    hide ParseLiteral, ParseInt, StaticTable.Name, StaticTable.Value;
    if s != [] && ParseRep(s).RepOk? {
      LiteralFits(s[0] % 0x40, s[1..]);
      LiteralFits(s[0] % 0x10, s[1..]);
      var r := ParseRep(s);
      DecodedFits(r.rest, Store(h, r.field));
    }
  }

  // decode(encode(h)) gives h back, without the entry for the empty name, when no string needs more than 32 bits for
  // its length; no other map without that name comes back.
  lemma BlockRoundTrip(h: Headers)
    ensures Fits(h) ==> DecodeFrom(BlockBytes(h), map[]) == Decoded(h - {[]})
    ensures DecodeFrom(BlockBytes(h), map[]) == Decoded(h - {[]}) ==> Fits(h - {[]})
    ensures [] !in h ==> (DecodeFrom(BlockBytes(h), map[]) == Decoded(h) <==> Fits(h))
  {
    hide DecodeFrom, BlockBytes;
    if Fits(h) { FittingReadBack(h); }
    DecodedFits(BlockBytes(h), map[]);
    if [] !in h { assert h - {[]} == h; }
  }

  // ---------------------------------------------------------------- concatenation

  lemma LiteralLocal(idx: nat, a: seq<byte>, b: seq<byte>)
    requires ParseLiteral(idx, a).RepOk?
    ensures var r := ParseLiteral(idx, a); ParseLiteral(idx, a + b) == RepOk(r.field, r.rest + b)
  {
    hide ParseString;
    if idx == 0 {
      StringLocal(a, b);
      StringLocal(ParseString(a).rest, b);
    } else {
      StringLocal(a, b);
    }
  }

  lemma RepLocal(a: seq<byte>, b: seq<byte>)
    requires a != [] && ParseRep(a).RepOk?
    ensures var r := ParseRep(a); ParseRep(a + b) == RepOk(r.field, r.rest + b)
  {
    hide ParseLiteral, ParseInt;
    assert (a + b)[0] == a[0] && (a + b)[1..] == a[1..] + b;
    if a[0] >= 0x80 {
      IntLocal(a, b, 7);
    } else if a[0] >= 0x40 {
      LiteralLocal(a[0] % 0x40, a[1..], b);
    } else if a[0] >= 0x20 {
      IntLocal(a, b, 5);
    } else {
      LiteralLocal(a[0] % 0x10, a[1..], b);
    }
  }

  // Decoding two well-formed blocks one behind the other merges what they say.
  lemma {:induction false} DecodeJoin(a: seq<byte>, b: seq<byte>, h: Headers)
    requires DecodeFrom(a, h).Decoded?
    ensures DecodeFrom(a + b, h) == DecodeFrom(b, DecodeFrom(a, h).headers)
    decreases |a|
  {
    hide ParseRep;
    if a == [] {
      assert a + b == b;
    } else {
      RepLocal(a, b);
      var r := ParseRep(a);
      DecodeJoin(r.rest, b, Store(h, r.field));
    }
  }
}
