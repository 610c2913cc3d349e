/** Responses are read back as they were built: precisely when their headers are of the form the parser yields. */
module HttpRoundTrip {
  import opened Bytes
  import opened Basics
  import opened HttpText
  import opened HttpParsers
  import OrderedKeys

  // ---------------------------------------------------------------- headers that survive

  ghost predicate WellFormed(name: Text, value: Text) {
    name != [] && Trimmed(name) && Trimmed(value) && COLON !in name && OneLine(name) && OneLine(value) &&
    |name| <= MAX_HEADER_NAME_LEN && |value| <= MAX_HEADER_VALUE_LEN
  }

  ghost predicate AllWellFormed(h: Headers) {
    forall n | n in h :: WellFormed(n, h[n])
  }

  lemma HeaderLineParts(name: Text, value: Text)
    ensures var (line, k) := (HeaderLine(name, value), |name|);
            |line| == k + 2 + |value| && line[..k] == name && line[k] == COLON && line[k + 1..] == [SP] + value
    ensures HeaderLine(name, value) == name + [COLON] + ([SP] + value)
  {
  }

  lemma HeaderLineIsOne(name: Text, value: Text)
    requires OneLine(name) && OneLine(value)
    ensures OneLine(HeaderLine(name, value))
  {
    var none: Text := [];
    assert OneLine(none);
    hide OneLine;
    HeaderLineParts(name, value);
    OneLineJoin(none, SP, value);
    assert none + [SP] + value == [SP] + value;
    OneLineJoin(name, COLON, [SP] + value);
  }

  lemma FirstColon(name: Text, value: Text)
    requires COLON !in name
    ensures IndexOf(HeaderLine(name, value), COLON) == Some(|name|)
  {
    var line, k := HeaderLine(name, value), |name|;
    HeaderLineParts(name, value);
    forall i | 0 <= i < k ensures line[i] != COLON {
      assert line[i] == line[..k][i] && name[i] in name;
    }
    hide HeaderLine, IndexOf;
    IndexOfIs(line, COLON, k);
  }

  lemma HeaderLineRead(name: Text, value: Text)
    requires WellFormed(name, value)
    ensures HeaderOf(HeaderLine(name, value)) == Header(name, value)
    ensures OneLine(HeaderLine(name, value)) && 0 < |HeaderLine(name, value)| < MAX_LINE_LEN
  {
    hide OneLine, HeaderLine, IndexOf, Trim, Trimmed;
    HeaderLineIsOne(name, value);
    HeaderLineParts(name, value);
    FirstColon(name, value);
    TrimmedStays(name);
    TrimmedStays(value);
  }

  function Restrict(h: Headers, names: seq<Text>): Headers
    requires forall n | n in names :: n in h
  {
    map n | n in names :: h[n]
  }

  lemma ReadOne(line: Text, rest: Text)
    requires OneLine(line) && |line| < MAX_LINE_LEN
    ensures ReadLineOf(line + CRLF + rest, MAX_LINE_LEN) == Line(line, rest)
  {
    LineRoundTrip(line, rest);
    hide FirstLine, OneLine;
  }

  lemma HeadersOfOne(name: Text, value: Text, rest: Text, into: Headers, count: nat)
    requires WellFormed(name, value) && count < MAX_HEADERS
    ensures HeadersOf(HeaderLine(name, value) + CRLF + rest, into, count) ==
            HeadersOf(rest, into[name := value], count + 1)
  {
    HeaderLineRead(name, value);
    hide WellFormed, HeaderLine, HeaderOf;
    ReadOne(HeaderLine(name, value), rest);
    hide ReadLineOf;
  }

  // Printed header lines are taken in one after the other.
  lemma {:induction false} HeaderLinesRead(h: Headers, names: seq<Text>, rest: Text, into: Headers, count: nat)
    requires (forall n | n in names :: n in h && WellFormed(n, h[n])) && count + |names| <= MAX_HEADERS
    ensures HeadersOf(HeaderLines(h, names) + rest, into, count) ==
            HeadersOf(rest, into + Restrict(h, names), count + |names|)
    decreases |names|
  {
    hide WellFormed, HeadersOf, HeaderLine;
    if names == [] {
      assert HeaderLines(h, names) + rest == rest;
      assert into + Restrict(h, names) == into;
    } else {
      assert names[0] in names && forall n | n in names[1..] :: n in names;
      var line, tail := HeaderLine(names[0], h[names[0]]) + CRLF, HeaderLines(h, names[1..]);
      Associate(line, tail, rest);
      HeadersOfOne(names[0], h[names[0]], tail + rest, into, count);
      var next := into[names[0] := h[names[0]]];
      HeaderLinesRead(h, names[1..], rest, next, count + 1);
      assert next + Restrict(h, names[1..]) == into + Restrict(h, names) by {
        assert forall n :: n in names <==> n == names[0] || n in names[1..];
      }
    }
  }

  lemma HeadersEnd(rest: Text, into: Headers, count: nat)
    ensures HeadersOf(CRLF + rest, into, count) == HeadersRead(Ok, into, rest)
  {
    var none: Text := [];
    assert none + CRLF + rest == CRLF + rest;
    assert OneLine(none);
    ReadOne(none, rest);
    hide ReadLineOf;
  }

  // ---------------------------------------------------------------- what the parser yields

  lemma CutAtColon(line: Text, k: nat)
    requires OneLine(line) && k < |line|
    ensures OneLine(line[..k]) && OneLine(line[k + 1..])
  {
    assert line == line[..k] + line[k..] && line[k..] == line[k..k + 1] + line[k + 1..];
    OneLinePart(line[..k], line[k..]);
    OneLinePart(line[k..k + 1], line[k + 1..]);
  }

  lemma TrimWithout(s: Text, b: byte)
    requires b !in s
    ensures b !in Trim(s)
  {
    var i := TrimIsPart(s);
    hide Trim;
    forall j | 0 <= j < |Trim(s)| ensures Trim(s)[j] != b {
      assert Trim(s)[j] == s[i + j];
    }
  }

  lemma HeaderOfWellFormed(line: Text)
    requires OneLine(line) && HeaderOf(line).Header?
    ensures WellFormed(HeaderOf(line).name, HeaderOf(line).value)
  {
    var k := IndexOf(line, COLON).value;
    assert COLON !in line[..k];
    hide IndexOf, OneLine, Trim, Trimmed;
    CutAtColon(line, k);
    TrimOneLine(line[..k]);
    TrimOneLine(line[k + 1..]);
    TrimWithout(line[..k], COLON);
  }

  lemma {:induction false} HeadersOfWellFormed(s: Text, h: Headers, count: nat)
    requires AllWellFormed(h) && |h| <= count <= MAX_HEADERS
    ensures AllWellFormed(HeadersOf(s, h, count).headers) && |HeadersOf(s, h, count).headers| <= MAX_HEADERS
    decreases |s|
  {
    hide WellFormed, HeaderOf, FirstLine;
    var r := ReadLineOf(s, MAX_LINE_LEN);
    if r.Line? && r.text != [] && count < MAX_HEADERS && HeaderOf(r.text).Header? {
      FirstLineIsOneLine(s);
      HeaderOfWellFormed(r.text);
      var next := h[HeaderOf(r.text).name := HeaderOf(r.text).value];
      GrowsByOne(h, HeaderOf(r.text).name, HeaderOf(r.text).value);
      HeadersOfWellFormed(r.rest, next, count + 1);
    }
  }

  lemma GrowsByOne(h: Headers, name: Text, value: Text)
    ensures |h[name := value]| <= |h| + 1
  {
    assert h[name := value].Keys == h.Keys + {name};
  }

  // ---------------------------------------------------------------- the response

  // The headers of a response as they are sent.
  function Sent(r: Response): Headers {
    if LengthDue(r) then r.headers[CONTENT_LENGTH := Decimal(|r.body|)] else r.headers
  }

  ghost predicate Readable(h: Headers) {
    AllWellFormed(h) && |h| <= MAX_HEADERS
  }

  lemma NoNameIn(names: seq<Text>, name: Text)
    requires !HasName(names, name)
    ensures name !in names
  {
    hide Lower, CStr;
  }

  function HeadersPart(r: Response): Text {
    HeaderLines(r.headers, OrderedKeys.Sorted(r.headers.Keys)) + LengthLine(r) + CRLF + r.body
  }

  // The lines behind the headers: the added Content-Length, if any, and the empty line.
  lemma TailRead(r: Response, count: nat)
    requires LengthDue(r) ==> WellFormed(CONTENT_LENGTH, Decimal(|r.body|)) && count < MAX_HEADERS
    ensures HeadersOf(LengthLine(r) + (CRLF + r.body), r.headers, count) == HeadersRead(Ok, Sent(r), r.body)
  {
    hide HeadersOf, HeaderLine, Decimal, WellFormed, HasName;
    if LengthDue(r) {
      HeadersOfOne(CONTENT_LENGTH, Decimal(|r.body|), CRLF + r.body, r.headers, count);
      HeadersEnd(r.body, Sent(r), count + 1);
    } else {
      HeadersEnd(r.body, Sent(r), count);
      assert LengthLine(r) + (CRLF + r.body) == CRLF + r.body;
    }
  }

  lemma AllRestricted(h: Headers)
    ensures var names := OrderedKeys.Sorted(h.Keys);
            (forall n | n in names :: n in h) && map[] + Restrict(h, names) == h && |names| == |h|
  {
    var names := OrderedKeys.Sorted(h.Keys);
    assert |h.Keys| == |h|;
    assert forall n :: n in names <==> n in h;
    hide OrderedKeys.Sorted, OrderedKeys.Ascending;
  }

  lemma HeadersPartGrouped(r: Response)
    ensures (forall n | n in OrderedKeys.Sorted(r.headers.Keys) :: n in r.headers)
    ensures HeadersPart(r) ==
            HeaderLines(r.headers, OrderedKeys.Sorted(r.headers.Keys)) + (LengthLine(r) + (CRLF + r.body))
  {
    AllRestricted(r.headers);
    hide HeaderLines, LengthLine, OrderedKeys.Sorted;
    Regroup(HeaderLines(r.headers, OrderedKeys.Sorted(r.headers.Keys)), LengthLine(r), CRLF, r.body);
  }

  lemma HeadersPartRead(r: Response)
    requires Readable(Sent(r))
    ensures HeadersOf(HeadersPart(r), map[], 0) == HeadersRead(Ok, Sent(r), r.body)
  {
    hide *;
    var names := OrderedKeys.Sorted(r.headers.Keys);
    HeadersPartGrouped(r);
    NamesAreGood(r);
    LengthIsGood(r);
    AllRestricted(r.headers);
    LinesRead(r.headers, names, LengthLine(r) + (CRLF + r.body), map[], r.headers);
    TailRead(r, |names|);
  }

  lemma LinesRead(h: Headers, names: seq<Text>, tail: Text, into: Headers, all: Headers)
    requires |names| <= MAX_HEADERS && forall n | n in names :: n in h && WellFormed(n, h[n])
    requires into + Restrict(h, names) == all
    ensures HeadersOf(HeaderLines(h, names) + tail, into, 0) == HeadersOf(tail, all, |names|)
  {
    hide *;
    HeaderLinesRead(h, names, tail, into, 0);
  }

  lemma NamesAreGood(r: Response)
    requires Readable(Sent(r))
    ensures var names := OrderedKeys.Sorted(r.headers.Keys);
            forall n | n in names :: n in r.headers && WellFormed(n, r.headers[n])
  {
    var names := OrderedKeys.Sorted(r.headers.Keys);
    if LengthDue(r) { NoNameIn(names, CONTENT_LENGTH); }
    hide WellFormed, HasName, Decimal, OrderedKeys.Sorted, OrderedKeys.Ascending;
    forall n | n in names ensures n in r.headers && n in Sent(r) && Sent(r)[n] == r.headers[n] {
    }
  }

  lemma LengthIsGood(r: Response)
    requires Readable(Sent(r))
    ensures |OrderedKeys.Sorted(r.headers.Keys)| <= MAX_HEADERS
    ensures LengthDue(r) ==>
              WellFormed(CONTENT_LENGTH, Decimal(|r.body|)) && |OrderedKeys.Sorted(r.headers.Keys)| < MAX_HEADERS
  {
    AllRestricted(r.headers);
    if LengthDue(r) { NoNameIn(OrderedKeys.Sorted(r.headers.Keys), CONTENT_LENGTH); }
    hide WellFormed, HasName, Decimal, OrderedKeys.Sorted, OrderedKeys.Ascending, Restrict;
    if LengthDue(r) {
      assert Sent(r).Keys == r.headers.Keys + {CONTENT_LENGTH};
      assert CONTENT_LENGTH in Sent(r);
    }
  }

  lemma Regroup(a: Text, b: Text, c: Text, d: Text)
    ensures a + b + c + d == a + (b + (c + d))
  {
  }

  // Reading the status line and then the headers of a built response returns the headers as sent, and leaves
  // exactly the body, if and only if these headers are well-formed and not too many.
  lemma ResponseReadBack(r: Response)
    requires OneLine(StatusLine(r)) && |StatusLine(r)| < MAX_LINE_LEN
    ensures var first := ReadLineOf(ResponseBytes(r), MAX_LINE_LEN);
            first == Line(StatusLine(r), HeadersPart(r)) &&
            (HeadersOf(first.rest, map[], 0) == HeadersRead(Ok, Sent(r), r.body) <==> Readable(Sent(r)))
  {
    hide HeadersOf, HeaderLines, LengthLine, StatusLine, ReadLineOf, OneLine, WellFormed, Sent, OrderedKeys.Sorted;
    var names := OrderedKeys.Sorted(r.headers.Keys);
    Regroup5(StatusLine(r), CRLF, HeaderLines(r.headers, names), LengthLine(r), CRLF, r.body);
    ReadOne(StatusLine(r), HeadersPart(r));
    if Readable(Sent(r)) {
      HeadersPartRead(r);
    }
    HeadersOfWellFormed(HeadersPart(r), map[], 0);
  }

  lemma Regroup5(a: Text, b: Text, c: Text, d: Text, e: Text, f: Text)
    ensures a + b + c + d + e + f == a + b + (c + d + e + f)
  {
    Associate(a + b, c, d);
    Associate(a + b, c + d, e);
    Associate(a + b, c + d + e, f);
  }

  // ---------------------------------------------------------------- room for the response

  function HeaderRoom(h: Headers, names: seq<Text>): nat
    requires forall n | n in names :: n in h
  {
    if names == [] then 0
    else
      var last := names[|names| - 1];
      HeaderRoom(h, names[..|names| - 1]) + |last| + |h[last]| + 32
  }

  // The size of the buffer for a response before it is built.
  function Estimate(r: Response): nat {
    1024 + HeaderRoom(r.headers, OrderedKeys.Sorted(r.headers.Keys)) + |r.body| + 64
  }

  // n is the room for the first i headers.
  ghost predicate RoomUpTo(h: Headers, names: seq<Text>, i: nat, n: nat) {
    i <= |names| && (forall x | x in names :: x in h) && (forall x | x in names[..i] :: x in h) &&
    n == HeaderRoom(h, names[..i])
  }

  lemma RoomStart(h: Headers)
    ensures RoomUpTo(h, OrderedKeys.Sorted(h.Keys), 0, 0)
  {
  }

  lemma RoomNext(h: Headers, names: seq<Text>, i: nat, n: nat)
    requires RoomUpTo(h, names, i, n) && i < |names|
    ensures names[i] in h && RoomUpTo(h, names, i + 1, n + |names[i]| + |h[names[i]]| + 32)
  {
    assert names[i] in names && names[..i + 1][..i] == names[..i];
  }

  lemma RoomEnd(h: Headers, names: seq<Text>, n: nat)
    requires RoomUpTo(h, names, |names|, n)
    ensures (forall x | x in names :: x in h) && n == HeaderRoom(h, names)
  {
    assert names[..|names|] == names;
  }

  lemma {:induction false} HeaderLinesFit(h: Headers, names: seq<Text>)
    requires forall n | n in names :: n in h
    ensures |HeaderLines(h, names)| <= HeaderRoom(h, names)
  {
    if names != [] {
      var n := |names| - 1;
      HeaderLinesFit(h, names[..n]);
      HeaderLinesMore(h, names, n);
      assert names[..n + 1] == names;
    }
  }

  lemma DigitsOfSize(n: nat)
    ensures n < U64 ==> |Decimal(n)| <= 20
    ensures n <= 0x8000_0000 ==> |Decimal(n)| <= 10
  {
    assert Pow10(10) == 10000000000;
    assert Pow10(20) == 100000000000000000000;
    hide Pow10;
    if n < U64 { DecimalLength(n, 20); }
    if n <= 0x8000_0000 { DecimalLength(n, 10); }
  }

  // The estimate suffices for every response whose status text is not absurdly long, whatever its headers and body.
  lemma EstimateSuffices(r: Response)
    requires |r.statusText| <= 1000 && -0x8000_0000 <= r.statusCode < 0x8000_0000 && |r.body| < U64
    ensures |ResponseBytes(r)| <= Estimate(r)
  {
    var names := OrderedKeys.Sorted(r.headers.Keys);
    DigitsOfSize(if r.statusCode < 0 then -r.statusCode else r.statusCode);
    DigitsOfSize(|r.body|);
    hide Decimal, HeaderLines, HeaderRoom, OrderedKeys.Sorted, OrderedKeys.Ascending, HasName;
    HeaderLinesFit(r.headers, names);
    assert |LengthLine(r)| <= 38;
    assert |StatusLine(r)| <= 1021;
  }
}
