/** The HTTP/1.1 parser and response builder. */
module HttpParsers {
  import opened Bytes
  import opened Basics
  import opened Buffers
  import opened HttpText
  import OrderedKeys

  const MAX_LINE_LEN: nat := 8192
  const MAX_HEADERS: nat := 100
  const MAX_HEADER_NAME_LEN: nat := 256
  const MAX_HEADER_VALUE_LEN: nat := 4096

  datatype Code = Ok | Again | Invalid | TooLong | TooMany | NoRoom | BadVersion

  type Headers = map<Text, Text>

  // ---------------------------------------------------------------- what is read

  datatype LineRead = NoLine | LongLine | Line(text: Text, rest: Text)

  function ReadLineOf(s: Text, max: nat): (r: LineRead)
    ensures r.Line? ==> |r.rest| < |s|
  {
    var r := FirstLine(s);
    if r.None? then NoLine else if |r.value.0| >= max then LongLine else Line(r.value.0, r.value.1)
  }

  datatype HeaderRead = BadHeader(code: Code) | Header(name: Text, value: Text)

  // The first colon separates; both sides are trimmed, the name must not be empty.
  function HeaderOf(line: Text): (r: HeaderRead)
    ensures r.BadHeader? ==> r.code == Invalid || r.code == TooLong
  {
    var colon := IndexOf(line, COLON);
    if colon.None? then BadHeader(Invalid)
    else
      var name, value := Trim(line[..colon.value]), Trim(line[colon.value + 1..]);
      if name == [] then BadHeader(Invalid)
      else if |name| > MAX_HEADER_NAME_LEN then BadHeader(TooLong)
      else if |value| > MAX_HEADER_VALUE_LEN then BadHeader(TooLong)
      else Header(name, value)
  }

  datatype HeadersRead = HeadersRead(code: Code, headers: Headers, rest: Text)

  // Header lines up to an empty line.  What has been read is consumed and stored, whatever comes after it.
  function HeadersOf(s: Text, h: Headers, count: nat): HeadersRead
    decreases |s|
  {
    match ReadLineOf(s, MAX_LINE_LEN)
    case NoLine => HeadersRead(Again, h, s)
    case LongLine => HeadersRead(TooLong, h, s)
    case Line(line, rest) =>
      if line == [] then HeadersRead(Ok, h, rest)
      else if count >= MAX_HEADERS then HeadersRead(TooMany, h, rest)
      else
        match HeaderOf(line)
        case BadHeader(code) => HeadersRead(code, h, rest)
        case Header(name, value) => HeadersOf(rest, h[name := value], count + 1)
  }

  // ---------------------------------------------------------------- the request line

  predicate NoSpaces(s: Text) {
    SP !in s
  }

  predicate AllSpaces(s: Text) {
    forall i | 0 <= i < |s| :: s[i] == SP
  }

  // Method, path and version, separated by one or more spaces; only the version may contain further ones.
  predicate IsRequestLine(line: Text, verb: Text, gap1: Text, path: Text, gap2: Text, version: Text) {
    line == verb + gap1 + path + gap2 + version &&
    verb != [] && path != [] && gap1 != [] && gap2 != [] && version != [] &&
    NoSpaces(verb) && NoSpaces(path) && AllSpaces(gap1) && AllSpaces(gap2) && version[0] != SP
  }

  function WordEnd(s: Text, from: nat): (k: nat)
    requires from <= |s|
    ensures from <= k <= |s| && (k < |s| ==> s[k] == SP) && forall i | from <= i < k :: s[i] != SP
    decreases |s| - from
  {
    if from < |s| && s[from] != SP then WordEnd(s, from + 1) else from
  }

  function GapEnd(s: Text, from: nat): (k: nat)
    requires from <= |s|
    ensures from <= k <= |s| && (k < |s| ==> s[k] != SP) && forall i | from <= i < k :: s[i] == SP
    decreases |s| - from
  {
    if from < |s| && s[from] == SP then GapEnd(s, from + 1) else from
  }

  datatype RequestLine = RequestLine(code: Code, verb: Text, path: Text, version: Text)

  function RequestLineOf(line: Text): RequestLine {
    var e1 := WordEnd(line, 0);
    if e1 == 0 || e1 >= |line| then RequestLine(Invalid, [], [], [])
    else
      var s2 := GapEnd(line, e1);
      if s2 >= |line| then RequestLine(Invalid, line[..e1], [], [])
      else
        var e2 := WordEnd(line, s2);
        if e2 == s2 || e2 >= |line| then RequestLine(Invalid, line[..e1], [], [])
        else
          var s3 := GapEnd(line, e2);
          if s3 >= |line| then RequestLine(Invalid, line[..e1], line[s2..e2], [])
          else RequestLine(if line[s3..] == VERSION then Ok else BadVersion, line[..e1], line[s2..e2], line[s3..])
  }

  // ---------------------------------------------------------------- what is written

  datatype Response = Response(statusCode: int, statusText: Text, headers: Headers, body: seq<byte>)

  const VERSION: Text := Ascii("HTTP/1.1")
  const CONTENT_LENGTH: Text := Ascii("Content-Length")

  function StatusLine(r: Response): Text {
    VERSION + [SP] + DecimalInt(r.statusCode) + [SP] + r.statusText
  }

  function HeaderLine(name: Text, value: Text): Text {
    name + [COLON] + [SP] + value
  }

  function HeaderLines(h: Headers, names: seq<Text>): Text
    requires forall n | n in names :: n in h
  {
    if names == [] then [] else HeaderLine(names[0], h[names[0]]) + CRLF + HeaderLines(h, names[1..])
  }

  predicate HasName(names: seq<Text>, name: Text) {
    names != [] && (SameName(names[0], name) || HasName(names[1..], name))
  }

  // A Content-Length is added to a body that comes without one.
  predicate LengthDue(r: Response) {
    !HasName(OrderedKeys.Sorted(r.headers.Keys), CONTENT_LENGTH) && r.body != []
  }

  function LengthLine(r: Response): Text {
    if LengthDue(r) then HeaderLine(CONTENT_LENGTH, Decimal(|r.body|)) + CRLF else []
  }

  function ResponseBytes(r: Response): seq<byte> {
    StatusLine(r) + CRLF + HeaderLines(r.headers, OrderedKeys.Sorted(r.headers.Keys)) + LengthLine(r) + CRLF + r.body
  }

  lemma {:induction false} HeaderLinesJoin(h: Headers, a: seq<Text>, b: seq<Text>)
    requires forall n | n in a + b :: n in h
    ensures (forall n | n in a :: n in h) && (forall n | n in b :: n in h)
    ensures HeaderLines(h, a + b) == HeaderLines(h, a) + HeaderLines(h, b)
    decreases |a|
  {
    assert forall n | n in a || n in b :: n in a + b;
    if a == [] {
      assert a + b == b;
    } else {
      assert (a + b)[1..] == a[1..] + b;
      HeaderLinesJoin(h, a[1..], b);
    }
  }

  lemma {:induction false} HasNameJoin(a: seq<Text>, b: seq<Text>, name: Text)
    ensures HasName(a + b, name) <==> HasName(a, name) || HasName(b, name)
    decreases |a|
  {
    hide SameName;
    if a == [] {
      assert a + b == b;
    } else {
      assert (a + b)[1..] == a[1..] + b;
      HasNameJoin(a[1..], b, name);
    }
  }

  lemma HeaderLinesMore(h: Headers, names: seq<Text>, i: nat)
    requires i < |names| && forall n | n in names :: n in h
    ensures names[i] in h && (forall n | n in names[..i] :: n in h) && (forall n | n in names[..i + 1] :: n in h)
    ensures HeaderLines(h, names[..i + 1]) == HeaderLines(h, names[..i]) + (HeaderLine(names[i], h[names[i]]) + CRLF)
    ensures HasName(names[..i + 1], CONTENT_LENGTH) <==>
            HasName(names[..i], CONTENT_LENGTH) || SameName(names[i], CONTENT_LENGTH)
  {
    assert names[i] in names;
    assert names[..i + 1] == names[..i] + [names[i]];
    HeaderLinesJoin(h, names[..i], [names[i]]);
    HasNameJoin(names[..i], [names[i]], CONTENT_LENGTH);
    var one: seq<Text> := [names[i]];
    assert one[1..] == [] && one[0] == names[i];
  }

  // The value of the first of these names that matches.
  function FirstNamed(h: Headers, names: seq<Text>, name: Text): Option<Text>
    requires forall n | n in names :: n in h
  {
    if names == [] then None
    else if SameName(names[0], name) then Some(h[names[0]])
    else FirstNamed(h, names[1..], name)
  }

  function Found(h: Headers, name: Text): Option<Text> {
    FirstNamed(h, OrderedKeys.Sorted(h.Keys), name)
  }

  // ---------------------------------------------------------------- the parser

  class HttpParser {
    const buffer: Buffer
    var errorCode: Code  // of the latest failure

    constructor (buffer: Buffer)
      ensures this.buffer == buffer && errorCode == Ok
    {
      this.buffer := buffer;
      errorCode := Ok;
    }

    // A line that is too long is left in the buffer.
    method ReadLine(maxLen: nat) returns (code: Code, line: Text)
      requires buffer.Valid()
      modifies this`errorCode, buffer`readIdx
      ensures buffer.Valid()
      ensures var r := ReadLineOf(old(buffer.Unread()), maxLen);
              code == (if r.NoLine? then Again else if r.LongLine? then TooLong else Ok) &&
              (r.Line? ==> line == r.text && buffer.Unread() == r.rest) &&
              (!r.Line? ==> line == [] && buffer.Unread() == old(buffer.Unread()))
      ensures errorCode == if code == TooLong then TooLong else old(errorCode)
    {
      hide FirstLine;
      ghost var s := buffer.Unread();
      var readable := buffer.ReadableBytes();
      var data := buffer.Peek(readable);
      assert data == s;
      var pos := 0;
      while pos + 1 < readable && !(data[pos] == CR && data[pos + 1] == LF)
        invariant pos <= readable && forall i: nat | i < pos :: !CrLfAt(data, i)
      {
        pos := pos + 1;
      }
      if pos + 1 >= readable {
        NoLineEnd(s);
        return Again, [];
      }
      LineEndsAt(s, pos);
      if pos >= maxLen {
        errorCode := TooLong;
        return TooLong, [];
      }
      line := data[..pos];
      buffer.Skip(pos + 2);
      code := Ok;
    }

    method ParseHeader(line: Text) returns (code: Code, key: Text, value: Text)
      modifies this`errorCode
      ensures var r := HeaderOf(line);
              (r.Header? ==> code == Ok && key == r.name && value == r.value) &&
              (r.BadHeader? ==> code == r.code && key == value == [])
      ensures errorCode == if code == Ok then old(errorCode) else code
    {
      hide Trim;
      key, value := [], [];
      var colon := 0;
      while colon < |line| && line[colon] != COLON
        invariant colon <= |line| && forall i | 0 <= i < colon :: line[i] != COLON
      {
        colon := colon + 1;
      }
      if colon == |line| {
        errorCode := Invalid;
        return Invalid, [], [];
      }
      IndexOfIs(line, COLON, colon);
      var k := TrimBoth(line[..colon]);
      if k == [] {
        errorCode := Invalid;
        return Invalid, [], [];
      }
      if |k| > MAX_HEADER_NAME_LEN {
        errorCode := TooLong;
        return TooLong, [], [];
      }
      var v := TrimBoth(line[colon + 1..]);
      if |v| > MAX_HEADER_VALUE_LEN {
        errorCode := TooLong;
        return TooLong, [], [];
      }
      return Ok, k, v;
    }

    // The two pairs of loops of the source: from the front, then from the back.
    static method TrimBoth(s: Text) returns (r: Text)
      ensures r == Trim(s)
    {
      hide TrimLeft, TrimRight;
      var i, j := 0, |s|;
      assert s[0..j] == s;
      while i < |s| && Blank(s[i])
        invariant i <= |s| && TrimLeft(s[i..|s|]) == TrimLeft(s)
      {
        TrimLeftStep(s, i, |s|);
        i := i + 1;
      }
      TrimLeftDone(s, i, |s|);
      while j > i && Blank(s[j - 1])
        invariant i <= j <= |s| && TrimRight(s[i..j]) == TrimRight(s[i..|s|])
      {
        TrimRightStep(s, i, j);
        j := j - 1;
      }
      TrimRightDone(s, i, j);
      r := s[i..j];
    }

    // The headers found so far are returned even when the block is not complete; their lines are consumed.
    method ParseHeaders() returns (code: Code, headers: Headers)
      requires buffer.Valid()
      modifies this`errorCode, buffer`readIdx
      ensures buffer.Valid()
      ensures HeadersOf(old(buffer.Unread()), map[], 0) == HeadersRead(code, headers, buffer.Unread())
      ensures errorCode == if code == Ok || code == Again then old(errorCode) else code
    {
      headers := map[];
      var count := 0;
      ghost var result := HeadersOf(buffer.Unread(), map[], 0);
      hide FirstLine, HeaderOf;
      while true
        invariant buffer.Valid() && HeadersOf(buffer.Unread(), headers, count) == result
        invariant errorCode == old(errorCode)
        decreases |buffer.Unread()|
      {
        var ret, line := ReadLine(MAX_LINE_LEN);
        if ret != Ok { return ret, headers; }
        if line == [] { break; }
        if count >= MAX_HEADERS {
          errorCode := TooMany;
          return TooMany, headers;
        }
        var ret2, key, value := ParseHeader(line);
        if ret2 != Ok { return ret2, headers; }
        headers := headers[key := value];
        count := count + 1;
      }
      code := Ok;
    }

    method ParseRequestLine(line: Text) returns (code: Code, verb: Text, path: Text, version: Text)
      modifies this`errorCode
      ensures RequestLine(code, verb, path, version) == RequestLineOf(line)
      ensures errorCode == if code == Ok then old(errorCode) else code
    {
      verb, path, version := [], [], [];
      code := Invalid;
      var pos := Word(line, 0);
      if pos == 0 || pos >= |line| { errorCode := Invalid; return; }
      verb := line[..pos];
      pos := Gap(line, pos);
      if pos >= |line| { errorCode := Invalid; return; }
      var pathStart := pos;
      pos := Word(line, pos);
      if pos == pathStart || pos >= |line| { errorCode := Invalid; return; }
      path := line[pathStart..pos];
      pos := Gap(line, pos);
      if pos >= |line| { errorCode := Invalid; return; }
      version := line[pos..];
      if version != VERSION {
        errorCode := BadVersion;
        code := BadVersion;
        return;
      }
      code := Ok;
    }

    static method Word(line: Text, from: nat) returns (pos: nat)
      requires from <= |line|
      ensures pos == WordEnd(line, from)
    {
      pos := from;
      while pos < |line| && line[pos] != SP
        invariant from <= pos <= |line| && WordEnd(line, pos) == WordEnd(line, from)
      {
        pos := pos + 1;
      }
    }

    static method Gap(line: Text, from: nat) returns (pos: nat)
      requires from <= |line|
      ensures pos == GapEnd(line, from)
    {
      pos := from;
      while pos < |line| && line[pos] == SP
        invariant from <= pos <= |line| && GapEnd(line, pos) == GapEnd(line, from)
      {
        pos := pos + 1;
      }
    }

    static method FindHeader(headers: Headers, name: Text) returns (value: Option<Text>)
      ensures value == Found(headers, name)
    {
      var names := OrderedKeys.Sorted(headers.Keys);
      assert forall n | n in names :: n in headers;
      hide *;
      for i := 0 to |names|
        invariant forall j | 0 <= j < i :: !SameName(names[j], name)
      {
        if SameName(names[i], name) {
          FirstNamedAt(headers, names, i, name);
          FoundByOrder(headers, name);
          return Some(headers[names[i]]);
        }
      }
      FirstNamedAt(headers, names, |names|, name);
      FoundByOrder(headers, name);
      value := None;
    }

    // The header lines, as far as they fit; hasLength: there is a Content-Length among them.
    method BuildHeaders(h: Headers, out: array<byte>, offset: nat) returns (code: Code, end: nat, hasLength: bool)
      requires offset <= out.Length
      modifies this`errorCode, out
      ensures var names := OrderedKeys.Sorted(h.Keys);
              (forall n | n in names :: n in h) &&
              code == (if offset + |HeaderLines(h, names)| <= out.Length then Ok else NoRoom) &&
              (code == Ok ==> (end == offset + |HeaderLines(h, names)| &&
                               out[..end] == old(out[..offset]) + HeaderLines(h, names) &&
                               hasLength == HasName(names, CONTENT_LENGTH)))
      ensures errorCode == if code == Ok then old(errorCode) else code
    {
      var names := OrderedKeys.Sorted(h.Keys);
      UpToStart(h);
      hide *;
      end, hasLength := offset, false;
      ghost var head, lines := out[..offset], [];
      assert head + [] == head;
      for i := 0 to |names|
        invariant errorCode == old(errorCode)
        invariant UpTo(h, names, i, lines, hasLength)
        invariant end == offset + |lines| <= out.Length && out[..end] == head + lines
      {
        UpToNext(h, names, i, lines, hasLength);
        var headerLine := HeaderLine(names[i], h[names[i]]) + CRLF;
        if end + |headerLine| > out.Length { errorCode := NoRoom; return NoRoom, end, hasLength; }
        Associate(head, lines, headerLine);
        end := Copy(out, end, headerLine);
        lines := lines + headerLine;
        if !hasLength && SameName(names[i], CONTENT_LENGTH) { hasLength := true; }
      }
      UpToEnd(h, names, lines, hasLength);
      code := Ok;
    }

    // Succeeds exactly if the whole response fits.
    method BuildResponse(r: Response, out: array<byte>) returns (code: Code, outLen: nat)
      modifies this`errorCode, out
      ensures code == if |ResponseBytes(r)| <= out.Length then Ok else NoRoom
      ensures code == Ok ==> outLen == |ResponseBytes(r)| && out[..outLen] == ResponseBytes(r)
      ensures errorCode == if code == Ok then old(errorCode) else code
    {
      ghost var names := OrderedKeys.Sorted(r.headers.Keys);
      assert forall n | n in names :: n in r.headers;
      hide *;
      CrLfIsTwo();
      ResponseLength(r, names);
      LengthLineIs(r, names);
      outLen := 0;
      var head := StatusLine(r) + CRLF;
      if outLen + |head| > out.Length { errorCode := NoRoom; return NoRoom, 0; }
      outLen := Copy(out, outLen, head);
      assert out[..outLen] == head;
      var hasLength;
      code, outLen, hasLength := BuildHeaders(r.headers, out, outLen);
      if code != Ok { return; }
      assert out[..outLen] == head + HeaderLines(r.headers, names);
      var lengthLine := [];
      if !hasLength && r.body != [] {
        lengthLine := HeaderLine(CONTENT_LENGTH, Decimal(|r.body|)) + CRLF;
        if outLen + |lengthLine| > out.Length { errorCode := NoRoom; return NoRoom, outLen; }
      }
      assert lengthLine == LengthLine(r);
      outLen := Copy(out, outLen, lengthLine);
      if outLen + 2 > out.Length { errorCode := NoRoom; return NoRoom, outLen; }
      outLen := Copy(out, outLen, CRLF);
      if outLen + |r.body| > out.Length { errorCode := NoRoom; return NoRoom, outLen; }
      outLen := Copy(out, outLen, r.body);
      code := Ok;
    }

    // memcpy
    static method Copy(out: array<byte>, offset: nat, bytes: seq<byte>) returns (end: nat)
      requires offset + |bytes| <= out.Length
      modifies out
      ensures end == offset + |bytes| && out[..end] == old(out[..offset]) + bytes
    {
      for i := 0 to |bytes|
        invariant out[..offset] == old(out[..offset])
        invariant out[offset..offset + i] == bytes[..i]
      {
        out[offset + i] := bytes[i];
      }
      end := offset + |bytes|;
      assert out[..end] == out[..offset] + out[offset..end];
      assert bytes[..|bytes|] == bytes;
    }
  }

  lemma FoundByOrder(h: Headers, name: Text)
    ensures var names := OrderedKeys.Sorted(h.Keys);
            (forall n | n in names :: n in h) && Found(h, name) == FirstNamed(h, names, name)
  {
  }

  lemma {:induction false} FirstNamedAt(h: Headers, names: seq<Text>, i: nat, name: Text)
    requires i <= |names| && (forall n | n in names :: n in h) && forall j | 0 <= j < i :: !SameName(names[j], name)
    requires i < |names| ==> SameName(names[i], name)
    ensures i < |names| ==> names[i] in h
    ensures FirstNamed(h, names, name) == if i < |names| then Some(h[names[i]]) else None
    decreases i
  {
    hide SameName;
    if i < |names| { assert names[i] in names; }
    if i > 0 { FirstNamedAt(h, names[1..], i - 1, name); }
  }

  // A header is found whenever some name matches, and it is the least of the matching names that counts.
  lemma FoundIsLeast(h: Headers, name: Text)
    ensures Found(h, name).None? ==> forall k | k in h :: !SameName(k, name)
    ensures Found(h, name).Some? ==>
              exists k | k in h ::
                SameName(k, name) && h[k] == Found(h, name).value &&
                forall x | x in h && SameName(x, name) :: x == k || OrderedKeys.Less(k, x)
  {
    var names := OrderedKeys.Sorted(h.Keys);
    assert forall n :: n in names <==> n in h;
    hide SameName, OrderedKeys.Sorted, OrderedKeys.Less;
    FirstNamedIsFirst(h, names, name);
  }

  lemma {:induction false} FirstNamedIsFirst(h: Headers, names: seq<Text>, name: Text)
    requires OrderedKeys.Ascending(names) && forall n | n in names :: n in h
    ensures FirstNamed(h, names, name).None? ==> forall k | k in names :: !SameName(k, name)
    ensures FirstNamed(h, names, name).Some? ==>
              exists k | k in names ::
                SameName(k, name) && h[k] == FirstNamed(h, names, name).value &&
                forall x | x in names && SameName(x, name) :: x == k || OrderedKeys.Less(k, x)
    decreases |names|
  {
    hide SameName, OrderedKeys.Less;
    if names != [] {
      assert names[0] in names;
      if SameName(names[0], name) {
        forall x | x in names ensures x == names[0] || OrderedKeys.Less(names[0], x) {
          var j :| 0 <= j < |names| && names[j] == x;
        }
      } else {
        FirstNamedIsFirst(h, names[1..], name);
        assert forall k | k in names :: k == names[0] || k in names[1..];
      }
    }
  }

  lemma TrimLeftStep(line: Text, i: nat, hi: nat)
    requires i < hi <= |line| && Blank(line[i])
    ensures TrimLeft(line[i + 1..hi]) == TrimLeft(line[i..hi])
  {
    assert line[i..hi][1..] == line[i + 1..hi];
  }

  lemma TrimLeftDone(line: Text, i: nat, hi: nat)
    requires i <= hi <= |line| && (i < hi ==> !Blank(line[i]))
    ensures TrimLeft(line[i..hi]) == line[i..hi]
  {
  }

  lemma TrimRightStep(line: Text, i: nat, j: nat)
    requires i < j <= |line| && Blank(line[j - 1])
    ensures TrimRight(line[i..j - 1]) == TrimRight(line[i..j])
  {
    assert line[i..j][..j - i - 1] == line[i..j - 1];
  }

  lemma TrimRightDone(line: Text, i: nat, j: nat)
    requires i <= j <= |line| && (i < j ==> !Blank(line[j - 1]))
    ensures TrimRight(line[i..j]) == line[i..j]
  {
  }

  lemma NoLineEnd(s: Text)
    requires forall i: nat | i + 1 < |s| :: !CrLfAt(s, i)
    ensures FirstLine(s).None?
  {
    hide FirstLine;
  }

  // ---------------------------------------------------------------- lemmas about the request line

  lemma WordEndIs(s: Text, from: nat, k: nat)
    requires from <= k <= |s| && (k < |s| ==> s[k] == SP) && forall i | from <= i < k :: s[i] != SP
    ensures WordEnd(s, from) == k
  {
  }

  lemma GapEndIs(s: Text, from: nat, k: nat)
    requires from <= k <= |s| && (k < |s| ==> s[k] != SP) && forall i | from <= i < k :: s[i] == SP
    ensures GapEnd(s, from) == k
  {
  }

  // The places at which a line is cut, if it is a request line.
  ghost predicate Cut(line: Text, e1: nat, s2: nat, e2: nat, s3: nat) {
    0 < e1 < s2 < e2 < s3 < |line| &&
    WordEnd(line, 0) == e1 && GapEnd(line, e1) == s2 && WordEnd(line, s2) == e2 && GapEnd(line, e2) == s3
  }

  lemma RequestLineCut(line: Text, m: Text, g1: Text, p: Text, g2: Text, v: Text)
    requires IsRequestLine(line, m, g1, p, g2, v)
    ensures var (e1, s2) := (|m|, |m + g1|);
            var (e2, s3) := (|m + g1 + p|, |m + g1 + p + g2|);
            Cut(line, e1, s2, e2, s3) && m == line[..e1] && p == line[s2..e2] && v == line[s3..]
  {
    var e1, s2, e2, s3 := |m|, |m + g1|, |m + g1 + p|, |m + g1 + p + g2|;
    forall i | 0 <= i < |line| ensures line[i] ==
      (if i < e1 then m[i] else if i < s2 then g1[i - e1] else if i < e2 then p[i - s2]
       else if i < s3 then g2[i - e2] else v[i - s3]) {
    }
    WordEndIs(line, 0, e1);
    GapEndIs(line, e1, s2);
    WordEndIs(line, s2, e2);
    GapEndIs(line, e2, s3);
  }

  lemma CutIsRequestLine(line: Text, e1: nat, s2: nat, e2: nat, s3: nat)
    requires Cut(line, e1, s2, e2, s3)
    ensures IsRequestLine(line, line[..e1], line[e1..s2], line[s2..e2], line[e2..s3], line[s3..])
  {
    hide WordEnd, GapEnd;
    assert line == line[..e1] + line[e1..s2] + line[s2..e2] + line[e2..s3] + line[s3..];
    assert forall i | 0 <= i < e1 :: line[i] != SP;
    assert forall i | s2 <= i < e2 :: line[i] != SP;
  }

  // There is at most one way to read a request line.
  lemma RequestLineUnique(line: Text, m: Text, g1: Text, p: Text, g2: Text, v: Text,
                          m': Text, g1': Text, p': Text, g2': Text, v': Text)
    requires IsRequestLine(line, m, g1, p, g2, v) && IsRequestLine(line, m', g1', p', g2', v')
    ensures m == m' && p == p' && v == v'
  {
    RequestLineCut(line, m, g1, p, g2, v);
    RequestLineCut(line, m', g1', p', g2', v');
  }

  // Invalid: the line is no request line at all; BadVersion: it is, but not of HTTP/1.1.
  lemma RequestLineMeaning(line: Text)
    ensures var r := RequestLineOf(line);
            (r.code == Ok || r.code == BadVersion || r.code == Invalid) &&
            (r.code != Invalid ==>
               (r.code == Ok <==> r.version == VERSION) &&
               exists gap1, gap2 :: IsRequestLine(line, r.verb, gap1, r.path, gap2, r.version)) &&
            (r.code == Invalid ==> forall m, g1, p, g2, v :: !IsRequestLine(line, m, g1, p, g2, v))
  {
    hide IsRequestLine;
    var r := RequestLineOf(line);
    if r.code != Invalid {
      var e1 := WordEnd(line, 0);
      var s2 := GapEnd(line, e1);
      var e2 := WordEnd(line, s2);
      CutIsRequestLine(line, e1, s2, e2, GapEnd(line, e2));
    } else {
      forall m, g1, p, g2, v ensures !IsRequestLine(line, m, g1, p, g2, v) {
        if IsRequestLine(line, m, g1, p, g2, v) { RequestLineCut(line, m, g1, p, g2, v); }
      }
    }
  }

  // A request line printed with any spacing is read back.
  lemma RequestLineRead(line: Text, m: Text, g1: Text, p: Text, g2: Text)
    requires IsRequestLine(line, m, g1, p, g2, VERSION)
    ensures RequestLineOf(line) == RequestLine(Ok, m, p, VERSION)
  {
    RequestLineCut(line, m, g1, p, g2, VERSION);
    hide IsRequestLine;
  }

  // ---------------------------------------------------------------- lemmas about the response

  // The lines of the first i headers, and whether there is a Content-Length among them.
  ghost predicate UpTo(h: Headers, names: seq<Text>, i: nat, lines: Text, hasLength: bool) {
    i <= |names| && (forall n | n in names :: n in h) && (forall n | n in names[..i] :: n in h) &&
    lines == HeaderLines(h, names[..i]) && hasLength == HasName(names[..i], CONTENT_LENGTH)
  }

  lemma UpToStart(h: Headers)
    ensures UpTo(h, OrderedKeys.Sorted(h.Keys), 0, [], false)
  {
    NoHeaderLines(h);
  }

  lemma UpToNext(h: Headers, names: seq<Text>, i: nat, lines: Text, hasLength: bool)
    requires UpTo(h, names, i, lines, hasLength) && i < |names|
    ensures names[i] in h
    ensures UpTo(h, names, i + 1, lines + (HeaderLine(names[i], h[names[i]]) + CRLF),
                 hasLength || SameName(names[i], CONTENT_LENGTH))
    ensures (forall n | n in names :: n in h) &&
            |lines| + |HeaderLine(names[i], h[names[i]]) + CRLF| <= |HeaderLines(h, names)|
  {
    HeaderLinesMore(h, names, i);
    HeaderLinesPrefix(h, names, i + 1);
    hide HeaderLines, HeaderLine, HasName, SameName;
  }

  lemma UpToEnd(h: Headers, names: seq<Text>, lines: Text, hasLength: bool)
    requires UpTo(h, names, |names|, lines, hasLength)
    ensures (forall n | n in names :: n in h) && lines == HeaderLines(h, names)
    ensures hasLength == HasName(names, CONTENT_LENGTH)
  {
    assert names[..|names|] == names;
  }

  lemma CrLfIsTwo()
    ensures |CRLF| == 2
  {
  }

  lemma NoHeaderLines(h: Headers)
    ensures HeaderLines(h, []) == [] && !HasName([], CONTENT_LENGTH)
  {
  }

  lemma HeaderLinesPrefix(h: Headers, names: seq<Text>, i: nat)
    requires i <= |names| && forall n | n in names :: n in h
    ensures (forall n | n in names[..i] :: n in h) && |HeaderLines(h, names[..i])| <= |HeaderLines(h, names)|
  {
    assert names == names[..i] + names[i..];
    HeaderLinesJoin(h, names[..i], names[i..]);
  }

  lemma ResponseLength(r: Response, names: seq<Text>)
    requires names == OrderedKeys.Sorted(r.headers.Keys) && forall n | n in names :: n in r.headers
    ensures |ResponseBytes(r)| ==
            |StatusLine(r) + CRLF| + |HeaderLines(r.headers, names)| + |LengthLine(r)| + 2 + |r.body|
    ensures ResponseBytes(r) ==
            StatusLine(r) + CRLF + HeaderLines(r.headers, names) + LengthLine(r) + CRLF + r.body
  {
  }

  lemma LengthLineIs(r: Response, names: seq<Text>)
    requires names == OrderedKeys.Sorted(r.headers.Keys)
    ensures LengthLine(r) ==
            if !HasName(names, CONTENT_LENGTH) && r.body != []
            then HeaderLine(CONTENT_LENGTH, Decimal(|r.body|)) + CRLF else []
  {
  }
}
