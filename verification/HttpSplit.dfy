/** Header blocks that arrive in two reads.

    `parse_headers` stores and consumes the complete lines of an unfinished block, and clears the map when it is
    called again; so what the second read makes of the block depends on where it is cut. */
module HttpSplit {
  import opened Bytes
  import opened Basics
  import opened HttpText
  import opened HttpParsers
  import opened HttpRoundTrip
  import OrderedKeys

  // ---------------------------------------------------------------- any block, any cut

  lemma FirstLineParts(s: Text)
    requires FirstLine(s).Some?
    ensures var k := |FirstLine(s).value.0|;
            CrLfAt(s, k) && FirstLine(s) == Some((s[..k], s[k + 2..])) && forall i: nat | i < k :: !CrLfAt(s, i)
  {
    var k := |FirstLine(s).value.0|;
    hide FirstLine;
    LineEndsAt(s, k);
  }

  lemma EndLocal(a: Text, b: Text, k: nat)
    requires CrLfAt(a, k) && forall i: nat | i < k :: !CrLfAt(a, i)
    ensures CrLfAt(a + b, k) && forall i: nat | i < k :: !CrLfAt(a + b, i)
    ensures (a + b)[..k] == a[..k] && (a + b)[k + 2..] == a[k + 2..] + b
  {
    forall i: nat | i <= k ensures CrLfAt(a + b, i) == CrLfAt(a, i) {
      assert (a + b)[i] == a[i] && (a + b)[i + 1] == a[i + 1];
    }
  }

  lemma FirstLineLocal(a: Text, b: Text)
    requires FirstLine(a).Some?
    ensures FirstLine(a + b) == Some((FirstLine(a).value.0, FirstLine(a).value.1 + b))
  {
    hide *;
    FirstLineParts(a);
    EndLocal(a, b, |FirstLine(a).value.0|);
    LineEndsAt(a + b, |FirstLine(a).value.0|);
  }

  lemma ReadLineLocal(a: Text, b: Text)
    requires !ReadLineOf(a, MAX_LINE_LEN).NoLine?
    ensures var r := ReadLineOf(a, MAX_LINE_LEN);
            ReadLineOf(a + b, MAX_LINE_LEN) == if r.Line? then Line(r.text, r.rest + b) else LongLine
  {
    FirstLineLocal(a, b);
    hide FirstLine;
  }

  // How many header lines are read until the block ends or something stops the parser.
  function LineCount(s: Text): nat
    decreases |s|
  {
    match ReadLineOf(s, MAX_LINE_LEN)
    case NoLine => 0
    case LongLine => 0
    case Line(line, rest) => if line == [] || HeaderOf(line).BadHeader? then 0 else 1 + LineCount(rest)
  }

  // What a block stores on its own.
  function Fields(s: Text): Headers
    decreases |s|
  {
    match ReadLineOf(s, MAX_LINE_LEN)
    case NoLine => map[]
    case LongLine => map[]
    case Line(line, rest) =>
      if line == [] || HeaderOf(line).BadHeader? then map[]
      else map[HeaderOf(line).name := HeaderOf(line).value] + Fields(rest)
  }

  // The block goes on with a good header line.
  predicate Goes(s: Text) {
    var r := ReadLineOf(s, MAX_LINE_LEN);
    r.Line? && r.text != [] && HeaderOf(r.text).Header?
  }

  function FieldName(s: Text): Text
    requires Goes(s)
  {
    HeaderOf(ReadLineOf(s, MAX_LINE_LEN).text).name
  }

  function FieldValue(s: Text): Text
    requires Goes(s)
  {
    HeaderOf(ReadLineOf(s, MAX_LINE_LEN).text).value
  }

  function Behind(s: Text): (r: Text)
    requires Goes(s)
    ensures |r| < |s|
  {
    ReadLineOf(s, MAX_LINE_LEN).rest
  }

  lemma OneLineOn(s: Text, h: Headers, count: nat)
    requires Goes(s)
    ensures LineCount(s) == 1 + LineCount(Behind(s))
    ensures Fields(s) == map[FieldName(s) := FieldValue(s)] + Fields(Behind(s))
    ensures HeadersOf(s, h, count) ==
            if count >= MAX_HEADERS then HeadersRead(TooMany, h, Behind(s))
            else HeadersOf(Behind(s), h[FieldName(s) := FieldValue(s)], count + 1)
  {
    hide ReadLineOf, HeaderOf;
  }

  // The block stops here.
  lemma NoLineOn(s: Text, h: Headers, count: nat)
    requires !Goes(s)
    ensures LineCount(s) == 0 && Fields(s) == map[]
    ensures var (r, t) := (ReadLineOf(s, MAX_LINE_LEN), HeadersOf(s, h, count));
            (t.code == Ok <==> r.Line? && r.text == []) && (t.code == Again <==> r.NoLine?) &&
            t.headers == h && (t.code == Again ==> t.rest == s) && (t.code == Ok ==> t.rest == r.rest)
  {
    hide ReadLineOf, HeaderOf;
  }

  lemma GoesLocal(a: Text, b: Text)
    requires Goes(a)
    ensures Goes(a + b) && Behind(a + b) == Behind(a) + b
    ensures FieldName(a + b) == FieldName(a) && FieldValue(a + b) == FieldValue(a)
  {
    ReadLineLocal(a, b);
    hide ReadLineOf, HeaderOf;
  }

  lemma StoreFirst(h: Headers, name: Text, value: Text, more: Headers)
    ensures h[name := value] + more == h + (map[name := value] + more)
  {
  }

  lemma StoreNothing(h: Headers)
    ensures h + map[] == h && map[] + h == h
  {
  }

  // Reading a whole block is reading its first part and going on from there.
  lemma {:induction false} RunGoesOn(a: Text, b: Text, h: Headers, count: nat)
    requires HeadersOf(a, h, count).code == Again && count <= MAX_HEADERS
    ensures var r := HeadersOf(a, h, count);
            count + LineCount(a) <= MAX_HEADERS && r.headers == h + Fields(a) &&
            HeadersOf(a + b, h, count) == HeadersOf(r.rest + b, r.headers, count + LineCount(a))
    decreases |a|
  {
    hide *;
    if Goes(a) {
      var k, v := FieldName(a), FieldValue(a);
      OneLineOn(a, h, count);
      GoesLocal(a, b);
      OneLineOn(a + b, h, count);
      RunGoesOn(Behind(a), b, h[k := v], count + 1);
      StoreFirst(h, k, v, Fields(Behind(a)));
    } else {
      NoLineOn(a, h, count);
      StoreNothing(h);
    }
  }

  // The same octets read over another map and with more lines before them.
  lemma {:induction false} RunOver(s: Text, h: Headers, count: nat, g: Headers, fewer: nat)
    requires fewer <= count <= MAX_HEADERS
    ensures var (r, t) := (HeadersOf(s, h, count), HeadersOf(s, g, fewer));
            (r.code == Ok <==> t.code == Ok && count + LineCount(s) <= MAX_HEADERS) &&
            (t.code == Ok ==> t.headers == g + Fields(s)) &&
            (r.code == Ok ==> r.headers == h + Fields(s) && r.rest == t.rest) &&
            (r.code == Again ==> t.code == Again && r.rest == t.rest)
    decreases |s|
  {
    hide *;
    if Goes(s) {
      var k, v, more := FieldName(s), FieldValue(s), Fields(Behind(s));
      OneLineOn(s, h, count);
      OneLineOn(s, g, fewer);
      StoreFirst(h, k, v, more);
      StoreFirst(g, k, v, more);
      if count < MAX_HEADERS {
        RunOver(Behind(s), h[k := v], count + 1, g[k := v], fewer + 1);
      } else if fewer < MAX_HEADERS {
        RunOver(Behind(s), h, count, g[k := v], fewer + 1);
      }
    } else {
      NoLineOn(s, h, count);
      NoLineOn(s, g, fewer);
      StoreNothing(h);
      StoreNothing(g);
    }
  }

  lemma AllThere(first: Headers, second: Headers)
    ensures second == first + second <==> forall n | n in first :: n in second
  {
    if forall n | n in first :: n in second {
      assert (first + second).Keys == second.Keys;
    } else {
      var n :| n in first && n !in second;
      assert n in first + second;
    }
  }

  // For every block and every cut before its end.  The whole block is good exactly if the second read finds its part
  // good and the lines of both parts are within the limit, which the second read no longer checks.  Both reads
  // together then see all headers and leave the same rest; and the second read alone returns what the whole block
  // says if and only if it sees every name that the first one had stored.  If the whole block is unfinished as well,
  // both keep the same octets for later.
  lemma SplitHeaders(a: Text, b: Text)
    requires HeadersOf(a, map[], 0).code == Again
    ensures var (first, whole) := (HeadersOf(a, map[], 0), HeadersOf(a + b, map[], 0));
            var second := HeadersOf(first.rest + b, map[], 0);
            (whole.code == Ok <==> second.code == Ok && LineCount(a) + LineCount(first.rest + b) <= MAX_HEADERS) &&
            (whole.code == Ok ==>
               whole.headers == first.headers + second.headers && whole.rest == second.rest &&
               (second == whole <==> forall n | n in first.headers :: n in second.headers)) &&
            (whole.code == Again ==> second.code == Again && whole.rest == second.rest)
  {
    hide HeadersOf, LineCount, ReadLineOf, Fields;
    var first := HeadersOf(a, map[], 0);
    var s := first.rest + b;
    RunGoesOn(a, b, map[], 0);
    RunOver(s, first.headers, LineCount(a), map[], 0);
    StoreNothing(Fields(s));
    AllThere(first.headers, Fields(s));
  }

  // ---------------------------------------------------------------- printed blocks

  lemma PrefixHasNoLine(line: Text, k: nat)
    requires OneLine(line) && k < |line| + 2
    ensures FirstLine((line + CRLF)[..k]).None?
  {
    var s := line + CRLF;
    forall i: nat | i + 1 < k ensures !CrLfAt(s[..k], i) {
      assert !CrLfAt(line, i);
      assert s[..k][i] == s[i] && s[..k][i + 1] == s[i + 1];
      assert i < |line| ==> s[i] == line[i];
      assert i + 1 < |line| ==> s[i + 1] == line[i + 1];
    }
    NoLineEnd(s[..k]);
  }

  function Block(h: Headers, names: seq<Text>): Text
    requires forall n | n in names :: n in h
  {
    HeaderLines(h, names) + CRLF
  }

  ghost predicate GoodNames(h: Headers, names: seq<Text>) {
    forall n | n in names :: n in h && WellFormed(n, h[n])
  }

  // The length of the first header line with its end.
  function FirstLength(h: Headers, names: seq<Text>): nat
    requires names != [] && names[0] in h
  {
    |HeaderLine(names[0], h[names[0]])| + 2
  }

  // How many header lines the first k octets hold to their end.
  function WholeLines(h: Headers, names: seq<Text>, k: int): (j: nat)
    requires forall n | n in names :: n in h
    ensures j <= |names|
  {
    if names == [] then 0
    else
      assert names[0] in names;
      if k < FirstLength(h, names) then 0 else 1 + WholeLines(h, names[1..], k - FirstLength(h, names))
  }

  lemma {:induction false} WholeLinesFit(h: Headers, names: seq<Text>, k: nat)
    requires forall n | n in names :: n in h
    ensures var j := WholeLines(h, names, k);
            (forall n | n in names[..j] :: n in h) && |HeaderLines(h, names[..j])| <= k &&
            (j < |names| ==> (forall n | n in names[..j + 1] :: n in h) && k < |HeaderLines(h, names[..j + 1])|)
    decreases |names|
  {
    var j := WholeLines(h, names, k);
    if names != [] {
      assert names[0] in names;
      LinesUpTo(h, names, j);
      if j < |names| { LinesUpTo(h, names, j + 1); }
      if j > 0 {
        hide HeaderLines, HeaderLine;
        WholeLinesFit(h, names[1..], k - FirstLength(h, names));
      }
    }
  }

  lemma LinesUpTo(h: Headers, names: seq<Text>, j: nat)
    requires 0 < |names| && j <= |names| && forall n | n in names :: n in h
    ensures names[0] in h && (forall n | n in names[..j] :: n in h)
    ensures j == 0 ==> HeaderLines(h, names[..j]) == []
    ensures j > 0 ==> (forall n | n in names[1..][..j - 1] :: n in h) &&
                      |HeaderLines(h, names[..j])| == FirstLength(h, names) + |HeaderLines(h, names[1..][..j - 1])|
  {
    assert names[0] in names && forall n | n in names[..j] :: n in names;
    if j > 0 {
      assert names[..j][0] == names[0] && names[..j][1..] == names[1..][..j - 1];
      assert forall n | n in names[1..][..j - 1] :: n in names[..j];
      HeaderLinesFront(h, names[..j]);
    }
    hide HeaderLine;
  }

  lemma BlockFront(h: Headers, names: seq<Text>)
    requires names != [] && forall n | n in names :: n in h
    ensures names[0] in h && (forall n | n in names[1..] :: n in h)
    ensures Block(h, names) == HeaderLine(names[0], h[names[0]]) + CRLF + Block(h, names[1..])
  {
    assert names[0] in names;
    assert forall n | n in names[1..] :: n in names;
    hide HeaderLines, HeaderLine;
    assert HeaderLines(h, names) == HeaderLine(names[0], h[names[0]]) + CRLF + HeaderLines(h, names[1..])
      by { HeaderLinesFront(h, names); }
    Associate(HeaderLine(names[0], h[names[0]]) + CRLF, HeaderLines(h, names[1..]), CRLF);
  }

  lemma HeaderLinesFront(h: Headers, names: seq<Text>)
    requires names != [] && names[0] in h && forall n | n in names :: n in h
    ensures (forall n | n in names[1..] :: n in h) &&
            HeaderLines(h, names) == HeaderLine(names[0], h[names[0]]) + CRLF + HeaderLines(h, names[1..])
  {
  }

  // The first k octets of a printed block are read as its first j lines; the rest of the block follows as a block.
  ghost predicate CutAt(h: Headers, names: seq<Text>, k: nat, into: Headers, count: nat, j: nat) {
    (forall n | n in names :: n in h) && k <= |Block(h, names)| && j <= |names| &&
    (forall n | n in names[..j] :: n in h) && (forall n | n in names[j..] :: n in h) &&
    var r := HeadersOf(Block(h, names)[..k], into, count);
    r.code == Again && r.headers == into + Restrict(h, names[..j]) &&
    r.rest + Block(h, names)[k..] == Block(h, names[j..])
  }

  lemma ToCutAt(h: Headers, names: seq<Text>, k: nat, into: Headers, count: nat, j: nat)
    requires (forall n | n in names :: n in h) && k <= |Block(h, names)| && j <= |names|
    requires (forall n | n in names[..j] :: n in h) && (forall n | n in names[j..] :: n in h)
    requires var r := HeadersOf(Block(h, names)[..k], into, count);
             r.code == Again && r.headers == into + Restrict(h, names[..j]) &&
             r.rest + Block(h, names)[k..] == Block(h, names[j..])
    ensures CutAt(h, names, k, into, count, j)
  {
    hide HeadersOf, Block, Restrict;
  }

  lemma CutMeans(h: Headers, names: seq<Text>, k: nat, into: Headers, count: nat, j: nat)
    requires CutAt(h, names, k, into, count, j)
    ensures (forall n | n in names :: n in h) && k <= |Block(h, names)| && j <= |names|
    ensures (forall n | n in names[..j] :: n in h) && (forall n | n in names[j..] :: n in h)
    ensures var r := HeadersOf(Block(h, names)[..k], into, count);
            r.code == Again && r.headers == into + Restrict(h, names[..j]) &&
            r.rest + Block(h, names)[k..] == Block(h, names[j..])
  {
    hide HeadersOf, Block, Restrict;
  }

  // The first k octets of a printed block are part of its first line.
  lemma NoLineYet(h: Headers, names: seq<Text>, k: nat)
    requires GoodNames(h, names) && (forall n | n in names :: n in h) && k < |Block(h, names)|
    requires names != [] ==> names[0] in h && k < FirstLength(h, names)
    ensures FirstLine(Block(h, names)[..k]).None?
  {
    if names == [] {
      assert Block(h, names) == [] + CRLF;
      PrefixHasNoLine([], k);
    } else {
      BlockFront(h, names);
      assert names[0] in names;
      HeaderLineRead(names[0], h[names[0]]);
      var line := HeaderLine(names[0], h[names[0]]);
      hide *;
      FrontOfFront(line + CRLF, Block(h, names[1..]), k);
      CrLfIsTwo();
      PrefixHasNoLine(line, k);
    }
  }

  lemma FrontOfFront(a: Text, b: Text, k: nat)
    requires k <= |a|
    ensures (a + b)[..k] == a[..k]
  {
  }

  lemma CutInFirstLine(h: Headers, names: seq<Text>, k: nat, into: Headers, count: nat)
    requires GoodNames(h, names) && (forall n | n in names :: n in h) && k < |Block(h, names)|
    requires names != [] ==> names[0] in h && k < FirstLength(h, names)
    ensures CutAt(h, names, k, into, count, 0)
  {
    hide *;
    NoLineYet(h, names, k);
    EarlyCut(Block(h, names)[..k], into, count);
    NothingTaken(h, names, into);
    assert Block(h, names)[..k] + Block(h, names)[k..] == Block(h, names);
    ToCutAt(h, names, k, into, count, 0);
  }

  lemma NothingTaken(h: Headers, names: seq<Text>, into: Headers)
    ensures names[..0] == [] && names[0..] == names && into + Restrict(h, []) == into
  {
  }

  lemma EarlyCut(a: Text, into: Headers, count: nat)
    requires FirstLine(a).None?
    ensures HeadersOf(a, into, count) == HeadersRead(Again, into, a)
  {
    hide FirstLine;
  }

  lemma OneMore(h: Headers, names: seq<Text>, into: Headers, j: nat)
    requires names != [] && j < |names| && (forall n | n in names :: n in h) && names[0] in h
    ensures (forall n | n in names[1..][..j] :: n in h) && (forall n | n in names[..j + 1] :: n in h)
    ensures names[1..][j..] == names[j + 1..] && forall n | n in names[j + 1..] :: n in h
    ensures into[names[0] := h[names[0]]] + Restrict(h, names[1..][..j]) == into + Restrict(h, names[..j + 1])
  {
    assert names[..j + 1] == [names[0]] + names[1..][..j];
    assert forall n :: n in names[..j + 1] <==> n == names[0] || n in names[1..][..j];
    assert forall n | n in names[..j + 1] :: n in names;
    assert forall n | n in names[j + 1..] :: n in names;
  }

  lemma BlockParts(h: Headers, names: seq<Text>, k: nat)
    requires names != [] && (forall n | n in names :: n in h) && names[0] in h
    requires FirstLength(h, names) <= k <= |Block(h, names)|
    ensures (forall n | n in names[1..] :: n in h) && k - FirstLength(h, names) <= |Block(h, names[1..])|
    ensures var (tail, m) := (Block(h, names[1..]), k - FirstLength(h, names));
            Block(h, names)[..k] == HeaderLine(names[0], h[names[0]]) + CRLF + tail[..m] &&
            Block(h, names)[k..] == tail[m..] && |Block(h, names)| == FirstLength(h, names) + |tail|
  {
    BlockFront(h, names);
    hide Block, HeaderLine;
    FirstThenRest(HeaderLine(names[0], h[names[0]]) + CRLF, Block(h, names[1..]), k);
  }

  // A cut behind the first line is a cut of the remaining block.
  lemma CutBehindLine(h: Headers, names: seq<Text>, k: nat, into: Headers, count: nat, j: nat)
    requires names != [] && GoodNames(h, names) && count < MAX_HEADERS && forall n | n in names :: n in h
    requires names[0] in h && FirstLength(h, names) <= k <= |Block(h, names)|
    requires CutAt(h, names[1..], k - FirstLength(h, names), into[names[0] := h[names[0]]], count + 1, j)
    ensures CutAt(h, names, k, into, count, j + 1)
  {
    hide *;
    BlockParts(h, names, k);
    FirstIsGood(h, names);
    var first, m := names[0], k - FirstLength(h, names);
    CutMeans(h, names[1..], m, into[first := h[first]], count + 1, j);
    HeadersOfOne(first, h[first], Block(h, names[1..])[..m], into, count);
    OneMore(h, names, into, j);
    ToCutAt(h, names, k, into, count, j + 1);
  }

  lemma FirstIsGood(h: Headers, names: seq<Text>)
    requires names != [] && GoodNames(h, names)
    ensures names[0] in h && WellFormed(names[0], h[names[0]])
  {
    hide WellFormed;
    assert names[0] in names;
  }

  lemma GoodParts(h: Headers, names: seq<Text>)
    requires GoodNames(h, names)
    ensures forall n | n in names :: n in h
    ensures names != [] ==> names[0] in h && GoodNames(h, names[1..])
  {
    hide WellFormed;
    if names != [] {
      assert names[0] in names;
      assert forall n | n in names[1..] :: n in names;
    }
  }

  lemma {:induction false} PrintedPrefix(h: Headers, names: seq<Text>, k: nat, into: Headers, count: nat)
    requires GoodNames(h, names) && (forall n | n in names :: n in h)
    requires k < |Block(h, names)| && count + |names| <= MAX_HEADERS
    ensures CutAt(h, names, k, into, count, WholeLines(h, names, k))
    decreases |names|
  {
    hide *;
    GoodParts(h, names);
    WholeLinesIs(h, names, k);
    if names == [] || k < FirstLength(h, names) {
      CutInFirstLine(h, names, k, into, count);
    } else {
      BlockParts(h, names, k);
      var m := k - FirstLength(h, names);
      PrintedPrefix(h, names[1..], m, into[names[0] := h[names[0]]], count + 1);
      CutBehindLine(h, names, k, into, count, WholeLines(h, names[1..], m));
    }
  }

  lemma WholeLinesIs(h: Headers, names: seq<Text>, k: int)
    requires forall n | n in names :: n in h
    ensures names != [] ==> names[0] in h && forall n | n in names[1..] :: n in h
    ensures WholeLines(h, names, k) ==
            if names == [] || k < FirstLength(h, names) then 0
            else 1 + WholeLines(h, names[1..], k - FirstLength(h, names))
    ensures k < 0 ==> WholeLines(h, names, k) == 0
  {
    if names != [] {
      assert names[0] in names;
      assert forall n | n in names[1..] :: n in names;
    }
    hide FirstLength;
  }

  // A readable block cut anywhere: the second read returns only the headers from the j-th on, j being the number of
  // lines that end before the cut; so it returns all of them if and only if no line does.
  lemma PrintedBlockSplit(h: Headers, k: nat, rest: Text)
    requires Readable(h)
    requires (forall n | n in OrderedKeys.Sorted(h.Keys) :: n in h) && k < |Block(h, OrderedKeys.Sorted(h.Keys))|
    ensures var names := OrderedKeys.Sorted(h.Keys);
            var j := WholeLines(h, names, k);
            var first := HeadersOf(Block(h, names)[..k], map[], 0);
            (forall n | n in names[j..] :: n in h) &&
            first.code == Again && first.rest + Block(h, names)[k..] == Block(h, names[j..]) &&
            HeadersOf(first.rest + (Block(h, names)[k..] + rest), map[], 0)
            == HeadersRead(Ok, Restrict(h, names[j..]), rest) &&
            (Restrict(h, names[j..]) == h <==> j == 0)
  {
    hide *;
    var names := OrderedKeys.Sorted(h.Keys);
    var j := WholeLines(h, names, k);
    AllRestricted(h);
    ReadableNames(h, j);
    NamesDistinct(h);
    PrintedPrefix(h, names, k, map[], 0);
    CutMeans(h, names, k, map[], 0, j);
    var first := HeadersOf(Block(h, names)[..k], map[], 0);
    Associate(first.rest, Block(h, names)[k..], rest);
    BlockRead(h, names[j..], rest);
    LaterNames(h, names, j);
  }

  lemma ReadableNames(h: Headers, j: nat)
    requires Readable(h) && j <= |OrderedKeys.Sorted(h.Keys)|
    ensures var names := OrderedKeys.Sorted(h.Keys);
            GoodNames(h, names) && GoodNames(h, names[j..]) && |names| <= MAX_HEADERS
  {
    AllRestricted(h);
    var names := OrderedKeys.Sorted(h.Keys);
    hide WellFormed, OrderedKeys.Sorted, OrderedKeys.Ascending, Restrict;
    assert forall n | n in names[j..] :: n in names;
  }

  lemma BlockRead(h: Headers, names: seq<Text>, rest: Text)
    requires GoodNames(h, names) && |names| <= MAX_HEADERS
    ensures (forall n | n in names :: n in h) &&
            HeadersOf(Block(h, names) + rest, map[], 0) == HeadersRead(Ok, Restrict(h, names), rest)
  {
    hide HeadersOf, WellFormed, HeaderLines, Restrict;
    Associate(HeaderLines(h, names), CRLF, rest);
    HeaderLinesRead(h, names, CRLF + rest, map[], 0);
    StoreNothing(Restrict(h, names));
    HeadersEnd(rest, Restrict(h, names), |names|);
  }

  ghost predicate Distinct(names: seq<Text>) {
    forall i, j | 0 <= i < j < |names| :: names[i] != names[j]
  }

  lemma NamesDistinct(h: Headers)
    ensures Distinct(OrderedKeys.Sorted(h.Keys))
  {
    var names := OrderedKeys.Sorted(h.Keys);
    forall i, j | 0 <= i < j < |names| ensures names[i] != names[j] {
      OrderedKeys.LessTotal(names[i], names[j]);
    }
  }

  lemma LaterNames(h: Headers, names: seq<Text>, j: nat)
    requires Distinct(names) && j <= |names| && (forall n | n in names :: n in h)
    requires forall n | n in names[j..] :: n in h
    requires map[] + Restrict(h, names) == h
    ensures Restrict(h, names[j..]) == h <==> j == 0
  {
    if j == 0 {
      assert names[0..] == names;
    } else {
      assert names[0] in names && names[0] in h;
      forall i | 0 <= i < |names[j..]| ensures names[j..][i] != names[0] {
        assert names[j..][i] == names[j + i];
      }
      assert names[0] !in Restrict(h, names[j..]);
    }
  }
}
