/** The static table of HPACK (Appendix A of RFC 7541) and its two lookups. */
module StaticTable {
  import opened Bytes

  const SIZE: nat := 61

  // No entry has an empty name, and all are short.
  type HeaderName = s: string | 0 < |s| < 100 witness "a"
  type HeaderValue = s: string | |s| < 100

  datatype Entry = Entry(name: HeaderName, value: HeaderValue)

  function Part1(): (s: seq<Entry>)
    ensures |s| == 8
  {
    [
      Entry(":authority", ""), Entry(":method", "GET"),
      Entry(":method", "POST"), Entry(":path", "/"),
      Entry(":path", "/index.html"), Entry(":scheme", "http"),
      Entry(":scheme", "https"), Entry(":status", "200")
    ]
  }

  function Part2(): (s: seq<Entry>)
    ensures |s| == 8
  {
    [
      Entry(":status", "204"), Entry(":status", "206"),
      Entry(":status", "304"), Entry(":status", "400"),
      Entry(":status", "404"), Entry(":status", "500"),
      Entry("accept-charset", ""), Entry("accept-encoding", "gzip, deflate")
    ]
  }

  function Part3(): (s: seq<Entry>)
    ensures |s| == 8
  {
    [
      Entry("accept-language", ""), Entry("accept-ranges", ""),
      Entry("accept", ""), Entry("access-control-allow-origin", ""),
      Entry("age", ""), Entry("allow", ""),
      Entry("authorization", ""), Entry("cache-control", "")
    ]
  }

  function Part4(): (s: seq<Entry>)
    ensures |s| == 8
  {
    [
      Entry("content-disposition", ""), Entry("content-encoding", ""),
      Entry("content-language", ""), Entry("content-length", ""),
      Entry("content-location", ""), Entry("content-range", ""),
      Entry("content-type", ""), Entry("cookie", "")
    ]
  }

  function Part5(): (s: seq<Entry>)
    ensures |s| == 8
  {
    [
      Entry("date", ""), Entry("etag", ""),
      Entry("expect", ""), Entry("expires", ""),
      Entry("from", ""), Entry("host", ""),
      Entry("if-match", ""), Entry("if-modified-since", "")
    ]
  }

  function Part6(): (s: seq<Entry>)
    ensures |s| == 8
  {
    [
      Entry("if-none-match", ""), Entry("if-range", ""),
      Entry("if-unmodified-since", ""), Entry("last-modified", ""),
      Entry("link", ""), Entry("location", ""),
      Entry("max-forwards", ""), Entry("proxy-authenticate", "")
    ]
  }

  function Part7(): (s: seq<Entry>)
    ensures |s| == 8
  {
    [
      Entry("proxy-authorization", ""), Entry("range", ""),
      Entry("referer", ""), Entry("refresh", ""),
      Entry("retry-after", ""), Entry("server", ""),
      Entry("set-cookie", ""), Entry("strict-transport-security", "")
    ]
  }

  function Part8(): (s: seq<Entry>)
    ensures |s| == 5
  {
    [
      Entry("transfer-encoding", ""), Entry("user-agent", ""),
      Entry("vary", ""), Entry("via", ""),
      Entry("www-authenticate", "")
    ]
  }

  function Table(): (s: seq<Entry>)
    ensures |s| == SIZE
  {
    Part1() + Part2() + Part3() + Part4() + Part5() + Part6() + Part7() + Part8()
  }

  function Name(i: nat): (name: Text)
    requires 1 <= i <= SIZE
    ensures 0 < |name| < 100
  {
    Ascii(Table()[i - 1].name)
  }

  function Value(i: nat): (value: Text)
    requires 1 <= i <= SIZE
    ensures |value| < 100
  {
    Ascii(Table()[i - 1].value)
  }

  // The entry at i is the one looked up: both name and value, or the name alone.
  predicate Matches(i: nat, name: Text, value: Text, nameOnly: bool)
    requires 1 <= i <= SIZE
  {
    Name(i) == name && (nameOnly || Value(i) == value)
  }

  // The first matching index from i on, or -1.
  function FirstIndex(i: nat, name: Text, value: Text, nameOnly: bool): (r: int)
    requires 1 <= i <= SIZE + 1
    ensures r == -1 || (i <= r <= SIZE && Matches(r, name, value, nameOnly))
    ensures forall k | i <= k <= SIZE && (r == -1 || k < r) :: !Matches(k, name, value, nameOnly)
    decreases SIZE + 1 - i
  {
    if i > SIZE then -1
    else if Matches(i, name, value, nameOnly) then i
    else FirstIndex(i + 1, name, value, nameOnly)
  }

  method FindStaticIndex(name: Text, value: Text) returns (r: int)
    ensures r == FirstIndex(1, name, value, false)
  {
    hide Name, Value;
    var i := 0;
    while i < SIZE
      invariant i <= SIZE
      invariant FirstIndex(1, name, value, false) == FirstIndex(i + 1, name, value, false)
    {
      if name == Name(i + 1) && value == Value(i + 1) { return i + 1; }
      i := i + 1;
    }
    r := -1;
  }

  method FindStaticNameIndex(name: Text) returns (r: int)
    ensures r == FirstIndex(1, name, [], true)
  {
    hide Name, Value;
    var i := 0;
    while i < SIZE
      invariant i <= SIZE
      invariant FirstIndex(1, name, [], true) == FirstIndex(i + 1, name, [], true)
    {
      if name == Name(i + 1) { return i + 1; }
      i := i + 1;
    }
    r := -1;
  }
}
