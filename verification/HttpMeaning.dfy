/** What the text functions of the HTTP/1.1 parser and builder mean, said without their loops and searches. */
module HttpMeanings {
  import opened Bytes
  import opened Basics
  import opened HttpText
  import opened HttpParsers
  import OrderedKeys

  // ---------------------------------------------------------------- parts of a text

  lemma {:induction false} PartFound(s: Text, part: Text) returns (a: Text, b: Text)
    requires Contains(s, part)
    ensures s == a + part + b
  {
    if |part| <= |s| && s[..|part|] == part {
      a, b := [], s[|part|..];
    } else {
      a, b := PartFound(s[1..], part);
      a := [s[0]] + a;
      assert s == [s[0]] + s[1..];
    }
  }

  lemma {:induction false} PartThere(a: Text, part: Text, b: Text)
    ensures Contains(a + part + b, part)
    decreases |a|
  {
    var s := a + part + b;
    if a == [] {
      assert s[..|part|] == part;
    } else {
      PartThere(a[1..], part, b);
      assert s[1..] == a[1..] + part + b;
    }
  }

  lemma ContainsIs(s: Text, part: Text)
    ensures Contains(s, part) <==> exists a, b :: s == a + part + b
  {
    if Contains(s, part) {
      var a, b := PartFound(s, part);
    }
    forall a, b | s == a + part + b ensures Contains(s, part) { PartThere(a, part, b); }
  }

  // ---------------------------------------------------------------- names

  // The text up to j is what a C function sees of s.
  predicate EndsAt(s: Text, j: nat) {
    j <= |s| && 0 !in s[..j] && (j < |s| ==> s[j] == 0)
  }

  // The same letter, or the same octet.
  predicate SameLetter(x: byte, y: byte) {
    x == y || (65 <= x <= 90 && y == x + 32) || (65 <= y <= 90 && x == y + 32)
  }

  lemma {:induction false} CStrIs(s: Text, j: nat)
    requires EndsAt(s, j)
    ensures CStr(s) == s[..j]
  {
    if j > 0 {
      assert s[..j][0] == s[0] && s[1..][..j - 1] == s[..j][1..];
      CStrIs(s[1..], j - 1);
      assert s[..j] == [s[0]] + s[1..][..j - 1];
    }
  }

  // Two names are the same if they agree up to the first NUL but for the case of letters.
  lemma SameNameIs(a: Text, b: Text, j: nat, k: nat)
    requires EndsAt(a, j) && EndsAt(b, k)
    ensures SameName(a, b) <==> j == k && forall i | 0 <= i < j :: SameLetter(a[i], b[i])
  {
    CStrIs(a, j);
    CStrIs(b, k);
    var x, y := Lower(a[..j]), Lower(b[..k]);
    if j == k {
      forall i | 0 <= i < j ensures x[i] == y[i] <==> SameLetter(a[i], b[i]) {
      }
      if forall i | 0 <= i < j :: SameLetter(a[i], b[i]) { assert x == y; }
    } else {
      assert |x| != |y|;
    }
  }

  // k is the name that counts: the least of those in h that are the same as `name`.
  ghost predicate Counts(h: Headers, name: Text, k: Text) {
    k in h && SameName(k, name) && forall x | x in h && SameName(x, name) :: x == k || OrderedKeys.Less(k, x)
  }

  lemma FoundIs(h: Headers, name: Text, k: Text)
    requires Counts(h, name, k)
    ensures Found(h, name) == Some(h[k])
  {
    FoundIsLeast(h, name);
    hide SameName, Found, OrderedKeys.Less;
    assert Found(h, name).Some?;
    var m :| m in h && SameName(m, name) && h[m] == Found(h, name).value &&
             forall x | x in h && SameName(x, name) :: x == m || OrderedKeys.Less(m, x);
    OrderedKeys.LessTotal(k, m);
  }

  lemma NotFound(h: Headers, name: Text)
    requires forall k | k in h :: !SameName(k, name)
    ensures Found(h, name) == None
  {
    FoundIsLeast(h, name);
    hide SameName, Found, OrderedKeys.Less;
  }

  lemma FoundCounts(h: Headers, name: Text) returns (k: Text)
    requires Found(h, name).Some?
    ensures Counts(h, name, k) && h[k] == Found(h, name).value
  {
    FoundIsLeast(h, name);
    hide SameName, Found, OrderedKeys.Less;
    k :| k in h && SameName(k, name) && h[k] == Found(h, name).value &&
         forall x | x in h && SameName(x, name) :: x == k || OrderedKeys.Less(k, x);
  }

  // ---------------------------------------------------------------- numbers

  predicate AllSpace(s: Text) {
    forall i | 0 <= i < |s| :: Space(s[i])
  }

  // Any space, a sign or none, and digits of a 64-bit number; a minus sign negates modulo 2^64.
  ghost predicate IsNumber(s: Text, space: Text, sign: Text, digits: Text, n: nat) {
    s == space + sign + digits && AllSpace(space) && (sign == [] || sign == [43] || sign == [45]) &&
    digits != [] && AllDigits(digits) && Value(digits) < U64 &&
    n == if sign == [45] then (U64 - Value(digits)) % U64 else Value(digits)
  }

  lemma {:induction false} SkipSpaceIs(space: Text, s: Text)
    requires AllSpace(space) && (s != [] ==> !Space(s[0]))
    ensures SkipSpace(space + s) == s
    decreases |space|
  {
    if space == [] {
      assert space + s == s;
    } else {
      assert (space + s)[1..] == space[1..] + s;
      SkipSpaceIs(space[1..], s);
    }
  }

  lemma {:induction false} SpaceSkipped(s: Text) returns (space: Text)
    ensures s == space + SkipSpace(s) && AllSpace(space)
    ensures SkipSpace(s) != [] ==> !Space(SkipSpace(s)[0])
  {
    space := [];
    if s != [] && Space(s[0]) {
      space := SpaceSkipped(s[1..]);
      space := [s[0]] + space;
      assert s == [s[0]] + s[1..];
    }
  }

  lemma NumberRead(value: Text, space: Text, sign: Text, digits: Text, n: nat)
    requires IsNumber(CStr(value), space, sign, digits, n)
    ensures ParseUnsigned(value) == Some(n)
  {
    hide CStr, Value;
    Associate(space, sign, digits);
    assert IsDigit(digits[0]);
    SkipSpaceIs(space, sign + digits);
    if sign == [] { assert sign + digits == digits; } else { assert (sign + digits)[1..] == digits; }
  }

  lemma NumberSplit(value: Text, n: nat) returns (space: Text, sign: Text, digits: Text)
    requires ParseUnsigned(value) == Some(n)
    ensures IsNumber(CStr(value), space, sign, digits, n)
  {
    hide CStr, Value;
    space := SpaceSkipped(CStr(value));
    var s := SkipSpace(CStr(value));
    var k := if s[0] == 43 || s[0] == 45 then 1 else 0;
    sign, digits := s[..k], s[k..];
    assert s == sign + digits;
    Associate(space, sign, digits);
    assert k == 1 ==> sign == [s[0]];
    assert k == 0 ==> sign == [] && digits == s;
  }

  // The characters of the C locale that count as digits and as space.
  lemma CharactersAre(b: byte)
    ensures IsDigit(b) <==> b in Ascii("0123456789")
    ensures Space(b) <==> b in Ascii(" \t\n\r") || b in [11, 12]
  {
    DigitAt(b);
    var s := Ascii(" \t\n\r");
    assert s == [32, 9, 10, 13];
    hide Ascii, IsDigit;
  }

  lemma DigitAt(b: byte)
    ensures IsDigit(b) <==> b in Ascii("0123456789")
  {
    var s := Ascii("0123456789");
    assert forall i | 0 <= i < 10 :: s[i] == 48 + i;
    hide Ascii;
    if IsDigit(b) { assert s[b - 48] == b; }
  }

  // A Content-Length is read as n exactly if it is such a number up to its first NUL.
  lemma UnsignedIs(value: Text, n: nat)
    ensures ParseUnsigned(value) == Some(n) <==>
            exists space, sign, digits :: IsNumber(CStr(value), space, sign, digits, n)
  {
    hide ParseUnsigned, IsNumber, CStr;
    if ParseUnsigned(value) == Some(n) {
      var space, sign, digits := NumberSplit(value, n);
    }
    forall space, sign, digits | IsNumber(CStr(value), space, sign, digits, n) ensures ParseUnsigned(value) == Some(n) {
      NumberRead(value, space, sign, digits, n);
    }
  }

  // ---------------------------------------------------------------- lines

  // A line is taken if it is shorter than the limit, refused as too long otherwise; without an end there is none.
  lemma LineIs(line: Text, rest: Text, max: nat)
    requires OneLine(line)
    ensures ReadLineOf(line + CRLF + rest, max) == if |line| < max then Line(line, rest) else LongLine
    ensures ReadLineOf(line, max) == NoLine
  {
    LineRoundTrip(line, rest);
    NoLineEnd(line);
    hide FirstLine;
  }

  // ---------------------------------------------------------------- header lines

  predicate AllBlank(s: Text) {
    forall i | 0 <= i < |s| :: Blank(s[i])
  }

  lemma {:induction false} TrimLeftIs(a: Text, s: Text)
    requires AllBlank(a) && (s != [] ==> !Blank(s[0]))
    ensures TrimLeft(a + s) == s
    decreases |a|
  {
    if a == [] {
      assert a + s == s;
    } else {
      assert (a + s)[1..] == a[1..] + s;
      TrimLeftIs(a[1..], s);
    }
  }

  lemma {:induction false} TrimRightIs(s: Text, b: Text)
    requires AllBlank(b) && (s != [] ==> !Blank(s[|s| - 1]))
    ensures TrimRight(s + b) == s
    decreases |b|
  {
    if b == [] {
      assert s + b == s;
    } else {
      var front := b[..|b| - 1];
      assert (s + b)[..|s + b| - 1] == s + front;
      TrimRightIs(s, front);
    }
  }

  lemma TrimIs(a: Text, s: Text, b: Text)
    requires AllBlank(a) && AllBlank(b) && Trimmed(s)
    ensures Trim(a + s + b) == s
  {
    if s == [] {
      assert a + s + b == (a + b) + [];
      assert AllBlank(a + b);
      TrimLeftIs(a + b, []);
    } else {
      Associate(a, s, b);
      TrimLeftIs(a, s + b);
      TrimRightIs(s, b);
    }
  }

  lemma {:induction false} LeftTrimmed(s: Text) returns (a: Text)
    ensures s == a + TrimLeft(s) && AllBlank(a)
  {
    a := [];
    if s != [] && Blank(s[0]) {
      a := LeftTrimmed(s[1..]);
      a := [s[0]] + a;
      assert s == [s[0]] + s[1..];
    }
  }

  lemma {:induction false} RightTrimmed(s: Text) returns (b: Text)
    ensures s == TrimRight(s) + b && AllBlank(b)
  {
    b := [];
    if s != [] && Blank(s[|s| - 1]) {
      b := RightTrimmed(s[..|s| - 1]);
      b := b + [s[|s| - 1]];
      assert s == s[..|s| - 1] + [s[|s| - 1]];
    }
  }

  lemma TrimParts(s: Text) returns (a: Text, b: Text)
    ensures s == a + Trim(s) + b && AllBlank(a) && AllBlank(b)
  {
    a := LeftTrimmed(s);
    b := RightTrimmed(TrimLeft(s));
    Associate(a, Trim(s), b);
  }

  // Name and value, split at the first colon, both with blanks around them.
  ghost predicate IsHeader(line: Text, a: Text, name: Text, b: Text, c: Text, value: Text, d: Text) {
    line == (a + name + b) + [COLON] + (c + value + d) && COLON !in name &&
    AllBlank(a) && AllBlank(b) && AllBlank(c) && AllBlank(d) && Trimmed(name) && Trimmed(value)
  }

  lemma HeaderCut(line: Text, a: Text, name: Text, b: Text, c: Text, value: Text, d: Text)
    requires IsHeader(line, a, name, b, c, value, d)
    ensures var k := |a + name + b|;
            IndexOf(line, COLON) == Some(k) && line[..k] == a + name + b && line[k + 1..] == c + value + d &&
            Trim(line[..k]) == name && Trim(line[k + 1..]) == value
  {
    var front, back := a + name + b, c + value + d;
    assert COLON !in front;
    assert line[|front|] == COLON;
    forall i | 0 <= i < |front| ensures line[i] != COLON { assert line[i] == front[i]; }
    IndexOfIs(line, COLON, |front|);
    hide IndexOf, Trim;
    assert line[..|front|] == front && line[|front| + 1..] == back;
    TrimIs(a, name, b);
    TrimIs(c, value, d);
  }

  lemma HeaderSplit(line: Text, k: nat) returns (a: Text, b: Text, c: Text, d: Text)
    requires IndexOf(line, COLON) == Some(k)
    ensures IsHeader(line, a, Trim(line[..k]), b, c, Trim(line[k + 1..]), d)
  {
    assert COLON !in line[..k];
    hide IndexOf, Trim, Trimmed, AllBlank;
    a, b := TrimParts(line[..k]);
    c, d := TrimParts(line[k + 1..]);
    assert line == line[..k] + [COLON] + line[k + 1..];
    forall x | x in Trim(line[..k]) ensures x in line[..k] {
    }
  }

  lemma HeaderHasColon(line: Text, a: Text, name: Text, b: Text, c: Text, value: Text, d: Text)
    ensures IsHeader(line, a, name, b, c, value, d) ==> COLON in line
  {
    if IsHeader(line, a, name, b, c, value, d) { assert line[|a + name + b|] == COLON; }
  }

  // A header line is taken exactly if it splits like this, the name is not empty, and both are within the limits.
  lemma HeaderIs(line: Text, name: Text, value: Text)
    ensures HeaderOf(line) == Header(name, value) <==>
            (exists a, b, c, d :: IsHeader(line, a, name, b, c, value, d)) &&
            0 < |name| <= 256 && |value| <= 4096
    ensures HeaderOf(line) == BadHeader(Invalid) <==>
            COLON !in line || exists a, b, c, v, d :: IsHeader(line, a, [], b, c, v, d)
  {
    var k := IndexOf(line, COLON);
    if k.Some? {
      var a, b, c, d := HeaderSplit(line, k.value);
      hide IsHeader, Trim, IndexOf;
      forall a', n, b', c', v, d' | IsHeader(line, a', n, b', c', v, d')
        ensures n == Trim(line[..k.value]) && v == Trim(line[k.value + 1..])
      {
        HeaderCut(line, a', n, b', c', v, d');
      }
    } else {
      hide Trim, IndexOf;
      forall a', n, b', c', v, d' ensures !IsHeader(line, a', n, b', c', v, d') {
        HeaderHasColon(line, a', n, b', c', v, d');
      }
    }
  }

  // ---------------------------------------------------------------- octets of responses

  lemma AsciiJoin(a: string, b: string)
    ensures Ascii(a + b) == Ascii(a) + Ascii(b)
  {
  }

  lemma AsciiCrLf()
    ensures Ascii("\r\n") == CRLF && Ascii(" ") == [SP] && Ascii(": ") == [COLON] + [SP]
  {
  }

  lemma AsciiNumbers()
    ensures DecimalInt(200) == Ascii("200") && DecimalInt(400) == Ascii("400")
  {
    assert Decimal(2) == [50] && Decimal(20) == [50, 48] && Decimal(200) == [50, 48, 48];
    assert Decimal(4) == [52] && Decimal(40) == [52, 48] && Decimal(400) == [52, 48, 48];
  }
}
