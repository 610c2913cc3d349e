/** Text handling of the HTTP/1.1 parser: lines, trimming, names without regard to case, and decimal numbers. */
module HttpText {
  import opened Bytes
  import opened Basics

  const TAB: byte := 9
  const LF: byte := 10
  const CR: byte := 13
  const SP: byte := 32
  const COLON: byte := 58
  const CRLF: Text := [CR, LF]

  // ---------------------------------------------------------------- lines

  predicate CrLfAt(s: Text, i: nat) {
    i + 1 < |s| && s[i] == CR && s[i + 1] == LF
  }

  // The first line of s without its end, and what follows the end; None: there is no complete line.
  function FirstLine(s: Text): (r: Option<(Text, Text)>)
    ensures r.Some? ==> s == r.value.0 + CRLF + r.value.1
    ensures r.Some? ==> CrLfAt(s, |r.value.0|) && forall i: nat | i < |r.value.0| :: !CrLfAt(s, i)
    ensures r.None? ==> forall i: nat :: !CrLfAt(s, i)
  {
    if |s| < 2 then None
    else if CrLfAt(s, 0) then Some(([], s[2..]))
    else
      var r := FirstLine(s[1..]);
      assert forall i: nat | 0 < i :: CrLfAt(s, i) == CrLfAt(s[1..], i - 1);
      if r.None? then None else Some(([s[0]] + r.value.0, r.value.1))
  }

  // No end of line inside.
  ghost predicate OneLine(s: Text) {
    forall i: nat :: !CrLfAt(s, i)
  }

  lemma LineEndsAt(s: Text, k: nat)
    requires CrLfAt(s, k) && forall i: nat | i < k :: !CrLfAt(s, i)
    ensures FirstLine(s) == Some((s[..k], s[k + 2..]))
  {
    var (line, rest) := FirstLine(s).value;
    var n := |line|;
    assert n == k;
    assert s == line + (CRLF + rest);
    assert s[..n] == line && s[n..] == CRLF + rest;
    assert s[n + 2..] == rest;
  }

  // A line printed with its end is read back.
  lemma LineRoundTrip(line: Text, rest: Text)
    requires OneLine(line)
    ensures FirstLine(line + CRLF + rest) == Some((line, rest))
  {
    var s := line + CRLF + rest;
    var k := |line|;
    assert s[k] == CR && s[k + 1] == LF;
    forall i: nat | i < k ensures !CrLfAt(s, i) {
      assert !CrLfAt(line, i);
      assert s[i] == line[i];
      assert i + 1 < k ==> s[i + 1] == line[i + 1];
    }
    LineEndsAt(s, k);
    assert s[..k] == line && s[k + 2..] == rest;
  }

  lemma FirstLineIsOneLine(s: Text)
    requires FirstLine(s).Some?
    ensures OneLine(FirstLine(s).value.0)
  {
    var (line, rest) := FirstLine(s).value;
    assert s == line + (CRLF + rest);
    forall i: nat ensures !CrLfAt(line, i) {
      if i + 1 < |line| { assert !CrLfAt(s, i) && s[i] == line[i] && s[i + 1] == line[i + 1]; }
    }
  }

  lemma OneLinePart(a: Text, b: Text)
    requires OneLine(a + b)
    ensures OneLine(a) && OneLine(b)
  {
    forall i: nat ensures !CrLfAt(a, i) {
      if i + 1 < |a| { assert !CrLfAt(a + b, i) && (a + b)[i] == a[i] && (a + b)[i + 1] == a[i + 1]; }
    }
    forall i: nat ensures !CrLfAt(b, i) {
      if i + 1 < |b| {
        assert !CrLfAt(a + b, |a| + i) && (a + b)[|a| + i] == b[i] && (a + b)[|a| + i + 1] == b[i + 1];
      }
    }
  }

  // Two lines around an octet that is neither CR nor LF are one line.
  lemma OneLineJoin(a: Text, x: byte, b: Text)
    requires OneLine(a) && OneLine(b) && x != CR && x != LF
    ensures OneLine(a + [x] + b)
  {
    var s := a + [x] + b;
    var k := |a|;
    forall i: nat ensures !CrLfAt(s, i) {
      if i + 1 < k {
        assert !CrLfAt(a, i) && s[i] == a[i] && s[i + 1] == a[i + 1];
      } else if i + 1 == k || i == k {
        assert s[k] == x;
      } else if i + 1 < |s| {
        assert !CrLfAt(b, i - k - 1) && s[i] == b[i - k - 1] && s[i + 1] == b[i - k];
      }
    }
  }

  lemma ShortIsOneLine(s: Text)
    requires LF !in s || CR !in s
    ensures OneLine(s)
  {
  }

  // ---------------------------------------------------------------- trimming

  predicate Blank(b: byte) {
    b == SP || b == TAB
  }

  function TrimLeft(s: Text): (r: Text)
    ensures |r| <= |s| && (r != [] ==> !Blank(r[0]))
  {
    if s != [] && Blank(s[0]) then TrimLeft(s[1..]) else s
  }

  function TrimRight(s: Text): (r: Text)
    ensures |r| <= |s| && (r != [] ==> r[0] == s[0] && !Blank(r[|r| - 1]))
  {
    if s != [] && Blank(s[|s| - 1]) then TrimRight(s[..|s| - 1]) else s
  }

  lemma {:induction false} TrimLeftIsEnd(s: Text)
    ensures TrimLeft(s) == s[|s| - |TrimLeft(s)|..]
  {
    if s != [] && Blank(s[0]) { TrimLeftIsEnd(s[1..]); }
  }

  lemma {:induction false} TrimRightIsStart(s: Text)
    ensures TrimRight(s) == s[..|TrimRight(s)|]
  {
    if s != [] && Blank(s[|s| - 1]) { TrimRightIsStart(s[..|s| - 1]); }
  }

  function Trim(s: Text): (r: Text)
    ensures Trimmed(r) && |r| <= |s|
  {
    TrimRight(TrimLeft(s))
  }

  predicate Trimmed(s: Text) {
    s != [] ==> !Blank(s[0]) && !Blank(s[|s| - 1])
  }

  lemma TrimmedStays(s: Text)
    requires Trimmed(s)
    ensures Trim(s) == s && Trim([SP] + s) == s
  {
    assert TrimLeft(s) == s && TrimRight(s) == s;
    var t := [SP] + s;
    assert t[1..] == s && t[0] == SP;
    assert TrimLeft(t) == TrimLeft(s);
    hide TrimLeft, TrimRight;
  }

  // What is left is a part of what was there.
  lemma TrimIsPart(s: Text) returns (i: nat)
    ensures i + |Trim(s)| <= |s| && Trim(s) == s[i..i + |Trim(s)|]
  {
    i := |s| - |TrimLeft(s)|;
    TrimLeftIsEnd(s);
    TrimRightIsStart(TrimLeft(s));
  }

  lemma TrimOneLine(s: Text)
    requires OneLine(s)
    ensures OneLine(Trim(s))
  {
    hide Trim;
    var i := TrimIsPart(s);
    var n := |Trim(s)|;
    assert s == s[..i] + (s[i..i + n] + s[i + n..]);
    OneLinePart(s[..i], s[i..i + n] + s[i + n..]);
    OneLinePart(s[i..i + n], s[i + n..]);
  }

  // ---------------------------------------------------------------- names without regard to case

  // std::string::c_str() as a C function sees it: up to the first NUL.
  function CStr(s: Text): Text {
    if s == [] || s[0] == 0 then [] else [s[0]] + CStr(s[1..])
  }

  function Lower(s: Text): Text {
    seq(|s|, i requires 0 <= i < |s| => if 65 <= s[i] <= 90 then s[i] + 32 else s[i])
  }

  // strcasecmp says equal
  predicate SameName(a: Text, b: Text) {
    Lower(CStr(a)) == Lower(CStr(b))
  }

  // ---------------------------------------------------------------- decimal numbers

  // std::to_string of an unsigned number
  function Decimal(n: nat): (t: Text)
    ensures t != [] && forall i | 0 <= i < |t| :: 48 <= t[i] <= 57
  {
    if n < 10 then [48 + n] else Decimal(n / 10) + [48 + n % 10]
  }

  // std::to_string of an int
  function DecimalInt(n: int): Text {
    if n < 0 then [45] + Decimal(-n) else Decimal(n)
  }

  function Pow10(n: nat): (p: nat)
    ensures p >= 1
  {
    if n == 0 then 1 else 10 * Pow10(n - 1)
  }

  lemma {:induction false} DecimalLength(n: nat, d: nat)
    requires n < Pow10(d) && d > 0
    ensures |Decimal(n)| <= d
  {
    if n >= 10 { DecimalLength(n / 10, d - 1); }
  }

  predicate IsDigit(b: byte) {
    48 <= b <= 57
  }

  predicate AllDigits(s: Text) {
    forall i | 0 <= i < |s| :: IsDigit(s[i])
  }

  function Value(s: Text): nat
    requires AllDigits(s)
  {
    if s == [] then 0 else Value(s[..|s| - 1]) * 10 + (s[|s| - 1] - 48)
  }

  lemma {:induction false} ValueOfDecimal(n: nat)
    ensures Value(Decimal(n)) == n
  {
    if n < 10 {
      assert Decimal(n)[..0] == [];
    } else {
      ValueOfDecimal(n / 10);
      var s := Decimal(n);
      assert s[..|s| - 1] == Decimal(n / 10);
    }
  }

  // A printed int has its value, and a minus sign exactly below zero.
  lemma DecimalIntIs(n: int)
    ensures var t := DecimalInt(n);
            if n < 0 then t[0] == 45 && Value(t[1..]) == -n else AllDigits(t) && Value(t) == n
  {
    hide Decimal, Value;
    ValueOfDecimal(if n < 0 then -n else n);
  }

  // isspace in the C locale
  predicate Space(b: byte) {
    b == 32 || 9 <= b <= 13
  }

  function SkipSpace(s: Text): Text {
    if s != [] && Space(s[0]) then SkipSpace(s[1..]) else s
  }

  // strtoull with base 10 on the whole string; None: no number, something behind it, or out of range.  A minus sign
  // is accepted and negates modulo 2^64.
  function ParseUnsigned(value: Text): (r: Option<nat>)
    ensures r.Some? ==> r.value < U64
  {
    var s := SkipSpace(CStr(value));
    var signed := s != [] && (s[0] == 43 || s[0] == 45);
    var digits := if signed then s[1..] else s;
    if digits == [] || !AllDigits(digits) || Value(digits) >= U64 then None
    else Some(if signed && s[0] == 45 then (U64 - Value(digits)) % U64 else Value(digits))
  }

  lemma {:induction false} NoNulStays(s: Text)
    requires 0 !in s
    ensures CStr(s) == s
  {
    if s != [] {
      NoNulStays(s[1..]);
      assert s == [s[0]] + s[1..];
    }
  }

  // A printed length is read back.
  lemma DecimalRoundTrip(n: nat)
    requires n < U64
    ensures ParseUnsigned(Decimal(n)) == Some(n)
  {
    var s := Decimal(n);
    NoNulStays(s);
    ValueOfDecimal(n);
    assert SkipSpace(s) == s;
  }

  // ---------------------------------------------------------------- searching

  function IndexOf(s: Text, b: byte): (r: Option<nat>)
    ensures r.Some? ==> r.value < |s| && s[r.value] == b && forall i | 0 <= i < r.value :: s[i] != b
    ensures r.None? ==> b !in s
  {
    if s == [] then None
    else if s[0] == b then Some(0)
    else
      var r := IndexOf(s[1..], b);
      if r.None? then None else Some(r.value + 1)
  }

  lemma IndexOfIs(s: Text, b: byte, k: nat)
    requires k < |s| && s[k] == b && forall i | 0 <= i < k :: s[i] != b
    ensures IndexOf(s, b) == Some(k)
  {
    assert s[k] in s;
  }

  // std::string::find finds the part
  predicate Contains(s: Text, part: Text) {
    (|part| <= |s| && s[..|part|] == part) || (s != [] && Contains(s[1..], part))
  }
}
