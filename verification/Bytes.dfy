/** Octets, octet strings, and powers of two. */
module Bytes {
  type byte = x: int | 0 <= x < 256

  // std::string and std::vector<uint8_t>
  type Text = seq<byte>

  // The octets of a string literal of the source (all ASCII).
  function Ascii(s: string): (t: Text)
    ensures |t| == |s|
    ensures forall i | 0 <= i < |s| :: t[i] == s[i] as int % 256
  {
    seq(|s|, i requires 0 <= i < |s| => s[i] as int % 256)
  }

  function Pow2(n: nat): (p: nat)
    ensures p >= 1
  {
    if n == 0 then 1 else 2 * Pow2(n - 1)
  }

  lemma {:induction false} Pow2Add(a: nat, b: nat)
    ensures Pow2(a + b) == Pow2(a) * Pow2(b)
  {
    if a > 0 { Pow2Add(a - 1, b); }
  }

  lemma {:induction false} Pow2Grows(a: nat, b: nat)
    requires a < b
    ensures 2 * Pow2(a) <= Pow2(b)
  {
    if a + 1 < b { Pow2Grows(a, b - 1); }
  }

  const U32: nat := 0x1_0000_0000
  const U64: nat := 0x1_0000_0000_0000_0000

  lemma Pow2Is32()
    ensures Pow2(7) == 128 && Pow2(32) == U32
  {
    Pow2Add(16, 16);
  }

  // Concatenation of a list of strings.
  function Join(parts: seq<Text>): Text {
    if parts == [] then [] else parts[0] + Join(parts[1..])
  }
}
