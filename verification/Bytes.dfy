/** Bytes and machine words as bounded integers, with the byte orders the firmware uses. */
module Bytes {

  type byte = x: int | 0 <= x < 0x100
  type word = x: int | 0 <= x < 0x1_0000

  function Hi(w: word): byte { w / 0x100 }

  function Lo(w: word): byte { w % 0x100 }

  function Word(hi: byte, lo: byte): word { 0x100 * hi + lo }

  lemma WordSplits(w: word)
    ensures Word(Hi(w), Lo(w)) == w
  {}

  /** The eight bits of a byte, for the bitwise operators. */
  function Bits(b: byte): (v: bv8)
    ensures v as int == b
  {
    if b == 0 then 0 else Bits(b - 1) + 1
  }

  lemma BitsOfValue(v: bv8)
    ensures Bits(v as int) == v
  {}

  lemma JoinValue(hi: bv8, lo: bv8)
    ensures (((hi as bv16) << 8) | (lo as bv16)) as int == 0x100 * (hi as int) + (lo as int)
  {}

  function JoinOctets(hi: bv8, lo: bv8): (v: bv16)
    ensures v as int == 0x100 * (hi as int) + (lo as int)
  {
    JoinValue(hi, lo);
    ((hi as bv16) << 8) | (lo as bv16)
  }

  /** The sixteen bits of a word. */
  function WordBits(w: word): (v: bv16)
    ensures v as int == w
  {
    JoinOctets(Bits(Hi(w)), Bits(Lo(w)))
  }

  /** `n` bytes of `v`, least significant first: what copying a little-endian integer out of memory yields. */
  function LittleEndian(v: nat, n: nat): (s: seq<byte>)
    ensures |s| == n
  {
    if n == 0 then [] else [v % 0x100] + LittleEndian(v / 0x100, n - 1)
  }

  function FromLittleEndian(s: seq<byte>): nat {
    if s == [] then 0 else s[0] + 0x100 * FromLittleEndian(s[1..])
  }

  function Pow256(n: nat): (p: nat)
    ensures p > 0
  {
    if n == 0 then 1 else 0x100 * Pow256(n - 1)
  }

  /** Reading back the bytes of `v` gives `v`, as long as `v` fits the width it was written with. */
  lemma {:induction false} LittleEndianRoundTrip(v: nat, n: nat)
    requires v < Pow256(n)
    ensures FromLittleEndian(LittleEndian(v, n)) == v
  {
    if n > 0 {
      LittleEndianRoundTrip(v / 0x100, n - 1);
      assert LittleEndian(v, n)[1..] == LittleEndian(v / 0x100, n - 1);
    }
  }

  lemma {:induction false} FromLittleEndianBound(s: seq<byte>)
    ensures FromLittleEndian(s) < Pow256(|s|)
  {
    if s != [] {
      FromLittleEndianBound(s[1..]);
    }
  }
}
