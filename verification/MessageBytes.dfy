/** A message as the sequence of bits that enters a CRC register: bytes in order, least significant bit first. */
module MessageBytes {
  import opened Bytes

  /** The low `n` bits of `v`, lowest first. */
  function OctetBits(v: bv8, n: nat): (bits: seq<bool>)
    ensures |bits| == n
    decreases n
  {
    if n == 0 then [] else [v & 1 == 1] + OctetBits(v >> 1, n - 1)
  }

  /** The bits of a byte in the order they enter the register and travel on the wire. */
  function ByteBits(b: byte): (bits: seq<bool>)
    ensures |bits| == 8
  {
    OctetBits(Bits(b), 8)
  }

  function MessageBits(s: seq<byte>): (bits: seq<bool>)
    ensures |bits| == 8 * |s|
    decreases |s|
  {
    if s == [] then [] else MessageBits(s[..|s| - 1]) + ByteBits(s[|s| - 1])
  }

  lemma {:induction false} MessageBitsAppend(a: seq<byte>, b: seq<byte>)
    ensures MessageBits(a + b) == MessageBits(a) + MessageBits(b)
    decreases |b|
  {
    hide ByteBits;
    if b == [] {
      assert a + b == a;
    } else {
      var n := |b| - 1;
      assert (a + b)[..|a + b| - 1] == a + b[..n];
      MessageBitsAppend(a, b[..n]);
    }
  }

  lemma HalvesTell(u: bv8, v: bv8)
    requires u >> 1 == v >> 1 && (u & 1 == 1) == (v & 1 == 1)
    ensures u == v
  {}

  predicate Narrow(v: bv8, n: nat)
    decreases n
  {
    if n == 0 then v == 0 else Narrow(v >> 1, n - 1)
  }

  lemma OctetIsNarrow(v: bv8)
    ensures Narrow(v, 8)
  {}

  lemma {:induction false} OctetBitsTell(u: bv8, v: bv8, n: nat)
    requires Narrow(u, n) && Narrow(v, n) && OctetBits(u, n) == OctetBits(v, n)
    ensures u == v
    decreases n
  {
    if n > 0 {
      assert OctetBits(u, n)[0] == OctetBits(v, n)[0];
      assert OctetBits(u, n)[1..] == OctetBits(u >> 1, n - 1);
      assert OctetBits(v, n)[1..] == OctetBits(v >> 1, n - 1);
      OctetBitsTell(u >> 1, v >> 1, n - 1);
      HalvesTell(u, v);
    }
  }

  lemma ByteBitsTell(a: byte, b: byte)
    requires ByteBits(a) == ByteBits(b)
    ensures a == b
  {
    hide Narrow, OctetBits;
    OctetIsNarrow(Bits(a));
    OctetIsNarrow(Bits(b));
    OctetBitsTell(Bits(a), Bits(b), 8);
  }

  /** Different messages of one length are different bit strings. */
  lemma {:induction false} MessageBitsTell(a: seq<byte>, b: seq<byte>)
    requires |a| == |b| && MessageBits(a) == MessageBits(b)
    ensures a == b
    decreases |a|
  {
    hide ByteBits;
    if a != [] {
      var n := |a| - 1;
      assert MessageBits(a)[..8 * n] == MessageBits(a[..n]) && MessageBits(a)[8 * n..] == ByteBits(a[n]);
      assert MessageBits(b)[..8 * n] == MessageBits(b[..n]) && MessageBits(b)[8 * n..] == ByteBits(b[n]);
      MessageBitsTell(a[..n], b[..n]);
      ByteBitsTell(a[n], b[n]);
      assert a == a[..n] + [a[n]] && b == b[..n] + [b[n]];
    }
  }
}
