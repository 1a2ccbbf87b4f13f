/** Packing coils into bytes, and back: the four loops that client and server use. */
module ModbusBits {
  import opened Bytes
  import opened ModbusFrame

  function Pow2(n: nat): (p: nat)
    ensures p > 0
  {
    if n == 0 then 1 else 2 * Pow2(n - 1)
  }

  /** Bit `k` of a number: `b & (1 << k)`. */
  function BitOf(b: nat, k: nat): (x: nat)
    ensures IsBit(x)
    decreases k
  {
    if k == 0 then b % 2 else BitOf(b / 2, k - 1)
  }

  predicate IsBit(x: int) { x == 0 || x == 1 }

  predicate AllBits(s: seq<byte>) { forall i | 0 <= i < |s| :: IsBit(s[i]) }

  // ---------------------------------------------------------------- one byte

  /** Up to eight bits, first bit lowest. */
  function PackByte(bits: seq<byte>): nat {
    if bits == [] then 0 else bits[0] + 2 * PackByte(bits[1..])
  }

  lemma {:induction false} PackByteBound(bits: seq<byte>)
    requires AllBits(bits)
    ensures PackByte(bits) < Pow2(|bits|)
  {
    if bits != [] {
      assert AllBits(bits[1..]);
      PackByteBound(bits[1..]);
    }
  }

  lemma PackByteFits(bits: seq<byte>)
    requires AllBits(bits) && |bits| <= 8
    ensures PackByte(bits) < 0x100
  {
    PackByteBound(bits);
    assert Pow2(8) == 0x100;
    Pow2Monotone(|bits|, 8);
  }

  lemma {:induction false} Pow2Monotone(m: nat, n: nat)
    requires m <= n
    ensures Pow2(m) <= Pow2(n)
    decreases n
  {
    if m < n {
      Pow2Monotone(m, n - 1);
    }
  }

  lemma {:induction false} BitOfPackByte(bits: seq<byte>, k: nat)
    requires AllBits(bits) && k < |bits|
    ensures BitOf(PackByte(bits), k) == bits[k]
    decreases k
  {
    var rest := PackByte(bits[1..]);
    if k > 0 {
      assert AllBits(bits[1..]);
      BitOfPackByte(bits[1..], k - 1);
      assert PackByte(bits) / 2 == rest;
    }
  }

  // ---------------------------------------------------------------- many bytes

  /** Eight bits a byte, the last byte filled up with zeros. */
  function Pack(bits: seq<byte>): (s: seq<byte>)
    requires AllBits(bits)
    ensures |s| == ByteCount(|bits|)
    decreases |bits|
  {
    if bits == [] then []
    else
      var n := (|bits| - 1) / 8 * 8;
      PackByteFits(bits[n..]);
      Pack(bits[..n]) + [PackByte(bits[n..])]
  }

  function Unpack(s: seq<byte>, nb: nat): (bits: seq<byte>)
    requires ByteCount(nb) <= |s|
    ensures |bits| == nb && AllBits(bits)
  {
    seq(nb, i requires 0 <= i < nb => BitOf(s[i / 8], i % 8))
  }

  lemma UnpackAt(s: seq<byte>, nb: nat, i: nat)
    requires ByteCount(nb) <= |s| && i < nb
    ensures Unpack(s, nb)[i] == BitOf(s[i / 8], i % 8)
  {}

  lemma PlaceOfBit(n: nat, i: nat)
    requires n % 8 == 0
    ensures i < n ==> i / 8 < n / 8
    ensures n <= i < n + 8 ==> i / 8 == n / 8 && i % 8 == i - n
  {}

  /** Unpacking what was packed gives the bits back, whatever their number. */
  lemma {:induction false} UnpackOfPack(bits: seq<byte>)
    requires AllBits(bits)
    ensures Unpack(Pack(bits), |bits|) == bits
    decreases |bits|
  {
    hide Unpack, Pack, PackByte, BitOf;
    if bits != [] {
      var n := (|bits| - 1) / 8 * 8;
      var s, head := Pack(bits), Pack(bits[..n]);
      UnpackOfPack(bits[..n]);
      PackUnfolds(bits, n);
      forall i | 0 <= i < |bits| ensures Unpack(s, |bits|)[i] == bits[i] {
        UnpackAt(s, |bits|, i);
        PlaceOfBit(n, i);
        if i < n {
          UnpackAt(head, n, i);
        } else {
          BitOfPackByte(bits[n..], i - n);
        }
      }
    }
  }

  /** A bit, or the zero that fills up the last byte. */
  function At(bits: seq<byte>, i: nat): int { if i < |bits| then bits[i] else 0 }

  function Tail(bits: seq<byte>): seq<byte> { if bits == [] then [] else bits[1..] }

  lemma PackByteSplits(bits: seq<byte>)
    ensures PackByte(bits) == At(bits, 0) + 2 * PackByte(Tail(bits))
    ensures |Tail(bits)| == if bits == [] then 0 else |bits| - 1
    ensures forall i: nat :: At(Tail(bits), i) == At(bits, i + 1)
  {}

  /** Eight coils as a byte, the first one lowest. */
  function Octet(bits: seq<byte>, n: nat): int {
    At(bits, n) + 2 * At(bits, n + 1) + 4 * At(bits, n + 2) + 8 * At(bits, n + 3) +
    16 * At(bits, n + 4) + 32 * At(bits, n + 5) + 64 * At(bits, n + 6) + 128 * At(bits, n + 7)
  }

  lemma OctetOfParts(bits: seq<byte>, n: nat, k: nat)
    requires n <= |bits|
    ensures Octet(bits[n..], 0) == Octet(bits, n)
    ensures k + 8 <= n ==> Octet(bits[..n], k) == Octet(bits, k)
  {}

  lemma PackByteIs(b: seq<byte>)
    requires |b| <= 8
    ensures PackByte(b) == Octet(b, 0)
  {
    hide PackByte, Tail;
    var b1 := Tail(b);
    var b2 := Tail(b1);
    var b3 := Tail(b2);
    var b4 := Tail(b3);
    var b5 := Tail(b4);
    var b6 := Tail(b5);
    var b7 := Tail(b6);
    PackByteSplits(b);
    PackByteSplits(b1);
    PackByteSplits(b2);
    PackByteSplits(b3);
    PackByteSplits(b4);
    PackByteSplits(b5);
    PackByteSplits(b6);
    PackByteSplits(b7);
    EmptyPackByte(Tail(b7));
  }

  lemma EmptyPackByte(b: seq<byte>)
    requires |b| == 0
    ensures PackByte(b) == 0
  {}

  /** On the wire, coil 8k + j is bit j of byte k, and the rest of the last byte is zero. */
  lemma {:induction false} BitsOnWire(bits: seq<byte>, k: nat)
    requires AllBits(bits) && k < ByteCount(|bits|)
    ensures Pack(bits)[k] as int == Octet(bits, 8 * k)
    decreases |bits|
  {
    hide PackByte, Octet, Pack;
    var n := (|bits| - 1) / 8 * 8;
    PackUnfolds(bits, n);
    OctetOfParts(bits, n, 8 * k);
    if k < n / 8 {
      BitsOnWire(bits[..n], k);
    } else {
      PackByteIs(bits[n..]);
    }
  }

  lemma PackUnfolds(bits: seq<byte>, n: nat)
    requires AllBits(bits) && bits != [] && n == (|bits| - 1) / 8 * 8
    ensures AllBits(bits[..n]) && PackByte(bits[n..]) < 0x100 && Pack(bits) == Pack(bits[..n]) + [PackByte(bits[n..])]
  {
    PackByteFits(bits[n..]);
  }

  lemma PackSnoc(a: seq<byte>, b: seq<byte>)
    requires AllBits(a) && AllBits(b) && |a| % 8 == 0 && 1 <= |b| <= 8
    ensures AllBits(a + b) && PackByte(b) < 0x100 && Pack(a + b) == Pack(a) + [PackByte(b)]
  {
    hide Pack, PackByte;
    LastByteStarts(|a|, |b|);
    PackUnfolds(a + b, |a|);
    assert (a + b)[..|a|] == a && (a + b)[|a|..] == b;
  }

  lemma LastByteStarts(m: nat, k: nat)
    requires m % 8 == 0 && 1 <= k <= 8
    ensures (m + k - 1) / 8 * 8 == m
  {}

  lemma {:induction false} PackByteSnoc(a: seq<byte>, x: byte)
    ensures PackByte(a + [x]) == PackByte(a) + x * Pow2(|a|)
    decreases |a|
  {
    if a == [] {
      assert a + [x] == [x];
    } else {
      assert (a + [x])[1..] == a[1..] + [x];
      PackByteSnoc(a[1..], x);
    }
  }

  // ---------------------------------------------------------------- the loops

  /** The cells from `lo` to `hi`, packed. */
  function Packed(cells: seq<byte>, lo: nat, hi: nat): (s: seq<byte>)
    requires lo <= hi <= |cells| && AllBits(cells)
    ensures |s| == ByteCount(hi - lo)
  {
    Pack(cells[lo..hi])
  }

  /** One more cell: the partial byte grows, or is full and joins the packed ones. */
  lemma PackStep(cells: seq<byte>, lo: nat, i: nat, shift: nat)
    requires lo <= i - shift <= i < |cells| && shift == (i - lo) % 8 && AllBits(cells)
    ensures PackByte(cells[i - shift..i + 1]) == PackByte(cells[i - shift..i]) + Shifted(cells[i], shift) < 0x100
    ensures shift == 7 ==>
            Packed(cells, lo, i + 1) == Packed(cells, lo, i - shift) + [PackByte(cells[i - shift..i + 1])]
  {
    hide Pack, PackByte, Pow2;
    var full := cells[i - shift..i + 1];
    assert full == cells[i - shift..i] + [cells[i]];
    PackByteSnoc(cells[i - shift..i], cells[i]);
    PackByteFits(full);
    if shift == 7 {
      PackSnoc(cells[lo..i - shift], full);
      assert cells[lo..i - shift] + full == cells[lo..i + 1];
    }
  }

  /** What is left over after the last full byte. */
  lemma PackRest(cells: seq<byte>, lo: nat, hi: nat, shift: nat)
    requires lo <= hi - shift <= hi <= |cells| && shift == (hi - lo) % 8 && shift > 0 && AllBits(cells)
    ensures PackByte(cells[hi - shift..hi]) < 0x100
    ensures Packed(cells, lo, hi) == Packed(cells, lo, hi - shift) + [PackByte(cells[hi - shift..hi])]
  {
    hide Pack, PackByte;
    PackSnoc(cells[lo..hi - shift], cells[hi - shift..hi]);
    assert cells[lo..hi - shift] + cells[hi - shift..hi] == cells[lo..hi];
  }

  lemma PackStarts(cells: seq<byte>, lo: nat)
    requires lo <= |cells| && AllBits(cells)
    ensures Packed(cells, lo, lo) == [] && PackByte(cells[lo..lo]) == 0
  {
    assert cells[lo..lo] == [];
  }

  /** `x << shift` */
  function Shifted(x: nat, shift: nat): nat { x * Pow2(shift) }

  /** Where the k-th bit of `nb` goes, and where the next one goes. */
  lemma Positions(k: nat, nb: nat)
    requires k < nb
    ensures k / 8 < ByteCount(nb)
    ensures (k + 1) / 8 == (if k % 8 == 7 then k / 8 + 1 else k / 8) &&
            (k + 1) % 8 == (if k % 8 == 7 then 0 else k % 8 + 1)
  {}

  lemma LastPosition(nb: nat)
    ensures ByteCount(nb) == if nb % 8 == 0 then nb / 8 else nb / 8 + 1
  {}

  /** What the loop knows before cell `i`: full bytes are in the response, the rest is in `oneByte`. */
  ghost predicate Packing(cells: seq<byte>, address: nat, i: nat, nb: nat, rsp: array<byte>, head: seq<byte>,
      pos: nat, oneByte: nat, shift: nat)
    reads rsp
  {
    && AllBits(cells) && address <= i <= address + nb <= |cells|
    && shift == (i - address) % 8 && pos == |head| + (i - address) / 8 <= rsp.Length
    && oneByte == PackByte(cells[i - shift..i])
    && rsp[..pos] == head + Packed(cells, address, i - shift)
  }

  /** One turn of the loop. */
  method PackCell(cells: seq<byte>, address: nat, i: nat, nb: nat, rsp: array<byte>, ghost head: seq<byte>, pos: nat,
      oneByte: nat, shift: nat)
    returns (pos': nat, oneByte': nat, shift': nat)
    requires Packing(cells, address, i, nb, rsp, head, pos, oneByte, shift) && i < address + nb
    requires |head| + ByteCount(nb) <= rsp.Length
    modifies rsp
    ensures Packing(cells, address, i + 1, nb, rsp, head, pos', oneByte', shift')
  {
    hide Packed, PackByte, Shifted, AllBits, ByteCount;
    PackStep(cells, address, i, shift);
    PackStarts(cells, i + 1);
    Positions(i - address, nb);
    pos', oneByte', shift' := pos, oneByte + Shifted(cells[i], shift), shift;
    if shift == 7 {
      PutByte(rsp, pos, oneByte');
      pos' := pos + 1;
      oneByte', shift' := 0, 0;
    } else {
      shift' := shift + 1;
    }
  }

  /** What is left after the loop: a last byte that is not full. */
  method PackLast(cells: seq<byte>, address: nat, nb: nat, rsp: array<byte>, ghost head: seq<byte>, pos: nat,
      oneByte: nat, shift: nat)
    returns (end: nat)
    requires Packing(cells, address, address + nb, nb, rsp, head, pos, oneByte, shift)
    requires |head| + ByteCount(nb) <= rsp.Length
    modifies rsp
    ensures end == |head| + ByteCount(nb) <= rsp.Length
    ensures AllBits(cells[address..address + nb]) && rsp[..end] == head + Pack(cells[address..address + nb])
  {
    hide Packed, PackByte, AllBits, ByteCount, Pack;
    end := pos;
    LastPosition(nb);
    PackedIs(cells, address, address + nb);
    if shift != 0 {
      PackRest(cells, address, address + nb, shift);
      PutByte(rsp, pos, oneByte);
      end := pos + 1;
    }
  }

  lemma PackingStarts(cells: seq<byte>, address: nat, nb: nat, rsp: array<byte>, offset: nat)
    requires address + nb <= |cells| && offset <= rsp.Length && AllBits(cells)
    ensures Packing(cells, address, address, nb, rsp, rsp[..offset], offset, 0, 0)
  {
    PackStarts(cells, address);
  }

  /** `response_io_status`: with cells that are 0 or 1, the OR of shifted cells is their sum. */
  method ResponseIoStatus(cells: seq<byte>, address: nat, nb: nat, rsp: array<byte>, offset: nat) returns (end: nat)
    requires address + nb <= |cells| && offset + ByteCount(nb) <= rsp.Length
    requires AllBits(cells)
    modifies rsp
    ensures end == offset + ByteCount(nb)
    ensures rsp[..end] == old(rsp[..offset]) + Pack(cells[address..address + nb])
  {
    hide Packing, PackByte, ByteCount, Pack;
    var shift: nat, oneByte: nat, pos: nat := 0, 0, offset;
    ghost var head := rsp[..offset];
    PackingStarts(cells, address, nb, rsp, offset);
    for i := address to address + nb
      invariant Packing(cells, address, i, nb, rsp, head, pos, oneByte, shift)
    {
      pos, oneByte, shift := PackCell(cells, address, i, nb, rsp, head, pos, oneByte, shift);
    }
    end := PackLast(cells, address, nb, rsp, head, pos, oneByte, shift);
  }

  lemma PackedIs(cells: seq<byte>, lo: nat, hi: nat)
    requires lo <= hi <= |cells| && AllBits(cells)
    ensures AllBits(cells[lo..hi]) && Packed(cells, lo, hi) == Pack(cells[lo..hi])
  {}

  /** `rsp[offset++] = one_byte` */
  method PutByte(rsp: array<byte>, pos: nat, b: byte)
    requires pos < rsp.Length
    modifies rsp
    ensures rsp[..pos + 1] == old(rsp[..pos]) + [b]
  {
    rsp[pos] := b;
  }

  lemma EmptyPacks()
    ensures PackByte([]) == 0 && Pack([]) == []
  {}

  /** `modbus_set_bits_from_bytes` */
  method SetBitsFromBytes(dest: array<byte>, idx: nat, nb: nat, bytes: seq<byte>)
    requires idx + nb <= dest.Length && ByteCount(nb) <= |bytes|
    modifies dest
    ensures dest[..] == old(dest[..idx]) + Unpack(bytes, nb) + old(dest[idx + nb..])
  {
    hide BitOf;
    var shift := 0;
    for i := idx to idx + nb
      invariant shift == (i - idx) % 8
      invariant forall j | 0 <= j < dest.Length ::
                dest[j] == if idx <= j < i then BitOf(bytes[(j - idx) / 8], (j - idx) % 8) else old(dest[j])
    {
      dest[i] := BitOf(bytes[(i - idx) / 8], shift);
      shift := (shift + 1) % 8;
    }
  }

  /** `modbus_set_bits_from_byte` */
  method SetBitsFromByte(dest: array<byte>, idx: nat, value: byte)
    requires idx + 8 <= dest.Length
    modifies dest
    ensures dest[..] == old(dest[..idx]) + Unpack([value], 8) + old(dest[idx + 8..])
  {
    hide BitOf;
    for i := 0 to 8
      invariant forall j | 0 <= j < dest.Length ::
                dest[j] == if idx <= j < idx + i then BitOf(value, j - idx) else old(dest[j])
    {
      dest[idx + i] := BitOf(value, i);
    }
  }

  /** `modbus_get_byte_from_bits`; more than eight bits are cut to eight. */
  method GetByteFromBits(src: seq<byte>, idx: nat, nb: nat) returns (value: byte)
    requires AllBits(src) && idx + (if nb > 8 then 8 else nb) <= |src|
    ensures value == PackByte(src[idx..idx + (if nb > 8 then 8 else nb)])
  {
    hide PackByte, Pow2;
    var n := if nb > 8 then 8 else nb;
    var sum: nat := 0;
    assert src[idx..idx] == [];
    EmptyPacks();
    for i := 0 to n
      invariant sum == PackByte(src[idx..idx + i])
    {
      assert src[idx..idx + i + 1] == src[idx..idx + i] + [src[idx + i]];
      PackByteSnoc(src[idx..idx + i], src[idx + i]);
      sum := sum + src[idx + i] * Pow2(i);
    }
    PackByteFits(src[idx..idx + n]);
    value := sum;
  }

  /** A C truth value for each cell. */
  function Truth(src: seq<byte>): (bits: seq<byte>)
    ensures |bits| == |src| && AllBits(bits)
  {
    seq(|src|, i requires 0 <= i < |src| => if src[i] != 0 then 1 else 0)
  }

  /** The inner loop of `modbus_write_bits`: the next byte, from up to eight cells. */
  method GatherByte(src: seq<byte>, start: nat) returns (value: byte, pos: nat)
    requires start < |src|
    ensures pos == (if start + 8 <= |src| then start + 8 else |src|)
    ensures value == PackByte(Truth(src)[start..pos])
  {
    hide PackByte, Pow2;
    ghost var bits := Truth(src);
    var bit, bitCheck, nb := 0x01, start, |src|;
    value, pos := 0, start;
    ghost var k := 0;
    assert bits[start..start] == [];
    EmptyPacks();
    FirstPowers();
    while bit <= 0x80 && bitCheck < nb
      invariant 0 <= k <= 8 && bit == Pow2(k) && bitCheck == pos == start + k <= nb
      invariant value == PackByte(bits[start..pos])
      decreases nb - bitCheck
    {
      Pow2At(k);
      bitCheck := bitCheck + 1;
      assert bits[start..pos + 1] == bits[start..pos] + [bits[pos]];
      PackByteSnoc(bits[start..pos], bits[pos]);
      PackByteFits(bits[start..pos + 1]);
      if src[pos] != 0 {
        value := (value as int) + bit;
      }
      pos := pos + 1;
      bit := 2 * bit;
      k := k + 1;
      NextPower(k);
    }
    Pow2At(k);
  }

  lemma FirstPowers()
    ensures Pow2(0) == 1
  {}

  lemma NextPower(k: nat)
    requires k > 0
    ensures Pow2(k) == 2 * Pow2(k - 1)
  {}

  /** The packing loop of `modbus_write_bits`, which appends the bits of `src` to the request. */
  method AppendBits(req: array<byte>, length: nat, src: seq<byte>) returns (end: nat)
    requires length + ByteCount(|src|) <= req.Length
    modifies req
    ensures end == length + ByteCount(|src|)
    ensures req[..end] == old(req[..length]) + Pack(Truth(src))
  {
    hide Pack, PackByte, Truth;
    ghost var head := req[..length];
    ghost var bits := Truth(src);
    var byteCount := ByteCount(|src|);
    var pos := 0;
    end := length;
    assert bits[0..0] == [];
    EmptyPacks();
    for i := 0 to byteCount
      invariant end == length + i
      invariant pos == (if 8 * i <= |src| then 8 * i else |src|)
      invariant AllBits(bits[0..pos])
      invariant req[..end] == head + Pack(bits[0..pos])
    {
      ByteBegins(|src|, i);
      var start := pos;
      var value;
      value, pos := GatherByte(src, start);
      PackSnoc(bits[0..start], bits[start..pos]);
      assert bits[0..start] + bits[start..pos] == bits[0..pos];
      req[end] := value;
      end := end + 1;
    }
    assert bits[0..|src|] == bits;
  }

  lemma ByteBegins(nb: nat, i: nat)
    requires i < ByteCount(nb)
    ensures 8 * i < nb && 8 * i % 8 == 0 && (8 * (i + 1) <= nb || i + 1 == ByteCount(nb))
  {}

  lemma Pow2At(k: nat)
    requires k <= 8
    ensures Pow2(k) <= 0x80 <==> k <= 7
  {
    assert Pow2(8) == 0x100 && Pow2(7) == 0x80;
    if k <= 7 {
      Pow2Monotone(k, 7);
    }
  }

  /** The inner loop of `read_io_status`: one byte, into up to eight cells. */
  method ScatterByte(temp: byte, dest: array<byte>, start: nat, nb: nat) returns (pos: nat)
    requires start <= nb <= dest.Length
    modifies dest
    ensures pos == (if start + 8 <= nb then start + 8 else nb)
    ensures forall j | 0 <= j < dest.Length ::
            dest[j] == if start <= j < pos then BitOf(temp, j - start) else old(dest[j])
  {
    hide BitOf, Pow2;
    var k, bit := 0, 0x01;   // bit == 1 << k
    pos := start;
    FirstPowers();
    while bit <= 0x80 && pos < nb
      invariant 0 <= k <= 8 && bit == Pow2(k) && pos == start + k && pos <= nb
      invariant forall j | 0 <= j < dest.Length ::
                dest[j] == if start <= j < pos then BitOf(temp, j - start) else old(dest[j])
      decreases nb - pos
    {
      Pow2At(k);
      dest[pos] := BitOf(temp, k);
      pos := pos + 1;
      bit := 2 * bit;
      k := k + 1;
      NextPower(k);
    }
    Pow2At(k);
  }

  /** The unpacking loop of `read_io_status`. */
  method UnpackStatus(bytes: seq<byte>, nb: nat, dest: array<byte>)
    requires |bytes| == ByteCount(nb) && nb <= dest.Length
    modifies dest
    ensures dest[..] == Unpack(bytes, nb) + old(dest[nb..])
  {
    hide BitOf;
    var pos := 0;
    for i := 0 to |bytes|
      invariant pos == (if 8 * i <= nb then 8 * i else nb)
      invariant forall j | 0 <= j < dest.Length ::
                dest[j] == if j < pos then BitOf(bytes[j / 8], j % 8) else old(dest[j])
    {
      pos := ScatterByte(bytes[i], dest, pos, nb);
    }
  }
}
