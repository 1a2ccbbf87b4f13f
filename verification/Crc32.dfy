/**
 * The STM32 CRC unit and `crc32_posix`, which drives it, against the bit-serial CRC-32
 * (polynomial 0x04C11DB7, input and output reflected, register started and output complemented with 0xFFFFFFFF).
 */
module Crc32 {
  import opened Bytes
  import opened MessageBytes
  import opened Word32

  // ---------------------------------------------------------------- the bit-serial reference

  /** What a clock that shifts out a one adds (0x04C11DB7 reversed is 0xEDB88320). */
  function Feedback(one: bool): Word { if one then Word(0xEDB8_8320) else ZERO }

  /** One clock of the reflected register. */
  function Clock(w: Word): Word { Xor(ShiftRight(w), Feedback(w.v & 1 == 1)) }

  function Clocks(w: Word, n: nat): Word
    decreases n
  {
    if n == 0 then w else Clocks(Clock(w), n - 1)
  }

  /** One clock with an input bit. */
  function ShiftIn(r: Word, bit: bool): Word { Xor(ShiftRight(r), Feedback((r.v & 1 == 1) != bit)) }

  function Serial(r: Word, bits: seq<bool>): Word
    decreases |bits|
  {
    if bits == [] then r else Serial(ShiftIn(r, bits[0]), bits[1..])
  }

  /** CRC-32 of a message. */
  function Crc32Of(s: seq<byte>): Word { Not(Serial(ONES, MessageBits(s))) }

  lemma {:induction false} SerialAppend(r: Word, a: seq<bool>, b: seq<bool>)
    ensures Serial(r, a + b) == Serial(Serial(r, a), b)
    decreases |a|
  {
    hide ShiftIn;
    if a == [] {
      assert a + b == b;
    } else {
      assert (a + b)[1..] == a[1..] + b;
      SerialAppend(ShiftIn(r, a[0]), a[1..], b);
    }
  }

  // ---------------------------------------------------------------- the peripheral

  function UnitFeedback(one: bool): Word { if one then Word(0x04C1_1DB7) else ZERO }

  /** One clock of the peripheral, which shifts the other way: most significant bit first. */
  function UnitClock(w: Word): Word { Xor(ShiftLeft(w), UnitFeedback(w.v & 0x8000_0000 != 0)) }

  function UnitClocks(w: Word, n: nat): Word
    decreases n
  {
    if n == 0 then w else UnitClocks(UnitClock(w), n - 1)
  }

  lemma FeedbackDual(one: bool)
    ensures Reverse(UnitFeedback(one)) == Feedback(one)
  {}

  lemma TopBitReverses(w: Word)
    ensures (w.v & 0x8000_0000 != 0) == (Reverse(w).v & 1 == 1)
  {}

  lemma ReverseShiftsLeft(w: Word)
    ensures Reverse(ShiftLeft(w)) == ShiftRight(Reverse(w))
  {
    hide Reverse, ShiftLeft, ShiftRight;
    ReverseShifts(Reverse(w));
    ReverseTwice(w);
    ReverseTwice(ShiftRight(Reverse(w)));
  }

  lemma ClockDual(w: Word)
    ensures Reverse(UnitClock(w)) == Clock(Reverse(w))
  {
    hide Reverse, Xor, ShiftLeft, ShiftRight, Feedback, UnitFeedback;
    var one := w.v & 0x8000_0000 != 0;
    XorReverses(ShiftLeft(w), UnitFeedback(one));
    FeedbackDual(one);
    TopBitReverses(w);
    ReverseShiftsLeft(w);
  }

  lemma {:induction false} ClocksDual(w: Word, n: nat)
    ensures Reverse(UnitClocks(w, n)) == Clocks(Reverse(w), n)
    decreases n
  {
    hide Reverse, Clock, UnitClock;
    if n > 0 {
      ClockDual(w);
      ClocksDual(UnitClock(w), n - 1);
    }
  }

  // ---------------------------------------------------------------- many bits at a time

  function LowBits(w: Word, n: nat): (bits: seq<bool>)
    ensures |bits| == n
    decreases n
  {
    if n == 0 then [] else [w.v & 1 == 1] + LowBits(ShiftRight(w), n - 1)
  }

  lemma LowBitOfXor(r: Word, w: Word)
    ensures (Xor(r, w).v & 1 == 1) == ((r.v & 1 == 1) != (w.v & 1 == 1))
    ensures ShiftRight(Xor(r, w)) == Xor(ShiftRight(r), ShiftRight(w))
  {}

  lemma ClockPeels(r: Word, w: Word)
    ensures Clock(Xor(r, w)) == Xor(ShiftIn(r, w.v & 1 == 1), ShiftRight(w))
  {
    hide Xor, ShiftRight, Feedback;
    var f := Feedback((r.v & 1 == 1) != (w.v & 1 == 1));
    LowBitOfXor(r, w);
    XorAssociates(ShiftRight(r), ShiftRight(w), f);
    XorAssociates(ShiftRight(r), f, ShiftRight(w));
    XorCommutes(f, ShiftRight(w));
  }

  /** Xoring a word in and clocking `n` times feeds its low `n` bits and leaves the rest shifted down. */
  lemma {:induction false} ClocksFeedBits(r: Word, w: Word, n: nat)
    ensures Clocks(Xor(r, w), n) == Xor(Serial(r, LowBits(w, n)), Shr(w, n))
    decreases n
  {
    hide Clock, ShiftIn, Xor, ShiftRight;
    if n > 0 {
      ClockPeels(r, w);
      ClocksFeedBits(ShiftIn(r, w.v & 1 == 1), ShiftRight(w), n - 1);
      assert LowBits(w, n)[1..] == LowBits(ShiftRight(w), n - 1);
    }
  }

  lemma {:induction false} ClocksAdd(w: Word, m: nat, n: nat)
    ensures Clocks(w, m + n) == Clocks(Clocks(w, m), n)
    decreases m
  {
    hide Clock;
    if m > 0 {
      ClocksAdd(Clock(w), m - 1, n);
    }
  }

  lemma LowBitOfLowPart(w: Word, n: nat)
    requires n > 0
    ensures (LowPart(w, n).v & 1 == 1) == (w.v & 1 == 1)
  {}

  lemma {:induction false} LowBitsOfLowPart(w: Word, n: nat)
    ensures LowBits(LowPart(w, n), n) == LowBits(w, n)
    decreases n
  {
    hide LowPart, ShiftRight;
    if n > 0 {
      LowBitOfLowPart(w, n);
      LowPartShifts(w, n);
      LowBitsOfLowPart(ShiftRight(w), n - 1);
    }
  }

  lemma {:induction false} ShrOfZero(n: nat)
    ensures Shr(ZERO, n) == ZERO
    decreases n
  {
    if n > 0 {
      assert ShiftRight(ZERO) == ZERO;
      ShrOfZero(n - 1);
    }
  }

  lemma ClockOfShiftLeft(w: Word)
    requires w.v & 0x8000_0000 == 0
    ensures Clock(ShiftLeft(w)) == w
  {}

  lemma LowPartTopClear(w: Word, n: nat)
    requires w == LowPart(w, n) && n <= 31
    ensures w.v & 0x8000_0000 == 0
  {
    MaskTopClear(n);
  }

  /** Clocking zeros out of the low end only shifts. */
  lemma {:induction false} ClocksUndoShl(w: Word, n: nat, m: nat)
    requires w == LowPart(w, n) && n + m <= 32
    ensures Clocks(Shl(w, m), m) == w
    decreases m
  {
    hide LowPart, ShiftLeft, Clock;
    if m > 0 {
      var u := Shl(w, m - 1);
      ShlFits(w, n, m - 1);
      LowPartTopClear(u, n + m - 1);
      ClockOfShiftLeft(u);
      ClocksUndoShl(w, n, m - 1);
    }
  }

  /** Clocking a word `n` times, split into its low part, which feeds back, and the rest, which only moves down. */
  lemma ClocksSplit(r: Word, p: Word, n: nat)
    ensures Serial(r, LowBits(p, n)) == Xor(Shr(r, n), Clocks(Xor(LowPart(r, n), LowPart(p, n)), n))
  {
    hide Clocks, Serial, LowBits, LowPart, HighPart, Xor, Shr;
    var pm, rm, rh := LowPart(p, n), LowPart(r, n), HighPart(r, n);
    var u := Xor(rm, pm);
    calc {
      Serial(r, LowBits(p, n));
      { LowBitsOfLowPart(p, n); ShrOfLowPart(p, n); XorZero(Serial(r, LowBits(pm, n))); }
      Xor(Serial(r, LowBits(pm, n)), Shr(pm, n));
      { ClocksFeedBits(r, pm, n); }
      Clocks(Xor(r, pm), n);
      { Parts(r, n); XorAssociates(pm, rm, rh); XorCommutes(r, pm); XorCommutes(pm, rm); }
      Clocks(Xor(u, rh), n);
      { ClocksFeedBits(u, rh, n); ShrOfHighPart(r, n); }
      Xor(Serial(u, LowBits(rh, n)), Shr(r, n));
      { LowPartTwice(r, n); LowBitsOfLowPart(rh, n); LowBitsOfLowPart(ZERO, n); ZeroHasNoPart(n); }
      Xor(Serial(u, LowBits(ZERO, n)), Shr(r, n));
      { ClocksFeedBits(u, ZERO, n); ShrOfZero(n); XorZero(u); XorZero(Serial(u, LowBits(ZERO, n))); }
      Xor(Clocks(u, n), Shr(r, n));
      { XorCommutes(Clocks(u, n), Shr(r, n)); }
      Xor(Shr(r, n), Clocks(u, n));
    }
  }

  lemma ZeroHasNoPart(n: nat)
    ensures LowPart(ZERO, n) == ZERO
  {}

  // ---------------------------------------------------------------- words in memory

  /** A 32-bit load from little-endian memory. */
  function Load(b0: byte, b1: byte, b2: byte, b3: byte): Word { Join(Bits(b0), Bits(b1), Bits(b2), Bits(b3)) }

  function Join(v0: bv8, v1: bv8, v2: bv8, v3: bv8): Word {
    Word((v0 as bv32) | ((v1 as bv32) << 8) | ((v2 as bv32) << 16) | ((v3 as bv32) << 24))
  }

  lemma OctetHalves(v: bv8, w: Word)
    requires w.v == v as bv32
    ensures ShiftRight(w).v == (v >> 1) as bv32 && (w.v & 1 == 1) == (v & 1 == 1)
  {}

  lemma {:induction false} LowBitsOfOctet(v: bv8, w: Word, n: nat)
    requires w.v == v as bv32
    ensures LowBits(w, n) == OctetBits(v, n)
    decreases n
  {
    hide ShiftRight;
    if n > 0 {
      OctetHalves(v, w);
      LowBitsOfOctet(v >> 1, ShiftRight(w), n - 1);
    }
  }

  lemma {:induction false} LowBitsAppend(w: Word, m: nat, n: nat)
    ensures LowBits(w, m + n) == LowBits(w, m) + LowBits(Shr(w, m), n)
    decreases m
  {
    hide ShiftRight;
    if m > 0 {
      LowBitsAppend(ShiftRight(w), m - 1, n);
    }
  }

  lemma JoinFirst(v0: bv8, v1: bv8, v2: bv8, v3: bv8, m: bv32)
    requires m == 0xFF
    ensures Join(v0, v1, v2, v3).v & m == v0 as bv32
  {}

  lemma JoinRest(v0: bv8, v1: bv8, v2: bv8, v3: bv8)
    ensures Word(Join(v0, v1, v2, v3).v >> 8) == Join(v1, v2, v3, 0)
  {}

  lemma EightHalves(w: Word, x: bv32)
    requires x == w.v
    ensures Shr(w, 8).v == x >> 8
  {}

  lemma FirstOctet(v0: bv8, v1: bv8, v2: bv8, v3: bv8)
    ensures LowBits(Join(v0, v1, v2, v3), 8) == OctetBits(v0, 8)
    ensures Shr(Join(v0, v1, v2, v3), 8) == Join(v1, v2, v3, 0)
  {
    hide LowBits, OctetBits, Join, Shr;
    var w := Join(v0, v1, v2, v3);
    assert Mask(8) == 0xFF;
    JoinFirst(v0, v1, v2, v3, Mask(8));
    LowBitsOfLowPart(w, 8);
    LowBitsOfOctet(v0, LowPart(w, 8), 8);
    EightHalves(w, w.v);
    JoinRest(v0, v1, v2, v3);
  }

  /** The low bytes of a loaded word are the message bytes it was loaded from, in order. */
  lemma {:induction false} LoadBits(b0: byte, b1: byte, b2: byte, b3: byte, k: nat)
    requires k <= 4
    ensures LowBits(Load(b0, b1, b2, b3), 8 * k) == MessageBits([b0, b1, b2, b3][..k])
    decreases k
  {
    hide LowBits, OctetBits, Join, Shr, Bits, MessageBits;
    if k == 0 {
      NoLowBits(Load(b0, b1, b2, b3));
    } else {
      FirstOctet(Bits(b0), Bits(b1), Bits(b2), Bits(b3));
      LowBitsAppend(Load(b0, b1, b2, b3), 8, 8 * (k - 1));
      NoBits();
      LoadBits(b1, b2, b3, 0, k - 1);
      MessageBitsAppend([b0], [b1, b2, b3, 0][..k - 1]);
      FirstOfFour(b0, b1, b2, b3, k);
      OneByte(b0);
    }
  }

  lemma FirstOfFour(b0: byte, b1: byte, b2: byte, b3: byte, k: nat)
    requires 0 < k <= 4
    ensures [b0, b1, b2, b3][..k] == [b0] + [b1, b2, b3, 0][..k - 1]
  {}

  lemma NoLowBits(w: Word)
    ensures LowBits(w, 0) == [] && MessageBits([]) == []
  {}

  lemma NoBits()
    ensures Bits(0) == 0
  {}

  lemma OneByte(b: byte)
    ensures MessageBits([b]) == OctetBits(Bits(b), 8)
  {
    hide Bits, OctetBits;
    assert [b][..0] == [];
  }

  // ---------------------------------------------------------------- the driver

  /** One word through the unit advances the register by the word's bits. */
  lemma UnitTakesWord(state: Word, p: Word)
    ensures Reverse(UnitClocks(Xor(state, Reverse(p)), 32)) == Serial(Reverse(state), LowBits(p, 32))
  {
    hide Reverse, UnitClocks, Clocks, Xor, Serial, LowBits, Shr;
    ClocksDual(Xor(state, Reverse(p)), 32);
    XorReverses(state, Reverse(p));
    ReverseTwice(p);
    ClocksFeedBits(Reverse(state), p, 32);
    ShrAllOut(p);
    XorZero(Serial(Reverse(state), LowBits(p, 32)));
  }

  lemma ShrAllOut(p: Word)
    ensures Shr(p, 32) == ZERO
  {
    hide Shr, Mask;
    MaskValues();
    FullPart(p, Mask(32));
    ShrOfLowPart(p, 32);
  }

  lemma FullPart(p: Word, m: bv32)
    requires m == 0xFFFF_FFFF
    ensures Word(p.v & m) == p
  {}

  /** The word written to the unit for the last `k` bits, `*p` being loaded past the end of the buffer. */
  function TailWord(p: Word, crc: Word, k: nat): Word
    requires k <= 32
  {
    Shr(Reverse(Xor(LowPart(p, k), crc)), 32 - k)
  }

  /** A unit zeroed by its own contents turns the tail word into the missing feedback. */
  lemma TailTrick(p: Word, crc: Word, k: nat)
    requires k <= 32
    ensures Xor(Shr(crc, k), Reverse(UnitClocks(TailWord(p, crc, k), 32))) == Serial(crc, LowBits(p, k))
  {
    hide Reverse, UnitClocks, Clocks, Xor, Serial, LowBits, Shr, Shl, LowPart;
    var y := Xor(LowPart(p, k), crc);
    var z := LowPart(y, k);
    calc {
      Reverse(UnitClocks(TailWord(p, crc, k), 32));
      { ClocksDual(TailWord(p, crc, k), 32); ReverseOfShr(Reverse(y), 32 - k); ReverseTwice(y); }
      Clocks(Shl(y, 32 - k), 32);
      { ShlDropsHighPart(y, k, 32 - k); }
      Clocks(Shl(z, 32 - k), 32);
      { ClocksAdd(Shl(z, 32 - k), 32 - k, k); LowPartTwice(y, k); ClocksUndoShl(z, k, 32 - k); }
      Clocks(z, k);
      { LowPartOfXor(LowPart(p, k), crc, k); LowPartTwice(p, k); XorCommutes(LowPart(p, k), LowPart(crc, k)); }
      Clocks(Xor(LowPart(crc, k), LowPart(p, k)), k);
    }
    ClocksSplit(crc, p, k);
  }

  lemma {:induction false} UnitClocksOfZero(n: nat)
    ensures UnitClocks(ZERO, n) == ZERO
    decreases n
  {
    if n > 0 {
      assert UnitClock(ZERO) == ZERO;
      UnitClocksOfZero(n - 1);
    }
  }

  const SEED := Word(0xEB_ABAB)

  /** What feeding the constant of the short-buffer path makes of the register. */
  function Reseed(r: Word): Word { Serial(r, LowBits(Reverse(SEED), 32)) }

  /** The register value from which a call really starts: a buffer shorter than a word goes through `Reseed`. */
  function Start(r: Word, length: nat): Word { if length >= 4 then r else Reseed(r) }

  lemma MoreBytes(r: Word, mem: seq<byte>, at: nat, p: nat, k: nat)
    requires at <= p && p + 4 <= |mem| && k <= 4
    ensures Serial(r, MessageBits(mem[at..p + k])) ==
            Serial(Serial(r, MessageBits(mem[at..p])), LowBits(Load(mem[p], mem[p + 1], mem[p + 2], mem[p + 3]), 8 * k))
  {
    hide Serial, MessageBits, LowBits, Load;
    LoadBits(mem[p], mem[p + 1], mem[p + 2], mem[p + 3], k);
    assert [mem[p], mem[p + 1], mem[p + 2], mem[p + 3]][..k] == mem[p..p + k];
    assert mem[at..p + k] == mem[at..p] + mem[p..p + k];
    MessageBitsAppend(mem[at..p], mem[p..p + k]);
    SerialAppend(r, MessageBits(mem[at..p]), MessageBits(mem[p..p + k]));
  }

  lemma NothingRead(r: Word, mem: seq<byte>, at: nat)
    requires at <= |mem|
    ensures Serial(r, MessageBits(mem[at..at])) == r
  {}

  class CrcUnit {
    /** The data register of the peripheral. */
    var dr: Word

    constructor ()
      ensures dr == ONES
    {
      dr := ONES;
    }

    /** `crc32_reset` */
    method Reset()
      modifies this
      ensures dr == ONES
    {
      dr := ONES;
    }

    /** `crc32_CalcCRC`: a write to the data register runs 32 clocks. */
    method CalcCRC(data: Word) returns (r: Word)
      modifies this
      ensures r == dr == UnitClocks(Xor(old(dr), data), 32)
    {
      dr := UnitClocks(Xor(dr, data), 32);
      r := dr;
    }

    /**
     * `crc32_posix` over `length` bytes of memory from `at`. Memory is read in whole words,
     * so up to three bytes behind the buffer are loaded; the result does not depend on them.
     */
    method Posix(mem: seq<byte>, at: nat, length: nat, clear: bool) returns (crc: Word)
      requires at + (length + 3) / 4 * 4 <= |mem|
      modifies this
      ensures var r := if clear then ONES else Reverse(old(dr));
              crc == Not(Serial(Start(r, length), MessageBits(mem[at..at + length])))
      ensures var r := if clear then ONES else Reverse(old(dr));
              length >= 4 && length % 4 == 0 ==> Reverse(dr) == Serial(r, MessageBits(mem[at..at + length]))
    {
      hide UnitClocks, Serial, MessageBits, LowBits, Load, Reverse, Shr, LowPart, Xor, Not;
      ghost var r := if clear then ONES else Reverse(dr);
      if clear {
        Reset();
        assert Reverse(ONES) == ONES by { OnesReverse(); }
      }
      assert Reverse(dr) == r;
      var len, p := length, at;
      var crcReg: Word;
      NothingRead(r, mem, at);
      if len >= 4 {
        crcReg := dr;
        while len >= 4
          invariant at <= p && p + len == at + length && (p - at) % 4 == 0
          invariant crcReg == dr
          invariant Reverse(dr) == Serial(r, MessageBits(mem[at..p]))
        {
          var word := Load(mem[p], mem[p + 1], mem[p + 2], mem[p + 3]);
          UnitTakesWord(dr, word);
          MoreBytes(r, mem, at, p, 4);
          crcReg := CalcCRC(Reverse(word));
          p := p + 4;
          len := len - 4;
        }
      } else {
        UnitTakesWord(dr, Reverse(SEED));
        ReverseTwice(SEED);
        crcReg := CalcCRC(SEED);
      }
      crc := Reverse(crcReg);
      ghost var start := Start(r, length);
      NothingRead(start, mem, at);
      assert crc == Serial(start, MessageBits(mem[at..p]));
      if len > 0 {
        XorZero(dr);
        UnitClocksOfZero(32);
        var zero := CalcCRC(crcReg);
        assert dr == ZERO;
        var word := Load(mem[p], mem[p + 1], mem[p + 2], mem[p + 3]);
        MoreBytes(start, mem, at, p, len);
        var tail := TailWord(word, crc, 8 * len);
        XorZero(tail);
        XorCommutes(ZERO, tail);
        TailTrick(word, crc, 8 * len);
        crcReg := CalcCRC(tail);
        crc := Xor(Shr(crc, 8 * len), Reverse(crcReg));
      }
      crc := Not(crc);
    }
  }

  lemma OnesReverse()
    ensures Reverse(ONES) == ONES
  {}

  // ---------------------------------------------------------------- when a short buffer is handled right

  lemma FeedbackOfXor(a: bool, b: bool)
    ensures Feedback(a != b) == Xor(Feedback(a), Feedback(b))
  {}

  lemma ClockOfXor(x: Word, y: Word)
    ensures Clock(Xor(x, y)) == Xor(Clock(x), Clock(y))
  {
    hide Xor, ShiftRight, Feedback;
    var fx, fy := Feedback(x.v & 1 == 1), Feedback(y.v & 1 == 1);
    var sx, sy := ShiftRight(x), ShiftRight(y);
    LowBitOfXor(x, y);
    FeedbackOfXor(x.v & 1 == 1, y.v & 1 == 1);
    XorRegroups(sx, sy, fx, fy);
  }

  lemma {:induction false} ClocksOfXor(x: Word, y: Word, n: nat)
    ensures Clocks(Xor(x, y), n) == Xor(Clocks(x, n), Clocks(y, n))
    decreases n
  {
    hide Xor, Clock;
    if n > 0 {
      ClockOfXor(x, y);
      ClocksOfXor(Clock(x), Clock(y), n - 1);
    }
  }

  lemma XorRegroups(a: Word, b: Word, c: Word, d: Word)
    ensures Xor(Xor(a, b), Xor(c, d)) == Xor(Xor(a, c), Xor(b, d))
  {
    hide Xor;
    XorAssociates(a, b, Xor(c, d));
    XorAssociates(b, c, d);
    XorCommutes(b, c);
    XorAssociates(c, b, d);
    XorAssociates(a, c, Xor(b, d));
  }

  lemma XorIsZero(x: Word, y: Word)
    requires Xor(x, y) == ZERO
    ensures x == y
  {}

  lemma ClockHasNoFixpoint(w: Word)
    requires Clock(w) == w
    ensures w == ZERO
  {}

  /** Doubling: `n` clocks that leave a word unchanged leave nothing but zero, for `n` a power of two. */
  lemma {:induction false} ClocksHaveNoFixpoint(w: Word, n: nat)
    requires n in {1, 2, 4, 8, 16, 32} && Clocks(w, n) == w
    ensures w == ZERO
    decreases n
  {
    hide Xor, Clock;
    if n == 1 {
      assert Clocks(w, 1) == Clock(w);
      ClockHasNoFixpoint(w);
    } else {
      var h := n / 2;
      ClocksAdd(w, h, h);
      var d := Xor(Clocks(w, h), w);
      ClocksOfXor(Clocks(w, h), w, h);
      XorCommutes(w, Clocks(w, h));
      ClocksHaveNoFixpoint(d, h);
      XorIsZero(Clocks(w, h), w);
      ClocksHaveNoFixpoint(w, h);
    }
  }

  lemma ReseedIsClocks(r: Word)
    ensures Reseed(r) == Clocks(Xor(r, Reverse(SEED)), 32)
  {
    hide Serial, Clocks, LowBits, Xor, Reverse, Shr;
    ClocksFeedBits(r, Reverse(SEED), 32);
    ShrAllOut(Reverse(SEED));
    XorZero(Reseed(r));
  }

  function Step(v: bv32): bv32 { Clock(Word(v)).v }

  function EightSteps(v: bv32): bv32 { Step(Step(Step(Step(Step(Step(Step(Step(v)))))))) }

  lemma StepIsClock(v: bv32)
    ensures Clock(Word(v)) == Word(Step(v))
  {
    hide Clock;
  }

  lemma EightStepsAreClocks(v: bv32)
    ensures Clocks(Word(v), 8) == Word(EightSteps(v))
  {
    hide Clock, Step;
    var a, b, c := Step(v), Step(Step(v)), Step(Step(Step(v)));
    StepIsClock(v);
    StepIsClock(a);
    StepIsClock(b);
    StepIsClock(c);
    StepIsClock(Step(c));
    StepIsClock(Step(Step(c)));
    StepIsClock(Step(Step(Step(c))));
    StepIsClock(Step(Step(Step(Step(c)))));
  }

  /** The one register value that the short-buffer path leaves alone. */
  const UNMOVED := Word(0xEF9E_B487)

  lemma SeedEnters()
    ensures Xor(UNMOVED, Reverse(SEED)) == Word(0x3A4B_6387)
  {}

  lemma SeedStepsRoundFirst()
    ensures EightSteps(0x3A4B_6387) == 0x73E6_5DE0
  {
    assert Step(0x3A4B_6387) == 0xF09D_32E3 && Step(0xF09D_32E3) == 0x95F6_1A51 &&
           Step(0x95F6_1A51) == 0xA743_8E08 && Step(0xA743_8E08) == 0x53A1_C704;
    assert Step(0x53A1_C704) == 0x29D0_E382 && Step(0x29D0_E382) == 0x14E8_71C1 &&
           Step(0x14E8_71C1) == 0xE7CC_BBC0 && Step(0xE7CC_BBC0) == 0x73E6_5DE0;
    hide Step;
  }

  lemma SeedStepsRoundSecond()
    ensures EightSteps(0x73E6_5DE0) == 0xA079_0425
  {
    assert Step(0x73E6_5DE0) == 0x39F3_2EF0 && Step(0x39F3_2EF0) == 0x1CF9_9778 &&
           Step(0x1CF9_9778) == 0x0E7C_CBBC && Step(0x0E7C_CBBC) == 0x073E_65DE;
    assert Step(0x073E_65DE) == 0x039F_32EF && Step(0x039F_32EF) == 0xEC77_1A57 &&
           Step(0xEC77_1A57) == 0x9B83_0E0B && Step(0x9B83_0E0B) == 0xA079_0425;
    hide Step;
  }

  lemma SeedStepsRoundThird()
    ensures EightSteps(0xA079_0425) == 0x4BA4_AD43
  {
    assert Step(0xA079_0425) == 0xBD84_0132 && Step(0xBD84_0132) == 0x5EC2_0099 &&
           Step(0x5EC2_0099) == 0xC2D9_836C && Step(0xC2D9_836C) == 0x616C_C1B6;
    assert Step(0x616C_C1B6) == 0x30B6_60DB && Step(0x30B6_60DB) == 0xF5E3_B34D &&
           Step(0xF5E3_B34D) == 0x9749_5A86 && Step(0x9749_5A86) == 0x4BA4_AD43;
    hide Step;
  }

  lemma SeedStepsRoundFourth()
    ensures EightSteps(0x4BA4_AD43) == 0xEF9E_B487
  {
    assert Step(0x4BA4_AD43) == 0xC86A_D581 && Step(0xC86A_D581) == 0x898D_E9E0 &&
           Step(0x898D_E9E0) == 0x44C6_F4F0 && Step(0x44C6_F4F0) == 0x2263_7A78;
    assert Step(0x2263_7A78) == 0x1131_BD3C && Step(0x1131_BD3C) == 0x0898_DE9E &&
           Step(0x0898_DE9E) == 0x044C_6F4F && Step(0x044C_6F4F) == 0xEF9E_B487;
    hide Step;
  }

  lemma UnmovedStays()
    ensures Reseed(UNMOVED) == UNMOVED
  {
    hide Clocks, Xor, Reverse, EightSteps, Reseed;
    ReseedIsClocks(UNMOVED);
    SeedEnters();
    SeedStepsRoundFirst();
    SeedStepsRoundSecond();
    SeedStepsRoundThird();
    SeedStepsRoundFourth();
    EightStepsAreClocks(0x3A4B_6387);
    EightStepsAreClocks(0x73E6_5DE0);
    EightStepsAreClocks(0xA079_0425);
    EightStepsAreClocks(0x4BA4_AD43);
    ClocksAdd(Word(0x3A4B_6387), 8, 24);
    ClocksAdd(Word(0x73E6_5DE0), 8, 16);
    ClocksAdd(Word(0xA079_0425), 8, 8);
  }

  lemma OnlyUnmovedStays(r: Word)
    requires Reseed(r) == r
    ensures r == UNMOVED
  {
    hide Clocks, Xor, Reverse, Reseed;
    var s := Reverse(SEED);
    ReseedIsClocks(r);
    ReseedIsClocks(UNMOVED);
    UnmovedStays();
    var d := Xor(r, UNMOVED);
    ClocksOfXor(Xor(r, s), Xor(UNMOVED, s), 32);
    XorRegroups(r, s, UNMOVED, s);
    XorZero(s);
    XorZero(d);
    ClocksHaveNoFixpoint(d, 32);
    XorIsZero(r, UNMOVED);
  }

  lemma ShiftInInjective(x: Word, y: Word, bit: bool)
    requires ShiftIn(x, bit) == ShiftIn(y, bit)
    ensures x == y
  {}

  /** Registers that differ stay different however many equal bits follow. */
  lemma {:induction false} SerialInjective(x: Word, y: Word, bits: seq<bool>)
    requires x != y
    ensures Serial(x, bits) != Serial(y, bits)
    decreases |bits|
  {
    hide ShiftIn;
    if bits != [] {
      if ShiftIn(x, bits[0]) == ShiftIn(y, bits[0]) {
        ShiftInInjective(x, y, bits[0]);
      }
      SerialInjective(ShiftIn(x, bits[0]), ShiftIn(y, bits[0]), bits[1..]);
    }
  }

  lemma NotInjective(x: Word, y: Word)
    requires Not(x) == Not(y)
    ensures x == y
  {}

  /**
   * `crc32_posix` is the CRC-32 of the bytes, continued from register `r`, exactly when it is given a whole word
   * or more, or the register happens to hold `UNMOVED`.
   */
  lemma PosixIsCrcExactlyWhen(r: Word, s: seq<byte>)
    ensures Not(Serial(Start(r, |s|), MessageBits(s))) == Not(Serial(r, MessageBits(s)))
            <==> |s| >= 4 || r == UNMOVED
  {
    hide Serial, Not, Reseed, MessageBits;
    if |s| < 4 {
      UnmovedStays();
      if Reseed(r) == r {
        OnlyUnmovedStays(r);
      } else {
        SerialInjective(Reseed(r), r, MessageBits(s));
        if Not(Serial(Reseed(r), MessageBits(s))) == Not(Serial(r, MessageBits(s))) {
          NotInjective(Serial(Reseed(r), MessageBits(s)), Serial(r, MessageBits(s)));
        }
      }
    }
  }

  /** After a reset, a buffer of fewer than four bytes never gets its CRC-32. */
  lemma ShortBufferAlwaysWrong(s: seq<byte>)
    requires |s| < 4
    ensures Not(Serial(Start(ONES, |s|), MessageBits(s))) != Crc32Of(s)
  {
    hide Serial, Not, Reseed, MessageBits;
    PosixIsCrcExactlyWhen(ONES, s);
  }
}
