/** The CRC register runs backwards as well as forwards: any four bytes in a message can bring it to any value. */
module Crc32Onto {
  import opened Bytes
  import opened MessageBytes
  import opened Word32
  import opened Crc32

  /** `w` shifted up, with a new low bit. */
  function ShiftUp(w: Word, low: bool): Word { Word((w.v << 1) | (if low then 1 else 0)) }

  predicate Top(w: Word) { w.v & 0x8000_0000 != 0 }

  /** The register before a clock with input `bit` that left `r`: the top bit tells whether there was feedback. */
  function Unshift(r: Word, bit: bool): Word {
    ShiftUp(Xor(r, Feedback(Top(r))), Top(r) != bit)
  }

  lemma ShiftUpIsBack(w: Word, low: bool)
    requires !Top(w)
    ensures ShiftRight(ShiftUp(w, low)) == w && (ShiftUp(w, low).v & 1 == 1) == low
  {}

  lemma FeedbackLeavesTop(r: Word)
    ensures !Top(Xor(r, Feedback(Top(r))))
  {}

  lemma XorUndone(r: Word, f: Word)
    ensures Xor(Xor(r, f), f) == r
  {}

  lemma UnshiftIsBack(r: Word, bit: bool)
    ensures ShiftIn(Unshift(r, bit), bit) == r
  {
    hide Top, Xor, Feedback, ShiftUp, ShiftRight;
    var f := Feedback(Top(r));
    FeedbackLeavesTop(r);
    ShiftUpIsBack(Xor(r, f), Top(r) != bit);
    XorUndone(r, f);
  }

  function Unserial(r: Word, bits: seq<bool>): Word
    decreases |bits|
  {
    if bits == [] then r else Unshift(Unserial(r, bits[1..]), bits[0])
  }

  lemma {:induction false} UnserialIsBack(r: Word, bits: seq<bool>)
    ensures Serial(Unserial(r, bits), bits) == r
    decreases |bits|
  {
    hide ShiftIn, Unshift;
    if bits != [] {
      UnserialIsBack(r, bits[1..]);
      UnshiftIsBack(Unserial(r, bits[1..]), bits[0]);
    }
  }

  function Unclocks(r: Word, n: nat): Word
    decreases n
  {
    if n == 0 then r else Unshift(Unclocks(r, n - 1), false)
  }

  lemma ClockIsShiftIn(w: Word)
    ensures Clock(w) == ShiftIn(w, false)
  {}

  lemma {:induction false} UnclocksIsBack(r: Word, n: nat)
    ensures Clocks(Unclocks(r, n), n) == r
    decreases n
  {
    hide ShiftIn, Unshift, Clock;
    if n > 0 {
      UnclocksIsBack(r, n - 1);
      UnshiftIsBack(Unclocks(r, n - 1), false);
      ClockIsShiftIn(Unclocks(r, n));
    }
  }

  /** The word that brings the register from `r` to `t`. */
  function Bridge(r: Word, t: Word): Word { Xor(r, Unclocks(t, 32)) }

  lemma BridgeReaches(r: Word, t: Word)
    ensures Serial(r, LowBits(Bridge(r, t), 32)) == t
  {
    hide Serial, Clocks, LowBits, Xor, Shr, Unclocks;
    var u := Unclocks(t, 32);
    var w := Bridge(r, t);
    ClocksFeedBits(r, w, 32);
    ShrAllOut(w);
    XorZero(Serial(r, LowBits(w, 32)));
    XorTwice(r, u);
    UnclocksIsBack(t, 32);
  }

  lemma XorTwice(x: Word, y: Word)
    ensures Xor(x, Xor(x, y)) == y
  {}

  /** The word to put between two parts of a message so that the register ends at `t`. */
  function Missing(r: Word, before: seq<byte>, after: seq<byte>, t: Word): Word {
    Bridge(Serial(r, MessageBits(before)), Unserial(t, MessageBits(after)))
  }

  /** Every value of the register can be reached from every other by a choice of four bytes anywhere in the message. */
  lemma MissingWordReaches(r: Word, before: seq<byte>, b0: byte, b1: byte, b2: byte, b3: byte, after: seq<byte>,
      t: Word)
    requires Load(b0, b1, b2, b3) == Missing(r, before, after, t)
    ensures Serial(r, MessageBits(before + [b0, b1, b2, b3] + after)) == t
  {
    hide Serial, MessageBits, LowBits, Load, Bridge, Unserial;
    var q := Serial(r, MessageBits(before));
    var u := Unserial(t, MessageBits(after));
    var four := [b0, b1, b2, b3];
    assert four[..4] == four;
    LoadBits(b0, b1, b2, b3, 4);
    BridgeReaches(q, u);
    UnserialIsBack(t, MessageBits(after));
    MessageBitsAppend(before, four);
    MessageBitsAppend(before + four, after);
    SerialAppend(r, MessageBits(before), MessageBits(four));
    SerialAppend(r, MessageBits(before + four), MessageBits(after));
  }
}
