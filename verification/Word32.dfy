/** 32-bit words, and the operations the CRC unit and its driver apply to them. */
module Word32 {

  datatype Word = Word(v: bv32)

  const ZERO := Word(0)
  const ONES := Word(0xFFFF_FFFF)

  function Xor(x: Word, y: Word): Word { Word(x.v ^ y.v) }

  function Not(w: Word): Word { Word(!w.v) }

  function ShiftRight(w: Word): Word { Word(w.v >> 1) }

  function ShiftLeft(w: Word): Word { Word(w.v << 1) }

  function Shr(w: Word, n: nat): Word
    decreases n
  {
    if n == 0 then w else Shr(ShiftRight(w), n - 1)
  }

  function Shl(w: Word, n: nat): Word
    decreases n
  {
    if n == 0 then w else ShiftLeft(Shl(w, n - 1))
  }

  /** `n` ones at the low end. */
  function Mask(n: nat): bv32
    decreases n
  {
    if n == 0 then 0 else (Mask(n - 1) << 1) | 1
  }

  function LowPart(w: Word, n: nat): Word { Word(w.v & Mask(n)) }

  function HighPart(w: Word, n: nat): Word { Word(w.v & !Mask(n)) }

  /** Halves, bytes, groups of four, pairs and bits change places. */
  function Flip(v: bv32): bv32 {
    var a := (v >> 16) | (v << 16);
    var b := ((a >> 8) & 0x00FF_00FF) | ((a & 0x00FF_00FF) << 8);
    var c := ((b >> 4) & 0x0F0F_0F0F) | ((b & 0x0F0F_0F0F) << 4);
    var d := ((c >> 2) & 0x3333_3333) | ((c & 0x3333_3333) << 2);
    ((d >> 1) & 0x5555_5555) | ((d & 0x5555_5555) << 1)
  }

  /** `__RBIT`: bit `i` goes to place `31 - i`. */
  function Reverse(w: Word): Word { Word(Flip(w.v)) }

  lemma FlipShifts(v: bv32)
    ensures Flip(v >> 1) == Flip(v) << 1
  {}

  lemma FlipTwice(v: bv32)
    ensures Flip(Flip(v)) == v
  {}

  lemma FlipOfXor(v: bv32, w: bv32, x: bv32)
    requires IsXor(v, w, x)
    ensures IsXor(Flip(v), Flip(w), Flip(x))
  {}

  lemma ReverseOf(v: bv32)
    ensures Reverse(Word(v)) == Word(Flip(v))
  {
    hide Flip;
  }

  lemma ShiftRightOf(v: bv32)
    ensures ShiftRight(Word(v)) == Word(v >> 1)
  {}

  lemma ShiftLeftOf(v: bv32)
    ensures ShiftLeft(Word(v)) == Word(v << 1)
  {}

  predicate IsXor(v: bv32, w: bv32, x: bv32) { x == v ^ w }

  lemma XorIs(x: Word, y: Word)
    ensures IsXor(x.v, y.v, Xor(x, y).v)
  {}

  lemma IsXorOf(v: bv32, w: bv32, x: bv32)
    requires IsXor(v, w, x)
    ensures Xor(Word(v), Word(w)) == Word(x)
  {}

  lemma ReverseShifts(w: Word)
    ensures Reverse(ShiftRight(w)) == ShiftLeft(Reverse(w))
  {
    hide Flip, Reverse, ShiftRight, ShiftLeft;
    var v := w.v;
    ShiftRightOf(v);
    ReverseOf(v >> 1);
    FlipShifts(v);
    ReverseOf(v);
    ShiftLeftOf(Flip(v));
  }

  lemma ReverseTwice(w: Word)
    ensures Reverse(Reverse(w)) == w
  {
    hide Flip, Reverse;
    ReverseOf(w.v);
    ReverseOf(Flip(w.v));
    FlipTwice(w.v);
  }

  lemma XorReverses(x: Word, y: Word)
    ensures Reverse(Xor(x, y)) == Xor(Reverse(x), Reverse(y))
  {
    hide Flip, Reverse, Xor, IsXor;
    var v, w, z := x.v, y.v, Xor(x, y).v;
    XorIs(x, y);
    FlipOfXor(v, w, z);
    ReverseOf(v);
    ReverseOf(w);
    ReverseOf(z);
    IsXorOf(Flip(v), Flip(w), Flip(z));
  }

  lemma XorCommutes(x: Word, y: Word)
    ensures Xor(x, y) == Xor(y, x)
  {}

  lemma XorAssociates(x: Word, y: Word, z: Word)
    ensures Xor(x, Xor(y, z)) == Xor(Xor(x, y), z)
  {}

  lemma XorZero(x: Word)
    ensures Xor(x, ZERO) == x && Xor(x, x) == ZERO
  {}

  lemma Parts(w: Word, n: nat)
    ensures Xor(LowPart(w, n), HighPart(w, n)) == w
  {}

  lemma LowPartShifts(w: Word, n: nat)
    requires n > 0
    ensures ShiftRight(LowPart(w, n)) == LowPart(ShiftRight(w), n - 1)
  {}

  lemma HighPartShifts(w: Word, n: nat)
    requires n > 0
    ensures ShiftRight(HighPart(w, n)) == HighPart(ShiftRight(w), n - 1)
  {}

  lemma {:induction false} ShrLast(w: Word, n: nat)
    ensures Shr(w, n + 1) == ShiftRight(Shr(w, n))
    decreases n
  {
    hide ShiftRight;
    if n > 0 {
      ShrLast(ShiftRight(w), n - 1);
    }
  }

  lemma {:induction false} ReverseOfShr(w: Word, n: nat)
    ensures Reverse(Shr(w, n)) == Shl(Reverse(w), n)
    decreases n
  {
    hide Reverse, ShiftRight, ShiftLeft;
    if n > 0 {
      ShrLast(w, n - 1);
      ReverseShifts(Shr(w, n - 1));
      ReverseOfShr(w, n - 1);
    }
  }

  /** The single bit `i` reverses to the single bit `31 - i`; with `XorReverses` this fixes `Reverse` on every word. */
  lemma ReverseOfBit(i: nat)
    ensures Reverse(Shr(Word(0x8000_0000), i)) == Shl(Word(1), i)
  {
    hide Shl, Shr;
    assert Reverse(Word(0x8000_0000)) == Word(1);
    ReverseOfShr(Word(0x8000_0000), i);
  }

  lemma NoPart(w: Word)
    ensures LowPart(w, 0) == ZERO && HighPart(w, 0) == w
  {}

  lemma {:induction false} ShrOfLowPart(w: Word, n: nat)
    ensures Shr(LowPart(w, n), n) == ZERO
    decreases n
  {
    hide ShiftRight, LowPart;
    if n == 0 {
      NoPart(w);
    } else {
      LowPartShifts(w, n);
      ShrOfLowPart(ShiftRight(w), n - 1);
    }
  }

  lemma {:induction false} ShrOfHighPart(w: Word, n: nat)
    ensures Shr(HighPart(w, n), n) == Shr(w, n)
    decreases n
  {
    hide ShiftRight, HighPart;
    if n == 0 {
      NoPart(w);
    } else {
      HighPartShifts(w, n);
      ShrOfHighPart(ShiftRight(w), n - 1);
    }
  }

  lemma MaskGrows(m: bv32, k: bv32)
    requires m & !k == 0
    ensures ((m << 1) | 1) & !((k << 1) | 1) == 0
  {}

  lemma {:induction false} MasksNest(n: nat)
    ensures Mask(n) & !Mask(n + 1) == 0
    decreases n
  {
    if n == 0 {
      assert Mask(0) == 0;
    } else {
      MasksNest(n - 1);
      MaskGrows(Mask(n - 1), Mask(n));
    }
  }

  lemma TopStaysClear(m: bv32, k: bv32)
    requires m & !k == 0 && k & 0x8000_0000 == 0
    ensures m & 0x8000_0000 == 0
  {}

  lemma MaskNext(n: nat)
    ensures Mask(n + 1) == (Mask(n) << 1) | 1
  {}

  lemma ThreeOnes()
    ensures Mask(3) == 7
  {}

  lemma MaskValues()
    ensures Mask(31) == 0x7FFF_FFFF && Mask(32) == 0xFFFF_FFFF
  {
    hide Mask;
    ThreeOnes();
    MaskNext(3); MaskNext(4); MaskNext(5); MaskNext(6); MaskNext(7); MaskNext(8); MaskNext(9);
    MaskNext(10); MaskNext(11); MaskNext(12); MaskNext(13); MaskNext(14); MaskNext(15); MaskNext(16);
    MaskNext(17); MaskNext(18); MaskNext(19); MaskNext(20); MaskNext(21); MaskNext(22); MaskNext(23);
    MaskNext(24); MaskNext(25); MaskNext(26); MaskNext(27); MaskNext(28); MaskNext(29); MaskNext(30);
    MaskNext(31);
  }

  lemma {:induction false} MaskTopClear(n: nat)
    requires n <= 31
    ensures Mask(n) & 0x8000_0000 == 0
    decreases 31 - n
  {
    if n == 31 {
      MaskValues();
    } else {
      MaskTopClear(n + 1);
      MasksNest(n);
      TopStaysClear(Mask(n), Mask(n + 1));
    }
  }

  lemma LowPartTwice(w: Word, n: nat)
    ensures LowPart(LowPart(w, n), n) == LowPart(w, n)
    ensures LowPart(HighPart(w, n), n) == ZERO
  {}

  lemma LowPartOfXor(x: Word, y: Word, n: nat)
    ensures LowPart(Xor(x, y), n) == Xor(LowPart(x, n), LowPart(y, n))
  {}

  lemma FitsShifted(w: Word, n: nat)
    requires w == LowPart(w, n)
    ensures ShiftLeft(w) == LowPart(ShiftLeft(w), n + 1)
  {}

  lemma {:induction false} ShlFits(w: Word, n: nat, m: nat)
    requires w == LowPart(w, n)
    ensures Shl(w, m) == LowPart(Shl(w, m), n + m)
    decreases m
  {
    hide LowPart, ShiftLeft;
    if m > 0 {
      ShlFits(w, n, m - 1);
      FitsShifted(Shl(w, m - 1), n + m - 1);
    }
  }

  lemma {:induction false} ShlFirst(w: Word, n: nat)
    ensures Shl(w, n + 1) == Shl(ShiftLeft(w), n)
    decreases n
  {
    hide ShiftLeft;
    if n > 0 {
      ShlFirst(w, n - 1);
    }
  }

  lemma XorShiftsLeft(x: Word, y: Word)
    ensures ShiftLeft(Xor(x, y)) == Xor(ShiftLeft(x), ShiftLeft(y))
  {}

  lemma {:induction false} XorShl(x: Word, y: Word, n: nat)
    ensures Shl(Xor(x, y), n) == Xor(Shl(x, n), Shl(y, n))
    decreases n
  {
    hide ShiftLeft, Xor;
    if n > 0 {
      XorShl(x, y, n - 1);
      XorShiftsLeft(Shl(x, n - 1), Shl(y, n - 1));
    }
  }

  lemma HighPartShiftsLeft(w: Word, k: nat)
    requires w == HighPart(w, k)
    ensures ShiftLeft(w) == HighPart(ShiftLeft(w), k + 1)
  {}

  lemma NoHighPart(w: Word, m: bv32)
    requires m == 0xFFFF_FFFF && w.v == w.v & !m
    ensures w == ZERO
  {}

  lemma {:induction false} HighPartShiftedOut(w: Word, k: nat, n: nat)
    requires w == HighPart(w, k) && k + n == 32
    ensures Shl(w, n) == ZERO
    decreases n
  {
    hide ShiftLeft;
    if n == 0 {
      MaskValues();
      NoHighPart(w, Mask(k));
    } else {
      hide HighPart;
      HighPartShiftsLeft(w, k);
      HighPartShiftedOut(ShiftLeft(w), k + 1, n - 1);
      ShlFirst(w, n - 1);
    }
  }

  lemma HighPartTwice(w: Word, n: nat)
    ensures HighPart(HighPart(w, n), n) == HighPart(w, n)
  {}

  /** Bits shifted out at the top do not matter. */
  lemma ShlDropsHighPart(w: Word, k: nat, n: nat)
    requires k + n == 32
    ensures Shl(w, n) == Shl(LowPart(w, k), n)
  {
    hide Shl, HighPart, LowPart, Xor;
    Parts(w, k);
    XorShl(LowPart(w, k), HighPart(w, k), n);
    HighPartTwice(w, k);
    HighPartShiftedOut(HighPart(w, k), k, n);
    XorZero(Shl(LowPart(w, k), n));
  }
}
