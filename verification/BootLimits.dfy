/** What a passing check means, and how far the size limit of the bootloader's guarantees reaches. */
module BootLimits {
  import opened Bytes
  import opened MessageBytes
  import opened Word32
  import opened Flash
  import opened Crc32
  import opened Boot
  import opened BootSafety
  import opened BootProgress

  // ---------------------------------------------------------------- the check and the CRC-32 of the linked image

  lemma ZeroWordBits()
    ensures LowBits(ZERO, 64) == MessageBits(EIGHT_ZEROS)
  {
    hide LowBits, MessageBits, Shr, Load;
    LoadBits(0, 0, 0, 0, 4);
    LoadZero();
    LowBitsAppend(ZERO, 32, 32);
    ShrOfZero(32);
    assert [0, 0, 0, 0][..4] == [0, 0, 0, 0];
    MessageBitsAppend([0, 0, 0, 0], [0, 0, 0, 0]);
    assert EIGHT_ZEROS == [0, 0, 0, 0] + [0, 0, 0, 0];
  }

  lemma LoadZero()
    ensures Load(0, 0, 0, 0) == ZERO
  {}

  lemma AfterZerosIsClocks()
    ensures AfterZeros() == Clocks(ONES, 64)
  {
    hide Serial, LowBits, MessageBits, Clocks, Xor, Shr;
    ZeroWordBits();
    ClocksFeedBits(ONES, ZERO, 64);
    ShrOfZero(64);
    XorZero(ONES);
    XorZero(AfterZeros());
  }

  lemma StepsAfterReset()
    ensures EightSteps(0xFFFF_FFFF) == 0x2DFD_1072 && EightSteps(0x2DFD_1072) == 0xBE26_ED00
    ensures EightSteps(0xBE26_ED00) == 0x00BE_26ED && EightSteps(0x00BE_26ED) == 0xDEBB_20E3
    ensures EightSteps(0xDEBB_20E3) == 0x39DD_08E2 && EightSteps(0x39DD_08E2) == 0x4E3D_5E5C
    ensures EightSteps(0x4E3D_5E5C) == 0x6293_2081 && EightSteps(0x6293_2081) == 0x9ADD_2096
  {}

  lemma AfterZerosIs()
    ensures AfterZeros() == Word(0x9ADD_2096)
  {
    hide Clocks, EightSteps, AfterZeros;
    AfterZerosIsClocks();
    StepsAfterReset();
    EightClocks(0xFFFF_FFFF, 56);
    EightClocks(0x2DFD_1072, 48);
    EightClocks(0xBE26_ED00, 40);
    EightClocks(0x00BE_26ED, 32);
    EightClocks(0xDEBB_20E3, 24);
    EightClocks(0x39DD_08E2, 16);
    EightClocks(0x4E3D_5E5C, 8);
    EightClocks(0x6293_2081, 0);
    NoClocks(Word(0x9ADD_2096));
  }

  lemma EightClocks(v: bv32, n: nat)
    ensures Clocks(Word(v), 8 + n) == Clocks(Word(EightSteps(v)), n)
  {
    hide Clocks, EightSteps;
    ClocksAdd(Word(v), 8, n);
    EightStepsAreClocks(v);
  }

  lemma NoClocks(w: Word)
    ensures Clocks(w, 0) == w
  {}

  /**
   * The bootloader's value is the CRC-32 of the image with its first two words zeroed, which is what the build
   * computes before it fills them in, exactly when the image reaches beyond its first eleven bytes.
   */
  lemma ImageCrcIsCrc32ExactlyWhen(f: memory, a: nat, n: nat)
    requires 8 <= n && a + n <= SIZE
    ensures ImageCrc(f, a, n) == Crc32Of(EIGHT_ZEROS + f[a + 8..a + n]) <==> n >= 12
  {
    hide Serial, MessageBits, Not, Start, AfterZeros;
    var s := f[a + 8..a + n];
    AfterZerosIs();
    MessageBitsAppend(EIGHT_ZEROS, s);
    SerialAppend(ONES, MessageBits(EIGHT_ZEROS), MessageBits(s));
    assert AfterZeros() == Serial(ONES, MessageBits(EIGHT_ZEROS)) by { AfterZerosMeans(); }
    PosixIsCrcExactlyWhen(AfterZeros(), s);
  }

  lemma AfterZerosMeans()
    ensures AfterZeros() == Serial(ONES, MessageBits(EIGHT_ZEROS))
  {}

  /** An image as the build links it: CRC-32 of the file with zero CRC and size fields, then both fields filled in. */
  predicate Linked(f: memory, a: nat, file: seq<byte>)
    requires a + 28 <= SIZE
  {
    && 12 <= |file| && a + |file| <= SIZE && file[..8] == EIGHT_ZEROS
    && f[a + 8..a + |file|] == file[8..]
    && ImageSize(f, a) == |file|
    && ValueCrc(f, a) == Crc32Of(file)
  }

  /**
   * For images whose header lies in the image, the check accepts exactly the linked ones with the right magic
   * number.
   */
  lemma CheckAcceptsExactlyLinked(f: memory, a: nat)
    requires a + 28 <= SIZE && 12 <= ImageSize(f, a) && a + ImageSize(f, a) <= SIZE
    ensures Check(f, a) == Pass <==>
            Magic(f, a) == MAGIC && Linked(f, a, EIGHT_ZEROS + f[a + 8..a + ImageSize(f, a)])
  {
    hide Magic, ImageSize, ValueCrc, ImageCrc, Crc32Of;
    var n := ImageSize(f, a);
    ImageCrcIsCrc32ExactlyWhen(f, a, n);
    var file := EIGHT_ZEROS + f[a + 8..a + n];
    assert file[..8] == EIGHT_ZEROS && file[8..] == f[a + 8..a + n];
  }

  /**
   * The same on bytes: the magic number is 0x38272585, and the first word is the CRC-32 of the image with its first
   * eight bytes zero.
   */
  lemma CheckOnBytes(f: memory, a: nat, n: nat)
    requires a + 28 <= SIZE && 12 <= n && a + n <= SIZE
    requires n == f[a + 4] + 0x100 * (f[a + 5] as int) + 0x1_0000 * (f[a + 6] as int) + 0x100_0000 * (f[a + 7] as int)
    ensures Check(f, a) == Pass <==>
            && f[a + 8..a + 12] == [0x85, 0x25, 0x27, 0x38]
            && Load(f[a], f[a + 1], f[a + 2], f[a + 3]) == Crc32Of([0, 0, 0, 0, 0, 0, 0, 0] + f[a + 8..a + n])
  {
    hide Check, Crc32Of, Load;
    CheckAcceptsExactlyLinked(f, a);
    var file := EIGHT_ZEROS + f[a + 8..a + n];
    assert file[..8] == EIGHT_ZEROS && file[8..] == f[a + 8..a + n];
    MagicBytes(f, a);
  }

  /**
   * What the check says by magic number and size alone: no size is a failure, a size that leads outside the
   * flash a fault.
   */
  lemma CheckBySize(f: memory, a: nat, n: nat)
    requires a + 28 <= SIZE
    requires n == f[a + 4] + 0x100 * (f[a + 5] as int) + 0x1_0000 * (f[a + 6] as int) + 0x100_0000 * (f[a + 7] as int)
    ensures Check(f, a) == Fault <==> f[a + 8..a + 12] == [0x85, 0x25, 0x27, 0x38] && n != 0 && !(8 <= n <= SIZE - a)
    ensures n == 0 ==> Check(f, a) == Fail
  {
    hide ImageCrc, Load;
    MagicBytes(f, a);
  }

  lemma MagicBytes(f: memory, a: nat)
    requires a + 28 <= SIZE
    ensures Magic(f, a) == MAGIC <==> f[a + 8..a + 12] == [0x85, 0x25, 0x27, 0x38]
  {
    var m := f[a + 8..a + 12];
    assert m == [f[a + 8], f[a + 9], f[a + 10], f[a + 11]];
    if Magic(f, a) == MAGIC {
      NumberTells(f[a + 8], f[a + 9], f[a + 10], f[a + 11], 0x85, 0x25, 0x27, 0x38);
    }
  }

  // ---------------------------------------------------------------- one byte past the region

  lemma {:induction false} ClocksInjective(x: Word, y: Word, n: nat)
    requires Clocks(x, n) == Clocks(y, n)
    ensures x == y
    decreases n
  {
    hide Clock;
    if n > 0 {
      ClocksInjective(Clock(x), Clock(y), n - 1);
      ClockInjective(x, y);
    }
  }

  lemma ClockInjective(x: Word, y: Word)
    requires Clock(x) == Clock(y)
    ensures x == y
  {}

  lemma XorCancels(r: Word, x: Word, y: Word)
    requires Xor(r, x) == Xor(r, y)
    ensures x == y
  {}

  lemma ByteFeeds(r: Word, b: byte)
    ensures Clocks(Xor(r, Load(b, 0, 0, 0)), 8) == Serial(r, ByteBits(b))
  {
    hide Clocks, Xor, Serial, LowBits, Shr, Join, Bits, OctetBits;
    var w := Load(b, 0, 0, 0);
    ClocksFeedBits(r, w, 8);
    FirstOctet(Bits(b), Bits(0), Bits(0), Bits(0));
    NoBits();
    assert Join(0, 0, 0, 0) == ZERO by { JoinZero(); }
    XorZero(Serial(r, ByteBits(b)));
  }

  lemma JoinZero()
    ensures Join(0, 0, 0, 0) == ZERO
  {}

  /** A different last byte is a different CRC. */
  lemma LastByteMatters(r: Word, s: seq<byte>, b: byte, c: byte)
    requires b != c
    ensures Serial(r, MessageBits(s + [b])) != Serial(r, MessageBits(s + [c]))
  {
    hide Serial, ByteBits, Clocks, Xor, Load;
    assert (s + [b])[..|s|] == s && (s + [c])[..|s|] == s;
    var q := Serial(r, MessageBits(s));
    SerialAppend(r, MessageBits(s), ByteBits(b));
    SerialAppend(r, MessageBits(s), ByteBits(c));
    ByteFeeds(q, b);
    ByteFeeds(q, c);
    if Serial(q, ByteBits(b)) == Serial(q, ByteBits(c)) {
      ClocksInjective(Xor(q, Load(b, 0, 0, 0)), Xor(q, Load(c, 0, 0, 0)), 8);
      XorCancels(q, Load(b, 0, 0, 0), Load(c, 0, 0, 0));
      LoadTells(b, c);
    }
  }

  lemma LoadTells(b: byte, c: byte)
    requires Load(b, 0, 0, 0) == Load(c, 0, 0, 0)
    ensures b == c
  {
    hide Bits;
    NoBits();
    JoinTells(Bits(b), Bits(c));
  }

  lemma JoinTells(u: bv8, v: bv8)
    requires Join(u, 0, 0, 0) == Join(v, 0, 0, 0)
    ensures u == v
  {}

  /** An image that is one byte too long for main, with a zero in that byte. */
  predicate OneByteTooLong(f: memory) {
    && Check(f, STORAGE) == Pass && ImageSize(f, STORAGE) == REGION + 1
    && f[STORAGE + REGION] == 0
  }

  /** Main after the copy of such an image: the last byte has landed on the first byte of storage. */
  function Overrun(f: memory): memory { Copied(f, REGION)[STORAGE := 0] }

  lemma OverrunVerifies(f: memory)
    requires OneByteTooLong(f)
    ensures Check(Overrun(f), MAIN) == Pass && ImageSize(Overrun(f), MAIN) == REGION + 1
  {
    hide ImageCrc, ValueCrc, Magic, ImageSize;
    var g := Overrun(f);
    CopiedMirrors(f, REGION);
    assert Mirrors(f, STORAGE, g, MAIN, REGION + 1);
    MirroredCheck(f, STORAGE, g, MAIN, REGION + 1);
    MirroredFields(f, STORAGE, g, MAIN, REGION + 1);
  }

  /** A main image that reaches one byte into the storage fails with any other value in that byte. */
  lemma LastByteFails(f: memory, g: memory)
    requires Check(f, MAIN) == Pass && ImageSize(f, MAIN) == REGION + 1
    requires SameOutside(f, g, STORAGE, SIZE) && g[STORAGE] != f[STORAGE]
    ensures Check(g, MAIN) == Fail
  {
    hide Serial, MessageBits, Not, Start, AfterZeros, Load;
    MirroredFields(f, MAIN, g, MAIN, REGION);
    var n := REGION + 1;
    var s := f[MAIN + 8..MAIN + REGION];
    assert f[MAIN + 8..MAIN + n] == s + [f[STORAGE]];
    assert g[MAIN + 8..MAIN + n] == s + [g[STORAGE]];
    LastByteMatters(Start(AfterZeros(), n - 8), s, f[STORAGE], g[STORAGE]);
    if ImageCrc(f, MAIN, n) == ImageCrc(g, MAIN, n) {
      NotInjective(Serial(Start(AfterZeros(), n - 8), MessageBits(s + [f[STORAGE]])),
                   Serial(Start(AfterZeros(), n - 8), MessageBits(s + [g[STORAGE]])));
    }
  }

  lemma OverrunErasedFails(f: memory)
    requires OneByteTooLong(f)
    ensures Check(Erase(Overrun(f), STORAGE, STORAGE_END), MAIN) == Fail
  {
    hide Check, ImageSize, Overrun;
    OverrunVerifies(f);
    OverrunFirstByte(f);
    LastByteFails(Overrun(f), Erase(Overrun(f), STORAGE, STORAGE_END));
  }

  lemma OverrunFirstByte(f: memory)
    ensures Overrun(f)[STORAGE] == 0
  {}

  /**
   * One byte beyond the region is enough, main good or not: once due, the undisturbed upgrade ends with no good
   * image at all.
   */
  lemma OneByteTooLongBricks(f: memory)
    requires OneByteTooLong(f) && Due(f)
    ensures BootOf(f).pc == Stopped && !OneGood(BootOf(f).f)
  {
    hide Finish, Check, ImageSize, Copied, WithCopy, Overrun, HeadersDiffer;
    var n := REGION + 1;
    var e := Erase(f, MAIN, STORAGE);
    FinishStep(State(f, Decide));
    FinishEraseMain(f, MAIN);
    FinishStep(State(e, EraseMain(STORAGE)));
    StorageCheckKept(f, e);
    FinishCopyTo(e, REGION, n);
    CopiedIs(f, REGION);
    var c := Copied(f, REGION);
    FinishStep(State(c, Copy(REGION, n)));
    LastByteLands(f);
    var g := Overrun(f);
    FinishStep(State(g, Copy(n, n)));
    OverrunVerifies(f);
    FinishStep(State(g, Verify));
    FinishEraseStorage(g, STORAGE);
    var u := Erase(g, STORAGE, STORAGE_END);
    OverrunErasedFails(f);
    BlankHeaderFails(u, STORAGE);
    FinishLaunch(u);
  }

  lemma LastByteLands(f: memory)
    requires f[STORAGE + REGION] == 0
    ensures ProgramByte(Copied(f, REGION), REGION) == Overrun(f)
  {
    CopiedMirrors(f, REGION);
    var c := Copied(f, REGION);
    assert c[STORAGE + REGION] == 0;
    ProgramZero(c[STORAGE]);
  }

  // ---------------------------------------------------------------- such an image exists

  function Octet0(w: Word): bv8 { (w.v & 0xFF) as bv8 }

  function Octet1(w: Word): bv8 { ((w.v >> 8) & 0xFF) as bv8 }

  function Octet2(w: Word): bv8 { ((w.v >> 16) & 0xFF) as bv8 }

  function Octet3(w: Word): bv8 { ((w.v >> 24) & 0xFF) as bv8 }

  lemma JoinOfOctets(w: Word)
    ensures Join(Octet0(w), Octet1(w), Octet2(w), Octet3(w)) == w
  {}

  /** `f` with a CRC word stored at `a`. */
  function StoreWord(f: memory, a: nat, w: Word): memory
    requires a + 4 <= SIZE
  {
    f[a := Octet0(w) as int][a + 1 := Octet1(w) as int][a + 2 := Octet2(w) as int][a + 3 := Octet3(w) as int]
  }

  lemma StoredWord(f: memory, a: nat, w: Word)
    requires a + 28 <= SIZE
    ensures ValueCrc(StoreWord(f, a, w), a) == w
  {
    hide Octet0, Octet1, Octet2, Octet3, Join, Bits;
    BitsOfValue(Octet0(w));
    BitsOfValue(Octet1(w));
    BitsOfValue(Octet2(w));
    BitsOfValue(Octet3(w));
    JoinOfOctets(w);
  }

  /** `f` with a header of size `n` at `a`, but for its CRC. */
  function Headed(f: memory, a: nat, n: nat): memory
    requires a + 28 <= SIZE && n <= SIZE
  {
    f[a + 4 := n % 0x100][a + 5 := n / 0x100 % 0x100][a + 6 := n / 0x1_0000][a + 7 := 0]
     [a + 8 := 0x85][a + 9 := 0x25][a + 10 := 0x27][a + 11 := 0x38]
  }

  /** ... and with the CRC that makes it an image. */
  function Stamped(f: memory, a: nat, n: nat): memory
    requires a + 28 <= SIZE && 8 <= n && a + n <= SIZE
  {
    StoreWord(Headed(f, a, n), a, ImageCrc(Headed(f, a, n), a, n))
  }

  lemma HeadedFields(f: memory, a: nat, n: nat, w: Word)
    requires a + 28 <= SIZE && n <= SIZE
    ensures var g := StoreWord(Headed(f, a, n), a, w);
            && Magic(g, a) == MAGIC && ImageSize(g, a) == n
            && SameOutside(f, g, a, a + 12) && SameOutside(Headed(f, a, n), g, a, a + 4)
  {
    hide Octet0, Octet1, Octet2, Octet3, ImageCrc;
    assert n % 0x100 + 0x100 * (n / 0x100 % 0x100) + 0x1_0000 * (n / 0x1_0000) == n;
  }

  /** Whatever the flash holds, twelve bytes make an image of any size of it. */
  lemma StampedPasses(f: memory, a: nat, n: nat)
    requires a + 28 <= SIZE && 8 <= n && a + n <= SIZE
    ensures Check(Stamped(f, a, n), a) == Pass && ImageSize(Stamped(f, a, n), a) == n
    ensures SameOutside(f, Stamped(f, a, n), a, a + 12)
  {
    hide Serial, MessageBits, Not, Start, AfterZeros, StoreWord, Headed, Magic, ImageSize, ValueCrc;
    var h := Headed(f, a, n);
    var w := ImageCrc(h, a, n);
    var g := StoreWord(h, a, w);
    HeadedFields(f, a, n, w);
    StoredWord(h, a, w);
    assert g[a + 8..a + n] == h[a + 8..a + n];
  }

  function Empty(): memory { seq(SIZE, i => ERASED) }

  /** Such an image exists. */
  lemma OneByteTooLongExists()
    ensures exists f: memory :: OneByteTooLong(f) && Due(f) && !OneGood(BootOf(f).f)
  {
    hide Stamped, BootOf, Check, ImageSize;
    var e := Empty()[STORAGE + REGION := 0];
    var g := Stamped(e, STORAGE, REGION + 1);
    StampedPasses(e, STORAGE, REGION + 1);
    BlankHeaderFails(g, MAIN);
    OneByteTooLongBricks(g);
  }
}
