/** The bootloader: `checkProgram` and `main`, as a machine whose steps are the single flash operations. */
module Boot {
  import opened Bytes
  import opened MessageBytes
  import opened Word32
  import opened Flash
  import opened Crc32

  // ---------------------------------------------------------------- memory map and image header

  const MAIN := 0x2_0000             // _main_flash_start - BASE
  const STORAGE := 0x8_0000          // _fwstorage_flash_start - BASE
  const REGION := 0x6_0000           // size of either region
  const STORAGE_END := 0xE_0000      // STORAGE + _fwstorage_flash_size
  const MAGIC := 0x3827_2585

  function Number(b0: int, b1: int, b2: int, b3: int): int { b0 + 0x100 * b1 + 0x1_0000 * b2 + 0x100_0000 * b3 }

  /** A 32-bit header field. */
  function Field(f: seq<byte>, a: nat): nat
    requires a + 4 <= |f|
  {
    Number(f[a], f[a + 1], f[a + 2], f[a + 3])
  }

  function ValueCrc(f: memory, a: nat): Word
    requires a + 28 <= SIZE
  {
    Load(f[a], f[a + 1], f[a + 2], f[a + 3])
  }

  function ImageSize(f: memory, a: nat): nat
    requires a + 28 <= SIZE
  {
    Field(f, a + 4)
  }

  function Magic(f: memory, a: nat): nat
    requires a + 28 <= SIZE
  {
    Field(f, a + 8)
  }

  // ---------------------------------------------------------------- checkProgram

  const EIGHT_ZEROS: seq<byte> := [0, 0, 0, 0, 0, 0, 0, 0]

  /** The register of the CRC unit after the eight zero bytes that stand for the CRC and size fields. */
  function AfterZeros(): Word { Serial(ONES, MessageBits(EIGHT_ZEROS)) }

  /** What the two chained calls of `crc32_posix` return for an image of `n` bytes. */
  function ImageCrc(f: memory, a: nat, n: nat): Word
    requires 8 <= n && a + n <= SIZE
  {
    Not(Serial(Start(AfterZeros(), n - 8), MessageBits(f[a + 8..a + n])))
  }

  /** `Fault`: the check reads outside the flash, which the bus answers with a fault. */
  datatype Verdict = Pass | Fail | Fault

  function Check(f: memory, a: nat): Verdict
    requires a + 28 <= SIZE
  {
    if Magic(f, a) != MAGIC then Fail
    else if ImageSize(f, a) == 0 then Fail
    else if ImageSize(f, a) < 8 || a + ImageSize(f, a) > SIZE then Fault
    else if ValueCrc(f, a) == ImageCrc(f, a, ImageSize(f, a)) then Pass
    else Fail
  }

  /** `checkProgram` on the CRC unit; a size below eight wraps to almost 4 GiB. */
  method CheckProgram(unit: CrcUnit, flash: array<byte>, a: nat) returns (v: Verdict)
    requires flash.Length == SIZE && a + 28 <= SIZE && a % 4 == 0
    modifies unit
    ensures v == Check(flash[..], a)
  {
    hide Serial, MessageBits, Start, Not, Reverse, Load;
    var f: memory := flash[..];
    if Number(f[a + 8], f[a + 9], f[a + 10], f[a + 11]) != MAGIC {
      return Fail;
    }
    var size := Number(f[a + 4], f[a + 5], f[a + 6], f[a + 7]);
    if size == 0 {
      return Fail;
    }
    var rest := if size >= 8 then size - 8 else size + 0x1_0000_0000 - 8;
    if a + 8 + rest > SIZE {
      return Fault;
    }
    var crc := ChainedCrc(unit, f, a, rest);
    v := if Load(f[a], f[a + 1], f[a + 2], f[a + 3]) == crc then Pass else Fail;
  }

  /** The two chained calls of `crc32_posix`. */
  method ChainedCrc(unit: CrcUnit, f: memory, a: nat, rest: nat) returns (crc: Word)
    requires a % 4 == 0 && a + 8 + rest <= SIZE
    modifies unit
    ensures crc == ImageCrc(f, a, rest + 8)
  {
    hide Serial, MessageBits, Start, Not, Reverse;
    assert EIGHT_ZEROS[0..8] == EIGHT_ZEROS;
    crc := unit.Posix(EIGHT_ZEROS, 0, 8, true);
    WholeWords(a, rest);
    crc := unit.Posix(f, a + 8, rest, false);
  }

  lemma WholeWords(a: nat, rest: nat)
    requires a % 4 == 0 && a + 8 + rest <= SIZE
    ensures a + 8 + (rest + 3) / 4 * 4 <= SIZE
  {}

  // ---------------------------------------------------------------- the machine

  datatype Pc =
    | Decide
    | EraseMain(p: nat)
    | Copy(i: nat, n: nat)
    | Verify
    | EraseStorage(p: nat)
    | Launch
    | Running
    | Stopped
    | Faulted

  datatype State = State(f: memory, pc: Pc)

  /** Versions or CRC differ between the two headers. */
  predicate HeadersDiffer(f: memory) {
    Field(f, MAIN + 12) != Field(f, STORAGE + 12) ||
    Field(f, MAIN + 16) != Field(f, STORAGE + 16) ||
    Field(f, MAIN + 20) != Field(f, STORAGE + 20) ||
    Field(f, MAIN) != Field(f, STORAGE)
  }

  lemma NumberTells(b0: byte, b1: byte, b2: byte, b3: byte, c0: byte, c1: byte, c2: byte, c3: byte)
    requires Number(b0, b1, b2, b3) == Number(c0, c1, c2, c3)
    ensures b0 == c0 && b1 == c1 && b2 == c2 && b3 == c3
  {
    assert b0 - c0 == 0x100 * (c1 - b1 + 0x100 * (c2 - b2) + 0x1_0000 * (c3 - b3));
    assert b1 - c1 == 0x100 * (c2 - b2 + 0x100 * (c3 - b3));
  }

  lemma FieldTells(f: memory, a: nat, b: nat)
    requires a + 4 <= SIZE && b + 4 <= SIZE
    ensures Field(f, a) == Field(f, b) <==> f[a..a + 4] == f[b..b + 4]
  {
    hide Number;
    if Field(f, a) == Field(f, b) {
      NumberTells(f[a], f[a + 1], f[a + 2], f[a + 3], f[b], f[b + 1], f[b + 2], f[b + 3]);
    } else if f[a..a + 4] == f[b..b + 4] {
      FourBytes(f, a, b);
    }
  }

  lemma FourBytes(f: memory, a: nat, b: nat)
    requires a + 4 <= SIZE && b + 4 <= SIZE && f[a..a + 4] == f[b..b + 4]
    ensures f[a] == f[b] && f[a + 1] == f[b + 1] && f[a + 2] == f[b + 2] && f[a + 3] == f[b + 3]
  {
    var u, v := f[a..a + 4], f[b..b + 4];
    assert u[0] == v[0] && u[1] == v[1] && u[2] == v[2] && u[3] == v[3];
  }

  /** The headers differ exactly if the bytes of the three version words do, or those of the CRC. */
  lemma HeadersDifferInBytes(f: memory)
    ensures HeadersDiffer(f) <==>
            f[MAIN + 12..MAIN + 24] != f[STORAGE + 12..STORAGE + 24] || f[MAIN..MAIN + 4] != f[STORAGE..STORAGE + 4]
  {
    hide Field;
    FieldTells(f, MAIN + 12, STORAGE + 12);
    FieldTells(f, MAIN + 16, STORAGE + 16);
    FieldTells(f, MAIN + 20, STORAGE + 20);
    FieldTells(f, MAIN, STORAGE);
    ThreeWords(f, MAIN + 12, STORAGE + 12);
  }

  lemma ThreeWords(f: memory, a: nat, b: nat)
    requires a + 12 <= SIZE && b + 12 <= SIZE
    ensures f[a..a + 12] == f[b..b + 12] <==>
            f[a..a + 4] == f[b..b + 4] && f[a + 4..a + 8] == f[b + 4..b + 8] && f[a + 8..a + 12] == f[b + 8..b + 12]
  {
    var u, v := f[a..a + 12], f[b..b + 12];
    assert u == f[a..a + 4] + f[a + 4..a + 8] + f[a + 8..a + 12];
    assert v == f[b..b + 4] + f[b + 4..b + 8] + f[b + 8..b + 12];
    assert u[..4] == f[a..a + 4] && u[4..8] == f[a + 4..a + 8] && u[8..] == f[a + 8..a + 12];
    assert v[..4] == f[b..b + 4] && v[4..8] == f[b + 4..b + 8] && v[8..] == f[b + 8..b + 12];
  }

  function DecideNext(f: memory): Pc {
    match Check(f, STORAGE)
    case Fault => Faulted
    case Fail => Launch
    case Pass =>
      match Check(f, MAIN)
      case Fault => Faulted
      case Fail => EraseMain(MAIN)
      case Pass => if HeadersDiffer(f) then EraseMain(MAIN) else Launch
  }

  predicate Terminal(pc: Pc) { pc.Running? || pc.Stopped? || pc.Faulted? }

  /** One step of `main`: a check, the erase of one sector, or the programming of one byte. */
  function Next(s: State): State {
    match s.pc
    case Decide => s.(pc := DecideNext(s.f))
    case EraseMain(p) =>
      if p < STORAGE then State(EraseSector(s.f, SectorOf(BASE + p)), EraseMain(p + PAGE))
      else s.(pc := Copy(0, ImageSize(s.f, STORAGE)))
    case Copy(i, n) =>
      if i < n then
        if STORAGE + i < SIZE then State(ProgramByte(s.f, i), Copy(i + 1, n)) else s.(pc := Faulted)
      else s.(pc := Verify)
    case Verify =>
      (match Check(s.f, MAIN)
       case Pass => s.(pc := EraseStorage(STORAGE))
       case Fail => s.(pc := Launch)
       case Fault => s.(pc := Faulted))
    case EraseStorage(p) =>
      if p < STORAGE_END then State(EraseSector(s.f, SectorOf(BASE + p)), EraseStorage(p + PAGE))
      else s.(pc := Launch)
    case Launch =>
      (match Check(s.f, MAIN)
       case Pass => s.(pc := Running)
       case Fail => s.(pc := Stopped)
       case Fault => s.(pc := Faulted))
    case Running => s
    case Stopped => s
    case Faulted => s
  }

  /** Byte `i` of storage programmed over byte `i` of main. */
  function ProgramByte(f: memory, i: nat): memory
    requires STORAGE + i < SIZE
  {
    f[MAIN + i := Program(f[MAIN + i], f[STORAGE + i])]
  }

  function Phase(pc: Pc): nat {
    match pc
    case Decide => 6
    case EraseMain(_) => 5
    case Copy(_, _) => 4
    case Verify => 3
    case EraseStorage(_) => 2
    case Launch => 1
    case _ => 0
  }

  function Left(pc: Pc): nat {
    match pc
    case EraseMain(p) => if p < STORAGE then STORAGE - p else 0
    case Copy(i, n) => if i < n then n - i else 0
    case EraseStorage(p) => if p < STORAGE_END then STORAGE_END - p else 0
    case _ => 0
  }

  /** The machine left to itself until it runs the image, stops or faults. */
  function Finish(s: State): (t: State)
    ensures Terminal(t.pc)
    decreases Phase(s.pc), Left(s.pc)
  {
    if Terminal(s.pc) then s else Finish(Next(s))
  }

  /** What one undisturbed boot makes of the flash. */
  function BootOf(f: memory): State { Finish(State(f, Decide)) }
}
