/** The microcontroller's flash: 1 MiB of bytes in twelve sectors, and `flash.c`, which erases and programs it. */
module Flash {
  import opened Bytes

  const BASE := 0x0800_0000
  const SIZE := 0x10_0000
  const PAGE := 0x2_0000   // FLASH_PAGE_SIZE
  const ERASED: byte := 0xFF

  type memory = f: seq<byte> | |f| == SIZE witness seq(SIZE, i => ERASED)

  // ---------------------------------------------------------------- sectors

  const SECTORS := 12

  /** Offset of sector `n` in flash: four of 16 KiB, one of 64 KiB, seven of 128 KiB. */
  function SectorStart(n: nat): nat {
    if n <= 4 then n * 0x4000 else (n - 4) * 0x2_0000
  }

  /** `flash_erasePage`: the sector number computed from an address. */
  function SectorOf(address: nat): nat
    requires BASE <= address
  {
    if address <= 0x0800_FFFF then (address - 0x0800_0000) / (16 * 1024)
    else if address >= 0x0801_0000 && address <= 0x0801_FFFF then 4
    else 5 + (address - 0x0802_0000) / (128 * 1024)
  }

  /** The address arithmetic picks the sector that contains the address. */
  lemma SectorContains(p: nat, n: nat)
    requires p < SIZE
    ensures SectorOf(BASE + p) == n <==> n < SECTORS && SectorStart(n) <= p < SectorStart(n + 1)
  {
    var m := SectorOf(BASE + p);
    assert m < SECTORS && SectorStart(m) <= p < SectorStart(m + 1);
    if n < m {
      SectorsAscend(n + 1, m);
    } else if m < n {
      SectorsAscend(m + 1, n);
    }
  }

  lemma SectorsAscend(m: nat, n: nat)
    requires m <= n
    ensures SectorStart(m) <= SectorStart(n)
  {}

  // ---------------------------------------------------------------- erasing

  predicate InSector(i: nat, n: nat) { SectorStart(n) <= i < SectorStart(n + 1) }

  function EraseSector(f: memory, n: nat): memory {
    seq(SIZE, i requires 0 <= i < SIZE => if InSector(i, n) then ERASED else f[i])
  }

  /** `f` with everything in `[lo, hi)` erased. */
  function Erase(f: memory, lo: nat, hi: nat): memory {
    seq(SIZE, i requires 0 <= i < SIZE => if lo <= i < hi then ERASED else f[i])
  }

  /** The loop both callers run: one erase every 128 KiB from `p`. */
  function StrideErase(f: memory, p: nat, end: nat): memory
    requires end <= SIZE
    decreases end - p
  {
    if p >= end then f else StrideErase(EraseSector(f, SectorOf(BASE + p)), p + PAGE, end)
  }

  /** The sectors that loop erases, in order. */
  function StrideSectors(p: nat, end: nat): seq<nat>
    requires end <= SIZE
    decreases end - p
  {
    if p >= end then [] else [SectorOf(BASE + p)] + StrideSectors(p + PAGE, end)
  }

  /** The sectors from `m` up to but not including `n`. */
  function Consecutive(m: nat, n: nat): seq<nat>
    decreases n - m
  {
    if m >= n then [] else [m] + Consecutive(m + 1, n)
  }

  lemma {:induction false} LargeSectors(p: nat, end: nat, m: nat)
    requires 5 <= m && m * 0x2_0000 - 0x8_0000 <= p < m * 0x2_0000 - 0x8_0000 + PAGE
    requires end % PAGE == 0 && end <= SIZE
    requires p - (m - 4) * PAGE in {0, 0x1_0000}
    ensures StrideSectors(p, end) == Consecutive(m, 4 + end / PAGE)
    decreases end - p
  {
    if p < end {
      SectorContains(p, m);
      LargeSectors(p + PAGE, end, m + 1);
    }
  }

  /**
   * From 0x08010000 up, the fixed 128 KiB stride meets every sector of the region once and no other, although
   * sector 4 is shorter.
   */
  lemma StrideMeetsEachSectorOnce(start: nat, end: nat, m: nat)
    requires 4 <= m <= SECTORS && start == SectorStart(m)
    requires end % PAGE == 0 && start <= end <= SIZE
    ensures StrideSectors(start, end) == Consecutive(m, 4 + end / PAGE)
  {
    if m == 4 {
      SectorContains(start, 4);
      LargeSectors(start + PAGE, end, 5);
    } else {
      LargeSectors(start, end, m);
    }
  }

  lemma EraseGrows(f: memory, n: nat, end: nat)
    requires SectorStart(n) <= SectorStart(n + 1) <= end
    ensures Erase(EraseSector(f, n), SectorStart(n + 1), end) == Erase(f, SectorStart(n), end)
  {}

  lemma NothingErased(f: memory, p: nat)
    ensures Erase(f, p, p) == f
  {}

  lemma EraseMore(f: memory, lo: nat, mid: nat, hi: nat)
    requires lo <= mid <= hi
    ensures Erase(Erase(f, lo, mid), mid, hi) == Erase(f, lo, hi)
  {}

  function EraseSectors(f: memory, ns: seq<nat>): memory
    decreases |ns|
  {
    if ns == [] then f else EraseSectors(EraseSector(f, ns[0]), ns[1..])
  }

  lemma {:induction false} StrideErasesItsSectors(f: memory, p: nat, end: nat)
    requires end <= SIZE
    ensures StrideErase(f, p, end) == EraseSectors(f, StrideSectors(p, end))
    decreases end - p
  {
    if p < end {
      StrideErasesItsSectors(EraseSector(f, SectorOf(BASE + p)), p + PAGE, end);
      assert StrideSectors(p, end)[1..] == StrideSectors(p + PAGE, end);
    }
  }

  lemma {:induction false} ConsecutiveErase(f: memory, m: nat, n: nat)
    requires m <= n <= SECTORS
    ensures EraseSectors(f, Consecutive(m, n)) == Erase(f, SectorStart(m), SectorStart(n))
    decreases n - m
  {
    hide Erase, EraseSector, SectorStart;
    if m < n {
      ConsecutiveErase(EraseSector(f, m), m + 1, n);
      assert Consecutive(m, n)[1..] == Consecutive(m + 1, n);
      SectorsAscend(m, m + 1);
      SectorsAscend(m + 1, n);
      EraseGrows(f, m, SectorStart(n));
    } else {
      NothingErased(f, SectorStart(m));
    }
  }

  /**
   * For a region from a sector boundary to a 128 KiB boundary, the stride erases exactly the region
   * if and only if the region is empty or starts at 0x08010000 or above.
   */
  lemma StrideErasesRegionExactlyWhen(start: nat, end: nat, m: nat)
    requires m <= SECTORS && start == SectorStart(m)
    requires end % PAGE == 0 && end <= SIZE
    ensures (forall f: memory :: StrideErase(f, start, end) == Erase(f, start, end)) <==>
            start >= end || start >= 0x1_0000
  {
    if start >= end {
      forall f: memory ensures StrideErase(f, start, end) == Erase(f, start, end) {
        assert Erase(f, start, end) == f;
      }
    } else if start >= 0x1_0000 {
      assert m >= 4;
      StrideMeetsEachSectorOnce(start, end, m);
      forall f: memory ensures StrideErase(f, start, end) == Erase(f, start, end) {
        StrideErasesItsSectors(f, start, end);
        ConsecutiveErase(f, m, 4 + end / PAGE);
      }
    } else {
      StrideSkipsSmallSectors(m, end);
    }
  }

  lemma {:induction false} StrideLeavesSector4(f: memory, p: nat, end: nat, i: nat)
    requires PAGE <= p && end <= SIZE && 0x1_0000 <= i < 0x2_0000
    ensures StrideErase(f, p, end)[i] == f[i]
    decreases end - p
  {
    if p < end {
      SectorContains(p, SectorOf(BASE + p));
      StrideLeavesSector4(EraseSector(f, SectorOf(BASE + p)), p + PAGE, end, i);
    }
  }

  /** Below, the stride jumps over the rest of the 16 KiB sectors and over sector 4. */
  lemma StrideSkipsSmallSectors(m: nat, end: nat)
    requires m < 4 && end % PAGE == 0 && SectorStart(m) < end <= SIZE
    ensures exists f: memory :: StrideErase(f, SectorStart(m), end) != Erase(f, SectorStart(m), end)
  {
    var f: memory := seq(SIZE, i => 0);
    var p, i := SectorStart(m), 0x1_0000;
    SectorContains(p, m);
    var g := EraseSector(f, m);
    assert g[i] == 0;
    StrideLeavesSector4(g, p + PAGE, end, i);
    assert StrideErase(f, p, end)[i] == 0 && Erase(f, p, end)[i] == ERASED;
  }

  // ---------------------------------------------------------------- programming

  /** Programming can only clear bits. */
  function Program(cell: byte, b: byte): byte { (Bits(cell) & Bits(b)) as int }

  lemma ProgramErased(b: byte)
    ensures Program(ERASED, b) == b
  {
    AndOnes(Bits(ERASED), Bits(b));
  }

  lemma ProgramAgain(b: byte)
    ensures Program(b, b) == b
  {
    AndItself(Bits(b));
  }

  lemma AndItself(x: bv8)
    ensures x & x == x
  {}

  lemma AndOnes(x: bv8, y: bv8)
    requires x as int == 0xFF
    ensures x & y == y
  {}

  lemma ProgramZero(b: byte)
    ensures Program(b, 0) == 0
  {
    AndZero(Bits(b), Bits(0));
  }

  lemma AndZero(x: bv8, y: bv8)
    requires y as int == 0
    ensures (x & y) as int == 0
  {}

  /** `num` bytes programmed from `src` to `dst`, one after the other, starting with byte `i`. */
  function Written(f: memory, dst: nat, src: nat, i: nat, num: nat): memory
    requires dst + num <= SIZE && src + num <= SIZE
    decreases num - i
  {
    if i >= num then f
    else Written(f[dst + i := Program(f[dst + i], f[src + i])], dst, src, i + 1, num)
  }

  /** `flash_erasePage` */
  method ErasePage(flash: array<byte>, address: nat)
    requires flash.Length == SIZE && BASE <= address < BASE + SIZE
    modifies flash
    ensures flash[..] == EraseSector(old(flash[..]), SectorOf(address))
  {
    var sectorNumber: nat;
    if address <= 0x0800_FFFF {
      sectorNumber := (address - 0x0800_0000) / (16 * 1024);
    } else if address >= 0x0801_0000 && address <= 0x0801_FFFF {
      sectorNumber := 4;
    } else {
      sectorNumber := 5 + (address - 0x0802_0000) / (128 * 1024);
    }
    SectorContains(address - BASE, sectorNumber);
    SectorsAscend(sectorNumber + 1, SECTORS);
    forall i | SectorStart(sectorNumber) <= i < SectorStart(sectorNumber + 1) {
      flash[i] := ERASED;
    }
  }

  /** `flash_write` */
  method FlashWrite(flash: array<byte>, dst: nat, src: nat, num: nat)
    requires flash.Length == SIZE && dst + num <= SIZE && src + num <= SIZE
    modifies flash
    ensures flash[..] == Written(old(flash[..]), dst, src, 0, num)
  {
    hide Program;
    var i := 0;
    while i < num
      invariant i <= num
      invariant Written(flash[..], dst, src, i, num) == Written(old(flash[..]), dst, src, 0, num)
    {
      ghost var before := flash[..];
      flash[dst + i] := Program(flash[dst + i], flash[src + i]);
      assert flash[..] == before[dst + i := Program(before[dst + i], before[src + i])];
      i := i + 1;
    }
  }
}
