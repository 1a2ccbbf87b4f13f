/** `main` of the bootloader as the source writes it, loop by loop over the flash, refining the machine. */
module BootMain {
  import opened Bytes
  import opened Flash
  import opened Crc32
  import opened Boot
  import opened BootSafety
  import opened BootProgress

  lemma {:induction false} FinishWritten(f: memory, i: nat, n: nat)
    requires i <= n && STORAGE + n <= SIZE
    ensures Finish(State(f, Copy(i, n))) == Finish(State(Written(f, MAIN, STORAGE, i, n), Verify))
    decreases n - i
  {
    hide Finish, Program, Check;
    FinishStep(State(f, Copy(i, n)));
    if i < n {
      FinishWritten(ProgramByte(f, i), i + 1, n);
    }
  }

  lemma PassingImageFits(f: memory, a: nat)
    requires a + 28 <= SIZE && Check(f, a) == Pass
    ensures a + ImageSize(f, a) <= SIZE
  {}

  lemma {:induction false} StorageSizeKept(f: memory, p: nat)
    requires p % PAGE == 0 && MAIN <= p < STORAGE
    ensures var g := EraseSector(f, SectorOf(BASE + p));
            ImageSize(g, STORAGE) == ImageSize(f, STORAGE) && Check(g, STORAGE) == Check(f, STORAGE)
  {
    hide Check, ImageSize;
    ErasedPage(f, p);
    StorageCheckKept(f, EraseSector(f, SectorOf(BASE + p)));
  }

  /** The decision at power-up. */
  method Choose(flash: array<byte>, unit: CrcUnit) returns (next: Pc)
    requires flash.Length == SIZE
    modifies unit
    ensures next == DecideNext(flash[..])
    ensures var f: memory := flash[..];
            next == EraseMain(MAIN) <==>
              && Check(f, STORAGE) == Pass && Check(f, MAIN) != Fault
              && (|| Check(f, MAIN) == Fail
                  || f[MAIN + 12..MAIN + 24] != f[STORAGE + 12..STORAGE + 24]
                  || f[MAIN..MAIN + 4] != f[STORAGE..STORAGE + 4])
  {
    hide Check, HeadersDiffer;
    HeadersDifferInBytes(flash[..]);
    var upgrade := false;
    var v := CheckProgram(unit, flash, STORAGE);
    if v == Fault {
      return Faulted;
    }
    if v == Pass {
      v := CheckProgram(unit, flash, MAIN);
      if v == Fault {
        return Faulted;
      }
      if v == Pass {
        if HeadersDiffer(flash[..]) {
          upgrade := true;
        }
      } else {
        upgrade := true;
      }
    }
    next := if upgrade then EraseMain(MAIN) else Launch;
  }

  method EraseMainRegion(flash: array<byte>)
    requires flash.Length == SIZE && Check(flash[..], STORAGE) == Pass
    modifies flash
    ensures Finish(State(flash[..], Copy(0, ImageSize(flash[..], STORAGE)))) ==
            Finish(State(old(flash[..]), EraseMain(MAIN)))
    ensures Check(flash[..], STORAGE) == Pass
  {
    hide Finish, Check, EraseSector, ImageSize;
    ghost var goal := Finish(State(flash[..], EraseMain(MAIN)));
    var p := MAIN;
    while p < STORAGE
      invariant MAIN <= p <= STORAGE && p % PAGE == 0
      invariant Finish(State(flash[..], EraseMain(p))) == goal
      invariant Check(flash[..], STORAGE) == Pass
    {
      FinishStep(State(flash[..], EraseMain(p)));
      StorageSizeKept(flash[..], p);
      ErasePage(flash, BASE + p);
      p := p + PAGE;
    }
    FinishStep(State(flash[..], EraseMain(p)));
  }

  method EraseStorageRegion(flash: array<byte>)
    requires flash.Length == SIZE
    modifies flash
    ensures Finish(State(flash[..], Launch)) == Finish(State(old(flash[..]), EraseStorage(STORAGE)))
  {
    hide Finish, Check, EraseSector;
    ghost var goal := Finish(State(flash[..], EraseStorage(STORAGE)));
    var p := STORAGE;
    while p < STORAGE_END
      invariant STORAGE <= p <= STORAGE_END && p % PAGE == 0
      invariant Finish(State(flash[..], EraseStorage(p))) == goal
    {
      FinishStep(State(flash[..], EraseStorage(p)));
      ErasePage(flash, BASE + p);
      p := p + PAGE;
    }
    FinishStep(State(flash[..], EraseStorage(p)));
  }

  /** `main`: its effect on the flash and its outcome are those of the machine. */
  method Bootloader(flash: array<byte>, unit: CrcUnit) returns (outcome: Pc)
    requires flash.Length == SIZE
    modifies flash, unit
    ensures State(flash[..], outcome) == BootOf(old(flash[..]))
  {
    hide Finish, Check, EraseSector, Written, ImageSize, HeadersDiffer;
    ghost var f0: memory := flash[..];
    FinishStep(State(f0, Decide));
    var next := Choose(flash, unit);
    if next == Faulted {
      Final(State(f0, Faulted));
      return Faulted;
    }
    if next == EraseMain(MAIN) {
      EraseMainRegion(flash);
      var size := ImageSize(flash[..], STORAGE);
      PassingImageFits(flash[..], STORAGE);
      FinishWritten(flash[..], 0, size);
      FlashWrite(flash, MAIN, STORAGE, size);
      FinishStep(State(flash[..], Verify));
      var v := CheckProgram(unit, flash, MAIN);
      if v == Fault {
        Final(State(flash[..], Faulted));
        return Faulted;
      }
      if v == Pass {
        EraseStorageRegion(flash);
      }
    }
    FinishLaunch(flash[..]);
    var v := CheckProgram(unit, flash, MAIN);
    outcome := match v case Pass => Running case Fail => Stopped case Fault => Faulted;
  }
}
