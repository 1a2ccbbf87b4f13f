/** What an undisturbed boot achieves: the upgrade, its fixpoint, and the exact conditions under which it gets there. */
module BootProgress {
  import opened Bytes
  import opened MessageBytes
  import opened Word32
  import opened Flash
  import opened Crc32
  import opened Boot
  import opened BootSafety

  /** `f` with the first `n` bytes of main overwritten by those of storage. */
  function WithCopy(f: memory, n: nat): memory
    requires n <= REGION
  {
    seq(SIZE, i requires 0 <= i < SIZE => if MAIN <= i < MAIN + n then f[i - MAIN + STORAGE] else f[i])
  }

  /** Main holds exactly the storage image, the rest of main is blank. */
  function Copied(f: memory, n: nat): memory
    requires n <= REGION
  {
    WithCopy(Erase(f, MAIN, STORAGE), n)
  }

  /** ... and storage is blank as well. */
  function Upgraded(f: memory, n: nat): memory
    requires n <= REGION
  {
    Erase(Copied(f, n), STORAGE, STORAGE_END)
  }

  /** An upgrade is due: storage is good and main is bad, or both are good and their headers differ. */
  predicate Due(f: memory) {
    Check(f, STORAGE) == Pass && (Check(f, MAIN) == Fail || (Check(f, MAIN) == Pass && HeadersDiffer(f)))
  }

  // ---------------------------------------------------------------- the three loops

  lemma TerminalStays(s: State)
    requires Terminal(s.pc)
    ensures Next(s) == s
  {}

  lemma FinishStep(s: State)
    ensures Finish(Next(s)) == Finish(s)
  {
    hide Next;
    if Terminal(s.pc) {
      TerminalStays(s);
    }
  }

  /** The state `n` steps further on. */
  function After(s: State, n: nat): State
    decreases n
  {
    if n == 0 then s else After(Next(s), n - 1)
  }

  ghost predicate Leads(s: State, t: State) { exists n: nat :: After(s, n) == t }

  lemma LeadsStep(s: State)
    ensures Leads(s, Next(s)) && Leads(s, s)
  {
    hide Next;
    assert After(s, 0) == s;
    assert After(s, 1) == After(Next(s), 0);
  }

  lemma {:induction false} AfterAdds(s: State, m: nat, n: nat)
    ensures After(After(s, m), n) == After(s, m + n)
    decreases m
  {
    hide Next;
    if m > 0 {
      AfterAdds(Next(s), m - 1, n);
    }
  }

  lemma LeadsOn(s: State, t: State, u: State)
    requires Leads(s, t) && Leads(t, u)
    ensures Leads(s, u)
  {
    hide Next, After;
    var m: nat :| After(s, m) == t;
    var n: nat :| After(t, n) == u;
    AfterAdds(s, m, n);
  }

  lemma {:induction false} FinishAfter(s: State, n: nat)
    ensures Finish(After(s, n)) == Finish(s)
    decreases n
  {
    hide Next, Finish;
    if n > 0 {
      FinishStep(s);
      FinishAfter(Next(s), n - 1);
    }
  }

  lemma LeadsFinish(s: State, t: State)
    requires Leads(s, t)
    ensures Finish(s) == Finish(t)
  {
    hide After, Finish;
    var n: nat :| After(s, n) == t;
    FinishAfter(s, n);
  }

  lemma {:induction false} FinishIsReached(s: State)
    ensures Leads(s, Finish(s))
    decreases Phase(s.pc), Left(s.pc)
  {
    hide Leads;
    LeadsStep(s);
    if !Terminal(s.pc) {
      FinishIsReached(Next(s));
      LeadsOn(s, Next(s), Finish(s));
    }
  }

  lemma {:induction false} EraseMainLeads(f: memory, p: nat)
    requires p % PAGE == 0 && MAIN <= p <= STORAGE
    ensures Leads(State(f, EraseMain(p)), State(Erase(f, p, STORAGE), EraseMain(STORAGE)))
    decreases STORAGE - p
  {
    hide Leads, Erase, EraseSector, Check;
    LeadsStep(State(f, EraseMain(p)));
    if p < STORAGE {
      ErasedPage(f, p);
      var g := Erase(f, p, p + PAGE);
      EraseMainLeads(g, p + PAGE);
      EraseMore(f, p, p + PAGE, STORAGE);
      LeadsOn(State(f, EraseMain(p)), State(g, EraseMain(p + PAGE)), State(Erase(f, p, STORAGE), EraseMain(STORAGE)));
    } else {
      NothingErased(f, STORAGE);
    }
  }

  lemma FinishEraseMain(f: memory, p: nat)
    requires p % PAGE == 0 && MAIN <= p <= STORAGE
    ensures Finish(State(f, EraseMain(p))) == Finish(State(Erase(f, p, STORAGE), EraseMain(STORAGE)))
  {
    hide Leads, Erase, Finish;
    EraseMainLeads(f, p);
    LeadsFinish(State(f, EraseMain(p)), State(Erase(f, p, STORAGE), EraseMain(STORAGE)));
  }

  lemma {:induction false} FinishEraseStorage(f: memory, p: nat)
    requires p % PAGE == 0 && STORAGE <= p <= STORAGE_END
    ensures Finish(State(f, EraseStorage(p))) == Finish(State(Erase(f, p, STORAGE_END), Launch))
    decreases STORAGE_END - p
  {
    hide Finish, Erase, EraseSector, Check;
    FinishStep(State(f, EraseStorage(p)));
    if p < STORAGE_END {
      ErasedPage(f, p);
      FinishEraseStorage(Erase(f, p, p + PAGE), p + PAGE);
      EraseMore(f, p, p + PAGE, STORAGE_END);
    } else {
      NothingErased(f, STORAGE_END);
    }
  }

  lemma ProgramsOne(f: memory, i: nat, n: nat)
    requires i < n <= REGION && Blank(f, MAIN + i, STORAGE)
    ensures WithCopy(ProgramByte(f, i), n) == WithCopy(f, n)
    ensures Blank(ProgramByte(f, i), MAIN + i + 1, STORAGE)
    ensures ProgramByte(f, i)[MAIN + i] == f[STORAGE + i]
  {
    ProgramErased(f[STORAGE + i]);
  }

  lemma NothingLeft(f: memory, n: nat)
    requires n <= REGION && Mirrors(f, STORAGE, f, MAIN, n)
    ensures WithCopy(f, n) == f
  {}

  lemma MirrorsMore(f: memory, i: nat)
    requires i < REGION && Mirrors(f, STORAGE, f, MAIN, i) && Blank(f, MAIN + i, STORAGE)
    ensures Mirrors(ProgramByte(f, i), STORAGE, ProgramByte(f, i), MAIN, i + 1)
  {
    ProgramErased(f[STORAGE + i]);
  }

  lemma {:induction false} CopyLeads(f: memory, i: nat, m: nat, n: nat)
    requires i <= m <= n && m <= REGION && Mirrors(f, STORAGE, f, MAIN, i) && Blank(f, MAIN + i, STORAGE)
    ensures Leads(State(f, Copy(i, n)), State(WithCopy(f, m), Copy(m, n)))
    decreases m - i
  {
    hide Leads, WithCopy, ProgramByte, Check, Mirrors, Blank;
    LeadsStep(State(f, Copy(i, n)));
    if i < m {
      var g := ProgramByte(f, i);
      ProgramsOne(f, i, m);
      MirrorsMore(f, i);
      CopyLeads(g, i + 1, m, n);
      LeadsOn(State(f, Copy(i, n)), State(g, Copy(i + 1, n)), State(WithCopy(f, m), Copy(m, n)));
    } else {
      NothingLeft(f, m);
    }
  }

  lemma FinishCopyTo(f: memory, m: nat, n: nat)
    requires m <= n && m <= REGION && Blank(f, MAIN, STORAGE)
    ensures Finish(State(f, Copy(0, n))) == Finish(State(WithCopy(f, m), Copy(m, n)))
  {
    hide Leads, WithCopy, Finish;
    CopyLeads(f, 0, m, n);
    LeadsFinish(State(f, Copy(0, n)), State(WithCopy(f, m), Copy(m, n)));
  }

  lemma FinishCopy(f: memory, n: nat)
    requires n <= REGION && Blank(f, MAIN, STORAGE)
    ensures Finish(State(f, Copy(0, n))) == Finish(State(WithCopy(f, n), Verify))
  {
    hide Finish, WithCopy, ProgramByte, Check;
    FinishCopyTo(f, n, n);
    FinishStep(State(WithCopy(f, n), Copy(n, n)));
  }

  // ---------------------------------------------------------------- one whole boot

  lemma CopiedMirrors(f: memory, n: nat)
    requires n <= REGION
    ensures Mirrors(f, STORAGE, Copied(f, n), MAIN, n)
    ensures SameOutside(f, Copied(f, n), MAIN, STORAGE)
    ensures Blank(Copied(f, n), MAIN + n, STORAGE)
  {}

  /** The copy passes the check as soon as it contains the magic number. */
  lemma CopyVerifies(f: memory, n: nat)
    requires Check(f, STORAGE) == Pass && n == ImageSize(f, STORAGE) && n <= REGION
    ensures Check(Copied(f, n), MAIN) == (if n >= 12 then Pass else Fail)
    ensures n >= 12 ==> ImageSize(Copied(f, n), MAIN) == n
  {
    hide ImageCrc, ValueCrc, Copied;
    CopiedMirrors(f, n);
    var g := Copied(f, n);
    if n >= 12 {
      MirroredCheck(f, STORAGE, g, MAIN, n);
      MirroredFields(f, STORAGE, g, MAIN, n);
    } else {
      assert g[MAIN + 11] == ERASED;
    }
  }

  lemma CopiedIs(f: memory, n: nat)
    requires n <= REGION
    ensures Copied(f, n) == WithCopy(Erase(f, MAIN, STORAGE), n)
    ensures Upgraded(f, n) == Erase(Copied(f, n), STORAGE, STORAGE_END)
  {}

  lemma FinishUpgrade(f: memory, n: nat)
    requires Check(f, STORAGE) == Pass && n == ImageSize(f, STORAGE) && n <= REGION
    ensures Finish(State(f, EraseMain(MAIN))) ==
            if n >= 12 then State(Upgraded(f, n), Running) else State(Copied(f, n), Stopped)
    ensures n >= 12 ==> Check(Upgraded(f, n), MAIN) == Pass && Check(Upgraded(f, n), STORAGE) == Fail
  {
    hide Finish, Check, ImageSize, Copied, Upgraded;
    var e := Erase(f, MAIN, STORAGE);
    FinishEraseMain(f, MAIN);
    FinishStep(State(e, EraseMain(STORAGE)));
    StorageCheckKept(f, e);
    FinishCopy(e, n);
    var c := Copied(f, n);
    CopiedIs(f, n);
    CopyVerifies(f, n);
    FinishStep(State(c, Verify));
    if n >= 12 {
      FinishEraseStorage(c, STORAGE);
      var u := Upgraded(f, n);
      MainCheckKept(c, u);
      BlankHeaderFails(u, STORAGE);
      FinishLaunch(u);
    } else {
      FinishLaunch(c);
    }
  }

  lemma FinishLaunch(f: memory)
    ensures Finish(State(f, Launch)) ==
            State(f, match Check(f, MAIN) case Pass => Running case Fail => Stopped case Fault => Faulted)
  {
    hide Check, Finish;
    FinishStep(State(f, Launch));
    Final(Next(State(f, Launch)));
  }

  lemma Final(s: State)
    requires Terminal(s.pc)
    ensures Finish(s) == s
  {}

  /** The outcome of an undisturbed boot, for every content of the flash whose storage image, if due, fits. */
  lemma BootOutcome(f: memory)
    requires Due(f) ==> ImageSize(f, STORAGE) <= REGION
    ensures BootOf(f) ==
            if Check(f, STORAGE) == Fault ||
                (Check(f, STORAGE) == Pass && Check(f, MAIN) == Fault) then State(f, Faulted)
            else if Due(f) then
              var n := ImageSize(f, STORAGE);
              if n >= 12 then State(Upgraded(f, n), Running) else State(Copied(f, n), Stopped)
            else State(f, match Check(f, MAIN) case Pass => Running case Fail => Stopped case Fault => Faulted)
    ensures BootOf(f).pc == Running ==> Check(BootOf(f).f, MAIN) == Pass
  {
    hide Finish, Check, ImageSize, Copied, Upgraded, HeadersDiffer;
    FinishStep(State(f, Decide));
    if Check(f, STORAGE) == Fault || (Check(f, STORAGE) == Pass && Check(f, MAIN) == Fault) {
      Final(State(f, Faulted));
    } else if Due(f) {
      FinishUpgrade(f, ImageSize(f, STORAGE));
    } else {
      FinishLaunch(f);
    }
  }

  /**
   * With a storage image that passes and fits, a start copies it over main and executes it exactly when main does not
   * pass, or one of the twelve bytes of the versions differs, or one of the four of the CRC; otherwise it changes
   * nothing and executes main.
   */
  lemma UpgradesExactlyWhen(f: memory)
    requires Check(f, STORAGE) == Pass && 12 <= ImageSize(f, STORAGE) <= REGION && Check(f, MAIN) != Fault
    ensures var u := State(Upgraded(f, ImageSize(f, STORAGE)), Running);
            && (BootOf(f) == u <==>
                || Check(f, MAIN) == Fail
                || f[MAIN + 12..MAIN + 24] != f[STORAGE + 12..STORAGE + 24]
                || f[MAIN..MAIN + 4] != f[STORAGE..STORAGE + 4])
            && (BootOf(f) != u ==> BootOf(f) == State(f, Running))
  {
    hide Finish, BootOf, Check, ImageSize, Upgraded, HeadersDiffer;
    BootOutcome(f);
    HeadersDifferInBytes(f);
    FinishUpgrade(f, ImageSize(f, STORAGE));
  }

  /**
   * A device with one good image boots into an image exactly when neither header faults the check and a due
   * image has its magic number inside.
   */
  lemma BootsExactlyWhen(f: memory)
    requires OneGood(f) && (Due(f) ==> ImageSize(f, STORAGE) <= REGION)
    ensures BootOf(f).pc == Running <==>
            && Check(f, STORAGE) != Fault
            && !(Check(f, STORAGE) == Pass && Check(f, MAIN) == Fault)
            && (Due(f) ==> ImageSize(f, STORAGE) >= 12)
  {
    hide Finish, BootOf, Check, ImageSize, Copied, Upgraded, HeadersDiffer;
    BootOutcome(f);
  }

  // ---------------------------------------------------------------- fixpoint

  lemma EqualHeaders(f: memory, n: nat)
    requires 24 <= n <= REGION && Mirrors(f, STORAGE, f, MAIN, n)
    ensures !HeadersDiffer(f)
  {}

  /** Once main holds the storage image, further boots change nothing, erased storage or not. */
  lemma UpgradeIsFixpoint(f: memory)
    requires Check(f, STORAGE) == Pass && 24 <= ImageSize(f, STORAGE) <= REGION
    requires Mirrors(f, STORAGE, f, MAIN, ImageSize(f, STORAGE))
    ensures BootOf(f) == State(f, Running)
  {
    hide Finish, BootOf, Check, ImageSize, Copied, Upgraded, HeadersDiffer;
    var n := ImageSize(f, STORAGE);
    MirroredCheck(f, STORAGE, f, MAIN, n);
    EqualHeaders(f, n);
    BootOutcome(f);
  }

  lemma UpgradedIsFixpoint(f: memory)
    requires Due(f) && 12 <= ImageSize(f, STORAGE) <= REGION
    ensures BootOf(BootOf(f).f) == BootOf(f)
  {
    hide Finish, BootOf, Check, ImageSize, Copied, Upgraded, HeadersDiffer;
    var n := ImageSize(f, STORAGE);
    BootOutcome(f);
    FinishUpgrade(f, n);
    BootOutcome(Upgraded(f, n));
  }

  /** After any undisturbed boot whose image, if due, fits, a second one changes no byte and ends the same way. */
  lemma SecondBootChangesNothing(f: memory)
    requires Due(f) ==> 12 <= ImageSize(f, STORAGE) <= REGION
    ensures BootOf(BootOf(f).f) == BootOf(f)
  {
    hide Finish, BootOf, Check, ImageSize, Copied, Upgraded, HeadersDiffer;
    BootOutcome(f);
    if Due(f) {
      UpgradedIsFixpoint(f);
    }
  }

  /**
   * Wherever a run is cut, and whatever the cut leaves of a sector, the restart boots exactly under those
   * conditions.
   */
  lemma EveryRestartBootsExactlyWhen(lim: Limits, run: seq<State>, k: nat, cut: Limits, g: memory)
    requires Within(lim) && Run(lim, run) && k < |run| && Initial(lim, run[0]) && Interrupted(cut, run[k], g)
    requires Due(g) ==> ImageSize(g, STORAGE) <= REGION
    ensures BootOf(g).pc == Running <==>
            && Check(g, STORAGE) != Fault
            && !(Check(g, STORAGE) == Pass && Check(g, MAIN) == Fault)
            && (Due(g) ==> ImageSize(g, STORAGE) >= 12)
  {
    hide Finish, BootOf, Check, ImageSize, HeadersDiffer, Inv;
    RunKeeps(lim, run, k);
    CutLeavesOneGood(cut, run[k], g);
    BootsExactlyWhen(g);
  }

  /** Garbage of any size in the sector that was being erased leaves the other image good. */
  lemma CutLeavesOneGood(cut: Limits, s: State, g: memory)
    requires Inv(s) && Interrupted(cut, s, g)
    ensures OneGood(g)
  {
    hide Check, ImageSize;
    if s.pc.EraseStorage? {
      if s.pc.p < STORAGE_END {
        MainCheckKept(s.f, g);
      }
    } else if s.pc.EraseMain? || s.pc.Copy? {
      StorageCheckKept(s.f, g);
    }
  }

  // ---------------------------------------------------------------- where it does not get there

  /** A storage header with the magic number and an absurd size stops the boot, however good main is. */
  lemma AbsurdSizeFaults(f: memory)
    requires Magic(f, STORAGE) == MAGIC && ImageSize(f, STORAGE) > SIZE - STORAGE
    ensures BootOf(f) == State(f, Faulted)
  {
    hide Finish, Copied, Upgraded, HeadersDiffer;
    BootOutcome(f);
  }

  /**
   * Such a header is one of the things a power cut can leave when it hits the erase of storage that ends an
   * upgrade.
   */
  lemma CutCanStopTheDevice(lim: Limits, s: State)
    requires Inv(s) && s.pc == EraseStorage(STORAGE) && Check(s.f, STORAGE) == Pass
    ensures exists g: memory :: Interrupted(lim, s, g) && Check(g, MAIN) == Pass && BootOf(g) == State(g, Faulted)
  {
    hide Finish, BootOf, ImageCrc;
    var f := s.f;
    var g: memory := f[STORAGE + 4 := 0xFF][STORAGE + 5 := 0xFF][STORAGE + 6 := 0xFF][STORAGE + 7 := 0xFF];
    assert Magic(g, STORAGE) == MAGIC && ImageSize(g, STORAGE) == 0xFFFF_FFFF;
    MainCheckKept(f, g);
    AbsurdSizeFaults(g);
    assert Interrupted(lim, s, g);
  }

  /** An image of 8 to 11 bytes that passes in storage is copied at every boot and never verifies. */
  lemma TinyImageNeverUpgrades(f: memory)
    requires Due(f) && 8 <= ImageSize(f, STORAGE) < 12
    ensures BootOf(f).pc == Stopped && BootOf(f).f == Copied(f, ImageSize(f, STORAGE))
  {
    hide Finish, BootOf, Check, ImageSize, Copied, Upgraded, HeadersDiffer;
    BootOutcome(f);
  }
}
