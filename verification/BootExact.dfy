/** Exactly when the device is safe: the size limits of `BootSafety` cannot be raised, each for its own reason. */
module BootExact {
  import opened Bytes
  import opened MessageBytes
  import opened Word32
  import opened Flash
  import opened Crc32
  import opened Crc32Onto
  import opened Boot
  import opened BootSafety
  import opened BootProgress
  import opened BootLimits

  // ---------------------------------------------------------------- reachable states

  /** Some run from a first power-up within the limits ends in `s`. */
  ghost predicate Reach(lim: Limits, s: State) {
    exists run: seq<State> :: RunTo(lim, run, s)
  }

  predicate RunTo(lim: Limits, run: seq<State>, s: State) {
    run != [] && Run(lim, run) && Initial(lim, run[0]) && run[|run| - 1] == s
  }

  ghost predicate Safe(lim: Limits) { forall s | Reach(lim, s) :: OneGood(s.f) }

  lemma ReachFirst(lim: Limits, s: State)
    requires Initial(lim, s)
    ensures Reach(lim, s)
  {
    hide Initial;
    assert RunTo(lim, [s], s);
  }

  lemma ReachStep(lim: Limits, s: State, t: State)
    requires Reach(lim, s) && Transition(lim, s, t)
    ensures Reach(lim, t)
  {
    hide Initial, Transition;
    var run :| RunTo(lim, run, s);
    assert RunTo(lim, run + [t], t);
  }

  lemma {:induction false} ReachAfter(lim: Limits, s: State, n: nat)
    requires Reach(lim, s)
    ensures Reach(lim, After(s, n))
    decreases n
  {
    hide Reach, Next, Interrupted, Downloads;
    if n > 0 {
      ReachStep(lim, s, Next(s));
      ReachAfter(lim, Next(s), n - 1);
    }
  }

  lemma ReachLeads(lim: Limits, s: State, t: State)
    requires Reach(lim, s) && Leads(s, t)
    ensures Reach(lim, t)
  {
    hide Reach, After;
    var n: nat :| After(s, n) == t;
    ReachAfter(lim, s, n);
  }

  lemma WithinIsSafe(lim: Limits)
    requires Within(lim)
    ensures Safe(lim)
  {
    hide Run, Initial, OneGood;
    forall s | Reach(lim, s) ensures OneGood(s.f) {
      var run :| RunTo(lim, run, s);
      CrashSafety(lim, run, |run| - 1);
    }
  }

  // ---------------------------------------------------------------- an image beyond the region

  /** A reachable start with an image one byte too long that is due: the device is lost. */
  lemma DueOverrunIsUnsafe(lim: Limits, f: memory)
    requires Reach(lim, State(f, Decide)) && OneByteTooLong(f) && Due(f)
    ensures !Safe(lim)
  {
    hide Reach, Leads, Due, OneByteTooLong;
    OneByteTooLongBricks(f);
    FinishIsReached(State(f, Decide));
    ReachLeads(lim, State(f, Decide), BootOf(f));
  }

  lemma DifferentVersions(f: memory)
    requires f[MAIN + 12] != f[STORAGE + 12]
    ensures HeadersDiffer(f)
  {
    hide Field;
    FieldTells(f, MAIN + 12, STORAGE + 12);
    assert f[MAIN + 12..MAIN + 16][0] == f[MAIN + 12] && f[STORAGE + 12..STORAGE + 16][0] == f[STORAGE + 12];
  }

  /** A byte that is not `b`. */
  function Other(b: byte): byte { if b == 0 then 1 else 0 }

  /** Storage with a header that makes an image one byte too long of it, of another version than main. */
  function Overlong(f: memory): memory {
    Stamped(f[STORAGE + 12 := Other(f[MAIN + 12])], STORAGE, REGION + 1)
  }

  /** Only the first sector of storage differs, and a good main stays good. */
  lemma OverlongIsDue(f: memory)
    requires Check(f, MAIN) == Pass && MainFits(f, REGION) && f[STORAGE + REGION] == 0
    ensures var g := Overlong(f);
            && SameOutside(f, g, STORAGE, STORAGE + PAGE) && Check(g, MAIN) == Pass
            && OneByteTooLong(g) && Due(g)
  {
    hide Check, ImageSize, Stamped, HeadersDiffer;
    var h := f[STORAGE + 12 := Other(f[MAIN + 12])];
    StampedPasses(h, STORAGE, REGION + 1);
    var g := Overlong(f);
    MainCheckKept(f, g);
    assert g[MAIN + 12] == f[MAIN + 12] && g[STORAGE + 12] == h[STORAGE + 12];
    DifferentVersions(g);
  }

  /**
   * A power cut in the first erase of storage can leave garbage that costs the device both images, although main was
   * verified a moment before.
   */
  lemma GarbageCanLoseTheDevice(s: State)
    requires Inv(s) && s.pc == EraseStorage(STORAGE) && s.f[STORAGE + REGION] == 0
    ensures exists g: memory ::
            SameOutside(s.f, g, STORAGE, STORAGE + PAGE) && Check(g, MAIN) == Pass && !OneGood(BootOf(g).f)
  {
    hide BootOf, Check, ImageSize, Overlong, Due, OneByteTooLong;
    OverlongIsDue(s.f);
    OneByteTooLongBricks(Overlong(s.f));
  }

  // ---------------------------------------------------------------- small first images

  /** Erased flash but for a zero behind the storage. */
  function Plain(): memory { Empty()[STORAGE + REGION := 0] }

  const SMALL := 28

  /** A device whose storage holds the smallest image with a whole header, and main nothing. */
  function StorageOnly(): memory { Stamped(Plain(), STORAGE, SMALL) }

  function MainOnly(n: nat): memory
    requires SMALL <= n <= REGION + 1
  {
    Stamped(Plain(), MAIN, n)
  }

  lemma StorageOnlyIs()
    ensures var f := StorageOnly();
            && Check(f, STORAGE) == Pass && ImageSize(f, STORAGE) == SMALL && Check(f, MAIN) == Fail
            && f[STORAGE + REGION] == 0 && SameOutside(Empty(), f, STORAGE, SIZE)
            && Blank(f, STORAGE + 12, STORAGE + 28)
  {
    hide Stamped, Check, ImageSize;
    StampedPasses(Plain(), STORAGE, SMALL);
    BlankHeaderFails(StorageOnly(), MAIN);
  }

  lemma MainOnlyIs(n: nat)
    requires SMALL <= n <= REGION + 1
    ensures var f := MainOnly(n);
            && Check(f, MAIN) == Pass && ImageSize(f, MAIN) == n && Check(f, STORAGE) == Fail
            && f[STORAGE + REGION] == 0 && f[STORAGE] == ERASED && Blank(f, STORAGE + 8, STORAGE + 12)
  {
    hide Stamped, Check, ImageSize;
    StampedPasses(Plain(), MAIN, n);
    BlankHeaderFails(MainOnly(n), STORAGE);
  }

  /** A good main and no storage image: the application runs. */
  lemma MainOnlyRuns(lim: Limits, n: nat)
    requires SMALL <= n <= REGION + 1 && n <= lim.mainFirst
    ensures Reach(lim, State(MainOnly(n), Running))
  {
    hide Reach, Check, ImageSize, Interrupted, Downloads, MainOnly;
    var f := MainOnly(n);
    MainOnlyIs(n);
    ReachFirst(lim, State(f, Decide));
    ReachStep(lim, State(f, Decide), State(f, Launch));
    ReachStep(lim, State(f, Launch), State(f, Running));
  }

  /** The copied image of such a device, about to be erased from storage. */
  lemma StorageOnlyUpgrades(lim: Limits)
    requires SMALL <= lim.storageFirst
    ensures var c := Copied(StorageOnly(), SMALL);
            && Reach(lim, State(c, EraseStorage(STORAGE))) && Check(c, MAIN) == Pass && MainFits(c, REGION)
            && c[STORAGE + REGION] == 0
  {
    hide Reach, Check, ImageSize, Interrupted, Downloads, StorageOnly, Leads, WithCopy, Copied;
    var f, n := StorageOnly(), SMALL;
    StorageOnlyIs();
    ReachFirst(lim, State(f, Decide));
    ReachStep(lim, State(f, Decide), State(f, EraseMain(MAIN)));
    var e := Erase(f, MAIN, STORAGE);
    EraseMainLeads(f, MAIN);
    ReachLeads(lim, State(f, EraseMain(MAIN)), State(e, EraseMain(STORAGE)));
    StorageCheckKept(f, e);
    ReachStep(lim, State(e, EraseMain(STORAGE)), State(e, Copy(0, n)));
    CopyLeads(e, 0, n, n);
    CopiedIs(f, n);
    var c := Copied(f, n);
    ReachLeads(lim, State(e, Copy(0, n)), State(c, Copy(n, n)));
    ReachStep(lim, State(c, Copy(n, n)), State(c, Verify));
    CopyVerifies(f, n);
    ReachStep(lim, State(c, Verify), State(c, EraseStorage(STORAGE)));
    CopiedMirrors(f, n);
  }

  // ---------------------------------------------------------------- one limit after the other

  lemma StorageFirstLimit(lim: Limits)
    requires lim.storageFirst > REGION
    ensures !Safe(lim)
  {
    hide Reach, Stamped, Check, ImageSize, Safe;
    var f := Stamped(Plain(), STORAGE, REGION + 1);
    StampedPasses(Plain(), STORAGE, REGION + 1);
    BlankHeaderFails(f, MAIN);
    ReachFirst(lim, State(f, Decide));
    DueOverrunIsUnsafe(lim, f);
  }

  lemma StorageCutLimit(lim: Limits)
    requires lim.storageCut > REGION && SMALL <= lim.storageFirst
    ensures !Safe(lim)
  {
    hide Reach, Check, ImageSize, Safe, Next, Downloads, StorageOnly, Copied, Overlong, Due;
    StorageOnlyUpgrades(lim);
    var c := Copied(StorageOnly(), SMALL);
    OverlongIsDue(c);
    var g := Overlong(c);
    ReachStep(lim, State(c, EraseStorage(STORAGE)), State(g, Decide));
    DueOverrunIsUnsafe(lim, g);
  }

  lemma DownloadLimit(lim: Limits)
    requires lim.app && lim.download > REGION && SMALL <= lim.mainFirst
    ensures !Safe(lim)
  {
    hide Reach, Check, ImageSize, Safe, Next, MainOnly, Overlong, Due;
    var f := MainOnly(SMALL);
    MainOnlyIs(SMALL);
    MainOnlyRuns(lim, SMALL);
    OverlongIsDue(f);
    var g := Overlong(f);
    ReachStep(lim, State(f, Running), State(g, Running));
    ReachStep(lim, State(g, Running), State(g, Decide));
    DueOverrunIsUnsafe(lim, g);
  }

  /** An application that runs from an image reaching into the storage overwrites it with its first download. */
  lemma RunningOverlongIsUnsafe(lim: Limits, f: memory)
    requires lim.app && Reach(lim, State(f, Running)) && Check(f, MAIN) == Pass && ImageSize(f, MAIN) == REGION + 1
    requires Check(f[STORAGE := Other(f[STORAGE])], STORAGE) == Fail
    ensures !Safe(lim)
  {
    hide Reach, Check, ImageSize, Next, Interrupted;
    var g := f[STORAGE := Other(f[STORAGE])];
    LastByteFails(f, g);
    ReachStep(lim, State(f, Running), State(g, Running));
    assert !OneGood(State(g, Running).f);
  }

  lemma MainFirstLimit(lim: Limits)
    requires lim.app && lim.mainFirst > REGION
    ensures !Safe(lim)
  {
    hide Reach, Check, ImageSize, Safe, MainOnly;
    var f := MainOnly(REGION + 1);
    MainOnlyIs(REGION + 1);
    MainOnlyRuns(lim, REGION + 1);
    BlankHeaderFails(f[STORAGE := Other(f[STORAGE])], STORAGE);
    RunningOverlongIsUnsafe(lim, f);
  }

  // ---------------------------------------------------------------- garbage in main

  /** `f` with main's header that of storage, but for a size one byte beyond the region. */
  function Twin(f: memory): memory {
    Headed(f, MAIN, REGION + 1)[MAIN := f[STORAGE]][MAIN + 1 := f[STORAGE + 1]][MAIN + 2 := f[STORAGE + 2]]
        [MAIN + 3 := f[STORAGE + 3]]
  }

  /** The word behind the header that gives that image the CRC of the storage image. */
  function TwinWord(f: memory): Word {
    Missing(AfterZeros(), Twin(f)[MAIN + 8..MAIN + 28], Twin(f)[MAIN + 32..MAIN + REGION + 1],
        Not(ValueCrc(f, STORAGE)))
  }

  function Garbage(f: memory): memory { StoreWord(Twin(f), MAIN + 28, TwinWord(f)) }

  lemma GarbageCrc(f: memory)
    ensures ImageCrc(Garbage(f), MAIN, REGION + 1) == ValueCrc(f, STORAGE)
  {
    hide Serial, MessageBits, Not, AfterZeros, Load, Missing, Twin, Octet0, Octet1, Octet2, Octet3;
    var t, g, n := Twin(f), Garbage(f), REGION + 1;
    StoredWord(t, MAIN + 28, TwinWord(f));
    var before, after := t[MAIN + 8..MAIN + 28], t[MAIN + 32..MAIN + n];
    var four := [g[MAIN + 28], g[MAIN + 29], g[MAIN + 30], g[MAIN + 31]];
    assert g[MAIN + 8..MAIN + n] == before + four + after;
    MissingWordReaches(AfterZeros(), before, g[MAIN + 28], g[MAIN + 29], g[MAIN + 30], g[MAIN + 31], after,
        Not(ValueCrc(f, STORAGE)));
    NotTwice(ValueCrc(f, STORAGE));
  }

  lemma NotTwice(w: Word)
    ensures Not(Not(w)) == w
  {}

  /** The version fields of both headers hold the same bytes. */
  predicate SameVersions(f: memory) { Mirrors(f, STORAGE + 12, f, MAIN + 12, 12) }

  lemma TwinIs(f: memory)
    requires SameVersions(f)
    ensures var t := Twin(f);
            && Magic(t, MAIN) == MAGIC && ImageSize(t, MAIN) == REGION + 1 && ValueCrc(t, MAIN) == ValueCrc(f, STORAGE)
            && SameOutside(f, t, MAIN, MAIN + 12)
            && t[MAIN] == f[STORAGE] && t[MAIN + 1] == f[STORAGE + 1] && t[MAIN + 2] == f[STORAGE + 2] &&
                t[MAIN + 3] == f[STORAGE + 3]
  {
    hide Load;
  }

  lemma EqualFields(f: memory, a: nat, b: nat)
    requires a + 4 <= SIZE && b + 4 <= SIZE
    requires f[a] == f[b] && f[a + 1] == f[b + 1] && f[a + 2] == f[b + 2] && f[a + 3] == f[b + 3]
    ensures Field(f, a) == Field(f, b)
  {}

  lemma EqualVersions(f: memory)
    requires SameVersions(f) && Field(f, MAIN) == Field(f, STORAGE)
    ensures !HeadersDiffer(f)
  {
    hide Field;
    EqualFields(f, MAIN + 12, STORAGE + 12);
    EqualFields(f, MAIN + 16, STORAGE + 16);
    EqualFields(f, MAIN + 20, STORAGE + 20);
  }

  lemma GarbageHeader(f: memory)
    requires SameVersions(f)
    ensures var g := Garbage(f);
            && Magic(g, MAIN) == MAGIC && ImageSize(g, MAIN) == REGION + 1 && ValueCrc(g, MAIN) == ValueCrc(f, STORAGE)
            && SameOutside(f, g, MAIN, MAIN + PAGE) && !HeadersDiffer(g)
  {
    hide Load, Octet0, Octet1, Octet2, Octet3, TwinWord, Twin, Magic, ImageSize, ValueCrc, HeadersDiffer, Field;
    var t, g := Twin(f), Garbage(f);
    TwinIs(f);
    MirroredFields(t, MAIN, g, MAIN, 28);
    EqualFields(g, MAIN, STORAGE);
    EqualVersions(g);
  }

  /** Garbage in the first sector of main may look like the storage image, and yet reach into it. */
  lemma GarbagePasses(f: memory)
    requires Check(f, STORAGE) == Pass && SameVersions(f)
    ensures var g := Garbage(f);
            && Check(g, MAIN) == Pass && ImageSize(g, MAIN) == REGION + 1 && Check(g, STORAGE) == Pass
            && SameOutside(f, g, MAIN, MAIN + PAGE) && !HeadersDiffer(g)
  {
    hide Magic, ImageSize, ValueCrc, ImageCrc, Garbage, HeadersDiffer;
    GarbageCrc(f);
    GarbageHeader(f);
    StorageCheckKept(f, Garbage(f));
  }

  /** A storage image with another first byte in its CRC field fails. */
  lemma StorageCrcFails(f: memory, b: byte)
    requires Check(f, STORAGE) == Pass && b != f[STORAGE]
    ensures Check(f[STORAGE := b], STORAGE) == Fail
  {
    hide ImageCrc, Load;
    var g, n := f[STORAGE := b], ImageSize(f, STORAGE);
    SameCrcBehindHeader(f, g, n);
    if Load(f[STORAGE], f[STORAGE + 1], f[STORAGE + 2], f[STORAGE + 3]) ==
        Load(b, f[STORAGE + 1], f[STORAGE + 2], f[STORAGE + 3]) {
      FirstByteTells(f[STORAGE], b, f[STORAGE + 1], f[STORAGE + 2], f[STORAGE + 3]);
    }
  }

  lemma SameCrcBehindHeader(f: memory, g: memory, n: nat)
    requires 8 <= n && STORAGE + n <= SIZE && SameOutside(f, g, STORAGE, STORAGE + 8)
    ensures ImageCrc(g, STORAGE, n) == ImageCrc(f, STORAGE, n)
  {
    hide Serial, MessageBits, Not, Start, AfterZeros;
    assert f[STORAGE + 8..STORAGE + n] == g[STORAGE + 8..STORAGE + n];
  }

  lemma FirstByteTells(b: byte, c: byte, b1: byte, b2: byte, b3: byte)
    requires Load(b, b1, b2, b3) == Load(c, b1, b2, b3)
    ensures b == c
  {
    hide Bits;
    FirstOctetTells(Bits(b), Bits(c), Bits(b1), Bits(b2), Bits(b3));
  }

  lemma FirstOctetTells(u: bv8, v: bv8, x: bv8, y: bv8, z: bv8)
    requires Join(u, x, y, z) == Join(v, x, y, z)
    ensures u == v
  {}

  lemma EmptyVersions(f: memory)
    requires SameOutside(Empty(), f, STORAGE, SIZE) && Blank(f, STORAGE + 12, STORAGE + 28)
    ensures SameVersions(f)
  {}

  lemma MainCutLimit(lim: Limits)
    requires lim.app && lim.mainCut > REGION && SMALL <= lim.storageFirst
    ensures !Safe(lim)
  {
    hide Reach, Check, ImageSize, Safe, StorageOnly, Garbage, HeadersDiffer, Downloads;
    var f := StorageOnly();
    StorageOnlyIs();
    ReachFirst(lim, State(f, Decide));
    ReachStep(lim, State(f, Decide), State(f, EraseMain(MAIN)));
    EmptyVersions(f);
    GarbagePasses(f);
    var g := Garbage(f);
    ReachStep(lim, State(f, EraseMain(MAIN)), State(g, Decide));
    ReachStep(lim, State(g, Decide), State(g, Launch));
    ReachStep(lim, State(g, Launch), State(g, Running));
    StorageCrcFails(g, Other(g[STORAGE]));
    RunningOverlongIsUnsafe(lim, g);
  }

  // ---------------------------------------------------------------- exactly

  /**
   * The device is safe in every run if and only if no storage image that passes is larger than the region, first or
   * left by a cut, and, where an application downloads, no main image and no download either. Without downloads
   * garbage in main is harmless whatever it is.
   */
  lemma SafeExactlyWhen(lim: Limits)
    requires SMALL <= lim.mainFirst && SMALL <= lim.storageFirst
    ensures Safe(lim) <==> Within(lim)
  {
    hide Safe;
    if Within(lim) {
      WithinIsSafe(lim);
    } else if lim.storageFirst > REGION {
      StorageFirstLimit(lim);
    } else if lim.storageCut > REGION {
      StorageCutLimit(lim);
    } else if lim.mainFirst > REGION {
      MainFirstLimit(lim);
    } else if lim.mainCut > REGION {
      MainCutLimit(lim);
    } else {
      DownloadLimit(lim);
    }
  }

  /** With one limit for all images, and any application: the region, and not a byte more. */
  lemma OneLimitExactlyWhen(limit: nat)
    ensures Safe(Limits(limit, limit, limit, limit, true, limit)) <==> limit <= REGION
  {
    hide Safe;
    if limit <= REGION {
      WithinIsSafe(Limits(limit, limit, limit, limit, true, limit));
    } else {
      SafeExactlyWhen(Limits(limit, limit, limit, limit, true, limit));
    }
  }

  /**
   * Without downloads nothing need be known of main: garbage of any size, first or left by a cut, never loses
   * the device.
   */
  lemma AloneSafeExactlyWhen(first: nat, cut: nat, main: nat)
    requires SMALL <= first && SMALL <= main
    ensures Safe(Limits(main, first, main, cut, false, 0)) <==> first <= REGION && cut <= REGION
  {
    hide Safe;
    SafeExactlyWhen(Limits(main, first, main, cut, false, 0));
  }
}
