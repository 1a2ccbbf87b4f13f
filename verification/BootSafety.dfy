/**
 * Crash safety of the firmware update: whatever power cuts and downloads happen, one good image is always there.
 */
module BootSafety {
  import opened Bytes
  import opened MessageBytes
  import opened Word32
  import opened Flash
  import opened Crc32
  import opened Boot

  // ---------------------------------------------------------------- what a check depends on

  predicate SameOutside(f: memory, g: memory, lo: nat, hi: nat) {
    forall i | 0 <= i < SIZE && !(lo <= i < hi) :: g[i] == f[i]
  }

  predicate Blank(f: memory, lo: nat, hi: nat) { forall i | lo <= i < hi && i < SIZE :: f[i] == ERASED }

  /** The first `n` bytes at `b` in `g` are those at `a` in `f`. */
  predicate Mirrors(f: memory, a: nat, g: memory, b: nat, n: nat)
    requires a + n <= SIZE && b + n <= SIZE
  {
    forall i | b <= i < b + n :: g[i] == f[i - b + a]
  }

  lemma MirroredCrc(f: memory, a: nat, g: memory, b: nat, n: nat, m: nat)
    requires a + n <= SIZE && b + n <= SIZE && Mirrors(f, a, g, b, n) && 8 <= m <= n
    ensures ImageCrc(f, a, m) == ImageCrc(g, b, m)
  {
    hide Serial, Start, Not, MessageBits;
    assert f[a + 8..a + m] == g[b + 8..b + m];
  }

  lemma MirroredFields(f: memory, a: nat, g: memory, b: nat, n: nat)
    requires a + n <= SIZE && b + n <= SIZE && Mirrors(f, a, g, b, n) && n >= 12
    requires a + 28 <= SIZE && b + 28 <= SIZE
    ensures Magic(g, b) == Magic(f, a) && ImageSize(g, b) == ImageSize(f, a) && ValueCrc(g, b) == ValueCrc(f, a)
  {
    hide Load;
  }

  /** A check sees the header and the image, nothing else. */
  lemma MirroredCheck(f: memory, a: nat, g: memory, b: nat, n: nat)
    requires a + n <= SIZE && b + n <= SIZE && Mirrors(f, a, g, b, n) && n >= 12
    requires a + 28 <= SIZE && b + 28 <= SIZE
    requires ImageSize(f, a) <= n
    ensures Check(g, b) == Check(f, a)
  {
    hide ImageCrc, Magic, ImageSize, ValueCrc;
    MirroredFields(f, a, g, b, n);
    if ImageSize(f, a) >= 8 {
      MirroredCrc(f, a, g, b, n, ImageSize(f, a));
    }
  }

  /** Nothing below storage can change the verdict on storage. */
  lemma StorageCheckKept(f: memory, g: memory)
    requires SameOutside(f, g, 0, STORAGE)
    ensures Check(g, STORAGE) == Check(f, STORAGE) && ImageSize(g, STORAGE) == ImageSize(f, STORAGE)
  {
    hide ImageCrc, Magic, ImageSize, ValueCrc;
    var n := SIZE - STORAGE;
    MirroredFields(f, STORAGE, g, STORAGE, n);
    if ImageSize(f, STORAGE) <= n {
      MirroredCheck(f, STORAGE, g, STORAGE, n);
    }
  }

  lemma MainCheckKept(f: memory, g: memory)
    requires SameOutside(f, g, STORAGE, SIZE) && ImageSize(f, MAIN) <= REGION
    ensures Check(g, MAIN) == Check(f, MAIN) && ImageSize(g, MAIN) == ImageSize(f, MAIN)
  {
    hide ImageCrc;
    MirroredCheck(f, MAIN, g, MAIN, REGION);
    MirroredFields(f, MAIN, g, MAIN, REGION);
  }

  lemma BlankHeaderFails(f: memory, a: nat)
    requires a + 28 <= SIZE
    requires Blank(f, a + 8, a + 12)
    ensures Check(f, a) == Fail
  {}

  // ---------------------------------------------------------------- sectors of the two regions

  lemma PageSector(p: nat, i: nat)
    requires p % PAGE == 0 && PAGE <= p < SIZE
    ensures InSector(i, SectorOf(BASE + p)) <==> p <= i < p + PAGE
  {}

  lemma ErasedPage(f: memory, p: nat)
    requires p % PAGE == 0 && PAGE <= p < SIZE
    ensures EraseSector(f, SectorOf(BASE + p)) == Erase(f, p, p + PAGE)
  {
    var g := EraseSector(f, SectorOf(BASE + p));
    forall i | 0 <= i < SIZE ensures g[i] == Erase(f, p, p + PAGE)[i] {
      PageSector(p, i);
    }
  }

  // ---------------------------------------------------------------- the invariant

  /** A main image that passes the check is no larger than `limit`. */
  predicate MainFits(f: memory, limit: nat) { Check(f, MAIN) == Pass ==> ImageSize(f, MAIN) <= limit }

  predicate StorageFits(f: memory, limit: nat) { Check(f, STORAGE) == Pass ==> ImageSize(f, STORAGE) <= limit }

  predicate OneGood(f: memory) { Check(f, MAIN) == Pass || Check(f, STORAGE) == Pass }

  /**
   * What the bootloader keeps by itself, whatever main holds: before its last phase it relies on storage, in it
   * on main.
   */
  predicate Inv(s: State) {
    && StorageFits(s.f, REGION)
    && match s.pc
       case EraseMain(p) =>
         Check(s.f, STORAGE) == Pass && MAIN <= p <= STORAGE && p % PAGE == 0 && Blank(s.f, MAIN, p)
       case Copy(i, n) =>
         Check(s.f, STORAGE) == Pass && n == ImageSize(s.f, STORAGE) && i <= n
         && Mirrors(s.f, STORAGE, s.f, MAIN, i) && Blank(s.f, MAIN + i, STORAGE)
       case Verify => Check(s.f, STORAGE) == Pass && MainFits(s.f, REGION)
       case EraseStorage(p) =>
         Check(s.f, MAIN) == Pass && MainFits(s.f, REGION)
         && STORAGE <= p <= STORAGE_END && p % PAGE == 0 && Blank(s.f, STORAGE, p)
       case Running => Check(s.f, MAIN) == Pass
       case _ => OneGood(s.f)
  }

  /** A check of main that passes while the copy is under way can only have found the size being copied. */
  lemma CopyFits(f: memory, i: nat, n: nat)
    requires i <= n <= REGION && n == ImageSize(f, STORAGE)
    requires Mirrors(f, STORAGE, f, MAIN, i)
    requires Blank(f, MAIN + i + 1, STORAGE)
    ensures MainFits(f, REGION)
  {
    hide ImageCrc;
  }

  // ---------------------------------------------------------------- the bootloader's own steps

  lemma EraseMainKeeps(s: State)
    requires Inv(s) && s.pc.EraseMain?
    ensures Inv(Next(s)) && (s.pc.p < STORAGE || MainFits(s.f, REGION) ==> MainFits(Next(s).f, REGION))
  {
    hide Check, ImageSize;
    var p, t := s.pc.p, Next(s);
    if p < STORAGE {
      ErasedPage(s.f, p);
      StorageCheckKept(s.f, t.f);
      BlankHeaderFails(t.f, MAIN);
    }
  }

  lemma CopyKeeps(s: State)
    requires Inv(s) && s.pc.Copy?
    ensures Inv(Next(s)) && MainFits(Next(s).f, REGION)
  {
    hide Check, ImageSize, MainFits;
    var i, n, f, t := s.pc.i, s.pc.n, s.f, Next(s);
    if i < n {
      ProgramErased(f[STORAGE + i]);
      StorageCheckKept(f, t.f);
      CopyFits(t.f, i + 1, n);
    } else {
      CopyFits(f, n, n);
    }
  }

  lemma EraseStorageKeeps(s: State)
    requires Inv(s) && s.pc.EraseStorage?
    ensures Inv(Next(s)) && MainFits(Next(s).f, REGION)
  {
    hide Check, ImageSize;
    var p, t := s.pc.p, Next(s);
    if p < STORAGE_END {
      ErasedPage(s.f, p);
      MainCheckKept(s.f, t.f);
      BlankHeaderFails(t.f, STORAGE);
    }
  }

  /** Every step of the bootloader keeps the invariant, and a main image that fits. */
  lemma NextKeeps(s: State)
    requires Inv(s)
    ensures Inv(Next(s))
    ensures MainFits(s.f, REGION) ==> MainFits(Next(s).f, REGION)
  {
    hide Check, ImageSize;
    match s.pc
    case EraseMain(_) => EraseMainKeeps(s);
    case Copy(_, _) => CopyKeeps(s);
    case EraseStorage(_) => EraseStorageKeeps(s);
    case _ =>
  }

  // ---------------------------------------------------------------- power cuts and downloads

  /**
   * The largest sizes of images that pass the check: at first power-up, in the sector that a power cut leaves half
   * erased, and after a download, if an application that downloads is there at all.
   */
  datatype Limits = Limits(mainFirst: nat, storageFirst: nat, mainCut: nat, storageCut: nat, app: bool, download: nat)

  /** What a power cut in the middle of the next operation may leave behind: anything, up to the limits. */
  predicate Interrupted(lim: Limits, s: State, g: memory) {
    match s.pc
    case EraseMain(p) =>
      if p < STORAGE then SameOutside(s.f, g, p, p + PAGE) && MainFits(g, lim.mainCut) else g == s.f
    case Copy(i, n) =>
      if i < n then SameOutside(s.f, g, MAIN + i, MAIN + i + 1) else g == s.f
    case EraseStorage(p) =>
      if p < STORAGE_END then SameOutside(s.f, g, p, p + PAGE) && StorageFits(g, lim.storageCut) else g == s.f
    case _ => g == s.f
  }

  /** The running application changes the storage region. */
  predicate Downloads(lim: Limits, s: State, t: State) {
    lim.app && s.pc == t.pc == Running && SameOutside(s.f, t.f, STORAGE, STORAGE_END) && StorageFits(t.f, lim.download)
  }

  /** One transition of the device: a step of the bootloader, a power cut and restart, or a download. */
  predicate Transition(lim: Limits, s: State, t: State) {
    t == Next(s) || (t.pc == Decide && Interrupted(lim, s, t.f)) || Downloads(lim, s, t)
  }

  /**
   * The limits under which the device is safe; what main may hold matters only where an application changes the
   * storage.
   */
  predicate Within(lim: Limits) {
    && lim.storageFirst <= REGION && lim.storageCut <= REGION
    && (lim.app ==> lim.mainFirst <= REGION && lim.mainCut <= REGION && lim.download <= REGION)
  }

  predicate Kept(lim: Limits, s: State) { Inv(s) && (lim.app ==> MainFits(s.f, REGION)) }

  lemma CutKeeps(lim: Limits, s: State, g: memory)
    requires Within(lim) && Kept(lim, s) && Interrupted(lim, s, g)
    ensures Kept(lim, State(g, Decide))
  {
    hide Check, ImageSize;
    match s.pc
    case EraseMain(p) =>
      if p < STORAGE {
        StorageCheckKept(s.f, g);
      }
    case Copy(i, n) =>
      if i < n {
        StorageCheckKept(s.f, g);
        CopyFits(g, i, n);
      }
    case EraseStorage(p) =>
      if p < STORAGE_END {
        MainCheckKept(s.f, g);
      }
    case _ =>
  }

  lemma DownloadKeeps(lim: Limits, s: State, t: State)
    requires Within(lim) && Kept(lim, s) && Downloads(lim, s, t)
    ensures Kept(lim, t)
  {
    hide Check, ImageSize;
    MainCheckKept(s.f, t.f);
  }

  lemma TransitionKeeps(lim: Limits, s: State, t: State)
    requires Within(lim) && Kept(lim, s) && Transition(lim, s, t)
    ensures Kept(lim, t)
  {
    hide Inv, Next, Interrupted, Downloads, MainFits;
    if t == Next(s) {
      NextKeeps(s);
    } else if t.pc == Decide && Interrupted(lim, s, t.f) {
      CutKeeps(lim, s, t.f);
    } else {
      DownloadKeeps(lim, s, t);
    }
  }

  // ---------------------------------------------------------------- safety over whole runs

  predicate Run(lim: Limits, run: seq<State>) {
    forall k | 0 < k < |run| :: Transition(lim, run[k - 1], run[k])
  }

  /** First power-up: at least one of the two images is good. */
  predicate Initial(lim: Limits, s: State) {
    s.pc == Decide && OneGood(s.f) && MainFits(s.f, lim.mainFirst) && StorageFits(s.f, lim.storageFirst)
  }

  lemma {:induction false} RunKeeps(lim: Limits, run: seq<State>, k: nat)
    requires Within(lim) && Run(lim, run) && k < |run| && Initial(lim, run[0])
    ensures Kept(lim, run[k])
  {
    if k == 0 {
      hide Check, ImageSize;
    } else {
      RunKeeps(lim, run, k - 1);
      TransitionKeeps(lim, run[k - 1], run[k]);
    }
  }

  lemma InvIsSafe(s: State)
    requires Inv(s)
    ensures OneGood(s.f) && (s.pc == Running ==> Check(s.f, MAIN) == Pass)
  {}

  /**
   * In every state of every run, with a power cut anywhere, one of the two images passes the check;
   * main runs only while it passes; main is changed only while storage passes, storage only while main passes.
   */
  lemma CrashSafety(lim: Limits, run: seq<State>, k: nat)
    requires Within(lim) && Run(lim, run) && k < |run| && Initial(lim, run[0])
    ensures OneGood(run[k].f)
    ensures run[k].pc == Running ==> Check(run[k].f, MAIN) == Pass
    ensures k > 0 && (exists i :: MAIN <= i < STORAGE && run[k].f[i] != run[k - 1].f[i]) ==>
            Check(run[k - 1].f, STORAGE) == Pass
    ensures k > 0 && (exists i :: STORAGE <= i < SIZE && run[k].f[i] != run[k - 1].f[i]) ==>
            Check(run[k - 1].f, MAIN) == Pass
  {
    hide Inv, Transition, Check;
    RunKeeps(lim, run, k);
    InvIsSafe(run[k]);
    if k > 0 {
      RunKeeps(lim, run, k - 1);
      ChangesAreCovered(lim, run[k - 1], run[k]);
    }
  }

  /** No limit is needed for a single transition from a state that the bootloader keeps. */
  lemma ChangesAreCovered(lim: Limits, s: State, t: State)
    requires Inv(s) && Transition(lim, s, t)
    ensures Check(s.f, STORAGE) == Pass || SameOutside(s.f, t.f, STORAGE, SIZE)
    ensures Check(s.f, MAIN) == Pass || SameOutside(s.f, t.f, 0, STORAGE)
    ensures SameOutside(s.f, t.f, MAIN, STORAGE_END)
  {
    hide Check, ImageSize, MainFits;
    match s.pc
    case EraseMain(p) =>
      if p < STORAGE {
        ErasedPage(s.f, p);
      }
    case EraseStorage(p) =>
      if p < STORAGE_END {
        ErasedPage(s.f, p);
      }
    case _ =>
  }
}
