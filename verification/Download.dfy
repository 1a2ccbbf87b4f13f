/**
 * The running application's side of an update: the storage is erased at start, and file records are programmed
 * into it.
 */
module Download {
  import opened Bytes
  import opened Flash
  import opened Boot
  import opened BootSafety
  import opened BootProgress

  const RECORD := 128

  /** `bytes` programmed from offset `dst` on. */
  function Programmed(f: memory, dst: nat, bytes: seq<byte>): (g: memory)
    requires dst + |bytes| <= SIZE
  {
    seq(SIZE, i requires 0 <= i < SIZE => if dst <= i < dst + |bytes| then Program(f[i], bytes[i - dst]) else f[i])
  }

  /** `flash_write` with a buffer in RAM. */
  method WriteBuffer(flash: array<byte>, dst: nat, bytes: seq<byte>)
    requires flash.Length == SIZE && dst + |bytes| <= SIZE
    modifies flash
    ensures flash[..] == Programmed(old(flash[..]), dst, bytes)
  {
    hide Program;
    for i := 0 to |bytes|
      invariant forall j | 0 <= j < SIZE ::
                flash[j] == if dst <= j < dst + i then Program(old(flash[j]), bytes[j - dst]) else old(flash[j])
    {
      flash[dst + i] := Program(flash[dst + i], bytes[i]);
    }
  }

  /** Whether `eMBFileRecordCB` takes a record. */
  predicate Taken(usFile: word, usRecord: word) { usFile == 1 && usRecord * RECORD < REGION }

  /** A record of `usLen` words written into the storage. */
  function Recorded(f: memory, data: seq<byte>, usFile: word, usRecord: word, usLen: word): memory
    requires usLen <= 64 && 2 * usLen <= |data|
  {
    if !Taken(usFile, usRecord) then f
    else
      RecordFits(usRecord);
      Programmed(f, STORAGE + usRecord * RECORD, data[..2 * usLen])
  }

  /** `eMBFileRecordCB`: at most 64 words, and never a byte outside the storage. */
  method FileRecord(flash: array<byte>, data: seq<byte>, usFile: word, usRecord: word, usLen: word, write: bool)
      returns (ok: bool)
    requires flash.Length == SIZE && usLen <= 64 && 2 * usLen <= |data|
    modifies flash
    ensures ok <==> Taken(usFile, usRecord)
    ensures ok ==> STORAGE + usRecord * RECORD + 2 * usLen <= STORAGE_END
    ensures flash[..] == if write then Recorded(old(flash[..]), data, usFile, usRecord, usLen) else old(flash[..])
    ensures SameOutside(old(flash[..]), flash[..], STORAGE, STORAGE_END)
  {
    hide Program;
    if usFile != 1 {
      return false;
    }
    var offset := usRecord * RECORD;
    if offset >= REGION {
      return false;
    }
    RecordFits(usRecord);
    if write {
      WriteBuffer(flash, STORAGE + offset, data[..2 * usLen]);
    }
    ok := true;
  }

  lemma RecordFits(usRecord: nat)
    requires usRecord * RECORD < REGION
    ensures usRecord * RECORD + RECORD <= REGION
  {}

  // ---------------------------------------------------------------- erasing the storage

  /** Any word of the page that is not erased. */
  method PageUsed(flash: array<byte>, p: nat) returns (used: bool)
    requires flash.Length == SIZE && p + PAGE <= SIZE
    ensures used <==> exists i :: p <= i < p + PAGE && flash[i] != ERASED
  {
    var i := 0;
    used := false;
    while i < PAGE / 4
      invariant i <= PAGE / 4
      invariant forall j | p <= j < p + 4 * i :: flash[j] == ERASED
    {
      var a := p + 4 * i;
      if flash[a] != ERASED || flash[a + 1] != ERASED || flash[a + 2] != ERASED || flash[a + 3] != ERASED {
        return true;
      }
      i := i + 1;
    }
  }

  lemma BlankSector(f: memory, p: nat)
    requires p % PAGE == 0 && PAGE <= p && p + PAGE <= SIZE && forall i | p <= i < p + PAGE :: f[i] == ERASED
    ensures EraseSector(f, SectorOf(BASE + p)) == f
  {
    ErasedPage(f, p);
    assert Erase(f, p, p + PAGE) == f;
  }

  /**
   * `xMBTCPPortInit`: pages that are not blank are erased, which leaves the whole storage erased and nothing
   * else changed.
   */
  method EraseUsedPages(flash: array<byte>)
    requires flash.Length == SIZE
    modifies flash
    ensures flash[..] == Erase(old(flash[..]), STORAGE, STORAGE_END)
    ensures Blank(flash[..], STORAGE, STORAGE_END) && SameOutside(old(flash[..]), flash[..], STORAGE, STORAGE_END)
  {
    var p := STORAGE;
    while p < STORAGE_END
      invariant STORAGE <= p <= STORAGE_END && p % PAGE == 0
      invariant flash[..] == Erase(old(flash[..]), STORAGE, p)
    {
      ghost var f: memory := flash[..];
      var used := PageUsed(flash, p);
      ErasedPage(f, p);
      if used {
        ErasePage(flash, BASE + p);
      } else {
        BlankSector(f, p);
      }
      EraseMore(old(flash[..]), STORAGE, p, p + PAGE);
      p := p + PAGE;
    }
  }

  // ---------------------------------------------------------------- a whole download

  /** What a client sends for an image: whole words, so an odd image gets a byte more. */
  function Padded(image: seq<byte>, pad: byte): (p: seq<byte>)
    ensures |p| % 2 == 0 && |image| <= |p| <= |image| + |image| % 2 && p[..|image|] == image
  {
    if |image| % 2 == 0 then image else image + [pad]
  }

  /** How many records an image takes, the last of which may be shorter. */
  function Records(p: seq<byte>): nat { (|p| + RECORD - 1) / RECORD }

  lemma RecordBounds(p: seq<byte>, k: nat)
    ensures k < Records(p) <==> k * RECORD < |p|
  {}

  /** The data of record k. */
  function Slice(p: seq<byte>, k: nat): (data: seq<byte>)
    requires k * RECORD < |p|
    ensures |data| == (if |p| - k * RECORD < RECORD then |p| - k * RECORD else RECORD)
  {
    if |p| - k * RECORD < RECORD then p[k * RECORD..] else p[k * RECORD..k * RECORD + RECORD]
  }

  lemma SliceIsWords(p: seq<byte>, k: nat)
    requires k * RECORD < |p| && |p| % 2 == 0
    ensures |Slice(p, k)| % 2 == 0
  {
    Halves(|p|, k * RECORD, k * 64);
  }

  lemma Halves(a: int, b: int, h: int)
    requires a % 2 == 0 && b == 2 * h
    ensures (a - b) % 2 == 0
  {}

  /** The flash after the records `ks` of an image have been sent, in this order. */
  function Sent(f: memory, p: seq<byte>, ks: seq<nat>): memory
    requires |p| % 2 == 0 && |p| <= REGION && forall j | 0 <= j < |ks| :: ks[j] < Records(p)
    decreases |ks|
  {
    if ks == [] then f
    else
      var n := |ks| - 1;
      RecordBounds(p, ks[n]);
      var data := Slice(p, ks[n]);
      Recorded(Sent(f, p, ks[..n]), data, 1, ks[n], |data| / 2)
  }

  /** What one record does to a byte of the flash. */
  lemma RecordByte(f: memory, p: seq<byte>, k: nat, i: nat)
    requires |p| % 2 == 0 && |p| <= REGION && k * RECORD < |p| && i < SIZE
    ensures Recorded(f, Slice(p, k), 1, k, |Slice(p, k)| / 2)[i] ==
            if STORAGE <= i < STORAGE + |p| && (i - STORAGE) / RECORD == k then Program(f[i], p[i - STORAGE]) else f[i]
  {
    hide Program;
    SliceIsWords(p, k);
    var data := Slice(p, k);
    assert data[..2 * (|data| / 2)] == data;
    InRecord(i - STORAGE, k);
  }

  lemma InRecord(i: int, k: nat)
    ensures i / RECORD == k <==> k * RECORD <= i < (k + 1) * RECORD
  {}

  lemma ProgramSame(b: byte)
    ensures Program(ERASED, b) == b && Program(b, b) == b
  {
    ProgramErased(b);
    ProgramAgain(b);
  }

  /**
   * A byte of a storage that was erased: its image byte once its record has been sent, however often, and
   * erased until then.
   */
  lemma {:induction false} SentByte(f: memory, p: seq<byte>, ks: seq<nat>, i: nat)
    requires |p| % 2 == 0 && |p| <= REGION && forall j | 0 <= j < |ks| :: ks[j] < Records(p)
    requires i < SIZE && (STORAGE <= i < STORAGE + |p| ==> f[i] == ERASED)
    ensures Sent(f, p, ks)[i] == if STORAGE <= i < STORAGE + |p| &&
            (i - STORAGE) / RECORD in ks then p[i - STORAGE] else f[i]
    decreases |ks|
  {
    hide Program, Recorded, Slice;
    if ks != [] {
      var n := |ks| - 1;
      SentByte(f, p, ks[..n], i);
      RecordBounds(p, ks[n]);
      RecordByte(Sent(f, p, ks[..n]), p, ks[n], i);
      assert ks == ks[..n] + [ks[n]];
      if STORAGE <= i < STORAGE + |p| {
        ProgramSame(p[i - STORAGE]);
      }
    }
  }

  /** Every record of an image, in any order and any number of times, and no other. */
  predicate Complete(p: seq<byte>, ks: seq<nat>) {
    && (forall j | 0 <= j < |ks| :: ks[j] < Records(p))
    && (forall k: nat | k < Records(p) :: k in ks)
  }

  /** The flash of a device that was started, and then sent an image. */
  function Downloaded(f: memory, image: seq<byte>, pad: byte, ks: seq<nat>): memory
    requires |image| <= REGION && Complete(Padded(image, pad), ks)
  {
    Sent(Erase(f, STORAGE, STORAGE_END), Padded(image, pad), ks)
  }

  /**
   * After the erase at start, a downloaded image of any size that fits lies in the storage byte for byte, and
   * nothing else changed.
   */
  lemma DownloadStoresImage(f: memory, image: seq<byte>, pad: byte, ks: seq<nat>)
    requires |image| <= REGION && Complete(Padded(image, pad), ks)
    ensures var g := Downloaded(f, image, pad, ks);
            g[STORAGE..STORAGE + |image|] == image && SameOutside(f, g, STORAGE, STORAGE_END)
  {
    hide Padded, Sent;
    var e, p := Erase(f, STORAGE, STORAGE_END), Padded(image, pad);
    var g := Sent(e, p, ks);
    forall i | 0 <= i < SIZE && !(STORAGE <= i < STORAGE_END) ensures g[i] == f[i] {
      SentByte(e, p, ks, i);
    }
    forall i | 0 <= i < |image| ensures g[STORAGE..STORAGE + |image|][i] == image[i] {
      SentByte(e, p, ks, STORAGE + i);
      RecordOfByte(p, i);
      assert p[..|image|][i] == image[i];
    }
  }

  lemma RecordOfByte(p: seq<byte>, i: nat)
    requires i < |p|
    ensures i / RECORD < Records(p)
  {}

  /**
   * From download to execution: an image sent to a device with a good main image, and valid once it is stored,
   * is what the next start executes, unless main has the same version and CRC.
   */
  lemma DownloadedImageBoots(f: memory, image: seq<byte>, pad: byte, ks: seq<nat>, g: memory)
    requires 28 <= |image| <= REGION && Complete(Padded(image, pad), ks) && g == Downloaded(f, image, pad, ks)
    requires Check(f, MAIN) == Pass && ImageSize(f, MAIN) <= REGION
    requires Check(g, STORAGE) == Pass && ImageSize(g, STORAGE) == |image|
    ensures BootOf(g).pc == Running
    ensures if f[MAIN + 12..MAIN + 24] != image[12..24] || f[MAIN..MAIN + 4] != image[..4] then
              && BootOf(g).f[MAIN..MAIN + |image|] == image
              && BootOf(g).f[MAIN + |image|..STORAGE] == Erase(f, MAIN, STORAGE)[MAIN + |image|..STORAGE]
            else BootOf(g).f == g
  {
    hide Check, ImageSize, HeadersDiffer, BootOf, Downloaded, Upgraded, Complete, Padded;
    DownloadStoresImage(f, image, pad, ks);
    MainCheckKept(f, g);
    UpgradesExactlyWhen(g);
    MainKept(f, g, MAIN + 12, MAIN + 24);
    MainKept(f, g, MAIN, MAIN + 4);
    StoredHeader(g, image);
    UpgradedHolds(f, g, image);
  }

  lemma MainKept(f: memory, g: memory, lo: nat, hi: nat)
    requires SameOutside(f, g, STORAGE, STORAGE_END) && lo <= hi <= STORAGE
    ensures g[lo..hi] == f[lo..hi]
  {}

  lemma StoredHeader(g: memory, image: seq<byte>)
    requires 28 <= |image| <= REGION && g[STORAGE..STORAGE + |image|] == image
    ensures image[12..24] == g[STORAGE + 12..STORAGE + 24] && image[..4] == g[STORAGE..STORAGE + 4]
  {}

  lemma UpgradedHolds(f: memory, g: memory, image: seq<byte>)
    requires |image| <= REGION && g[STORAGE..STORAGE + |image|] == image
    ensures Upgraded(g, |image|)[MAIN..MAIN + |image|] == image
    ensures Upgraded(g, |image|)[MAIN + |image|..STORAGE] == Erase(f, MAIN, STORAGE)[MAIN + |image|..STORAGE]
  {
    var u := Upgraded(g, |image|);
    forall i | 0 <= i < |image| ensures u[MAIN + i] == image[i] {
      assert g[STORAGE + i] == g[STORAGE..STORAGE + |image|][i];
    }
  }
}
