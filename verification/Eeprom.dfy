/** `Eep24AA` over a 24AA08: 1024 bytes in pages of 16, where a page write wraps around inside its page. */
module Eeprom {
  import opened Bytes
  import opened Division

  const SIZE := 1024
  const BYTES_IN_PAGE := 256    // as the driver calls the blocks that the control byte selects
  const BYTES_IN_BLOCK := 16    // as it calls the pages that are written at once

  type Memory = m: seq<byte> | |m| == SIZE witness seq(SIZE, i => 0)

  // ---------------------------------------------------------------- the device

  /** One write cycle: the address counter wraps around inside the page of 16 bytes. */
  function PageWrite(m: Memory, adr: nat, data: seq<byte>): (n: Memory)
    requires adr < SIZE
    decreases |data|
  {
    if data == [] then m
    else
      var next := if adr % 16 == 15 then adr - 15 else adr + 1;
      PageWrite(m[adr := data[0]], next, data[1..])
  }

  /** The copy a caller expects: byte after byte, around the end of the memory. */
  function Put(m: Memory, dst: nat, data: seq<byte>): (n: Memory)
    decreases |data|
  {
    if data == [] then m else Put(m[dst % SIZE := data[0]], dst + 1, data[1..])
  }

  /** A write that stays in its page is the plain copy. */
  lemma {:induction false} PageWriteIsPut(m: Memory, adr: nat, data: seq<byte>)
    requires adr < SIZE && adr % 16 + |data| <= 16
    ensures PageWrite(m, adr, data) == Put(m, adr, data)
    decreases |data|
  {
    if |data| == 1 {
      assert data[1..] == [];
    } else if data != [] {
      PageWriteIsPut(m[adr := data[0]], adr + 1, data[1..]);
    }
  }

  lemma NextModulo(d: nat)
    ensures (d % SIZE + 1) % SIZE == (d + 1) % SIZE
  {}

  lemma {:induction false} PutModulo(m: Memory, dst: nat, data: seq<byte>)
    ensures Put(m, dst, data) == Put(m, dst % SIZE, data)
    decreases |data|
  {
    if data != [] {
      var n := m[dst % SIZE := data[0]];
      NextModulo(dst);
      PutModulo(n, dst + 1, data[1..]);
      PutModulo(n, dst % SIZE + 1, data[1..]);
    }
  }

  /** Copies compose. */
  lemma {:induction false} PutAppend(m: Memory, dst: nat, a: seq<byte>, b: seq<byte>)
    ensures Put(m, dst, a + b) == Put(Put(m, dst, a), dst + |a|, b)
    decreases |a|
  {
    if a == [] {
      assert a + b == b;
    } else {
      assert (a + b)[1..] == a[1..] + b;
      PutAppend(m[dst % SIZE := a[0]], dst + 1, a[1..], b);
    }
  }

  lemma {:induction false} PutAt(m: Memory, dst: nat, data: seq<byte>, i: nat)
    requires dst + |data| <= SIZE && i < SIZE
    ensures Put(m, dst, data)[i] == if dst <= i < dst + |data| then data[i - dst] else m[i]
    decreases |data|
  {
    if data != [] {
      PutAt(m[dst := data[0]], dst + 1, data[1..], i);
    }
  }

  /** Inside the memory, the copy is exactly a splice. */
  lemma PutIsSplice(m: Memory, dst: nat, data: seq<byte>)
    requires dst + |data| <= SIZE
    ensures Put(m, dst, data) == m[..dst] + data + m[dst + |data|..]
  {
    hide Put;
    forall i | 0 <= i < SIZE ensures Put(m, dst, data)[i] == (m[..dst] + data + m[dst + |data|..])[i] {
      PutAt(m, dst, data, i);
    }
  }

  /** The memory on its bus. Which transfers the bus lets fail is unknown, but fixed. */
  class Device {
    const faults: nat -> bool
    var transfers: nat
    var mem: Memory
    var pointer: byte

    constructor (mem: Memory, faults: nat -> bool)
      ensures this.mem == mem && this.faults == faults && transfers == 0
    {
      this.mem, this.faults, transfers, pointer := mem, faults, 0, 0;
    }

    /** None of the `n` transfers from number `t` on fails. */
    predicate Clear(t: nat, n: nat)
      decreases n
    {
      n == 0 || (!faults(t) && Clear(t + 1, n - 1))
    }

    /** How many of them take place when the first failure is the last one. */
    function Taken(t: nat, n: nat): nat
      decreases n
    {
      if n == 0 then 0 else if faults(t) then 1 else 1 + Taken(t + 1, n - 1)
    }

    lemma {:induction false} ClearSplits(t: nat, m: nat, n: nat)
      ensures Clear(t, m + n) <==> Clear(t, m) && Clear(t + m, n)
      decreases m
    {
      if m > 0 {
        ClearSplits(t + 1, m - 1, n);
      }
    }

    lemma {:induction false} ClearTakesAll(t: nat, n: nat)
      requires Clear(t, n)
      ensures Taken(t, n) == n
      decreases n
    {
      if n > 0 {
        ClearTakesAll(t + 1, n - 1);
      }
    }

    /** A bus write of a word address and data. When it fails, callers may not count on what the page holds. */
    method I2cWrite(blockSelect: nat, buffer: seq<byte>) returns (ok: bool)
      requires blockSelect < 8 && buffer != []
      modifies this
      ensures transfers == old(transfers) + 1 && ok == !faults(old(transfers))
      ensures ok ==> mem == PageWrite(old(mem), blockSelect % 4 * 256 + buffer[0], buffer[1..])
      ensures ok && |buffer| == 1 ==> pointer == buffer[0]
      ensures !ok ==> forall i | 0 <= i < SIZE && i / 16 != (blockSelect % 4 * 256 + buffer[0]) / 16 ::
              mem[i] == old(mem)[i]
      ensures !ok && |buffer| == 1 ==> mem == old(mem)
    {
      ok := !faults(transfers);
      transfers := transfers + 1;
      if ok {
        mem := PageWrite(mem, blockSelect % 4 * 256 + buffer[0], buffer[1..]);
        pointer := buffer[0];
      }
    }

    /** A sequential read from the address written last, around the end of the memory. */
    method I2cRead(blockSelect: nat, len: nat) returns (ok: bool, data: seq<byte>)
      requires blockSelect < 8
      modifies this`transfers, this`pointer
      ensures transfers == old(transfers) + 1 && ok == !faults(old(transfers))
      ensures ok ==> data == Get(mem, blockSelect % 4 * 256 + old(pointer), len)
    {
      ok := !faults(transfers);
      transfers := transfers + 1;
      data := if ok then Get(mem, blockSelect % 4 * 256 + pointer, len) else [];
      if ok {
        pointer := (pointer + len) % 256;
      }
    }
  }

  function Get(m: Memory, src: nat, len: nat): seq<byte> { seq(len, i requires 0 <= i < len => m[(src + i) % SIZE]) }

  // ---------------------------------------------------------------- the driver

  lemma RoomInPage(dst: nat)
    ensures (BYTES_IN_PAGE - dst % BYTES_IN_PAGE) % BYTES_IN_BLOCK == if dst % 16 == 0 then 0 else 16 - dst % 16
  {
    var q, r := dst % 256 / 16, dst % 256 % 16;
    QuotientIs(dst, 16, 16 * (dst / 256) + q, r);
    QuotientIs(256 - dst % 256, 16, if r == 0 then 16 - q else 15 - q, if r == 0 then 0 else 16 - r);
  }

  /** Bytes that fit into the page of `dst`. */
  function CanWrite(dst: nat): (n: nat)
    ensures 1 <= n <= BYTES_IN_BLOCK && dst % 16 + n == 16
  {
    RoomInPage(dst);
    var adrInBlock := dst % BYTES_IN_PAGE;
    var n := (BYTES_IN_PAGE - adrInBlock) % BYTES_IN_BLOCK;
    if n == 0 then BYTES_IN_BLOCK else n
  }

  /** No chunk crosses a page. */
  lemma ChunkIsPut(m: Memory, dst: nat, chunk: seq<byte>)
    requires |chunk| <= CanWrite(dst)
    ensures PageWrite(m, dst / BYTES_IN_PAGE % 8 % 4 * 256 + dst % BYTES_IN_PAGE, chunk) == Put(m, dst, chunk)
  {
    hide Put, PageWrite;
    BlockAddress(dst);
    PageWriteIsPut(m, dst % SIZE, chunk);
    PutModulo(m, dst, chunk);
  }

  /** Control byte and word address together name the byte. */
  lemma BlockAddress(dst: nat)
    ensures dst / BYTES_IN_PAGE % 8 % 4 * 256 + dst % BYTES_IN_PAGE == dst % SIZE
    ensures dst % SIZE % 16 == dst % 16
  {
    var q, r := dst / SIZE, dst % SIZE;
    QuotientIs(dst, 256, 4 * q + r / 256, r % 256);
    EightFour(dst / 256);
    QuotientIs(4 * q + r / 256, 4, q, r / 256);
    QuotientIs(dst, 16, 64 * q + r / 16, r % 16);
  }

  lemma EightFour(x: nat)
    ensures x % 8 % 4 == x % 4
  {}

  /** The pages a copy inside the memory touches. */
  predicate Apart(dst: nat, len: nat, i: nat) { i < dst / 16 * 16 || i >= (dst + len + 15) / 16 * 16 }

  /** How many pages, and so bus transfers, a copy takes. */
  function Pages(dst: nat, len: nat): nat { if len == 0 then 0 else (dst % 16 + len + 15) / 16 }

  lemma OnePageLess(dst: nat, len: nat, n: nat)
    requires 0 < len && n == if len <= 16 - dst % 16 then len else 16 - dst % 16
    ensures Pages(dst, len) == 1 + Pages(dst + n, len - n)
  {}

  /** `Eep24AA::write`: the chunks make up one copy; a bus error leaves every other page alone. */
  method Write(eep: Device, dst: nat, src: seq<byte>) returns (ok: bool)
    requires dst + |src| < 0x1_0000
    modifies eep
    ensures ok <==> src != [] && eep.Clear(old(eep.transfers), Pages(dst, |src|))
    ensures eep.transfers == old(eep.transfers) + eep.Taken(old(eep.transfers), Pages(dst, |src|))
    ensures ok ==> eep.mem == Put(old(eep.mem), dst, src)
    ensures !ok && dst + |src| <= SIZE ==> forall i | 0 <= i < SIZE && Apart(dst, |src|, i) ::
            eep.mem[i] == old(eep.mem)[i]
  {
    hide Put, PageWrite, CanWrite, Pages;
    NoPages(dst);
    if src == [] {
      return false;
    }
    var len, to, from := |src|, dst, 0;
    ghost var t, all := eep.transfers, Pages(dst, len);
    PutNothing(eep.mem, dst);
    while len > 0
      invariant from <= |src| && len == |src| - from && to == dst + from
      invariant eep.mem == Put(old(eep.mem), dst, src[..from])
      invariant eep.Clear(t, all) == eep.Clear(eep.transfers, Pages(to, len))
      invariant t + eep.Taken(t, all) == eep.transfers + eep.Taken(eep.transfers, Pages(to, len))
    {
      var blockSelect := to / BYTES_IN_PAGE % 8;
      var adrInBlock := to % BYTES_IN_PAGE;
      var canWrite := CanWrite(to);
      var n := if len <= canWrite then len else canWrite;
      var chunk := src[from..from + n];
      ChunkIsPut(eep.mem, to, chunk);
      PutAppend(old(eep.mem), dst, src[..from], chunk);
      assert src[..from + n] == src[..from] + chunk;
      ghost var before := eep.mem;
      var buffer := [adrInBlock as byte] + chunk;
      assert buffer[1..] == chunk;
      OnePageLess(to, len, n);
      var sent := eep.I2cWrite(blockSelect, buffer);
      if !sent {
        OnlyInside(old(eep.mem), before, eep.mem, dst, src, from);
        return false;
      }
      len, to, from := len - n, to + n, from + n;
    }
    NoPages(to);
    assert src[..from] == src;
    ok := true;
  }

  lemma NoPages(dst: nat)
    ensures Pages(dst, 0) == 0
  {}

  lemma PutNothing(m: Memory, dst: nat)
    ensures Put(m, dst, []) == m
  {}

  /** What a copy that stopped in the middle has left. */
  lemma OnlyInside(start: Memory, before: Memory, after: Memory, dst: nat, src: seq<byte>, from: nat)
    requires from < |src| && before == Put(start, dst, src[..from])
    requires forall i | 0 <= i < SIZE &&
             i / 16 != (dst + from) / BYTES_IN_PAGE % 8 % 4 * 16 + (dst + from) % BYTES_IN_PAGE / 16 ::
             after[i] == before[i]
    ensures dst + |src| <= SIZE ==> forall i | 0 <= i < SIZE && Apart(dst, |src|, i) :: after[i] == start[i]
  {
    hide Put, Apart;
    if dst + |src| <= SIZE {
      PageNumber(dst + from);
      forall i | 0 <= i < SIZE && Apart(dst, |src|, i) ensures after[i] == start[i] {
        OtherPage(dst, |src|, from, i);
        PutElsewhere(start, dst, src[..from], i);
      }
    }
  }

  lemma OtherPage(dst: nat, len: nat, from: nat, i: nat)
    requires from < len && Apart(dst, len, i)
    ensures i / 16 != (dst + from) / 16 && !(dst <= i < dst + len)
  {}

  lemma PutElsewhere(m: Memory, dst: nat, data: seq<byte>, i: nat)
    requires dst + |data| <= SIZE && i < SIZE && !(dst <= i < dst + |data|)
    ensures Put(m, dst, data)[i] == m[i]
  {
    PutIsSplice(m, dst, data);
  }

  lemma PageNumber(at: nat)
    requires at < SIZE
    ensures at / BYTES_IN_PAGE % 8 % 4 * 16 + at % BYTES_IN_PAGE / 16 == at / 16
  {
    var q, r := at / 256, at % 256;
    QuotientIs(at, 16, 16 * q + r / 16, r % 16);
  }

  /** `Eep24AA::read`: the address is written, the bytes are read. */
  method Read(eep: Device, src: nat, len: nat) returns (ok: bool, data: seq<byte>)
    requires src < 0x1_0000
    modifies eep
    ensures eep.mem == old(eep.mem)
    ensures ok <==> len > 0 && eep.Clear(old(eep.transfers), 2)
    ensures eep.transfers == old(eep.transfers) + if len == 0 then 0 else eep.Taken(old(eep.transfers), 2)
    ensures ok ==> data == Get(eep.mem, src, len)
    ensures ok && src + len <= SIZE ==> data == eep.mem[src..src + len]
  {
    hide Get;
    data := [];
    if len == 0 {
      return false, data;
    }
    BlockAddress(src);
    GetModulo(eep.mem, src, len);
    if src + len <= SIZE {
      GetInside(eep.mem, src, len);
    }
    ok := eep.I2cWrite(src / BYTES_IN_PAGE % 8, [(src % BYTES_IN_PAGE) as byte]);
    if !ok {
      return;
    }
    ok, data := eep.I2cRead(src / BYTES_IN_PAGE % 8, len);
  }

  lemma GetModulo(m: Memory, src: nat, len: nat)
    ensures Get(m, src % SIZE, len) == Get(m, src, len)
  {
    var a, b := Get(m, src % SIZE, len), Get(m, src, len);
    forall i | 0 <= i < len ensures a[i] == b[i] {
      QuotientIs(src % SIZE + i, SIZE, (src + i) / SIZE - src / SIZE, (src + i) % SIZE);
    }
  }

  lemma GetInside(m: Memory, src: nat, len: nat)
    requires src + len <= SIZE
    ensures Get(m, src, len) == m[src..src + len]
  {}
}
