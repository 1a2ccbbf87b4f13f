/** The log: a ring that `_write` fills and the transmit DMA empties, byte by byte, behind the reader's back. */
module LogRing {
  import opened Bytes
  import opened Division

  const BUFFER_LEN := 4096
  const END := 4095   // bffEnd: the last cell, which never holds data

  /** Bytes one pass of `_write` may copy. */
  function Room(rd: int, wr: int): int {
    var free := if rd > wr then rd - wr - 1 else BUFFER_LEN - (wr - rd + 1);
    if free < END - wr then free else END - wr
  }

  /** Bytes between the pointers. */
  function Pending(rd: int, wr: int): int { if rd > wr then wr + END - rd else wr - rd }

  predicate Pointers(rd: int, wr: int) { 0 <= rd < END && 0 <= wr < END }

  // ---------------------------------------------------------------- positions

  /** The cell that holds the n-th byte of the log. */
  function Cell(n: nat): nat { n % END }

  lemma Wraps(n: nat)
    ensures (n + 1) % END == if n % END + 1 == END then 0 else n % END + 1
  {
    Euclid(n, END);
    if n % END + 1 == END {
      QuotientIs(n + 1, END, n / END + 1, 0);
    } else {
      QuotientIs(n + 1, END, n / END, n % END + 1);
    }
  }

  lemma WrapsBy(n: nat, k: nat)
    requires n % END + k <= END
    ensures (n + k) % END == if n % END + k == END then 0 else n % END + k
  {
    Euclid(n, END);
    if n % END + k == END {
      QuotientIs(n + k, END, n / END + 1, 0);
    } else {
      QuotientIs(n + k, END, n / END, n % END + k);
    }
  }

  lemma SameCell(a: nat, b: nat)
    requires a < b && Cell(a) == Cell(b)
    ensures b - a >= END
  {
    Euclid(a, END);
    Euclid(b, END);
    assert b - a == END * (b / END - a / END);
  }

  /** Less than a ring apart, positions are different cells. */
  lemma CellsDiffer(a: nat, b: nat)
    requires a < b < a + END
    ensures Cell(a) != Cell(b)
  {
    if Cell(a) == Cell(b) {
      SameCell(a, b);
    }
  }

  /** The pointers tell how much is pending, as long as it is less than a ring. */
  lemma PendingIs(r: nat, w: nat)
    requires r <= w < r + END
    ensures Pending(r % END, w % END) == w - r
  {
    Euclid(r, END);
    Euclid(w, END);
    var d := w / END - r / END;
    assert w - r == END * d + w % END - r % END;
  }

  // ---------------------------------------------------------------- what goes wrong in a full ring

  /** A cell that is written while the DMA has still to read it. */
  predicate Clashes(p: nat, q: nat) { Cell(p) == Cell(q) }

  /**
   * Of the bytes s to r in flight, r to w pending and `len` new ones: the new ones overwrite some in flight exactly
   * when all together exceed the ring.
   */
  lemma OverwritesInFlightExactlyWhen(s: nat, r: nat, w: nat, len: nat)
    requires s <= r <= w && w - s <= END && w - r + len < END
    ensures (exists p: nat, q: nat | w <= p < w + len && s <= q < r :: Clashes(p, q)) <==> w - s + len > END
  {
    if w - s + len > END {
      WrapsAround(s);
      assert Clashes(s + END, s);
    } else {
      forall p: nat, q: nat | w <= p < w + len && s <= q < r ensures !Clashes(p, q) {
        CellsDiffer(q, p);
      }
    }
  }

  lemma WrapsAround(s: nat)
    ensures (s + END) % END == s % END
  {
    Euclid(s, END);
    QuotientIs(s + END, END, s / END + 1, s % END);
  }

  /** The write pointer and the bytes left after a pass of the copying loop. */
  function Pass(rd: int, wr: int, n: int): (int, int) {
    var k := if Room(rd, wr) < n then Room(rd, wr) else n;
    (if wr + k == END then 0 else wr + k, n - k)
  }

  /** A pass makes no progress exactly when the reader is ahead with a full ring in front of it. */
  lemma StuckExactlyWhen(rd: int, wr: int)
    requires Pointers(rd, wr)
    ensures Room(rd, wr) == 0 <==> rd > 0 && Pending(rd, wr) == END - 1 && rd > wr
  {}

  /**
   * A write that would make 4095 or more bytes pending never ends well: with the reader at the start of the buffer
   * the ring becomes full and looks empty; otherwise the loop comes to a state with bytes left that every further
   * pass repeats.
   */
  lemma OverfullWrite(rd: int, wr: int, n: int)
    requires Pointers(rd, wr) && n >= 0 && Pending(rd, wr) + n >= END
    ensures var one := Pass(rd, wr, n); var two := Pass(rd, one.0, one.1);
            if rd == 0 then one.0 == rd && n - one.1 == END - Pending(rd, wr)
            else exists p | p in {one, two} :: p.1 > 0 && Pass(rd, p.0, p.1) == p
  {
    var one := Pass(rd, wr, n);
    var two := Pass(rd, one.0, one.1);
    if rd > 0 {
      if rd > wr {
        assert one.1 > 0 && Pass(rd, one.0, one.1) == one;
      } else {
        assert two.1 > 0 && Pass(rd, two.0, two.1) == two;
      }
    }
  }

  // ---------------------------------------------------------------- the ring

  class Ring {
    const buffer: array<byte>
    var bffWr: nat
    var bffRd: nat
    var txRun: bool          // uart state: uartTxRun
    var dmaAt: nat           // where the DMA reads next
    var dmaLeft: nat         // NDTR
    var sent: seq<byte>      // what has left the UART
    ghost var written: seq<byte>

    constructor ()
      ensures Valid() && fresh(buffer) && sent == [] && written == []
    {
      buffer := new byte[BUFFER_LEN](i => 0);
      bffWr, bffRd, txRun, dmaAt, dmaLeft, sent, written := 0, 0, false, 0, 0, [], [];
    }

    /** Bytes handed to the DMA so far. */
    ghost function Handed(): nat
      reads this
    {
      |sent| + dmaLeft
    }

    /** Pending bytes. */
    ghost function Waiting(): int
      reads this
    {
      |written| - Handed()
    }

    ghost predicate Valid()
      reads this, buffer
    {
      && buffer.Length == BUFFER_LEN
      && sent <= written && 0 <= Waiting() < END && |written| - |sent| <= END
      && bffRd == Handed() % END && bffWr == |written| % END
      && (dmaLeft > 0 ==> txRun && dmaAt == |sent| % END && dmaAt + dmaLeft <= END)
      && (!txRun ==> Waiting() == 0)
      && Held()
    }

    /** Every byte that was written and not sent yet is in its cell. */
    ghost predicate Held()
      requires buffer.Length == BUFFER_LEN
      reads this, buffer
    {
      forall k | |sent| <= k < |written| :: buffer[k % END] == written[k]
    }

    /** The DMA moves one byte to the UART. */
    method DmaByte()
      requires Valid() && dmaLeft > 0
      modifies this
      ensures Valid() && sent == old(sent) + [old(written)[|old(sent)|]]
      ensures written == old(written) && dmaLeft == old(dmaLeft) - 1
    {
      Wraps(|sent|);
      sent := sent + [buffer[dmaAt]];
      dmaAt, dmaLeft := dmaAt + 1, dmaLeft - 1;
    }

    /** The last byte has left: the interrupt handler, which calls `txHandler`. */
    method TransmitComplete()
      requires Valid() && txRun && dmaLeft == 0
      modifies this
      ensures Valid() && sent == old(sent) && written == old(written)
      ensures txRun <==> |sent| < |written|
      ensures |sent| < |written| ==> dmaLeft > 0
    {
      txRun := false;
      Send();
    }

    /** The sending part that `txHandler` and `_write` share. */
    method Send()
      requires Ready()
      modifies this`txRun, this`dmaAt, this`dmaLeft, this`bffRd
      ensures Valid() && (!old(txRun) ==> (txRun <==> |sent| < |written|) && (|sent| < |written| ==> dmaLeft > 0))
      ensures old(txRun) ==> txRun && dmaLeft == old(dmaLeft)
    {
      if !txRun {
        PendingIs(Handed(), |written|);
        if bffRd < bffWr {
          UartWrite(bffRd, bffWr - bffRd);
          bffRd := bffWr;
        }
        if bffRd > bffWr {
          WrapsBy(Handed(), END - bffRd);
          UartWrite(bffRd, END - bffRd);
          bffRd := 0;
        }
      }
    }

    /** `uart_write` */
    method UartWrite(src: nat, len: nat)
      modifies this`txRun, this`dmaAt, this`dmaLeft
      ensures txRun && dmaAt == src && dmaLeft == len
    {
      dmaAt, dmaLeft, txRun := src, len, true;
    }

    /** `Valid`, but that an idle transmitter may have bytes waiting. */
    ghost predicate Ready()
      reads this, buffer
    {
      && buffer.Length == BUFFER_LEN
      && sent <= written && 0 <= Waiting() < END && |written| - |sent| <= END
      && bffRd == Handed() % END && bffWr == |written| % END
      && (dmaLeft > 0 ==> txRun && dmaAt == |sent| % END && dmaAt + dmaLeft <= END)
      && Held()
    }

    /** `Ready` inside the copying loop, where the write pointer may stand at the end of the buffer. */
    ghost predicate Copying()
      reads this, buffer
    {
      && buffer.Length == BUFFER_LEN
      && sent <= written && 0 <= Waiting() < END && |written| - |sent| <= END
      && bffRd == Handed() % END && (if bffWr == END then 0 else bffWr) == |written| % END
      && (dmaLeft > 0 ==> txRun && dmaAt == |sent| % END && dmaAt + dmaLeft <= END)
      && Held()
    }

    /** Room for n more bytes: the ring is not filled, and nothing in flight is overwritten. */
    ghost predicate RoomFor(n: nat)
      reads this
    {
      Waiting() + n < END && |written| - |sent| + n <= END
    }

    /** `*bffWr++ = *pData++`, in a ring with room or not. */
    method PutByte(b: byte)
      requires buffer.Length == BUFFER_LEN && bffWr < END
      modifies this`bffWr, this`written, buffer
      ensures bffWr == old(bffWr) + 1 && buffer[..] == old(buffer[..])[old(bffWr) := b]
      ensures old(Copying() && RoomFor(1)) ==> Copying() && written == old(written) + [b]
    {
      if Copying() && RoomFor(1) {
        Wraps(|written|);
        forall k | |sent| <= k < |written| ensures k % END != |written| % END {
          CellsDiffer(k, |written|);
        }
        written := written + [b];
      }
      buffer[bffWr] := b;
      bffWr := bffWr + 1;
    }

    /** The inner loop: all of the bytes, which fit before the end of the buffer. */
    method PutBytes(data: seq<byte>)
      requires buffer.Length == BUFFER_LEN && bffWr + |data| <= END
      modifies this`bffWr, this`written, buffer
      ensures bffWr == old(bffWr) + |data|
      ensures old(Copying() && RoomFor(|data|)) ==> Copying() && written == old(written) + data
    {
      var n := 0;
      while n < |data|
        invariant n <= |data| && bffWr == old(bffWr) + n
        invariant old(Copying() && RoomFor(|data|)) ==>
                  Copying() && RoomFor(|data| - n) && written == old(written) + data[..n]
      {
        PutByte(data[n]);
        n := n + 1;
      }
      assert data[..n] == data;
    }

    /** One pass of the copying loop: as much as the pointers seem to leave before the end of the buffer. */
    method CopyPass(data: seq<byte>) returns (n: nat)
      requires buffer.Length == BUFFER_LEN && Pointers(bffRd, bffWr)
      modifies this`bffWr, this`written, buffer
      ensures n <= |data| && Pointers(bffRd, bffWr) && (bffWr, |data| - n) == Pass(bffRd, old(bffWr), |data|)
      ensures old(Ready() && RoomFor(|data|)) ==>
              Ready() && written == old(written) + data[..n] && (data != [] ==> n > 0)
    {
      ghost var room := Ready() && RoomFor(|data|);
      if room {
        PendingIs(Handed(), |written|);
      }
      n := Room(bffRd, bffWr);
      if |data| < n {
        n := |data|;
      }
      PutBytes(data[..n]);
      if bffWr == END {
        bffWr := 0;
      }
    }

    /**
     * `_write`: while the pending and the new bytes stay below 4095, and with those in flight do not exceed it,
     * every byte joins the log and none that still has to leave is touched.
     */
    method Write(data: seq<byte>) returns (numBytesWritten: nat)
      requires Valid() && RoomFor(|data|)
      modifies this, buffer
      ensures Valid() && written == old(written) + data && sent == old(sent) && numBytesWritten == |data|
      ensures !old(txRun) ==> (txRun <==> data != [])
      ensures old(txRun) ==> txRun && dmaLeft == old(dmaLeft)
    {
      numBytesWritten := 0;
      var numBytes := |data|;
      assert data[..0] == [];
      while true
        invariant numBytesWritten + numBytes == |data| && (numBytesWritten > 0 ==> numBytes > 0)
        invariant Ready() && written == old(written) + data[..numBytesWritten]
        invariant sent == old(sent) && dmaLeft == old(dmaLeft) && txRun == old(txRun) && bffRd == old(bffRd)
        decreases numBytes
      {
        var n := CopyPass(data[numBytesWritten..]);
        assert data[..numBytesWritten + n] == data[..numBytesWritten] + data[numBytesWritten..][..n];
        numBytesWritten := numBytesWritten + n;
        numBytes := numBytes - n;
        if numBytes == 0 {
          break;
        }
      }
      assert data[..numBytesWritten] == data;
      Send();
    }
  }

  // ---------------------------------------------------------------- runs

  datatype Event = Log(data: seq<byte>) | Byte | Complete

  function Data(e: Event): seq<byte> { if e.Log? then e.data else [] }

  /**
   * An event can happen: a write that does not exceed the ring, a byte while the DMA has some, the interrupt
   * after the last.
   */
  ghost predicate Possible(ring: Ring, e: Event)
    reads ring
  {
    match e
    case Log(data) => ring.RoomFor(|data|)
    case Byte => ring.dmaLeft > 0
    case Complete => ring.txRun && ring.dmaLeft == 0
  }

  /** One event, carried out exactly when it can happen. */
  method Step(ring: Ring, e: Event) returns (possible: bool)
    requires ring.Valid()
    modifies ring, ring.buffer
    ensures ring.Valid() && possible == old(Possible(ring, e))
    ensures ring.written == old(ring.written) + (if possible then Data(e) else [])
    ensures ring.sent == old(ring.sent) + (if possible && e == Byte then [old(ring.written)[|old(ring.sent)|]] else [])
    ensures possible && e == Complete ==> (ring.txRun <==> |ring.sent| < |ring.written|)
    ensures !possible ==> unchanged(ring) && unchanged(ring.buffer)
  {
    possible := true;
    match e {
      case Log(data) =>
        PendingIs(ring.Handed(), |ring.written|);
        var pending := Pending(ring.bffRd, ring.bffWr);
        if pending + |data| < END && pending + ring.dmaLeft + |data| <= END {
          var n := ring.Write(data);
        } else {
          possible := false;
        }
      case Byte =>
        if ring.dmaLeft > 0 {
          ring.DmaByte();
        } else {
          possible := false;
        }
      case Complete =>
        if ring.txRun && ring.dmaLeft == 0 {
          ring.TransmitComplete();
        } else {
          possible := false;
        }
    }
  }

  lemma InOrder(ring: Ring)
    requires ring.Valid()
    ensures ring.sent <= ring.written && (!ring.txRun ==> ring.sent == ring.written)
  {}

  /**
   * Over any interleaving of writes, DMA steps and interrupts, up to the first that cannot happen: what was logged is
   * the data of the events in order, a byte has left for every DMA step, and what has left is a prefix of what was
   * logged.
   */
  method Run(ring: Ring, events: seq<Event>) returns (done: nat)
    requires ring.Valid()
    modifies ring, ring.buffer
    ensures ring.Valid() && done <= |events|
    ensures done == |events| || !Possible(ring, events[done])
    ensures ring.sent <= ring.written == old(ring.written) + Logged(events[..done])
    ensures |ring.sent| == |old(ring.sent)| + Leaving(events[..done])
    ensures !ring.txRun ==> ring.sent == ring.written
  {
    hide Logged, Data, Leaving, Possible;
    done := 0;
    NothingLogged(events);
    while done < |events|
      invariant done <= |events| && ring.Valid()
      invariant ring.written == old(ring.written) + Logged(events[..done])
      invariant |ring.sent| == |old(ring.sent)| + Leaving(events[..done])
    {
      assert events[..done + 1] == events[..done] + [events[done]];
      LoggedSnoc(events[..done], events[done]);
      var possible := Step(ring, events[done]);
      if !possible {
        break;
      }
      done := done + 1;
    }
    InOrder(ring);
  }

  /**
   * None is lost: left to the DMA and its interrupt, every ring is empty after at most two steps a byte and two
   * more.
   */
  method Drain(ring: Ring) returns (steps: nat)
    requires ring.Valid()
    modifies ring, ring.buffer
    ensures ring.Valid() && ring.sent == ring.written == old(ring.written) && !ring.txRun
    ensures steps <= 2 * (|old(ring.written)| - |old(ring.sent)|) + 2
  {
    steps := 0;
    ghost var total := 2 * (|ring.written| - |ring.sent|) + 2;
    while ring.txRun
      invariant ring.Valid() && ring.written == old(ring.written)
      invariant steps + 2 * (|ring.written| - |ring.sent|) +
                (if !ring.txRun then 0 else if ring.dmaLeft > 0 then 1 else 2) <= total
      decreases total - steps
    {
      InOrder(ring);
      if ring.dmaLeft > 0 {
        ring.DmaByte();
      } else {
        ring.TransmitComplete();
      }
      steps := steps + 1;
    }
    InOrder(ring);
  }

  /** Everything a sequence of events logs, in order. */
  function Logged(events: seq<Event>): seq<byte>
    decreases |events|
  {
    if events == [] then [] else Logged(events[..|events| - 1]) + Data(events[|events| - 1])
  }

  /** The DMA steps among the events. */
  function Leaving(events: seq<Event>): nat
    decreases |events|
  {
    if events == [] then 0 else Leaving(events[..|events| - 1]) + (if events[|events| - 1] == Byte then 1 else 0)
  }

  lemma NothingLogged(events: seq<Event>)
    ensures Logged(events[..0]) == [] && Leaving(events[..0]) == 0
  {}

  lemma LoggedSnoc(events: seq<Event>, e: Event)
    ensures Logged(events + [e]) == Logged(events) + Data(e)
    ensures Leaving(events + [e]) == Leaving(events) + (if e == Byte then 1 else 0)
  {
    assert (events + [e])[..|events|] == events;
  }
}
