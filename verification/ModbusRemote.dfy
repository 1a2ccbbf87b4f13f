/**
 * End to end: every client call over a perfect link is the same access made directly to the server's tables,
 * for every mapping and every argument, with the server's exceptions arriving as the client's error numbers.
 */
module ModbusRemote {
  import opened Bytes
  import opened Crc16
  import opened MessageBytes
  import opened ModbusFrame
  import opened ModbusBits
  import opened ModbusServer
  import opened ModbusClient

  // ---------------------------------------------------------------- direct access

  // The limits are those of the Modbus application protocol; the errors are its exceptions 2 and 3 behind 0x100, and
  // the client's own 0x110 for a request that would not fit a message.

  function Rejected<T>(m: Map, code: int): Call<T> { Call(m, Errno(code)) }

  /** Every one of the cells asked for is in the table. */
  predicate InTable(address: int, nb: int, start: int, size: int) {
    start <= address && address + nb <= start + size
  }

  function DirectReadRegisters(m: Map, input: bool, address: word, nb: word): Call<seq<word>> {
    var start := if input then m.startInputRegisters else m.startRegisters;
    var cells := if input then m.inputRegisters else m.registers;
    if nb > 125 then Rejected(m, 0x110)
    else if nb < 1 then Rejected(m, 0x103)
    else if !InTable(address, nb, start, |cells|) then Rejected(m, 0x102)
    else Call(m, Ok(cells[address - start..address - start + nb]))
  }

  function DirectReadBits(m: Map, input: bool, address: word, nb: word): Call<seq<byte>> {
    var start := if input then m.startInputBits else m.startBits;
    var cells := if input then m.inputBits else m.bits;
    if nb > 2000 then Rejected(m, 0x110)
    else if nb < 1 then Rejected(m, 0x103)
    else if !InTable(address, nb, start, |cells|) then Rejected(m, 0x102)
    else Call(m, Ok(cells[address - start..address - start + nb]))
  }

  function DirectWriteBit(m: Map, address: word, status: bool): Call<nat> {
    if !InTable(address, 1, m.startBits, |m.bits|) then Rejected(m, 0x102)
    else Call(m.(bits := m.bits[address - m.startBits := if status then 1 else 0]), Ok(1))
  }

  function DirectWriteRegister(m: Map, address: word, value: word): Call<nat> {
    if !InTable(address, 1, m.startRegisters, |m.registers|) then Rejected(m, 0x102)
    else Call(m.(registers := m.registers[address - m.startRegisters := value]), Ok(1))
  }

  function DirectWriteBits(m: Map, address: word, src: seq<byte>): Call<nat> {
    if |src| > 1968 then Rejected(m, 0x110)
    else if src == [] then Rejected(m, 0x103)
    else if !InTable(address, |src|, m.startBits, |m.bits|) then Rejected(m, 0x102)
    else Call(m.(bits := Splice(m.bits, address - m.startBits, Truth(src))), Ok(|src|))
  }

  function DirectWriteRegisters(m: Map, address: word, src: seq<word>): Call<nat> {
    if |src| > 123 then Rejected(m, 0x110)
    else if src == [] then Rejected(m, 0x103)
    else if !InTable(address, |src|, m.startRegisters, |m.registers|) then Rejected(m, 0x102)
    else Call(m.(registers := Splice(m.registers, address - m.startRegisters, src)), Ok(|src|))
  }

  function DirectMaskWrite(m: Map, address: word, and_: word, or_: word): Call<nat> {
    if !InTable(address, 1, m.startRegisters, |m.registers|) then Rejected(m, 0x102)
    else
      var a := address - m.startRegisters;
      Call(m.(registers := m.registers[a := Masked(m.registers[a], and_, or_)]), Ok(1))
  }

  /** The registers are written first; what is read are the new values. */
  function DirectWriteAndRead(m: Map, writeAddress: word, src: seq<word>, readAddress: word,
      readNb: word): Call<seq<word>> {
    if |src| > 121 || readNb > 125 then Rejected(m, 0x110)
    else if src == [] || readNb < 1 then Rejected(m, 0x103)
    else if !InTable(readAddress, readNb, m.startRegisters, |m.registers|) ||
            !InTable(writeAddress, |src|, m.startRegisters, |m.registers|) then Rejected(m, 0x102)
    else
      var after := Splice(m.registers, writeAddress - m.startRegisters, src);
      var a := readAddress - m.startRegisters;
      Call(m.(registers := after), Ok(after[a..a + readNb]))
  }

  // ---------------------------------------------------------------- the path of a frame

  predicate RequestReads(req: seq<byte>) { |req| >= 6 && LengthRight(Seal(req), 0, Indication) }

  lemma SealedPart(msg: seq<byte>)
    ensures |Seal(msg)| == |msg| + 2 && Seal(msg)[..|msg|] == msg && Sealed(Seal(msg))
    ensures |msg| >= 2 ==> Seal(msg)[0] == msg[0] && Seal(msg)[1] == msg[1] && Body(Seal(msg)) == msg
  {
    hide CrcBytes;
    SealIsSealed(msg);
  }

  /** What a request that reads right brings back, once the server has answered it. */
  lemma Delivered(slave: byte, m: Map, req: seq<byte>)
    requires Clean(m) && 1 <= slave <= 247 && RequestReads(req) && req[0] == slave && req[1] < 0x80
    requires Indicated(Seal(req)) ==> Reply(m, Seal(req)) != NoProtocol
    ensures Indicated(Seal(req))
    ensures match Reply(m, Seal(req))
            case MemoryError => Remote(slave, m, req) == Broken
            case NoProtocol => false
            case Response(n, rsp) =>
              && |Seal(rsp)| >= 5
              && Remote(slave, m, req) ==
                 match CheckConfirmation(req, Seal(rsp), |Seal(rsp)|)
                 case Ok(k) => Call(n, Ok((k, Seal(rsp))))
                 case Errno(e) => Call(n, Errno(e))
                 case Silent => Call(n, Silent)
  {
    hide Seal, Reply, Sealed, LengthRight, CheckConfirmation;
    SealedPart(req);
    var frame := Seal(req);
    assert Receive(slave, frame, 0, Indication) == Passed(Valid);
    if Reply(m, frame).Response? {
      var rsp := Reply(m, frame).rsp;
      ResponseReadsExactlyWhen(m, frame);
      ResponseShaped(m, frame);
      SealedPart(rsp);
      assert Receive(slave, Seal(rsp), 0, Confirmation) == Passed(Valid);
    }
  }

  /** A server exception arrives as its error number. */
  lemma ExceptionArrives(req: seq<byte>, frame: seq<byte>, code: byte)
    requires |req| >= 6 && frame == Seal(req) && req[1] < 0x80 && 1 <= code < EXCEPTION_MAX
    ensures |Seal(Exception(frame, code))| == 5
    ensures CheckConfirmation(req, Seal(Exception(frame, code)), 5) == Errno(ENOBASE + code)
  {
    hide Seal;
    SealedPart(req);
    SealedPart(Exception(frame, code));
    var e := Exception(frame, code);
    assert Seal(e)[..3] == e;
    assert Seal(e)[2] == Seal(e)[..3][2];
  }

  // ---------------------------------------------------------------- requests and answers on the wire

  lemma SealKeeps(msg: seq<byte>)
    ensures |Seal(msg)| == |msg| + 2 && forall k | 0 <= k < |msg| :: Seal(msg)[k] == msg[k]
  {
    hide CrcBytes;
  }

  lemma BasisFrame(slave: byte, fc: byte, address: word, nb: word, rest: seq<byte>, req: seq<byte>)
    requires req == RequestBasis(slave, fc, address, nb) + rest
    ensures |Seal(req)| == 8 + |rest| && Seal(req)[0] == slave && Seal(req)[1] == fc
    ensures Word(Seal(req)[2], Seal(req)[3]) == address && Word(Seal(req)[4], Seal(req)[5]) == nb
    ensures Seal(req)[6..|req|] == rest && Seal(req)[..6] == RequestBasis(slave, fc, address, nb)
  {
    hide Seal;
    SealKeeps(req);
    WordSplits(address);
    WordSplits(nb);
  }

  /** An answer that carries registers is confirmed, and decodes to them. */
  lemma RegistersArrive(req: seq<byte>, slave: byte, rs: seq<word>, rsp: seq<byte>)
    requires |req| >= 6 && req[0] == slave &&
             req[1] in {READ_HOLDING_REGISTERS, READ_INPUT_REGISTERS, WRITE_AND_READ_REGISTERS}
    requires Word(req[4], req[5]) == |rs| <= 125 && rsp == [slave, req[1], 2 * |rs|] + WordBytes(rs)
    ensures |Seal(rsp)| == 5 + 2 * |rs| && CheckConfirmation(req, Seal(rsp), |Seal(rsp)|) == Ok(|rs|)
    ensures BytesWords(Seal(rsp)[3..], |rs|) == rs
  {
    hide Seal, Word, WordBytes;
    SealKeeps(rsp);
    WordsRoundTrip(rs);
    forall i | 0 <= i < |rs| ensures BytesWords(Seal(rsp)[3..], |rs|)[i] == rs[i] {
      assert BytesWords(WordBytes(rs), |rs|)[i] == rs[i];
      assert Seal(rsp)[3..][2 * i] == rsp[3 + 2 * i] == WordBytes(rs)[2 * i];
      assert Seal(rsp)[3..][2 * i + 1] == rsp[4 + 2 * i] == WordBytes(rs)[2 * i + 1];
    }
  }

  /** An answer that carries bits is confirmed, and decodes to them. */
  lemma BitsArrive(req: seq<byte>, slave: byte, bits: seq<byte>, rsp: seq<byte>)
    requires |req| >= 6 && req[0] == slave && req[1] in {READ_COILS, READ_DISCRETE_INPUTS}
    requires AllBits(bits) && Word(req[4], req[5]) == |bits| <= MAX_READ_BITS &&
             rsp == [slave, req[1], ByteCount(|bits|)] + Pack(bits)
    ensures |Seal(rsp)| == 5 + ByteCount(|bits|) &&
            CheckConfirmation(req, Seal(rsp), |Seal(rsp)|) == Ok(ByteCount(|bits|))
    ensures Unpack(Seal(rsp)[3..3 + ByteCount(|bits|)], |bits|) == bits
  {
    hide Seal, Word, Pack, Unpack;
    SealKeeps(rsp);
    UnpackOfPack(bits);
    assert Seal(rsp)[3..3 + ByteCount(|bits|)] == Pack(bits);
  }

  /** An echo is confirmed. */
  lemma EchoArrives(req: seq<byte>, rsp: seq<byte>)
    requires |req| >= 6 && |rsp| >= 6 && rsp[..6] == req[..6]
    requires || (req[1] in {WRITE_SINGLE_COIL, WRITE_SINGLE_REGISTER, WRITE_MULTIPLE_COILS,
             WRITE_MULTIPLE_REGISTERS} && |rsp| == 6)
             || (req[1] == MASK_WRITE_REGISTER && |rsp| == 8)
    ensures CheckConfirmation(req, Seal(rsp), |Seal(rsp)|) ==
            Ok(if req[1] in {WRITE_MULTIPLE_COILS, WRITE_MULTIPLE_REGISTERS} then Word(req[4], req[5]) else 1)
  {
    hide Seal, Word;
    SealKeeps(rsp);
    assert forall k | 0 <= k < 6 :: Seal(rsp)[k] == rsp[..6][k] == req[..6][k];
  }

  // ---------------------------------------------------------------- the calls

  /** `modbus_read_registers`, `modbus_read_input_registers` */
  lemma ReadRegistersIsDirect(slave: byte, m: Map, input: bool, address: word, nb: word)
    requires Clean(m) && 1 <= slave <= 247
    ensures ReadRegisters(slave, m, input, address, nb) == DirectReadRegisters(m, input, address, nb)
  {
    hide Seal, Word, WordBytes, BytesWords, CheckConfirmation, Remote;
    if nb <= MAX_READ_REGISTERS {
      var fc := if input then READ_INPUT_REGISTERS else READ_HOLDING_REGISTERS;
      var req := RequestBasis(slave, fc, address, nb);
      BasisFrame(slave, fc, address, nb, [], req + []);
      assert req + [] == req;
      Delivered(slave, m, req);
      var frame := Seal(req);
      assert Reply(m, frame) == ReplyReadRegisters(m, frame);
      if nb < 1 {
        ExceptionArrives(req, frame, ILLEGAL_DATA_VALUE);
      } else if DirectReadRegisters(m, input, address, nb).outcome.Errno? {
        ExceptionArrives(req, frame, ILLEGAL_DATA_ADDRESS);
      } else {
        assert Word(req[4], req[5]) == nb;
        RegistersArrive(req, slave, DirectReadRegisters(m, input, address, nb).outcome.value, Reply(m, frame).rsp);
      }
    }
  }

  /** `modbus_read_bits`, `modbus_read_input_bits` */
  lemma ReadBitsIsDirect(slave: byte, m: Map, input: bool, address: word, nb: word)
    requires Clean(m) && 1 <= slave <= 247
    ensures ReadBits(slave, m, input, address, nb) == DirectReadBits(m, input, address, nb)
  {
    hide Seal, Word, Pack, Unpack, CheckConfirmation, Remote;
    if nb <= MAX_READ_BITS {
      var fc := if input then READ_DISCRETE_INPUTS else READ_COILS;
      var req := RequestBasis(slave, fc, address, nb);
      BasisFrame(slave, fc, address, nb, [], req + []);
      assert req + [] == req;
      Delivered(slave, m, req);
      var frame := Seal(req);
      assert Reply(m, frame) == ReplyReadBits(m, frame);
      if nb < 1 {
        ExceptionArrives(req, frame, ILLEGAL_DATA_VALUE);
      } else if DirectReadBits(m, input, address, nb).outcome.Errno? {
        ExceptionArrives(req, frame, ILLEGAL_DATA_ADDRESS);
      } else {
        assert Word(req[4], req[5]) == nb;
        BitsArrive(req, slave, DirectReadBits(m, input, address, nb).outcome.value, Reply(m, frame).rsp);
      }
    }
  }

  /** `modbus_write_bit` */
  lemma WriteBitIsDirect(slave: byte, m: Map, address: word, status: bool)
    requires Clean(m) && 1 <= slave <= 247
    ensures WriteBit(slave, m, address, status) == DirectWriteBit(m, address, status)
  {
    hide Seal, Word, CheckConfirmation, Remote;
    var req := RequestBasis(slave, WRITE_SINGLE_COIL, address, if status then 0xFF00 else 0);
    BasisFrame(slave, WRITE_SINGLE_COIL, address, if status then 0xFF00 else 0, [], req + []);
    assert req + [] == req;
    Delivered(slave, m, req);
    var frame := Seal(req);
    assert Reply(m, frame) == ReplyWriteBit(m, frame);
    if DirectWriteBit(m, address, status).outcome.Errno? {
      ExceptionArrives(req, frame, ILLEGAL_DATA_ADDRESS);
    } else {
      EchoArrives(req, Reply(m, frame).rsp);
    }
  }

  /** `modbus_write_register` */
  lemma WriteRegisterIsDirect(slave: byte, m: Map, address: word, value: word)
    requires Clean(m) && 1 <= slave <= 247
    ensures WriteRegister(slave, m, address, value) == DirectWriteRegister(m, address, value)
  {
    hide Seal, Word, CheckConfirmation, Remote;
    var req := RequestBasis(slave, WRITE_SINGLE_REGISTER, address, value);
    BasisFrame(slave, WRITE_SINGLE_REGISTER, address, value, [], req + []);
    assert req + [] == req;
    Delivered(slave, m, req);
    var frame := Seal(req);
    assert Reply(m, frame) == ReplyWriteRegister(m, frame);
    if DirectWriteRegister(m, address, value).outcome.Errno? {
      ExceptionArrives(req, frame, ILLEGAL_DATA_ADDRESS);
    } else {
      EchoArrives(req, Reply(m, frame).rsp);
    }
  }

  /** `modbus_write_bits`: any number of cells, whatever non-zero values stand for ON. */
  lemma WriteBitsIsDirect(slave: byte, m: Map, address: word, src: seq<byte>)
    requires Clean(m) && 1 <= slave <= 247
    ensures WriteBits(slave, m, address, src) == DirectWriteBits(m, address, src)
  {
    hide Seal, Word, CheckConfirmation, Remote, Pack, Unpack, Truth;
    if |src| <= MAX_WRITE_BITS {
      var req := WriteBitsRequest(slave, address, src);
      var rest := [ByteCount(|src|)] + Pack(Truth(src));
      assert req == RequestBasis(slave, WRITE_MULTIPLE_COILS, address, |src|) + rest;
      BasisFrame(slave, WRITE_MULTIPLE_COILS, address, |src|, rest, req);
      var frame := Seal(req);
      assert frame[6] == frame[6..|req|][0] == rest[0];
      Delivered(slave, m, req);
      assert frame[7..7 + ByteCount(|src|)] == frame[6..|req|][1..] == Pack(Truth(src));
      UnpackOfPack(Truth(src));
      assert Reply(m, frame) == ReplyWriteBits(m, frame);
      if src == [] {
        ExceptionArrives(req, frame, ILLEGAL_DATA_VALUE);
      } else if DirectWriteBits(m, address, src).outcome.Errno? {
        ExceptionArrives(req, frame, ILLEGAL_DATA_ADDRESS);
      } else {
        assert req[..6] == RequestBasis(slave, WRITE_MULTIPLE_COILS, address, |src|);
        WordSplits(|src|);
        assert Word(req[4], req[5]) == |src|;
        EchoArrives(req, Reply(m, frame).rsp);
      }
    }
  }

  lemma WordsInFrame(rs: seq<word>, frame: seq<byte>, at: nat)
    requires at + 2 * |rs| <= |frame| && frame[at..at + 2 * |rs|] == WordBytes(rs)
    ensures BytesWords(frame[at..at + 2 * |rs|], |rs|) == rs
  {
    hide WordBytes;
    WordsRoundTrip(rs);
  }

  /** `modbus_write_registers` */
  lemma WriteRegistersIsDirect(slave: byte, m: Map, address: word, src: seq<word>)
    requires Clean(m) && 1 <= slave <= 247
    ensures WriteRegisters(slave, m, address, src) == DirectWriteRegisters(m, address, src)
  {
    hide Seal, Word, CheckConfirmation, Remote, WordBytes, BytesWords;
    if |src| <= MAX_WRITE_REGISTERS {
      var req := WriteRegistersRequest(slave, address, src);
      var rest := [2 * |src|] + WordBytes(src);
      assert req == RequestBasis(slave, WRITE_MULTIPLE_REGISTERS, address, |src|) + rest;
      BasisFrame(slave, WRITE_MULTIPLE_REGISTERS, address, |src|, rest, req);
      var frame := Seal(req);
      assert frame[6] == frame[6..|req|][0] == rest[0];
      Delivered(slave, m, req);
      assert frame[7..7 + 2 * |src|] == frame[6..|req|][1..] == WordBytes(src);
      WordsInFrame(src, frame, 7);
      assert Reply(m, frame) == ReplyWriteRegisters(m, frame);
      if src == [] {
        ExceptionArrives(req, frame, ILLEGAL_DATA_VALUE);
      } else if DirectWriteRegisters(m, address, src).outcome.Errno? {
        ExceptionArrives(req, frame, ILLEGAL_DATA_ADDRESS);
      } else {
        assert req[..6] == RequestBasis(slave, WRITE_MULTIPLE_REGISTERS, address, |src|);
        WordSplits(|src|);
        assert Word(req[4], req[5]) == |src|;
        EchoArrives(req, Reply(m, frame).rsp);
      }
    }
  }

  lemma MaskFrame(slave: byte, address: word, and_: word, or_: word, req: seq<byte>)
    requires req == MaskWriteRequest(slave, address, and_, or_)
    ensures |Seal(req)| == 10 && Seal(req)[0] == slave && Seal(req)[1] == MASK_WRITE_REGISTER && Body(Seal(req)) == req
    ensures Word(Seal(req)[2], Seal(req)[3]) == address
    ensures Word(Seal(req)[4], Seal(req)[5]) == and_ && Word(Seal(req)[6], Seal(req)[7]) == or_
  {
    hide Seal;
    SealKeeps(req);
    WordSplits(address);
    WordSplits(and_);
    WordSplits(or_);
  }

  /** `modbus_mask_write_register` */
  lemma MaskWriteIsDirect(slave: byte, m: Map, address: word, and_: word, or_: word)
    requires Clean(m) && 1 <= slave <= 247
    ensures MaskWriteRegister(slave, m, address, and_, or_) == DirectMaskWrite(m, address, and_, or_)
  {
    hide Seal, Word, CheckConfirmation, Remote, Masked;
    var req := MaskWriteRequest(slave, address, and_, or_);
    MaskFrame(slave, address, and_, or_, req);
    Delivered(slave, m, req);
    var frame := Seal(req);
    assert Reply(m, frame) == ReplyMaskWrite(m, frame);
    if DirectMaskWrite(m, address, and_, or_).outcome.Errno? {
      ExceptionArrives(req, frame, ILLEGAL_DATA_ADDRESS);
    } else {
      EchoArrives(req, Reply(m, frame).rsp);
    }
  }

  lemma WriteAndReadFrame(slave: byte, writeAddress: word, src: seq<word>, readAddress: word, readNb: word,
      req: seq<byte>)
    requires |src| <= MAX_WR_WRITE_REGISTERS &&
             req == WriteAndReadRequest(slave, writeAddress, src, readAddress, readNb)
    ensures var frame := Seal(req);
            && |frame| == 13 + 2 * |src| && frame[0] == slave && frame[1] == WRITE_AND_READ_REGISTERS
            && Word(frame[2], frame[3]) == readAddress && Word(frame[4], frame[5]) == readNb
            && Word(frame[6], frame[7]) == writeAddress && Word(frame[8], frame[9]) == |src| && frame[10] == 2 * |src|
            && BytesWords(frame[11..11 + 2 * |src|], |src|) == src
    ensures req[0] == slave && req[1] == WRITE_AND_READ_REGISTERS && Word(req[4], req[5]) == readNb
  {
    hide Seal, WordBytes, BytesWords;
    SealKeeps(req);
    WordSplits(readAddress);
    WordSplits(readNb);
    WordSplits(writeAddress);
    WordSplits(|src|);
    assert Seal(req)[11..11 + 2 * |src|] == req[11..] == WordBytes(src);
    WordsInFrame(src, Seal(req), 11);
  }

  /**
   * `modbus_write_and_read_registers` is the direct access exactly when the written part does not start below the
   * mapping in a request the server otherwise accepts: that is the one bound the server does not check.
   */
  lemma WriteAndReadIsDirectExactlyWhen(slave: byte, m: Map, writeAddress: word, src: seq<word>, readAddress: word,
      readNb: word)
    requires Clean(m) && 1 <= slave <= 247
    ensures WriteAndReadRegisters(slave, m, writeAddress, src, readAddress, readNb) ==
            DirectWriteAndRead(m, writeAddress, src, readAddress, readNb)
            <==> !WritesBelow(m, writeAddress, src, readAddress, readNb)
    ensures WritesBelow(m, writeAddress, src, readAddress, readNb) ==>
              WriteAndReadRegisters(slave, m, writeAddress, src, readAddress, readNb) == Broken
  {
    hide Seal, Word, CheckConfirmation, Remote, WordBytes, BytesWords, Splice;
    if |src| <= MAX_WR_WRITE_REGISTERS && readNb <= MAX_WR_READ_REGISTERS {
      var req := WriteAndReadRequest(slave, writeAddress, src, readAddress, readNb);
      var frame := Seal(req);
      WriteAndReadFrame(slave, writeAddress, src, readAddress, readNb, req);
      Delivered(slave, m, req);
      assert Reply(m, frame) == ReplyWriteAndRead(m, frame);
      var direct := DirectWriteAndRead(m, writeAddress, src, readAddress, readNb);
      if src == [] || readNb < 1 {
        ExceptionArrives(req, frame, ILLEGAL_DATA_VALUE);
      } else if WritesBelow(m, writeAddress, src, readAddress, readNb) {
        assert Reply(m, frame) == MemoryError;
      } else if direct.outcome.Errno? {
        ExceptionArrives(req, frame, ILLEGAL_DATA_ADDRESS);
      } else {
        RegistersArrive(req, slave, direct.outcome.value, Reply(m, frame).rsp);
      }
    }
  }

  /** A request of legal size whose reading part lies in the mapping and whose writing part begins below it. */
  predicate WritesBelow(m: Map, writeAddress: word, src: seq<word>, readAddress: word, readNb: word) {
    && 1 <= |src| <= 121 && 1 <= readNb <= 125
    && InTable(readAddress, readNb, m.startRegisters, |m.registers|)
    && writeAddress < m.startRegisters && writeAddress - m.startRegisters + |src| <= |m.registers|
  }

  // ---------------------------------------------------------------- several calls

  lemma SpliceAt<T>(cells: seq<T>, at: nat, values: seq<T>)
    requires at + |values| <= |cells|
    ensures Splice(cells, at, values)[at..at + |values|] == values
    ensures forall i | 0 <= i < |cells| && !(at <= i < at + |values|) :: Splice(cells, at, values)[i] == cells[i]
  {}

  /** What was written is read back, and every register and coil that was not addressed keeps its value. */
  lemma WrittenRegistersReadBack(slave: byte, m: Map, address: word, src: seq<word>, n: Map, k: nat)
    requires Clean(m) && 1 <= slave <= 247 && WriteRegisters(slave, m, address, src) == Call(n, Ok(k))
    ensures k == |src| && Clean(n) && |n.registers| == |m.registers| && n == m.(registers := n.registers)
    ensures ReadRegisters(slave, n, false, address, |src|) == Call(n, Ok(src))
    ensures forall i | 0 <= i < |m.registers| && !(address <= m.startRegisters + i < address + |src|) ::
            n.registers[i] == m.registers[i]
  {
    hide ReadRegisters, WriteRegisters, Splice;
    WriteRegistersIsDirect(slave, m, address, src);
    SpliceAt(m.registers, address - m.startRegisters, src);
    ReadRegistersIsDirect(slave, n, false, address, |src|);
  }

  lemma WrittenBitsReadBack(slave: byte, m: Map, address: word, src: seq<byte>, n: Map, k: nat)
    requires Clean(m) && 1 <= slave <= 247 && WriteBits(slave, m, address, src) == Call(n, Ok(k))
    ensures k == |src| && Clean(n) && |n.bits| == |m.bits| && n == m.(bits := n.bits)
    ensures ReadBits(slave, n, false, address, |src|) ==
            Call(n, Ok(seq(|src|, i requires 0 <= i < |src| => if src[i] != 0 then 1 else 0)))
    ensures AllBits(src) ==> ReadBits(slave, n, false, address, |src|) == Call(n, Ok(src))
    ensures forall i | 0 <= i < |m.bits| && !(address <= m.startBits + i < address + |src|) :: n.bits[i] == m.bits[i]
  {
    hide ReadBits, WriteBits, Splice, Truth;
    WriteBitsIsDirect(slave, m, address, src);
    var at := address - m.startBits;
    SpliceAt(m.bits, at, Truth(src));
    assert forall i | at <= i < at + |src| :: n.bits[i] == n.bits[at..at + |src|][i - at];
    ReadBitsIsDirect(slave, n, false, address, |src|);
    TruthIs(src);
  }

  lemma TruthIs(src: seq<byte>)
    ensures Truth(src) == seq(|src|, i requires 0 <= i < |src| => if src[i] != 0 then 1 else 0)
    ensures AllBits(src) ==> Truth(src) == src
  {}

  /** A broadcast is obeyed like any other request, but the caller never learns of it. */
  lemma BroadcastObeyedInSilence(server: byte, m: Map, req: seq<byte>)
    requires Clean(m) && RequestReads(req) && req[0] == BROADCAST
    ensures Indicated(Seal(req))
    ensures Transact(server, m, req) ==
              match Reply(m, Seal(req))
              case Response(n, rsp) => Exchange(n, [])
              case NoProtocol => Exchange(m, [])
              case MemoryError => ServerError
    ensures Reply(m, Seal(req)).Response? ==> Remote(BROADCAST, m, req) == Call(Reply(m, Seal(req)).m, Silent)
  {
    hide Seal, Reply, Sealed, LengthRight;
    SealedPart(req);
  }

  /** A request for another slave leaves the tables and the line alone. */
  lemma ForeignRequestIsIgnored(server: byte, m: Map, req: seq<byte>)
    requires Clean(m) && |req| >= 2 && req[0] != server && req[0] != 0
    ensures Receive(server, Seal(req), 0, Indication) != Passed(Valid)
    ensures Transact(server, m, req) == Exchange(m, [])
  {
    hide Seal, Sealed, LengthRight;
    SealedPart(req);
  }

  /** A function the server does not know is answered by exception 1, and changes nothing. */
  lemma UnknownFunctionIsRefused(m: Map, req: seq<byte>)
    requires Clean(m) && Indicated(req) && req[1] !in {1, 2, 3, 4, 5, 6, 7, 0x0F, 0x10, 0x11, 0x16, 0x17}
    ensures Reply(m, req) == Response(m, [req[0], if req[1] < 0x80 then req[1] + 0x80 else req[1] - 0x80, 1])
  {}

  /** How long a request is by its own bytes, the CRC included; no other length is read. */
  lemma RequestLengths(req: seq<byte>)
    requires |req| >= 2
    ensures Indicated(req) <==>
            |req| == if req[1] <= 6 then 8
                     else if req[1] in {0x0F, 0x10} then (if |req| > 6 then 9 + req[6] as int else -1)
                     else if req[1] == 0x16 then 10
                     else if req[1] == 0x17 then (if |req| > 10 then 13 + req[10] as int else -1)
                     else 4
  {}

  /** A frame damaged on the way to the server is not obeyed. */
  lemma DamagedRequestIsIgnored(server: byte, req: seq<byte>, frame: seq<byte>)
    requires 1 <= server <= 247 && RequestReads(req) && req[0] == server && Damaged(Seal(req), frame)
    ensures Receive(server, frame, 0, Indication) != Passed(Valid)
  {
    hide Seal, Sealed, Damaged, LengthRight;
    SealedPart(req);
    DamagedIsChanged(Seal(req), frame);
    DamagedFrameNeverValid(server, Seal(req), frame);
  }

  lemma DamagedIsChanged(a: seq<byte>, b: seq<byte>)
    requires Damaged(a, b)
    ensures |a| == |b| && a != b
  {}

  /** A frame damaged on the way back is never taken for an answer, whatever the answer was and whatever was asked. */
  lemma DamagedAnswerIsRefused(slave: byte, req: seq<byte>, rsp: seq<byte>, frame: seq<byte>)
    requires 1 <= slave <= 247 && |req| >= 6 && req[0] == slave
    requires |rsp| >= 2 && rsp[0] == slave && Damaged(Seal(rsp), frame)
    ensures !Confirm(slave, req, frame).Ok?
  {
    hide Seal, Sealed, Damaged, LengthRight, ResponseLength;
    SealedPart(rsp);
    DamagedIsChanged(Seal(rsp), frame);
    DamagedFrameNeverValid(slave, Seal(rsp), frame);
  }

  // ---------------------------------------------------------------- the mask

  lemma Halves(v: bv8)
    ensures (v >> 1) as int == v as int / 2 && (v & 1) as int == v as int % 2
  {}

  function MaskByteBits(c: bv8, a: bv8, o: bv8): bv8 { (c & a) | (o & !a) }

  lemma HalvesOfMasked(c: bv8, a: bv8, o: bv8)
    ensures MaskByteBits(c, a, o) >> 1 == MaskByteBits(c >> 1, a >> 1, o >> 1)
    ensures MaskByteBits(c, a, o) & 1 == if a & 1 == 1 then c & 1 else o & 1
  {}

  lemma LowBitOfMasked(c: bv8, a: bv8, o: bv8)
    ensures MaskByteBits(c, a, o) as int % 2 == if a as int % 2 == 1 then c as int % 2 else o as int % 2
  {
    hide MaskByteBits;
    HalvesOfMasked(c, a, o);
    Halves(MaskByteBits(c, a, o));
    Halves(a);
    Halves(c);
    Halves(o);
  }

  lemma NextBit(v: bv8, half: bv8, k: nat)
    requires k > 0 && half == v >> 1
    ensures BitOf(v as int, k) == BitOf(half as int, k - 1)
  {
    Halves(v);
  }

  lemma LowestBits(c: bv8, a: bv8, o: bv8)
    ensures BitOf(MaskByteBits(c, a, o) as int, 0) == if BitOf(a as int, 0) == 1 then
            BitOf(c as int, 0) else BitOf(o as int, 0)
  {
    hide MaskByteBits;
    LowBitOfMasked(c, a, o);
  }

  lemma {:induction false} MaskedByte(c: bv8, a: bv8, o: bv8, k: nat)
    ensures BitOf(MaskByteBits(c, a, o) as int, k) == if BitOf(a as int, k) == 1 then
            BitOf(c as int, k) else BitOf(o as int, k)
    decreases k
  {
    hide MaskByteBits, BitOf;
    if k == 0 {
      LowestBits(c, a, o);
    } else {
      HalvesOfMasked(c, a, o);
      NextBit(MaskByteBits(c, a, o), MaskByteBits(c >> 1, a >> 1, o >> 1), k);
      NextBit(a, a >> 1, k);
      NextBit(c, c >> 1, k);
      NextBit(o, o >> 1, k);
      MaskedByte(c >> 1, a >> 1, o >> 1, k - 1);
    }
  }

  lemma MaskSplits(ch: bv8, cl: bv8, ah: bv8, al: bv8, oh: bv8, ol: bv8)
    ensures MaskBits(JoinOctets(ch, cl), JoinOctets(ah, al), JoinOctets(oh, ol)) ==
            JoinOctets(MaskByteBits(ch, ah, oh), MaskByteBits(cl, al, ol))
  {}

  lemma {:induction false} BitOfJoin(h: nat, l: nat, n: nat, k: nat)
    requires l < Pow2(n)
    ensures BitOf(Pow2(n) * h + l, k) == if k < n then BitOf(l, k) else BitOf(h, k - n)
    decreases n
  {
    if n > 0 {
      var v := Pow2(n) * h + l;
      assert v == 2 * (Pow2(n - 1) * h + l / 2) + l % 2;
      if k > 0 {
        BitOfJoin(h, l / 2, n - 1, k - 1);
      }
    }
  }

  function ByteMasked(c: byte, a: byte, o: byte): byte {
    MaskByteBits(Bits(c), Bits(a), Bits(o)) as int
  }

  lemma ByteMaskedSelects(c: byte, a: byte, o: byte, k: nat)
    ensures BitOf(ByteMasked(c, a, o), k) == if BitOf(a, k) == 1 then BitOf(c, k) else BitOf(o, k)
  {
    hide BitOf;
    MaskedByte(Bits(c), Bits(a), Bits(o), k);
  }

  lemma MaskedByBytes(cur: word, and_: word, or_: word)
    ensures Masked(cur, and_, or_) == 0x100 * ByteMasked(Hi(cur), Hi(and_), Hi(or_)) +
            ByteMasked(Lo(cur), Lo(and_), Lo(or_))
  {
    hide Bits, MaskBits, JoinOctets, MaskByteBits;
    var ch, cl, ah, al := Bits(Hi(cur)), Bits(Lo(cur)), Bits(Hi(and_)), Bits(Lo(and_));
    var oh, ol := Bits(Hi(or_)), Bits(Lo(or_));
    MaskSplits(ch, cl, ah, al, oh, ol);
  }

  lemma BitOfWord(w: word, h: byte, l: byte, k: nat)
    requires w == 0x100 * h + l
    ensures BitOf(w, k) == if k < 8 then BitOf(l, k) else BitOf(h, k - 8)
  {
    hide BitOf;
    assert Pow2(8) == 0x100;
    BitOfJoin(h, l, 8, k);
  }

  /** A mask write keeps the bits the AND mask selects and takes the others from the OR mask. */
  lemma MaskedSelects(cur: word, and_: word, or_: word, k: nat)
    ensures BitOf(Masked(cur, and_, or_), k) == if BitOf(and_, k) == 1 then BitOf(cur, k) else BitOf(or_, k)
  {
    hide BitOf, Masked, ByteMasked;
    var h, l := ByteMasked(Hi(cur), Hi(and_), Hi(or_)), ByteMasked(Lo(cur), Lo(and_), Lo(or_));
    MaskedByBytes(cur, and_, or_);
    BitOfWord(Masked(cur, and_, or_), h, l, k);
    BitOfWord(cur, Hi(cur), Lo(cur), k);
    BitOfWord(and_, Hi(and_), Lo(and_), k);
    BitOfWord(or_, Hi(or_), Lo(or_), k);
    if k < 8 {
      ByteMaskedSelects(Lo(cur), Lo(and_), Lo(or_), k);
    } else {
      ByteMaskedSelects(Hi(cur), Hi(and_), Hi(or_), k - 8);
    }
  }
}
