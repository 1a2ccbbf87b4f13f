/**
 * The server: `modbus_reply` as a function of mapping and request, and as the code over mapping tables and a
 * response buffer.
 */
module ModbusServer {
  import opened Bytes
  import opened Crc16
  import opened ModbusFrame
  import opened ModbusBits

  /** The value of a `modbus_mapping_t`, and the constant data of the slave ID report. */
  datatype Map = Map(
    startBits: nat, bits: seq<byte>,
    startInputBits: nat, inputBits: seq<byte>,
    startRegisters: nat, registers: seq<word>,
    startInputRegisters: nat, inputRegisters: seq<word>,
    identity: seq<byte>)

  /** Coil cells hold 0 or 1, which the OR-and-shift packing relies on. */
  predicate Clean(m: Map) {
    AllBits(m.bits) && AllBits(m.inputBits) && |m.identity| <= 240
  }

  // ---------------------------------------------------------------- registers as bytes

  function WordBytes(rs: seq<word>): (s: seq<byte>)
    ensures |s| == 2 * |rs|
    decreases |rs|
  {
    if rs == [] then [] else WordBytes(rs[..|rs| - 1]) + [Hi(rs[|rs| - 1]), Lo(rs[|rs| - 1])]
  }

  function BytesWords(s: seq<byte>, n: nat): (rs: seq<word>)
    requires 2 * n <= |s|
    ensures |rs| == n
  {
    seq(n, i requires 0 <= i < n => Word(s[2 * i], s[2 * i + 1]))
  }

  lemma {:induction false} WordBytesAt(rs: seq<word>, i: nat)
    requires i < |rs|
    ensures WordBytes(rs)[2 * i] == Hi(rs[i]) && WordBytes(rs)[2 * i + 1] == Lo(rs[i])
    decreases |rs|
  {
    var n := |rs| - 1;
    if i < n {
      WordBytesAt(rs[..n], i);
    }
  }

  lemma WordOfBytes(rs: seq<word>, i: nat)
    requires i < |rs|
    ensures Word(WordBytes(rs)[2 * i], WordBytes(rs)[2 * i + 1]) == rs[i]
  {
    hide WordBytes, Word, Hi, Lo;
    WordBytesAt(rs, i);
    WordSplits(rs[i]);
  }

  lemma BytesWordsAt(s: seq<byte>, n: nat, i: nat)
    requires 2 * n <= |s| && i < n
    ensures BytesWords(s, n)[i] == Word(s[2 * i], s[2 * i + 1])
  {
    hide Word;
  }

  lemma WordsRoundTrip(rs: seq<word>)
    ensures BytesWords(WordBytes(rs), |rs|) == rs
  {
    hide WordBytes, BytesWords, Word;
    forall i | 0 <= i < |rs| ensures BytesWords(WordBytes(rs), |rs|)[i] == rs[i] {
      WordOfBytes(rs, i);
      BytesWordsAt(WordBytes(rs), |rs|, i);
    }
  }

  /** On the wire a register is its high byte, then its low byte. */
  lemma WordsOnWire(rs: seq<word>, i: nat)
    requires i < |rs|
    ensures 256 * (WordBytes(rs)[2 * i] as int) + WordBytes(rs)[2 * i + 1] == rs[i]
  {
    hide WordBytes;
    WordBytesAt(rs, i);
  }

  /** `cells` with `values` from `at` on. */
  function Splice<T>(cells: seq<T>, at: nat, values: seq<T>): (r: seq<T>)
    requires at + |values| <= |cells|
    ensures |r| == |cells|
  {
    cells[..at] + values + cells[at + |values|..]
  }

  // ---------------------------------------------------------------- the reply as a function

  /** `MemoryError`: the code would access a table outside its bounds. */
  datatype Answer = Response(m: Map, rsp: seq<byte>) | NoProtocol | MemoryError

  function Exception(req: seq<byte>, code: byte): seq<byte>
    requires |req| >= 2
  {
    [req[0], ((req[1] as int) + 0x80) % 0x100, code]
  }

  predicate OutOfRange(address: int, nb: int, start: int, size: int) {
    address - start < 0 || address - start + nb > size
  }

  /** A request as `_modbus_receive_msg` hands it over, CRC included. */
  predicate Indicated(req: seq<byte>) { |req| >= 2 && LengthRight(req, 0, Indication) }

  function Body(req: seq<byte>): seq<byte>
    requires |req| >= 2
  {
    req[..|req| - 2]
  }

  function ReplyReadBits(m: Map, req: seq<byte>): Answer
    requires Clean(m) && Indicated(req) && req[1] in {READ_COILS, READ_DISCRETE_INPUTS}
  {
    var start := if req[1] == READ_DISCRETE_INPUTS then m.startInputBits else m.startBits;
    var cells := if req[1] == READ_DISCRETE_INPUTS then m.inputBits else m.bits;
    var address, nb := Word(req[2], req[3]), Word(req[4], req[5]);
    if nb < 1 || MAX_READ_BITS < nb then Response(m, Exception(req, ILLEGAL_DATA_VALUE))
    else if OutOfRange(address, nb, start, |cells|) then Response(m, Exception(req, ILLEGAL_DATA_ADDRESS))
    else Response(m, [req[0], req[1], ByteCount(nb)] + Pack(cells[address - start..address - start + nb]))
  }

  function ReplyReadRegisters(m: Map, req: seq<byte>): Answer
    requires Indicated(req) && req[1] in {READ_HOLDING_REGISTERS, READ_INPUT_REGISTERS}
  {
    var start := if req[1] == READ_INPUT_REGISTERS then m.startInputRegisters else m.startRegisters;
    var cells := if req[1] == READ_INPUT_REGISTERS then m.inputRegisters else m.registers;
    var address, nb := Word(req[2], req[3]), Word(req[4], req[5]);
    if nb < 1 || MAX_READ_REGISTERS < nb then Response(m, Exception(req, ILLEGAL_DATA_VALUE))
    else if OutOfRange(address, nb, start, |cells|) then Response(m, Exception(req, ILLEGAL_DATA_ADDRESS))
    else Response(m, [req[0], req[1], 2 * nb] + WordBytes(cells[address - start..address - start + nb]))
  }

  function ReplyWriteBit(m: Map, req: seq<byte>): Answer
    requires Indicated(req) && req[1] == WRITE_SINGLE_COIL
  {
    var address, data := Word(req[2], req[3]), Word(req[4], req[5]);
    if OutOfRange(address, 1, m.startBits, |m.bits|) then Response(m, Exception(req, ILLEGAL_DATA_ADDRESS))
    else if data == 0xFF00 || data == 0 then
      Response(m.(bits := m.bits[address - m.startBits := if data != 0 then 1 else 0]), Body(req))
    else Response(m, Exception(req, ILLEGAL_DATA_VALUE))
  }

  function ReplyWriteRegister(m: Map, req: seq<byte>): Answer
    requires Indicated(req) && req[1] == WRITE_SINGLE_REGISTER
  {
    var address, data := Word(req[2], req[3]), Word(req[4], req[5]);
    if OutOfRange(address, 1, m.startRegisters, |m.registers|) then Response(m, Exception(req, ILLEGAL_DATA_ADDRESS))
    else Response(m.(registers := m.registers[address - m.startRegisters := data]), Body(req))
  }

  function ReplyWriteBits(m: Map, req: seq<byte>): Answer
    requires Indicated(req) && req[1] == WRITE_MULTIPLE_COILS
  {
    var address, nb, nbBytes := Word(req[2], req[3]), Word(req[4], req[5]), req[6];
    if nb < 1 || MAX_WRITE_BITS < nb || nbBytes * 8 < nb then Response(m, Exception(req, ILLEGAL_DATA_VALUE))
    else if OutOfRange(address, nb, m.startBits, |m.bits|) then Response(m, Exception(req, ILLEGAL_DATA_ADDRESS))
    else Response(m.(bits := Splice(m.bits, address - m.startBits, Unpack(req[7..7 + nbBytes], nb))), req[..6])
  }

  function ReplyWriteRegisters(m: Map, req: seq<byte>): Answer
    requires Indicated(req) && req[1] == WRITE_MULTIPLE_REGISTERS
  {
    var address, nb, nbBytes := Word(req[2], req[3]), Word(req[4], req[5]), req[6];
    if nb < 1 || MAX_WRITE_REGISTERS < nb || nbBytes != nb * 2 then Response(m, Exception(req, ILLEGAL_DATA_VALUE))
    else if OutOfRange(address, nb, m.startRegisters, |m.registers|) then
        Response(m, Exception(req, ILLEGAL_DATA_ADDRESS))
    else Response(m.(registers := Splice(m.registers, address - m.startRegisters,
        BytesWords(req[7..7 + nbBytes], nb))), req[..6])
  }

  function MaskBits(c: bv16, a: bv16, o: bv16): bv16 { (c & a) | (o & !a) }

  /** The masked value of a register. */
  function Masked(cur: word, and_: word, or_: word): word {
    MaskBits(WordBits(cur), WordBits(and_), WordBits(or_)) as int
  }

  function ReplyMaskWrite(m: Map, req: seq<byte>): Answer
    requires Indicated(req) && req[1] == MASK_WRITE_REGISTER
  {
    var address := Word(req[2], req[3]);
    if OutOfRange(address, 1, m.startRegisters, |m.registers|) then Response(m, Exception(req, ILLEGAL_DATA_ADDRESS))
    else
      var a := address - m.startRegisters;
      Response(m.(registers := m.registers[a := Masked(m.registers[a], Word(req[4], req[5]), Word(req[6], req[7]))]),
          Body(req))
  }

  /** The address of the part that is written is not checked against the start of the mapping. */
  function ReplyWriteAndRead(m: Map, req: seq<byte>): Answer
    requires Indicated(req) && req[1] == WRITE_AND_READ_REGISTERS
  {
    var address, nb := Word(req[2], req[3]), Word(req[4], req[5]);
    var addressWrite, nbWrite, nbWriteBytes := Word(req[6], req[7]), Word(req[8], req[9]), req[10];
    var size := |m.registers|;
    if nbWrite < 1 || MAX_WR_WRITE_REGISTERS < nbWrite || nb < 1 || MAX_WR_READ_REGISTERS < nb ||
        nbWriteBytes != nbWrite * 2 then
      Response(m, Exception(req, ILLEGAL_DATA_VALUE))
    else if OutOfRange(address, nb, m.startRegisters, size) || addressWrite - m.startRegisters + nbWrite > size then
      Response(m, Exception(req, ILLEGAL_DATA_ADDRESS))
    else if addressWrite < m.startRegisters then MemoryError
    else
      var a := address - m.startRegisters;
      var after := Splice(m.registers, addressWrite - m.startRegisters,
          BytesWords(req[11..11 + nbWriteBytes], nbWrite));
      Response(m.(registers := after), [req[0], req[1], 2 * nb] + WordBytes(after[a..a + nb]))
  }

  function ReplySlaveId(m: Map, req: seq<byte>): Answer
    requires Clean(m) && Indicated(req)
  {
    Response(m, [req[0], req[1], |m.identity| + 2, 180, 0xFF] + m.identity)
  }

  /** `modbus_reply`, up to the sending of the response. */
  function Reply(m: Map, req: seq<byte>): Answer
    requires Clean(m) && Indicated(req)
  {
    if req[1] == READ_COILS || req[1] == READ_DISCRETE_INPUTS then ReplyReadBits(m, req)
    else if req[1] == READ_HOLDING_REGISTERS || req[1] == READ_INPUT_REGISTERS then ReplyReadRegisters(m, req)
    else if req[1] == WRITE_SINGLE_COIL then ReplyWriteBit(m, req)
    else if req[1] == WRITE_SINGLE_REGISTER then ReplyWriteRegister(m, req)
    else if req[1] == WRITE_MULTIPLE_COILS then ReplyWriteBits(m, req)
    else if req[1] == WRITE_MULTIPLE_REGISTERS then ReplyWriteRegisters(m, req)
    else if req[1] == REPORT_SLAVE_ID then ReplySlaveId(m, req)
    else if req[1] == READ_EXCEPTION_STATUS then NoProtocol
    else if req[1] == MASK_WRITE_REGISTER then ReplyMaskWrite(m, req)
    else if req[1] == WRITE_AND_READ_REGISTERS then ReplyWriteAndRead(m, req)
    else Response(m, Exception(req, ILLEGAL_FUNCTION))
  }

  // ---------------------------------------------------------------- what every reply keeps

  /**
   * Every request, well formed or not, leaves tables of the same size, cells that are 0 or 1, and the inputs
   * untouched.
   */
  lemma ReplyKeeps(m: Map, req: seq<byte>)
    requires Clean(m) && Indicated(req) && Reply(m, req).Response?
    ensures var n := Reply(m, req).m;
            && Clean(n) && |n.bits| == |m.bits| && |n.registers| == |m.registers|
            && n == m.(bits := n.bits, registers := n.registers)
  {
    hide Pack, Unpack, WordBytes, BytesWords, Masked;
  }

  /** Functions whose normal answers carry more than one byte behind the function code, or a byte count there. */
  predicate LongAnswer(fc: int) {
    fc <= WRITE_SINGLE_REGISTER ||
    fc in {WRITE_MULTIPLE_COILS, WRITE_MULTIPLE_REGISTERS, REPORT_SLAVE_ID, FILERECORD_WRITE, MASK_WRITE_REGISTER,
        WRITE_AND_READ_REGISTERS}
  }

  lemma SealedCells(msg: seq<byte>, k: nat)
    requires k < |msg|
    ensures Cell(Seal(msg), 0, k) == msg[k] && |Seal(msg)| == |msg| + 2
  {
    hide CrcBytes;
  }

  predicate ClientReads(rsp: seq<byte>) { |rsp| >= 3 && LengthRight(Seal(rsp), 0, Confirmation) }

  lemma ExceptionReads(req: seq<byte>, code: byte)
    requires |req| >= 2 && 1 <= code
    ensures ClientReads(Exception(req, code)) <==> req[1] < 0x80 || !LongAnswer(req[1] - 0x80)
  {
    hide Seal;
    var e := Exception(req, code);
    SealedCells(e, 1);
    SealedCells(e, 2);
  }

  lemma CountedReads(slave: byte, fc: byte, data: seq<byte>, rsp: seq<byte>)
    requires fc <= READ_INPUT_REGISTERS || fc in {REPORT_SLAVE_ID, WRITE_AND_READ_REGISTERS}
    requires |data| < 0x100 && rsp == [slave, fc, |data|] + data
    ensures ClientReads(rsp)
  {
    hide Seal;
    SealedCells(rsp, 1);
    SealedCells(rsp, 2);
  }

  lemma EchoReads(rsp: seq<byte>)
    requires |rsp| >= 6
    requires (|rsp| == 6 &&
             rsp[1] in {WRITE_SINGLE_COIL, WRITE_SINGLE_REGISTER, WRITE_MULTIPLE_COILS, WRITE_MULTIPLE_REGISTERS})
             || (|rsp| == 8 && rsp[1] == MASK_WRITE_REGISTER)
    ensures ClientReads(rsp)
  {
    hide Seal;
    SealedCells(rsp, 1);
    SealedCells(rsp, 2);
  }

  predicate Counted(fc: byte) {
    fc <= READ_INPUT_REGISTERS || fc == WRITE_AND_READ_REGISTERS || fc == REPORT_SLAVE_ID
  }

  /** A response is an exception, or repeats the function with a byte count, or echoes the head of the request. */
  predicate Shaped(req: seq<byte>, rsp: seq<byte>)
    requires |req| >= 2
  {
    || rsp == Exception(req, ILLEGAL_FUNCTION)
    || rsp == Exception(req, ILLEGAL_DATA_ADDRESS)
    || rsp == Exception(req, ILLEGAL_DATA_VALUE)
    || (Counted(req[1]) && 3 <= |rsp| <= 254 && rsp[1] == req[1] && rsp[2] == |rsp| - 3)
    || (|rsp| == 6 &&
        rsp[1] in {WRITE_SINGLE_COIL, WRITE_SINGLE_REGISTER, WRITE_MULTIPLE_COILS, WRITE_MULTIPLE_REGISTERS})
    || (|rsp| == 8 && rsp[1] == MASK_WRITE_REGISTER)
  }

  lemma ResponseShaped(m: Map, req: seq<byte>)
    requires Clean(m) && Indicated(req) && Reply(m, req).Response?
    ensures Shaped(req, Reply(m, req).rsp)
    ensures req[1] >= 0x80 ==> Reply(m, req).rsp == Exception(req, ILLEGAL_FUNCTION)
    ensures Reply(m, req).rsp[0] == req[0]
  {
    hide Pack, Unpack, WordBytes, BytesWords, Masked;
  }

  /**
   * The length the client's receive path computes from a response is its real length, unless the request
   * used a function code above 0x80 whose exception looks like a normal answer.
   */
  lemma ResponseReadsExactlyWhen(m: Map, req: seq<byte>)
    requires Clean(m) && Indicated(req) && Reply(m, req).Response?
    ensures ClientReads(Reply(m, req).rsp) <==> req[1] < 0x80 || !LongAnswer(req[1] - 0x80)
  {
    hide Seal, ClientReads, Reply;
    ResponseShaped(m, req);
    var rsp := Reply(m, req).rsp;
    if rsp == Exception(req, ILLEGAL_FUNCTION) {
      ExceptionReads(req, ILLEGAL_FUNCTION);
    } else if rsp == Exception(req, ILLEGAL_DATA_ADDRESS) {
      ExceptionReads(req, ILLEGAL_DATA_ADDRESS);
    } else if rsp == Exception(req, ILLEGAL_DATA_VALUE) {
      ExceptionReads(req, ILLEGAL_DATA_VALUE);
    } else if Counted(req[1]) && rsp[1] == req[1] && rsp[2] == |rsp| - 3 {
      CountedReads(rsp[0], rsp[1], rsp[3..], rsp);
    } else {
      EchoReads(rsp);
    }
  }
}
