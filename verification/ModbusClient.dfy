/** The client: request frames and the check of the confirmation, as functions. */
module ModbusClient {
  import opened Bytes
  import opened Crc16
  import opened ModbusFrame
  import opened ModbusBits
  import opened ModbusServer

  // ---------------------------------------------------------------- requests

  /** `_modbus_rtu_build_request_basis` */
  function RequestBasis(slave: byte, fc: byte, address: word, nb: word): seq<byte> {
    [slave, fc, Hi(address), Lo(address), Hi(nb), Lo(nb)]
  }

  function WriteBitsRequest(slave: byte, address: word, src: seq<byte>): seq<byte>
    requires |src| <= MAX_WRITE_BITS
  {
    RequestBasis(slave, WRITE_MULTIPLE_COILS, address, |src|) + [ByteCount(|src|)] + Pack(Truth(src))
  }

  function WriteRegistersRequest(slave: byte, address: word, src: seq<word>): seq<byte>
    requires |src| <= MAX_WRITE_REGISTERS
  {
    RequestBasis(slave, WRITE_MULTIPLE_REGISTERS, address, |src|) + [2 * |src|] + WordBytes(src)
  }

  function MaskWriteRequest(slave: byte, address: word, and_: word, or_: word): seq<byte> {
    [slave, MASK_WRITE_REGISTER, Hi(address), Lo(address), Hi(and_), Lo(and_), Hi(or_), Lo(or_)]
  }

  function WriteAndReadRequest(slave: byte, writeAddress: word, src: seq<word>, readAddress: word,
      readNb: word): seq<byte>
    requires |src| <= MAX_WR_WRITE_REGISTERS
  {
    RequestBasis(slave, WRITE_AND_READ_REGISTERS, readAddress, readNb) +
    [Hi(writeAddress), Lo(writeAddress), Hi(|src|), Lo(|src|), 2 * |src|] + WordBytes(src)
  }

  // ---------------------------------------------------------------- confirmations

  /** `Silent`: the call returns -1 without an answer that could be read. */
  datatype Outcome<T> = Ok(value: T) | Errno(code: int) | Silent

  /**
   * `check_confirmation`, given the request without and the response with its CRC, and the length the receive
   * path returned.
   */
  function CheckConfirmation(req: seq<byte>, rsp: seq<byte>, length: nat): Outcome<nat>
    requires |req| >= 6 && |rsp| >= 5 && (length == |rsp| || length == 0)
  {
    var fc := rsp[1];
    if req[0] != rsp[0] && req[0] != BROADCAST then Errno(EMBBADSLAVE)
    else if fc >= 0x80 then
      if length == 1 + 2 + 2 && req[1] == fc - 0x80 then
        if rsp[2] < EXCEPTION_MAX then Errno(ENOBASE + rsp[2]) else Errno(EMBBADEXC)
      else Errno(EMBBADEXC)
    else if length != ResponseLength(req) && ResponseLength(req) != -1 then Errno(EMBBADDATA)
    else if fc != req[1] then Errno(EMBBADDATA)
    else
      var counts :=
        if fc == READ_COILS || fc == READ_DISCRETE_INPUTS then (ByteCount(Word(req[4], req[5])), rsp[2])
        else if fc == WRITE_AND_READ_REGISTERS || fc == READ_HOLDING_REGISTERS || fc == READ_INPUT_REGISTERS then
          (Word(req[4], req[5]), rsp[2] / 2)
        else if fc == WRITE_MULTIPLE_COILS || fc == WRITE_MULTIPLE_REGISTERS then
          (Word(req[4], req[5]), Word(rsp[4], rsp[5]))
        else if fc == REPORT_SLAVE_ID then (rsp[2], rsp[2])
        else (1, 1);
      if counts.0 == counts.1 then Ok(counts.1) else Errno(EMBBADDATA)
  }

  /** `_modbus_receive_msg` followed by `check_confirmation`; no bytes at all stand for a time-out. */
  function Confirm(slave: byte, req: seq<byte>, answer: seq<byte>): Outcome<nat>
    requires |req| >= 6
  {
    if |answer| < 5 then Silent
    else
      match Receive(slave, answer, 0, Confirmation)
      case Refused => Silent
      case Passed(BadCrc) => Errno(EMBBADCRC)
      case Passed(Ignored) => CheckConfirmation(req, answer, 0)
      case Passed(Valid) => CheckConfirmation(req, answer, |answer|)
  }

  // ---------------------------------------------------------------- the link

  datatype Exchange = Exchange(m: Map, answer: seq<byte>) | ServerError

  /** A request over a perfect link to a server: received, checked, answered, unless it is a broadcast. */
  function Transact(server: int, m: Map, req: seq<byte>): Exchange
    requires Clean(m)
  {
    var frame := Seal(req);
    if |frame| < 4 || Receive(server, frame, 0, Indication) != Passed(Valid) then Exchange(m, [])
    else
      match Reply(m, frame)
      case Response(n, rsp) => Exchange(n, if frame[0] == BROADCAST then [] else Seal(rsp))
      case NoProtocol => Exchange(m, [])
      case MemoryError => ServerError
  }

  // ---------------------------------------------------------------- the calls

  datatype Call<T> = Call(m: Map, outcome: Outcome<T>) | Broken

  /** Send, receive, confirm, and decode what came back. */
  function Remote(slave: byte, m: Map, req: seq<byte>): (r: Call<(nat, seq<byte>)>)
    requires Clean(m) && |req| >= 6
  {
    match Transact(slave, m, req)
    case ServerError => Broken
    case Exchange(n, answer) =>
      match Confirm(slave, req, answer)
      case Ok(k) => Call(n, Ok((k, answer)))
      case Errno(e) => Call(n, Errno(e))
      case Silent => Call(n, Silent)
  }

  /** `modbus_read_registers` and `modbus_read_input_registers` */
  function ReadRegisters(slave: byte, m: Map, input: bool, address: word, nb: word): Call<seq<word>>
    requires Clean(m)
  {
    if nb > MAX_READ_REGISTERS then Call(m, Errno(EMBMDATA))
    else
      var req := RequestBasis(slave, if input then READ_INPUT_REGISTERS else READ_HOLDING_REGISTERS, address, nb);
      match Remote(slave, m, req)
      case Broken => Broken
      case Call(n, Ok((k, answer))) =>
        if |answer| < 3 + 2 * k then Broken else Call(n, Ok(BytesWords(answer[3..], k)))
      case Call(n, Errno(e)) => Call(n, Errno(e))
      case Call(n, Silent) => Call(n, Silent)
  }

  /** `modbus_read_bits` and `modbus_read_input_bits` */
  function ReadBits(slave: byte, m: Map, input: bool, address: word, nb: word): Call<seq<byte>>
    requires Clean(m)
  {
    if nb > MAX_READ_BITS then Call(m, Errno(EMBMDATA))
    else
      var req := RequestBasis(slave, if input then READ_DISCRETE_INPUTS else READ_COILS, address, nb);
      match Remote(slave, m, req)
      case Broken => Broken
      case Call(n, Ok((k, answer))) =>
        if |answer| < 3 + k || k != ByteCount(nb) then Broken else Call(n, Ok(Unpack(answer[3..3 + k], nb)))
      case Call(n, Errno(e)) => Call(n, Errno(e))
      case Call(n, Silent) => Call(n, Silent)
  }

  /** The writing calls return the number `check_confirmation` returns. */
  function CountOf(c: Call<(nat, seq<byte>)>): Call<nat> {
    match c
    case Broken => Broken
    case Call(n, Ok((k, answer))) => Call(n, Ok(k))
    case Call(n, Errno(e)) => Call(n, Errno(e))
    case Call(n, Silent) => Call(n, Silent)
  }

  /** `modbus_write_bit` */
  function WriteBit(slave: byte, m: Map, address: word, status: bool): Call<nat>
    requires Clean(m)
  {
    CountOf(Remote(slave, m, RequestBasis(slave, WRITE_SINGLE_COIL, address, if status then 0xFF00 else 0)))
  }

  /** `modbus_write_register` */
  function WriteRegister(slave: byte, m: Map, address: word, value: word): Call<nat>
    requires Clean(m)
  {
    CountOf(Remote(slave, m, RequestBasis(slave, WRITE_SINGLE_REGISTER, address, value)))
  }

  /** `modbus_write_bits` */
  function WriteBits(slave: byte, m: Map, address: word, src: seq<byte>): Call<nat>
    requires Clean(m)
  {
    if |src| > MAX_WRITE_BITS then Call(m, Errno(EMBMDATA))
    else CountOf(Remote(slave, m, WriteBitsRequest(slave, address, src)))
  }

  /** `modbus_write_registers` */
  function WriteRegisters(slave: byte, m: Map, address: word, src: seq<word>): Call<nat>
    requires Clean(m)
  {
    if |src| > MAX_WRITE_REGISTERS then Call(m, Errno(EMBMDATA))
    else CountOf(Remote(slave, m, WriteRegistersRequest(slave, address, src)))
  }

  /** `modbus_mask_write_register` */
  function MaskWriteRegister(slave: byte, m: Map, address: word, and_: word, or_: word): Call<nat>
    requires Clean(m)
  {
    CountOf(Remote(slave, m, MaskWriteRequest(slave, address, and_, or_)))
  }

  /** `modbus_write_and_read_registers` */
  function WriteAndReadRegisters(slave: byte, m: Map, writeAddress: word, src: seq<word>, readAddress: word,
      readNb: word): Call<seq<word>>
    requires Clean(m)
  {
    if |src| > MAX_WR_WRITE_REGISTERS || readNb > MAX_WR_READ_REGISTERS then Call(m, Errno(EMBMDATA))
    else
      match Remote(slave, m, WriteAndReadRequest(slave, writeAddress, src, readAddress, readNb))
      case Broken => Broken
      case Call(n, Ok((k, answer))) =>
        if |answer| < 3 + 2 * k then Broken else Call(n, Ok(BytesWords(answer[3..], k)))
      case Call(n, Errno(e)) => Call(n, Errno(e))
      case Call(n, Silent) => Call(n, Silent)
  }
}
