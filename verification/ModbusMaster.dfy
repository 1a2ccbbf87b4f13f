/** The client's code: requests built in a buffer, sent to a device over a perfect link, and the answers decoded. */
module ModbusMaster {
  import opened Bytes
  import opened Crc16
  import opened ModbusFrame
  import opened ModbusBits
  import opened ModbusServer
  import opened ModbusClient
  import opened ModbusRemote
  import opened ModbusDevice

  /** The bytes of a message arrive in a buffer. */
  method Arrive(bytes: seq<byte>, buffer: array<byte>)
    requires |bytes| <= buffer.Length
    modifies buffer
    ensures buffer[..|bytes|] == bytes
  {
    for i := 0 to |bytes|
      invariant buffer[..i] == bytes[..i]
    {
      buffer[i] := bytes[i];
    }
  }

  /** A device that answers for the slave address `slave`: `modbus_receive`, then `modbus_reply`. */
  class Device {
    const slave: byte
    const mb: Mapping
    const query: array<byte>
    const rsp: array<byte>

    constructor (slave: byte, mb: Mapping)
      requires mb.Valid()
      ensures this.slave == slave && this.mb == mb && Valid() && fresh(query) && fresh(rsp)
    {
      this.slave, this.mb := slave, mb;
      query := new byte[MAX_MESSAGE_LENGTH](i => 0);
      rsp := new byte[MAX_MESSAGE_LENGTH](i => 0);
    }

    ghost predicate Valid()
      reads mb.Tables()
    {
      && mb.Valid()
      && query.Length == MAX_MESSAGE_LENGTH && rsp.Length == MAX_MESSAGE_LENGTH
      && query != rsp && query !in mb.Tables() && rsp !in mb.Tables()
    }

    method Serve(ghost req: seq<byte>, frame: seq<byte>) returns (answer: seq<byte>)
      requires Valid() && |req| >= 2 && frame == Seal(req) && |frame| <= MAX_MESSAGE_LENGTH
      requires Transact(slave, mb.Value(), req) != ServerError
      modifies query, rsp, mb.tabBits, mb.tabRegisters
      ensures Valid() && |answer| <= MAX_MESSAGE_LENGTH
      ensures Transact(slave, old(mb.Value()), req) == Exchange(mb.Value(), answer)
    {
      hide Seal, Reply, Receive, LengthRight, Clean;
      SealedPart(req);
      var received := Listen(frame);
      if received != Passed(Integrity.Valid) {
        return [];
      }
      IndicatedWhenReceived(slave, frame);
      var rc;
      rc, answer := ModbusReply(mb, frame, rsp);
    }

    /** `modbus_receive`: the bytes of the line arrive in the buffer and are checked. */
    method Listen(frame: seq<byte>) returns (received: Received)
      requires query.Length == MAX_MESSAGE_LENGTH && 2 <= |frame| <= MAX_MESSAGE_LENGTH
      modifies query
      ensures received == Receive(slave, frame, 0, Indication)
    {
      hide Receive;
      Arrive(frame, query);
      received := ReceiveMsg(slave, query, |frame|, Indication);
      assert received == Receive(slave, query[..|frame|], 0, Indication);
    }
  }

  lemma IndicatedWhenReceived(slave: byte, frame: seq<byte>)
    requires |frame| >= 2 && Receive(slave, frame, 0, Indication) == Passed(Valid)
    ensures Indicated(frame)
  {}

  lemma DecodesAlike(buffer: seq<byte>, n: nat, k: nat)
    requires 3 + 2 * k <= n <= |buffer|
    ensures BytesWords(buffer[3..], k) == BytesWords(buffer[..n][3..], k)
  {
    hide Word;
  }

  /** The client: `libmodbuserrno`, its message buffers, and the device at the other end. */
  class Client {
    const device: Device
    const req: array<byte>
    const rsp: array<byte>
    var errno: int

    constructor (device: Device)
      requires device.Valid() && 1 <= device.slave <= 247
      ensures this.device == device && Valid() && fresh(req) && fresh(rsp)
    {
      this.device := device;
      req := new byte[MAX_MESSAGE_LENGTH](i => 0);
      rsp := new byte[MAX_MESSAGE_LENGTH](i => 0);
      errno := 0;
    }

    ghost function Buffers(): set<object> {
      {req as object, rsp as object, device.query as object, device.rsp as object}
    }

    ghost predicate Valid()
      reads device.mb.Tables()
    {
      && device.Valid() && 1 <= device.slave <= 247
      && req.Length == MAX_MESSAGE_LENGTH && rsp.Length == MAX_MESSAGE_LENGTH
      && req != rsp && device.query != req && device.query != rsp && device.rsp != req && device.rsp != rsp
      && Buffers() !! device.mb.Tables()
    }

    ghost function Remembered(): Map
      reads device.mb.Tables()
    {
      device.mb.Value()
    }

    /** `_modbus_rtu_build_request_basis` */
    method BuildBasis(fc: byte, address: word, nb: word) returns (length: nat)
      requires req.Length == MAX_MESSAGE_LENGTH
      modifies req
      ensures length == 6 && req[..length] == RequestBasis(device.slave, fc, address, nb)
    {
      req[0], req[1] := device.slave, fc;
      req[2], req[3] := Hi(address), Lo(address);
      req[4], req[5] := Hi(nb), Lo(nb);
      length := 6;
    }

    /** `_modbus_receive_msg` and `check_confirmation` for the `n` bytes that arrived. */
    method Accept(length: nat, n: nat) returns (rc: int)
      requires 6 <= length <= req.Length && n <= rsp.Length == MAX_MESSAGE_LENGTH
      modifies this`errno
      ensures match Confirm(device.slave, req[..length], rsp[..n])
              case Ok(k) => rc == k
              case Errno(e) => rc == -1 && errno == e
              case Silent => rc == -1
    {
      hide CheckConfirmation, Receive;
      if n < 5 {
        return -1;
      }
      var received := ReceiveMsg(device.slave, rsp, n, Confirmation);
      assert received == Receive(device.slave, rsp[..n], 0, Confirmation);
      match received {
        case Refused =>
          return -1;
        case Passed(i) =>
          if i == BadCrc {
            errno := EMBBADCRC;
            return -1;
          }
          var outcome := CheckConfirmation(req[..length], rsp[..n], if i == Ignored then 0 else n);
          match outcome {
            case Ok(k) =>
              return k;
            case Errno(e) =>
              errno := e;
              return -1;
            case Silent =>
              return -1;
          }
      }
    }

    /** Send the request, receive and check the answer: what every call ends with. */
    method Query(length: nat) returns (rc: int)
      requires Valid() && 6 <= length <= MAX_MESSAGE_LENGTH - 2
      requires Remote(device.slave, Remembered(), req[..length]) != Broken
      modifies this, Buffers(), device.mb.tabBits, device.mb.tabRegisters
      ensures Valid()
      ensures match Remote(device.slave, old(Remembered()), old(req[..length]))
              case Call(n, Ok((k, answer))) =>
                  Remembered() == n && rc == k && |answer| <= rsp.Length && rsp[..|answer|] == answer
              case Call(n, Errno(e)) => Remembered() == n && rc == -1 && errno == e
              case Call(n, Silent) => Remembered() == n && rc == -1
              case Broken => false
    {
      hide Seal, Transact, Confirm, Clean;
      ghost var request := req[..length];
      var total := SendMsgPre(req, length);
      SealedPart(request);
      var answer := device.Serve(request, req[..total]);
      assert req[..length] == req[..total][..length] == request;
      Arrive(answer, rsp);
      rc := Accept(length, |answer|);
    }

    /** `read_registers`, behind `modbus_read_registers` and `modbus_read_input_registers` */
    method ReadRegisters(input: bool, address: word, nb: word, dest: array<word>) returns (rc: int)
      requires Valid() && nb <= dest.Length && dest !in Buffers() && dest !in device.mb.Tables()
      modifies this, Buffers(), device.mb.tabBits, device.mb.tabRegisters, dest
      ensures Valid()
      ensures match DirectReadRegisters(old(Remembered()), input, address, nb)
              case Call(n, Ok(rs)) =>
                  Remembered() == n && rc == |rs| <= dest.Length && dest[..] == rs + old(dest[..])[|rs|..]
              case Call(n, Errno(e)) => Remembered() == n && rc == -1 && errno == e && dest[..] == old(dest[..])
              case _ => false
    {
      hide Remote, Clean, BytesWords, Word;
      ReadRegistersIsDirect(device.slave, Remembered(), input, address, nb);
      if nb > MAX_READ_REGISTERS {
        errno := EMBMDATA;
        return -1;
      }
      var length := BuildBasis(if input then READ_INPUT_REGISTERS else READ_HOLDING_REGISTERS, address, nb);
      ghost var remote := Remote(device.slave, Remembered(), req[..length]);
      rc := Query(length);
      if rc == -1 {
        return;
      }
      DecodesAlike(rsp[..], |remote.outcome.value.1|, rc);
      Decode(rc, dest);
    }

    /** The loop that reads registers out of an answer. */
    method Decode(rc: nat, dest: array<word>)
      requires 3 + 2 * rc <= rsp.Length && rc <= dest.Length && dest as object != rsp
      modifies dest
      ensures dest[..] == BytesWords(rsp[3..], rc) + old(dest[..])[rc..]
    {
      hide Word;
      for i := 0 to rc
        invariant forall j | 0 <= j < dest.Length ::
                  dest[j] == if j < i then BytesWords(rsp[3..], rc)[j] else old(dest[j])
      {
        dest[i] := Word(rsp[3 + 2 * i], rsp[3 + 2 * i + 1]);
      }
    }

    /** `modbus_read_bits` and `modbus_read_input_bits` */
    method ReadBits(input: bool, address: word, nb: word, dest: array<byte>) returns (rc: int)
      requires Valid() && nb <= dest.Length && dest !in Buffers() && dest !in device.mb.Tables()
      modifies this, Buffers(), device.mb.tabBits, device.mb.tabRegisters, dest
      ensures Valid()
      ensures match DirectReadBits(old(Remembered()), input, address, nb)
              case Call(n, Ok(bits)) =>
                  Remembered() == n && rc == |bits| <= dest.Length && dest[..] == bits + old(dest[..])[|bits|..]
              case Call(n, Errno(e)) => Remembered() == n && rc == -1 && errno == e && dest[..] == old(dest[..])
              case _ => false
    {
      hide Remote, Clean, Unpack;
      ReadBitsIsDirect(device.slave, Remembered(), input, address, nb);
      if nb > MAX_READ_BITS {
        errno := EMBMDATA;
        return -1;
      }
      var length := BuildBasis(if input then READ_DISCRETE_INPUTS else READ_COILS, address, nb);
      ghost var remote := Remote(device.slave, Remembered(), req[..length]);
      rc := Query(length);
      if rc == -1 {
        return;
      }
      assert rsp[..|remote.outcome.value.1|][3..3 + rc] == rsp[3..3 + rc];
      UnpackStatus(rsp[3..3 + rc], nb, dest);
      rc := nb;
    }

    /** What a writing call tells its caller. */
    ghost predicate Tells(direct: Call<nat>, rc: int)
      reads this, device.mb.Tables()
    {
      match direct
      case Call(n, Ok(k)) => Remembered() == n && rc == k
      case Call(n, Errno(e)) => Remembered() == n && rc == -1 && errno == e
      case _ => false
    }

    method Written(length: nat) returns (rc: int)
      requires Valid() && 6 <= length <= MAX_MESSAGE_LENGTH - 2
      requires var direct := CountOf(Remote(device.slave, Remembered(), req[..length]));
               direct.Call? && !direct.outcome.Silent?
      modifies this, Buffers(), device.mb.tabBits, device.mb.tabRegisters
      ensures Valid() && Tells(old(CountOf(Remote(device.slave, Remembered(), req[..length]))), rc)
    {
      hide Remote;
      rc := Query(length);
    }

    /** `modbus_write_bit`, through `write_single` */
    method WriteBit(address: word, status: bool) returns (rc: int)
      requires Valid()
      modifies this, Buffers(), device.mb.tabBits, device.mb.tabRegisters
      ensures Valid() && Tells(DirectWriteBit(old(Remembered()), address, status), rc)
    {
      hide Remote, Clean;
      WriteBitIsDirect(device.slave, Remembered(), address, status);
      var length := BuildBasis(WRITE_SINGLE_COIL, address, if status then 0xFF00 else 0);
      rc := Written(length);
    }

    /** `modbus_write_register`, through `write_single` */
    method WriteRegister(address: word, value: word) returns (rc: int)
      requires Valid()
      modifies this, Buffers(), device.mb.tabBits, device.mb.tabRegisters
      ensures Valid() && Tells(DirectWriteRegister(old(Remembered()), address, value), rc)
    {
      hide Remote, Clean;
      WriteRegisterIsDirect(device.slave, Remembered(), address, value);
      var length := BuildBasis(WRITE_SINGLE_REGISTER, address, value);
      rc := Written(length);
    }

    /** `modbus_write_bits` */
    method WriteBits(address: word, src: seq<byte>) returns (rc: int)
      requires Valid()
      modifies this, Buffers(), device.mb.tabBits, device.mb.tabRegisters
      ensures Valid() && Tells(DirectWriteBits(old(Remembered()), address, src), rc)
    {
      hide Remote, Clean, Pack, Truth, Splice;
      WriteBitsIsDirect(device.slave, Remembered(), address, src);
      if |src| > MAX_WRITE_BITS {
        errno := EMBMDATA;
        return -1;
      }
      var length := BuildBasis(WRITE_MULTIPLE_COILS, address, |src|);
      req[length] := ByteCount(|src|);
      assert req[..length + 1] == RequestBasis(device.slave, WRITE_MULTIPLE_COILS, address, |src|) + [ByteCount(|src|)];
      length := AppendBits(req, length + 1, src);
      assert req[..length] == WriteBitsRequest(device.slave, address, src);
      rc := Written(length);
    }

    /** `modbus_write_registers` */
    method WriteRegisters(address: word, src: seq<word>) returns (rc: int)
      requires Valid()
      modifies this, Buffers(), device.mb.tabBits, device.mb.tabRegisters
      ensures Valid() && Tells(DirectWriteRegisters(old(Remembered()), address, src), rc)
    {
      hide Remote, Clean, WordBytes, Splice;
      WriteRegistersIsDirect(device.slave, Remembered(), address, src);
      if |src| > MAX_WRITE_REGISTERS {
        errno := EMBMDATA;
        return -1;
      }
      var length := BuildBasis(WRITE_MULTIPLE_REGISTERS, address, |src|);
      req[length] := 2 * |src|;
      assert req[..length + 1] == RequestBasis(device.slave, WRITE_MULTIPLE_REGISTERS, address, |src|) + [2 * |src|];
      length := AppendWords(src, req, length + 1);
      assert req[..length] == WriteRegistersRequest(device.slave, address, src);
      rc := Written(length);
    }

    /** `modbus_mask_write_register`: the unused count of the header is overwritten. */
    method MaskWriteRegister(address: word, and_: word, or_: word) returns (rc: int)
      requires Valid()
      modifies this, Buffers(), device.mb.tabBits, device.mb.tabRegisters
      ensures Valid() && Tells(DirectMaskWrite(old(Remembered()), address, and_, or_), rc)
    {
      hide Remote, Clean, Masked;
      MaskWriteIsDirect(device.slave, Remembered(), address, and_, or_);
      var length := BuildBasis(MASK_WRITE_REGISTER, address, 0);
      assert req[..4] == req[..6][..4];
      length := length - 2;
      req[length], req[length + 1] := Hi(and_), Lo(and_);
      req[length + 2], req[length + 3] := Hi(or_), Lo(or_);
      length := length + 4;
      assert req[..length] == MaskWriteRequest(device.slave, address, and_, or_);
      rc := Written(length);
    }

    /** `modbus_write_and_read_registers`, for every call that does not write below the mapping. */
    method WriteAndReadRegisters(writeAddress: word, src: seq<word>, readAddress: word, readNb: word,
        dest: array<word>) returns (rc: int)
      requires Valid() && readNb <= dest.Length && dest !in Buffers() && dest !in device.mb.Tables()
      requires !WritesBelow(Remembered(), writeAddress, src, readAddress, readNb)
      modifies this, Buffers(), device.mb.tabBits, device.mb.tabRegisters, dest
      ensures Valid()
      ensures match DirectWriteAndRead(old(Remembered()), writeAddress, src, readAddress, readNb)
              case Call(n, Ok(rs)) =>
                  Remembered() == n && rc == |rs| <= dest.Length && dest[..] == rs + old(dest[..])[|rs|..]
              case Call(n, Errno(e)) => Remembered() == n && rc == -1 && errno == e && dest[..] == old(dest[..])
              case _ => false
    {
      hide Remote, Clean, BytesWords, Word, WordBytes, Splice;
      WriteAndReadIsDirectExactlyWhen(device.slave, Remembered(), writeAddress, src, readAddress, readNb);
      if |src| > MAX_WR_WRITE_REGISTERS || readNb > MAX_WR_READ_REGISTERS {
        errno := EMBMDATA;
        return -1;
      }
      var length := BuildWriteAndRead(writeAddress, src, readAddress, readNb);
      ghost var remote := Remote(device.slave, Remembered(), req[..length]);
      rc := Query(length);
      if rc == -1 {
        return;
      }
      DecodesAlike(rsp[..], |remote.outcome.value.1|, rc);
      Decode(rc, dest);
    }

    method BuildWriteAndRead(writeAddress: word, src: seq<word>, readAddress: word, readNb: word) returns (length: nat)
      requires req.Length == MAX_MESSAGE_LENGTH && |src| <= MAX_WR_WRITE_REGISTERS
      modifies req
      ensures 6 <= length <= req.Length - 2
      ensures req[..length] == WriteAndReadRequest(device.slave, writeAddress, src, readAddress, readNb)
    {
      hide WordBytes;
      length := BuildBasis(WRITE_AND_READ_REGISTERS, readAddress, readNb);
      req[length], req[length + 1] := Hi(writeAddress), Lo(writeAddress);
      req[length + 2], req[length + 3] := Hi(|src|), Lo(|src|);
      req[length + 4] := 2 * |src|;
      assert req[..11] == RequestBasis(device.slave, WRITE_AND_READ_REGISTERS, readAddress, readNb) +
                          [Hi(writeAddress), Lo(writeAddress), Hi(|src|), Lo(|src|), 2 * |src|];
      length := AppendWords(src, req, length + 5);
    }
  }
}
