/** RTU framing: message lengths, the CRC at the end of a frame, and the receive path both sides share. */
module ModbusFrame {
  import opened Bytes
  import opened MessageBytes
  import opened Crc16

  // ---------------------------------------------------------------- constants

  const READ_COILS := 0x01
  const READ_DISCRETE_INPUTS := 0x02
  const READ_HOLDING_REGISTERS := 0x03
  const READ_INPUT_REGISTERS := 0x04
  const WRITE_SINGLE_COIL := 0x05
  const WRITE_SINGLE_REGISTER := 0x06
  const READ_EXCEPTION_STATUS := 0x07
  const WRITE_MULTIPLE_COILS := 0x0F
  const WRITE_MULTIPLE_REGISTERS := 0x10
  const REPORT_SLAVE_ID := 0x11
  const FILERECORD_WRITE := 0x15
  const MASK_WRITE_REGISTER := 0x16
  const WRITE_AND_READ_REGISTERS := 0x17

  const MAX_READ_BITS := 2000
  const MAX_WRITE_BITS := 1968
  const MAX_READ_REGISTERS := 125
  const MAX_WRITE_REGISTERS := 123
  const MAX_WR_WRITE_REGISTERS := 121
  const MAX_WR_READ_REGISTERS := 125

  const BROADCAST := 0
  const MAX_MESSAGE_LENGTH := 260

  const ILLEGAL_FUNCTION := 1
  const ILLEGAL_DATA_ADDRESS := 2
  const ILLEGAL_DATA_VALUE := 3
  const EXCEPTION_MAX := 12
  const ENOBASE := 0x100
  const EMBBADCRC := 0x10C
  const EMBBADDATA := 0x10D
  const EMBBADEXC := 0x10E
  const EMBMDATA := 0x110
  const EMBBADSLAVE := 0x111

  // ---------------------------------------------------------------- lengths

  datatype MsgType = Indication | Confirmation

  /** `compute_meta_length_after_function` */
  function MetaLength(fc: byte, kind: MsgType): nat {
    if kind == Indication then
      if fc <= WRITE_SINGLE_REGISTER then 4
      else if fc == WRITE_MULTIPLE_COILS || fc == WRITE_MULTIPLE_REGISTERS then 5
      else if fc == MASK_WRITE_REGISTER then 6
      else if fc == WRITE_AND_READ_REGISTERS then 9
      else 0
    else
      if fc == WRITE_SINGLE_COIL || fc == WRITE_SINGLE_REGISTER ||
         fc == WRITE_MULTIPLE_COILS || fc == WRITE_MULTIPLE_REGISTERS then 4
      else if fc == FILERECORD_WRITE then 1
      else if fc == MASK_WRITE_REGISTER then 6
      else 1
  }

  /** A cell of the receive buffer: what has arrived, and what an earlier message left behind it. */
  function Cell(msg: seq<byte>, stale: byte, k: nat): byte { if k < |msg| then msg[k] else stale }

  /** `compute_data_length_after_meta` without the checksum */
  function DataLength(msg: seq<byte>, stale: byte, kind: MsgType): nat {
    var fc := Cell(msg, stale, 1);
    if kind == Indication then
      if fc == WRITE_MULTIPLE_COILS || fc == WRITE_MULTIPLE_REGISTERS then Cell(msg, stale, 6)
      else if fc == WRITE_AND_READ_REGISTERS then Cell(msg, stale, 10)
      else 0
    else
      if fc <= READ_INPUT_REGISTERS || fc == REPORT_SLAVE_ID || fc == WRITE_AND_READ_REGISTERS || fc == FILERECORD_WRITE
      then Cell(msg, stale, 2)
      else 0
  }

  /** The length `_modbus_receive_msg` expects of the message in its buffer: header, function, rest and CRC. */
  function ExpectedLength(msg: seq<byte>, stale: byte, kind: MsgType): nat {
    1 + 1 + MetaLength(Cell(msg, stale, 1), kind) + DataLength(msg, stale, kind) + 2
  }

  predicate LengthRight(msg: seq<byte>, stale: byte, kind: MsgType) { |msg| == ExpectedLength(msg, stale, kind) }

  /** Whatever an earlier message left in the buffer, it cannot change whether a length is accepted. */
  lemma StaleBytesDoNotMatter(msg: seq<byte>, s: byte, t: byte, kind: MsgType)
    requires |msg| >= 2
    ensures LengthRight(msg, s, kind) == LengthRight(msg, t, kind)
  {}

  /** `compute_response_length_from_request`; none for a report of the slave ID. */
  function ResponseLength(req: seq<byte>): (n: int)
    requires |req| >= 6
  {
    if req[1] == READ_COILS || req[1] == READ_DISCRETE_INPUTS then 1 + (2 + ByteCount(Word(req[4], req[5]))) + 2
    else if req[1] == WRITE_AND_READ_REGISTERS || req[1] == READ_HOLDING_REGISTERS ||
        req[1] == READ_INPUT_REGISTERS then
      1 + (2 + 2 * Word(req[4], req[5])) + 2
    else if req[1] == READ_EXCEPTION_STATUS then 1 + 3 + 2
    else if req[1] == REPORT_SLAVE_ID then -1
    else if req[1] == MASK_WRITE_REGISTER then 1 + 7 + 2
    else 1 + 5 + 2
  }

  /** Bytes that hold `nb` bits. */
  function ByteCount(nb: nat): nat { nb / 8 + (if nb % 8 != 0 then 1 else 0) }

  // ---------------------------------------------------------------- the CRC of a frame

  function Seal(msg: seq<byte>): seq<byte> { msg + CrcBytes(msg) }

  lemma SealIsSealed(msg: seq<byte>)
    ensures Sealed(Seal(msg))
  {
    hide CrcBytes;
    assert Seal(msg)[..|msg|] == msg;
  }

  /** `_modbus_rtu_send_msg_pre`: append the CRC of the first `length` bytes. */
  method SendMsgPre(req: array<byte>, length: nat) returns (sealed: nat)
    requires length + 2 <= req.Length
    modifies req
    ensures sealed == length + 2
    ensures req[..sealed] == Seal(old(req[..length]))
    ensures req[sealed..] == old(req[length + 2..])
  {
    hide CrcWord, LowByte, HighByte;
    var crcHi, crcLo := Crc16Split(req[..length]);
    req[length] := crcHi as int;
    req[length + 1] := crcLo as int;
    sealed := length + 2;
  }

  // ---------------------------------------------------------------- receiving

  datatype Integrity = Ignored | Valid | BadCrc

  /** `_modbus_rtu_check_integrity` */
  function CheckIntegrity(slave: int, msg: seq<byte>): Integrity
    requires |msg| >= 2
  {
    if msg[0] != slave && msg[0] != BROADCAST then Ignored
    else if Sealed(msg) then Valid
    else BadCrc
  }

  method CheckIntegrityOf(slave: int, msg: array<byte>, length: nat) returns (r: Integrity)
    requires 2 <= length <= msg.Length
    ensures r == CheckIntegrity(slave, msg[..length])
  {
    hide CrcWord, LowByte, HighByte;
    if msg[0] != slave && msg[0] != BROADCAST {
      return Ignored;
    }
    assert msg[..length][..length - 2] == msg[..length - 2];
    assert msg[..length][length - 2..] == [msg[length - 2], msg[length - 1]];
    var crcHi, crcLo := Crc16Split(msg[..length - 2]);
    r := if msg[length - 2] == crcHi as int && msg[length - 1] == crcLo as int then Valid else BadCrc;
  }

  datatype Received = Refused | Passed(integrity: Integrity)

  /** `_modbus_receive_msg` for the bytes that arrived. */
  function Receive(slave: int, msg: seq<byte>, stale: byte, kind: MsgType): Received {
    if !LengthRight(msg, stale, kind) then Refused else Passed(CheckIntegrity(slave, msg))
  }

  method ReceiveMsg(slave: int, msg: array<byte>, rc: nat, kind: MsgType) returns (r: Received)
    requires 11 <= msg.Length && rc <= msg.Length
    ensures rc >= 2 ==> forall stale :: r == Receive(slave, msg[..rc], stale, kind)
    ensures rc < 2 ==> r == Refused
  {
    hide CheckIntegrity, Sealed;
    var fc := msg[1];
    var data: nat := 0;
    if kind == Indication {
      if fc == WRITE_MULTIPLE_COILS || fc == WRITE_MULTIPLE_REGISTERS {
        data := msg[6];
      } else if fc == WRITE_AND_READ_REGISTERS {
        data := msg[10];
      }
    } else if fc <= READ_INPUT_REGISTERS || fc == REPORT_SLAVE_ID ||
              fc == WRITE_AND_READ_REGISTERS || fc == FILERECORD_WRITE {
      data := msg[2];
    }
    var lengthToRead := 1 + 1 + MetaLength(fc, kind) + data + 2;
    if rc != lengthToRead {
      r := Refused;
    } else {
      var i := CheckIntegrityOf(slave, msg, rc);
      r := Passed(i);
    }
  }

  predicate OnlyNear(a: seq<byte>, b: seq<byte>, i: nat)
    requires |a| == |b|
  {
    i < |a| && forall k | 0 <= k < |a| && k != i && k != i + 1 :: a[k] == b[k]
  }

  predicate OnlyBurst(a: seq<byte>, b: seq<byte>, at: nat, n: nat)
    requires |a| == |b|
  {
    n <= 16 && at + n <= 8 * |a| && MessageBits(a)[..at] == MessageBits(b)[..at] &&
        MessageBits(a)[at + n..] == MessageBits(b)[at + n..]
  }

  /**
   * A frame in which one byte or two neighbours changed, or an odd number of bits, or bits within a burst of
   * sixteen.
   */
  ghost predicate Damaged(a: seq<byte>, b: seq<byte>) {
    && |a| == |b| && a != b
    && (|| (exists i: nat :: OnlyNear(a, b, i))
        || Distance(MessageBits(a), MessageBits(b)) % 2 == 1
        || (exists at: nat, n: nat :: OnlyBurst(a, b, at, n)))
  }

  /** A damaged frame is never accepted. */
  lemma DamagedFrameNeverValid(slave: int, a: seq<byte>, b: seq<byte>)
    requires |a| >= 2 && CheckIntegrity(slave, a) == Valid && Damaged(a, b)
    ensures CheckIntegrity(slave, b) != Valid
  {
    hide Sealed, Distance, MessageBits;
    if Distance(MessageBits(a), MessageBits(b)) % 2 == 1 {
      OddDamageDetected(a, b);
    } else if i: nat :| OnlyNear(a, b, i) {
      AdjacentDamageDetected(a, b, i);
    } else {
      var at: nat, n: nat :| OnlyBurst(a, b, at, n);
      BurstDamageDetected(a, b, at, n);
    }
  }
}
