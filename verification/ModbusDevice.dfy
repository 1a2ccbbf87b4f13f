/** The server's code: `modbus_reply` over mapping tables and a response buffer that it changes in place. */
module ModbusDevice {
  import opened Bytes
  import opened Crc16
  import opened ModbusFrame
  import opened ModbusBits
  import opened ModbusServer

  /** `modbus_mapping_t` */
  class Mapping {
    const startBits: nat
    const tabBits: array<byte>
    const startInputBits: nat
    const tabInputBits: array<byte>
    const startRegisters: nat
    const tabRegisters: array<word>
    const startInputRegisters: nat
    const tabInputRegisters: array<word>
    const identity: seq<byte>   // "LMB" and the version string

    constructor (startBits: nat, nbBits: nat, startInputBits: nat, nbInputBits: nat,
                 startRegisters: nat, nbRegisters: nat, startInputRegisters: nat, nbInputRegisters: nat,
                     identity: seq<byte>)
      requires |identity| <= 240
      ensures Valid() && fresh(Tables())
      ensures Value() ==
              Map(startBits, Zeros(nbBits), startInputBits, Zeros(nbInputBits), startRegisters, Zeros(nbRegisters),
                             startInputRegisters, Zeros(nbInputRegisters), identity)
    {
      this.startBits, this.startInputBits := startBits, startInputBits;
      this.startRegisters, this.startInputRegisters := startRegisters, startInputRegisters;
      tabBits := new byte[nbBits](i => 0);
      tabInputBits := new byte[nbInputBits](i => 0);
      tabRegisters := new word[nbRegisters](i => 0);
      tabInputRegisters := new word[nbInputRegisters](i => 0);
      this.identity := identity;
    }

    ghost function Tables(): set<object> {
      {tabBits as object, tabInputBits as object, tabRegisters as object, tabInputRegisters as object}
    }

    ghost function Value(): Map
      reads Tables()
    {
      Map(startBits, tabBits[..], startInputBits, tabInputBits[..],
          startRegisters, tabRegisters[..], startInputRegisters, tabInputRegisters[..], identity)
    }

    ghost predicate Valid()
      reads Tables()
    {
      && tabBits != tabInputBits && tabRegisters != tabInputRegisters
      && tabBits as object != tabRegisters && tabBits as object != tabInputRegisters
      && tabInputBits as object != tabRegisters && tabInputBits as object != tabInputRegisters
      && Clean(Value())
    }
  }

  function Zeros(n: nat): (s: seq<byte>) { seq(n, i => 0) }

  /** `response_exception` */
  method ResponseException(req: seq<byte>, code: byte, rsp: array<byte>) returns (length: nat)
    requires |req| >= 2 && rsp.Length >= 3
    modifies rsp
    ensures length == 3 && rsp[..length] == Exception(req, code)
  {
    rsp[0], rsp[1], rsp[2] := req[0], (req[1] as int + 0x80) % 0x100, code;
    length := 3;
  }

  /** A mapping and a response buffer that is none of its tables. */
  ghost predicate Ready(mb: Mapping, rsp: array<byte>, req: seq<byte>)
    reads mb.Tables()
  {
    mb.Valid() && rsp !in mb.Tables() && rsp.Length == MAX_MESSAGE_LENGTH && Indicated(req)
  }

  lemma CleanCells(m: Map)
    requires Clean(m)
    ensures AllBits(m.bits) && AllBits(m.inputBits)
  {}

  method DoReadBits(mb: Mapping, req: seq<byte>, rsp: array<byte>) returns (length: nat)
    requires Ready(mb, rsp, req) && req[1] in {READ_COILS, READ_DISCRETE_INPUTS}
    modifies rsp
    ensures length + 2 <= rsp.Length && ReplyReadBits(mb.Value(), req) == Response(mb.Value(), rsp[..length])
  {
    hide Pack, Word, Clean, AllBits;
    var isInput := req[1] == READ_DISCRETE_INPUTS;
    var start := if isInput then mb.startInputBits else mb.startBits;
    var cells := if isInput then mb.tabInputBits[..] else mb.tabBits[..];
    assert AllBits(cells) by {
      CleanCells(mb.Value());
    }
    var nb: int := Word(req[4], req[5]);
    var mappingAddress := Word(req[2], req[3]) - start;
    if nb < 1 || MAX_READ_BITS < nb {
      length := ResponseException(req, ILLEGAL_DATA_VALUE, rsp);
    } else if mappingAddress < 0 || mappingAddress + nb > |cells| {
      length := ResponseException(req, ILLEGAL_DATA_ADDRESS, rsp);
    } else {
      rsp[0], rsp[1], rsp[2] := req[0], req[1], ByteCount(nb);
      assert rsp[..3] == [req[0], req[1], ByteCount(nb)];
      length := ResponseIoStatus(cells, mappingAddress, nb, rsp, 3);
    }
  }

  lemma WordBytesSnoc(rs: seq<word>, r: word)
    ensures WordBytes(rs + [r]) == WordBytes(rs) + [Hi(r), Lo(r)]
  {
    assert (rs + [r])[..|rs|] == rs;
  }

  /** The loop that appends registers to a message, high byte first. */
  method AppendWords(values: seq<word>, buffer: array<byte>, offset: nat) returns (end: nat)
    requires offset + 2 * |values| <= buffer.Length
    modifies buffer
    ensures end == offset + 2 * |values| && buffer[..end] == old(buffer[..offset]) + WordBytes(values)
    ensures buffer[end..] == old(buffer[end..])
  {
    hide WordBytes;
    ghost var head := buffer[..offset];
    end := offset;
    assert WordBytes([]) == [];
    assert values[..0] == [];
    for i := 0 to |values|
      invariant end == offset + 2 * i
      invariant buffer[..end] == head + WordBytes(values[..i])
      invariant buffer[end..] == old(buffer[..])[end..]
    {
      assert values[..i + 1] == values[..i] + [values[i]];
      WordBytesSnoc(values[..i], values[i]);
      buffer[end] := Hi(values[i]);
      buffer[end + 1] := Lo(values[i]);
      end := end + 2;
    }
    assert values[..|values|] == values;
  }

  method DoReadRegisters(mb: Mapping, req: seq<byte>, rsp: array<byte>) returns (length: nat)
    requires Ready(mb, rsp, req) && req[1] in {READ_HOLDING_REGISTERS, READ_INPUT_REGISTERS}
    modifies rsp
    ensures length + 2 <= rsp.Length && ReplyReadRegisters(mb.Value(), req) == Response(mb.Value(), rsp[..length])
  {
    hide Word, WordBytes, Clean;
    var isInput := req[1] == READ_INPUT_REGISTERS;
    var start := if isInput then mb.startInputRegisters else mb.startRegisters;
    var cells := if isInput then mb.tabInputRegisters[..] else mb.tabRegisters[..];
    var nb: int := Word(req[4], req[5]);
    var mappingAddress := Word(req[2], req[3]) - start;
    if nb < 1 || MAX_READ_REGISTERS < nb {
      length := ResponseException(req, ILLEGAL_DATA_VALUE, rsp);
    } else if mappingAddress < 0 || mappingAddress + nb > |cells| {
      length := ResponseException(req, ILLEGAL_DATA_ADDRESS, rsp);
    } else {
      rsp[0], rsp[1], rsp[2] := req[0], req[1], 2 * nb;
      assert rsp[..3] == [req[0], req[1], 2 * nb];
      length := AppendWords(cells[mappingAddress..mappingAddress + nb], rsp, 3);
    }
  }

  /** `memcpy` of the head of the request. */
  method Echo(req: seq<byte>, length: nat, rsp: array<byte>)
    requires length <= |req| && length <= rsp.Length
    modifies rsp
    ensures rsp[..length] == req[..length]
  {
    for i := 0 to length
      invariant rsp[..i] == req[..i]
    {
      rsp[i] := req[i];
    }
  }

  method DoWriteBit(mb: Mapping, req: seq<byte>, rsp: array<byte>) returns (length: nat)
    requires Ready(mb, rsp, req) && req[1] == WRITE_SINGLE_COIL
    modifies rsp, mb.tabBits
    ensures mb.Valid() && length + 2 <= rsp.Length &&
            ReplyWriteBit(old(mb.Value()), req) == Response(mb.Value(), rsp[..length])
  {
    hide Word;
    var mappingAddress := Word(req[2], req[3]) - mb.startBits;
    if mappingAddress < 0 || mappingAddress >= mb.tabBits.Length {
      length := ResponseException(req, ILLEGAL_DATA_ADDRESS, rsp);
    } else {
      var data := Word(req[4], req[5]);
      if data == 0xFF00 || data == 0 {
        mb.tabBits[mappingAddress] := if data != 0 then 1 else 0;
        Echo(req, |req| - 2, rsp);
        length := |req| - 2;
      } else {
        length := ResponseException(req, ILLEGAL_DATA_VALUE, rsp);
      }
    }
  }

  method DoWriteRegister(mb: Mapping, req: seq<byte>, rsp: array<byte>) returns (length: nat)
    requires Ready(mb, rsp, req) && req[1] == WRITE_SINGLE_REGISTER
    modifies rsp, mb.tabRegisters
    ensures mb.Valid() && length + 2 <= rsp.Length &&
            ReplyWriteRegister(old(mb.Value()), req) == Response(mb.Value(), rsp[..length])
  {
    hide Word;
    var mappingAddress := Word(req[2], req[3]) - mb.startRegisters;
    if mappingAddress < 0 || mappingAddress >= mb.tabRegisters.Length {
      length := ResponseException(req, ILLEGAL_DATA_ADDRESS, rsp);
    } else {
      mb.tabRegisters[mappingAddress] := Word(req[4], req[5]);
      Echo(req, |req| - 2, rsp);
      length := |req| - 2;
    }
  }

  method DoWriteBits(mb: Mapping, req: seq<byte>, rsp: array<byte>) returns (length: nat)
    requires Ready(mb, rsp, req) && req[1] == WRITE_MULTIPLE_COILS
    modifies rsp, mb.tabBits
    ensures mb.Valid() && length + 2 <= rsp.Length &&
            ReplyWriteBits(old(mb.Value()), req) == Response(mb.Value(), rsp[..length])
  {
    hide Word, Unpack;
    var nb: int, nbBytes: int := Word(req[4], req[5]), req[6];
    var mappingAddress := Word(req[2], req[3]) - mb.startBits;
    if nb < 1 || MAX_WRITE_BITS < nb || nbBytes * 8 < nb {
      length := ResponseException(req, ILLEGAL_DATA_VALUE, rsp);
    } else if mappingAddress < 0 || mappingAddress + nb > mb.tabBits.Length {
      length := ResponseException(req, ILLEGAL_DATA_ADDRESS, rsp);
    } else {
      ghost var was := mb.tabBits[..];
      SetBitsFromBytes(mb.tabBits, mappingAddress, nb, req[7..7 + nbBytes]);
      assert mb.tabBits[..] == Splice(was, mappingAddress, Unpack(req[7..7 + nbBytes], nb));
      Echo(req, 6, rsp);
      length := 6;
    }
  }

  /** The loop that stores the registers of a message. */
  method StoreWords(bytes: seq<byte>, nb: nat, tab: array<word>, at: nat)
    requires |bytes| == 2 * nb && at + nb <= tab.Length
    modifies tab
    ensures tab[..] == Splice(old(tab[..]), at, BytesWords(bytes, nb))
  {
    hide Word;
    for i := 0 to nb
      invariant forall j | 0 <= j < tab.Length ::
                tab[j] == if at <= j < at + i then BytesWords(bytes, nb)[j - at] else old(tab[j])
    {
      tab[at + i] := Word(bytes[2 * i], bytes[2 * i + 1]);
    }
  }

  method DoWriteRegisters(mb: Mapping, req: seq<byte>, rsp: array<byte>) returns (length: nat)
    requires Ready(mb, rsp, req) && req[1] == WRITE_MULTIPLE_REGISTERS
    modifies rsp, mb.tabRegisters
    ensures mb.Valid() && length + 2 <= rsp.Length &&
            ReplyWriteRegisters(old(mb.Value()), req) == Response(mb.Value(), rsp[..length])
  {
    hide Word, BytesWords, Splice;
    var nb: int, nbBytes: int := Word(req[4], req[5]), req[6];
    var mappingAddress := Word(req[2], req[3]) - mb.startRegisters;
    if nb < 1 || MAX_WRITE_REGISTERS < nb || nbBytes != nb * 2 {
      length := ResponseException(req, ILLEGAL_DATA_VALUE, rsp);
    } else if mappingAddress < 0 || mappingAddress + nb > mb.tabRegisters.Length {
      length := ResponseException(req, ILLEGAL_DATA_ADDRESS, rsp);
    } else {
      StoreWords(req[7..7 + nbBytes], nb, mb.tabRegisters, mappingAddress);
      Echo(req, 6, rsp);
      length := 6;
    }
  }

  method DoMaskWrite(mb: Mapping, req: seq<byte>, rsp: array<byte>) returns (length: nat)
    requires Ready(mb, rsp, req) && req[1] == MASK_WRITE_REGISTER
    modifies rsp, mb.tabRegisters
    ensures mb.Valid() && length + 2 <= rsp.Length &&
            ReplyMaskWrite(old(mb.Value()), req) == Response(mb.Value(), rsp[..length])
  {
    hide Word, Masked;
    var mappingAddress := Word(req[2], req[3]) - mb.startRegisters;
    if mappingAddress < 0 || mappingAddress >= mb.tabRegisters.Length {
      length := ResponseException(req, ILLEGAL_DATA_ADDRESS, rsp);
    } else {
      var data := mb.tabRegisters[mappingAddress];
      mb.tabRegisters[mappingAddress] := Masked(data, Word(req[4], req[5]), Word(req[6], req[7]));
      Echo(req, |req| - 2, rsp);
      length := |req| - 2;
    }
  }

  method DoWriteAndRead(mb: Mapping, req: seq<byte>, rsp: array<byte>) returns (length: nat)
    requires Ready(mb, rsp, req) && req[1] == WRITE_AND_READ_REGISTERS &&
             ReplyWriteAndRead(mb.Value(), req) != MemoryError
    modifies rsp, mb.tabRegisters
    ensures mb.Valid() && length + 2 <= rsp.Length &&
            ReplyWriteAndRead(old(mb.Value()), req) == Response(mb.Value(), rsp[..length])
  {
    hide Word, BytesWords, Splice, WordBytes;
    var nb: int, nbWrite: int, nbWriteBytes: int := Word(req[4], req[5]), Word(req[8], req[9]), req[10];
    var mappingAddress := Word(req[2], req[3]) - mb.startRegisters;
    var mappingAddressWrite := Word(req[6], req[7]) - mb.startRegisters;
    if nbWrite < 1 || MAX_WR_WRITE_REGISTERS < nbWrite || nb < 1 || MAX_WR_READ_REGISTERS < nb ||
        nbWriteBytes != nbWrite * 2 {
      length := ResponseException(req, ILLEGAL_DATA_VALUE, rsp);
    } else if mappingAddress < 0 || mappingAddress + nb > mb.tabRegisters.Length ||
              mappingAddress < 0 || mappingAddressWrite + nbWrite > mb.tabRegisters.Length {
      length := ResponseException(req, ILLEGAL_DATA_ADDRESS, rsp);
    } else {
      rsp[0], rsp[1], rsp[2] := req[0], req[1], 2 * nb;
      assert rsp[..3] == [req[0], req[1], 2 * nb];
      StoreWords(req[11..11 + nbWriteBytes], nbWrite, mb.tabRegisters, mappingAddressWrite);
      length := AppendWords(mb.tabRegisters[mappingAddress..mappingAddress + nb], rsp, 3);
    }
  }

  method DoSlaveId(mb: Mapping, req: seq<byte>, rsp: array<byte>) returns (length: nat)
    requires Ready(mb, rsp, req)
    modifies rsp
    ensures length + 2 <= rsp.Length && ReplySlaveId(mb.Value(), req) == Response(mb.Value(), rsp[..length])
  {
    rsp[0], rsp[1], rsp[3], rsp[4] := req[0], req[1], 180, 0xFF;
    length := 5;
    for i := 0 to |mb.identity|
      invariant length == 5 + i && rsp[3..length] == [180, 0xFF] + mb.identity[..i] && rsp[0] == req[0] &&
                rsp[1] == req[1]
    {
      rsp[length] := mb.identity[i];
      length := length + 1;
    }
    rsp[2] := length - 2 - 1;
  }

  /** `modbus_reply`: the return code, and the bytes handed to the line. */
  method ModbusReply(mb: Mapping, req: seq<byte>, rsp: array<byte>) returns (rc: int, sent: seq<byte>)
    requires Ready(mb, rsp, req) && Reply(mb.Value(), req) != MemoryError
    modifies rsp, mb.tabBits, mb.tabRegisters
    ensures mb.Valid() && |sent| <= MAX_MESSAGE_LENGTH
    ensures match Reply(old(mb.Value()), req)
            case NoProtocol => rc == -1 && sent == [] && mb.Value() == old(mb.Value())
            case MemoryError => false
            case Response(n, r) =>
                mb.Value() == n && sent == (if req[0] == BROADCAST then [] else Seal(r)) && rc == |sent|
  {
    hide Seal, LengthRight, Clean, ReplyReadBits, ReplyReadRegisters, ReplyWriteBit, ReplyWriteRegister, ReplyWriteBits,
         ReplyWriteRegisters, ReplyMaskWrite, ReplyWriteAndRead, ReplySlaveId;
    var length: nat;
    if req[1] == READ_COILS || req[1] == READ_DISCRETE_INPUTS {
      length := DoReadBits(mb, req, rsp);
    } else if req[1] == READ_HOLDING_REGISTERS || req[1] == READ_INPUT_REGISTERS {
      length := DoReadRegisters(mb, req, rsp);
    } else if req[1] == WRITE_SINGLE_COIL {
      length := DoWriteBit(mb, req, rsp);
    } else if req[1] == WRITE_SINGLE_REGISTER {
      length := DoWriteRegister(mb, req, rsp);
    } else if req[1] == WRITE_MULTIPLE_COILS {
      length := DoWriteBits(mb, req, rsp);
    } else if req[1] == WRITE_MULTIPLE_REGISTERS {
      length := DoWriteRegisters(mb, req, rsp);
    } else if req[1] == REPORT_SLAVE_ID {
      length := DoSlaveId(mb, req, rsp);
    } else if req[1] == READ_EXCEPTION_STATUS {
      return -1, [];
    } else if req[1] == MASK_WRITE_REGISTER {
      length := DoMaskWrite(mb, req, rsp);
    } else if req[1] == WRITE_AND_READ_REGISTERS {
      length := DoWriteAndRead(mb, req, rsp);
    } else {
      length := ResponseException(req, ILLEGAL_FUNCTION, rsp);
    }
    if req[0] == BROADCAST {
      return 0, [];
    }
    rc := SendMsgPre(rsp, length);
    sent := rsp[..rc];
  }
}
