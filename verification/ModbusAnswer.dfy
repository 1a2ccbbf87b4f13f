/**
 * What a client makes of the bytes that come back, told by the bytes of request and answer alone, in the numbers of
 * the Modbus application protocol.
 */
module ModbusAnswer {
  import opened Bytes
  import opened Crc16
  import opened ModbusFrame
  import opened ModbusServer
  import opened ModbusClient

  /** How long an answer is by its own bytes, the CRC included. */
  function Announced(answer: seq<byte>): nat
    requires |answer| >= 5
  {
    var fc, data: int := answer[1], answer[2];
    if fc in {5, 6, 0x0F, 0x10} then 8
    else if fc == 0x16 then 10
    else if fc in {0, 1, 2, 3, 4, 0x11, 0x15, 0x17} then 5 + data
    else 5
  }

  /** The answer that brings k values of what was asked: bytes of bits, registers, or the number that was written. */
  predicate Brings(req: seq<byte>, answer: seq<byte>, k: nat)
    requires |req| >= 6 && |answer| >= 5
  {
    var fc, nb := req[1], 256 * (req[4] as int) + req[5];
    if fc in {1, 2} then answer[2] == k == (nb + 7) / 8 && |answer| == 5 + k
    else if fc in {3, 4, 0x17} then answer[2] == 2 * k && k == nb && |answer| == 5 + 2 * k
    else if fc in {0x0F, 0x10} then |answer| == 8 && 256 * (answer[4] as int) + answer[5] == k == nb
    else if fc in {5, 6} then |answer| == 8 && k == 1
    else if fc == 0x16 then |answer| == 10 && k == 1
    else if fc == 0x11 then answer[2] == k && |answer| == 5 + k
    else fc in {0, 0x15} && answer[2] == 3 && |answer| == 8 && k == 1
  }

  lemma BytesOfBits(nb: nat)
    ensures ByteCount(nb) == (nb + 7) / 8
  {}

  lemma AnnouncedIs(answer: seq<byte>)
    requires |answer| >= 5
    ensures LengthRight(answer, 0, Confirmation) <==> |answer| == Announced(answer)
  {}

  /** The check of an answer with right length and CRC that comes from the slave asked and is no exception. */
  lemma CheckedAnswer(req: seq<byte>, answer: seq<byte>, k: nat)
    requires |req| >= 6 && |answer| >= 5 && |answer| == Announced(answer) && answer[0] == req[0] && answer[1] < 0x80
    ensures CheckConfirmation(req, answer, |answer|) == Ok(k) <==> answer[1] == req[1] && Brings(req, answer, k)
    ensures CheckConfirmation(req, answer, |answer|).Ok? || CheckConfirmation(req, answer, |answer|) == Errno(0x10D)
  {
    BytesOfBits(256 * (req[4] as int) + req[5]);
  }

  /**
   * A call succeeds with k exactly when the answer ends in its CRC, comes from the slave asked, repeats the function
   * of the request, and brings k values as the request calls for.
   */
  lemma AcceptedExactlyWhen(slave: byte, req: seq<byte>, answer: seq<byte>, k: nat)
    requires slave != 0 && |req| >= 6 && req[0] == slave
    ensures Confirm(slave, req, answer) == Ok(k) <==>
            && |answer| >= 5 && answer[|answer| - 2..] == CrcBytes(answer[..|answer| - 2])
            && answer[0] == slave && answer[1] == req[1] < 0x80 && Brings(req, answer, k)
  {
    hide CheckConfirmation, LengthRight, CrcBytes;
    if |answer| >= 5 {
      AnnouncedIs(answer);
      if answer[0] == slave && |answer| == Announced(answer) {
        if answer[1] < 0x80 {
          CheckedAnswer(req, answer, k);
        } else {
          CheckedException(req, answer);
        }
      } else if answer[0] != slave {
        ForeignAnswer(req, answer);
      }
    }
  }

  lemma CheckedException(req: seq<byte>, answer: seq<byte>)
    requires |req| >= 6 && |answer| == 5 && answer[0] == req[0] && answer[1] >= 0x80
    ensures CheckConfirmation(req, answer, 5) ==
            Errno(if answer[1] as int == req[1] as int + 0x80 &&
                answer[2] < 12 then 0x100 + answer[2] as int else 0x10E)
  {}

  lemma ForeignAnswer(req: seq<byte>, answer: seq<byte>)
    requires |req| >= 6 && |answer| >= 5 && req[0] != 0 && answer[0] != req[0]
    ensures CheckConfirmation(req, answer, 0) == CheckConfirmation(req, answer, |answer|) == Errno(0x111)
  {}

  /** And every other answer is refused for a reason: the first that applies. */
  lemma RefusedBecause(slave: byte, req: seq<byte>, answer: seq<byte>)
    requires slave != 0 && |req| >= 6 && req[0] == slave
    requires !Confirm(slave, req, answer).Ok?
    ensures Confirm(slave, req, answer) ==
            if |answer| < 5 || |answer| != Announced(answer) then Silent
            else if answer[0] != slave && answer[0] != 0 then Errno(0x111)
            else if answer[|answer| - 2..] != CrcBytes(answer[..|answer| - 2]) then Errno(0x10C)
            else if answer[0] == 0 then Errno(0x111)
            else if answer[1] < 0x80 then Errno(0x10D)
            else if answer[1] as int == req[1] as int + 0x80 && answer[2] < 12 then Errno(0x100 + answer[2] as int)
            else Errno(0x10E)
  {
    hide CheckConfirmation, LengthRight, CrcBytes;
    if |answer| >= 5 {
      AnnouncedIs(answer);
      if answer[0] != slave {
        ForeignAnswer(req, answer);
      } else if |answer| == Announced(answer) {
        if answer[1] < 0x80 {
          CheckedAnswer(req, answer, 0);
        } else {
          CheckedException(req, answer);
        }
      }
    }
  }
}
