/** The code of the parameter system, over a table of values that it changes in place. */
module PrmSystem {
  import opened Bytes
  import opened Crc16
  import opened Parameters

  /** `memcpy` to a pointer that then moves on. */
  method Append(dst: array<byte>, at: nat, bytes: seq<byte>) returns (end: nat)
    requires at + |bytes| <= dst.Length
    modifies dst
    ensures end == at + |bytes| && dst[..end] == old(dst[..at]) + bytes && dst[end..] == old(dst[end..])
  {
    for i := 0 to |bytes|
      invariant forall j | 0 <= j < dst.Length :: dst[j] == if at <= j < at + i then bytes[j - at] else old(dst[j])
    {
      dst[at + i] := bytes[i];
    }
    end := at + |bytes|;
  }

  /** The CRC over the first bytes of a buffer, behind them, low byte first. */
  method AppendCrc(dst: array<byte>, at: nat)
    requires 0 < at && at + 2 <= dst.Length
    modifies dst
    ensures dst[..at + 2] == old(dst[..at]) + CrcBytes(old(dst[..at])) && dst[at + 2..] == old(dst[at + 2..])
  {
    hide CrcWord, LowByte, HighByte;
    var crc := Crc16Calc(dst[..at]);
    var end := Append(dst, at, [LowByte(crc) as int, HighByte(crc) as int]);
  }

  class Store {
    const handlers: seq<Handler>
    var vals: seq<int>
    var currentIndex: nat

    constructor (handlers: seq<Handler>)
      requires forall i | 0 <= i < |handlers| :: IsType(handlers[i]) && InType(handlers[i], handlers[i].def)
      ensures Valid() && this.handlers == handlers &&
              vals == seq(|handlers|, i requires 0 <= i < |handlers| => handlers[i].def)
    {
      this.handlers := handlers;
      vals := seq(|handlers|, i requires 0 <= i < |handlers| => handlers[i].def);
      currentIndex := 0;
    }

    ghost predicate Valid()
      reads this
    {
      Table(handlers, vals)
    }

    /** `getSerialSize` */
    method GetSerialSize(save: Save) returns (size: nat)
      ensures size == SerialSize(handlers, save)
    {
      size := 0;
      for i := 0 to |handlers|
        invariant size == Offset(handlers, save, i)
      {
        if save == handlers[i].save {
          size := size + handlers[i].size;
        }
      }
      size := size + 2 + 2;
    }

    /** `serialize` */
    method Serialize(save: Save, dst: array<byte>)
      requires Valid() && SerialSize(handlers, save) <= dst.Length
      modifies dst
      ensures dst[..] == Image(handlers, vals, save) + old(dst[SerialSize(handlers, save)..])
    {
      hide Encode, CrcBytes, Body, Offset;
      ghost var size := SerialSize(handlers, save);
      ghost var rest := dst[size..];
      var at := Append(dst, 0, MAGIC);
      BodyStarts(handlers, vals, save);
      for i := 0 to |handlers|
        invariant at == 2 + Offset(handlers, save, i) && at + 2 <= size
        invariant dst[..at] == MAGIC + Body(handlers, vals, save, i)
        invariant dst[size..] == rest
      {
        BodyStep(handlers, vals, save, i);
        if save == handlers[i].save {
          ghost var was := dst[..];
          at := Append(dst, at, Encode(handlers[i], vals[i]));
          assert dst[size..] == dst[at..][size - at..] == was[at..][size - at..] == was[size..];
        }
      }
      AppendCrc(dst, at);
      assert dst[..] == dst[..size] + dst[size..];
    }

    /** `deserialize` */
    method Deserialize(save: Save, src: seq<byte>) returns (ok: bool)
      requires Valid() && |src| == SerialSize(handlers, save)
      modifies this`vals
      ensures Valid() && Load(handlers, old(vals), save, src) == Loaded(ok, vals)
    {
      hide Decode, CrcWord, Sealed, InType, Offset;
      if src[..2] != MAGIC {
        return false;
      }
      SealedExactlyWhenZero(src);
      var crc := Crc16Calc(src);
      if crc != 0 {
        return false;
      }
      var at := 2;
      OffsetStarts(handlers, save);
      for i := 0 to |handlers|
        invariant at == 2 + Offset(handlers, save, i) && |vals| == |handlers| && Valid()
        invariant forall j | 0 <= j < |handlers| ::
                  vals[j] == if j < i then Restored(handlers, old(vals), save, src, j) else old(vals)[j]
      {
        OffsetStep(handlers, save, i);
        if save == handlers[i].save {
          RoomFor(handlers, save, i);
          vals := vals[i := Taken(handlers[i], src[at..at + handlers[i].size], vals[i])];
          at := at + handlers[i].size;
        }
      }
      ok := true;
    }

    /** `getbyaddress` */
    method GetByAddress(address: word) returns (i: int)
      modifies this`currentIndex
      ensures i == Find(handlers, address, 0)
      ensures i >= 0 ==> currentIndex == i
    {
      currentIndex := 0;
      for k := 0 to |handlers|
        invariant currentIndex == k && Find(handlers, address, 0) == Find(handlers, address, k)
      {
        if address == handlers[k].addr {
          return k;
        }
        currentIndex := currentIndex + 1;
      }
      i := -1;
    }

    /** `getNext` */
    method GetNext() returns (i: int)
      modifies this`currentIndex
      ensures currentIndex == old(currentIndex) + 1
      ensures i == if currentIndex >= |handlers| then -1 else currentIndex
    {
      currentIndex := currentIndex + 1;
      i := if currentIndex >= |handlers| then -1 else currentIndex;
    }
  }

  /** The first parameter from k on with that address, or -1. */
  function Find(hs: seq<Handler>, address: word, k: nat): (i: int)
    requires k <= |hs|
    ensures i == -1 || k <= i < |hs|
    ensures i == -1 <==> forall j | k <= j < |hs| :: hs[j].addr != address
    ensures i >= 0 ==> hs[i].addr == address && forall j | k <= j < i :: hs[j].addr != address
    decreases |hs| - k
  {
    if k == |hs| then -1 else if hs[k].addr == address then k else Find(hs, address, k + 1)
  }

  lemma RoomFor(hs: seq<Handler>, save: Save, i: nat)
    requires i < |hs| && hs[i].save == save
    ensures 2 + Offset(hs, save, i) + hs[i].size + 2 <= SerialSize(hs, save)
  {
    OffsetGrows(hs, save, i, |hs|);
  }

  lemma BodyStarts(hs: seq<Handler>, vs: seq<int>, save: Save)
    requires Table(hs, vs)
    ensures Body(hs, vs, save, 0) == [] && Offset(hs, save, 0) == 0 && 4 <= SerialSize(hs, save)
  {}

  lemma BodyStep(hs: seq<Handler>, vs: seq<int>, save: Save, i: nat)
    requires Table(hs, vs) && i < |hs|
    ensures hs[i].save == save ==>
              && Body(hs, vs, save, i + 1) == Body(hs, vs, save, i) + Encode(hs[i], vs[i])
              && Offset(hs, save, i + 1) == Offset(hs, save, i) + hs[i].size
              && 2 + Offset(hs, save, i) + hs[i].size + 2 <= SerialSize(hs, save)
    ensures hs[i].save != save ==>
            Body(hs, vs, save, i + 1) == Body(hs, vs, save, i) && Offset(hs, save, i + 1) == Offset(hs, save, i)
  {
    hide Encode;
    if hs[i].save == save {
      RoomFor(hs, save, i);
    }
  }

  lemma OffsetStarts(hs: seq<Handler>, save: Save)
    ensures Offset(hs, save, 0) == 0
  {}

  lemma OffsetStep(hs: seq<Handler>, save: Save, i: nat)
    requires i < |hs|
    ensures Offset(hs, save, i + 1) == Offset(hs, save, i) + (if hs[i].save == save then hs[i].size else 0)
  {}
}
