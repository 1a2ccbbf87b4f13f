/** The parameter table: values with a width, a range and a save class, and their image in memory. */
module Parameters {
  import opened Bytes
  import opened Crc16
  import opened MessageBytes
  import opened Division

  datatype Save = NotSave | SaveSys | SaveUse

  /** `ValHandler`: address, `sizeof(T)`, the type's sign, the range, and whether the value is kept over a power cut. */
  datatype Handler = Handler(addr: word, size: nat, signed: bool, min: int, max: int, def: int, save: Save)

  const MAGIC := [0x05, 0x28]   // 0x2805, low byte first

  predicate IsType(h: Handler) { h.size in {1, 2, 4, 8} }

  /** The values the parameter's type can hold. */
  predicate InType(h: Handler, v: int) {
    if h.signed then -(Pow256(h.size) as int) <= 2 * v < Pow256(h.size) else 0 <= v < Pow256(h.size)
  }

  predicate InRange(h: Handler, v: int) { h.min <= v <= h.max }

  // ---------------------------------------------------------------- one value

  /** The bytes of a value in memory: two's complement, least significant byte first. */
  function Encode(h: Handler, v: int): (s: seq<byte>)
    requires InType(h, v)
    ensures |s| == h.size
  {
    LittleEndian(if v < 0 then v + Pow256(h.size) else v, h.size)
  }

  function Decode(h: Handler, s: seq<byte>): (v: int)
    requires |s| == h.size
    ensures InType(h, v)
  {
    FromLittleEndianBound(s);
    var u := FromLittleEndian(s);
    if h.signed && 2 * u >= Pow256(h.size) then u - Pow256(h.size) else u
  }

  lemma DecodeOfEncode(h: Handler, v: int)
    requires InType(h, v)
    ensures Decode(h, Encode(h, v)) == v
  {
    LittleEndianRoundTrip(if v < 0 then v + Pow256(h.size) else v, h.size);
  }

  lemma FourBytes(s: seq<byte>)
    ensures |s| == 1 ==> FromLittleEndian(s) == s[0]
    ensures |s| == 2 ==> FromLittleEndian(s) == s[0] + 0x100 * (s[1] as int)
    ensures |s| == 4 ==>
            FromLittleEndian(s) ==
            s[0] + 0x100 * (s[1] as int) + 0x1_0000 * (s[2] as int) + 0x100_0000 * (s[3] as int)
  {
    if |s| == 4 {
      assert s[1..][1..] == s[2..] && s[2..][1..] == s[3..] && s[3..][1..] == [];
    } else if |s| == 2 {
      assert s[1..][1..] == [];
    } else if |s| == 1 {
      assert s[1..] == [];
    }
  }

  lemma Widths()
    ensures Pow256(1) == 0x100 && Pow256(2) == 0x1_0000 && Pow256(4) == 0x1_0000_0000
  {}

  /** A value in memory: its bytes are the digits to the base 256, lowest first, of the value modulo its width. */
  lemma ValueInMemory(h: Handler, v: int)
    requires InType(h, v)
    ensures var s := Encode(h, v);
            && (h.size == 1 ==> s[0] as int == v % 0x100)
            && (h.size == 2 ==> s[0] + 0x100 * (s[1] as int) == v % 0x1_0000)
            && (h.size == 4 ==>
                  s[0] + 0x100 * (s[1] as int) + 0x1_0000 * (s[2] as int) + 0x100_0000 * (s[3] as int) ==
                      v % 0x1_0000_0000)
  {
    Widths();
    hide LittleEndian, FromLittleEndian, Pow256;
    var u := if v < 0 then v + Pow256(h.size) else v;
    LittleEndianRoundTrip(u, h.size);
    FourBytes(Encode(h, v));
  }

  lemma {:induction false} BytesOfNumber(s: seq<byte>)
    ensures LittleEndian(FromLittleEndian(s), |s|) == s
    decreases |s|
  {
    if s != [] {
      BytesOfNumber(s[1..]);
      var v := FromLittleEndian(s);
      QuotientIs(v, 0x100, FromLittleEndian(s[1..]), s[0]);
    }
  }

  lemma EncodeOfDecode(h: Handler, s: seq<byte>)
    requires |s| == h.size
    ensures Encode(h, Decode(h, s)) == s
  {
    BytesOfNumber(s);
    FromLittleEndianBound(s);
  }

  /** `Val::deserialize`: the value in memory, unless it is out of range. */
  function Taken(h: Handler, s: seq<byte>, old_: int): int
    requires |s| == h.size
  {
    if InRange(h, Decode(h, s)) then Decode(h, s) else old_
  }

  // ---------------------------------------------------------------- the image of a save class

  predicate Table(hs: seq<Handler>, vs: seq<int>) {
    |hs| == |vs| && forall i | 0 <= i < |hs| :: IsType(hs[i]) && InType(hs[i], vs[i])
  }

  /** Bytes the first n parameters of a class take. */
  function Offset(hs: seq<Handler>, save: Save, n: nat): nat
    requires n <= |hs|
  {
    if n == 0 then 0 else Offset(hs, save, n - 1) + (if hs[n - 1].save == save then hs[n - 1].size else 0)
  }

  /** The values of the first n parameters of a class, one after the other. */
  function Body(hs: seq<Handler>, vs: seq<int>, save: Save, n: nat): (s: seq<byte>)
    requires Table(hs, vs) && n <= |hs|
    ensures |s| == Offset(hs, save, n)
    decreases n
  {
    if n == 0 then
        [] else Body(hs, vs, save, n - 1) + (if hs[n - 1].save == save then Encode(hs[n - 1], vs[n - 1]) else [])
  }

  /** `getSerialSize` */
  function SerialSize(hs: seq<Handler>, save: Save): nat { Offset(hs, save, |hs|) + 2 + 2 }

  /** What `serialize` writes: the magic number, the values, and a CRC over both. */
  function Image(hs: seq<Handler>, vs: seq<int>, save: Save): (s: seq<byte>)
    requires Table(hs, vs)
    ensures |s| == SerialSize(hs, save)
  {
    var m := MAGIC + Body(hs, vs, save, |hs|);
    m + CrcBytes(m)
  }

  lemma {:induction false} OffsetGrows(hs: seq<Handler>, save: Save, i: nat, n: nat)
    requires i < n <= |hs| && hs[i].save == save
    ensures Offset(hs, save, i) + hs[i].size <= Offset(hs, save, n)
    decreases n
  {
    if i < n - 1 {
      OffsetGrows(hs, save, i, n - 1);
    }
  }

  lemma SliceOfPrefix<T>(a: seq<T>, b: seq<T>, lo: nat, hi: nat)
    requires a <= b && lo <= hi <= |a|
    ensures b[lo..hi] == a[lo..hi]
  {}

  lemma SliceOfMiddle<T>(a: seq<T>, b: seq<T>, c: seq<T>, lo: nat, hi: nat)
    requires lo <= hi <= |b|
    ensures (a + b + c)[|a| + lo..|a| + hi] == b[lo..hi]
  {}

  lemma {:induction false} BodyAt(hs: seq<Handler>, vs: seq<int>, save: Save, i: nat, n: nat)
    requires Table(hs, vs) && i < n <= |hs| && hs[i].save == save
    ensures Offset(hs, save, i) + hs[i].size <= Offset(hs, save, n)
    ensures Body(hs, vs, save, n)[Offset(hs, save, i)..Offset(hs, save, i) + hs[i].size] == Encode(hs[i], vs[i])
    decreases n
  {
    hide Encode;
    OffsetGrows(hs, save, i, n);
    if i < n - 1 {
      OffsetGrows(hs, save, i, n - 1);
      BodyAt(hs, vs, save, i, n - 1);
      SliceOfPrefix(Body(hs, vs, save, n - 1), Body(hs, vs, save, n), Offset(hs, save, i), Offset(hs, save, i) +
          hs[i].size);
    } else {
      SliceOfMiddle(Body(hs, vs, save, i), Encode(hs[i], vs[i]), [], 0, hs[i].size);
      assert Body(hs, vs, save, i) + Encode(hs[i], vs[i]) + [] == Body(hs, vs, save, n);
    }
  }

  /** An image begins with 0x2805, holds the values of its class in the order of the table, and ends in its CRC. */
  lemma ImageShows(hs: seq<Handler>, vs: seq<int>, save: Save, i: nat)
    requires Table(hs, vs) && i < |hs| && hs[i].save == save
    ensures var image, at := Image(hs, vs, save), 2 + Offset(hs, save, i);
            && image[..2] == [0x05, 0x28] && at + hs[i].size + 2 <= |image|
            && image[at..at + hs[i].size] == Encode(hs[i], vs[i])
            && image[|image| - 2..] == CrcBytes(image[..|image| - 2])
  {
    hide Encode, CrcBytes, Body, Offset;
    BodyAt(hs, vs, save, i, |hs|);
    var body := Body(hs, vs, save, |hs|);
    var crc := CrcBytes(MAGIC + body);
    SliceOfMiddle(MAGIC, body, crc, Offset(hs, save, i), Offset(hs, save, i) + hs[i].size);
    assert Image(hs, vs, save)[..|MAGIC + body|] == MAGIC + body;
  }

  // ---------------------------------------------------------------- loading

  /** Parameter i after the values of a class have been read from `src`. */
  function Restored(hs: seq<Handler>, vs: seq<int>, save: Save, src: seq<byte>, i: nat): int
    requires |hs| == |vs| && i < |hs| && 2 + Offset(hs, save, |hs|) <= |src|
  {
    if hs[i].save != save then vs[i]
    else
      OffsetGrows(hs, save, i, |hs|);
      var at := 2 + Offset(hs, save, i);
      Taken(hs[i], src[at..at + hs[i].size], vs[i])
  }

  datatype Loaded = Loaded(ok: bool, vs: seq<int>)

  /** `deserialize`, as a function. */
  function Load(hs: seq<Handler>, vs: seq<int>, save: Save, src: seq<byte>): Loaded
    requires |hs| == |vs| && |src| == SerialSize(hs, save)
  {
    if src[..2] != MAGIC || !Sealed(src) then Loaded(false, vs)
    else Loaded(true, seq(|hs|, i requires 0 <= i < |hs| => Restored(hs, vs, save, src, i)))
  }

  /** What loading an image of `vs` into a table that holds `ws` should leave. */
  function Merged(hs: seq<Handler>, vs: seq<int>, ws: seq<int>, save: Save): seq<int>
    requires |hs| == |vs| == |ws|
  {
    seq(|hs|, i requires 0 <= i < |hs| =>
        if hs[i].save == save && hs[i].min <= vs[i] <= hs[i].max then vs[i] else ws[i])
  }

  lemma ImageIsSealed(hs: seq<Handler>, vs: seq<int>, save: Save)
    requires Table(hs, vs)
    ensures Sealed(Image(hs, vs, save)) && Image(hs, vs, save)[..2] == MAGIC
  {
    hide CrcBytes, Body;
    var m, image := MAGIC + Body(hs, vs, save, |hs|), Image(hs, vs, save);
    assert image[..|image| - 2] == m;
  }

  /** Saving and loading restores every saved parameter that is in its range, and leaves all the others as they are. */
  lemma LoadOfImage(hs: seq<Handler>, vs: seq<int>, ws: seq<int>, save: Save)
    requires Table(hs, vs) && |ws| == |vs|
    ensures Load(hs, ws, save, Image(hs, vs, save)) == Loaded(true, Merged(hs, vs, ws, save))
  {
    hide Sealed, Image, Restored;
    var image := Image(hs, vs, save);
    ImageIsSealed(hs, vs, save);
    forall i | 0 <= i < |hs| ensures Restored(hs, ws, save, image, i) == Merged(hs, vs, ws, save)[i] {
      RestoredFromImage(hs, vs, ws, save, i);
    }
  }

  lemma RestoredFromImage(hs: seq<Handler>, vs: seq<int>, ws: seq<int>, save: Save, i: nat)
    requires Table(hs, vs) && |ws| == |vs| && i < |hs|
    ensures Restored(hs, ws, save, Image(hs, vs, save), i) == if hs[i].save == save &&
            InRange(hs[i], vs[i]) then vs[i] else ws[i]
  {
    hide Encode, Decode, Body, CrcBytes, Offset;
    if hs[i].save == save {
      BodyAt(hs, vs, save, i, |hs|);
      var at, body, image := Offset(hs, save, i), Body(hs, vs, save, |hs|), Image(hs, vs, save);
      SliceOfMiddle(MAGIC, body, CrcBytes(MAGIC + body), at, at + hs[i].size);
      assert image[2 + at..2 + at + hs[i].size] == body[at..at + hs[i].size];
      DecodeOfEncode(hs[i], vs[i]);
    }
  }

  /** An image damaged in one byte or two neighbours, or in an odd number of bits, loads nothing. */
  lemma DamagedImageLoadsNothing(hs: seq<Handler>, vs: seq<int>, ws: seq<int>, save: Save, src: seq<byte>, i: nat)
    requires Table(hs, vs) && |ws| == |vs| && |src| == SerialSize(hs, save) && src != Image(hs, vs, save)
    requires (i < |src| && forall k | 0 <= k < |src| && k != i && k != i + 1 :: src[k] == Image(hs, vs, save)[k])
             || Distance(MessageBits(Image(hs, vs, save)), MessageBits(src)) % 2 == 1
    ensures Load(hs, ws, save, src) == Loaded(false, ws)
  {
    hide Sealed, Image, Distance, MessageBits;
    ImageIsSealed(hs, vs, save);
    var image := Image(hs, vs, save);
    if Distance(MessageBits(image), MessageBits(src)) % 2 == 1 {
      OddDamageDetected(image, src);
    } else {
      AdjacentDamageDetected(image, src, i);
    }
  }
}
