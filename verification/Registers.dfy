/** The parameters as a block of Modbus holding registers: `eMBRegHoldingCB`. */
module Registers {
  import opened Bytes
  import opened Parameters
  import opened PrmSystem

  datatype Status = NoErr | NoReg | Inval

  /** Parameters of one register or two. */
  predicate Mapped(hs: seq<Handler>) { forall i | 0 <= i < |hs| :: hs[i].size in {1, 2, 4} }

  function Width(h: Handler): (n: nat)
    ensures 1 <= n <= 2
  {
    if h.size == 4 then 2 else 1
  }

  /** A value as registers: high byte first in each, low register first; one byte leaves the high byte zero. */
  function Words(h: Handler, v: int): (s: seq<byte>)
    requires h.size in {1, 2, 4} && InType(h, v)
    ensures |s| == 2 * Width(h)
  {
    var b := Encode(h, v);
    if h.size == 1 then [0, b[0]] else if h.size == 2 then [b[1], b[0]] else [b[1], b[0], b[3], b[2]]
  }

  /** The bytes of a value out of its registers. */
  function Unwords(h: Handler, w: seq<byte>): (s: seq<byte>)
    requires h.size in {1, 2, 4} && |w| == 2 * Width(h)
    ensures |s| == h.size
  {
    if h.size == 1 then [w[1]] else if h.size == 2 then [w[1], w[0]] else [w[1], w[0], w[3], w[2]]
  }

  /** The value that registers stand for. */
  function Value(h: Handler, w: seq<byte>): (v: int)
    requires h.size in {1, 2, 4} && |w| == 2 * Width(h)
    ensures InType(h, v)
  {
    Decode(h, Unwords(h, w))
  }

  /** A value as its client sees it: modulo its width, and the low register first in two. */
  lemma ValueInRegisters(h: Handler, v: int)
    requires h.size in {1, 2, 4} && InType(h, v)
    ensures var w := Words(h, v);
            && (h.size == 1 ==> 0x100 * (w[0] as int) + w[1] == v % 0x100)
            && (h.size == 2 ==> 0x100 * (w[0] as int) + w[1] == v % 0x1_0000)
            && (h.size == 4 ==>
                  0x100 * (w[0] as int) + w[1] + 0x1_0000 * (0x100 * (w[2] as int) + w[3]) == v % 0x1_0000_0000)
  {
    hide Encode;
    ValueInMemory(h, v);
  }

  // ---------------------------------------------------------------- blocks

  function Next(hs: seq<Handler>, i: int): int { if i + 1 >= |hs| then -1 else i + 1 }

  /** Reading n registers from parameter i on; -1 stands for no parameter. */
  function ReadBlock(hs: seq<Handler>, vs: seq<int>, i: int, n: nat): (r: (Status, seq<byte>))
    requires Table(hs, vs) && Mapped(hs) && -1 <= i < |hs|
    ensures |r.1| <= 2 * n
    decreases n
  {
    if n == 0 then (NoErr, [])
    else if i == -1 then (NoReg, [])
    else if hs[i].size == 4 && n < 2 then (Inval, [])
    else
      var rest := ReadBlock(hs, vs, Next(hs, i), n - Width(hs[i]));
      (rest.0, Words(hs[i], vs[i]) + rest.1)
  }

  /** Writing the registers in `bytes`, from parameter i on; what was written before an error stays. */
  function WriteBlock(hs: seq<Handler>, vs: seq<int>, i: int, n: nat, bytes: seq<byte>): (r: (Status, seq<int>))
    requires Table(hs, vs) && Mapped(hs) && -1 <= i < |hs| && |bytes| == 2 * n
    ensures Table(hs, r.1)
    decreases n
  {
    if n == 0 then (NoErr, vs)
    else if i == -1 then (NoReg, vs)
    else if hs[i].size == 4 && n < 2 then (Inval, vs)
    else
      var w := Width(hs[i]);
      var v := Value(hs[i], bytes[..2 * w]);
      if !InRange(hs[i], v) then (Inval, vs)
      else WriteBlock(hs, vs[i := v], Next(hs, i), n - w, bytes[2 * w..])
  }

  /** Registers of the parameters from i up to, not including, e. */
  function Span(hs: seq<Handler>, i: nat, e: nat): nat
    requires i <= e <= |hs|
    decreases e - i
  {
    if i == e then 0 else Width(hs[i]) + Span(hs, i + 1, e)
  }

  lemma {:induction false} SpanSplits(hs: seq<Handler>, i: nat, k: nat, e: nat)
    requires i <= k <= e <= |hs|
    ensures Span(hs, i, e) == Span(hs, i, k) + Span(hs, k, e)
    decreases k - i
  {
    if i < k {
      SpanSplits(hs, i + 1, k, e);
    }
  }

  /** The registers of parameter k in a block that starts with parameter i. */
  function Part(hs: seq<Handler>, i: nat, k: nat, e: nat, bytes: seq<byte>): (s: seq<byte>)
    requires i <= k < e <= |hs| && |bytes| == 2 * Span(hs, i, e)
    ensures |s| == 2 * Width(hs[k])
  {
    SpanSplits(hs, i, k, e);
    bytes[2 * Span(hs, i, k)..2 * Span(hs, i, k) + 2 * Width(hs[k])]
  }

  /** A block that ends where parameter e begins, with every value in its range. */
  predicate Acceptable(hs: seq<Handler>, i: nat, e: nat, bytes: seq<byte>)
    requires Mapped(hs) && i <= e <= |hs| && |bytes| == 2 * Span(hs, i, e)
  {
    forall k | i <= k < e :: hs[k].min <= Value(hs[k], Part(hs, i, k, e, bytes)) <= hs[k].max
  }

  lemma PartOfTail(hs: seq<Handler>, i: nat, k: nat, e: nat, bytes: seq<byte>)
    requires i < k < e <= |hs| && |bytes| == 2 * Span(hs, i, e)
    ensures Part(hs, i, k, e, bytes) == Part(hs, i + 1, k, e, bytes[2 * Width(hs[i])..])
  {
    SpanSplits(hs, i, k, e);
    SpanSplits(hs, i + 1, k, e);
  }

  /** What an accepted block leaves: every parameter in it has the value of its registers, all others are as before. */
  predicate Stored(hs: seq<Handler>, vs: seq<int>, i: nat, e: nat, bytes: seq<byte>, after: seq<int>)
    requires Mapped(hs) && i <= e <= |hs| == |vs| && |bytes| == 2 * Span(hs, i, e)
  {
    && |after| == |vs|
    && forall k | 0 <= k < |vs| :: after[k] == if i <= k < e then Value(hs[k], Part(hs, i, k, e, bytes)) else vs[k]
  }

  function Start(hs: seq<Handler>, i: nat): int { if i >= |hs| then -1 else i }

  /** Whether the tail of a block is acceptable, and what the whole block leaves, given what its tail does. */
  lemma BlockStep(hs: seq<Handler>, vs: seq<int>, i: nat, e: nat, bytes: seq<byte>)
    requires Mapped(hs) && i < e <= |hs| == |vs| && |bytes| == 2 * Span(hs, i, e)
    ensures Part(hs, i, i, e, bytes) == bytes[..2 * Width(hs[i])]
    ensures var v := Value(hs[i], bytes[..2 * Width(hs[i])]); var tail := bytes[2 * Width(hs[i])..];
            && (Acceptable(hs, i, e, bytes) <==> InRange(hs[i], v) && Acceptable(hs, i + 1, e, tail))
            && forall after :: Stored(hs, vs[i := v], i + 1, e, tail, after) ==> Stored(hs, vs, i, e, bytes, after)
  {
    hide Value, Part;
    PartOfHead(hs, i, e, bytes);
    forall k | i < k < e ensures Part(hs, i, k, e, bytes) == Part(hs, i + 1, k, e, bytes[2 * Width(hs[i])..]) {
      PartOfTail(hs, i, k, e, bytes);
    }
  }

  lemma PartOfHead(hs: seq<Handler>, i: nat, e: nat, bytes: seq<byte>)
    requires i < e <= |hs| && |bytes| == 2 * Span(hs, i, e)
    ensures Part(hs, i, i, e, bytes) == bytes[..2 * Width(hs[i])]
  {}

  /** A block that ends at a parameter is accepted exactly when every value is in range. */
  lemma {:induction false} AcceptedBlock(hs: seq<Handler>, vs: seq<int>, i: nat, e: nat, bytes: seq<byte>)
    requires |hs| == |vs| && Table(hs, vs) && Mapped(hs) && i <= e <= |hs| && |bytes| == 2 * Span(hs, i, e)
    ensures var r := WriteBlock(hs, vs, Start(hs, i), Span(hs, i, e), bytes);
            && (r.0 == NoErr <==> Acceptable(hs, i, e, bytes))
            && (r.0 == NoErr ==> Stored(hs, vs, i, e, bytes, r.1))
    decreases e - i
  {
    hide Value, Table, Stored, Acceptable, InRange;
    if i == e {
      EmptyBlock(hs, vs, i, bytes);
    } else {
      var w := Width(hs[i]);
      var v := Value(hs[i], bytes[..2 * w]);
      BlockStep(hs, vs, i, e, bytes);
      if InRange(hs[i], v) {
        TableUpdate(hs, vs, i, v);
        AcceptedBlock(hs, vs[i := v], i + 1, e, bytes[2 * w..]);
      }
    }
  }

  lemma EmptyBlock(hs: seq<Handler>, vs: seq<int>, i: nat, bytes: seq<byte>)
    requires Mapped(hs) && i <= |hs| == |vs| && bytes == []
    ensures Acceptable(hs, i, i, bytes) && Stored(hs, vs, i, i, bytes, vs)
  {}

  /** The parameter at which a block of n registers ends, or -1. */
  function EndOf(hs: seq<Handler>, i: nat, n: nat): (e: int)
    requires i <= |hs|
    ensures e == -1 || i <= e <= |hs|
    decreases n
  {
    if n == 0 then i else if i == |hs| || (hs[i].size == 4 && n < 2) then -1 else EndOf(hs, i + 1, n - Width(hs[i]))
  }

  lemma {:induction false} EndOfSpan(hs: seq<Handler>, i: nat, n: nat, e: nat)
    requires i <= e <= |hs|
    ensures EndOf(hs, i, n) == e <==> Span(hs, i, e) == n
    decreases n
  {
    if n > 0 && i < e && !(hs[i].size == 4 && n < 2) {
      EndOfSpan(hs, i + 1, n - Width(hs[i]), e);
    } else if n == 0 && i < e {
      assert Span(hs, i, e) >= Width(hs[i]);
    } else if n > 0 && i < |hs| && !(hs[i].size == 4 && n < 2) {
      assert EndOf(hs, i, n) != i;
    }
  }

  /** A block that does not end at a parameter is refused. */
  lemma {:induction false} UnevenBlockRefused(hs: seq<Handler>, vs: seq<int>, i: nat, n: nat, bytes: seq<byte>)
    requires |hs| == |vs| && Table(hs, vs) && Mapped(hs) && i <= |hs| && |bytes| == 2 * n && EndOf(hs, i, n) == -1
    ensures WriteBlock(hs, vs, Start(hs, i), n, bytes).0 != NoErr
    ensures ReadBlock(hs, vs, Start(hs, i), n).0 != NoErr
    decreases n
  {
    hide Value, InRange, Table, Words;
    if i < |hs| && !(hs[i].size == 4 && n < 2) {
      var w := Width(hs[i]);
      var v := Value(hs[i], bytes[..2 * w]);
      TableUpdate(hs, vs, i, v);
      UnevenBlockRefused(hs, vs[i := v], i + 1, n - w, bytes[2 * w..]);
      UnevenBlockRefused(hs, vs, i + 1, n - w, bytes[2 * w..]);
    }
  }

  lemma TableUpdate(hs: seq<Handler>, vs: seq<int>, i: nat, v: int)
    requires Table(hs, vs) && i < |hs| == |vs| && InType(hs[i], v)
    ensures Table(hs, vs[i := v])
  {}

  /**
   * A block is accepted exactly when it ends at a parameter and every value in it is in range; then that is
   * what it stores.
   */
  lemma AcceptedExactlyWhen(hs: seq<Handler>, vs: seq<int>, i: nat, n: nat, bytes: seq<byte>)
    requires |hs| == |vs| && Table(hs, vs) && Mapped(hs) && i <= |hs| && |bytes| == 2 * n
    ensures var e, r := EndOf(hs, i, n), WriteBlock(hs, vs, Start(hs, i), n, bytes);
            && (e >= 0 ==> Span(hs, i, e) == n)
            && (r.0 == NoErr <==> e >= 0 && Acceptable(hs, i, e, bytes))
            && (r.0 == NoErr ==> Stored(hs, vs, i, e, bytes, r.1))
  {
    hide WriteBlock, Acceptable, Stored, Table;
    var e := EndOf(hs, i, n);
    if e >= 0 {
      EndOfSpan(hs, i, n, e);
      AcceptedBlock(hs, vs, i, e, bytes);
    } else {
      UnevenBlockRefused(hs, vs, i, n, bytes);
    }
  }

  // ---------------------------------------------------------------- where a write stops

  /** Nothing of a block is written at parameter e: it is at its end, behind the table, uneven or out of range. */
  predicate Ends(hs: seq<Handler>, e: nat, n: nat, bytes: seq<byte>)
    requires Mapped(hs) && e <= |hs| && |bytes| == 2 * n
  {
    n == 0 || e == |hs| || (hs[e].size == 4 && n < 2) || !InRange(hs[e], Value(hs[e], bytes[..2 * Width(hs[e])]))
  }

  /** Parameter e is the first one that a block of n registers from parameter i on does not write. */
  predicate StopsAt(hs: seq<Handler>, i: nat, n: nat, bytes: seq<byte>, e: nat)
    requires Mapped(hs) && i <= |hs| && |bytes| == 2 * n
  {
    && i <= e <= |hs| && Span(hs, i, e) <= n
    && Acceptable(hs, i, e, bytes[..2 * Span(hs, i, e)])
    && Ends(hs, e, n - Span(hs, i, e), bytes[2 * Span(hs, i, e)..])
  }

  /** Every block stops somewhere. */
  lemma {:induction false} BlockStops(hs: seq<Handler>, i: nat, n: nat, bytes: seq<byte>) returns (e: nat)
    requires Mapped(hs) && i <= |hs| && |bytes| == 2 * n
    ensures StopsAt(hs, i, n, bytes, e)
    decreases n
  {
    hide Ends, Acceptable, Value, InRange;
    if Ends(hs, i, n, bytes) {
      e := i;
      NothingToAccept(hs, i);
      assert bytes[0..] == bytes && bytes[..0] == [];
    } else {
      EndsNot(hs, i, n, bytes);
      var w := Width(hs[i]);
      e := BlockStops(hs, i + 1, n - w, bytes[2 * w..]);
      StopStep(hs, i, n, bytes, e);
    }
  }

  lemma NothingToAccept(hs: seq<Handler>, i: nat)
    requires Mapped(hs) && i <= |hs|
    ensures Acceptable(hs, i, i, [])
  {}

  lemma EndsNot(hs: seq<Handler>, i: nat, n: nat, bytes: seq<byte>)
    requires Mapped(hs) && i <= |hs| && |bytes| == 2 * n && !Ends(hs, i, n, bytes)
    ensures n > 0 && i < |hs| && Width(hs[i]) <= n && InRange(hs[i], Value(hs[i], bytes[..2 * Width(hs[i])]))
  {}

  /** A block stops behind its first parameter exactly where its tail stops, if that parameter is accepted. */
  lemma StopStep(hs: seq<Handler>, i: nat, n: nat, bytes: seq<byte>, e: nat)
    requires Mapped(hs) && i < e <= |hs| && |bytes| == 2 * n && Width(hs[i]) <= n
    ensures StopsAt(hs, i, n, bytes, e) <==>
            && InRange(hs[i], Value(hs[i], bytes[..2 * Width(hs[i])]))
            && StopsAt(hs, i + 1, n - Width(hs[i]), bytes[2 * Width(hs[i])..], e)
  {
    hide Ends, Acceptable, Value, InRange;
    var w, s := Width(hs[i]), Span(hs, i, e);
    assert s == w + Span(hs, i + 1, e);
    if s <= n {
      var head, tail := bytes[..2 * s], bytes[2 * w..];
      assert head[2 * w..] == tail[..2 * (s - w)] && head[..2 * w] == bytes[..2 * w] &&
             bytes[2 * s..] == tail[2 * (s - w)..];
      AcceptableStep(hs, i, e, head);
    }
  }

  lemma AcceptableStep(hs: seq<Handler>, i: nat, e: nat, bytes: seq<byte>)
    requires Mapped(hs) && i < e <= |hs| && |bytes| == 2 * Span(hs, i, e)
    ensures Acceptable(hs, i, e, bytes) <==>
            InRange(hs[i], Value(hs[i], bytes[..2 * Width(hs[i])])) &&
                Acceptable(hs, i + 1, e, bytes[2 * Width(hs[i])..])
  {
    hide Acceptable, Value, InRange;
    BlockStep(hs, seq(|hs|, _ => 0), i, e, bytes);
  }

  /** Accepted or not, a write stores the registers up to where it stops, and the status tells why it stopped. */
  lemma {:induction false} WriteStops(hs: seq<Handler>, vs: seq<int>, i: nat, n: nat, bytes: seq<byte>, e: nat)
    requires |hs| == |vs| && Table(hs, vs) && Mapped(hs) && i <= |hs| && |bytes| == 2 * n && StopsAt(hs, i, n, bytes, e)
    ensures var r, s := WriteBlock(hs, vs, Start(hs, i), n, bytes), Span(hs, i, e);
            && Stored(hs, vs, i, e, bytes[..2 * s], r.1)
            && r.0 == if s == n then NoErr else if e == |hs| then NoReg else Inval
    decreases n
  {
    hide Value, Table, Stored, Acceptable, InRange;
    if i == e {
      EmptyBlock(hs, vs, i, []);
      assert bytes[0..] == bytes && bytes[..0] == [];
    } else {
      var w, s := Width(hs[i]), Span(hs, i, e);
      assert s == w + Span(hs, i + 1, e);
      var v := Value(hs[i], bytes[..2 * w]);
      var head, tail := bytes[..2 * s], bytes[2 * w..];
      assert head[2 * w..] == tail[..2 * (s - w)] && head[..2 * w] == bytes[..2 * w];
      StopStep(hs, i, n, bytes, e);
      BlockStep(hs, vs, i, e, head);
      TableUpdate(hs, vs, i, v);
      WriteStops(hs, vs[i := v], i + 1, n - w, tail, e);
    }
  }

  /**
   * A write changes nothing exactly when every parameter up to where it stops has the value of its registers already;
   * so a refused write changes nothing exactly when the parameters before the one it is refused at do.
   */
  lemma WriteChangesNothingExactlyWhen(hs: seq<Handler>, vs: seq<int>, i: nat, n: nat, bytes: seq<byte>, e: nat)
    requires |hs| == |vs| && Table(hs, vs) && Mapped(hs) && i <= |hs| && |bytes| == 2 * n && StopsAt(hs, i, n, bytes, e)
    ensures var s := Span(hs, i, e);
            WriteBlock(hs, vs, Start(hs, i), n, bytes).1 == vs <==>
              forall k | i <= k < e :: vs[k] == Value(hs[k], Part(hs, i, k, e, bytes[..2 * s]))
  {
    hide WriteBlock, StopsAt, Value, Part, Table;
    StopIsInside(hs, i, n, bytes, e);
    WriteStops(hs, vs, i, n, bytes, e);
  }

  lemma StopIsInside(hs: seq<Handler>, i: nat, n: nat, bytes: seq<byte>, e: nat)
    requires Mapped(hs) && i <= |hs| && |bytes| == 2 * n && StopsAt(hs, i, n, bytes, e)
    ensures i <= e <= |hs| && Span(hs, i, e) <= n
  {}

  // ---------------------------------------------------------------- reading back

  /** What a client sees of the registers it wrote: the high byte of a one-byte parameter reads as zero. */
  function Seen(h: Handler, w: seq<byte>): seq<byte>
    requires |w| == 2 * Width(h)
  {
    if h.size == 1 then [0, w[1]] else w
  }

  function SeenBlock(hs: seq<Handler>, i: nat, e: nat, bytes: seq<byte>): seq<byte>
    requires i <= e <= |hs| && |bytes| == 2 * Span(hs, i, e)
    decreases e - i
  {
    if i == e then [] else Seen(hs[i], bytes[..2 * Width(hs[i])]) + SeenBlock(hs, i + 1, e, bytes[2 * Width(hs[i])..])
  }

  lemma WordsOfValue(h: Handler, w: seq<byte>)
    requires h.size in {1, 2, 4} && |w| == 2 * Width(h)
    ensures Words(h, Value(h, w)) == Seen(h, w)
  {
    hide Encode, Decode;
    EncodeOfDecode(h, Unwords(h, w));
  }

  lemma {:induction false} ReadStored(hs: seq<Handler>, vs: seq<int>, i: nat, e: nat, bytes: seq<byte>, after: seq<int>)
    requires |hs| == |vs| && Mapped(hs) && i <= e <= |hs| && |bytes| == 2 * Span(hs, i, e)
    requires Table(hs, after) && Stored(hs, vs, i, e, bytes, after)
    ensures ReadBlock(hs, after, Start(hs, i), Span(hs, i, e)) == (NoErr, SeenBlock(hs, i, e, bytes))
    decreases e - i
  {
    hide Value, Table, Words, Stored, Seen;
    if i < e {
      StoredTail(hs, vs, i, e, bytes, after);
      WordsOfValue(hs[i], bytes[..2 * Width(hs[i])]);
      ReadStored(hs, after, i + 1, e, bytes[2 * Width(hs[i])..], after);
    }
  }

  lemma StoredTail(hs: seq<Handler>, vs: seq<int>, i: nat, e: nat, bytes: seq<byte>, after: seq<int>)
    requires |hs| == |vs| && Mapped(hs) && i < e <= |hs| && |bytes| == 2 * Span(hs, i, e)
    requires Stored(hs, vs, i, e, bytes, after)
    ensures |after| == |hs| && after[i] == Value(hs[i], bytes[..2 * Width(hs[i])])
    ensures Stored(hs, after, i + 1, e, bytes[2 * Width(hs[i])..], after)
  {
    hide Value, Part;
    PartOfHead(hs, i, e, bytes);
    forall k | i < k < e ensures Part(hs, i, k, e, bytes) == Part(hs, i + 1, k, e, bytes[2 * Width(hs[i])..]) {
      PartOfTail(hs, i, k, e, bytes);
    }
  }

  /** After an accepted write of a block, reading the same block is accepted and returns what was written. */
  lemma BlockReadsBack(hs: seq<Handler>, vs: seq<int>, i: nat, n: nat, bytes: seq<byte>)
    requires |hs| == |vs| && Table(hs, vs) && Mapped(hs) && i <= |hs| && |bytes| == 2 * n
    requires WriteBlock(hs, vs, Start(hs, i), n, bytes).0 == NoErr
    ensures var e := EndOf(hs, i, n);
            && e >= 0 && Span(hs, i, e) == n
            && ReadBlock(hs, WriteBlock(hs, vs, Start(hs, i), n, bytes).1, Start(hs, i), n) ==
                (NoErr, SeenBlock(hs, i, e, bytes))
  {
    hide WriteBlock, ReadBlock, Acceptable, Stored, Table;
    AcceptedExactlyWhen(hs, vs, i, n, bytes);
    var e := EndOf(hs, i, n);
    ReadStored(hs, vs, i, e, bytes, WriteBlock(hs, vs, Start(hs, i), n, bytes).1);
  }

  /** A block that ends at a parameter is read whole, whatever the values: each parameter's registers in its place. */
  lemma {:induction false} ReadByParameter(hs: seq<Handler>, vs: seq<int>, i: nat, e: nat, k: nat)
    requires |hs| == |vs| && Table(hs, vs) && Mapped(hs) && i <= e <= |hs|
    ensures var r := ReadBlock(hs, vs, Start(hs, i), Span(hs, i, e));
            && r.0 == NoErr && |r.1| == 2 * Span(hs, i, e)
            && (i <= k < e ==> Part(hs, i, k, e, r.1) == Words(hs[k], vs[k]))
    decreases e - i
  {
    hide Words, Table;
    if i < e {
      ReadByParameter(hs, vs, i + 1, e, k);
      var r := ReadBlock(hs, vs, i, Span(hs, i, e)).1;
      SizeMapped(hs, vs, i);
      assert r[2 * Width(hs[i])..] == ReadBlock(hs, vs, Start(hs, i + 1), Span(hs, i + 1, e)).1;
      if i < k < e {
        PartOfTail(hs, i, k, e, r);
      } else if k == i {
        PartOfHead(hs, i, e, r);
      }
    }
  }

  // ---------------------------------------------------------------- addresses

  /** Every parameter begins where the one before ends. */
  predicate Contiguous(hs: seq<Handler>) {
    forall k | 0 <= k < |hs| - 1 :: hs[k + 1].addr == hs[k].addr + Width(hs[k])
  }

  lemma {:induction false} SpanIsDistance(hs: seq<Handler>, i: nat, k: nat)
    requires Contiguous(hs) && i <= k < |hs|
    ensures Span(hs, i, k) == hs[k].addr - hs[i].addr
    decreases k - i
  {
    if i < k {
      SpanIsDistance(hs, i + 1, k);
    }
  }

  /** In a table without gaps, the parameters of a block are exactly those whose addresses lie in it. */
  lemma BlockIsAddresses(hs: seq<Handler>, i: nat, e: nat, k: nat)
    requires Contiguous(hs) && i < e <= |hs| && k < |hs|
    ensures i <= k < e <==> hs[i].addr <= hs[k].addr < hs[i].addr + Span(hs, i, e)
    ensures i <= k < e ==> Span(hs, i, k) == hs[k].addr - hs[i].addr
  {
    if k < i {
      SpanIsDistance(hs, k, i);
    } else if k < e {
      SpanIsDistance(hs, i, k);
      SpanSplits(hs, i, k, e);
    } else {
      SpanIsDistance(hs, i, k);
      SpanSplits(hs, i, e, k);
    }
  }

  /**
   * In a table without gaps, an accepted write changes exactly the parameters whose addresses lie in the block,
   * each to the value of the registers at its own address.
   */
  lemma WriteByAddress(hs: seq<Handler>, vs: seq<int>, address: word, n: nat, bytes: seq<byte>, k: nat)
    requires |hs| == |vs| && Table(hs, vs) && Mapped(hs) && Contiguous(hs) && |bytes| == 2 * n && n > 0 && k < |hs|
    requires WriteBlock(hs, vs, Find(hs, address, 0), n, bytes).0 == NoErr
    ensures var after, at := WriteBlock(hs, vs, Find(hs, address, 0), n, bytes).1, hs[k].addr - address;
            if 0 <= at < n then
              at + Width(hs[k]) <= n && after[k] == Value(hs[k], bytes[2 * at..2 * at + 2 * Width(hs[k])])
            else after[k] == vs[k]
  {
    hide WriteBlock, Acceptable, Table, Value;
    var i := Find(hs, address, 0);
    if i == -1 {
      NoParameter(hs, vs, n, bytes);
    } else {
      AcceptedExactlyWhen(hs, vs, i, n, bytes);
      var e := EndOf(hs, i, n);
      BlockIsAddresses(hs, i, e, k);
      if i <= k < e {
        SpanSplits(hs, i, k, e);
      }
    }
  }

  lemma NoParameter(hs: seq<Handler>, vs: seq<int>, n: nat, bytes: seq<byte>)
    requires Table(hs, vs) && Mapped(hs) && |bytes| == 2 * n && n > 0
    ensures WriteBlock(hs, vs, -1, n, bytes).0 == NoReg
  {}

  // ---------------------------------------------------------------- the callback

  lemma ReadStep(hs: seq<Handler>, vs: seq<int>, i: nat, n: nat, head: seq<byte>)
    requires Table(hs, vs) && Mapped(hs) && i < |hs| && n > 0 && !(hs[i].size == 4 && n < 2)
    ensures var r, rest := ReadBlock(hs, vs, i, n), ReadBlock(hs, vs, Next(hs, i), n - Width(hs[i]));
            r.0 == rest.0 && head + r.1 == head + Words(hs[i], vs[i]) + rest.1
  {
    hide Words;
  }

  lemma ReadStops(hs: seq<Handler>, vs: seq<int>, i: int, n: nat)
    requires Table(hs, vs) && Mapped(hs) && -1 <= i < |hs|
    ensures n == 0 ==> ReadBlock(hs, vs, i, n) == (NoErr, [])
    ensures n > 0 && i == -1 ==> ReadBlock(hs, vs, i, n) == (NoReg, [])
    ensures n == 1 && i >= 0 && hs[i].size == 4 ==> ReadBlock(hs, vs, i, n) == (Inval, [])
  {}

  /** `MB_REG_READ` */
  method RegRead(store: Store, usAddress: word, usNRegs: word, buffer: array<byte>) returns (status: Status)
    requires store.Valid() && Mapped(store.handlers) && 2 * usNRegs <= buffer.Length
    modifies buffer, store`currentIndex
    ensures var r := ReadBlock(store.handlers, store.vals, Find(store.handlers, (usAddress - 1) % 0x1_0000, 0),
            usNRegs);
            status == r.0 && buffer[..|r.1|] == r.1
  {
    hide Words, Table, Mapped, ReadBlock;
    var ph := store.GetByAddress((usAddress - 1) % 0x1_0000);
    var left: nat, at: nat := usNRegs, 0;
    ghost var whole := ReadBlock(store.handlers, store.vals, ph, left);
    while left > 0
      invariant left <= usNRegs && at <= 2 * usNRegs - 2 * left
      invariant -1 <= ph < |store.handlers| && (ph >= 0 ==> store.currentIndex == ph)
      invariant whole.0 == ReadBlock(store.handlers, store.vals, ph, left).0
      invariant whole.1 == buffer[..at] + ReadBlock(store.handlers, store.vals, ph, left).1
    {
      ReadStops(store.handlers, store.vals, ph, left);
      if ph == -1 {
        return NoReg;
      }
      var h := store.handlers[ph];
      if h.size == 4 && left < 2 {
        return Inval;
      }
      SizeMapped(store.handlers, store.vals, ph);
      ReadStep(store.handlers, store.vals, ph, left, buffer[..at]);
      at := Append(buffer, at, Words(h, store.vals[ph]));
      left := left - Width(h);
      ph := store.GetNext();
    }
    ReadStops(store.handlers, store.vals, ph, left);
    status := NoErr;
  }

  lemma SizeMapped(hs: seq<Handler>, vs: seq<int>, i: nat)
    requires Table(hs, vs) && Mapped(hs) && i < |hs|
    ensures |hs| == |vs| && hs[i].size in {1, 2, 4} && InType(hs[i], vs[i])
  {}

  /** `MB_REG_WRITE` */
  method RegWrite(store: Store, usAddress: word, usNRegs: word, buffer: seq<byte>) returns (status: Status)
    requires store.Valid() && Mapped(store.handlers) && |buffer| == 2 * usNRegs
    modifies store
    ensures store.Valid()
    ensures (status, store.vals) ==
            WriteBlock(store.handlers, old(store.vals), Find(store.handlers, (usAddress - 1) % 0x1_0000, 0), usNRegs,
            buffer)
  {
    hide Value, Table, Mapped, InRange;
    var ph := store.GetByAddress((usAddress - 1) % 0x1_0000);
    var left: nat, at: nat := usNRegs, 0;
    ghost var whole := WriteBlock(store.handlers, store.vals, ph, left, buffer);
    while left > 0
      invariant left <= usNRegs && at == 2 * usNRegs - 2 * left
      invariant -1 <= ph < |store.handlers| && (ph >= 0 ==> store.currentIndex == ph)
      invariant store.Valid() && whole == WriteBlock(store.handlers, store.vals, ph, left, buffer[at..])
    {
      if ph == -1 {
        return NoReg;
      }
      var h := store.handlers[ph];
      if h.size == 4 && left < 2 {
        return Inval;
      }
      SizeMapped(store.handlers, store.vals, ph);
      var w := Width(h);
      var words := buffer[at..at + 2 * w];
      assert buffer[at..][..2 * w] == words;
      assert buffer[at..][2 * w..] == buffer[at + 2 * w..];
      at, left := at + 2 * w, left - w;
      var v := Value(h, words);
      if !InRange(h, v) {
        return Inval;
      }
      TableUpdate(store.handlers, store.vals, ph, v);
      store.vals := store.vals[ph := v];
      ph := store.GetNext();
    }
    status := NoErr;
  }

  /** A refused block may already have changed parameters: here the second of two values is out of range. */
  lemma RefusedBlockMayChange()
    ensures var hs := [Handler(0, 2, false, 0, 9, 0, NotSave), Handler(1, 2, false, 0, 9, 0, NotSave)];
            Table(hs, [0, 0]) && Mapped(hs) && WriteBlock(hs, [0, 0], 0, 2, [0, 5, 0, 99]) == (Inval, [5, 0])
  {
    var hs := [Handler(0, 2, false, 0, 9, 0, NotSave), Handler(1, 2, false, 0, 9, 0, NotSave)];
    assert Pow256(2) == 0x1_0000;
    var bytes: seq<byte> := [0, 5, 0, 99];
    SmallValue(hs[0], 5);
    SmallValue(hs[1], 99);
    assert bytes[..2] == [0, 5] && bytes[2..] == [0, 99] && bytes[2..][..2] == [0, 99];
    hide Value;
    assert [0, 0][0 := 5] == [5, 0];
    assert WriteBlock(hs, [5, 0], 1, 1, [0, 99]) == (Inval, [5, 0]) by {
      assert [0, 99][..2] == [0, 99];
    }
  }

  lemma SmallValue(h: Handler, b: byte)
    requires h.size == 2 && !h.signed
    ensures Value(h, [0, b]) == b
  {
    assert Unwords(h, [0, b]) == [b, 0];
    assert FromLittleEndian([0]) == 0 by {
      assert [0][1..] == [];
    }
    assert [b, 0][1..] == [0];
  }
}
