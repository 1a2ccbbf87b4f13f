/** The keyboard: debounce, press detection and auto-repeat of seven keys, tick by tick. */
module Keys {
  import opened Bytes
  import opened Division

  const KEY_NUM := 7
  const KEY_SAMPLES := 2

  // ---------------------------------------------------------------- one key

  /** Everything the driver keeps about one key. */
  datatype Key = Key(filter: byte, pressed: bool, prev: bool, fired: bool, first: byte, again: byte)

  /** How keys repeat: delays, and whether this one does. */
  datatype Repeat = Repeat(on: bool, first: byte, again: byte)

  /** `dInUpdate`: the debounced state follows only an input that found the counter at its end. */
  function Debounce(k: Key, input: bool): (r: Key)
    requires k.filter <= KEY_SAMPLES
    ensures r.filter <= KEY_SAMPLES
    ensures r.pressed != k.pressed ==> r.pressed == input && k.filter == (if input then KEY_SAMPLES else 0)
  {
    if input then
      if k.filter < KEY_SAMPLES then k.(filter := k.filter + 1) else k.(pressed := true)
    else
      if k.filter > 0 then k.(filter := k.filter - 1) else k.(pressed := false)
  }

  /** The part of `keyProc` that decides whether a key fires. */
  function Fire(k: Key, rep: Repeat): Key {
    var front := !k.prev && k.pressed;
    if !rep.on then k.(fired := front, prev := k.pressed)
    else if !k.pressed then k.(fired := false, first := 0, again := 0, prev := false)
    else if k.first < rep.first then k.(fired := front, first := k.first + 1, prev := true)
    else if k.again < rep.again then k.(fired := front, again := k.again + 1, prev := true)
    else k.(fired := true, again := 0, prev := true)
  }

  function Tick(k: Key, input: bool, rep: Repeat): (r: Key)
    requires k.filter <= KEY_SAMPLES
    ensures r.filter <= KEY_SAMPLES && r.prev == r.pressed
  {
    Fire(Debounce(k, input), rep)
  }

  function Run(k: Key, inputs: seq<bool>, rep: Repeat): (r: Key)
    requires k.filter <= KEY_SAMPLES
    ensures r.filter <= KEY_SAMPLES
    decreases |inputs|
  {
    if inputs == [] then k else Tick(Run(k, inputs[..|inputs| - 1], rep), inputs[|inputs| - 1], rep)
  }

  function Count(inputs: seq<bool>, value: bool): nat
    decreases |inputs|
  {
    if inputs == [] then 0
    else Count(inputs[..|inputs| - 1], value) + (if inputs[|inputs| - 1] == value then 1 else 0)
  }

  /**
   * Noise is rejected: a state changes only after enough samples of the other one, wherever they come in the
   * history.
   */
  lemma {:induction false} ChangeNeedsSamples(k: Key, inputs: seq<bool>, rep: Repeat)
    requires k.filter <= KEY_SAMPLES && k.prev == k.pressed
    ensures var r := Run(k, inputs, rep);
            && r.filter <= k.filter + Count(inputs, true)
            && r.filter >= (k.filter as int) - Count(inputs, false)
            && (r.pressed && !k.pressed ==> Count(inputs, true) > KEY_SAMPLES - k.filter)
            && (!r.pressed && k.pressed ==> Count(inputs, false) > k.filter)
    decreases |inputs|
  {
    if inputs != [] {
      ChangeNeedsSamples(k, inputs[..|inputs| - 1], rep);
    }
  }

  /** The last `n` samples all have one value. */
  predicate Steady(inputs: seq<bool>, n: nat, value: bool) {
    n <= |inputs| && forall j | |inputs| - n <= j < |inputs| :: inputs[j] == value
  }

  /**
   * While the input is steady, every sample moves the counter one towards that end, and the one after changes
   * the state.
   */
  lemma {:induction false} SteadyCounts(k: Key, inputs: seq<bool>, rep: Repeat, n: nat, value: bool)
    requires k.filter <= KEY_SAMPLES && Steady(inputs, n, value)
    ensures var r := Run(k, inputs, rep);
            && (value ==> r.filter >= if n < KEY_SAMPLES then n else KEY_SAMPLES)
            && (!value ==> r.filter <= if n < KEY_SAMPLES then KEY_SAMPLES - n else 0)
            && (n > KEY_SAMPLES ==> r.pressed == value)
    decreases n
  {
    if n > 0 {
      SteadyCounts(k, inputs[..|inputs| - 1], rep, n - 1, value);
    }
  }

  /** Three equal samples decide, whatever the key was and whatever came before: it goes down, and it comes up. */
  lemma ThreeSamplesDecide(k: Key, inputs: seq<bool>, rep: Repeat, value: bool)
    requires k.filter <= KEY_SAMPLES
    ensures Run(k, inputs + [value, value, value], rep).pressed == value
  {
    SteadyCounts(k, inputs + [value, value, value], rep, 3, value);
  }

  // ---------------------------------------------------------------- repeating

  function Held(n: nat): (s: seq<bool>)
    ensures |s| == n
  {
    seq(n, i => true)
  }

  /** The ticks, counted from the press, at which a key held down fires. */
  predicate FiresAt(rep: Repeat, t: nat) {
    t == 0 || (rep.on && t >= rep.first && (t - rep.first + 1) % (rep.again + 1) == 0)
  }

  /** A key that the debouncer has just reported, about to be handled. */
  predicate JustPressed(k: Key) { k.pressed && !k.prev && k.first == k.again == 0 }

  /** The key after the press was handled and t more ticks passed with the key down. */
  function Down(k: Key, rep: Repeat, t: nat): Key {
    if t == 0 then Fire(k, rep) else Fire(Down(k, rep, t - 1), rep)
  }

  lemma NextRemainder(n: nat, d: nat)
    requires d > 0
    ensures (n + 1) % d == if n % d + 1 == d then 0 else n % d + 1
  {
    Euclid(n, d);
    if n % d + 1 == d {
      MulNext(d, n / d);
      QuotientIs(n + 1, d, n / d + 1, 0);
    } else {
      QuotientIs(n + 1, d, n / d, n % d + 1);
    }
  }

  /**
   * A key held down fires when it is pressed and then, if it repeats, at every further multiple of the repeat
   * delay.
   */
  lemma {:induction false} HeldKeyFires(k: Key, rep: Repeat, t: nat)
    requires JustPressed(k)
    ensures var r := Down(k, rep, t);
            && r.pressed && r.prev && r.filter == k.filter
            && (r.fired <==> FiresAt(rep, t))
            && (rep.on ==> r.first == (if t < rep.first then t + 1 else rep.first)
                           && r.again == (if t < rep.first then 0 else (t - rep.first + 1) % (rep.again + 1)))
    decreases t
  {
    var d := rep.again + 1;
    if t > 0 {
      HeldKeyFires(k, rep, t - 1);
    }
    if t >= rep.first {
      NextRemainder(t - rep.first, d);
      if t == rep.first {
        QuotientIs(0, d, 0, 0);
      }
    }
  }

  function RepetitionTick(rep: Repeat, k: nat): int { rep.first + (k + 1) * (rep.again + 1) - 1 }

  /** The k-th repetition comes at tick F + (k + 1)(R + 1) - 1, and nothing comes between. */
  lemma RepetitionTicks(rep: Repeat, t: nat)
    requires rep.on && t > 0
    ensures FiresAt(rep, t) <==> exists k: nat :: t == RepetitionTick(rep, k)
  {
    var d := rep.again + 1;
    if t >= rep.first {
      var n := t - rep.first + 1;
      Euclid(n, d);
      if n % d == 0 {
        RepetitionFound(rep, t, n / d);
      }
      forall k: nat | t == RepetitionTick(rep, k) ensures n % d == 0 {
        QuotientIs(n, d, k + 1, 0);
      }
    } else {
      forall k: nat ensures t != RepetitionTick(rep, k) {
        MulLe(d, 1, k + 1);
      }
    }
  }

  lemma RepetitionFound(rep: Repeat, t: nat, q: int)
    requires t - rep.first + 1 == (rep.again + 1) * q && t >= rep.first
    ensures q > 0 && t == RepetitionTick(rep, q - 1)
  {
    if q <= 0 {
      MulLe(rep.again + 1, q, 0);
    }
    MulNext(rep.again + 1, q - 1);
  }

  const REST := Key(0, false, false, false, 0, 0)

  /** A key at rest, then held: two samples fill the counter, the third is the press. */
  lemma {:induction false} HeldFromRest(rep: Repeat, n: nat)
    ensures var r := Run(REST, Held(n), rep);
            if n <= 2 then r == REST.(filter := n) else r == Down(REST.(filter := 2, pressed := true), rep, n - 3)
    decreases n
  {
    if n > 0 {
      assert Held(n)[..n - 1] == Held(n - 1);
      HeldFromRest(rep, n - 1);
      if n > 3 {
        HeldKeyFires(REST.(filter := 2, pressed := true), rep, n - 4);
        assert Debounce(Run(REST, Held(n - 1), rep), true) == Run(REST, Held(n - 1), rep);
      }
    }
  }

  /** From rest to any moment of a long press: the raw input held for n + 3 ticks. */
  lemma HeldFromRestFires(rep: Repeat, n: nat)
    ensures Run(REST, Held(n + 3), rep).fired <==> FiresAt(rep, n)
    ensures !Run(REST, Held(1), rep).fired && !Run(REST, Held(2), rep).fired
  {
    HeldFromRest(rep, n + 3);
    HeldFromRest(rep, 1);
    HeldFromRest(rep, 2);
    HeldKeyFires(REST.(filter := 2, pressed := true), rep, n);
  }

  // ---------------------------------------------------------------- every press of every history

  /** Between ticks the states agree, and a key that is up has clear counters and does not fire. */
  lemma {:induction false} UpIsClear(inputs: seq<bool>, rep: Repeat)
    ensures var r := Run(REST, inputs, rep);
            r.prev == r.pressed && (!r.pressed ==> !r.fired) && (!r.pressed || !rep.on ==> r.first == r.again == 0)
    decreases |inputs|
  {
    if inputs != [] {
      UpIsClear(inputs[..|inputs| - 1], rep);
    }
  }

  /** Input m is the one at which the debounced state goes down, and it stays down until the end of the history. */
  predicate PressedSince(inputs: seq<bool>, rep: Repeat, m: nat) {
    && m < |inputs| && !Run(REST, inputs[..m], rep).pressed
    && forall n | m < n <= |inputs| :: Run(REST, inputs[..n], rep).pressed
  }

  /** The key as the debouncer reports the press. */
  function Reported(inputs: seq<bool>, rep: Repeat, m: nat): Key
    requires m < |inputs|
  {
    Debounce(Run(REST, inputs[..m], rep), inputs[m])
  }

  lemma PressIsReported(inputs: seq<bool>, rep: Repeat, m: nat)
    requires PressedSince(inputs, rep, m)
    ensures JustPressed(Reported(inputs, rep, m))
    ensures Run(REST, inputs[..m + 1], rep) == Fire(Reported(inputs, rep, m), rep)
  {
    assert Run(REST, inputs[..m + 1], rep).pressed;
    assert inputs[..m + 1][..m] == inputs[..m];
    UpIsClear(inputs[..m], rep);
  }

  lemma FireIgnoresFilter(k: Key, rep: Repeat, f: byte)
    ensures Fire(k.(filter := f), rep) == Fire(k, rep).(filter := f)
  {}

  /** However the input bounces while the key is down, only the sample counter sees it. */
  lemma {:induction false} PressRuns(inputs: seq<bool>, rep: Repeat, m: nat)
    requires PressedSince(inputs, rep, m)
    ensures var r := Run(REST, inputs, rep);
            r == Down(Reported(inputs, rep, m), rep, |inputs| - m - 1).(filter := r.filter)
    decreases |inputs|
  {
    hide Fire;
    var n := |inputs| - 1;
    assert inputs[..|inputs|] == inputs;
    PressIsReported(inputs, rep, m);
    if m < n {
      var before := inputs[..n];
      assert before[..m] == inputs[..m] && before[m] == inputs[m];
      assert forall j | 0 <= j <= n :: before[..j] == inputs[..j];
      PressRuns(before, rep, m);
      var k, d := Run(REST, before, rep), Down(Reported(inputs, rep, m), rep, n - 1 - m);
      StaysDown(k, inputs[n], rep);
      FireIgnoresFilter(d, rep, Debounce(k, inputs[n]).filter);
    }
  }

  lemma StaysDown(k: Key, input: bool, rep: Repeat)
    requires k.filter <= KEY_SAMPLES && k.pressed && Tick(k, input, rep).pressed
    ensures Debounce(k, input) == k.(filter := Debounce(k, input).filter)
  {}

  /**
   * In every history from rest, a key that went down t ticks ago fires exactly at its firing ticks; a key that
   * is up never does.
   */
  lemma EveryPressFires(inputs: seq<bool>, rep: Repeat, m: nat)
    requires PressedSince(inputs, rep, m)
    ensures Run(REST, inputs, rep).fired <==> FiresAt(rep, |inputs| - m - 1)
  {
    hide Fire, Run, Debounce;
    PressRuns(inputs, rep, m);
    PressIsReported(inputs, rep, m);
    HeldKeyFires(Reported(inputs, rep, m), rep, |inputs| - m - 1);
  }

  /** Every moment at which a key is down belongs to a press. */
  lemma {:induction false} DownSincePress(inputs: seq<bool>, rep: Repeat) returns (m: nat)
    requires Run(REST, inputs, rep).pressed
    ensures PressedSince(inputs, rep, m)
    decreases |inputs|
  {
    hide Tick;
    var n := |inputs| - 1;
    assert inputs[..|inputs|] == inputs;
    if Run(REST, inputs[..n], rep).pressed {
      m := DownSincePress(inputs[..n], rep);
      assert forall j | 0 <= j <= n :: inputs[..n][..j] == inputs[..j];
    } else {
      m := n;
    }
  }

  // ---------------------------------------------------------------- pressing

  /** Ticks at which the key fired. */
  function Firings(k: Key, inputs: seq<bool>, rep: Repeat): nat
    requires k.filter <= KEY_SAMPLES
    decreases |inputs|
  {
    if inputs == [] then 0
    else Firings(k, inputs[..|inputs| - 1], rep) + (if Run(k, inputs, rep).fired then 1 else 0)
  }

  /** Ticks at which the debounced state went down. */
  function Presses(k: Key, inputs: seq<bool>, rep: Repeat): nat
    requires k.filter <= KEY_SAMPLES
    decreases |inputs|
  {
    if inputs == [] then 0
    else
      var before := Run(k, inputs[..|inputs| - 1], rep);
      Presses(k, inputs[..|inputs| - 1], rep) + (if !before.pressed && Run(k, inputs, rep).pressed then 1 else 0)
  }

  lemma {:induction false} SettledStaysSettled(k: Key, inputs: seq<bool>, rep: Repeat)
    requires k.filter <= KEY_SAMPLES && k.prev == k.pressed
    ensures Run(k, inputs, rep).prev == Run(k, inputs, rep).pressed
    decreases |inputs|
  {
    if inputs != [] {
      SettledStaysSettled(k, inputs[..|inputs| - 1], rep);
    }
  }

  /** Over any history, a key without repeat fires exactly once for every press, and only while it is down. */
  lemma {:induction false} OncePerPress(k: Key, inputs: seq<bool>, rep: Repeat)
    requires k.filter <= KEY_SAMPLES && k.prev == k.pressed && !rep.on
    ensures Firings(k, inputs, rep) == Presses(k, inputs, rep)
    ensures inputs != [] && Run(k, inputs, rep).fired ==> Run(k, inputs, rep).pressed
    decreases |inputs|
  {
    if inputs != [] {
      SettledStaysSettled(k, inputs[..|inputs| - 1], rep);
      OncePerPress(k, inputs[..|inputs| - 1], rep);
    }
  }

  // ---------------------------------------------------------------- the driver

  /** `key_type`; a mask is the set of the numbers of its bits. */
  class Keyboard {
    var dInState: set<nat>
    var dInPrevState: set<nat>
    var keyState: set<nat>
    var reiterationSelect: set<nat>
    var toFirstReiteration: byte
    var toReiteration: byte
    const dInFilterCnt: array<byte>
    const toFirstReiterationCnt: array<byte>
    const toReiterationCnt: array<byte>

    constructor ()
      ensures Valid() && fresh(Counters()) && forall i | 0 <= i < KEY_NUM :: KeyOf(i) == REST
    {
      dInState, dInPrevState, keyState, reiterationSelect := {}, {}, {}, {};
      toFirstReiteration, toReiteration := 0, 0;
      dInFilterCnt := new byte[KEY_NUM](i => 0);
      toFirstReiterationCnt := new byte[KEY_NUM](i => 0);
      toReiterationCnt := new byte[KEY_NUM](i => 0);
    }

    ghost function Counters(): set<object> { {dInFilterCnt, toFirstReiterationCnt, toReiterationCnt} }

    ghost predicate Valid()
      reads this, Counters()
    {
      && dInFilterCnt.Length == toFirstReiterationCnt.Length == toReiterationCnt.Length == KEY_NUM
      && dInFilterCnt != toFirstReiterationCnt && dInFilterCnt != toReiterationCnt &&
          toFirstReiterationCnt != toReiterationCnt
      && forall i | 0 <= i < KEY_NUM :: dInFilterCnt[i] <= KEY_SAMPLES
    }

    ghost function KeyOf(i: nat): Key
      requires Valid() && i < KEY_NUM
      reads this, Counters()
    {
      Key(dInFilterCnt[i], i in dInState, i in dInPrevState, i in keyState, toFirstReiterationCnt[i],
          toReiterationCnt[i])
    }

    ghost function RepeatOf(i: nat): Repeat
      reads this
    {
      Repeat(i in reiterationSelect, toFirstReiteration, toReiteration)
    }

    /** `ksSet`: the delays are cut to a byte. */
    method KsSet(first: word, again: word, mask: set<nat>)
      modifies this`toFirstReiteration, this`toReiteration, this`reiterationSelect
      ensures forall i :: RepeatOf(i) == Repeat(i in mask, first % 0x100, again % 0x100)
    {
      toFirstReiteration, toReiteration, reiterationSelect := first % 0x100, again % 0x100, mask;
    }

    /** `dInUpdate` */
    method DInUpdate(num: nat, val: bool)
      requires Valid() && num < KEY_NUM
      modifies this`dInState, dInFilterCnt
      ensures Valid() && KeyOf(num) == Debounce(old(KeyOf(num)), val)
      ensures forall i | 0 <= i < KEY_NUM && i != num :: KeyOf(i) == old(KeyOf(i))
    {
      if val {
        if dInFilterCnt[num] < KEY_SAMPLES {
          dInFilterCnt[num] := dInFilterCnt[num] + 1;
        } else {
          dInState := dInState + {num};
        }
      } else {
        if dInFilterCnt[num] > 0 {
          dInFilterCnt[num] := dInFilterCnt[num] - 1;
        } else {
          dInState := dInState - {num};
        }
      }
    }

    /** One turn of the loop over the keys, before the states are remembered. */
    method Detect(i: nat)
      requires Valid() && i < KEY_NUM
      modifies this`keyState, toFirstReiterationCnt, toReiterationCnt
      ensures Valid() && KeyOf(i) == Fire(old(KeyOf(i)), RepeatOf(i)).(prev := old(KeyOf(i)).prev)
      ensures forall j | 0 <= j < KEY_NUM && j != i :: KeyOf(j) == old(KeyOf(j))
    {
      if i !in dInPrevState && i in dInState {
        keyState := keyState + {i};
      } else {
        keyState := keyState - {i};
      }
      if i in reiterationSelect {
        if i in dInState {
          if toFirstReiterationCnt[i] < toFirstReiteration {
            toFirstReiterationCnt[i] := toFirstReiterationCnt[i] + 1;
          } else {
            if toReiterationCnt[i] < toReiteration {
              toReiterationCnt[i] := toReiterationCnt[i] + 1;
            } else {
              keyState := keyState + {i};
              toReiterationCnt[i] := 0;
            }
          }
        } else {
          toFirstReiterationCnt[i] := 0;
          toReiterationCnt[i] := 0;
        }
      }
    }

    /** `keyProc`: one tick of every key, none of which depends on another. */
    method KeyProc(inputs: seq<bool>) returns (state: set<nat>)
      requires Valid() && |inputs| == KEY_NUM
      modifies this`dInState, this`dInPrevState, this`keyState, Counters()
      ensures Valid() && state == keyState
      ensures forall i | 0 <= i < KEY_NUM :: KeyOf(i) == Tick(old(KeyOf(i)), inputs[i], RepeatOf(i))
    {
      hide Debounce, Fire;
      for i := 0 to KEY_NUM
        invariant Valid()
        invariant forall j | 0 <= j < KEY_NUM ::
                  KeyOf(j) == if j < i then Debounce(old(KeyOf(j)), inputs[j]) else old(KeyOf(j))
      {
        DInUpdate(i, inputs[i]);
      }
      DetectAll();
      label detected:
      dInPrevState := dInState;
      forall i | 0 <= i < KEY_NUM ensures KeyOf(i) == Tick(old(KeyOf(i)), inputs[i], RepeatOf(i)) {
        Remembers(Debounce(old(KeyOf(i)), inputs[i]), RepeatOf(i));
        assert KeyOf(i) == old@detected(KeyOf(i)).(prev := old@detected(KeyOf(i)).pressed);
      }
      state := keyState;
    }

    method DetectAll()
      requires Valid()
      modifies this`keyState, toFirstReiterationCnt, toReiterationCnt
      ensures Valid()
      ensures forall j | 0 <= j < KEY_NUM :: KeyOf(j) == Fire(old(KeyOf(j)), RepeatOf(j)).(prev := old(KeyOf(j)).prev)
    {
      hide Fire;
      for i := 0 to KEY_NUM
        invariant Valid()
        invariant forall j | 0 <= j < KEY_NUM ::
                    KeyOf(j) == if j < i then
                        Fire(old(KeyOf(j)), RepeatOf(j)).(prev := old(KeyOf(j)).prev) else old(KeyOf(j))
      {
        Detect(i);
      }
    }
  }

  lemma Remembers(k: Key, rep: Repeat)
    ensures Fire(k, rep).prev == Fire(k, rep).pressed == k.pressed
  {}

  // ---------------------------------------------------------------- the driver over many ticks

  /** The samples of key i. */
  function Samples(ticks: seq<seq<bool>>, i: nat): (s: seq<bool>)
    requires i < KEY_NUM && forall j | 0 <= j < |ticks| :: |ticks[j]| == KEY_NUM
    ensures |s| == |ticks|
  {
    seq(|ticks|, j requires 0 <= j < |ticks| => ticks[j][i])
  }

  /**
   * `keyProc` called tick by tick: every key runs through its own samples, and three equal ones decide whether it
   * is down.
   */
  method Scan(keyboard: Keyboard, ticks: seq<seq<bool>>)
    requires keyboard.Valid() && forall j | 0 <= j < |ticks| :: |ticks[j]| == KEY_NUM
    modifies keyboard, keyboard.Counters()
    ensures keyboard.Valid() && forall i :: keyboard.RepeatOf(i) == old(keyboard.RepeatOf(i))
    ensures forall i | 0 <= i < KEY_NUM ::
            keyboard.KeyOf(i) == Run(old(keyboard.KeyOf(i)), Samples(ticks, i), keyboard.RepeatOf(i))
    ensures forall i, value | 0 <= i < KEY_NUM && Steady(Samples(ticks, i), 3, value) ::
            i in keyboard.dInState <==> value
  {
    hide Tick;
    for n := 0 to |ticks|
      invariant keyboard.Valid() && forall i :: keyboard.RepeatOf(i) == old(keyboard.RepeatOf(i))
      invariant forall i | 0 <= i < KEY_NUM ::
                keyboard.KeyOf(i) == Run(old(keyboard.KeyOf(i)), Samples(ticks, i)[..n], keyboard.RepeatOf(i))
    {
      label before:
      var state := keyboard.KeyProc(ticks[n]);
      forall i | 0 <= i < KEY_NUM
        ensures keyboard.KeyOf(i) == Run(old(keyboard.KeyOf(i)), Samples(ticks, i)[..n + 1], keyboard.RepeatOf(i))
      {
        RunStep(old(keyboard.KeyOf(i)), Samples(ticks, i), keyboard.RepeatOf(i), n);
      }
    }
    forall i | 0 <= i < KEY_NUM
      ensures keyboard.KeyOf(i) == Run(old(keyboard.KeyOf(i)), Samples(ticks, i), keyboard.RepeatOf(i))
    {
      assert Samples(ticks, i)[..|ticks|] == Samples(ticks, i);
    }
    forall i, value | 0 <= i < KEY_NUM && Steady(Samples(ticks, i), 3, value)
      ensures i in keyboard.dInState <==> value
    {
      SteadyCounts(old(keyboard.KeyOf(i)), Samples(ticks, i), keyboard.RepeatOf(i), 3, value);
    }
  }

  lemma RunStep(k: Key, inputs: seq<bool>, rep: Repeat, n: nat)
    requires k.filter <= KEY_SAMPLES && n < |inputs|
    ensures Run(k, inputs[..n + 1], rep) == Tick(Run(k, inputs[..n], rep), inputs[n], rep)
  {
    assert inputs[..n + 1][..n] == inputs[..n];
  }
}
