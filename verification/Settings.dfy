/** Settings kept over a power cut: the parameter images of both classes in the EEPROM. */
module Settings {
  import opened Bytes
  import opened Parameters
  import opened PrmSystem
  import opened Eeprom

  const SYSTEM_SETTINGS := 0
  const USER_SETTINGS := 512

  predicate Fits(hs: seq<Handler>) { SerialSize(hs, SaveSys) <= 512 && SerialSize(hs, SaveUse) <= 512 }

  /** Where the image of a class lies. */
  function Place(save: Save): nat { if save == SaveSys then SYSTEM_SETTINGS else USER_SETTINGS }

  /** The memory after a class was saved. */
  function Saved(m: Memory, hs: seq<Handler>, vs: seq<int>, save: Save): Memory
    requires Table(hs, vs)
  {
    Put(m, Place(save), Image(hs, vs, save))
  }

  /** What loading a class from the memory does. */
  function LoadFrom(hs: seq<Handler>, vs: seq<int>, save: Save, m: Memory): (l: Loaded)
    requires |hs| == |vs| && Fits(hs) && save != NotSave
    ensures |l.vs| == |vs|
  {
    Load(hs, vs, save, m[Place(save)..Place(save) + SerialSize(hs, save)])
  }

  /** The bus transfers that saving a class takes. */
  function SavePages(hs: seq<Handler>, save: Save): nat { Pages(Place(save), SerialSize(hs, save)) }

  /** `saveparametersSystem` and `saveparametersUser` */
  method SaveParameters(store: Store, eep: Device, save: Save) returns (ok: bool)
    requires store.Valid() && Fits(store.handlers) && save != NotSave
    modifies eep
    ensures ok == eep.Clear(old(eep.transfers), SavePages(store.handlers, save))
    ensures eep.transfers == old(eep.transfers) + eep.Taken(old(eep.transfers), SavePages(store.handlers, save))
    ensures ok ==> eep.mem == Saved(old(eep.mem), store.handlers, store.vals, save)
    ensures !ok ==> forall i | 0 <= i < SIZE && i / 512 != Place(save) / 512 :: eep.mem[i] == old(eep.mem)[i]
  {
    hide Image, Put, Pages;
    var size := store.GetSerialSize(save);
    var buffer := new byte[size](i => 0);
    store.Serialize(save, buffer);
    assert buffer[..] == Image(store.handlers, store.vals, save);
    ok := Write(eep, Place(save), buffer[..]);
    if !ok {
      forall i | 0 <= i < SIZE && i / 512 != Place(save) / 512 ensures Apart(Place(save), size, i) {
        OtherHalf(Place(save), size, i);
      }
    }
  }

  lemma OtherHalf(place: nat, size: nat, i: nat)
    requires place in {0, 512} && size <= 512 && i < SIZE && i / 512 != place / 512
    ensures Apart(place, size, i)
  {}

  /** What loading a class does when its image is read and when it is not. */
  function LoadWhen(hs: seq<Handler>, vs: seq<int>, save: Save, m: Memory, read: bool): (l: Loaded)
    requires |hs| == |vs| && Fits(hs) && save != NotSave
    ensures |l.vs| == |vs|
  {
    if read then LoadFrom(hs, vs, save, m) else Loaded(true, vs)
  }

  /** `loadParameters`: both classes, each only if the bus lets it be read. */
  method LoadParameters(store: Store, eep: Device) returns (sysSettingLoadDefault: bool, userSettingLoadDefault: bool)
    requires store.Valid() && Fits(store.handlers)
    modifies store`vals, eep
    ensures store.Valid() && eep.mem == old(eep.mem)
    ensures var t := old(eep.transfers); var u := t + eep.Taken(t, 2);
            var a := LoadWhen(store.handlers, old(store.vals), SaveSys, eep.mem, eep.Clear(t, 2));
            var b := LoadWhen(store.handlers, a.vs, SaveUse, eep.mem, eep.Clear(u, 2));
            && eep.transfers == u + eep.Taken(u, 2)
            && store.vals == b.vs && sysSettingLoadDefault == !a.ok && userSettingLoadDefault == !b.ok
  {
    hide Load, Get;
    sysSettingLoadDefault, userSettingLoadDefault := false, false;
    var size := store.GetSerialSize(SaveSys);
    var buffer, ok, loaded;
    ok, buffer := Read(eep, SYSTEM_SETTINGS, size);
    if ok {
      loaded := store.Deserialize(SaveSys, buffer);
      sysSettingLoadDefault := !loaded;
    }
    size := store.GetSerialSize(SaveUse);
    ok, buffer := Read(eep, USER_SETTINGS, size);
    if ok {
      loaded := store.Deserialize(SaveUse, buffer);
      userSettingLoadDefault := !loaded;
    }
  }

  // ---------------------------------------------------------------- save, then load

  /** The image of one class is where it was written, whatever the other class wrote since. */
  lemma ImagesStay(m: Memory, hs: seq<Handler>, vs: seq<int>, ws: seq<int>)
    requires Table(hs, vs) && Table(hs, ws) && Fits(hs)
    ensures var n := Saved(Saved(m, hs, vs, SaveSys), hs, ws, SaveUse);
            && n[0..SerialSize(hs, SaveSys)] == Image(hs, vs, SaveSys)
            && n[512..512 + SerialSize(hs, SaveUse)] == Image(hs, ws, SaveUse)
    ensures Saved(Saved(m, hs, ws, SaveUse), hs, vs, SaveSys) == Saved(Saved(m, hs, vs, SaveSys), hs, ws, SaveUse)
  {
    hide Image, Put;
    var a, b := Image(hs, vs, SaveSys), Image(hs, ws, SaveUse);
    PutIsSplice(m, 0, a);
    PutIsSplice(Put(m, 0, a), 512, b);
    PutIsSplice(m, 512, b);
    PutIsSplice(Put(m, 512, b), 0, a);
    Halves(m, a, b);
  }

  lemma Halves(m: Memory, a: seq<byte>, b: seq<byte>)
    requires |a| <= 512 && |b| <= 512
    ensures var x := m[..0] + a + m[|a|..]; var y := m[..512] + b + m[512 + |b|..];
            x[..512] + b + x[512 + |b|..] == y[..0] + a + y[|a|..] == a + m[|a|..512] + b + m[512 + |b|..]
  {}

  /** What both loads should leave of the values `ws` that were there before. */
  predicate Recovered(hs: seq<Handler>, vs: seq<int>, ws: seq<int>, after: seq<int>)
    requires |hs| == |vs| == |ws|
  {
    && |after| == |hs|
    && forall i | 0 <= i < |hs| ::
         after[i] == if hs[i].save != NotSave && hs[i].min <= vs[i] <= hs[i].max then vs[i] else ws[i]
  }

  /** Loading both classes from a memory that holds their images. */
  lemma BothLoad(m: Memory, hs: seq<Handler>, vs: seq<int>, ws: seq<int>)
    requires Table(hs, vs) && |ws| == |vs| && Fits(hs)
    requires m[0..SerialSize(hs, SaveSys)] == Image(hs, vs, SaveSys)
    requires m[512..512 + SerialSize(hs, SaveUse)] == Image(hs, vs, SaveUse)
    ensures var a := LoadFrom(hs, ws, SaveSys, m);
            a.ok && |a.vs| == |hs| && LoadFrom(hs, a.vs, SaveUse, m).ok &&
                Recovered(hs, vs, ws, LoadFrom(hs, a.vs, SaveUse, m).vs)
  {
    hide Load, Image, SerialSize;
    LoadOfImage(hs, vs, ws, SaveSys);
    LoadOfImage(hs, vs, Merged(hs, vs, ws, SaveSys), SaveUse);
  }

  /**
   * For every table whose images fit, saving both classes in either order and loading into any other values
   * brings back every saved parameter that is in its range and leaves the others alone.
   */
  lemma SavedSettingsLoad(m: Memory, hs: seq<Handler>, vs: seq<int>, ws: seq<int>)
    requires Table(hs, vs) && |ws| == |vs| && Fits(hs)
    ensures var n := Saved(Saved(m, hs, vs, SaveSys), hs, vs, SaveUse);
            && n == Saved(Saved(m, hs, vs, SaveUse), hs, vs, SaveSys)
            && LoadFrom(hs, ws, SaveSys, n).ok
            && LoadFrom(hs, LoadFrom(hs, ws, SaveSys, n).vs, SaveUse, n).ok
            && Recovered(hs, vs, ws, LoadFrom(hs, LoadFrom(hs, ws, SaveSys, n).vs, SaveUse, n).vs)
  {
    hide LoadFrom, Saved, Image, Recovered;
    ImagesStay(m, hs, vs, vs);
    BothLoad(Saved(Saved(m, hs, vs, SaveSys), hs, vs, SaveUse), hs, vs, ws);
  }

  /** The bus transfers of saving both classes and loading both. */
  function CycleTransfers(hs: seq<Handler>): nat { SavePages(hs, SaveSys) + SavePages(hs, SaveUse) + 4 }

  lemma CycleIsClear(eep: Device, t: nat, a: nat, b: nat)
    requires eep.Clear(t, a + b + 4)
    ensures eep.Clear(t, a) && eep.Taken(t, a) == a && eep.Clear(t + a, b) && eep.Taken(t + a, b) == b
    ensures var u := t + a + b; eep.Clear(u, 2) && eep.Taken(u, 2) == 2 && eep.Clear(u + 2, 2)
  {
    eep.ClearSplits(t, a, b + 4);
    eep.ClearSplits(t + a, b, 4);
    eep.ClearSplits(t + a + b, 2, 2);
    eep.ClearTakesAll(t, a);
    eep.ClearTakesAll(t + a, b);
    eep.ClearTakesAll(t + a + b, 2);
  }

  /**
   * The code over a power cycle: the values in one store are saved class by class, in either order, and the
   * device starts anew with other values. When the bus fails no transfer, both saves succeed and both loads do.
   */
  method SaveThenLoad(before: Store, started: Store, eep: Device, userFirst: bool)
      returns (saved: bool, sysSettingLoadDefault: bool, userSettingLoadDefault: bool)
    requires before.Valid() && started.Valid() && before.handlers == started.handlers && Fits(before.handlers)
    modifies started`vals, eep
    ensures eep.Clear(old(eep.transfers), CycleTransfers(before.handlers)) ==>
              && saved && !sysSettingLoadDefault && !userSettingLoadDefault
              && Recovered(before.handlers, old(before.vals), old(started.vals), started.vals)
  {
    hide LoadFrom, Saved, Image, SavePages, Recovered;
    ghost var m, t, hs, vs, ws := eep.mem, eep.transfers, before.handlers, before.vals, started.vals;
    var first, second := if userFirst then SaveUse else SaveSys, if userFirst then SaveSys else SaveUse;
    var a := SaveParameters(before, eep, first);
    var b := SaveParameters(before, eep, second);
    saved := a && b;
    ghost var clear := eep.Clear(t, CycleTransfers(hs));
    if clear {
      CycleIsClear(eep, t, SavePages(hs, first), SavePages(hs, second));
      SavedSettingsLoad(m, hs, vs, ws);
    }
    sysSettingLoadDefault, userSettingLoadDefault := LoadParameters(started, eep);
  }
}
