/**
  One render of the dashboard over the four relays: for each slot in order,
  the toggle widget's value is applied to the relay's record (written back
  as a whole record when it changed the status), then the name field's value
  replaces the relay's name (written back as a name-only update, on every
  render).

  The store is represented only by the writes a render issues, in order;
  `ApplyAll` gives their effect on a table of complete records.
 */
module Dashboard {
  import opened Wrappers
  import opened RelayState
  import opened RelayTable
  import opened PirSettings

  /** A write to the store: a whole record, or the name field of one record. */
  datatype Write = SetRecord(key: string, record: Relay) | UpdateName(key: string, name: string)

  /** The widget values of one render: one toggle and one name per slot, slot `i` at index `i - 1`. */
  predicate WidgetsFit(toggles: seq<bool>, names: seq<string>)
  {
    |toggles| == RelayCount && |names| == RelayCount
  }

  /** The effect of one write on a table of complete records. */
  function ApplyWrite(t: map<string, Relay>, w: Write): map<string, Relay>
  {
    match w
    case SetRecord(k, r) => t[k := r]
    case UpdateName(k, n) => if k in t then t[k := Renamed(t[k], n)] else t
  }

  /** The effect of a series of writes, earliest first. */
  function ApplyAll(t: map<string, Relay>, ws: seq<Write>): map<string, Relay>
    decreases |ws|
  {
    if ws == [] then t else ApplyWrite(ApplyAll(t, ws[..|ws| - 1]), ws[|ws| - 1])
  }

  /** What slot processing issues for record `r` under key `k`. */
  function SlotWrites(r: Relay, k: string, toggle: bool, name: string, now: int): seq<Write>
  {
    (if toggle != r.status then [SetRecord(k, Toggled(r, toggle, now))] else []) + [UpdateName(k, name)]
  }

  /** The writes of the slots up to `n`, in slot order. */
  function PassWrites(t: map<string, Relay>, toggles: seq<bool>, names: seq<string>, now: int, n: int): seq<Write>
    requires HasSlots(t) && WidgetsFit(toggles, names) && 0 <= n <= RelayCount
    decreases n
  {
    if n == 0 then []
    else
      PassWrites(t, toggles, names, now, n - 1)
      + SlotWrites(t[RelayKey(n)], RelayKey(n), toggles[n - 1], names[n - 1], now)
  }

  /** The record slot `i` holds after the render. */
  function RenderedSlot(t: map<string, Relay>, toggles: seq<bool>, names: seq<string>, now: int, i: int): Relay
    requires HasSlots(t) && WidgetsFit(toggles, names) && IsSlot(i)
  {
    Renamed(Toggled(t[RelayKey(i)], toggles[i - 1], now), names[i - 1])
  }

  /**
    The writes of slots up to `n` hold a whole-record write for key `k` of
    slot `i` exactly when slot `i` is among them and its toggle differs from
    its status, and a name update for it exactly when it is among them.
   */
  lemma {:induction false} PassWritesPerSlot(
    t: map<string, Relay>, toggles: seq<bool>, names: seq<string>, now: int, n: int, i: int)
    requires HasSlots(t) && WidgetsFit(toggles, names) && 0 <= n <= RelayCount && IsSlot(i)
    ensures (exists w :: w in PassWrites(t, toggles, names, now, n) && w.SetRecord? && w.key == RelayKey(i))
      <==> i <= n && toggles[i - 1] != t[RelayKey(i)].status
    ensures i <= n && toggles[i - 1] != t[RelayKey(i)].status ==>
      SetRecord(RelayKey(i), Toggled(t[RelayKey(i)], toggles[i - 1], now)) in PassWrites(t, toggles, names, now, n)
    ensures UpdateName(RelayKey(i), names[i - 1]) in PassWrites(t, toggles, names, now, n) <==> i <= n
    decreases n
  {
    if n > 0 {
      PassWritesPerSlot(t, toggles, names, now, n - 1, i);
      var ws := PassWrites(t, toggles, names, now, n - 1);
      var sw := SlotWrites(t[RelayKey(n)], RelayKey(n), toggles[n - 1], names[n - 1], now);
      assert PassWrites(t, toggles, names, now, n) == ws + sw;
      forall w | w in sw ensures w.key == RelayKey(n) { }
      if i != n {
        RelayKeyInjective(i, n);
      }
    }
  }

  /** Appending a write applies it last. */
  lemma ApplyAllSnoc(t: map<string, Relay>, ws: seq<Write>, w: Write)
    ensures ApplyAll(t, ws + [w]) == ApplyWrite(ApplyAll(t, ws), w)
  {
    assert (ws + [w])[..|ws|] == ws;
  }

  /** A whole-record write followed by a name update of the same key. */
  lemma ApplyRecordThenName(t: map<string, Relay>, ws: seq<Write>, k: string, r: Relay, name: string)
    requires k in ApplyAll(t, ws)
    ensures ApplyAll(t, ws + [SetRecord(k, r), UpdateName(k, name)]) == ApplyAll(t, ws)[k := Renamed(r, name)]
  {
    var w, u := SetRecord(k, r), UpdateName(k, name);
    assert ws + [w, u] == (ws + [w]) + [u];
    ApplyAllSnoc(t, ws, w);
    ApplyAllSnoc(t, ws + [w], u);
  }

  /** Applying the writes of one slot on top of earlier writes updates that slot's record only. */
  lemma ApplySlotWrites(t: map<string, Relay>, ws: seq<Write>, k: string, toggle: bool, name: string, now: int)
    requires k in ApplyAll(t, ws)
    ensures var cur := ApplyAll(t, ws);
      ApplyAll(t, ws + SlotWrites(cur[k], k, toggle, name, now))
        == cur[k := Renamed(Toggled(cur[k], toggle, now), name)]
  {
    var cur := ApplyAll(t, ws);
    var r := Toggled(cur[k], toggle, now);
    if toggle != cur[k].status {
      assert SlotWrites(cur[k], k, toggle, name, now) == [SetRecord(k, r), UpdateName(k, name)];
      ApplyRecordThenName(t, ws, k, r, name);
    } else {
      assert SlotWrites(cur[k], k, toggle, name, now) == [UpdateName(k, name)];
      ApplyAllSnoc(t, ws, UpdateName(k, name));
    }
  }

  /** Whether slot `j`'s record has been rendered once slots below `i` are done. */
  ghost predicate SlotDone(
    relays: map<string, Relay>, next: map<string, Relay>, toggles: seq<bool>, names: seq<string>, now: int, i: int, j: int)
    requires HasSlots(relays) && WidgetsFit(toggles, names) && IsSlot(j)
  {
    RelayKey(j) in next
    && next[RelayKey(j)] == if j < i then RenderedSlot(relays, toggles, names, now, j) else relays[RelayKey(j)]
  }

  /** Rendering slot `i` moves it from not done to done and leaves the other slots as they were. */
  lemma SlotStep(
    relays: map<string, Relay>, next: map<string, Relay>, toggles: seq<bool>, names: seq<string>, now: int, i: int)
    requires HasSlots(relays) && WidgetsFit(toggles, names) && IsSlot(i)
    requires forall j :: IsSlot(j) ==> SlotDone(relays, next, toggles, names, now, i, j)
    requires RelayKey(i) in next
    ensures var k := RelayKey(i);
      var next' := next[k := Renamed(Toggled(next[k], toggles[i - 1], now), names[i - 1])];
      forall j :: IsSlot(j) ==> SlotDone(relays, next', toggles, names, now, i + 1, j)
  {
    var k := RelayKey(i);
    var next' := next[k := Renamed(Toggled(next[k], toggles[i - 1], now), names[i - 1])];
    assert SlotDone(relays, next, toggles, names, now, i, i);
    forall j | IsSlot(j) ensures SlotDone(relays, next', toggles, names, now, i + 1, j) {
      assert SlotDone(relays, next, toggles, names, now, i, j);
      if j != i {
        RelayKeyInjective(i, j);
      }
    }
  }

  /**
    The state of a render once the slots below `i` are done: the keys are
    kept, those slots are rendered and the others are not yet, the other keys
    are untouched, the writes so far are those of the slots done, and
    replaying them gives the table so far.
   */
  ghost predicate Progress(
    relays: map<string, Relay>, toggles: seq<bool>, names: seq<string>, now: int, i: int,
    next: map<string, Relay>, writes: seq<Write>)
    requires HasSlots(relays) && WidgetsFit(toggles, names) && 1 <= i <= RelayCount + 1
  {
    && next.Keys == relays.Keys
    && (forall j :: IsSlot(j) ==> SlotDone(relays, next, toggles, names, now, i, j))
    && (forall k :: k in relays && k !in RelayKeys() ==> next[k] == relays[k])
    && writes == PassWrites(relays, toggles, names, now, i - 1)
    && ApplyAll(relays, writes) == next
  }

  /** Rendering slot `i` extends the progress of a render to slot `i + 1`. */
  lemma ProgressStep(
    relays: map<string, Relay>, toggles: seq<bool>, names: seq<string>, now: int, i: int,
    next: map<string, Relay>, writes: seq<Write>)
    requires HasSlots(relays) && WidgetsFit(toggles, names) && IsSlot(i)
    requires Progress(relays, toggles, names, now, i, next, writes)
    ensures RelayKey(i) in next && next[RelayKey(i)] == relays[RelayKey(i)]
    ensures var k := RelayKey(i);
      Progress(relays, toggles, names, now, i + 1,
        next[k := Renamed(Toggled(next[k], toggles[i - 1], now), names[i - 1])],
        writes + SlotWrites(next[k], k, toggles[i - 1], names[i - 1], now))
  {
    var k := RelayKey(i);
    assert SlotDone(relays, next, toggles, names, now, i, i);
    var next' := next[k := Renamed(Toggled(next[k], toggles[i - 1], now), names[i - 1])];
    var writes' := writes + SlotWrites(next[k], k, toggles[i - 1], names[i - 1], now);
    SlotStep(relays, next, toggles, names, now, i);
    ApplySlotWrites(relays, writes, k, toggles[i - 1], names[i - 1], now);
    assert writes' == PassWrites(relays, toggles, names, now, i);
    assert k in RelayKeys();
  }

  /**
    One render over the normalised table. Slot by slot, in order: apply the
    toggle (a whole-record write when it changes the status), then the name
    (a name-only write, always). Keys other than the four slots are left alone.
    Replaying the writes over the table the render started from yields the
    table it ends with.
   */
  method RenderRelays(relays: map<string, Relay>, toggles: seq<bool>, names: seq<string>, now: int)
    returns (next: map<string, Relay>, writes: seq<Write>)
    requires HasSlots(relays) && WidgetsFit(toggles, names)
    ensures next.Keys == relays.Keys
    ensures forall i :: IsSlot(i) ==> next[RelayKey(i)] == RenderedSlot(relays, toggles, names, now, i)
    ensures forall k :: k in relays && k !in RelayKeys() ==> next[k] == relays[k]
    ensures writes == PassWrites(relays, toggles, names, now, RelayCount)
    ensures ApplyAll(relays, writes) == next
  {
    next, writes := relays, [];
    for i := 1 to RelayCount + 1
      invariant Progress(relays, toggles, names, now, i, next, writes)
    {
      var key := RelayKey(i);
      ProgressStep(relays, toggles, names, now, i, next, writes);
      ghost var slotWrites := SlotWrites(next[key], key, toggles[i - 1], names[i - 1], now);
      ghost var earlier := writes;
      var toggled, written := ApplyToggle(next[key], toggles[i - 1], now);
      if written {
        writes := writes + [SetRecord(key, toggled)];
      }
      next := next[key := Renamed(toggled, names[i - 1])];
      writes := writes + [UpdateName(key, names[i - 1])];
      assert writes == earlier + slotWrites;
    }
    forall i | IsSlot(i) ensures next[RelayKey(i)] == RenderedSlot(relays, toggles, names, now, i) {
      assert SlotDone(relays, next, toggles, names, now, RelayCount + 1, i);
    }
  }

  /**
    A render whose toggles all match the current statuses and whose names are
    the current names leaves the table as it was and issues only name updates.
   */
  lemma {:induction false} QuietRender(t: map<string, Relay>, toggles: seq<bool>, names: seq<string>, now: int, n: int)
    requires HasSlots(t) && WidgetsFit(toggles, names) && 0 <= n <= RelayCount
    requires forall i :: IsSlot(i) ==> toggles[i - 1] == t[RelayKey(i)].status && names[i - 1] == t[RelayKey(i)].name
    ensures forall w :: w in PassWrites(t, toggles, names, now, n) ==> w.UpdateName?
    ensures forall i :: IsSlot(i) ==> RenderedSlot(t, toggles, names, now, i) == t[RelayKey(i)]
    decreases n
  {
    if n > 0 {
      QuietRender(t, toggles, names, now, n - 1);
    }
  }

  /**
    After a render, a further render with the same toggle values issues no
    whole-record write, whatever its clock and names: every status already
    equals its toggle.
   */
  lemma RepeatRenderWritesNoRecord(
    t: map<string, Relay>, t': map<string, Relay>, toggles: seq<bool>, names: seq<string>, names': seq<string>,
    now: int, later: int)
    requires HasSlots(t) && HasSlots(t') && WidgetsFit(toggles, names) && WidgetsFit(toggles, names')
    requires forall i :: IsSlot(i) ==> t'[RelayKey(i)] == RenderedSlot(t, toggles, names, now, i)
    ensures forall w :: w in PassWrites(t', toggles, names', later, RelayCount) ==> w.UpdateName?
  {
    var ws := PassWrites(t', toggles, names', later, RelayCount);
    forall w | w in ws ensures w.UpdateName? {
      if w.SetRecord? {
        var i :| IsSlot(i) && w.key == RelayKey(i) by {
          PassWritesKeys(t', toggles, names', later, RelayCount, w);
        }
        PassWritesPerSlot(t', toggles, names', later, RelayCount, i);
        assert false;
      }
    }
  }

  /** Every write of a render is addressed to one of the four slot keys. */
  lemma {:induction false} PassWritesKeys(
    t: map<string, Relay>, toggles: seq<bool>, names: seq<string>, now: int, n: int, w: Write)
    requires HasSlots(t) && WidgetsFit(toggles, names) && 0 <= n <= RelayCount
    requires w in PassWrites(t, toggles, names, now, n)
    ensures exists i :: 1 <= i <= n && w.key == RelayKey(i)
    decreases n
  {
    if n > 0 {
      if w in PassWrites(t, toggles, names, now, n - 1) {
        PassWritesKeys(t, toggles, names, now, n - 1, w);
      } else {
        assert w.key == RelayKey(n);
      }
    }
  }

  /**
    A whole render of the page: load the relay table, fill in the missing
    slots, load the motion-sensor settings, then render the four slots.
    The writes are exactly those of the four slots in order, and replaying
    them over the filled-in table yields the final table.
   */
  method RenderPage(
    stored: Option<map<string, Relay>>, storedPir: Option<PirConfig>,
    toggles: seq<bool>, names: seq<string>, now: int)
    returns (relays: map<string, Relay>, pir: PirConfig, writes: seq<Write>)
    requires WidgetsFit(toggles, names)
    ensures pir == LoadPirConfig(storedPir)
    ensures relays.Keys == Loaded(stored).Keys + RelayKeys()
    ensures forall i :: IsSlot(i) ==> relays[RelayKey(i)] == RenderedSlot(Normalized(Loaded(stored)), toggles, names, now, i)
    ensures forall k :: k in Loaded(stored) && k !in RelayKeys() ==> relays[k] == Loaded(stored)[k]
    ensures writes == PassWrites(Normalized(Loaded(stored)), toggles, names, now, RelayCount)
    ensures ApplyAll(Normalized(Loaded(stored)), writes) == relays
  {
    var loaded := LoadRelays(stored);
    pir := LoadPirConfig(storedPir);
    relays, writes := RenderRelays(loaded, toggles, names, now);
  }
}
