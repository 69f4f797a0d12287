/**
  The record the dashboard keeps for one relay, and the two updates a page
  render applies to it: the on/off toggle, which stamps the switch time and
  accumulates the on-time, and the rename.

  Timestamps are whole seconds; `None` stands for a timestamp that was never
  written.
 */
module RelayState {
  import opened Wrappers

  /** One entry of the relay table. `totalOnTime` is in seconds. */
  datatype Relay = Relay(
    status: bool,
    name: string,
    lastOn: Option<int>,
    lastOff: Option<int>,
    totalOnTime: int)

  /** The seconds a switch-off at `now` credits to the running total. */
  function Credit(r: Relay, now: int): int
  {
    match r.lastOn
    case Some(on) => now - on
    case None => 0
  }

  /**
    The record after the toggle widget reports `toggle` at time `now`, stated
    field by field: a toggle equal to the current status leaves the record as
    it is; otherwise the status follows the toggle, switching on stamps
    `lastOn`, and switching off stamps `lastOff` and credits the on-time.
   */
  function Toggled(r: Relay, toggle: bool, now: int): Relay
  {
    if toggle == r.status then r
    else Relay(
      status := toggle,
      name := r.name,
      lastOn := if toggle then Some(now) else r.lastOn,
      lastOff := if toggle then r.lastOff else Some(now),
      totalOnTime := if toggle then r.totalOnTime else r.totalOnTime + Credit(r, now))
  }

  /**
    The toggle branch of a render, step by step on a copy of the record.
    Returns the new record and whether it is written back to the store.
   */
  method ApplyToggle(relay: Relay, toggle: bool, now: int) returns (next: Relay, written: bool)
    ensures written <==> toggle != relay.status
    ensures !written ==> next == relay
    ensures next.status == toggle && next.name == relay.name
    ensures written && toggle ==>
      next.lastOn == Some(now) && next.lastOff == relay.lastOff && next.totalOnTime == relay.totalOnTime
    ensures written && !toggle ==>
      next.lastOff == Some(now) && next.lastOn == relay.lastOn
    ensures written && !toggle && relay.lastOn.Some? ==>
      next.totalOnTime == relay.totalOnTime + (now - relay.lastOn.value)
    ensures written && !toggle && relay.lastOn.None? ==>
      next.totalOnTime == relay.totalOnTime
    ensures next == Toggled(relay, toggle, now)
  {
    next, written := relay, false;
    if toggle != next.status {
      next := next.(status := toggle);
      if toggle {
        next := next.(lastOn := Some(now));
      } else {
        next := next.(lastOff := Some(now));
        if next.lastOn.Some? {
          next := next.(totalOnTime := next.totalOnTime + (now - next.lastOn.value));
        }
      }
      written := true;
    }
  }

  /** The record after the name field of the options panel reports `newName`. */
  function Renamed(r: Relay, newName: string): (r': Relay)
    ensures r'.name == newName
    ensures r'.status == r.status && r'.lastOn == r.lastOn && r'.lastOff == r.lastOff
    ensures r'.totalOnTime == r.totalOnTime
  {
    r.(name := newName)
  }

  /** No timestamp of the record lies after `now`. */
  predicate StampedBy(r: Relay, now: int)
  {
    (r.lastOn.None? || r.lastOn.value <= now) && (r.lastOff.None? || r.lastOff.value <= now)
  }

  /** A relay that is on knows when it was switched on. */
  predicate Consistent(r: Relay)
  {
    r.status ==> r.lastOn.Some?
  }

  /** A toggle never lowers the running total when `lastOn` is not in the future. */
  lemma ToggleNeverDecreasesTotal(r: Relay, toggle: bool, now: int)
    requires r.lastOn.None? || r.lastOn.value <= now
    ensures Toggled(r, toggle, now).totalOnTime >= r.totalOnTime
  {
  }

  /**
    Without that precondition the total can shrink: the page does not check
    that `lastOn` precedes `now`.
   */
  lemma FutureLastOnDecreasesTotal()
    ensures exists r: Relay, now: int :: r.status && Toggled(r, false, now).totalOnTime < r.totalOnTime
  {
    var r := Relay(true, "Relay 1", Some(100), None, 0);
    assert Toggled(r, false, 40).totalOnTime == -60;
  }

  /** Repeating a toggle value changes nothing, whatever the later time. */
  lemma ToggleIdempotent(r: Relay, toggle: bool, now: int, later: int)
    ensures Toggled(Toggled(r, toggle, now), toggle, later) == Toggled(r, toggle, now)
  {
  }

  /** A toggle keeps a consistent record consistent and stamps it by `now`. */
  lemma ToggleKeepsInvariants(r: Relay, toggle: bool, now: int)
    requires Consistent(r) && StampedBy(r, now)
    ensures Consistent(Toggled(r, toggle, now)) && StampedBy(Toggled(r, toggle, now), now)
  {
  }

  /** Switching off a consistent relay that is on credits exactly the time since `lastOn`. */
  lemma SwitchOffCreditsOnPeriod(r: Relay, now: int)
    requires Consistent(r) && r.status
    ensures Toggled(r, false, now).totalOnTime == r.totalOnTime + (now - r.lastOn.value)
  {
  }

  /** An on/off cycle of a relay that is off adds the length of the cycle to the total. */
  lemma OnOffCycle(r: Relay, onAt: int, offAt: int)
    requires !r.status
    ensures var r' := Toggled(Toggled(r, true, onAt), false, offAt);
      && r'.totalOnTime == r.totalOnTime + (offAt - onAt)
      && r'.lastOn == Some(onAt) && r'.lastOff == Some(offAt) && !r'.status && r'.name == r.name
  {
  }

  /** One page render as seen by one relay: the toggle value, the name field's value and the render's clock. */
  datatype Visit = Visit(toggle: bool, name: string, now: int)

  /** The record after a series of renders, earliest first: each applies its toggle, then its name. */
  function Run(r: Relay, visits: seq<Visit>): Relay
    decreases |visits|
  {
    if visits == [] then r
    else Run(Renamed(Toggled(r, visits[0].toggle, visits[0].now), visits[0].name), visits[1..])
  }

  /** The render clocks never go backwards and none precedes `since`. */
  predicate Chronological(visits: seq<Visit>, since: int)
  {
    (forall i :: 0 <= i < |visits| ==> since <= visits[i].now)
    && (forall i, j :: 0 <= i <= j < |visits| ==> visits[i].now <= visits[j].now)
  }

  /**
    Over renders whose clock never goes backwards, starting from a record
    stamped no later than the first render, the running total never shrinks,
    the record stays consistent if it started so, and the name is the one the
    last render's name field gave (the starting name when there is no render).
   */
  lemma {:induction false} RunNeverDecreasesTotal(r: Relay, visits: seq<Visit>, since: int)
    requires StampedBy(r, since) && Chronological(visits, since)
    ensures Run(r, visits).totalOnTime >= r.totalOnTime
    ensures Consistent(r) ==> Consistent(Run(r, visits))
    ensures Run(r, visits).name == if visits == [] then r.name else visits[|visits| - 1].name
    decreases |visits|
  {
    if visits != [] {
      var v := visits[0];
      var r' := Renamed(Toggled(r, v.toggle, v.now), v.name);
      assert StampedBy(r', v.now);
      assert Chronological(visits[1..], v.now) by {
        forall i | 0 <= i < |visits[1..]| ensures v.now <= visits[1..][i].now {
          assert visits[1..][i] == visits[i + 1];
        }
        forall i, j | 0 <= i <= j < |visits[1..]| ensures visits[1..][i].now <= visits[1..][j].now {
          assert visits[1..][i] == visits[i + 1] && visits[1..][j] == visits[j + 1];
        }
      }
      RunNeverDecreasesTotal(r', visits[1..], v.now);
      if visits[1..] != [] {
        assert visits[1..][|visits[1..]| - 1] == visits[|visits| - 1];
      }
    }
  }
}
