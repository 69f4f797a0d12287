/**
  The relay table as a page render sees it: the map loaded from the store
  (nothing stored reads as the empty map), completed with a default record
  for each of the four relays `relay1` … `relay4` that is absent.
 */
module RelayTable {
  import opened Wrappers
  import opened RelayState

  /** The dashboard drives relays 1 to 4. */
  const RelayCount: int := 4

  predicate IsSlot(i: int)
  {
    1 <= i <= RelayCount
  }

  /** The decimal digit of a slot number. */
  function Digit(i: int): char
    requires IsSlot(i)
  {
    ('0' as int + i) as char
  }

  /** The store key of slot `i`: "relay1" … "relay4". */
  function RelayKey(i: int): string
    requires IsSlot(i)
  {
    "relay" + [Digit(i)]
  }

  /** Distinct slots have distinct keys. */
  lemma RelayKeyInjective(i: int, j: int)
    requires IsSlot(i) && IsSlot(j) && i != j
    ensures RelayKey(i) != RelayKey(j)
  {
    assert RelayKey(i)[5] == Digit(i) && RelayKey(j)[5] == Digit(j);
  }

  /** The record a missing slot `i` receives: off, named "Relay i", never switched, no on-time. */
  function DefaultRelay(i: int): Relay
    requires IsSlot(i)
  {
    Relay(status := false, name := "Relay " + [Digit(i)], lastOn := None, lastOff := None, totalOnTime := 0)
  }

  /** The default records of the slots below `n`, by key. */
  function DefaultsBelow(n: int): map<string, Relay>
    requires 1 <= n <= RelayCount + 1
    decreases n
  {
    if n == 1 then map[] else DefaultsBelow(n - 1)[RelayKey(n - 1) := DefaultRelay(n - 1)]
  }

  /** The slots below `n` are exactly the keys of `DefaultsBelow(n)`, each with its default. */
  lemma {:induction false} DefaultsBelowContents(n: int)
    requires 1 <= n <= RelayCount + 1
    ensures forall j :: 1 <= j < n ==> RelayKey(j) in DefaultsBelow(n) && DefaultsBelow(n)[RelayKey(j)] == DefaultRelay(j)
    ensures forall k :: k in DefaultsBelow(n) ==> exists j :: 1 <= j < n && k == RelayKey(j)
    decreases n
  {
    if n > 1 {
      DefaultsBelowContents(n - 1);
      var d := DefaultsBelow(n);
      assert d == DefaultsBelow(n - 1)[RelayKey(n - 1) := DefaultRelay(n - 1)];
      forall j | 1 <= j < n - 1 ensures RelayKey(j) in d && d[RelayKey(j)] == DefaultRelay(j) {
        RelayKeyInjective(j, n - 1);
      }
    }
  }

  /** The keys of all four slots. */
  function RelayKeys(): set<string>
  {
    set i | 1 <= i <= RelayCount :: RelayKey(i)
  }

  /** Every slot key is present. */
  predicate HasSlots(t: map<string, Relay>)
  {
    forall i :: 1 <= i <= RelayCount ==> RelayKey(i) in t
  }

  /** What a load yields: the stored map, or the empty map when nothing is stored. */
  function Loaded(stored: Option<map<string, Relay>>): (m: map<string, Relay>)
    ensures stored.None? ==> m == map[]
    ensures stored.Some? ==> m == stored.value
  {
    match stored
    case Some(t) => t
    case None => map[]
  }

  /**
    The loaded table completed with defaults: every slot key is present, every
    loaded entry is kept as it was, each missing slot gets its default record,
    and no key is added beyond the four slot keys.
   */
  function Normalized(m: map<string, Relay>): (r: map<string, Relay>)
    ensures HasSlots(r)
    ensures forall k :: k in m ==> k in r && r[k] == m[k]
    ensures forall i :: IsSlot(i) && RelayKey(i) !in m ==> r[RelayKey(i)] == DefaultRelay(i)
    ensures r.Keys == m.Keys + RelayKeys()
  {
    DefaultsBelowContents(RelayCount + 1);
    assert DefaultsBelow(RelayCount + 1).Keys == RelayKeys() by {
      forall k | k in RelayKeys() ensures k in DefaultsBelow(RelayCount + 1) {
        var i :| 1 <= i <= RelayCount && k == RelayKey(i);
      }
    }
    DefaultsBelow(RelayCount + 1) + m
  }

  /** Slot `i` is not among the defaults below it. */
  lemma DefaultsBelowFresh(i: int)
    requires IsSlot(i)
    ensures RelayKey(i) !in DefaultsBelow(i)
  {
    DefaultsBelowContents(i);
    if RelayKey(i) in DefaultsBelow(i) {
      var j :| 1 <= j < i && RelayKey(i) == RelayKey(j);
      RelayKeyInjective(j, i);
    }
  }

  /** Slot `i` is added exactly when the table built so far lacks its key. */
  lemma DefaultsStep(m: map<string, Relay>, i: int)
    requires IsSlot(i)
    ensures var t := DefaultsBelow(i) + m;
      DefaultsBelow(i + 1) + m == if RelayKey(i) in t then t else t[RelayKey(i) := DefaultRelay(i)]
  {
    DefaultsBelowFresh(i);
    var key, t := RelayKey(i), DefaultsBelow(i) + m;
    if key in t {
      assert key in m;
      assert DefaultsBelow(i)[key := DefaultRelay(i)] + m == t;
    }
  }

  /** The default-fill loop of a render, over the loaded map. */
  method LoadRelays(stored: Option<map<string, Relay>>) returns (relays: map<string, Relay>)
    ensures relays == Normalized(Loaded(stored))
  {
    relays := match stored case Some(t) => t case None => map[];
    assert DefaultsBelow(1) == map[];
    for i := 1 to RelayCount + 1
      invariant relays == DefaultsBelow(i) + Loaded(stored)
    {
      DefaultsStep(Loaded(stored), i);
      var key := RelayKey(i);
      if key !in relays {
        relays := relays[key := DefaultRelay(i)];
      }
    }
  }

  /** Normalising a normalised table changes nothing. */
  lemma NormalizedIdempotent(m: map<string, Relay>)
    ensures Normalized(Normalized(m)) == Normalized(m)
  {
  }

  /** A table of consistent records stays consistent when normalised: defaults are off. */
  lemma NormalizedConsistent(m: map<string, Relay>, now: int)
    requires forall k :: k in m ==> Consistent(m[k]) && StampedBy(m[k], now)
    ensures forall k :: k in Normalized(m) ==> Consistent(Normalized(m)[k]) && StampedBy(Normalized(m)[k], now)
  {
  }
}
