/** The motion-sensor settings, read once per render. */
module PirSettings {
  import opened Wrappers

  /** Whether the sensor drives relays, and which relay keys it drives. */
  datatype PirConfig = PirConfig(enabled: bool, relays: seq<string>)

  /** The stored settings, or disabled with no relays when nothing is stored. */
  function LoadPirConfig(stored: Option<PirConfig>): (c: PirConfig)
    ensures stored.None? ==> !c.enabled && c.relays == []
    ensures stored.Some? ==> c == stored.value
  {
    match stored
    case Some(s) => s
    case None => PirConfig(enabled := false, relays := [])
  }
}
