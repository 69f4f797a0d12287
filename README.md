# Relay bookkeeping of the room automation dashboard

The dashboard is a single page that shows four relays, `relay1` to
`relay4`, each kept as a record in a realtime key/value store. On every
render the page does four things. It loads the relay table and fills in a
default record for each missing relay. It loads the motion-sensor (PIR)
settings, or uses a default. Then, for each relay in turn, it applies the
toggle widget's value to the record, and applies the name field's value.

Applying a toggle works like this:
- A toggle equal to the current status changes nothing and writes nothing.
- Otherwise the status follows the toggle, and the whole record is written back.
- Switching on stamps `last_on`.
- Switching off stamps `last_off`. If there is a `last_on`, the elapsed time since it is added to `total_on_time`.

The rename replaces the name and always writes a name-only update.

This project models that bookkeeping in Dafny and proves its properties:
- `Wrappers` holds `Option`.
- `RelayState` holds the relay record, the toggle and rename updates, and lemmas about sequences of renders.
- `RelayTable` holds the slot keys, the default records and the default-fill loop.
- `PirSettings` holds the motion-sensor default.
- `Dashboard` holds the loop over the four relays and a whole-page render. It also proves that replaying the store writes a render issues, in order, over the table the render started from gives the table it ends with.

Modelling choices:
- Timestamps are whole seconds. The render's single clock reading `now` is a parameter.
- A timestamp the record never had is `None`.
- Widget values are inputs: one toggle and one name per relay.
- The store is represented only by the table that was loaded and the list of writes a render issues. A write's record is exactly the record the page holds at that moment.

## Model

| member | source | states |
|---|---|---|
| `RelayState.ApplyToggle` | app.py:93-104 | A write happens exactly when the toggle differs from the status. With no write the record is unchanged. Afterwards the status equals the toggle and the name is kept. Switching on sets `lastOn` to now and keeps `lastOff` and the total. Switching off sets `lastOff` to now and keeps `lastOn`. The total grows by `now - lastOn` when `lastOn` is present, and is unchanged when it is absent. |
| `RelayState.Renamed` | app.py:108-110 | Only the name changes, and it becomes the new name. Status, timestamps and total are kept. |
| `RelayState.ToggleNeverDecreasesTotal` | app.py:101-103 | When `lastOn` is absent or not after `now`, a toggle never lowers the total. |
| `RelayState.FutureLastOnDecreasesTotal` | app.py:101-103 | Some record with a `lastOn` later than `now` loses on-time when switched off. The code has no guard against this. |
| `RelayState.ToggleIdempotent` | app.py:94-96 | Repeating the same toggle value at any later time changes nothing more. |
| `RelayState.ToggleKeepsInvariants` | app.py:94-103 | A toggle keeps the invariant "on implies `lastOn` present". It also leaves no timestamp later than `now`. |
| `RelayState.SwitchOffCreditsOnPeriod` | app.py:99-103 | Switching off a consistent relay that is on adds exactly `now - lastOn` to the total. |
| `RelayState.OnOffCycle` | app.py:96-103 | An off relay that is switched on at `onAt` and off at `offAt` gains exactly `offAt - onAt`. It ends off, with both stamps set and its name kept. |
| `RelayState.RunNeverDecreasesTotal` | app.py:93-110 | Over any series of renders (each applying its toggle, then its name field) whose clock never runs backwards, starting with no stamp in the future, the total never shrinks. Consistency is preserved. The name ends as the last render's name field, or stays as it was when there is no render. |
| `RelayTable.RelayKeyInjective` | app.py:61-62 | Different slots get different keys. |
| `RelayTable.Loaded` | app.py:57 | Nothing stored loads as the empty table. Otherwise the stored table is used. |
| `RelayTable.Normalized` | app.py:57-70 | After default-filling, all four slot keys are present. Every loaded entry is kept as it was. Each missing slot `i` gets `{off, "Relay i", no last_on, no last_off, 0}`. No key is removed, and none beyond the four is added. |
| `RelayTable.LoadRelays` | app.py:56-70 | The default-fill loop over slots 1 to 4 produces exactly `Normalized` of the loaded table. This holds for an absent or empty stored table too. |
| `RelayTable.NormalizedIdempotent` | app.py:61-70 | Filling an already filled table changes nothing. |
| `RelayTable.NormalizedConsistent` | app.py:64-70 | Default records are off with no stamps, so filling keeps a consistent, well-stamped table that way. |
| `PirSettings.LoadPirConfig` | app.py:73 | Nothing stored gives a disabled motion sensor with no relays. Otherwise the stored settings are used. |
| `Dashboard.PassWritesPerSlot` | app.py:94-110 | The render's writes hold a whole-record write for a slot exactly when that slot's toggle differs from its status. That write carries the toggled record. There is a name update for every slot, carrying its new name. |
| `Dashboard.PassWritesKeys` | app.py:104-110 | Every write of a render goes to one of the four slot keys. |
| `Dashboard.RenderRelays` | app.py:77-110 | The table keeps its keys. Each slot ends as the renamed, toggled version of its record. Other keys are untouched. The writes are in slot order, and replaying them over the starting table gives the final table. |
| `Dashboard.QuietRender` | app.py:94 | When every toggle matches its status and every name is unchanged, no slot changes and only name updates are issued. |
| `Dashboard.RepeatRenderWritesNoRecord` | app.py:93-104 | A second render with the same toggle values issues no whole-record write, whatever its clock or names. |
| `Dashboard.RenderPage` | app.py:56-110 | A whole render loads and fills the table, takes the motion-sensor default, then renders. The final table holds the loaded keys plus the four slot keys. Each slot is rendered from its filled-in record and other loaded keys are kept. The writes are exactly the per-slot writes in slot order: a whole-record write only for a slot whose toggle differs from its status, and a name update for every slot. Replaying them over the filled table gives the final one. |

## Left out

- The store client (credentials, app initialisation, the `get`, `set`, `update` and `child` calls, app.py:9-30) is vendor code that is not part of this model. Reads are inputs and writes are returned values.
- How the store itself handles records is not modelled. In particular, an `update` of `name` on a missing child creates a record that holds only a name, and null fields are dropped on `set`. The model assumes every stored relay record has all five fields. `Dashboard.ApplyAll` therefore treats a name update on an absent key as having no effect. A malformed stored record, which the page would fail on with a missing-field error, is not representable.
- All user-interface code is out of scope: page setup, HTML and CSS, the status colour, the display boxes, the `timedelta` formatting of the total, expanders, checkbox, multiselect, button and success message (app.py:34-54, 76-92, 107, 112-123). Widget values are inputs instead. The first value a toggle widget shows, the relay's status, is not modelled separately.
- Saving the motion-sensor settings (app.py:118-123) only passes widget values to the store. The `.get` fallbacks at app.py:118-119 read widget defaults. Only the default at app.py:73 is modelled.
- Time zones and ISO-8601 strings (`pytz`, `isoformat`, `fromisoformat`; app.py:32, 58, 95, 102) are replaced by integer seconds. Python treats an empty `last_on` string as false; the model has no such string and treats only `None` as absent.
- `int(....total_seconds())` (app.py:103) truncates a fractional number of seconds. With whole-second timestamps it is a plain subtraction.
- app.py has no auto-on/auto-off timer, schedule, manual override or motion-sensor override logic. The motion-sensor settings are only loaded (line 73) and saved (lines 118-123).
- `RelayState.ToggleNeverDecreasesTotal`, `RelayState.RunNeverDecreasesTotal`: these need `lastOn` to be no later than `now`. The source does not enforce this, and `RelayState.FutureLastOnDecreasesTotal` shows what happens without it.
