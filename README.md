# Toyota climate entity, modelled in Dafny

This project models the climate entity of the Toyota Connected Services
integration for Home Assistant (`ToyotaClimate`). The entity exposes a car's
HVAC as a climate device. It has two modes, Off and HeatCool, a target
temperature, and four defrost presets built from a front and a rear defrost
flag. It turns user actions into calls to the vehicle client (pytoyoda) and
turns polled vehicle status back into device state.

The model has two modules:

- `Climate` (`climate.dfy`) holds the values. It has the records exchanged
  with the vehicle client, the preset table in both directions, and the test
  that classifies a remote answer as rejected (falsy, or `status == 0`). It also
  has the settings payload, whose first `defrost` operation is replaced by the
  current flags. Then come the start-up scan that reads the defrost flags out of
  the vehicle's operation list, as a method with loops, and the poll
  reconciliation as a transition function. Lemmas state the properties of each.
- `ClimateEntity` (`climate_entity.dfy`) holds the class `ToyotaClimate`. Its
  fields are the ones the source updates in place. Its methods are the setters,
  the debouncer, turn-on, turn-off, the poll and teardown. Remote answers are
  parameters of the methods. A ghost field `calls` records every call made to
  the vehicle client, in order.
- The debounce timer is the flag `pending` plus an explicit firing step,
  `DelayedSendClimateSettings`. The ghost counters `timersScheduled` and
  `timersRetired` are tied together by `Valid()`. As a result, at most one timer
  is ever live.
- Three client methods at the end of `ClimateEntity` state the debouncer's
  promises as scenarios:
  - a burst of changes makes one write carrying the last change;
  - teardown drops a pending change;
  - turning on supersedes a pending change.

A remote answer is `Falsy`, `Truthy` (a value without a `status` attribute),
`Status(n)`, or `Raised` (the client raised an exception). An exception is
caught at the same boundary as in the source. The settings send catches its
own exception and reports failure. An exception from engine-start is caught by
the handler around the whole turn-on, so the mode is not rolled back.

The model follows climate.py as written. Two consequences:

- turning on is rolled back to Off only when the settings write succeeded and
  engine-start was then rejected. A failed settings write sends no engine-start
  and leaves HeatCool.
- turning off does not clear the shown current temperature or the cached
  active flag. A temperature is therefore shown only while that cached flag is
  set (an invariant of `Valid()`), not only while the climate is really on.

## Model

| member | source | states |
|---|---|---|
| Climate.PresetMode | custom_components/toyota/climate.py:145-154 | the preset shown is always one of the four names, and it is `none` exactly when both defrost flags are off |
| Climate.PresetFlags | custom_components/toyota/climate.py:185-200 | setting any of the four preset names and reading the preset back gives the same name; any other name selects no defrost |
| Climate.FlagsRoundTrip | custom_components/toyota/climate.py:185-200 | the preset table is a bijection: selecting the shown preset restores both flags |
| Climate.Classification | custom_components/toyota/climate.py:286 | a send fails when the answer is falsy or has status 0; it succeeds exactly for a truthy answer without status or a non-zero status; rejected, succeeded and raised are exclusive and exhaustive |
| Climate.ReplaceFirstDefrostAt | custom_components/toyota/climate.py:162-176 | the payload's operation list keeps the vehicle list's length; the first defrost operation becomes `[frontDefrost, rearDefrost]` with the current flags; every other entry is unchanged |
| Climate.PayloadCarriesDefrostFlags | custom_components/toyota/climate.py:166-176 | with exactly one defrost operation in the vehicle's list, reading the flags back out of a built payload, as done at start-up, gives the entity's flags |
| Climate.ExtractDefrost | custom_components/toyota/climate.py:96-104 | the start-up scan leaves each flag at the value of the last `frontDefrost` / `rearDefrost` switch among the defrost operations, or unset when there is none |
| Climate.LastEnabledNone | custom_components/toyota/climate.py:100-104 | the scan leaves a flag unset exactly when no defrost switch carries its name |
| Climate.LastEnabledIsLast | custom_components/toyota/climate.py:100-104 | the flag read is that of the last switch carrying its name: later switches overwrite earlier ones |
| Climate.ReconcileFrame | custom_components/toyota/climate.py:208-238 | a poll never switches the climate on and never changes the target temperature or the defrost flags; it changes anything only when the mode is HeatCool, the refresh succeeded and a status was fetched |
| Climate.ReconcileActive | custom_components/toyota/climate.py:222-228 | an active status sets the cached active flag and shows the reported temperature |
| Climate.ReconcileInactive | custom_components/toyota/climate.py:230-236 | an inactive status after an active one switches the mode to Off, clears the temperature and the cached flag; after an inactive one it changes nothing |
| Climate.ReconcileIdempotent | custom_components/toyota/climate.py:208-238 | polling again with the same answers changes nothing more |
| Climate.ReconcileKeepsTemperatureInvariant | custom_components/toyota/climate.py:222-236 | a poll keeps "a temperature is shown only while the cached active flag is set" |
| ClimateEntity.ToyotaClimate.constructor | custom_components/toyota/climate.py:84-108 | start-up takes the vehicle's target, minimum, maximum and step or the fallbacks 21/18/29/1; the mode is Off, no temperature is shown, the cached flag is off, the defrost flags are read by the start-up scan, and no timer is pending |
| ClimateEntity.ToyotaClimate.CreateClimateSettings | custom_components/toyota/climate.py:156-183 | the payload has `settingsOn` exactly when the mode is HeatCool (`SettingsOn(mode)`, the `climate_settings_on` property at climate.py:116-118), the target temperature and unit `C`, and the vehicle's operations with the first defrost operation replaced |
| ClimateEntity.ToyotaClimate.SendClimateSettings | custom_components/toyota/climate.py:270-294 | one settings write carrying the current payload; it reports success exactly when the client neither raised nor gave a rejected answer |
| ClimateEntity.ToyotaClimate.DebounceSendClimateSettings | custom_components/toyota/climate.py:243-257 | afterwards a timer is pending and the settings are marked changed; a previous timer is cancelled first, so at most one is live; no remote call is made |
| ClimateEntity.ToyotaClimate.DelayedSendClimateSettings | custom_components/toyota/climate.py:259-268 | firing clears the timer and the changed mark; it makes exactly one settings write with the current payload if the mark was set, whatever the mode, and none otherwise |
| ClimateEntity.ToyotaClimate.SetPresetMode | custom_components/toyota/climate.py:185-206 | the defrost flags follow the preset table; reading the preset afterwards gives the name set, or `none` for an unknown name; a deferred send is requested; nothing else changes |
| ClimateEntity.ToyotaClimate.SetTemperature | custom_components/toyota/climate.py:303-316 | a missing temperature changes nothing; otherwise the target becomes exactly the given value, without clamping to the minimum and maximum, and a deferred send is requested |
| ClimateEntity.ToyotaClimate.TurnOnClimate | custom_components/toyota/climate.py:326-371 | turn-on cancels the pending timer and clears the changed mark; it writes the settings with HeatCool at once and sends engine-start only if that write succeeded; the final mode is Off exactly when the write succeeded and engine-start was rejected, HeatCool otherwise |
| ClimateEntity.ToyotaClimate.TurnOffClimate | custom_components/toyota/climate.py:373-389 | turn-off sets the mode to Off whatever the vehicle answers and sends engine-stop; no other field changes |
| ClimateEntity.ToyotaClimate.SetHvacMode | custom_components/toyota/climate.py:296-301 | Off turns off (mode Off, one engine-stop call, nothing else changes); HeatCool turns on with exactly the timer retirement, settings write, conditional engine-start and final mode of `TurnOnClimate`; any other mode changes nothing and calls nothing |
| ClimateEntity.ToyotaClimate.Update | custom_components/toyota/climate.py:208-241 | the poll is gated on `SettingsOn(mode)`: with the mode not HeatCool it makes no remote call and changes nothing; otherwise it asks for a refresh and, only if that reports success, fetches the status; the new state is the poll reconciliation of the old one |
| ClimateEntity.ToyotaClimate.RemoveFromHass | custom_components/toyota/climate.py:391-396 | teardown cancels the pending timer, so no send can follow removal |
| ClimateEntity.CoalescedTemperatureBurst | custom_components/toyota/climate.py:243-268 | any number of temperature changes followed by the firing of the one live timer make exactly one settings write, carrying the last temperature |
| ClimateEntity.CancelledChangeIsDropped | custom_components/toyota/climate.py:391-396 | a change whose timer is cancelled by teardown is never written, and no timer is left |
| ClimateEntity.TurnOnSupersedesPendingChange | custom_components/toyota/climate.py:335-342 | turning on after a change writes that change at once, with HeatCool, and leaves nothing to send later |

## Left out

- Home Assistant plumbing is not modelled: `async_setup_entry`, entity registration, `should_poll`, `SCAN_INTERVAL` and `async_write_ha_state`. Publishing state has no effect on the modelled fields. The plain getters `hvac_mode`, `current_temperature`, `target_temperature`, `front_defrost` and `rear_defrost` are field reads; `preset_mode` is `PresetMode` and `climate_settings_on` is `SettingsOn`.
- `async_turn_on` and `async_turn_off` only forward to the private turn-on and turn-off. They are covered by `TurnOnClimate` and `TurnOffClimate`.
- Timer scheduling through `async_call_later` and the 5-second delay are not modelled. They are replaced by the `pending` flag and the explicit firing step. Real time and async interleaving are not modelled.
- Because interleaving is not modelled, one race is not captured. A change can arrive while a fired timer is still awaiting its write. That write then clears the changed mark, so the newer timer sends nothing.
- The vehicle client (`refresh_climate_status`, `get_climate_status`, `update_climate_settings`, `send_climate_control_command`) is foreign code. Its answers are method parameters. A raised exception is the answer `Raised`, a refresh `false`, or a report `None`.
- The pydantic models (`ACOperations`, `ACParameters`, `ClimateSettingsModel`, `ClimateControlModel`) are plain datatypes here.
- Logging is left out. The timer's send takes the settings-write answer and discards the outcome, as climate.py:267 does. The engine-stop answer is used only for logging, so `TurnOffClimate` takes none.
- Temperatures are `real`. The source does no arithmetic on them.
- The vehicle's operation list is fixed when the entity is built. The source reads `vehicle.climate_settings.operations` afresh at each send, so a coordinator refresh could change it between calls.
- ClimateEntity.ToyotaClimate.constructor: if the settings carry no `frontDefrost` or `rearDefrost` switch, the source never assigns that attribute, and reading it later would raise. The model starts such a flag at false.
- ClimateEntity.ToyotaClimate.constructor: the source raises when the vehicle has no settings record at all, because the operation list is read without a fallback. The model always takes a settings record.
