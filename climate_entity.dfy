/** The climate entity of one vehicle: its displayed state, the debounced
    settings send and the optimistic turn-on/turn-off with their remote calls.
    Remote answers are parameters; the ghost field `calls` records, in order,
    every call the entity issues to the vehicle client. */
module ClimateEntity {
  import opened Climate

  class ToyotaClimate {
    var hvacMode: HvacMode
    var targetTemperature: real
    const minTemp: real
    const maxTemp: real
    const targetTemperatureStep: real
    var currentTemperature: Option<real>
    var frontDefrost: bool
    var rearDefrost: bool
    /** The cached "vehicle reported climate active" flag of the last poll. */
    var climateStatus: bool

    /** The vehicle's operation list every payload starts from. */
    const vehicleOperations: seq<AcOperation>

    /** A deferred settings send is scheduled (its cancel handle is held). */
    var pending: bool
    /** A setting changed since the last deferred send. */
    var settingsChanged: bool

    ghost var timersScheduled: nat
    ghost var timersRetired: nat
    ghost var calls: seq<RemoteCall>

    /** The entity shows only the modes it offers, shows a temperature only
        while the climate is seen active, and every timer but the pending one
        has been cancelled or has fired: at most one timer is ever live. */
    ghost predicate Valid()
      reads this
    {
      (hvacMode == Off || hvacMode == HeatCool) &&
      (currentTemperature.Some? ==> climateStatus) &&
      timersScheduled == timersRetired + (if pending then 1 else 0)
    }

    function State(): DeviceState
      reads this
    {
      DeviceState(hvacMode, targetTemperature, currentTemperature, frontDefrost, rearDefrost, climateStatus)
    }

    /** The payload a settings send carries in the current state. */
    function Payload(): ClimateSettingsPayload
      reads this
    {
      SettingsPayload(State(), vehicleOperations)
    }

    /** Start-up from the vehicle's last known settings, with the fallback
        values for the ones it does not carry yet. */
    constructor (settings: VehicleClimateSettings)
      ensures Valid()
      ensures targetTemperature == GetOr(settings.targetTemperature, DefaultTargetTemperature)
      ensures minTemp == GetOr(settings.minTemp, DefaultMinTemperature)
      ensures maxTemp == GetOr(settings.maxTemp, DefaultMaxTemperature)
      ensures targetTemperatureStep == GetOr(settings.tempInterval, DefaultTemperatureStep)
      ensures hvacMode == Off && currentTemperature == None && !climateStatus
      ensures frontDefrost == GetOr(LastEnabled(DefrostParameters(settings.operations), FrontDefrost), false)
      ensures rearDefrost == GetOr(LastEnabled(DefrostParameters(settings.operations), RearDefrost), false)
      ensures vehicleOperations == settings.operations
      ensures !pending && !settingsChanged
      ensures timersScheduled == 0 && timersRetired == 0 && calls == []
    {
      targetTemperature := GetOr(settings.targetTemperature, DefaultTargetTemperature);
      minTemp := GetOr(settings.minTemp, DefaultMinTemperature);
      maxTemp := GetOr(settings.maxTemp, DefaultMaxTemperature);
      targetTemperatureStep := GetOr(settings.tempInterval, DefaultTemperatureStep);
      hvacMode := Off;
      currentTemperature := None;
      climateStatus := false;
      var front, rear := ExtractDefrost(settings.operations);
      frontDefrost := GetOr(front, false);
      rearDefrost := GetOr(rear, false);
      vehicleOperations := settings.operations;
      pending, settingsChanged := false, false;
      timersScheduled, timersRetired, calls := 0, 0, [];
    }

    /** Builds the settings payload: a copy of the vehicle's operations whose
        first defrost operation is replaced by the current defrost flags. */
    method CreateClimateSettings() returns (p: ClimateSettingsPayload)
      ensures p == Payload()
    {
      var d := DefrostOperation(frontDefrost, rearDefrost);
      var ops := vehicleOperations;
      var i := 0;
      while i < |ops|
        invariant 0 <= i <= |ops|
        invariant ops == vehicleOperations
        invariant forall j :: 0 <= j < i ==> ops[j].categoryName != DefrostCategory
      {
        if ops[i].categoryName == DefrostCategory {
          ReplaceAfterPlainPrefix(ops, d, i);
          assert ops[i..] == [ops[i]] + ops[i + 1..];
          ops := ops[i := d];
          assert ops == vehicleOperations[..i] + [d] + vehicleOperations[i + 1..];
          break;
        }
        i := i + 1;
      }
      if i == |vehicleOperations| {
        ReplaceAfterPlainPrefix(ops, d, i);
        assert ops[..i] == ops;
      }
      p := ClimateSettingsPayload(SettingsOn(hvacMode), targetTemperature, CelsiusUnit, ops);
    }

    /** One settings write; `result` is what the client answers. The send
        reports success unless the client raised or its answer is rejected. */
    method SendClimateSettings(result: RemoteResult) returns (ok: bool)
      requires Valid()
      modifies this`calls
      ensures Valid()
      ensures calls == old(calls) + [UpdateClimateSettings(Payload())]
      ensures ok == Succeeded(result)
    {
      var settings := CreateClimateSettings();
      calls := calls + [UpdateClimateSettings(settings)];
      ok := Succeeded(result);
    }

    /** Requests a deferred send: cancels the pending timer, if any, marks the
        settings changed and schedules a new timer. No remote call is made. */
    method DebounceSendClimateSettings()
      requires Valid()
      modifies this`pending, this`settingsChanged, this`timersScheduled, this`timersRetired
      ensures Valid()
      ensures pending && settingsChanged
      ensures timersScheduled == old(timersScheduled) + 1
      ensures timersRetired == old(timersRetired) + (if old(pending) then 1 else 0)
    {
      if pending {
        pending := false;
        timersRetired := timersRetired + 1;
      }
      settingsChanged := true;
      pending := true;
      timersScheduled := timersScheduled + 1;
    }

    /** The pending timer fires: it is gone, and the settings are written once
        if they changed since the last write, whatever the mode. A cancelled
        timer never fires, hence the precondition. */
    method DelayedSendClimateSettings(settingsResult: RemoteResult)
      requires Valid() && pending
      modifies this`pending, this`settingsChanged, this`timersRetired, this`calls
      ensures Valid()
      ensures !pending && !settingsChanged
      ensures timersRetired == old(timersRetired) + 1
      ensures calls == old(calls) + (if old(settingsChanged) then [UpdateClimateSettings(Payload())] else [])
    {
      pending := false;
      timersRetired := timersRetired + 1;
      if settingsChanged {
        var _ := SendClimateSettings(settingsResult);
        settingsChanged := false;
      }
    }

    /** Selects a preset: the two defrost flags follow the preset table, an
        unknown name clearing both, and a deferred send is requested. */
    method SetPresetMode(presetMode: string)
      requires Valid()
      modifies this`frontDefrost, this`rearDefrost, this`pending, this`settingsChanged,
               this`timersScheduled, this`timersRetired
      ensures Valid()
      ensures (frontDefrost, rearDefrost) == PresetFlags(presetMode)
      ensures PresetMode(frontDefrost, rearDefrost) == if presetMode in PresetModes then presetMode else PresetNone
      ensures pending && settingsChanged
      ensures timersScheduled == old(timersScheduled) + 1
      ensures timersRetired == old(timersRetired) + (if old(pending) then 1 else 0)
    {
      if presetMode == PresetBoth {
        frontDefrost, rearDefrost := true, true;
      } else if presetMode == PresetFront {
        frontDefrost, rearDefrost := true, false;
      } else if presetMode == PresetRear {
        frontDefrost, rearDefrost := false, true;
      } else {
        frontDefrost, rearDefrost := false, false;
      }
      DebounceSendClimateSettings();
    }

    /** Sets the target temperature to exactly the given value, without
        clamping it to [minTemp, maxTemp], and requests a deferred send; a
        missing temperature changes nothing. */
    method SetTemperature(temperature: Option<real>)
      requires Valid()
      modifies this`targetTemperature, this`pending, this`settingsChanged,
               this`timersScheduled, this`timersRetired
      ensures Valid()
      ensures temperature.None? ==>
        targetTemperature == old(targetTemperature) &&
        pending == old(pending) && settingsChanged == old(settingsChanged) &&
        timersScheduled == old(timersScheduled) && timersRetired == old(timersRetired)
      ensures temperature.Some? ==>
        targetTemperature == temperature.value && pending && settingsChanged &&
        timersScheduled == old(timersScheduled) + 1 &&
        timersRetired == old(timersRetired) + (if old(pending) then 1 else 0)
    {
      if temperature.None? {
        return;
      }
      targetTemperature := temperature.value;
      DebounceSendClimateSettings();
    }

    /** Turns the climate on optimistically: cancels the pending send, writes
        the settings at once and, only if that write succeeded, sends
        engine-start. Only a rejected engine-start is rolled back to Off; a
        failed settings write or a raised engine-start leaves HeatCool. */
    method TurnOnClimate(settingsResult: RemoteResult, startResult: RemoteResult)
      requires Valid()
      modifies this`hvacMode, this`pending, this`settingsChanged, this`timersRetired, this`calls
      ensures Valid()
      ensures !pending && !settingsChanged
      ensures timersRetired == old(timersRetired) + (if old(pending) then 1 else 0)
      ensures hvacMode == if Succeeded(settingsResult) && Rejected(startResult) then Off else HeatCool
      ensures calls == old(calls) +
        [UpdateClimateSettings(SettingsPayload(old(State()).(hvacMode := HeatCool), vehicleOperations))] +
        (if Succeeded(settingsResult) then [ClimateControlCommand(EngineStart)] else [])
    {
      hvacMode := HeatCool;
      if pending {
        pending := false;
        timersRetired := timersRetired + 1;
      }
      settingsChanged := false;
      var sent := SendClimateSettings(settingsResult);
      if sent {
        calls := calls + [ClimateControlCommand(EngineStart)];
        // a raised engine-start is caught by the operation's handler: no rollback
        if Rejected(startResult) {
          hvacMode := Off;
        }
      }
    }

    /** Turns the climate off optimistically and sends engine-stop; the mode
        stays Off whatever the vehicle answers. */
    method TurnOffClimate()
      requires Valid()
      modifies this`hvacMode, this`calls
      ensures Valid()
      ensures hvacMode == Off
      ensures calls == old(calls) + [ClimateControlCommand(EngineStop)]
    {
      hvacMode := Off;
      calls := calls + [ClimateControlCommand(EngineStop)];
    }

    /** Dispatches a requested mode; modes the entity does not offer are
        ignored. */
    method SetHvacMode(mode: HvacMode, settingsResult: RemoteResult, startResult: RemoteResult)
      requires Valid()
      modifies this`hvacMode, this`pending, this`settingsChanged, this`timersRetired, this`calls
      ensures Valid()
      ensures mode == Off ==>
        hvacMode == Off && calls == old(calls) + [ClimateControlCommand(EngineStop)] &&
        pending == old(pending) && settingsChanged == old(settingsChanged) &&
        timersRetired == old(timersRetired)
      ensures mode == HeatCool ==>
        !pending && !settingsChanged &&
        timersRetired == old(timersRetired) + (if old(pending) then 1 else 0) &&
        hvacMode == (if Succeeded(settingsResult) && Rejected(startResult) then Off else HeatCool) &&
        calls == old(calls) +
          [UpdateClimateSettings(SettingsPayload(old(State()).(hvacMode := HeatCool), vehicleOperations))] +
          (if Succeeded(settingsResult) then [ClimateControlCommand(EngineStart)] else [])
      ensures mode != Off && mode != HeatCool ==>
        hvacMode == old(hvacMode) && calls == old(calls) &&
        pending == old(pending) && settingsChanged == old(settingsChanged) &&
        timersRetired == old(timersRetired)
    {
      if mode == Off {
        TurnOffClimate();
      } else if mode == HeatCool {
        TurnOnClimate(settingsResult, startResult);
      }
    }

    /** The periodic poll. Off: no call at all. On: ask for a refresh and, if
        it reports success, fetch the status (report None: the fetch raised)
        and reconcile the displayed state with it. */
    method Update(refreshed: bool, report: Option<ClimateReport>)
      requires Valid()
      modifies this`hvacMode, this`currentTemperature, this`climateStatus, this`calls
      ensures Valid()
      ensures State() == Reconcile(old(State()), refreshed, report)
      ensures calls == old(calls) +
        if SettingsOn(old(hvacMode))
        then [RefreshClimateStatus] + (if refreshed then [GetClimateStatus] else [])
        else []
    {
      if !SettingsOn(hvacMode) {
        return;
      }
      calls := calls + [RefreshClimateStatus];
      if refreshed {
        calls := calls + [GetClimateStatus];
        if report.Some? {
          var status := report.value;
          if status.active {
            climateStatus := true;
            if status.currentTemperature.Some? {
              currentTemperature := status.currentTemperature;
            }
          } else if climateStatus {
            hvacMode := Off;
            currentTemperature := None;
            climateStatus := false;
          }
        }
      }
    }

    /** Teardown: cancels the pending timer so that no send follows removal. */
    method RemoveFromHass()
      requires Valid()
      modifies this`pending, this`timersRetired
      ensures Valid()
      ensures !pending
      ensures timersRetired == old(timersRetired) + (if old(pending) then 1 else 0)
    {
      if pending {
        pending := false;
        timersRetired := timersRetired + 1;
      }
    }
  }

  /** Several temperature changes followed by the one timer that is left make
      exactly one settings write, carrying the last temperature. */
  method CoalescedTemperatureBurst(e: ToyotaClimate, temps: seq<real>, settingsResult: RemoteResult)
    requires e.Valid() && |temps| > 0
    modifies e
    ensures e.Valid() && !e.pending && !e.settingsChanged
    ensures e.State() == old(e.State()).(targetTemperature := temps[|temps| - 1])
    ensures e.calls == old(e.calls) +
      [UpdateClimateSettings(SettingsPayload(old(e.State()).(targetTemperature := temps[|temps| - 1]), e.vehicleOperations))]
  {
    for i := 0 to |temps|
      invariant e.Valid()
      invariant e.calls == old(e.calls)
      invariant i > 0 ==> e.pending && e.settingsChanged && e.targetTemperature == temps[i - 1]
      invariant e.State() == old(e.State()).(targetTemperature := e.targetTemperature)
    {
      e.SetTemperature(Some(temps[i]));
    }
    e.DelayedSendClimateSettings(settingsResult);
  }

  /** A change whose timer is cancelled by teardown is never written, and no
      timer is left to fire. */
  method CancelledChangeIsDropped(e: ToyotaClimate, t: real)
    requires e.Valid()
    modifies e
    ensures e.Valid() && !e.pending
    ensures e.calls == old(e.calls)
  {
    e.SetTemperature(Some(t));
    e.RemoveFromHass();
  }

  /** Turning on after a change supersedes its timer: the immediate write
      carries the change, and nothing is left to send later. */
  method TurnOnSupersedesPendingChange(e: ToyotaClimate, t: real, settingsResult: RemoteResult, startResult: RemoteResult)
    requires e.Valid()
    modifies e
    ensures e.Valid() && !e.pending && !e.settingsChanged
    ensures e.calls == old(e.calls) +
      [UpdateClimateSettings(SettingsPayload(old(e.State()).(hvacMode := HeatCool, targetTemperature := t), e.vehicleOperations))] +
      (if Succeeded(settingsResult) then [ClimateControlCommand(EngineStart)] else [])
  {
    e.SetTemperature(Some(t));
    e.TurnOnClimate(settingsResult, startResult);
  }
}
