/** The value level of the Toyota climate entity: the records exchanged with
    the vehicle client, the preset <-> defrost mapping, the classification of
    remote results, the settings payload, the start-up extraction of the defrost
    flags and the poll reconciliation, with the properties each of them keeps. */
module Climate {

  datatype Option<T> = None | Some(value: T)

  /** The platform's HVAC modes. The entity offers only Off and HeatCool. */
  datatype HvacMode = Off | HeatCool | Heat | Cool | Auto | Dry | FanOnly

  const DefrostCategory: string := "defrost"
  const FrontDefrost: string := "frontDefrost"
  const RearDefrost: string := "rearDefrost"
  const CelsiusUnit: string := "C"
  const EngineStart: string := "engine-start"
  const EngineStop: string := "engine-stop"

  const PresetNone: string := "none"
  const PresetFront: string := "front_defrost"
  const PresetRear: string := "rear_defrost"
  const PresetBoth: string := "both_defrost"
  const PresetModes: seq<string> := [PresetNone, PresetFront, PresetRear, PresetBoth]

  /** Fallbacks used when the vehicle's settings do not carry a value yet. */
  const DefaultTargetTemperature: real := 21.0
  const DefaultMinTemperature: real := 18.0
  const DefaultMaxTemperature: real := 29.0
  const DefaultTemperatureStep: real := 1.0

  /** One named switch of an air-conditioning operation. */
  datatype AcParameter = AcParameter(name: string, enabled: bool)

  /** One air-conditioning operation: a category and its switches. */
  datatype AcOperation = AcOperation(categoryName: string, parameters: seq<AcParameter>)

  /** The vehicle's last known climate settings; a missing attribute is None. */
  datatype VehicleClimateSettings = VehicleClimateSettings(
    targetTemperature: Option<real>,
    minTemp: Option<real>,
    maxTemp: Option<real>,
    tempInterval: Option<real>,
    operations: seq<AcOperation>)

  /** The body sent to the settings-update endpoint. */
  datatype ClimateSettingsPayload = ClimateSettingsPayload(
    settingsOn: bool,
    temperature: real,
    temperatureUnit: string,
    acOperations: seq<AcOperation>)

  /** What a remote settings write or control command gives back: a falsy value,
      a truthy value without a `status` attribute, a value with an integer
      `status`, or an exception raised by the client. */
  datatype RemoteResult = Falsy | Truthy | Status(status: int) | Raised

  /** The payload of a detailed climate-status fetch. The current temperature
      is None when the response carries none. */
  datatype ClimateReport = ClimateReport(active: bool, currentTemperature: Option<real>)

  /** The displayed device state. */
  datatype DeviceState = DeviceState(
    hvacMode: HvacMode,
    targetTemperature: real,
    currentTemperature: Option<real>,
    frontDefrost: bool,
    rearDefrost: bool,
    climateStatus: bool)

  /** A call issued to the vehicle client. */
  datatype RemoteCall =
    | RefreshClimateStatus
    | GetClimateStatus
    | UpdateClimateSettings(settings: ClimateSettingsPayload)
    | ClimateControlCommand(command: string)

  function GetOr<T>(o: Option<T>, default: T): T
  {
    match o
    case Some(v) => v
    case None => default
  }

  /** Only HeatCool counts as the climate being commanded on. */
  predicate SettingsOn(mode: HvacMode)
  {
    mode == HeatCool
  }

  // ---------------------------------------------------------------------------
  // Presets

  /** The preset shown for a pair of defrost flags. */
  function PresetMode(front: bool, rear: bool): (name: string)
    ensures name in PresetModes
    ensures name == PresetNone <==> !front && !rear
  {
    if front && rear then PresetBoth
    else if front then PresetFront
    else if rear then PresetRear
    else PresetNone
  }

  /** The defrost flags a preset name selects; an unknown name selects none. */
  function PresetFlags(name: string): (flags: (bool, bool))
    ensures name in PresetModes ==> PresetMode(flags.0, flags.1) == name
    ensures name !in PresetModes ==> flags == (false, false)
  {
    if name == PresetBoth then (true, true)
    else if name == PresetFront then (true, false)
    else if name == PresetRear then (false, true)
    else (false, false)
  }

  /** Every pair of flags is reached by exactly the preset it is shown as. */
  lemma FlagsRoundTrip(front: bool, rear: bool)
    ensures PresetFlags(PresetMode(front, rear)) == (front, rear)
  {
  }

  // ---------------------------------------------------------------------------
  // Classification of remote results

  /** The failure test the entity applies to a returned value: falsy, or a
      `status` attribute equal to 0. */
  predicate Rejected(r: RemoteResult)
  {
    r.Falsy? || (r.Status? && r.status == 0)
  }

  /** Whether a settings send reports success: the client returned, and its
      value was not rejected. */
  predicate Succeeded(r: RemoteResult)
  {
    !r.Raised? && !Rejected(r)
  }

  /** The three outcomes are exclusive and exhaustive, and success is exactly
      a truthy value without status or a non-zero status. */
  lemma Classification(r: RemoteResult)
    ensures Succeeded(r) <==> r.Truthy? || (r.Status? && r.status != 0)
    ensures Rejected(r) <==> r == Falsy || r == Status(0)
    ensures Succeeded(r) || Rejected(r) || r.Raised?
    ensures !(Succeeded(r) && Rejected(r)) && !(Succeeded(r) && r.Raised?) && !(Rejected(r) && r.Raised?)
  {
  }

  // ---------------------------------------------------------------------------
  // Settings payload

  /** The defrost operation the entity writes for its current flags. */
  function DefrostOperation(front: bool, rear: bool): AcOperation
  {
    AcOperation(DefrostCategory, [AcParameter(FrontDefrost, front), AcParameter(RearDefrost, rear)])
  }

  /** k is the index of the first defrost operation of ops. */
  predicate IsFirstDefrost(ops: seq<AcOperation>, k: int)
  {
    0 <= k < |ops| && ops[k].categoryName == DefrostCategory &&
    forall j :: 0 <= j < k ==> ops[j].categoryName != DefrostCategory
  }

  /** ops with its first defrost operation, if any, replaced by d. */
  function ReplaceFirstDefrost(ops: seq<AcOperation>, d: AcOperation): seq<AcOperation>
  {
    if ops == [] then []
    else if ops[0].categoryName == DefrostCategory then [d] + ops[1..]
    else [ops[0]] + ReplaceFirstDefrost(ops[1..], d)
  }

  /** The replacement keeps the length and every entry but the first defrost
      operation, which becomes d. */
  lemma {:induction false} ReplaceFirstDefrostAt(ops: seq<AcOperation>, d: AcOperation, k: int)
    requires 0 <= k < |ops|
    ensures |ReplaceFirstDefrost(ops, d)| == |ops|
    ensures ReplaceFirstDefrost(ops, d)[k] == if IsFirstDefrost(ops, k) then d else ops[k]
  {
    if ops[0].categoryName != DefrostCategory {
      if k == 0 {
        ReplaceLength(ops[1..], d);
      } else {
        ReplaceFirstDefrostAt(ops[1..], d, k - 1);
        assert forall j :: 0 <= j < k - 1 ==> ops[1..][j] == ops[j + 1];
        assert IsFirstDefrost(ops, k) <==> IsFirstDefrost(ops[1..], k - 1);
      }
    } else {
      assert k > 0 ==> !IsFirstDefrost(ops, k);
    }
  }

  lemma {:induction false} ReplaceLength(ops: seq<AcOperation>, d: AcOperation)
    ensures |ReplaceFirstDefrost(ops, d)| == |ops|
  {
    if ops != [] && ops[0].categoryName != DefrostCategory {
      ReplaceLength(ops[1..], d);
    }
  }

  /** Replacing past a prefix without defrost operations leaves that prefix. */
  lemma {:induction false} ReplaceAfterPlainPrefix(ops: seq<AcOperation>, d: AcOperation, i: nat)
    requires i <= |ops|
    requires forall j :: 0 <= j < i ==> ops[j].categoryName != DefrostCategory
    ensures ReplaceFirstDefrost(ops, d) == ops[..i] + ReplaceFirstDefrost(ops[i..], d)
  {
    if i > 0 {
      ReplaceAfterPlainPrefix(ops[1..], d, i - 1);
      assert ops[1..][..i - 1] == ops[1..i];
      assert ops[1..][i - 1..] == ops[i..];
      assert ops[..i] == [ops[0]] + ops[1..i];
    }
  }

  /** The payload the entity builds from a device state and the vehicle's
      current operation list. */
  function SettingsPayload(s: DeviceState, ops: seq<AcOperation>): ClimateSettingsPayload
  {
    ClimateSettingsPayload(
      SettingsOn(s.hvacMode),
      s.targetTemperature,
      CelsiusUnit,
      ReplaceFirstDefrost(ops, DefrostOperation(s.frontDefrost, s.rearDefrost)))
  }

  // ---------------------------------------------------------------------------
  // Reading the defrost flags out of an operation list

  /** The switches of all defrost operations, in order. */
  function DefrostParameters(ops: seq<AcOperation>): seq<AcParameter>
  {
    if ops == [] then []
    else
      var last := ops[|ops| - 1];
      DefrostParameters(ops[..|ops| - 1]) +
      (if last.categoryName == DefrostCategory then last.parameters else [])
  }

  /** The value of the last switch called name, if there is one: each match
      overwrites the previous one. */
  function LastEnabled(ps: seq<AcParameter>, name: string): Option<bool>
  {
    if ps == [] then None
    else if ps[|ps| - 1].name == name then Some(ps[|ps| - 1].enabled)
    else LastEnabled(ps[..|ps| - 1], name)
  }

  /** No value is read exactly when no switch carries the name. */
  lemma {:induction false} LastEnabledNone(ps: seq<AcParameter>, name: string)
    ensures LastEnabled(ps, name).None? <==> forall k :: 0 <= k < |ps| ==> ps[k].name != name
  {
    if ps != [] {
      var init := ps[..|ps| - 1];
      LastEnabledNone(init, name);
      assert forall k :: 0 <= k < |init| ==> init[k] == ps[k];
    }
  }

  /** The value read is that of the last switch carrying the name. */
  lemma {:induction false} LastEnabledIsLast(ps: seq<AcParameter>, name: string, k: int)
    requires 0 <= k < |ps| && ps[k].name == name
    requires forall j :: k < j < |ps| ==> ps[j].name != name
    ensures LastEnabled(ps, name) == Some(ps[k].enabled)
  {
    if k < |ps| - 1 {
      var init := ps[..|ps| - 1];
      LastEnabledIsLast(init, name, k);
    }
  }

  lemma {:induction false} DefrostParametersAppend(a: seq<AcOperation>, b: seq<AcOperation>)
    ensures DefrostParameters(a + b) == DefrostParameters(a) + DefrostParameters(b)
  {
    if b != [] {
      var init := b[..|b| - 1];
      DefrostParametersAppend(a, init);
      assert (a + b)[..|a + b| - 1] == a + init;
      assert (a + b)[|a + b| - 1] == b[|b| - 1];
    } else {
      assert a + b == a;
    }
  }

  lemma {:induction false} DefrostParametersOfPlain(ops: seq<AcOperation>)
    requires forall j :: 0 <= j < |ops| ==> ops[j].categoryName != DefrostCategory
    ensures DefrostParameters(ops) == []
  {
    if ops != [] {
      DefrostParametersOfPlain(ops[..|ops| - 1]);
    }
  }

  /** Replacing the only defrost operation leaves d's switches as the only
      defrost switches. */
  lemma {:induction false} DefrostParametersOfReplaced(ops: seq<AcOperation>, d: AcOperation, k: int)
    requires 0 <= k < |ops| && ops[k].categoryName == DefrostCategory
    requires forall j :: 0 <= j < |ops| && j != k ==> ops[j].categoryName != DefrostCategory
    requires d.categoryName == DefrostCategory
    ensures DefrostParameters(ReplaceFirstDefrost(ops, d)) == d.parameters
  {
    ReplaceAfterPlainPrefix(ops, d, k);
    assert ops[k..] == [ops[k]] + ops[k + 1..];
    var after := ops[k + 1..];
    DefrostParametersAppend(ops[..k], [d] + after);
    DefrostParametersAppend([d], after);
    DefrostParametersOfPlain(ops[..k]);
    DefrostParametersOfPlain(after);
    assert [d][..0] == [];
  }

  /** When the vehicle's operations hold exactly one defrost operation, reading
      the defrost flags back out of a freshly built payload, the way the entity
      reads them at start-up, gives the flags the payload was built from. */
  lemma PayloadCarriesDefrostFlags(ops: seq<AcOperation>, front: bool, rear: bool, k: int)
    requires 0 <= k < |ops| && ops[k].categoryName == DefrostCategory
    requires forall j :: 0 <= j < |ops| && j != k ==> ops[j].categoryName != DefrostCategory
    ensures LastEnabled(DefrostParameters(ReplaceFirstDefrost(ops, DefrostOperation(front, rear))), FrontDefrost) == Some(front)
    ensures LastEnabled(DefrostParameters(ReplaceFirstDefrost(ops, DefrostOperation(front, rear))), RearDefrost) == Some(rear)
  {
    var d := DefrostOperation(front, rear);
    DefrostParametersOfReplaced(ops, d, k);
    LastEnabledIsLast(d.parameters, FrontDefrost, 0);
    LastEnabledIsLast(d.parameters, RearDefrost, 1);
  }

  /** The start-up scan: for every defrost operation and every one of its
      switches, a frontDefrost or rearDefrost switch overwrites the flag read
      so far. None means the scan never met that switch. */
  method ExtractDefrost(ops: seq<AcOperation>) returns (front: Option<bool>, rear: Option<bool>)
    ensures front == LastEnabled(DefrostParameters(ops), FrontDefrost)
    ensures rear == LastEnabled(DefrostParameters(ops), RearDefrost)
  {
    front, rear := None, None;
    for i := 0 to |ops|
      invariant front == LastEnabled(DefrostParameters(ops[..i]), FrontDefrost)
      invariant rear == LastEnabled(DefrostParameters(ops[..i]), RearDefrost)
    {
      assert ops[..i + 1][..i] == ops[..i];
      assert DefrostParameters(ops[..i + 1]) == DefrostParameters(ops[..i]) +
        (if ops[i].categoryName == DefrostCategory then ops[i].parameters else []);
      if ops[i].categoryName == DefrostCategory {
        var seen := DefrostParameters(ops[..i]);
        var ps := ops[i].parameters;
        assert seen + ps[..0] == seen;
        for j := 0 to |ps|
          invariant front == LastEnabled(seen + ps[..j], FrontDefrost)
          invariant rear == LastEnabled(seen + ps[..j], RearDefrost)
        {
          assert (seen + ps[..j + 1])[..|seen + ps[..j + 1]| - 1] == seen + ps[..j];
          if ps[j].name == FrontDefrost {
            front := Some(ps[j].enabled);
          } else if ps[j].name == RearDefrost {
            rear := Some(ps[j].enabled);
          }
        }
        assert ps[..|ps|] == ps;
      } else {
        assert DefrostParameters(ops[..i]) + [] == DefrostParameters(ops[..i]);
      }
    }
    assert ops[..|ops|] == ops;
  }

  // ---------------------------------------------------------------------------
  // Poll reconciliation

  /** The state after one poll, given whether the refresh request reported
      success and the fetched report (None when fetching it raised). */
  function Reconcile(s: DeviceState, refreshed: bool, report: Option<ClimateReport>): DeviceState
  {
    if !SettingsOn(s.hvacMode) || !refreshed || report.None? then s
    else if report.value.active then
      match report.value.currentTemperature
      case Some(t) => s.(climateStatus := true, currentTemperature := Some(t))
      // reading the missing temperature raises after the flag is set
      case None => s.(climateStatus := true)
    else if s.climateStatus then
      s.(hvacMode := Off, currentTemperature := None, climateStatus := false)
    else s
  }

  /** A poll never turns the climate on, never touches the target temperature
      or the defrost flags, and only a poll of a device that is on changes it. */
  lemma ReconcileFrame(s: DeviceState, refreshed: bool, report: Option<ClimateReport>)
    ensures var t := Reconcile(s, refreshed, report);
      (t.hvacMode == s.hvacMode || t.hvacMode == Off) &&
      t.targetTemperature == s.targetTemperature &&
      t.frontDefrost == s.frontDefrost && t.rearDefrost == s.rearDefrost &&
      (t != s ==> SettingsOn(s.hvacMode) && refreshed && report.Some?)
  {
  }

  /** A poll of an active vehicle records that it is active and, when
      reported, its current temperature. */
  lemma ReconcileActive(s: DeviceState, t: real)
    requires SettingsOn(s.hvacMode)
    ensures Reconcile(s, true, Some(ClimateReport(true, Some(t)))) ==
      s.(climateStatus := true, currentTemperature := Some(t))
  {
  }

  /** An inactive report switches the device off exactly when the last poll
      had seen the climate active; otherwise it changes nothing. */
  lemma ReconcileInactive(s: DeviceState, t: Option<real>)
    requires SettingsOn(s.hvacMode)
    ensures var r := Reconcile(s, true, Some(ClimateReport(false, t)));
      (s.climateStatus ==> r.hvacMode == Off && r.currentTemperature == None && !r.climateStatus) &&
      (!s.climateStatus ==> r == s)
  {
  }

  /** A second poll with the same answers changes nothing more. */
  lemma ReconcileIdempotent(s: DeviceState, refreshed: bool, report: Option<ClimateReport>)
    ensures var t := Reconcile(s, refreshed, report);
      Reconcile(t, refreshed, report) == t
  {
  }

  /** A temperature is shown only while the climate is seen active; each poll
      keeps that. */
  lemma ReconcileKeepsTemperatureInvariant(s: DeviceState, refreshed: bool, report: Option<ClimateReport>)
    requires s.currentTemperature.Some? ==> s.climateStatus
    ensures var t := Reconcile(s, refreshed, report);
      t.currentTemperature.Some? ==> t.climateStatus
  {
  }
}
