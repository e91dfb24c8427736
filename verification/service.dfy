/** dbus-mqtt-battery.py: how one update turns the aggregate into the limits and permissions on the bus. */
module Service {
  import opened Prelude
  import opened Dvcc
  import opened DvccController
  import opened MqttClient
  import opened Sessions

  datatype TelemetryState = Initializing | Stale | Protection | Degraded | Ready

  /** The published paths that control charging and discharging. */
  datatype Bus = Bus(
    connected: bool, ccl: real, dcl: real, cvl: Option<real>,
    allowCharge: bool, allowDischarge: bool, state: TelemetryState)

  datatype Publisher = Publisher(hasReady: bool, previous: Option<(real, real)>, control: Control, bus: Bus)

  const SILENT: Bus := Bus(false, 0.0, 0.0, None, false, false, Initializing)

  function InitialPublisher(setup: Setup, now: real): Publisher {
    Publisher(false, None, InitialControl(setup, now), SILENT)
  }

  function InputsOf(data: Aggregate): Inputs {
    Inputs(data.maxCell, data.minCell, Some(data.maxTemp), Some(data.minTemp), Some(data.soc), data.allowCharge,
        data.allowDischarge)
  }

  /** Nothing may be charged or discharged; the controller's own limits are left as they are. */
  function Unavailable(p: Publisher): Publisher {
    p.(previous := if p.hasReady then Some((0.0, 0.0)) else p.previous,
       bus := p.bus.(connected := false, ccl := 0.0, dcl := 0.0, allowCharge := false, allowDischarge := false,
                     state := if p.hasReady then Stale else Initializing))
  }

  /** While frames are partial, a limit does not exceed the one published before. */
  function HeldBack(limit: real, partial: bool, previous: Option<real>): real {
    if partial && previous.Some? then Least(limit, previous.value) else limit
  }

  function StateFor(ccl: real, dcl: real, partial: bool): TelemetryState {
    if ccl == 0.0 || dcl == 0.0 then Protection else if partial then Degraded else Ready
  }

  function PreviousCcl(p: Publisher): Option<real> {
    if p.previous.Some? then Some(p.previous.value.0) else None
  }

  function PreviousDcl(p: Publisher): Option<real> {
    if p.previous.Some? then Some(p.previous.value.1) else None
  }

  /** A complete aggregate is published; the controller goes on from what was published. */
  function Published(setup: Setup, p: Publisher, data: Aggregate, now: real): Publisher
    requires setup.curve.Valid()
  {
    var limits := LimitsOf(setup, Ramped(setup, p.control, InputsOf(data), now));
    var ccl := HeldBack(limits.ccl, data.partial, PreviousCcl(p));
    var dcl := HeldBack(limits.dcl, data.partial, PreviousDcl(p));
    Publisher(true, Some((ccl, dcl)), Control(ccl, dcl, now),
              Bus(true, ccl, dcl, Some(limits.cvl), data.allowCharge && ccl != 0.0, data.allowDischarge && dcl != 0.0,
                  StateFor(ccl, dcl, data.partial)))
  }

  /** One update, which may fail on the way: a failure ends like missing data, with whatever state it left. */
  function Updated(setup: Setup, p: Publisher, data: Option<Aggregate>, now: real, fault: Fault): Publisher
    requires setup.curve.Valid()
  {
    if fault.WhileReading? || data.None? || !data.value.dataComplete then Unavailable(p) else
    match fault
    case WhilePublishing => Unavailable(p.(hasReady := true))
    case AfterCalculating => Unavailable(p.(hasReady := true,
        control := Ramped(setup, p.control, InputsOf(data.value), now)))
    case AfterHolding => Unavailable(Published(setup, p, data.value, now))
    case _ => Published(setup, p, data.value, now)
  }

  class DbusAggregateService {
    const setup: Setup
    const dvcc: Controller
    var hasReadyData: bool
    var previousLimits: Option<(real, real)>
    // The paths on the bus.
    var connected: bool
    var maxChargeCurrent: real
    var maxDischargeCurrent: real
    var maxChargeVoltage: Option<real>
    var allowToCharge: bool
    var allowToDischarge: bool
    var telemetryState: TelemetryState

    ghost predicate Valid() {
      setup.curve.Valid() && dvcc.setup == setup
    }

    function OnTheBus(): Bus
      reads this
    {
      Bus(connected, maxChargeCurrent, maxDischargeCurrent, maxChargeVoltage, allowToCharge, allowToDischarge,
          telemetryState)
    }

    function State(): Publisher
      reads this, dvcc
    {
      Publisher(hasReadyData, previousLimits, dvcc.State(), OnTheBus())
    }

    constructor (setup: Setup, now: real)
      requires setup.curve.Valid()
      ensures Valid() && this.setup == setup && fresh(dvcc) && State() == InitialPublisher(setup, now)
    {
      this.setup := setup;
      dvcc := new Controller(setup, now);
      hasReadyData, previousLimits := false, None;
      connected, allowToCharge, allowToDischarge, telemetryState := false, false, false, Initializing;
      maxChargeCurrent, maxDischargeCurrent, maxChargeVoltage := 0.0, 0.0, None;
    }

    method SetUnavailable()
      modifies this
      ensures State() == Unavailable(old(State()))
    {
      connected := false;
      telemetryState := if hasReadyData then Stale else Initializing;
      if hasReadyData {
        previousLimits := Some((0.0, 0.0));
      }
      allowToCharge, allowToDischarge, maxChargeCurrent, maxDischargeCurrent := false, false, 0.0, 0.0;
    }

    /** Publish limits and state without relaxing a partial frame's protection. */
    method ApplyPartialFrameLimits(partial: bool)
      modifies this, dvcc`lastCcl, dvcc`lastDcl
      ensures
        var p := old(State());
        var ccl, dcl := HeldBack(p.bus.ccl, partial, PreviousCcl(p)), HeldBack(p.bus.dcl, partial, PreviousDcl(p));
        State() == Publisher(p.hasReady, Some((ccl, dcl)), Control(ccl, dcl, p.control.lastUpdateTime),
                             Bus(p.bus.connected, ccl, dcl, p.bus.cvl, p.bus.allowCharge && ccl != 0.0,
                                 p.bus.allowDischarge && dcl != 0.0,
                                 StateFor(ccl, dcl, partial)))
    {
      if partial && previousLimits.Some? {
        maxChargeCurrent := Least(maxChargeCurrent, previousLimits.value.0);
        maxDischargeCurrent := Least(maxDischargeCurrent, previousLimits.value.1);
      }
      previousLimits := Some((maxChargeCurrent, maxDischargeCurrent));
      dvcc.lastCcl, dvcc.lastDcl := maxChargeCurrent, maxDischargeCurrent;
      if maxChargeCurrent == 0.0 {
        allowToCharge := false;
      }
      if maxDischargeCurrent == 0.0 {
        allowToDischarge := false;
      }
      telemetryState := StateFor(maxChargeCurrent, maxDischargeCurrent, partial);
    }

    /** _publish_snapshot; false when it fails before it is done. */
    method PublishSnapshot(data: Option<Aggregate>, now: real, fault: Fault) returns (ok: bool)
      requires Valid() && !fault.WhileReading?
      modifies this, dvcc
      ensures (if ok then State() else Unavailable(State())) == Updated(setup, old(State()), data, now, fault)
    {
      hide Ramped, LimitsOf, Profile.Valid, HeldBack, StateFor;
      if data.None? || !data.value.dataComplete {
        SetUnavailable();
        return true;
      }
      ghost var p := State();
      hasReadyData, connected := true, true;
      if fault.WhilePublishing? {
        return false;
      }
      allowToCharge, allowToDischarge := data.value.allowCharge, data.value.allowDischarge;
      RampedAt(setup, p.control, InputsOf(data.value), now);
      var limits := dvcc.Calculate(InputsOf(data.value), now);
      if fault.AfterCalculating? {
        return false;
      }
      maxChargeCurrent, maxDischargeCurrent, maxChargeVoltage := limits.ccl, limits.dcl, Some(limits.cvl);
      ApplyPartialFrameLimits(data.value.partial);
      assert State() == Published(setup, p, data.value, now);
      ok := !fault.AfterHolding?;
    }

    /** Publish one consistent notification; a failed update publishes like missing data. */
    method Update(mqtt: MqttBatteryClient, now: real, fault: Fault)
      requires Valid() && |mqtt.batteries| == mqtt.config.Count()
      modifies this, dvcc
      ensures State() == Updated(setup, old(State()), AggregateOf(mqtt.config, old(mqtt.State()), now), now, fault)
    {
      hide Updated, AggregateOf, MqttBatteryClient.State, Unavailable;
      ghost var before := State();
      if fault.WhileReading? {
        SetUnavailable();
        ReadingFails(setup, before, AggregateOf(mqtt.config, old(mqtt.State()), now), now);
        return;
      }
      var data, cells, totals := mqtt.GetAggregateData(now);
      var ok := PublishSnapshot(data, now, fault);
      if !ok {
        SetUnavailable();
      }
    }
  }

  lemma RampedAt(setup: Setup, control: Control, input: Inputs, now: real)
    requires setup.curve.Valid()
    ensures Ramped(setup, control, input, now).lastUpdateTime == now
  {
  }

  lemma ReadingFails(setup: Setup, p: Publisher, data: Option<Aggregate>, now: real)
    requires setup.curve.Valid()
    ensures Updated(setup, p, data, now, WhileReading) == Unavailable(p)
  {
  }
}
