/** Runs of the whole driver: what is on the bus after any order of frames, disruptions, failures and polls. */
module Publishing {
  import opened Prelude
  import opened BmsData
  import opened Dvcc
  import opened DvccTapers
  import opened DvccController
  import opened Topology
  import opened Packs
  import opened MqttClient
  import opened Sessions
  import opened Readings
  import opened Service

  // ---- One update -----------------------------------------------------------------------------------

  /** What every update keeps: permissions follow the limits, and the hold knows what was published. */
  ghost predicate Safe(setup: Setup, p: Publisher) {
    && 0.0 <= p.bus.ccl <= setup.curve.maxChargeCurrent + Slack(setup)
    && 0.0 <= p.bus.dcl <= setup.curve.maxDischargeCurrent + Slack(setup)
    && (p.bus.allowCharge <==> p.bus.ccl > 0.0) && (p.bus.allowDischarge <==> p.bus.dcl > 0.0)
    && (p.bus.connected ==> p.hasReady && p.control.lastCcl == p.bus.ccl)
    && (!p.bus.connected ==> p.bus.ccl == 0.0 && p.bus.dcl == 0.0)
    && (p.hasReady ==> p.previous == Some((p.bus.ccl, p.bus.dcl)))
    && (p.previous.Some? ==> p.hasReady && 0.0 <= p.previous.value.0 && 0.0 <= p.previous.value.1)
    && 0.0 <= p.control.lastCcl <= setup.curve.maxChargeCurrent + Slack(setup)
    && (p.bus.cvl.Some? ==> p.bus.cvl.value == Hundredths(VoltageLimit(setup), setup.managed))
  }

  lemma InitialIsSafe(setup: Setup, now: real)
    requires setup.curve.Valid()
    ensures Safe(setup, InitialPublisher(setup, now))
  {
  }

  lemma UnavailableIsSafe(setup: Setup, p: Publisher)
    requires 0.0 <= p.control.lastCcl <= setup.curve.maxChargeCurrent + Slack(setup)
    requires p.previous.Some? ==> p.hasReady && 0.0 <= p.previous.value.0 && 0.0 <= p.previous.value.1
    requires p.bus.cvl.Some? ==> p.bus.cvl.value == Hundredths(VoltageLimit(setup), setup.managed)
    requires setup.curve.maxChargeCurrent > 0.0 && setup.curve.maxDischargeCurrent > 0.0
    ensures Safe(setup, Unavailable(p))
  {
    hide Hundredths;
  }

  /** The limits of one calculation, as they would be published without a hold. */
  lemma FreshLimits(setup: Setup, control: Control, input: Inputs, now: real)
    requires setup.curve.Valid() && 0.0 <= control.lastCcl
    ensures
      var after := Ramped(setup, control, input, now);
      var limits := LimitsOf(setup, after);
      && 0.0 <= after.lastCcl <= setup.curve.maxChargeCurrent
      && 0.0 <= limits.ccl <= after.lastCcl + Slack(setup) && (limits.ccl > 0.0 ==> input.allowCharge)
      && 0.0 <= limits.dcl <= after.lastDcl + Slack(setup) && (limits.dcl > 0.0 ==> input.allowDischarge)
      && 0.0 <= after.lastDcl <= setup.curve.maxDischargeCurrent
      && after.lastUpdateTime == now
  {
    hide Ramped, Tenths, Hundredths, Profile.Valid, ChargeCeiling, DischargeCeiling, Ramp;
    RampedLimits(setup, control, input, now);
    var after := Ramped(setup, control, input, now);
    PublishedCurrent(setup, after.lastCcl);
    PublishedCurrent(setup, after.lastDcl);
  }

  lemma PublishedIsSafe(setup: Setup, p: Publisher, data: Aggregate, now: real)
    requires setup.curve.Valid() && Safe(setup, p)
    ensures Safe(setup, Published(setup, p, data, now))
  {
    hide Ramped, Tenths, Hundredths, Profile.Valid;
    FreshLimits(setup, p.control, InputsOf(data), now);
  }

  lemma MaximaArePositive(p: Profile)
    requires p.Valid()
    ensures p.maxChargeCurrent > 0.0 && p.maxDischargeCurrent > 0.0
  {
  }

  lemma UpdateIsSafe(setup: Setup, p: Publisher, data: Option<Aggregate>, now: real, fault: Fault)
    requires setup.curve.Valid() && Safe(setup, p)
    ensures Safe(setup, Updated(setup, p, data, now, fault))
    ensures p.hasReady ==> Updated(setup, p, data, now, fault).hasReady
  {
    hide Ramped, Tenths, Hundredths, Profile.Valid, Published, VoltageLimit;
    MaximaArePositive(setup.curve);
    UnavailableIsSafe(setup, p);
    UnavailableIsSafe(setup, p.(hasReady := true));
    if data.Some? {
      FreshLimits(setup, p.control, InputsOf(data.value), now);
      UnavailableIsSafe(setup, p.(hasReady := true, control := Ramped(setup, p.control, InputsOf(data.value), now)));
      PublishedIsSafe(setup, p, data.value, now);
      PublishedIsReady(setup, p, data.value, now);
      UnavailableIsSafe(setup, Published(setup, p, data.value, now));
    }
  }

  lemma PublishedIsReady(setup: Setup, p: Publisher, data: Aggregate, now: real)
    requires setup.curve.Valid()
    ensures Published(setup, p, data, now).hasReady && Published(setup, p, data, now).bus.connected
    ensures Published(setup, p, data, now).control.lastCcl == Published(setup, p, data, now).bus.ccl
    ensures Published(setup, p, data, now).control.lastUpdateTime == now
  {
  }

  /** Once complete data was published, an update from partial or missing data raises neither limit. */
  lemma PartialUpdatesNeverRaise(setup: Setup, p: Publisher, data: Option<Aggregate>, now: real, fault: Fault)
    requires setup.curve.Valid() && Safe(setup, p) && p.hasReady
    requires data.Some? && data.value.dataComplete ==> data.value.partial
    ensures
      var p' := Updated(setup, p, data, now, fault);
      p'.bus.ccl <= p.bus.ccl && p'.bus.dcl <= p.bus.dcl
  {
    hide Ramped, LimitsOf, Profile.Valid;
  }

  /** Where the hottest sensor stops charging, discharging goes on with its hot share only. */
  predicate UnderHotShare(p: Profile, data: Aggregate, dcl: real) {
    data.maxTemp >= p.tempStopChargeHigh ==> dcl <= p.maxDischargeCurrent * p.dischargeHotFactor
  }

  lemma CeilingIsUnderHotShare(p: Profile, data: Aggregate, dcl: real)
    requires p.Valid() && dcl <= DischargeCeiling(p, InputsOf(data))
    ensures UnderHotShare(p, data, dcl)
  {
    hide Profile.Valid, DclFromCellVoltage;
    DischargeCeilingInRange(p, InputsOf(data));
  }

  /** Each limit lies under every taper of the data it was computed from, and only a permitted one is positive. */
  ghost predicate UnderCeilings(setup: Setup, bus: Bus, data: Aggregate)
    requires setup.curve.Valid()
  {
    var curve, slack := setup.curve, Slack(setup);
    && bus.ccl <= CclFromCellVoltage(curve, data.maxCell) + slack
    && bus.ccl <= CclFromImbalance(curve, InputsOf(data).Delta()) + slack
    && bus.ccl <= CclFromTemperature(curve, Some(data.minTemp), Some(data.maxTemp)) + slack
    && bus.ccl <= CclFromSoc(curve, Some(data.soc)) + slack
    && bus.dcl <= DclFromCellVoltage(curve, data.minCell) + slack
    && UnderHotShare(curve, data, bus.dcl - slack)
    && (bus.ccl > 0.0 ==> data.allowCharge) && (bus.dcl > 0.0 ==> data.allowDischarge)
  }

  /** What a successful update publishes respects, at once, every ceiling computed from the same data. */
  lemma PublishedRespectsCeilings(setup: Setup, p: Publisher, data: Aggregate, now: real)
    requires setup.curve.Valid() && Safe(setup, p)
    ensures UnderCeilings(setup, Published(setup, p, data, now).bus, data)
    ensures Published(setup, p, data, now).bus.ccl
         <= p.control.lastCcl + Ramp(setup.curve, p.control.lastUpdateTime, now) + Slack(setup)
  {
    hide Ramped, Tenths, Hundredths, Profile.Valid, ChargeCeiling, DischargeCeiling, Ramp, CclFromCellVoltage;
    hide UnderHotShare, CclFromImbalance, CclFromTemperature, CclFromSoc, DclFromCellVoltage;
    FreshLimits(setup, p.control, InputsOf(data), now);
    RampedLimits(setup, p.control, InputsOf(data), now);
    CeilingIsTheLowestTaper(setup.curve, InputsOf(data));
    DischargeIsUnderItsTaper(setup.curve, InputsOf(data));
    CeilingIsUnderHotShare(setup.curve, data, Published(setup, p, data, now).bus.dcl - Slack(setup));
  }

  lemma DischargeIsUnderItsTaper(p: Profile, input: Inputs)
    requires p.Valid()
    ensures 0.0 <= DischargeCeiling(p, input) <= DclFromCellVoltage(p, input.minCell) <= p.maxDischargeCurrent
  {
    hide Profile.Valid, DclFromCellVoltage, DischargeCeiling;
    DischargeCeilingInRange(p, input);
  }

  // ---- Runs -----------------------------------------------------------------------------------------

  /** The controller a configuration runs: the default curve, or the capped profile of a managed chain. */
  function SetupFor(config: Config): Setup {
    if config.Explicit? && config.chain.profile.Some? then SetupOf(config.chain)
        else Setup(DEFAULT, false, config.TotalCells())
  }

  lemma BuiltProfileIsValid(chain: Chain)
    requires Built(chain) && chain.profile.Some?
    ensures chain.profile.value.Valid()
  {
    hide Profile.Valid, Sum, CellCounts;
  }

  lemma SetupIsValid(config: Config)
    requires config.Valid()
    ensures SetupFor(config).curve.Valid()
  {
    hide Profile.Valid, Built;
    DefaultIsValid();
    if config.Explicit? && config.chain.profile.Some? {
      BuiltProfileIsValid(config.chain);
    }
  }

  ghost function PublisherStep(config: Config, c: Client, p: Publisher, step: Step): Publisher
    requires SetupFor(config).curve.Valid()
  {
    if step.Poll? then Updated(SetupFor(config), p, AggregateOf(config, c, step.at), step.at, step.fault) else p
  }

  /** The publisher, started at some time, after a run of the driver. */
  ghost function PublisherAfter(config: Config, start: real, run: seq<Step>): Publisher
    requires config.Valid()
  {
    SetupIsValid(config);
    if run == [] then InitialPublisher(SetupFor(config), start)
    else
      var front := run[..|run| - 1];
      PublisherStep(config, ClientAfter(config, front), PublisherAfter(config, start, front), run[|run| - 1])
  }

  lemma StepIsSafe(config: Config, c: Client, p: Publisher, step: Step)
    requires SetupFor(config).curve.Valid() && Safe(SetupFor(config), p)
    ensures Safe(SetupFor(config), PublisherStep(config, c, p, step))
    ensures p.hasReady ==> PublisherStep(config, c, p, step).hasReady
  {
    hide Safe, Updated, Profile.Valid, AggregateOf;
    if step.Poll? {
      UpdateIsSafe(SetupFor(config), p, AggregateOf(config, c, step.at), step.at, step.fault);
    }
  }

  /** After every run each permission is on the bus exactly when its limit is positive, and no limit is negative. */
  lemma {:induction false} AlwaysSafe(config: Config, start: real, run: seq<Step>)
    requires config.Valid()
    ensures Safe(SetupFor(config), PublisherAfter(config, start, run))
  {
    hide Safe, PublisherStep, Profile.Valid, Built;
    SetupIsValid(config);
    if run == [] {
      InitialIsSafe(SetupFor(config), start);
    } else {
      var front := run[..|run| - 1];
      AlwaysSafe(config, start, front);
      StepIsSafe(config, ClientAfter(config, front), PublisherAfter(config, start, front), run[|run| - 1]);
    }
  }

  lemma ConnectedMeansAvailable(config: Config, c: Client, p: Publisher, step: Step)
    requires SetupFor(config).curve.Valid() && step.Poll? && PublisherStep(config, c, p, step).bus.connected
    ensures Available(config, c, step.at) && step.fault.NoFault? && AggregateOf(config, c, step.at).Some?
    ensures PublisherStep(config, c, p, step)
        == Published(SetupFor(config), p, AggregateOf(config, c, step.at).value, step.at)
  {
    hide Published, Ramped, Profile.Valid, AggregateOf;
  }

  /** Voltage, current, state of charge, every configured cell, and every sensor known, or else the first. */
  predicate Needed(b: Battery, key: Key) {
    match key
    case Voltage => true
    case Current => true
    case Soc => true
    case Cell(i) => i <= b.cellCount
    case Temperature(i) => if b.temperatures == map[] then i == 1 else i in b.temperatures
    case _ => false
  }

  lemma NeededExactly(b: Battery, key: Key)
    ensures Needed(b, key) <==> key in b.RequiredKeys()
  {
  }

  /**
   * If a poll leaves the driver connected or any limit above zero, every required measurement of every
   * configured battery holds a value that an accepted frame evidenced, less than the timeout ago by a stamp
   * no later than that frame's receipt minus the age it declared.
   */
  lemma PublishedDataIsEvidenced(config: Config, start: real, run: seq<Step>, slot: int, key: Key)
    requires config.Valid() && run != [] && run[|run| - 1].Poll?
    requires var bus := PublisherAfter(config, start, run).bus; bus.connected || bus.ccl != 0.0 || bus.dcl != 0.0
    requires 1 <= slot <= config.Count() && Needed(BatteryOf(ClientAfter(config, run), slot), key)
    ensures
      var b := BatteryOf(ClientAfter(config, run), slot);
      && b.cellCount == config.Cells()[slot - 1]
      && b.Reading(key).Some? && key in b.times
      && 0.0 <= run[|run| - 1].at - b.times[key] < STALE_TIMEOUT
      && Evidenced(config, run, slot, key, b.Reading(key).value, b.times[key])
  {
    hide PublisherStep, Profile.Valid, Evidenced, Battery.Usable, Available, ClientStep, Built, Needed;
    hide Battery.RequiredKeys;
    SetupIsValid(config);
    var front, step := run[..|run| - 1], run[|run| - 1];
    AlwaysSafe(config, start, run);
    AlwaysSound(config, run);
    ConnectedMeansAvailable(config, ClientAfter(config, front), PublisherAfter(config, start, front), step);
    assert ClientAfter(config, run) == ClientAfter(config, front) by {
      PollsDoNotMoveTheClient(config, run);
    }
    AvailableIsUsable(config, ClientAfter(config, run), step.at, slot);
    NeededExactly(BatteryOf(ClientAfter(config, run), slot), key);
    RequiredIsFresh(BatteryOf(ClientAfter(config, run), slot), step.at, key);
    ReadingsAreEvidenced(config, run, slot, key);
  }

  lemma PollsDoNotMoveTheClient(config: Config, run: seq<Step>)
    requires run != [] && run[|run| - 1].Poll?
    ensures ClientAfter(config, run) == ClientAfter(config, run[..|run| - 1])
  {
  }

  lemma RequiredIsFresh(b: Battery, now: real, key: Key)
    requires b.Usable(now) && Evidence.WellDated(b) && key in b.RequiredKeys()
    ensures key.Measured() && b.Reading(key).Some? && key in b.times && 0.0 <= now - b.times[key] < STALE_TIMEOUT
  {
    assert b.Fresh(key, now);
  }

  /**
   * Whenever a poll of any run leaves the driver connected, its limits lie under every taper of the data that
   * this poll read, and the charge limit within the ramp from the controller's last one.
   */
  lemma PollsRespectCeilings(config: Config, start: real, run: seq<Step>)
    requires config.Valid() && run != [] && run[|run| - 1].Poll? && PublisherAfter(config, start, run).bus.connected
    ensures SetupFor(config).curve.Valid()
    ensures
      var front, at := run[..|run| - 1], run[|run| - 1].at;
      var c, p := ClientAfter(config, front), PublisherAfter(config, start, front);
      && Available(config, c, at)
      && UnderCeilings(SetupFor(config), PublisherAfter(config, start, run).bus, AggregateOf(config, c, at).value)
      && PublisherAfter(config, start, run).bus.ccl
         <= p.control.lastCcl + Ramp(SetupFor(config).curve, p.control.lastUpdateTime, at) + Slack(SetupFor(config))
  {
    hide PublisherStep, Profile.Valid, Published, Built, UnderCeilings, Ramp, AggregateOf, Safe;
    SetupIsValid(config);
    var front, step := run[..|run| - 1], run[|run| - 1];
    var c, p := ClientAfter(config, front), PublisherAfter(config, start, front);
    AlwaysSafe(config, start, front);
    ConnectedMeansAvailable(config, c, p, step);
    PublishedRespectsCeilings(SetupFor(config), p, AggregateOf(config, c, step.at).value, step.at);
  }

  // ---- Partial telemetry ----------------------------------------------------------------------------

  /** From step i on, every poll finds partial telemetry or no complete data at all. */
  ghost predicate OnlyPartial(config: Config, run: seq<Step>, i: nat) {
    forall k | i <= k < |run| && run[k].Poll? ::
      var c := ClientAfter(config, run[..k]);
      c.partial || !Available(config, c, run[k].at)
  }

  lemma OnlyPartialBefore(config: Config, run: seq<Step>, i: nat)
    requires OnlyPartial(config, run, i) && i < |run|
    ensures OnlyPartial(config, run[..|run| - 1], i)
    ensures run[|run| - 1].Poll? ==>
              var c := ClientAfter(config, run[..|run| - 1]);
              c.partial || !Available(config, c, run[|run| - 1].at)
  {
    hide Available;
    var front := run[..|run| - 1];
    forall k | i <= k < |front| && front[k].Poll? ensures
      var c := ClientAfter(config, front[..k]);
      c.partial || !Available(config, c, front[k].at)
    {
      assert front[..k] == run[..k];
    }
  }

  /** While telemetry is partial or stale, across failed calculations too, published limits only fall. */
  lemma {:induction false} LimitsOnlyFall(config: Config, start: real, run: seq<Step>, i: nat)
    requires config.Valid()
    requires i <= |run| && PublisherAfter(config, start, run[..i]).hasReady && OnlyPartial(config, run, i)
    ensures
      var early, late := PublisherAfter(config, start, run[..i]), PublisherAfter(config, start, run);
      late.hasReady && late.bus.ccl <= early.bus.ccl && late.bus.dcl <= early.bus.dcl
  {
    hide PublisherStep, Profile.Valid, OnlyPartial, Available, Built;
    SetupIsValid(config);
    if i == |run| {
      assert run[..i] == run;
    } else {
      var front, step := run[..|run| - 1], run[|run| - 1];
      assert front[..i] == run[..i];
      OnlyPartialBefore(config, run, i);
      LimitsOnlyFall(config, start, front, i);
      AlwaysSafe(config, start, front);
      var c, p := ClientAfter(config, front), PublisherAfter(config, start, front);
      PartialStepNeverRaises(config, c, p, step);
      StepIsSafe(config, c, p, step);
    }
  }

  lemma PartialStepNeverRaises(config: Config, c: Client, p: Publisher, step: Step)
    requires SetupFor(config).curve.Valid() && Safe(SetupFor(config), p) && p.hasReady
    requires step.Poll? ==> c.partial || !Available(config, c, step.at)
    ensures
      var p' := PublisherStep(config, c, p, step);
      p'.bus.ccl <= p.bus.ccl && p'.bus.dcl <= p.bus.dcl
  {
    hide Safe, Updated, Profile.Valid, AggregateOf;
    if step.Poll? {
      PartialIsReported(config, c, step.at);
      PartialUpdatesNeverRaise(SetupFor(config), p, AggregateOf(config, c, step.at), step.at, step.fault);
    }
  }

  lemma PartialIsReported(config: Config, c: Client, now: real)
    ensures AggregateOf(config, c, now).Some? ==> AggregateOf(config, c, now).value.partial == c.partial
  {
    hide Snapshots, Summable;
  }

  // ---- The ramp -------------------------------------------------------------------------------------

  ghost predicate ClockRuns(run: seq<Step>) {
    forall j, k | 0 <= j < k < |run| :: run[j].at <= run[k].at
  }

  /** A poll that gets as far as rounding and holding the limits it calculated. */
  ghost predicate Rounds(config: Config, c: Client, step: Step) {
    step.Poll? && Available(config, c, step.at) && (step.fault.NoFault? || step.fault.AfterHolding?)
  }

  /** What rounding may add from step i on: one slack for each poll that rounds. */
  ghost function Drift(config: Config, run: seq<Step>, i: nat): real {
    if |run| <= i then 0.0
    else
      var front := run[..|run| - 1];
      Drift(config, front, i) + if Rounds(config, ClientAfter(config, front), run[|run| - 1])
          then Slack(SetupFor(config)) else 0.0
  }

  /** The controller's limit lies within the ramp from ccl, published at since, and its clock has not run ahead. */
  ghost predicate WithinRamp(setup: Setup, ccl: real, since: real, drift: real, control: Control, now: real) {
    && since <= control.lastUpdateTime <= now
    && control.lastCcl <= ccl + Ramp(setup.curve, since, control.lastUpdateTime) + drift
  }

  lemma CalculationStaysWithinRamp(setup: Setup, ccl: real, since: real, drift: real, control: Control, input: Inputs,
      now: real)
    requires setup.curve.Valid() && 0.0 <= control.lastCcl
    requires WithinRamp(setup, ccl, since, drift, control, now)
    ensures WithinRamp(setup, ccl, since, drift, Ramped(setup, control, input, now), now)
    ensures LimitsOf(setup, Ramped(setup, control, input, now)).ccl <= ccl + Ramp(setup.curve, since, now) + drift
        + Slack(setup)
  {
    hide Ramped, LimitsOf, Profile.Valid, Ramp, ChargeCeiling, DischargeCeiling;
    RampedLimits(setup, control, input, now);
    RampsAdd(setup.curve, since, control.lastUpdateTime, now);
    FreshLimits(setup, control, input, now);
  }

  lemma UpdateStaysWithinRamp(config: Config, c: Client, p: Publisher, step: Step, ccl: real, since: real, drift: real)
    requires SetupFor(config).curve.Valid() && Safe(SetupFor(config), p)
    requires WithinRamp(SetupFor(config), ccl, since, drift, p.control, step.at)
    ensures
      var p' := PublisherStep(config, c, p, step);
      var more := drift + if Rounds(config, c, step) then Slack(SetupFor(config)) else 0.0;
      && WithinRamp(SetupFor(config), ccl, since, more, p'.control, step.at)
  {
    hide Ramped, LimitsOf, Profile.Valid, AggregateOf, Ramp, HeldBack;
    var setup, data := SetupFor(config), AggregateOf(config, c, step.at);
    if step.Poll? && data.Some? {
      CalculationStaysWithinRamp(setup, ccl, since, drift, p.control, InputsOf(data.value), step.at);
      HoldingBackLowers(LimitsOf(setup, Ramped(setup, p.control, InputsOf(data.value), step.at)).ccl,
          data.value.partial, PreviousCcl(p));
    }
  }

  lemma HoldingBackLowers(limit: real, partial: bool, previous: Option<real>)
    ensures HeldBack(limit, partial, previous) <= limit
  {
  }

  lemma {:induction false} ControlStaysWithinRamp(config: Config, start: real, run: seq<Step>, i: nat)
    requires config.Valid() && 1 <= i <= |run| && ClockRuns(run)
    requires run[i - 1].Poll? && PublisherAfter(config, start, run[..i]).bus.connected
    ensures WithinRamp(SetupFor(config), PublisherAfter(config, start, run[..i]).bus.ccl, run[i - 1].at,
                       Drift(config, run, i), PublisherAfter(config, start, run).control, run[|run| - 1].at)
  {
    hide PublisherStep, Profile.Valid, WithinRamp, Rounds, Built;
    SetupIsValid(config);
    if i == |run| {
      assert run[..i] == run;
      ConnectedStartsTheRamp(config, start, run);
    } else {
      var front, step := run[..|run| - 1], run[|run| - 1];
      assert front[..i] == run[..i];
      ControlStaysWithinRamp(config, start, front, i);
      AlwaysSafe(config, start, front);
      var c, p := ClientAfter(config, front), PublisherAfter(config, start, front);
      LaterIsWithinRamp(SetupFor(config), PublisherAfter(config, start, run[..i]).bus.ccl, run[i - 1].at,
          Drift(config, front, i), p.control, run[|run| - 2].at, step.at);
      UpdateStaysWithinRamp(config, c, p, step, PublisherAfter(config, start, run[..i]).bus.ccl, run[i - 1].at,
          Drift(config, front, i));
    }
  }

  lemma LaterIsWithinRamp(setup: Setup, ccl: real, since: real, drift: real, control: Control, now: real, later: real)
    requires WithinRamp(setup, ccl, since, drift, control, now) && now <= later
    ensures WithinRamp(setup, ccl, since, drift, control, later)
  {
  }

  lemma ConnectedStartsTheRamp(config: Config, start: real, run: seq<Step>)
    requires config.Valid() && run != [] && run[|run| - 1].Poll? && PublisherAfter(config, start, run).bus.connected
    ensures
      var p, at := PublisherAfter(config, start, run), run[|run| - 1].at;
      WithinRamp(SetupFor(config), p.bus.ccl, at, 0.0, p.control, at)
  {
    hide PublisherStep, Profile.Valid, Available, Published, Built;
    SetupIsValid(config);
    var front, step := run[..|run| - 1], run[|run| - 1];
    ConnectedMeansAvailable(config, ClientAfter(config, front), PublisherAfter(config, start, front), step);
    PublishedIsReady(SetupFor(config), PublisherAfter(config, start, front),
        AggregateOf(config, ClientAfter(config, front), step.at).value, step.at);
  }

  /**
   * Between any two connected polls the published charge limit rises by no more than the ramp allows in the
   * time between them; without a profile, rounding may add its slack once for each poll that rounds.
   */
  lemma ChargeLimitFollowsTheRamp(config: Config, start: real, run: seq<Step>, i: nat)
    requires config.Valid() && 1 <= i <= |run| && ClockRuns(run)
    requires run[i - 1].Poll? && PublisherAfter(config, start, run[..i]).bus.connected
    requires run[|run| - 1].Poll? && PublisherAfter(config, start, run).bus.connected
    ensures
      PublisherAfter(config, start, run).bus.ccl
      <= PublisherAfter(config, start, run[..i]).bus.ccl
         + Ramp(SetupFor(config).curve, run[i - 1].at, run[|run| - 1].at) + Drift(config, run, i)
  {
    hide PublisherStep, Profile.Valid, Rounds, Ramp, Drift, Built;
    SetupIsValid(config);
    ControlStaysWithinRamp(config, start, run, i);
    ConnectedStartsTheRamp(config, start, run);
    AlwaysSafe(config, start, run);
    RampOverTime(SetupFor(config).curve, run[i - 1].at, PublisherAfter(config, start, run).control.lastUpdateTime,
        run[|run| - 1].at);
  }

  lemma RampOverTime(p: Profile, since: real, updated: real, now: real)
    requires p.Valid() && since <= updated <= now
    ensures Ramp(p, since, updated) <= Ramp(p, since, now) == p.cclChangeRate * (now - since)
  {
    hide Profile.TailFits;
    Scale(p.cclChangeRate, updated - since, now - since, Ramp(p, since, updated), Ramp(p, since, now));
  }

  /** With a profile nothing drifts: the ramp bounds the published limit exactly. */
  lemma {:induction false} ProfilesDoNotDrift(config: Config, run: seq<Step>, i: nat)
    requires SetupFor(config).managed
    ensures Drift(config, run, i) == 0.0
  {
    hide Rounds;
    if |run| > i {
      ProfilesDoNotDrift(config, run[..|run| - 1], i);
    }
  }

  // ---- Ratings --------------------------------------------------------------------------------------

  /** Whatever happened, a managed chain publishes within every member's ratings and the system voltage limit. */
  lemma BusStaysWithinRatings(r: Request, start: real, run: seq<Step>)
    requires r.managed && Configured(r).Accepted?
    ensures Built(Configured(r).value)
    ensures
      var chain := Configured(r).value;
      var bus := PublisherAfter(Explicit(chain), start, run).bus;
      WithinRatings(chain, Limits(bus.ccl, bus.dcl, if bus.cvl.Some? then bus.cvl.value else 0.0))
  {
    hide Profile.Valid, Tenths, Hundredths, Sum, CellCounts, Capped, VoltageLimit;
    var chain := Configured(r).value;
    var config := Explicit(chain);
    AlwaysSafe(config, start, run);
    var bus := PublisherAfter(config, start, run).bus;
    LimitsStayWithinRatings(r,
        Control(chain.profile.value.maxChargeCurrent, chain.profile.value.maxDischargeCurrent, start));
    forall i | 0 <= i < |chain.members|
      ensures bus.ccl <= chain.members[i].maxCharge.value && bus.dcl <= chain.members[i].maxDischarge.value
    {
      CappedByEveryRating(r.profile.value, r.members, i);
    }
  }
}
