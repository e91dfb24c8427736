/** Exactly which limits are published: from the readings of one poll and the limits before it, to the last digit. */
module ExactLimits {
  import opened Prelude
  import opened BmsData
  import opened Dvcc
  import opened DvccTapers
  import opened DvccController
  import opened Topology
  import opened MqttClient
  import opened Sessions
  import opened Readings
  import opened Service
  import opened Publishing

  // ---- Rounding ---------------------------------------------------------------------------------------------------

  /**
   * y is x in steps of 1 / scale: the step at or below it, or else the nearest one, and of two equally near ones the
   * even one.
   */
  predicate RoundsTo(x: real, y: real, scale: real, down: bool) {
    var k := (y * scale).Floor;
    && y * scale == k as real
    && if down then k as real <= x * scale < k as real + 1.0
       else
         && k as real - 0.5 <= x * scale <= k as real + 0.5
         && (x * scale == k as real - 0.5 || x * scale == k as real + 0.5 ==> k % 2 == 0)
  }

  lemma HalvesToEven(x: real)
    ensures
      var k := RoundHalfEven(x);
      k as real - 0.5 <= x <= k as real + 0.5 && (x == k as real - 0.5 || x == k as real + 0.5 ==> k % 2 == 0)
  {
  }

  lemma StepsBack(k: int, scale: real, y: real)
    requires scale > 0.0 && y == k as real / scale
    ensures y * scale == k as real
  {
  }

  lemma IsRounded(x: real, y: real, scale: real, down: bool, k: int, scaled: real)
    requires scaled == x * scale && y * scale == k as real
    requires down ==> k as real <= scaled < k as real + 1.0
    requires !down ==>
               && k as real - 0.5 <= scaled <= k as real + 0.5
               && (scaled == k as real - 0.5 || scaled == k as real + 0.5 ==> k % 2 == 0)
    ensures RoundsTo(x, y, scale, down)
  {
    assert (k as real).Floor == k;
  }

  lemma TenthsExactly(x: real, down: bool)
    ensures RoundsTo(x, Tenths(x, down), 10.0, down)
  {
    hide RoundHalfEven, RoundsTo;
    var y, z := Tenths(x, down), x * 10.0;
    if down {
      var k := z.Floor;
      StepsBack(k, 10.0, k as real / 10.0);
      RoundingOfIntegers(k);
      assert y == k as real / 10.0;
      IsRounded(x, y, 10.0, true, k, z);
    } else {
      var k := RoundHalfEven(z);
      HalvesToEven(z);
      StepsBack(k, 10.0, y);
      IsRounded(x, y, 10.0, false, k, z);
    }
  }

  lemma HundredthsExactly(x: real, down: bool)
    ensures RoundsTo(x, Hundredths(x, down), 100.0, down)
  {
    hide RoundHalfEven, RoundsTo;
    var y, z := Hundredths(x, down), x * 100.0;
    if down {
      var k := z.Floor;
      StepsBack(k, 100.0, k as real / 100.0);
      RoundingOfIntegers(k);
      assert y == k as real / 100.0;
      IsRounded(x, y, 100.0, true, k, z);
    } else {
      var k := RoundHalfEven(z);
      HalvesToEven(z);
      StepsBack(k, 100.0, y);
      IsRounded(x, y, 100.0, false, k, z);
    }
  }

  /** Rounding has one outcome. */
  lemma RoundingIsUnique(x: real, y: real, z: real, scale: real, down: bool)
    requires RoundsTo(x, y, scale, down) && RoundsTo(x, z, scale, down) && scale > 0.0
    ensures y == z
  {
    var k, l := (y * scale).Floor, (z * scale).Floor;
    assert k == l;
    Cancel(scale, y, z);
    Cancel(scale, z, y);
  }

  // ---- One calculation --------------------------------------------------------------------------------------------

  function Difference(a: Option<real>, b: Option<real>): Option<real> {
    if a.Some? && b.Some? then Some(a.value - b.value) else None
  }

  /** The four tapers of the charge current, at these readings. */
  ghost function Tapers(p: Profile, data: Aggregate): set<real>
    requires p.Valid()
  {
    {CclFromCellVoltage(p, data.maxCell), CclFromImbalance(p, Difference(data.maxCell, data.minCell)),
     CclFromTemperature(p, Some(data.minTemp), Some(data.maxTemp)), CclFromSoc(p, Some(data.soc))}
  }

  /** The charge limit falls to the lowest taper at once, and rises to it at the profile's rate. */
  ghost predicate ChargeFollows(p: Profile, last: real, since: real, data: Aggregate, now: real, ccl: real)
    requires p.Valid()
  {
    if !data.allowCharge then ccl == 0.0
    else
      var lowest := Minimum(Tapers(p, data));
      var elapsed := if now < since then 0.0 else now - since;
      if lowest <= last then ccl == lowest else ccl == Least(lowest, last + p.cclChangeRate * elapsed)
  }

  /** The discharge limit is its taper's; where the hottest sensor stops charging, its hot share bounds it too. */
  predicate DischargeFollows(p: Profile, data: Aggregate, dcl: real)
    requires p.Valid()
  {
    var taper, hot := DclFromCellVoltage(p, data.minCell), p.maxDischargeCurrent * p.dischargeHotFactor;
    if !data.allowDischarge then dcl == 0.0
    else if data.maxTemp >= p.tempStopChargeHigh then dcl <= taper && dcl <= hot && (dcl == taper || dcl == hot)
    else dcl == taper
  }

  lemma CalculationExactly(setup: Setup, control: Control, data: Aggregate, now: real)
    requires setup.curve.Valid()
    ensures
      var after := Ramped(setup, control, InputsOf(data), now);
      && ChargeFollows(setup.curve, control.lastCcl, control.lastUpdateTime, data, now, after.lastCcl)
      && DischargeFollows(setup.curve, data, after.lastDcl)
  {
    hide CclFromCellVoltage, CclFromImbalance, CclFromTemperature, CclFromSoc, DclFromCellVoltage, Profile.Valid;
    CeilingIsTheLowestTaper(setup.curve, InputsOf(data));
    assert InputsOf(data).Delta() == Difference(data.maxCell, data.minCell);
    assert ChargeCeiling(setup.curve, InputsOf(data)) == Minimum(Tapers(setup.curve, data));
  }

  // ---- The polls of a run -----------------------------------------------------------------------------------------

  /** Step k of the run is a poll that finds complete data and gets as far as publishing them. */
  ghost predicate ReadyAt(config: Config, run: seq<Step>, k: nat) {
    && k < |run| && run[k].Poll? && !run[k].fault.WhileReading?
    && Available(config, ClientAfter(config, run[..k]), run[k].at)
  }

  ghost predicate EverReady(config: Config, run: seq<Step>) {
    exists k: nat :: ReadyAt(config, run, k)
  }

  lemma ReadyGrows(config: Config, front: seq<Step>, step: Step)
    ensures EverReady(config, front + [step]) <==> EverReady(config, front) || ReadyAt(config, front + [step], |front|)
    ensures ReadyAt(config, front + [step], |front|)
       <==> step.Poll? && !step.fault.WhileReading? && Available(config, ClientAfter(config, front), step.at)
  {
    hide Available, ClientAfter;
    var run := front + [step];
    assert run[..|front|] == front;
    forall k: nat | k < |front| ensures ReadyAt(config, run, k) <==> ReadyAt(config, front, k) {
      assert run[..k] == front[..k];
    }
    if k: nat :| ReadyAt(config, run, k) {
      assert k < |front| ==> ReadyAt(config, front, k);
    }
    if k: nat :| ReadyAt(config, front, k) {
      assert ReadyAt(config, run, k);
    }
  }

  /** The publisher knows whether it has ever had complete data. */
  lemma {:induction false} ReadyExactly(config: Config, start: real, run: seq<Step>)
    requires config.Valid()
    ensures PublisherAfter(config, start, run).hasReady <==> EverReady(config, run)
  {
    hide EverReady, ReadyAt, Available, Ramped, LimitsOf, HeldBack, Profile.Valid, Built, AggregateOf;
    if run == [] {
      NeverReady(config);
    } else {
      var front, step := run[..|run| - 1], run[|run| - 1];
      assert run == front + [step];
      ReadyExactly(config, start, front);
      ReadyGrows(config, front, step);
      SetupIsValid(config);
      ReadyStep(config, ClientAfter(config, front), PublisherAfter(config, start, front), step);
    }
  }

  lemma NeverReady(config: Config)
    ensures !EverReady(config, [])
  {
  }

  lemma ReadyStep(config: Config, c: Client, p: Publisher, step: Step)
    requires SetupFor(config).curve.Valid()
    ensures PublisherStep(config, c, p, step).hasReady
       <==> p.hasReady || (step.Poll? && !step.fault.WhileReading? && Available(config, c, step.at))
  {
    hide Ramped, LimitsOf, HeldBack, Profile.Valid, AggregateOf;
  }

  /** A limit that is published, from the fresh one and the one before it. */
  ghost predicate HeldTo(limit: real, computed: real, before: real, hold: bool) {
    if hold then IsLeast(limit, {computed, before}) else limit == computed
  }

  function StateOf(ccl: real, dcl: real, partial: bool): TelemetryState {
    if ccl == 0.0 then Protection else if dcl == 0.0 then Protection else if partial then Degraded else Service.Ready
  }

  /**
   * What a poll publishes when it finds complete data and nothing fails: each limit is computed from the readings and
   * the last limit, rounded, and, while frames are partial and limits were published before, held to the one before.
   */
  lemma PollPublishesExactly(config: Config, start: real, run: seq<Step>)
    returns (ccl: real, dcl: real, freshCcl: real, freshDcl: real)
    requires config.Valid() && run != [] && run[|run| - 1].Poll? && run[|run| - 1].fault.NoFault?
    requires Available(config, ClientAfter(config, run[..|run| - 1]), run[|run| - 1].at)
    ensures SetupFor(config).curve.Valid()
    ensures
      var front, at := run[..|run| - 1], run[|run| - 1].at;
      var before, after := PublisherAfter(config, start, front), PublisherAfter(config, start, run);
      var data, setup := AggregateOf(config, ClientAfter(config, front), at).value, SetupFor(config);
      && ChargeFollows(setup.curve, before.control.lastCcl, before.control.lastUpdateTime, data, at, ccl)
      && DischargeFollows(setup.curve, data, dcl)
      && RoundsTo(ccl, freshCcl, 10.0, setup.managed) && RoundsTo(dcl, freshDcl, 10.0, setup.managed)
      && HeldTo(after.bus.ccl, freshCcl, before.bus.ccl, data.partial && EverReady(config, front))
      && HeldTo(after.bus.dcl, freshDcl, before.bus.dcl, data.partial && EverReady(config, front))
      && after.bus.connected && after.bus.cvl.Some?
      && RoundsTo(setup.curve.cellMaxVoltage * config.TotalCells() as real, after.bus.cvl.value, 100.0, setup.managed)
      && (after.bus.allowCharge <==> data.allowCharge && after.bus.ccl != 0.0)
      && (after.bus.allowDischarge <==> data.allowDischarge && after.bus.dcl != 0.0)
      && after.bus.state == StateOf(after.bus.ccl, after.bus.dcl, data.partial)
      && after.control == Control(after.bus.ccl, after.bus.dcl, at)
  {
    hide Profile.Valid, Built, Ramped, Tenths, Hundredths, AggregateOf, RoundsTo, ChargeFollows, DischargeFollows;
    hide EverReady;
    SetupIsValid(config);
    var front, step := run[..|run| - 1], run[|run| - 1];
    var c, p, setup := ClientAfter(config, front), PublisherAfter(config, start, front), SetupFor(config);
    var data := AggregateOf(config, c, step.at).value;
    AlwaysSafe(config, start, front);
    ReadyExactly(config, start, front);
    CalculationExactly(setup, p.control, data, step.at);
    var after := Ramped(setup, p.control, InputsOf(data), step.at);
    ccl, dcl := after.lastCcl, after.lastDcl;
    TenthsExactly(ccl, setup.managed);
    TenthsExactly(dcl, setup.managed);
    HundredthsExactly(VoltageLimit(setup), setup.managed);
    freshCcl, freshDcl := Tenths(ccl, setup.managed), Tenths(dcl, setup.managed);
  }

  /** Any other poll withdraws everything; only a failure after the calculation leaves a trace in the controller. */
  lemma OtherPollsWithdraw(config: Config, start: real, run: seq<Step>)
    requires config.Valid() && run != [] && run[|run| - 1].Poll?
    requires !Available(config, ClientAfter(config, run[..|run| - 1]), run[|run| - 1].at)
        || !run[|run| - 1].fault.NoFault?
    ensures
      var front, fault := run[..|run| - 1], run[|run| - 1].fault;
      var before, after := PublisherAfter(config, start, front), PublisherAfter(config, start, run);
      && !after.bus.connected && after.bus.ccl == 0.0 && after.bus.dcl == 0.0
      && !after.bus.allowCharge && !after.bus.allowDischarge
      && after.bus.state == (if EverReady(config, run) then Stale else Initializing)
      && (!Available(config, ClientAfter(config, front), run[|run| - 1].at) || fault.WhileReading?
          || fault.WhilePublishing?
          ==> after.control == before.control && after.bus.cvl == before.bus.cvl)
  {
    hide Profile.Valid, Built, Ramped, LimitsOf, AggregateOf, EverReady;
    SetupIsValid(config);
    ReadyExactly(config, start, run);
  }

  /** Between polls nothing is published. */
  lemma OtherStepsPublishNothing(config: Config, start: real, run: seq<Step>)
    requires config.Valid() && run != [] && !run[|run| - 1].Poll?
    ensures PublisherAfter(config, start, run) == PublisherAfter(config, start, run[..|run| - 1])
  {
  }

  /** Before the first poll the bus is silent, and the controller may start at the profile's maxima. */
  lemma AtTheStart(config: Config, start: real)
    requires config.Valid()
    ensures
      var p := PublisherAfter(config, start, []);
      && p.bus == Bus(false, 0.0, 0.0, None, false, false, Initializing) && !p.hasReady
      && p.control.lastCcl == SetupFor(config).curve.maxChargeCurrent
      && p.control.lastDcl == SetupFor(config).curve.maxDischargeCurrent && p.control.lastUpdateTime == start
  {
  }

  /** The profile in force: the chain's capped one, or the established curve. */
  lemma SetupExactly(config: Config)
    ensures
      var setup := SetupFor(config);
      if config.Explicit? && config.chain.profile.Some? then setup.managed && setup.curve == config.chain.profile.value
      else !setup.managed && setup.curve == DEFAULT
  {
  }
}
