/** DvccController.calculate of dvcc.py: the ceiling of all tapers, the upward ramp, the vetoes and the rounding. */
module DvccController {
  import opened Prelude
  import opened Dvcc
  import opened DvccTapers

  /**
   * An explicit profile is managed: its limits are rounded down. Without one the default curve is rounded to nearest.
   */
  datatype Setup = Setup(curve: Profile, managed: bool, cellCount: nat)

  datatype Control = Control(lastCcl: real, lastDcl: real, lastUpdateTime: real)

  datatype Inputs = Inputs(
    maxCell: Option<real>, minCell: Option<real>, maxTemp: Option<real>, minTemp: Option<real>, soc: Option<real>,
    allowCharge: bool, allowDischarge: bool)
  {
    function Delta(): Option<real> {
      if maxCell.Some? && minCell.Some? then Some(maxCell.value - minCell.value) else None
    }
  }

  datatype Limits = Limits(ccl: real, dcl: real, cvl: real)

  /** To the nearest integer, ties to the even one. */
  function RoundHalfEven(x: real): int {
    var below := x.Floor;
    var rest := x - below as real;
    if rest < 0.5 then below
    else if rest > 0.5 then below + 1
    else if below % 2 == 0 then below else below + 1
  }

  /** A current as it is published, in tenths of an ampere. */
  function Tenths(x: real, down: bool): real {
    var y := if down then (x * 10.0).Floor as real / 10.0 else x;
    RoundHalfEven(y * 10.0) as real / 10.0
  }

  /** A voltage as it is published, in hundredths of a volt. */
  function Hundredths(x: real, down: bool): real {
    var y := if down then (x * 100.0).Floor as real / 100.0 else x;
    RoundHalfEven(y * 100.0) as real / 100.0
  }

  function InitialControl(setup: Setup, now: real): Control {
    Control(setup.curve.maxChargeCurrent, setup.curve.maxDischargeCurrent, now)
  }

  function ChargeCeiling(p: Profile, input: Inputs): real
    requires p.Valid()
  {
    Least(
      Least(CclFromCellVoltage(p, input.maxCell), CclFromImbalance(p, input.Delta())),
      Least(CclFromTemperature(p, input.minTemp, input.maxTemp), CclFromSoc(p, input.soc)))
  }

  function HotDischargeLimit(p: Profile): real {
    p.maxDischargeCurrent * p.dischargeHotFactor
  }

  function DischargeCeiling(p: Profile, input: Inputs): real
    requires p.Valid()
  {
    var dcl := DclFromCellVoltage(p, input.minCell);
    if input.maxTemp.Some? && input.maxTemp.value >= p.tempStopChargeHigh
    then Least(dcl, HotDischargeLimit(p))
    else dcl
  }

  function Elapsed(since: real, now: real): real {
    if now - since < 0.0 then 0.0 else now - since
  }

  /** How far the charge limit may have risen by now. */
  function Ramp(p: Profile, since: real, now: real): real {
    p.cclChangeRate * Elapsed(since, now)
  }

  function VoltageLimit(setup: Setup): real {
    setup.curve.cellMaxVoltage * setup.cellCount as real
  }

  /** Increases follow the ramp; reductions are immediate; a veto comes last. */
  function Ramped(setup: Setup, control: Control, input: Inputs, now: real): Control
    requires setup.curve.Valid()
  {
    var ceiling := ChargeCeiling(setup.curve, input);
    var reach := control.lastCcl + Ramp(setup.curve, control.lastUpdateTime, now);
    var ccl := if ceiling > control.lastCcl then Least(ceiling, reach) else ceiling;
    Control(
      if input.allowCharge then ccl else 0.0,
      if input.allowDischarge then DischargeCeiling(setup.curve, input) else 0.0,
      now)
  }

  function LimitsOf(setup: Setup, control: Control): Limits {
    Limits(
      Tenths(control.lastCcl, setup.managed),
      Tenths(control.lastDcl, setup.managed),
      Hundredths(VoltageLimit(setup), setup.managed))
  }

  class Controller {
    const setup: Setup
    var lastCcl: real
    var lastDcl: real
    var lastUpdateTime: real

    function State(): Control
      reads this
    {
      Control(lastCcl, lastDcl, lastUpdateTime)
    }

    constructor (setup: Setup, now: real)
      ensures this.setup == setup && State() == InitialControl(setup, now)
    {
      this.setup := setup;
      lastCcl, lastDcl, lastUpdateTime := setup.curve.maxChargeCurrent, setup.curve.maxDischargeCurrent, now;
    }

    method Calculate(input: Inputs, now: real) returns (limits: Limits)
      requires setup.curve.Valid()
      modifies this
      ensures State() == Ramped(setup, old(State()), input, now)
      ensures limits == LimitsOf(setup, State())
    {
      hide CclFromCellVoltage, CclFromImbalance, CclFromTemperature, CclFromSoc, DclFromCellVoltage, HotDischargeLimit;
      hide Ramp, LimitsOf, Profile.TailFits;
      var curve := setup.curve;
      var ccl := CclFromCellVoltage(curve, input.maxCell);
      ccl := Least(ccl, CclFromImbalance(curve, input.Delta()));
      ccl := Least(ccl, Least(CclFromTemperature(curve, input.minTemp, input.maxTemp), CclFromSoc(curve, input.soc)));
      var dcl := DclFromCellVoltage(curve, input.minCell);
      if input.maxTemp.Some? && input.maxTemp.value >= curve.tempStopChargeHigh {
        dcl := Least(dcl, HotDischargeLimit(curve));
      }
      var maxChange := Ramp(curve, lastUpdateTime, now);
      lastUpdateTime := now;
      if ccl > lastCcl {
        ccl := Least(ccl, lastCcl + maxChange);
      }
      if !input.allowCharge {
        ccl := 0.0;
      }
      if !input.allowDischarge {
        dcl := 0.0;
      }
      lastCcl, lastDcl := ccl, dcl;
      limits := LimitsOf(setup, State());
    }
  }

  // ---- Rounding ---------------------------------------------------------------------------------

  lemma RoundingOfIntegers(n: int)
    ensures RoundHalfEven(n as real) == n
  {
  }

  lemma RoundingIsNear(x: real)
    ensures -0.5 <= RoundHalfEven(x) as real - x <= 0.5
    ensures x.Floor <= RoundHalfEven(x) <= x.Floor + 1
  {
  }

  /** Rounded down, a limit never exceeds what was computed and loses less than one step. */
  lemma RoundedDown(x: real)
    ensures Tenths(x, true) <= x < Tenths(x, true) + 0.1
    ensures Hundredths(x, true) <= x < Hundredths(x, true) + 0.01
    ensures 0.0 <= x ==> 0.0 <= Tenths(x, true)
  {
    RoundingOfIntegers((x * 10.0).Floor);
    RoundingOfIntegers((x * 100.0).Floor);
    assert (x * 10.0).Floor as real / 10.0 * 10.0 == (x * 10.0).Floor as real;
    assert (x * 100.0).Floor as real / 100.0 * 100.0 == (x * 100.0).Floor as real;
  }

  /** Rounded to nearest, a limit is at most half a step away. */
  lemma RoundedNear(x: real)
    ensures x - 0.05 <= Tenths(x, false) <= x + 0.05
    ensures 0.0 <= x ==> 0.0 <= Tenths(x, false)
  {
    RoundingIsNear(x * 10.0);
  }

  /** How far a published current may lie above the computed one. */
  function Slack(setup: Setup): real {
    if setup.managed then 0.0 else 0.05
  }

  /** Zero stays zero, nothing turns negative, and rounding adds at most the slack. */
  lemma PublishedCurrent(setup: Setup, x: real)
    requires 0.0 <= x
    ensures 0.0 <= Tenths(x, setup.managed) <= x + Slack(setup)
    ensures x == 0.0 ==> Tenths(x, setup.managed) == 0.0
  {
    if setup.managed {
      RoundedDown(x);
    } else {
      RoundedNear(x);
    }
  }

  // ---- What one calculation guarantees ----------------------------------------------------------

  lemma TapersInRange(p: Profile, input: Inputs)
    requires p.Valid()
    ensures 0.0 <= CclFromCellVoltage(p, input.maxCell) <= p.maxChargeCurrent
    ensures 0.0 <= CclFromImbalance(p, input.Delta()) <= p.maxChargeCurrent
    ensures 0.0 <= CclFromTemperature(p, input.minTemp, input.maxTemp) <= p.maxChargeCurrent
    ensures 0.0 <= CclFromSoc(p, input.soc) <= p.maxChargeCurrent
    ensures 0.0 <= DclFromCellVoltage(p, input.minCell) <= p.maxDischargeCurrent
  {
    if input.maxCell.Some? {
      VoltageTaperFalls(p, input.maxCell.value, input.maxCell.value);
    }
    if input.Delta().Some? {
      ImbalanceTaperFalls(p, input.Delta().value, input.Delta().value);
    }
    var high := if input.maxTemp.Some? then input.maxTemp.value else ROOM_TEMPERATURE;
    TemperatureTaperFalls(p, input.minTemp, high, high);
    if input.soc.Some? {
      SocTaperFalls(p, input.soc.value, input.soc.value);
    }
    if input.minCell.Some? {
      DischargeTaperRises(p, input.minCell.value, input.minCell.value);
    }
  }

  lemma DischargeCeilingInRange(p: Profile, input: Inputs)
    requires p.Valid()
    ensures 0.0 <= DischargeCeiling(p, input) <= DclFromCellVoltage(p, input.minCell) <= p.maxDischargeCurrent
    ensures
      var taper, hot := DclFromCellVoltage(p, input.minCell), p.maxDischargeCurrent * p.dischargeHotFactor;
      if input.maxTemp.Some? && input.maxTemp.value >= p.tempStopChargeHigh
      then DischargeCeiling(p, input) <= hot
          && (DischargeCeiling(p, input) == taper || DischargeCeiling(p, input) == hot)
      else DischargeCeiling(p, input) == taper
  {
    hide DclFromCellVoltage, Profile.TailFits, CclFromCellVoltage, CclFromImbalance, CclFromTemperature, CclFromSoc;
    TapersInRange(p, input);
    Part(p.maxDischargeCurrent, p.dischargeHotFactor, HotDischargeLimit(p));
  }

  /** The ceiling is no higher than any taper and equals one of them. */
  lemma CeilingIsTheLowestTaper(p: Profile, input: Inputs)
    requires p.Valid()
    ensures IsLeast(ChargeCeiling(p, input),
                    {CclFromCellVoltage(p, input.maxCell), CclFromImbalance(p, input.Delta()),
                     CclFromTemperature(p, input.minTemp, input.maxTemp), CclFromSoc(p, input.soc)})
    ensures 0.0 <= ChargeCeiling(p, input) <= p.maxChargeCurrent
  {
    hide CclFromCellVoltage, CclFromImbalance, CclFromTemperature, CclFromSoc, DclFromCellVoltage, Profile.TailFits;
    TapersInRange(p, input);
  }

  lemma RampIsPositive(p: Profile, since: real, now: real)
    requires p.Valid()
    ensures 0.0 <= Ramp(p, since, now)
  {
    hide Profile.TailFits;
    Scale(p.cclChangeRate, 0.0, Elapsed(since, now), 0.0, Ramp(p, since, now));
  }

  /**
   * After any calculation the charge limit is at once below every fresh ceiling and within the ramp from
   * the previous limit; a reduction is taken in full, and so is a rise that the ramp allows.
   */
  lemma RampedLimits(setup: Setup, control: Control, input: Inputs, now: real)
    requires setup.curve.Valid() && 0.0 <= control.lastCcl
    ensures
      var after, ceiling := Ramped(setup, control, input, now), ChargeCeiling(setup.curve, input);
      && after.lastUpdateTime == now
      && 0.0 <= after.lastCcl <= ceiling <= setup.curve.maxChargeCurrent
      && after.lastCcl <= control.lastCcl + Ramp(setup.curve, control.lastUpdateTime, now)
      && (input.allowCharge && ceiling <= control.lastCcl + Ramp(setup.curve, control.lastUpdateTime, now)
          ==> after.lastCcl == ceiling)
      && (!input.allowCharge ==> after.lastCcl == 0.0)
      && 0.0 <= after.lastDcl <= DischargeCeiling(setup.curve, input) <= setup.curve.maxDischargeCurrent
      && (input.allowDischarge ==> after.lastDcl == DischargeCeiling(setup.curve, input))
      && (!input.allowDischarge ==> after.lastDcl == 0.0)
  {
    hide ChargeCeiling, DischargeCeiling, Ramp, Profile.TailFits;
    CeilingIsTheLowestTaper(setup.curve, input);
    DischargeCeilingInRange(setup.curve, input);
    RampIsPositive(setup.curve, control.lastUpdateTime, now);
  }

  /** Waiting in two steps allows the same rise as waiting at once. */
  lemma RampsAdd(p: Profile, t0: real, t1: real, t2: real)
    requires t0 <= t1 <= t2
    ensures Ramp(p, t0, t1) + Ramp(p, t1, t2) == Ramp(p, t0, t2)
  {
  }
}
