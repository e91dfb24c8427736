/** dvcc.py: the control curve of a LiFePO4 string, its five tapers and the stateful controller. */
module Dvcc {
  import opened Prelude

  datatype Profile = Profile(
    maxChargeCurrent: real, maxDischargeCurrent: real, minChargeCurrent: real, cellMaxVoltage: real,
    cellFullCurrent: real, cellStartLimit: real, cellBalanceVoltage: real, cellNearFull: real, cellCutoff: real,
    chargeBalanceFactor: real,
    imbalanceStartLimit: real, imbalanceAggressive: real, imbalanceCritical: real, imbalanceAggressiveFactor: real,
    tempFullCurrentMin: real, tempFullCurrentMax: real, tempStopCharge: real, tempStopChargeHigh: real,
    coldChargeFactor: real, hotChargeMinFactor: real,
    socReduceStart: real, socReduceFactor: real,
    dischargeCellFullCurrent: real, dischargeCellStartLimit: real, dischargeCellCutoff: real,
    dischargeLowFactor: real, dischargeHotFactor: real,
    cclChangeRate: real)
  {
    /** The checks of the profile's constructor; a profile that fails them cannot be built. */
    predicate Valid() {
      && maxChargeCurrent > 0.0 && maxDischargeCurrent > 0.0 && cclChangeRate > 0.0
      && 0.0 < dischargeCellCutoff < dischargeCellStartLimit < dischargeCellFullCurrent < cellFullCurrent
      && cellFullCurrent <= cellStartLimit < cellBalanceVoltage < cellNearFull < cellCutoff <= cellMaxVoltage
      && 0.0 <= imbalanceStartLimit < imbalanceAggressive < imbalanceCritical
      && -273.15 < tempStopCharge < tempFullCurrentMin <= tempFullCurrentMax < tempStopChargeHigh
      && 0.0 <= socReduceStart < 100.0
      && 0.0 < chargeBalanceFactor <= 1.0 && 0.0 < imbalanceAggressiveFactor <= 1.0
      && 0.0 <= coldChargeFactor <= 1.0 && 0.0 <= hotChargeMinFactor <= 1.0 && 0.0 <= socReduceFactor <= 1.0
      && 0.0 <= dischargeLowFactor <= 1.0 && 0.0 <= dischargeHotFactor <= 1.0
      && TailFits()
    }

    /** The tail current exceeds neither charge taper's ceiling. */
    predicate TailFits() {
      0.0 <= minChargeCurrent <= maxChargeCurrent * Least(chargeBalanceFactor, imbalanceAggressiveFactor)
    }

    /** The current at which balancing starts, and its counterparts on the other curves. */
    function BalanceShare(): real {
      maxChargeCurrent * chargeBalanceFactor
    }

    function ImbalanceShare(): real {
      maxChargeCurrent * imbalanceAggressiveFactor
    }

    function SocShare(): real {
      maxChargeCurrent * socReduceFactor
    }

    function LowDischargeShare(): real {
      maxDischargeCurrent * dischargeLowFactor
    }
  }

  /** The established curve, used when no profile is configured. */
  const DEFAULT: Profile := Profile(
    100.0, 120.0, 2.0, 3.65,
    3.40, 3.45, 3.50, 3.55, 3.60,
    0.20,
    0.05, 0.10, 0.20, 0.30,
    10.0, 40.0, 0.0, 50.0,
    0.5, 0.2,
    95.0, 0.5,
    3.0, 2.9, 2.7,
    0.5, 0.5,
    10.0)

  // ---- The tapers -------------------------------------------------------------------------------

  /** How far x has come on the way from a to b. */
  function Ratio(x: real, a: real, b: real): real
    requires a < b
  {
    (x - a) / (b - a)
  }

  function CclFromCellVoltage(p: Profile, maxCell: Option<real>): real
    requires p.Valid()
  {
    if maxCell.None? then p.maxChargeCurrent else
    var v := maxCell.value;
    if v <= p.cellFullCurrent then p.maxChargeCurrent
    else if v >= p.cellCutoff then 0.0
    else if v >= p.cellNearFull then
      var ccl := p.minChargeCurrent * (1.0 - Ratio(v, p.cellNearFull, p.cellCutoff));
      if ccl < 0.0 then 0.0 else ccl
    else if v >= p.cellBalanceVoltage then
      p.minChargeCurrent
      + (p.maxChargeCurrent * p.chargeBalanceFactor - p.minChargeCurrent)
          * (1.0 - Ratio(v, p.cellBalanceVoltage, p.cellNearFull))
    else if v >= p.cellStartLimit then
      p.maxChargeCurrent
      * (p.chargeBalanceFactor + (1.0 - p.chargeBalanceFactor)
          * (1.0 - Ratio(v, p.cellStartLimit, p.cellBalanceVoltage)))
    else p.maxChargeCurrent
  }

  function CclFromImbalance(p: Profile, delta: Option<real>): real
    requires p.Valid()
  {
    if delta.None? || delta.value < 0.0 then p.maxChargeCurrent else
    var d := delta.value;
    if d <= p.imbalanceStartLimit then p.maxChargeCurrent
    else if d >= p.imbalanceCritical then p.minChargeCurrent
    else if d >= p.imbalanceAggressive then
      p.minChargeCurrent
      + (p.maxChargeCurrent * p.imbalanceAggressiveFactor - p.minChargeCurrent)
          * (1.0 - Ratio(d, p.imbalanceAggressive, p.imbalanceCritical))
    else
      p.maxChargeCurrent
      * (p.imbalanceAggressiveFactor
          + (1.0 - p.imbalanceAggressiveFactor) * (1.0 - Ratio(d, p.imbalanceStartLimit, p.imbalanceAggressive)))
  }

  const ROOM_TEMPERATURE: real := 25.0

  function HotFactor(p: Profile, maxTemp: real): real
    requires p.Valid()
  {
    var factor := 1.0 - Ratio(maxTemp, p.tempFullCurrentMax, p.tempStopChargeHigh);
    if factor < p.hotChargeMinFactor then p.hotChargeMinFactor else factor
  }

  /** Nothing at the stop temperature, rising towards the cold share of the maximum. */
  function ColdLimit(p: Profile, low: real): real
    requires p.Valid()
  {
    p.maxChargeCurrent * Ratio(low, p.tempStopCharge, p.tempFullCurrentMin) * p.coldChargeFactor
  }

  function HotLimit(p: Profile, high: real): real
    requires p.Valid()
  {
    p.maxChargeCurrent * HotFactor(p, high)
  }

  function CclFromTemperature(p: Profile, minTemp: Option<real>, maxTemp: Option<real>): real
    requires p.Valid()
  {
    var low := if minTemp.Some? then minTemp.value else ROOM_TEMPERATURE;
    var high := if maxTemp.Some? then maxTemp.value else ROOM_TEMPERATURE;
    if low <= p.tempStopCharge then 0.0
    else if high >= p.tempStopChargeHigh then 0.0
    else if low < p.tempFullCurrentMin then ColdLimit(p, low)
    else if high > p.tempFullCurrentMax then HotLimit(p, high)
    else p.maxChargeCurrent
  }

  function CclFromSoc(p: Profile, soc: Option<real>): real
    requires p.Valid()
  {
    if soc.None? || soc.value < p.socReduceStart then p.maxChargeCurrent
    else if soc.value >= 100.0 then p.maxChargeCurrent * p.socReduceFactor
    else p.maxChargeCurrent * (1.0 - Ratio(soc.value, p.socReduceStart, 100.0) * (1.0 - p.socReduceFactor))
  }

  function DclFromCellVoltage(p: Profile, minCell: Option<real>): real
    requires p.Valid()
  {
    if minCell.None? then p.maxDischargeCurrent else
    var v := minCell.value;
    if v >= p.dischargeCellFullCurrent then p.maxDischargeCurrent
    else if v <= p.dischargeCellCutoff then 0.0
    else if v <= p.dischargeCellStartLimit then
      p.maxDischargeCurrent * Ratio(v, p.dischargeCellCutoff, p.dischargeCellStartLimit) * p.dischargeLowFactor
    else
      p.maxDischargeCurrent
      * (p.dischargeLowFactor + (1.0 - p.dischargeLowFactor)
          * Ratio(v, p.dischargeCellStartLimit, p.dischargeCellFullCurrent))
  }
}
