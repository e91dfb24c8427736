/** Exactly when a published limit can rise: before the first limits, and after a stale period. */
module Rises {
  import opened Prelude
  import opened BmsData
  import opened Dvcc
  import opened DvccTapers
  import opened DvccController
  import opened Packs
  import opened MqttClient
  import opened Sessions
  import opened Service
  import opened Readings
  import opened Publishing
  import opened Scenarios

  // ---- Data that a client can deliver ------------------------------------------------------------------------

  /** Sensors above the fault value, a state of charge in percent, cells with a voltage. */
  predicate Receivable(data: Aggregate) {
    && SENSOR_FAULT < data.minTemp <= data.maxTemp && 0.0 <= data.soc <= 100.0
    && (data.minCell.Some? <==> data.maxCell.Some?)
    && (data.minCell.Some? ==> 0.0 < data.minCell.value <= data.maxCell.value)
  }

  lemma ExtremesInOrder(values: set<real>, low: real)
    requires values != {} && forall x | x in values :: low < x
    ensures low < Minimum(values) <= Maximum(values)
  {
  }

  /** Every complete aggregate that a client hands out is of this kind. */
  lemma DeliveredIsReceivable(config: Config, c: Client, now: real)
    requires |c.batteries| == config.Count() > 0 && Available(config, c, now)
    ensures Receivable(AggregateOf(config, c, now).value)
  {
    hide Minimum, Maximum, CellVoltages, SensorValues, SocValues, Summable, Battery.Usable;
    var snapshots := Snapshots(c.batteries, now);
    SnapshotsAreUsable(c.batteries, now);
    forall n | 0 <= n < |snapshots| ensures snapshots[n].battery.Usable(now) {
      assert snapshots[n] in snapshots;
    }
    UsableIsSummable(snapshots, now);
    CellsArePositive(snapshots);
    SensorsAreAboveTheFault(snapshots);
    SocsArePercentages(snapshots, now);
    if CellVoltages(snapshots) != {} {
      ExtremesInOrder(CellVoltages(snapshots), 0.0);
    }
    SensorsAreThere(snapshots);
    ExtremesInOrder(SensorValues(snapshots), SENSOR_FAULT);
  }

  lemma CellsArePositive(snapshots: seq<Snapshot>)
    ensures forall x | x in CellVoltages(snapshots) :: 0.0 < x
  {
  }

  lemma SensorsAreAboveTheFault(snapshots: seq<Snapshot>)
    ensures forall x | x in SensorValues(snapshots) :: SENSOR_FAULT < x
  {
  }

  lemma SensorsAreThere(snapshots: seq<Snapshot>)
    requires Summable(snapshots)
    ensures SensorValues(snapshots) != {}
  {
  }

  lemma SocsArePercentages(snapshots: seq<Snapshot>, now: real)
    requires Summable(snapshots) && forall n | 0 <= n < |snapshots| :: snapshots[n].battery.Usable(now)
    ensures SocValues(snapshots) != {} && 0.0 <= Minimum(SocValues(snapshots)) <= 100.0
  {
    hide SensorValues, Oldest;
    assert snapshots[0].battery.soc.value in SocValues(snapshots);
    assert Minimum(SocValues(snapshots)) in SocValues(snapshots);
  }

  // ---- Rounding keeps the order ---------------------------------------------------------------------------

  lemma RoundingKeepsOrder(x: real, y: real)
    requires x <= y
    ensures RoundHalfEven(x) <= RoundHalfEven(y)
  {
    assert x.Floor <= y.Floor;
  }

  lemma TenthsKeepOrder(x: real, y: real, down: bool)
    requires x <= y
    ensures Tenths(x, down) <= Tenths(y, down)
  {
    hide RoundHalfEven;
    var x' := if down then (x * 10.0).Floor as real / 10.0 else x;
    var y' := if down then (y * 10.0).Floor as real / 10.0 else y;
    assert (x * 10.0).Floor <= (y * 10.0).Floor;
    assert x' <= y';
    RoundingKeepsOrder(x' * 10.0, y' * 10.0);
  }

  /** What is published as something: at least a whole step when rounding down, more than half a step otherwise. */
  lemma TenthsArePositive(x: real, down: bool)
    requires 0.0 <= x
    ensures Tenths(x, down) > 0.0 <==> if down then x >= 0.1 else x > 0.05
  {
  }

  // ---- The most that receivable data allow ------------------------------------------------------------------------

  /**
   * No receivable data allow more charge current than this: the maximum, unless every temperature above the
   * sensors' fault value is already a hot one.
   */
  function BestCharge(p: Profile): real
    requires p.Valid()
  {
    if SENSOR_FAULT < p.tempFullCurrentMax then p.maxChargeCurrent
    else if SENSOR_FAULT < p.tempStopChargeHigh then HotLimit(p, SENSOR_FAULT)
    else 0.0
  }

  /** Some receivable data allow just that much, not only almost. */
  predicate BestIsReached(p: Profile)
    requires p.Valid()
  {
    SENSOR_FAULT < p.tempFullCurrentMax
        || (SENSOR_FAULT < p.tempStopChargeHigh && HotFactor(p, SENSOR_FAULT) == p.hotChargeMinFactor)
  }

  function BestDischarge(p: Profile): real {
    if SENSOR_FAULT < p.tempStopChargeHigh then p.maxDischargeCurrent else HotDischargeLimit(p)
  }

  lemma HotterIsLower(p: Profile, high: real)
    requires p.Valid() && p.tempFullCurrentMax <= SENSOR_FAULT < high < p.tempStopChargeHigh
    ensures HotLimit(p, high) <= HotLimit(p, SENSOR_FAULT)
    ensures HotFactor(p, SENSOR_FAULT) == p.hotChargeMinFactor ==> HotLimit(p, high) == HotLimit(p, SENSOR_FAULT)
    ensures HotFactor(p, SENSOR_FAULT) != p.hotChargeMinFactor ==> HotLimit(p, high) < HotLimit(p, SENSOR_FAULT)
  {
    hide Profile.TailFits, Ratio;
    HotLimitFalls(p, SENSOR_FAULT, high);
    var a, b := p.tempFullCurrentMax, p.tempStopChargeHigh;
    RatioTimes(SENSOR_FAULT, a, b);
    RatioTimes(high, a, b);
    var cool, hot := Ratio(SENSOR_FAULT, a, b), Ratio(high, a, b);
    if hot <= cool {
      Scale(b - a, hot, cool, high - a, SENSOR_FAULT - a);
    }
    var k, f, f' := p.maxChargeCurrent, HotFactor(p, SENSOR_FAULT), HotFactor(p, high);
    if f' < f {
      MoreIsMore(k, f', f, HotLimit(p, high), HotLimit(p, SENSOR_FAULT));
    }
  }

  lemma TemperatureAllowsBest(p: Profile, low: real, high: real)
    requires p.Valid() && SENSOR_FAULT < low <= high
    ensures CclFromTemperature(p, Some(low), Some(high)) <= BestCharge(p)
    ensures CclFromTemperature(p, Some(low), Some(high)) == BestCharge(p) > 0.0 ==> BestIsReached(p)
  {
    hide Profile.TailFits, HotLimit, HotFactor, ColdLimit;
    TemperatureTaperFalls(p, Some(low), high, high);
    if p.tempFullCurrentMax <= SENSOR_FAULT < p.tempStopChargeHigh {
      HotLimitFalls(p, SENSOR_FAULT, SENSOR_FAULT);
      if high < p.tempStopChargeHigh {
        HotterIsLower(p, high);
      }
    }
  }

  lemma NoMoreThanBest(p: Profile, data: Aggregate)
    requires p.Valid() && Receivable(data)
    ensures ChargeCeiling(p, InputsOf(data)) <= BestCharge(p)
    ensures ChargeCeiling(p, InputsOf(data)) == BestCharge(p) > 0.0 ==> BestIsReached(p)
    ensures DischargeCeiling(p, InputsOf(data)) <= BestDischarge(p)
  {
    hide Profile.TailFits, BestCharge, BestIsReached, CclFromTemperature, CclFromCellVoltage, CclFromImbalance;
    hide CclFromSoc, DclFromCellVoltage;
    DischargeCeilingInRange(p, InputsOf(data));
    TemperatureAllowsBest(p, data.minTemp, data.maxTemp);
  }

  /** Resting cells, an empty battery, and one temperature: nothing but the temperature reduces a limit. */
  function Easy(p: Profile, t: real, partial: bool): Aggregate {
    Aggregate(true, 0.0, partial, 0.0, Some(p.dischargeCellFullCurrent), Some(p.dischargeCellFullCurrent), t, t, true,
        true)
  }

  lemma EasyCeilings(p: Profile, t: real, partial: bool)
    requires p.Valid() && SENSOR_FAULT < t
    ensures Receivable(Easy(p, t, partial))
    ensures ChargeCeiling(p, InputsOf(Easy(p, t, partial))) == CclFromTemperature(p, Some(t), Some(t))
    ensures t < p.tempStopChargeHigh ==> DischargeCeiling(p, InputsOf(Easy(p, t, partial))) == p.maxDischargeCurrent
    ensures t >= p.tempStopChargeHigh ==> DischargeCeiling(p, InputsOf(Easy(p, t, partial))) == HotDischargeLimit(p)
  {
    hide Profile.TailFits, CclFromTemperature;
    TemperatureTaperFalls(p, Some(t), t, t);
    DischargeCeilingInRange(p, InputsOf(Easy(p, t, partial)));
    Part(p.maxDischargeCurrent, p.dischargeHotFactor, HotDischargeLimit(p));
    EmptyIsNotReduced(p);
  }

  lemma EmptyIsNotReduced(p: Profile)
    requires p.Valid()
    ensures CclFromSoc(p, Some(0.0)) == p.maxChargeCurrent
  {
    hide Profile.TailFits;
  }

  /** A temperature at which a hot limit takes a given share of the maximum. */
  lemma HotShare(p: Profile, share: real) returns (t: real)
    requires p.Valid() && 0.0 < share < 1.0 - Ratio(SENSOR_FAULT, p.tempFullCurrentMax, p.tempStopChargeHigh)
    requires p.tempFullCurrentMax <= SENSOR_FAULT < p.tempStopChargeHigh
    ensures SENSOR_FAULT < t < p.tempStopChargeHigh && HotFactor(p, t) >= share
  {
    hide Profile.TailFits, Ratio;
    var a, b := p.tempFullCurrentMax, p.tempStopChargeHigh;
    var w := b - a;
    var part, cool := share * w, Ratio(SENSOR_FAULT, a, b);
    t := b - part;
    RatioTimes(SENSOR_FAULT, a, b);
    RatioTimes(t, a, b);
    MoreIsMore(w, 0.0, share, 0.0, part);
    MoreIsMore(w, share, 1.0 - cool, part, w - (SENSOR_FAULT - a));
    assert (1.0 - share) * w == w - part;
    SameFactor(w, Ratio(t, a, b), 1.0 - share);
  }

  /** Anything less than the best is exceeded by some receivable data. */
  lemma BestIsApproached(p: Profile, y: real) returns (t: real)
    requires p.Valid() && 0.0 <= y < BestCharge(p)
    ensures SENSOR_FAULT < t && CclFromTemperature(p, Some(t), Some(t)) > y
    ensures BestIsReached(p) ==> CclFromTemperature(p, Some(t), Some(t)) == BestCharge(p)
  {
    hide Profile.TailFits, HotLimit, HotFactor, ColdLimit, Ratio;
    if SENSOR_FAULT < p.tempFullCurrentMax {
      t := p.tempFullCurrentMax;
    } else if HotFactor(p, SENSOR_FAULT) == p.hotChargeMinFactor {
      t := (SENSOR_FAULT + p.tempStopChargeHigh) / 2.0;
      HotterIsLower(p, t);
    } else {
      t := BelowTheHotLimit(p, y);
    }
  }

  lemma BelowTheHotLimit(p: Profile, y: real) returns (t: real)
    requires p.Valid() && p.tempFullCurrentMax <= SENSOR_FAULT < p.tempStopChargeHigh
    requires HotFactor(p, SENSOR_FAULT) != p.hotChargeMinFactor && 0.0 <= y < HotLimit(p, SENSOR_FAULT)
    ensures SENSOR_FAULT < t < p.tempStopChargeHigh && HotLimit(p, t) > y
  {
    hide Profile.TailFits, Ratio;
    var k, full := p.maxChargeCurrent, HotFactor(p, SENSOR_FAULT);
    var share := y / k;
    assert k * share == y;
    Cancel(k, 0.0, share);
    if full <= share {
      Scale(k, full, share, HotLimit(p, SENSOR_FAULT), y);
    }
    var more := (share + full) / 2.0;
    t := HotShare(p, more);
    MoreIsMore(k, share, HotFactor(p, t), y, HotLimit(p, t));
  }

  /** Any limit can be reached in time. */
  lemma TimeToReach(p: Profile, since: real) returns (now: real)
    requires p.Valid()
    ensures Ramp(p, since, now) >= p.maxChargeCurrent
  {
    hide Profile.TailFits;
    var needed := p.maxChargeCurrent / p.cclChangeRate;
    assert p.cclChangeRate * needed == p.maxChargeCurrent;
    now := since + needed;
    assert now - since == needed;
  }

  // ---- Before the first published limits ----------------------------------------------------------------------

  /** What an update can find: nothing usable, or something that a client delivers, from partial frames. */
  predicate Partial(data: Option<Aggregate>) {
    data.Some? && data.value.dataComplete ==> data.value.partial && Receivable(data.value)
  }

  /** No update from partial or missing data raises a limit. */
  ghost predicate HoldsBack(setup: Setup, p: Publisher)
    requires setup.curve.Valid()
  {
    forall data, now, fault | Partial(data) :: !Raises(setup, p, data, now, fault)
  }

  predicate Raises(setup: Setup, p: Publisher, data: Option<Aggregate>, now: real, fault: Fault)
    requires setup.curve.Valid()
  {
    Updated(setup, p, data, now, fault).bus.ccl > p.bus.ccl || Updated(setup, p, data, now, fault).bus.dcl > p.bus.dcl
  }

  /** Some receivable data have a charge limit that does not round to nothing. */
  predicate ChargePublishable(setup: Setup)
    requires setup.curve.Valid()
  {
    if setup.managed then BestCharge(setup.curve) > 0.1
        || (BestCharge(setup.curve) == 0.1 && BestIsReached(setup.curve))
    else BestCharge(setup.curve) > 0.05
  }

  /** Whatever is received, both limits round to nothing. */
  predicate Negligible(setup: Setup)
    requires setup.curve.Valid()
  {
    !ChargePublishable(setup) && Tenths(BestDischarge(setup.curve), setup.managed) <= 0.0
  }

  /** Partial data raise no limit, in whatever state, exactly when limits were published before or round to nothing. */
  lemma HoldsBackExactly(setup: Setup, p: Publisher)
    requires setup.curve.Valid() && Safe(setup, p)
    ensures HoldsBack(setup, p) <==> p.hasReady || Negligible(setup)
  {
    hide Profile.Valid, Updated, Safe, Negligible, Receivable;
    if p.hasReady || Negligible(setup) {
      forall data, now, fault | Partial(data) ensures !Raises(setup, p, data, now, fault) {
        if p.hasReady {
          PartialUpdatesNeverRaise(setup, p, data, now, fault);
        } else {
          NegligibleStays(setup, p, data, now, fault);
        }
      }
    } else {
      var data, now := FirstLimitsRise(setup, p);
      assert Raises(setup, p, Some(data), now, NoFault);
    }
  }

  lemma NegligibleStays(setup: Setup, p: Publisher, data: Option<Aggregate>, now: real, fault: Fault)
    requires setup.curve.Valid() && Safe(setup, p) && Negligible(setup) && Partial(data)
    ensures !Raises(setup, p, data, now, fault)
  {
    hide Profile.Valid, Ramped, Tenths, Hundredths, Receivable, BestCharge, BestDischarge, ChargeCeiling;
    hide DischargeCeiling;
    if data.Some? && data.value.dataComplete {
      var after := Ramped(setup, p.control, InputsOf(data.value), now);
      FreshLimits(setup, p.control, InputsOf(data.value), now);
      RampedLimits(setup, p.control, InputsOf(data.value), now);
      NoMoreThanBest(setup.curve, data.value);
      TenthsKeepOrder(after.lastDcl, BestDischarge(setup.curve), setup.managed);
      TenthsArePositive(after.lastCcl, setup.managed);
    }
  }

  /** The very first complete picture may come from a partial frame, and then nothing holds it back. */
  lemma FirstLimitsRise(setup: Setup, p: Publisher) returns (data: Aggregate, now: real)
    requires setup.curve.Valid() && Safe(setup, p) && !p.hasReady && !Negligible(setup)
    ensures Partial(Some(data)) && Raises(setup, p, Some(data), now, NoFault)
  {
    hide Profile.Valid, Tenths, Hundredths, ChargeCeiling, DischargeCeiling, Ramp, BestCharge, BestIsReached, Ramped;
    hide Receivable;
    now := TimeToReach(setup.curve, p.control.lastUpdateTime);
    if ChargePublishable(setup) {
      var least := if !setup.managed then 0.05 else if BestCharge(setup.curve) > 0.1 then 0.1 else 0.0;
      var t := BestIsApproached(setup.curve, least);
      data := Easy(setup.curve, t, true);
      EasyCeilings(setup.curve, t, true);
      TenthsArePositive(ChargeCeiling(setup.curve, InputsOf(data)), setup.managed);
    } else {
      var t := if SENSOR_FAULT < setup.curve.tempStopChargeHigh
          then (SENSOR_FAULT + setup.curve.tempStopChargeHigh) / 2.0 else SENSOR_FAULT + 1.0;
      data := Easy(setup.curve, t, true);
      EasyCeilings(setup.curve, t, true);
    }
    Arrived(setup, p.control, InputsOf(data), now);
    FreshLimits(setup, p.control, InputsOf(data), now);
  }

  /** When the ramp reaches the maximum, the limits are the ceilings. */
  lemma Arrived(setup: Setup, control: Control, input: Inputs, now: real)
    requires setup.curve.Valid() && 0.0 <= control.lastCcl && input.allowCharge && input.allowDischarge
    requires Ramp(setup.curve, control.lastUpdateTime, now) >= setup.curve.maxChargeCurrent
    ensures Ramped(setup, control, input, now).lastCcl == ChargeCeiling(setup.curve, input)
    ensures Ramped(setup, control, input, now).lastDcl == DischargeCeiling(setup.curve, input)
  {
    hide Profile.Valid, ChargeCeiling, DischargeCeiling, Ramp;
    CeilingIsTheLowestTaper(setup.curve, input);
  }

  // ---- After a stale period -------------------------------------------------------------------------------------

  /**
   * Whatever is received after the stale period, the calculated limit is one that a ramp from zero could have
   * reached.
   */
  ghost predicate RestartsFromZero(setup: Setup, control: Control, now: real)
    requires setup.curve.Valid()
  {
    forall data | Receivable(data) ::
        Ramped(setup, control, InputsOf(data), now).lastCcl <= Ramp(setup.curve, control.lastUpdateTime, now)
  }

  /**
   * A stale period leaves the controller alone, so that its ramp restarts from zero exactly when it stood there, or
   * by now reaches all that receivable data allow.
   */
  lemma RestartsFromZeroExactly(setup: Setup, p: Publisher, now: real)
    requires setup.curve.Valid() && Safe(setup, p)
    ensures Unavailable(p).control == p.control
    ensures RestartsFromZero(setup, p.control, now)
       <==> p.control.lastCcl == 0.0 || BestCharge(setup.curve) <= Ramp(setup.curve, p.control.lastUpdateTime, now)
  {
    hide Profile.Valid, Ramp, ChargeCeiling, DischargeCeiling, Ramped, Tenths, Hundredths, BestCharge, Receivable;
    var control, ramp := p.control, Ramp(setup.curve, p.control.lastUpdateTime, now);
    RampIsPositive(setup.curve, control.lastUpdateTime, now);
    if control.lastCcl == 0.0 || BestCharge(setup.curve) <= ramp {
      forall data | Receivable(data) ensures Ramped(setup, control, InputsOf(data), now).lastCcl <= ramp {
        RampedLimits(setup, control, InputsOf(data), now);
        NoMoreThanBest(setup.curve, data);
      }
    } else {
      var t := BestIsApproached(setup.curve, ramp);
      EasyCeilings(setup.curve, t, false);
      AboveTheRamp(setup, control, InputsOf(Easy(setup.curve, t, false)), now);
      assert Receivable(Easy(setup.curve, t, false));
    }
  }

  lemma AboveTheRamp(setup: Setup, control: Control, input: Inputs, now: real)
    requires setup.curve.Valid() && control.lastCcl > 0.0 && input.allowCharge
    requires ChargeCeiling(setup.curve, input) > Ramp(setup.curve, control.lastUpdateTime, now)
    ensures Ramped(setup, control, input, now).lastCcl > Ramp(setup.curve, control.lastUpdateTime, now)
  {
    hide Profile.Valid, Ramp, ChargeCeiling, DischargeCeiling;
  }

  // ---- A run with a stale period ------------------------------------------------------------------------------------

  /** One complete frame, a poll while it is fresh and one when it is not, the next frame, and a poll. */
  const GAP: seq<Step> :=
    [Arrives(MILD, 1, true, 0.0), Poll(59.5, NoFault), Poll(60.0, NoFault), Arrives(MILD, 2, true, 60.25),
        Poll(60.5, NoFault)]

  const CURVE: Setup := Setup(DEFAULT, false, 4)

  lemma GapPrefixes()
    ensures GAP[..5] == GAP && GAP[..0] == []
    ensures forall n | 0 < n <= 5 ::
        GAP[..n][..n - 1] == GAP[..n - 1] && |GAP[..n]| == n && GAP[..n][n - 1] == GAP[n - 1]
  {
    assert |GAP| == 5;
  }

  lemma GapClients()
    ensures ClientAfter(PACK, GAP[..1]).batteries == ClientAfter(PACK, GAP[..2]).batteries == [Pack(0.0)]
    ensures !ClientAfter(PACK, GAP[..1]).partial && ClientAfter(PACK, GAP[..2]) == ClientAfter(PACK, GAP[..1])
    ensures ClientAfter(PACK, GAP[..4]).batteries == [Pack(60.25)] && !ClientAfter(PACK, GAP[..4]).partial
  {
    hide Pack, MqttClient.Next;
    GapPrefixes();
    assert ClientAfter(PACK, GAP[..0]) == InitialClient(PACK);
    CompleteFrame(InitialClient(PACK), 1, 0.0);
    var c := AfterOne(0.0);
    assert ClientAfter(PACK, GAP[..1]) == c;
    assert ClientAfter(PACK, GAP[..2]) == c;
    assert ClientAfter(PACK, GAP[..3]) == c;
    CompleteFrame(c, 2, 60.25);
  }

  lemma MildPublishes(p: Publisher, at: real, now: real)
    requires p.control.lastCcl == 100.0
    ensures DEFAULT.Valid() && Updated(CURVE, p, Some(Mild(at)), now, NoFault).bus.connected
    ensures Updated(CURVE, p, Some(Mild(at)), now, NoFault).bus.ccl == 100.0
    ensures Updated(CURVE, p, Some(Mild(at)), now, NoFault).control.lastCcl == 100.0
  {
    hide Hundredths;
  }

  /**
   * With the default curve 100 A are published half a second after a stale poll, although the rate is 10 A a second.
   */
  lemma StalePeriodDoesNotRestartTheRamp()
    ensures PACK.Valid()
    ensures
      && PublisherAfter(PACK, 0.0, GAP[..2]).bus.connected && PublisherAfter(PACK, 0.0, GAP[..2]).bus.ccl == 100.0
      && !PublisherAfter(PACK, 0.0, GAP[..3]).bus.connected && PublisherAfter(PACK, 0.0, GAP[..3]).bus.ccl == 0.0
      && PublisherAfter(PACK, 0.0, GAP).bus.connected && PublisherAfter(PACK, 0.0, GAP).bus.ccl == 100.0
      && Ramp(DEFAULT, 59.5, 60.5) == 10.0
  {
    hide ClientAfter, AggregateOf, Updated, Pack;
    GapPrefixes();
    GapClients();
    assert SetupFor(PACK) == CURVE;
    FreshPoll(ClientAfter(PACK, GAP[..1]), 0.0, 59.5);
    StalePoll(ClientAfter(PACK, GAP[..2]), 0.0, 60.0);
    FreshPoll(ClientAfter(PACK, GAP[..4]), 60.25, 60.5);
    var p0 := InitialPublisher(CURVE, 0.0);
    assert PublisherAfter(PACK, 0.0, GAP[..0]) == p0 && p0.control.lastCcl == 100.0;
    assert PublisherAfter(PACK, 0.0, GAP[..1]) == p0;
    MildPublishes(p0, 0.0, 59.5);
    var p2 := PublisherAfter(PACK, 0.0, GAP[..2]);
    assert p2 == Updated(CURVE, p0, Some(Mild(0.0)), 59.5, NoFault);
    NothingToPublish(p2, 60.0);
    var p3 := PublisherAfter(PACK, 0.0, GAP[..3]);
    assert p3 == Updated(CURVE, p2, None, 60.0, NoFault);
    assert PublisherAfter(PACK, 0.0, GAP[..4]) == p3;
    MildPublishes(p3, 60.25, 60.5);
  }

  lemma NothingToPublish(p: Publisher, now: real)
    requires DEFAULT.Valid()
    ensures
      var stale := Updated(CURVE, p, None, now, NoFault);
      !stale.bus.connected && stale.bus.ccl == 0.0 && stale.control == p.control
  {
  }
}
