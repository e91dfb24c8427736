/** What one reading of the chain says of the packs behind it, reading by reading and cell by cell. */
module Readout {
  import opened Prelude
  import opened BmsData
  import opened Topology
  import opened Packs
  import opened Electrical
  import opened MqttClient

  ghost predicate AllShown(config: Config, c: Client, now: real) {
    |c.batteries| == config.Count() && forall i | 0 <= i < config.Count() :: Shown(c.batteries[i], now)
  }

  /** A positive voltage of some cell of some pack. */
  ghost predicate CellReads(c: Client, i: int, cell: Index, v: real) {
    0 <= i < |c.batteries| && cell in c.batteries[i].cells && c.batteries[i].cells[cell] == v && v > 0.0
  }

  /** A sensor of some pack that does not report its fault value. */
  ghost predicate SensorReads(c: Client, i: int, sensor: Index, t: real) {
    && 0 <= i < |c.batteries| && sensor in c.batteries[i].temperatures && c.batteries[i].temperatures[sensor] == t
    && t > -40.0
  }

  /** The extremes of the cells: each one is some cell's, and no cell lies outside. */
  ghost predicate CellExtremes(c: Client, least: Option<real>, greatest: Option<real>) {
    && (least.None? <==> greatest.None?)
    && (least.None? <==> forall i, cell: Index, v :: !CellReads(c, i, cell, v))
    && (least.Some? ==>
          && (exists i, cell: Index :: CellReads(c, i, cell, least.value))
          && (exists i, cell: Index :: CellReads(c, i, cell, greatest.value))
          && forall i, cell: Index, v :: CellReads(c, i, cell, v) ==> least.value <= v <= greatest.value)
  }

  ghost predicate SensorExtremes(c: Client, least: real, greatest: real) {
    && (exists i, sensor: Index :: SensorReads(c, i, sensor, least))
    && (exists i, sensor: Index :: SensorReads(c, i, sensor, greatest))
    && forall i, sensor: Index, t :: SensorReads(c, i, sensor, t) ==> least <= t <= greatest
  }

  ghost predicate LowestCharge(c: Client, soc: real) {
    && (exists i | 0 <= i < |c.batteries| :: c.batteries[i].soc == Some(soc))
    && forall i | 0 <= i < |c.batteries| :: c.batteries[i].soc.Some? && soc <= c.batteries[i].soc.value
  }

  ghost predicate OldestOfAll(c: Client, at: real) {
    && (exists i, key | 0 <= i < |c.batteries| && key in c.batteries[i].times :: c.batteries[i].times[key] == at)
    && forall i, key | 0 <= i < |c.batteries| && key in c.batteries[i].times :: at <= c.batteries[i].times[key]
  }

  /** A complete reading: exact extremes over all packs, and only the permissions that every pack grants. */
  lemma AggregateExactly(config: Config, c: Client, now: real)
    requires AllShown(config, c, now) && config.Count() > 0
    ensures AggregateOf(config, c, now).Some?
    ensures
      var data := AggregateOf(config, c, now).value;
      && data.dataComplete && data.partial == c.partial
      && CellExtremes(c, data.minCell, data.maxCell) && SensorExtremes(c, data.minTemp, data.maxTemp)
      && LowestCharge(c, data.soc) && OldestOfAll(c, data.oldestSampleTime)
      && (data.allowCharge <==> forall i | 0 <= i < config.Count() :: c.batteries[i].charging == Some(true))
      && (data.allowDischarge <==> forall i | 0 <= i < config.Count() :: c.batteries[i].discharging == Some(true))
  {
    hide Battery.Usable, CellVoltages, SensorValues, SocValues, OldestTimes, Oldest, CellExtremes, SensorExtremes;
    hide LowestCharge, OldestOfAll, Shown, Measurable, Slotted;
    CompleteMeansAllUsable(config, c, now);
    AllSnapshots(c.batteries, now);
    var snapshots := Snapshots(c.batteries, now);
    SnapshotsAreReady(config, c.batteries, now);
    CellsOfAll(c, snapshots);
    SensorsOfAll(c, snapshots);
    ChargesOfAll(c, snapshots);
    TimesOfAll(c, snapshots);
  }

  ghost predicate AreAll(c: Client, snapshots: seq<Snapshot>) {
    |snapshots| == |c.batteries| && forall i | 0 <= i < |snapshots| :: snapshots[i].battery == c.batteries[i]
  }

  lemma CellsOfAll(c: Client, snapshots: seq<Snapshot>)
    requires AreAll(c, snapshots)
    ensures
      var s := CellVoltages(snapshots);
      if s == {} then CellExtremes(c, None, None) else CellExtremes(c, Some(Minimum(s)), Some(Maximum(s)))
  {
    var s := CellVoltages(snapshots);
    forall v | v in s ensures exists i, cell: Index :: CellReads(c, i, cell, v) {
      var n, cell :| 0 <= n < |snapshots| && cell in snapshots[n].battery.cells && Measures(snapshots[n], cell)
          && snapshots[n].battery.cells[cell] == v;
      assert CellReads(c, n, cell, v);
    }
    forall i, cell: Index, v | CellReads(c, i, cell, v) ensures v in s {
      assert Measures(snapshots[i], cell) && snapshots[i].battery.cells[cell] == v;
    }
    if s != {} {
      assert Minimum(s) in s && Maximum(s) in s;
    }
  }

  lemma SensorsOfAll(c: Client, snapshots: seq<Snapshot>)
    requires AreAll(c, snapshots) && SensorValues(snapshots) != {}
    ensures SensorExtremes(c, Minimum(SensorValues(snapshots)), Maximum(SensorValues(snapshots)))
  {
    var s := SensorValues(snapshots);
    forall t | t in s ensures exists i, sensor: Index :: SensorReads(c, i, sensor, t) {
      var n, sensor :| 0 <= n < |snapshots| && sensor in snapshots[n].battery.temperatures
          && snapshots[n].battery.temperatures[sensor] > SENSOR_FAULT
          && snapshots[n].battery.temperatures[sensor] == t;
      assert SensorReads(c, n, sensor, t);
    }
    forall i, sensor: Index, t | SensorReads(c, i, sensor, t) ensures t in s {
      assert snapshots[i].battery.temperatures[sensor] == t;
    }
    assert Minimum(s) in s && Maximum(s) in s;
  }

  lemma ChargesOfAll(c: Client, snapshots: seq<Snapshot>)
    requires AreAll(c, snapshots) && Summable(snapshots)
    ensures SocValues(snapshots) != {} && LowestCharge(c, Minimum(SocValues(snapshots)))
  {
    var s := SocValues(snapshots);
    assert snapshots[0].battery.soc.value in s;
    forall i | 0 <= i < |c.batteries| ensures c.batteries[i].soc.Some? && Minimum(s) <= c.batteries[i].soc.value {
      assert snapshots[i].battery.soc.value in s;
    }
    var n :| 0 <= n < |snapshots| && snapshots[n].battery.soc.value == Minimum(s);
    assert c.batteries[n].soc == Some(Minimum(s));
  }

  lemma TimesOfAll(c: Client, snapshots: seq<Snapshot>)
    requires AreAll(c, snapshots) && Summable(snapshots)
    ensures OldestTimes(snapshots) != {} && OldestOfAll(c, Minimum(OldestTimes(snapshots)))
  {
    hide Oldest;
    var s := OldestTimes(snapshots);
    assert Oldest(snapshots[0].battery.times).value in s;
    forall i, key | 0 <= i < |c.batteries| && key in c.batteries[i].times
      ensures Minimum(s) <= c.batteries[i].times[key]
    {
      assert Oldest(snapshots[i].battery.times).value in s;
    }
    var n :| 0 <= n < |snapshots| && Oldest(snapshots[n].battery.times).value == Minimum(s);
    assert Minimum(s) in c.batteries[n].times.Values;
    var key :| key in c.batteries[n].times && c.batteries[n].times[key] == Minimum(s);
  }

  /** When some pack does not enter, a chain says nothing, and other packs permit nothing. */
  lemma IncompleteExactly(config: Config, c: Client, now: real)
    requires |c.batteries| == config.Count() > 0 && !AllShown(config, c, now)
    ensures config.Explicit? ==> AggregateOf(config, c, now).None?
    ensures AggregateOf(config, c, now).Some? ==>
              && !AggregateOf(config, c, now).value.dataComplete
              && !AggregateOf(config, c, now).value.allowCharge && !AggregateOf(config, c, now).value.allowDischarge
  {
    hide Battery.Usable, CellVoltages, SensorValues, SocValues, OldestTimes, Oldest;
    CompleteMeansAllUsable(config, c, now);
    AllSnapshots(c.batteries, now);
    SnapshotsAreUsable(c.batteries, now);
  }

  // ---- Cell numbers -----------------------------------------------------------------------------------------------

  /** Cells are numbered one after the other, pack by pack; without a topology after those of the packs before. */
  lemma NumbersFollow(config: Config, slot: int, cell: int)
    requires 1 <= slot <= config.Count()
    ensures config.Explicit? ==> GlobalId(config, 1, 1) == 1
    ensures config.Plain? ==>
              GlobalId(config, 1, 1) == if config.bmsFirst >= 1 then (config.bmsFirst - 1) * config.cellsPerBms + 1
                  else 1
    ensures GlobalId(config, slot, cell + 1) == GlobalId(config, slot, cell) + 1
    ensures slot < config.Count() ==>
              GlobalId(config, slot + 1, 1) == GlobalId(config, slot, config.Cells()[slot - 1]) + 1
  {
    if config.Explicit? {
      var counts := CellCounts(config.chain.members);
      assert counts[..0] == [];
      if slot < config.Count() {
        assert counts[..slot][..slot - 1] == counts[..slot - 1];
      }
    } else if slot < config.Count() {
      assert slot * config.cellsPerBms == (slot - 1) * config.cellsPerBms + config.cellsPerBms;
    }
  }

  lemma TotalIsTheLastNumber(config: Config)
    requires config.Count() > 0
    ensures config.TotalCells()
         == GlobalId(config, config.Count(), config.Cells()[config.Count() - 1]) - GlobalId(config, 1, 1) + 1
  {
    NumbersFollow(config, 1, 1);
    if config.Explicit? {
      var counts := CellCounts(config.chain.members);
      assert counts[..|counts| - 1] + [counts[|counts| - 1]] == counts;
    } else {
      assert (config.count - 1) * config.cellsPerBms + config.cellsPerBms == config.count * config.cellsPerBms;
    }
  }

  // ---- Totals -----------------------------------------------------------------------------------------------------

  /** One pack is its own total, and each further pack adds its voltage and its power. */
  lemma TotalsGrow(snapshots: seq<Snapshot>, s: Snapshot)
    requires Measurable(snapshots + [s])
    ensures Measurable(snapshots) && s.battery.voltage.Some? && s.battery.current.Some?
    ensures TotalVoltage([]) == 0.0 && TotalPower([]) == 0.0
    ensures TotalVoltage(snapshots + [s]) == TotalVoltage(snapshots) + s.battery.voltage.value
    ensures TotalPower(snapshots + [s])
         == TotalPower(snapshots) + s.battery.voltage.value * s.battery.current.value
  {
    var all := snapshots + [s];
    assert all[..|all| - 1] == snapshots && all[|all| - 1] == s;
    forall n | 0 <= n < |snapshots|
      ensures
        var b := snapshots[n].battery;
        b.voltage.Some? && b.voltage.value > 0.0 && b.current.Some?
    {
      assert all[n] == snapshots[n];
    }
  }
}
