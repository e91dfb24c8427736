/** _compute_electrical_totals of dbus_mqtt_battery/mqtt_client.py for an explicit chain: packs in series. */
module Electrical {
  import opened BmsData
  import opened DvccTapers
  import opened Packs

  /** What get_aggregate_data has of each pack when it computes the totals. */
  ghost predicate Measurable(snapshots: seq<Snapshot>) {
    forall n | 0 <= n < |snapshots| ::
      snapshots[n].battery.voltage.Some? && snapshots[n].battery.voltage.value > 0.0
          && snapshots[n].battery.current.Some?
  }

  ghost function TotalVoltage(snapshots: seq<Snapshot>): (v: real)
    requires Measurable(snapshots)
    ensures v >= 0.0 && (snapshots != [] ==> v > 0.0)
  {
    if snapshots == [] then 0.0
    else TotalVoltage(snapshots[..|snapshots| - 1]) + snapshots[|snapshots| - 1].battery.voltage.value
  }

  ghost function TotalPower(snapshots: seq<Snapshot>): real
    requires Measurable(snapshots)
  {
    if snapshots == [] then 0.0
    else
      var b := snapshots[|snapshots| - 1].battery;
      TotalPower(snapshots[..|snapshots| - 1]) + b.voltage.value * b.current.value
  }

  datatype Totals = Totals(voltage: real, current: real, power: real)

  /** The totals of packs in series. */
  ghost predicate InSeries(snapshots: seq<Snapshot>, t: Totals) {
    && Measurable(snapshots) && t.voltage == TotalVoltage(snapshots) && t.power == TotalPower(snapshots)
    && t.voltage * t.current == t.power
  }

  /** The voltages add up, the powers add up, and the current is what makes them agree. */
  method ComputeElectricalTotals(snapshots: seq<Snapshot>) returns (t: Totals)
    requires snapshots != [] && Measurable(snapshots)
    ensures InSeries(snapshots, t)
  {
    var voltage, power := 0.0, 0.0;
    for n := 0 to |snapshots|
      invariant voltage == TotalVoltage(snapshots[..n]) && power == TotalPower(snapshots[..n])
    {
      assert snapshots[..n + 1][..n] == snapshots[..n];
      var b := snapshots[n].battery;
      voltage, power := voltage + b.voltage.value, power + b.voltage.value * b.current.value;
    }
    assert snapshots[..|snapshots|] == snapshots;
    t := Totals(voltage, power / voltage, power);
  }

  ghost predicate Within(snapshots: seq<Snapshot>, low: real, high: real)
    requires Measurable(snapshots)
  {
    forall n | 0 <= n < |snapshots| :: low <= snapshots[n].battery.current.value <= high
  }

  lemma {:induction false} PowerWithin(snapshots: seq<Snapshot>, low: real, high: real)
    requires Measurable(snapshots) && Within(snapshots, low, high)
    ensures TotalVoltage(snapshots) * low <= TotalPower(snapshots) <= TotalVoltage(snapshots) * high
  {
    if snapshots != [] {
      var front, b := snapshots[..|snapshots| - 1], snapshots[|snapshots| - 1].battery;
      PowerWithin(front, low, high);
      var v, i, sum := b.voltage.value, b.current.value, TotalVoltage(front);
      Scale(v, low, i, v * low, v * i);
      Scale(v, i, high, v * i, v * high);
      assert (sum + v) * low == sum * low + v * low && (sum + v) * high == sum * high + v * high;
    }
  }

  lemma Mean(v: real, low: real, current: real, high: real, least: real, power: real, most: real)
    requires 0.0 < v && least == v * low && power == v * current && most == v * high && least <= power <= most
    ensures low <= current <= high
  {
    Cancel(v, low, current);
    Cancel(v, current, high);
  }

  /** The packs that enter an aggregate can be added up. */
  lemma SnapshotsAreMeasurable(batteries: seq<Battery>, now: real)
    ensures Measurable(Snapshots(batteries, now))
  {
    SnapshotsAreUsable(batteries, now);
    forall n | 0 <= n < |Snapshots(batteries, now)|
      ensures
        var b := Snapshots(batteries, now)[n].battery;
        b.voltage.Some? && b.voltage.value > 0.0 && b.current.Some?
    {
      assert Snapshots(batteries, now)[n] in Snapshots(batteries, now);
    }
  }

  /** Whatever the packs measure, the published current lies between their smallest and their largest current. */
  lemma CurrentIsAMean(snapshots: seq<Snapshot>, t: Totals, low: real, high: real)
    requires snapshots != [] && InSeries(snapshots, t) && Within(snapshots, low, high)
    ensures low <= t.current <= high
  {
    hide TotalPower, Within, Measurable;
    PowerWithin(snapshots, low, high);
    Mean(t.voltage, low, t.current, high, t.voltage * low, t.power, t.voltage * high);
  }
}
