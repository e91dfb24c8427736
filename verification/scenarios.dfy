/** Small runs of the whole driver, with every frame spelled out: one pack of four cells without a topology. */
module Scenarios {
  import opened Prelude
  import opened BmsData
  import opened Frames
  import opened Telemetry
  import opened Packs
  import opened MqttClient
  import opened Evidence
  import opened Sessions
  import opened Readings

  const PACK: Config := Plain(1, 1, 4)

  /** A complete row of a half-full pack at 25 C, with all cells at 3.3 V. */
  const MILD: Row :=
    Row(Int(1), Float(13.2), Float(0.0), Float(50.0), Float(25.0),
        NoItems, Items([Float(3.3), Float(3.3), Float(3.3), Float(3.3)]),
        Absent, Absent, Absent, Absent, Absent, Int(0), Absent, Bool(true), Bool(true), Bool(true))

  /** A partial row that evidences nothing but its status, and says that the pack is offline. */
  const OFFLINE: Row :=
    Row(Int(1), Absent, Absent, Absent, Absent, NoItems, Items([Null, Null, Null, Null]),
        Int(256), Int(256), Absent, Absent, Absent, Absent, Int(0), Bool(true), Bool(true), Bool(false))

  function FrameOf(row: Row, sequence: nat, ready: bool): Frame {
    Frame(Int(1), Text("boot"), Int(sequence), Bool(ready), Absent, Rows([row]))
  }

  function Arrives(row: Row, sequence: nat, ready: bool, at: real): Step {
    Receive(Message(Telemetry(Readable(FrameOf(row, sequence, ready))), false), at)
  }

  /** The battery that the complete row leaves. */
  function Pack(at: real): Battery {
    CompleteBattery(MILD, 4, at)
  }

  lemma SoleRow(row: Row)
    requires row.Row? && row.id == Int(1)
    ensures
      var rows, ids := [row], Consecutive(1, 1);
      OneRowPerSlot(rows, ids) && Named(rows, ids, 1) && RowFor(rows, ids, 1) == row
  {
    assert Names([row], Consecutive(1, 1), 1, 0);
  }

  lemma PackIsShown(at: real, now: real)
    requires at <= now < at + STALE_TIMEOUT
    ensures Shown(Pack(at), now)
  {
    var b := Pack(at);
    assert 1 in b.temperatures && b.temperatures[1] > SENSOR_FAULT;
    forall key | key in b.RequiredKeys() || key in b.times ensures b.Fresh(key, now) {
      assert key in CompleteKeys(MILD);
    }
  }

  lemma PackExpires(at: real, now: real)
    requires at + STALE_TIMEOUT <= now
    ensures !Shown(Pack(at), now)
  {
    assert Voltage in Pack(at).RequiredKeys();
    assert !Pack(at).Fresh(Voltage, now);
  }

  lemma SoleAssembled(row: Row, decode: RowDecoder)
    requires row.Row? && row.id == Int(1) && decode(1, row).Accepted?
    ensures Assembled([row], Consecutive(1, 1), decode) == Accepted([decode(1, row).value])
  {
    hide OneRowPerSlot;
    SoleRow(row);
    var batteries := Assembled([row], Consecutive(1, 1), decode).value;
    assert batteries == [batteries[0]] && batteries[0] == decode(1, row).value;
  }

  lemma PackRowDecodes(at: real)
    ensures DecodedRow(MILD, 4, at) == Accepted(Pack(at))
  {
    hide CompleteBattery, Battery.Usable;
    PackIsShown(at, at);
    assert RowAge(MILD, true) == Some(0.0) && at - 0.0 == at;
  }

  lemma PackDecodes(sequence: nat, at: real)
    ensures DecodedFrame(PACK, FrameOf(MILD, sequence, true), at) == Accepted([Pack(at)])
  {
    hide Assembled, DecodedRow, CompleteBattery;
    PackRowDecodes(at);
    SoleAssembled(MILD, CompleteDecoder(4, at));
  }

  /** A complete frame of the running boot replaces the pack. */
  lemma CompleteFrame(c: Client, sequence: nat, at: real)
    requires c.retired == {} && (c.bootId.None? || c.bootId == Some("boot")) && c.sequence < sequence
    ensures ClientStep(PACK, c, Arrives(MILD, sequence, true, at))
        == Client([Pack(at)], Some("boot"), sequence, {}, true, true, false)
  {
    hide DecodedFrame, CompleteBattery;
    PackDecodes(sequence, at);
  }

  /** What a poll reads of the pack while it is fresh. */
  function Mild(at: real): Aggregate {
    Aggregate(true, at, false, 50.0, Some(3.3), Some(3.3), 25.0, 25.0, true, true)
  }

  lemma PackReadings(at: real)
    ensures
      var snapshots := [Snapshot(1, Pack(at))];
      && CellVoltages(snapshots) == {3.3} && SensorValues(snapshots) == {25.0}
      && Pack(at).soc == Some(50.0) && Oldest(Pack(at).times) == Some(at)
      && Pack(at).charging == Some(true) && Pack(at).discharging == Some(true)
  {
    var b := Pack(at);
    var snapshots := [Snapshot(1, b)];
    assert forall i: Index | i in b.cells :: b.cells[i] == 3.3;
    assert 1 in b.cells && Measures(snapshots[0], 1);
    assert 3.3 in CellVoltages(snapshots);
    var sensor: Index := 1;
    assert b.temperatures == map[sensor := 25.0];
    assert sensor in snapshots[0].battery.temperatures
        && snapshots[0].battery.temperatures[sensor] == 25.0 > SENSOR_FAULT;
    assert 25.0 in SensorValues(snapshots);
    assert Voltage in b.times && forall key | key in b.times :: b.times[key] == at;
  }

  lemma Alone(x: real)
    ensures Minimum({x}) == x && Maximum({x}) == x
  {
  }

  lemma FreshPoll(c: Client, at: real, now: real)
    requires c.batteries == [Pack(at)] && !c.partial && at <= now < at + STALE_TIMEOUT
    ensures AggregateOf(PACK, c, now) == Some(Mild(at))
  {
    hide CompleteBattery, Shown, CellVoltages, SensorValues, Oldest, Battery.Usable;
    PackIsShown(at, now);
    PackReadings(at);
    Alone(3.3);
    Alone(25.0);
    Alone(50.0);
    Alone(at);
    var snapshots := [Snapshot(1, Pack(at))];
    assert [Pack(at)][..0] == [];
    assert Snapshots(c.batteries, now) == snapshots;
    assert Summable(snapshots);
    assert snapshots[0].battery.soc.value in SocValues(snapshots) && SocValues(snapshots) == {50.0};
    assert Oldest(snapshots[0].battery.times).value in OldestTimes(snapshots) && OldestTimes(snapshots) == {at};
  }

  lemma StalePoll(c: Client, at: real, now: real)
    requires c.batteries == [Pack(at)] && at + STALE_TIMEOUT <= now
    ensures AggregateOf(PACK, c, now).None?
  {
    hide CompleteBattery, Shown;
    PackExpires(at, now);
    var batteries := [Pack(at)];
    assert batteries[..0] == [] && Snapshots(batteries[..0], now) == [];
    assert Snapshots(batteries, now) == [];
  }

  // ---- An offline report that renews ------------------------------------------------------------------------------

  lemma OnlyTheStatusBit()
    ensures Bit(256, STATUS_BIT) && forall index: nat | index < 8 :: !Bit(256, index)
  {
  }

  lemma OfflineRow(now: real)
    ensures Pack(0.0).cellCount == 4 && PartialRow(OFFLINE, 4) && RowAge(OFFLINE, false) == Some(0.0)
    ensures
      var after := Merged(Pack(0.0), OFFLINE, now, true);
      after.online == Some(true) && StampOf(after, Online) == Some(now)
  {
    hide Merged, Numbers;
    OnlyTheStatusBit();
    assert RowAge(OFFLINE, false) == Some(0.0) && now - 0.0 == now;
    StatusIsRenewedExactly(Pack(0.0), OFFLINE, now, true, Online);
  }

  /** The client after one complete frame. */
  function AfterOne(at: real): Client {
    Client([Pack(at)], Some("boot"), 1, {}, true, true, false)
  }

  lemma OfflineMerge()
    requires Pack(0.0).cellCount == 4 && PartialRow(OFFLINE, 4)
    ensures MergedFrame(PACK, AfterOne(0.0).(sequence := 2), FrameOf(OFFLINE, 2, false), 10.0)
         == Accepted([Merged(Pack(0.0), OFFLINE, 10.0, true)])
  {
    hide Assembled, Merged, PartialRow, CompleteBattery;
    SoleAssembled(OFFLINE, PartialDecoder([Pack(0.0)], 10.0, true));
  }

  lemma OfflineFrame()
    ensures PartialRow(OFFLINE, 4) && Pack(0.0).cellCount == 4
    ensures ClientStep(PACK, AfterOne(0.0), Arrives(OFFLINE, 2, false, 10.0)).batteries
        == [Merged(Pack(0.0), OFFLINE, 10.0, true)]
  {
    hide MergedFrame, Merged, PartialRow, CompleteBattery;
    OfflineRow(10.0);
    OfflineMerge();
  }

  /** One complete frame, and then another step. */
  lemma AfterFirst(step: Step)
    ensures ClientAfter(PACK, [Arrives(MILD, 1, true, 0.0)]) == AfterOne(0.0)
    ensures ClientAfter(PACK, [Arrives(MILD, 1, true, 0.0), step]) == ClientStep(PACK, AfterOne(0.0), step)
  {
    hide ClientStep, CompleteBattery;
    var first := Arrives(MILD, 1, true, 0.0);
    assert [first, step][..1] == [first] && [first][..0] == [];
    assert ClientAfter(PACK, []) == InitialClient(PACK);
    CompleteFrame(InitialClient(PACK), 1, 0.0);
  }

  /** A pack that has said true and then says offline is still held as online, and looks as young as its denial. */
  lemma OfflineReportRenewsOnline()
    ensures
      var run := [Arrives(MILD, 1, true, 0.0), Arrives(OFFLINE, 2, false, 10.0)];
      var b := BatteryOf(ClientAfter(PACK, run), 1);
      OFFLINE.online == Bool(false) && b.online == Some(true) && StampOf(b, Online) == Some(10.0)
  {
    hide ClientStep, ClientAfter, CompleteBattery, Merged;
    AfterFirst(Arrives(OFFLINE, 2, false, 10.0));
    OfflineFrame();
    OfflineRow(10.0);
  }
}
