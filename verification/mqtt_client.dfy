/** dbus_mqtt_battery/mqtt_client.py in atomic mode: the producer session, the accepted evidence and its aggregate. */
module MqttClient {
  import opened Prelude
  import opened BmsData
  import opened Frames
  import opened Telemetry
  import opened Topology
  import opened Packs
  import opened Electrical
  import TelemetryV2

  const MAX_RETIRED_BOOT_IDS := 4096

  /** Consecutively numbered packs of one size, or the members of an explicit chain. */
  datatype Config = Plain(count: nat, bmsFirst: int, cellsPerBms: nat) | Explicit(chain: Chain)
  {
    ghost predicate Valid() {
      Explicit? ==> Built(chain)
    }

    function Count(): nat {
      if Plain? then count else |chain.members|
    }

    function First(): int {
      if Plain? && bmsFirst >= 1 then bmsFirst else 1
    }

    function Cells(): (cells: seq<nat>)
      ensures |cells| == Count()
    {
      if Plain? then seq(count, i => cellsPerBms) else CellCounts(chain.members)
    }

    function TotalCells(): nat {
      if Plain? then count * cellsPerBms else chain.TotalCells()
    }

    function Empty(): seq<Battery> {
      seq(|Cells()|, i requires 0 <= i < |Cells()| => Unknown(Cells()[i]))
    }
  }

  datatype Client = Client(
    batteries: seq<Battery>, bootId: Option<string>, sequence: int, retired: set<string>,
    hasFull: bool, bootReady: bool, partial: bool)

  /** What the broker delivers on the telemetry topic, on the status topic, or elsewhere. */
  datatype Message = Telemetry(payload: Payload) | Status(offline: bool) | Elsewhere

  datatype Event = Message(message: Message, retained: bool) | Disconnected

  ghost function InitialClient(config: Config): Client {
    Client(config.Empty(), None, -1, {}, false, false, false)
  }

  /** Drop every reading; the session and its replay protection stay. */
  ghost function Invalidated(config: Config, c: Client): Client {
    c.(hasFull := false, bootReady := false, partial := false, batteries := config.Empty())
  }

  // ---- The ordering gate ------------------------------------------------------------------------

  function HeaderOf(config: Config, payload: Payload): Decoded<Header> {
    if config.Explicit? then TelemetryV2.DecodeChainHeader(payload, config.chain.schema) else DecodeHeader(payload)
  }

  /** Neither from a retired boot nor a repeat or older frame of the current one. */
  predicate InOrder(c: Client, h: Header) {
    h.bootId !in c.retired && !(c.bootId == Some(h.bootId) && h.sequence <= c.sequence)
  }

  predicate Displaces(c: Client, h: Header) {
    c.bootId.Some? && c.bootId.value != h.bootId
  }

  /** Replay protection is never evicted: a full history admits no new boot. */
  predicate HistoryBlocks(c: Client, h: Header) {
    Displaces(c, h) && |c.retired| >= MAX_RETIRED_BOOT_IDS
  }

  function Admitted(c: Client, h: Header): Client {
    var session := if Displaces(c, h) then c.(retired := c.retired + {c.bootId.value}, bootReady := false) else c;
    session.(bootId := Some(h.bootId), sequence := h.sequence)
  }

  // ---- Frames -----------------------------------------------------------------------------------

  ghost function DecodedFrame(config: Config, frame: Frame, now: real): Decoded<seq<Battery>> {
    match config
    case Plain(count, _, cellsPerBms) => DecodedComplete(frame.batteries, count, config.First(), cellsPerBms, now)
    case Explicit(chain) => TelemetryV2.DecodedMembers(frame, chain, now)
  }

  ghost function MergedFrame(config: Config, c: Client, frame: Frame, now: real): Decoded<seq<Battery>> {
    MergedPartial(frame.batteries, c.batteries, config.First(), now, c.bootReady)
  }

  /** A frame that has passed the gate: all of it is taken, or every reading is dropped. */
  ghost function Applied(config: Config, c: Client, frame: Frame, ready: bool, now: real): Client {
    if ready then
      match DecodedFrame(config, frame, now)
      case Accepted(batteries) => c.(batteries := batteries, hasFull := true, bootReady := true, partial := false)
      case Rejected => Invalidated(config, c)
    else if config.Explicit? || !c.hasFull then Invalidated(config, c)
    else
      match MergedFrame(config, c, frame, now)
      case Accepted(batteries) => c.(batteries := batteries, partial := true)
      case Rejected => Invalidated(config, c)
  }

  ghost function Received(config: Config, c: Client, payload: Payload, now: real): Client {
    var header := HeaderOf(config, payload);
    if header.Rejected? then Invalidated(config, c)
    else if !InOrder(c, header.value) then c
    else if HistoryBlocks(c, header.value) then
      if config.Explicit? then Invalidated(config, c) else c.(partial := true)
    else Applied(config, Admitted(c, header.value), payload.frame, header.value.ready, now)
  }

  /** Transport loss is no evidence about a BMS: without a topology the deadlines run on. */
  ghost function ProducerOffline(config: Config, c: Client): Client {
    if config.Explicit? then Invalidated(config, c)
    else c.(bootReady := false, partial := c.partial || c.hasFull)
  }

  ghost function BrokerLost(config: Config, c: Client): Client {
    if config.Explicit? || !c.hasFull then Invalidated(config, c)
    else c.(bootReady := false, partial := true)
  }

  ghost function Next(config: Config, c: Client, event: Event, now: real): Client {
    match event
    case Disconnected => BrokerLost(config, c)
    case Message(message, retained) =>
      if retained then c else
      match message
      case Telemetry(payload) => Received(config, c, payload, now)
      case Status(offline) => if offline then ProducerOffline(config, c) else c
      case Elsewhere => c
  }

  // ---- The aggregate ----------------------------------------------------------------------------

  /** The number under which a cell of one slot is published. */
  function GlobalId(config: Config, slot: int, cell: int): int
    requires 1 <= slot <= config.Count()
  {
    match config
    case Plain(count, _, cellsPerBms) => (config.First() - 1) * cellsPerBms + (slot - 1) * cellsPerBms + cell
    case Explicit(chain) => Sum(CellCounts(chain.members)[..slot - 1]) + cell
  }

  predicate Measures(s: Snapshot, cell: Index) {
    cell in s.battery.cells && s.battery.cells[cell] > 0.0
  }

  function NumberedCell(config: Config, s: Snapshot, cell: Index): (int, real)
    requires 1 <= s.slot <= config.Count() && Measures(s, cell)
  {
    (GlobalId(config, s.slot, cell), s.battery.cells[cell])
  }

  predicate Slotted(config: Config, snapshots: seq<Snapshot>) {
    forall n | 0 <= n < |snapshots| :: 1 <= snapshots[n].slot <= config.Count()
  }

  ghost function NumberedCells(config: Config, snapshots: seq<Snapshot>): set<(int, real)>
    requires Slotted(config, snapshots)
  {
    set n, cell | 0 <= n < |snapshots| && cell in snapshots[n].battery.cells && Measures(snapshots[n], cell)
      :: NumberedCell(config, snapshots[n], cell)
  }

  ghost function SensorValues(snapshots: seq<Snapshot>): set<real> {
    set n, sensor | 0 <= n < |snapshots| && sensor in snapshots[n].battery.temperatures
        && snapshots[n].battery.temperatures[sensor] > SENSOR_FAULT
      :: snapshots[n].battery.temperatures[sensor]
  }

  ghost function CellVoltages(snapshots: seq<Snapshot>): set<real> {
    set n, cell | 0 <= n < |snapshots| && cell in snapshots[n].battery.cells && Measures(snapshots[n], cell)
      :: snapshots[n].battery.cells[cell]
  }

  /** What the publisher reads in one call. */
  datatype Aggregate = Aggregate(
    dataComplete: bool, oldestSampleTime: real, partial: bool, soc: real,
    minCell: Option<real>, maxCell: Option<real>, minTemp: real, maxTemp: real,
    allowCharge: bool, allowDischarge: bool)

  ghost predicate Summable(snapshots: seq<Snapshot>) {
    && snapshots != []
    && (forall n | 0 <= n < |snapshots| :: snapshots[n].battery.soc.Some? && Oldest(snapshots[n].battery.times).Some?)
    && SensorValues(snapshots) != {}
  }

  ghost function SocValues(snapshots: seq<Snapshot>): set<real>
    requires Summable(snapshots)
  {
    set n | 0 <= n < |snapshots| :: snapshots[n].battery.soc.value
  }

  ghost function OldestTimes(snapshots: seq<Snapshot>): set<real>
    requires Summable(snapshots)
  {
    set n | 0 <= n < |snapshots| :: Oldest(snapshots[n].battery.times).value
  }

  /** Extremes over every sensor and cell; permissions only when the chain is complete and every member grants them. */
  ghost function Summary(snapshots: seq<Snapshot>, complete: bool, partial: bool): Aggregate
    requires Summable(snapshots)
  {
    var voltages := CellVoltages(snapshots);
    assert snapshots[0].battery.soc.value in SocValues(snapshots);
    assert Oldest(snapshots[0].battery.times).value in OldestTimes(snapshots);
    Aggregate(
      complete, Minimum(OldestTimes(snapshots)), partial, Minimum(SocValues(snapshots)),
      if voltages == {} then None else Some(Minimum(voltages)),
      if voltages == {} then None else Some(Maximum(voltages)),
      Minimum(SensorValues(snapshots)), Maximum(SensorValues(snapshots)),
      complete && (forall n | 0 <= n < |snapshots| :: snapshots[n].battery.charging == Some(true)),
      complete && (forall n | 0 <= n < |snapshots| :: snapshots[n].battery.discharging == Some(true)))
  }

  lemma UsableIsSummable(snapshots: seq<Snapshot>, now: real)
    requires snapshots != [] && forall n | 0 <= n < |snapshots| :: snapshots[n].battery.Usable(now)
    ensures Summable(snapshots)
  {
    forall n | 0 <= n < |snapshots| ensures snapshots[n].battery.soc.Some? && Oldest(snapshots[n].battery.times).Some? {
      var b := snapshots[n].battery;
      assert Voltage in b.RequiredKeys();
      assert b.Fresh(Voltage, now);
    }
    var b := snapshots[0].battery;
    var i :| i in b.temperatures && b.temperatures[i] > SENSOR_FAULT;
    assert b.temperatures[i] in SensorValues(snapshots);
  }

  /** What the publisher reads can be summarized, numbered and added up. */
  lemma SnapshotsAreReady(config: Config, batteries: seq<Battery>, now: real)
    requires |batteries| == config.Count() && Snapshots(batteries, now) != []
    ensures Summable(Snapshots(batteries, now)) && Slotted(config, Snapshots(batteries, now))
    ensures Measurable(Snapshots(batteries, now))
  {
    hide Battery.Usable, Snapshots, Summable, Measurable;
    var snapshots := Snapshots(batteries, now);
    SnapshotsAreUsable(batteries, now);
    forall n | 0 <= n < |snapshots|
      ensures snapshots[n].battery.Usable(now) && 1 <= snapshots[n].slot <= config.Count()
    {
      assert snapshots[n] in snapshots;
    }
    UsableIsSummable(snapshots, now);
    SnapshotsAreMeasurable(batteries, now);
  }

  /** get_aggregate_data: nothing, a part of the chain for display, or the complete chain. */
  ghost function AggregateOf(config: Config, c: Client, now: real): Option<Aggregate> {
    var snapshots := Snapshots(c.batteries, now);
    if snapshots == [] || (config.Explicit? && |snapshots| != config.Count()) then None
    else
      SnapshotsAreUsable(c.batteries, now);
      assert forall n | 0 <= n < |snapshots| :: snapshots[n] in snapshots;
      UsableIsSummable(snapshots, now);
      Some(Summary(snapshots, |snapshots| == config.Count(), c.partial))
  }

  lemma {:induction false} AllSnapshots(batteries: seq<Battery>, now: real)
    ensures |Snapshots(batteries, now)| == |batteries| ==>
              forall i | 0 <= i < |batteries| ::
                  Snapshots(batteries, now)[i] == Snapshot(i + 1, batteries[i]) && Shown(batteries[i], now)
    ensures (forall i | 0 <= i < |batteries| :: Shown(batteries[i], now)) ==> |Snapshots(batteries, now)| == |batteries|
  {
    hide Battery.Usable;
    if batteries != [] {
      var front := batteries[..|batteries| - 1];
      SnapshotsAreUsable(front, now);
      AllSnapshots(front, now);
    }
  }

  /**
   * The chain is complete exactly when every configured battery is usable and has a current; then the aggregate
   * covers all of them.
   */
  lemma CompleteMeansAllUsable(config: Config, c: Client, now: real)
    requires |c.batteries| == config.Count() > 0
    ensures
      var data := AggregateOf(config, c, now);
      && (data.Some? && data.value.dataComplete <==> forall i | 0 <= i < config.Count() :: Shown(c.batteries[i], now))
      && (data.Some? && data.value.dataComplete ==>
            && (data.value.allowCharge <==> forall i | 0 <= i < config.Count() :: c.batteries[i].charging == Some(true))
            && (data.value.allowDischarge
                <==> forall i | 0 <= i < config.Count() :: c.batteries[i].discharging == Some(true))
            && data.value.partial == c.partial)
  {
    hide Battery.Usable, CellVoltages, SensorValues, SocValues, OldestTimes, Summable;
    AllSnapshots(c.batteries, now);
    SnapshotsAreUsable(c.batteries, now);
    var snapshots := Snapshots(c.batteries, now);
    if |snapshots| == config.Count() {
      forall i | 0 <= i < config.Count() ensures snapshots[i].battery == c.batteries[i] {
      }
    }
  }

  // ---- The client object ------------------------------------------------------------------------

  lemma BuiltMembersAreValid(chain: Chain)
    requires Built(chain)
    ensures MembersValid(chain.members)
  {
  }

  lemma LowestIsMinimum(values: seq<real>, s: set<real>)
    requires values != [] && forall v :: v in values <==> v in s
    ensures s != {} && Lowest(values[0], values[1..]) == Minimum(s) && Highest(values[0], values[1..]) == Maximum(s)
  {
    assert values == [values[0]] + values[1..];
    assert values[0] in values;
    var low, high := Lowest(values[0], values[1..]), Highest(values[0], values[1..]);
    forall v | v in s ensures low <= v <= high {
      assert v in values;
      if v != values[0] {
        var i :| 0 <= i < |values[1..]| && values[1..][i] == v;
      }
    }
    assert low in values && high in values;
  }

  class MqttBatteryClient {
    const config: Config
    var batteries: seq<BatteryData>
    var bootId: Option<string>
    var sequence: int
    var retiredBootIds: set<string>
    var hasFullSnapshot: bool
    var bootReady: bool
    var telemetryPartial: bool

    function State(): Client
      reads this, batteries
    {
      Client(Values(batteries), bootId, sequence, retiredBootIds, hasFullSnapshot, bootReady, telemetryPartial)
    }

    constructor (config: Config)
      ensures this.config == config && State() == InitialClient(config)
    {
      this.config := config;
      bootId, sequence, retiredBootIds := None, -1, {};
      hasFullSnapshot, bootReady, telemetryPartial := false, false, false;
      batteries := [];
      new;
      batteries := EmptyBatteries(config.Cells());
      assert Values(batteries) == config.Empty();
    }

    method InvalidateSamples()
      modifies this
      ensures State() == Invalidated(config, old(State()))
    {
      hasFullSnapshot, bootReady, telemetryPartial := false, false, false;
      batteries := EmptyBatteries(config.Cells());
      assert Values(batteries) == config.Empty();
    }

    /** Move the session to a frame that is in order. */
    method Admit(header: Header)
      modifies this`retiredBootIds, this`bootReady, this`bootId, this`sequence
      ensures State() == Admitted(old(State()), header)
    {
      if bootId.Some? && bootId.value != header.bootId {
        retiredBootIds := retiredBootIds + {bootId.value};
        bootReady := false;
      }
      bootId, sequence := Some(header.bootId), header.sequence;
    }

    method DecodeFrame(frame: Frame, now: real) returns (ok: bool, decoded: seq<BatteryData>)
      requires config.Valid()
      ensures forall i | 0 <= i < |decoded| :: fresh(decoded[i])
      ensures DecodedFrame(config, frame, now) == if ok then Accepted(Values(decoded)) else Rejected
    {
      match config {
        case Plain(count, _, cellsPerBms) =>
          ok, decoded := DecodeBatteries(frame.batteries, count, config.First(), cellsPerBms, now);
        case Explicit(chain) =>
          BuiltMembersAreValid(chain);
          ok, decoded := TelemetryV2.DecodeMembers(frame, chain, now);
      }
    }

    /** Take a frame that has passed the gate as a whole, or drop every reading. */
    method Apply(frame: Frame, ready: bool, now: real)
      requires config.Valid()
      modifies this
      ensures State() == Applied(config, old(State()), frame, ready, now)
    {
      hide DecodedFrame, MergedPartial, Values;
      if ready {
        var ok, decoded := DecodeFrame(frame, now);
        if !ok {
          InvalidateSamples();
          return;
        }
        hasFullSnapshot, bootReady, telemetryPartial := true, true, false;
        batteries := decoded;
      } else if config.Explicit? || !hasFullSnapshot {
        InvalidateSamples();
      } else {
        var ok, merged := MergePartial(frame.batteries, batteries, config.First(), now, bootReady);
        if !ok {
          InvalidateSamples();
          return;
        }
        telemetryPartial := true;
        batteries := merged;
      }
    }

    /** _process_telemetry: accept one ordered producer frame. */
    method ProcessTelemetry(payload: Payload, now: real)
      requires config.Valid()
      modifies this
      ensures State() == Received(config, old(State()), payload, now)
    {
      hide Invalidated, Applied, Values;
      var decoded := HeaderOf(config, payload);
      if decoded.Rejected? {
        InvalidateSamples();
        return;
      }
      var header := decoded.value;
      if header.bootId in retiredBootIds || (bootId == Some(header.bootId) && header.sequence <= sequence) {
        return;
      }
      if bootId.Some? && bootId.value != header.bootId && |retiredBootIds| >= MAX_RETIRED_BOOT_IDS {
        if config.Explicit? {
          InvalidateSamples();
        } else {
          telemetryPartial := true;
        }
        return;
      }
      Admit(header);
      Apply(payload.frame, header.ready, now);
    }

    /** _on_message: retained values predate the subscription and are ignored. */
    method OnMessage(message: Message, retained: bool, now: real)
      requires config.Valid()
      modifies this
      ensures State() == Next(config, old(State()), Event.Message(message, retained), now)
    {
      hide Invalidated, Received, Values;
      if retained {
        return;
      }
      match message {
        case Telemetry(payload) =>
          ProcessTelemetry(payload, now);
        case Status(offline) =>
          if offline {
            if config.Explicit? {
              InvalidateSamples();
              return;
            }
            bootReady := false;
            if hasFullSnapshot {
              telemetryPartial := true;
            }
          }
        case Elsewhere =>
      }
    }

    method OnDisconnect(ghost now: real)
      modifies this
      ensures State() == Next(config, old(State()), Disconnected, now)
    {
      bootReady := false;
      if config.Explicit? || !hasFullSnapshot {
        InvalidateSamples();
      } else {
        telemetryPartial := true;
      }
    }

    /** _battery_snapshots_locked: copies of the usable batteries and the time of each one's oldest sample. */
    method BatterySnapshots(now: real) returns (snapshots: seq<Snapshot>, oldest: seq<real>)
      ensures snapshots == Snapshots(Values(batteries), now) && |oldest| == |snapshots|
      ensures forall n | 0 <= n < |snapshots| :: Oldest(snapshots[n].battery.times) == Some(oldest[n])
    {
      hide Battery.Usable;
      ghost var values := Values(batteries);
      snapshots, oldest := [], [];
      for n := 0 to |batteries|
        invariant snapshots == Snapshots(values[..n], now) && |oldest| == |snapshots|
        invariant forall i | 0 <= i < |snapshots| :: Oldest(snapshots[i].battery.times) == Some(oldest[i])
      {
        assert values[..n + 1][..n] == values[..n];
        var usable := batteries[n].IsValid(now);
        if usable && batteries[n].current.Some? {
          var sampled := batteries[n].OldestSampleTime();
          UsableHasSamples(values[n], now);
          snapshots, oldest := snapshots + [Snapshot(n + 1, batteries[n].State())], oldest + [sampled.value];
        }
      }
      assert values[..|batteries|] == values;
    }

    /** _append_cell_voltages: one battery's cells under their global numbers. */
    method AppendCellVoltages(s: Snapshot, collected: seq<(int, real)>) returns (cells: seq<(int, real)>)
      requires 1 <= s.slot <= config.Count()
      ensures Elements(cells) == Elements(collected) + CellsAmong(config, s, s.battery.cells.Keys)
      ensures |cells| == |collected| + |Measured(s, s.battery.cells.Keys)|
    {
      hide NumberedCell, Elements, Measured, CellsAmong;
      cells := collected;
      NothingMeasured(config, s);
      var pending := s.battery.cells.Keys;
      ghost var done: set<Index> := {};
      while pending != {}
        invariant done + pending == s.battery.cells.Keys
        invariant done !! pending && Elements(cells) == Elements(collected) + CellsAmong(config, s, done)
        invariant |cells| == |collected| + |Measured(s, done)|
        decreases pending
      {
        var cell := Choose(pending);
        AmongNext(config, s, done, cell);
        MeasuredNext(s, done, cell);
        if s.battery.cells[cell] > 0.0 {
          ElementsNext(cells, NumberedCell(config, s, cell));
          cells := cells + [NumberedCell(config, s, cell)];
        }
        pending, done := pending - {cell}, done + {cell};
      }
    }

    method AppendSensors(s: Snapshot, collected: seq<real>) returns (values: seq<real>)
      ensures Elements(values) == Elements(collected) + SensorsAmong(s, s.battery.temperatures.Keys)
    {
      hide Elements;
      values := collected;
      var pending := s.battery.temperatures.Keys;
      ghost var done: set<Index> := {};
      while pending != {}
        invariant done + pending == s.battery.temperatures.Keys
        invariant Elements(values) == Elements(collected) + SensorsAmong(s, done)
        decreases pending
      {
        var sensor := Choose(pending);
        SensorsNext(s, done, sensor);
        if s.battery.temperatures[sensor] > SENSOR_FAULT {
          ElementsNext(values, s.battery.temperatures[sensor]);
          values := values + [s.battery.temperatures[sensor]];
        }
        pending, done := pending - {sensor}, done + {sensor};
      }
    }

    /** _collect_cells_and_temps: every positive cell voltage with its number, and every plausible sensor value. */
    method CollectCellsAndTemps(snapshots: seq<Snapshot>) returns (cells: seq<(int, real)>, temperatures: seq<real>)
      requires Slotted(config, snapshots)
      ensures Elements(cells) == NumberedCells(config, snapshots) && |cells| == MeasuredTotal(snapshots)
      ensures Elements(temperatures) == SensorValues(snapshots)
    {
      hide Elements, NumberedCell, Measured;
      cells, temperatures := [], [];
      NothingCollected(config);
      for n := 0 to |snapshots|
        invariant Elements(cells) == NumberedCells(config, snapshots[..n]) && |cells| == MeasuredTotal(snapshots[..n])
        invariant Elements(temperatures) == SensorValues(snapshots[..n])
      {
        CollectedNext(config, snapshots, n);
        assert snapshots[..n + 1][..n] == snapshots[..n];
        cells := AppendCellVoltages(snapshots[n], cells);
        temperatures := AppendSensors(snapshots[n], temperatures);
      }
      assert snapshots[..|snapshots|] == snapshots;
    }

    /** One consistent reading of the whole chain, with the flattened cell list. */
    method GetAggregateData(now: real)
        returns (data: Option<Aggregate>, cells: seq<(int, real)>, totals: Option<Totals>)
      requires |batteries| == config.Count()
      ensures data == AggregateOf(config, State(), now)
      ensures data.Some? ==>
                && Slotted(config, Snapshots(Values(batteries), now))
                && Elements(cells) == NumberedCells(config, Snapshots(Values(batteries), now))
      ensures data.Some? ==> |cells| == MeasuredTotal(Snapshots(Values(batteries), now))
      ensures totals.Some? <==> data.Some? && config.Explicit?
      ensures totals.Some? ==> InSeries(Snapshots(Values(batteries), now), totals.value)
    {
      hide MeasuredTotal, Measurable, Elements, NumberedCells, SensorValues, CellVoltages, Battery.Usable, Values;
      hide Snapshots, Summable, Summary, Slotted, InSeries;
      var snapshots, oldest := BatterySnapshots(now);
      cells, totals := [], None;
      if snapshots == [] || (config.Explicit? && |snapshots| != config.Count()) {
        return None, cells, None;
      }
      SnapshotsAreReady(config, Values(batteries), now);
      var temperatures: seq<real>;
      cells, temperatures := CollectCellsAndTemps(snapshots);
      var summary := Summarize(snapshots, oldest, cells, temperatures);
      data := Some(summary);
      if config.Explicit? {
        var sums := ComputeElectricalTotals(snapshots);
        totals := Some(sums);
      }
    }

    method Summarize(snapshots: seq<Snapshot>, oldest: seq<real>, cells: seq<(int, real)>, temperatures: seq<real>)
      returns (data: Aggregate)
      requires Summable(snapshots) && Slotted(config, snapshots) && |oldest| == |snapshots|
      requires forall n | 0 <= n < |snapshots| :: Oldest(snapshots[n].battery.times) == Some(oldest[n])
      requires Elements(cells) == NumberedCells(config, snapshots) && Elements(temperatures) == SensorValues(snapshots)
      ensures data == Summary(snapshots, |snapshots| == config.Count(), telemetryPartial)
    {
      hide NumberedCells, SensorValues, CellVoltages, Elements, Lowest, Highest, SocValues, OldestTimes, Minimum;
      hide Maximum;
      var complete := |snapshots| == config.Count();
      var socs := seq(|snapshots|, n requires 0 <= n < |snapshots| => snapshots[n].battery.soc.value);
      var voltages := seq(|cells|, n requires 0 <= n < |cells| => cells[n].1);
      ListsAreSummarized(config, snapshots, oldest, socs, cells, voltages, temperatures);
      data := Aggregate(
        complete, Lowest(oldest[0], oldest[1..]), telemetryPartial, Lowest(socs[0], socs[1..]),
        if voltages == [] then None else Some(Lowest(voltages[0], voltages[1..])),
        if voltages == [] then None else Some(Highest(voltages[0], voltages[1..])),
        Lowest(temperatures[0], temperatures[1..]), Highest(temperatures[0], temperatures[1..]),
        complete && (forall n | 0 <= n < |snapshots| :: snapshots[n].battery.charging == Some(true)),
        complete && (forall n | 0 <= n < |snapshots| :: snapshots[n].battery.discharging == Some(true)));
    }
  }

  // ---- Collecting ---------------------------------------------------------------------------------

  ghost function Elements<T>(s: seq<T>): set<T> {
    set x | x in s
  }

  lemma ElementsNext<T>(s: seq<T>, x: T)
    ensures Elements(s + [x]) == Elements(s) + {x}
  {
  }

  ghost function CellsAmong(config: Config, s: Snapshot, keys: set<Index>): set<(int, real)>
    requires 1 <= s.slot <= config.Count()
  {
    set cell | cell in keys && Measures(s, cell) :: NumberedCell(config, s, cell)
  }

  lemma AmongNext(config: Config, s: Snapshot, keys: set<Index>, cell: Index)
    requires 1 <= s.slot <= config.Count() && cell in s.battery.cells
    ensures CellsAmong(config, s, keys + {cell}) ==
            CellsAmong(config, s, keys) + if s.battery.cells[cell] > 0.0 then {NumberedCell(config, s, cell)} else {}
  {
    hide NumberedCell;
  }

  /** The cells of one battery, among some, that are measured. */
  ghost function Measured(s: Snapshot, keys: set<Index>): set<Index> {
    set cell | cell in keys && Measures(s, cell)
  }

  lemma MeasuredNext(s: Snapshot, keys: set<Index>, cell: Index)
    requires cell in s.battery.cells && cell !in keys
    ensures |Measured(s, keys + {cell})| == |Measured(s, keys)| + if s.battery.cells[cell] > 0.0 then 1 else 0
  {
    assert Measured(s, keys + {cell}) == Measured(s, keys) + if s.battery.cells[cell] > 0.0 then {cell} else {};
  }

  lemma NothingMeasured(config: Config, s: Snapshot)
    requires 1 <= s.slot <= config.Count()
    ensures Measured(s, {}) == {} && CellsAmong(config, s, {}) == {}
  {
  }

  /** How many cells of all batteries are measured. */
  ghost function MeasuredTotal(snapshots: seq<Snapshot>): nat {
    if snapshots == [] then 0
    else
      var last := snapshots[|snapshots| - 1];
      MeasuredTotal(snapshots[..|snapshots| - 1]) + |Measured(last, last.battery.cells.Keys)|
  }

  ghost function SensorsAmong(s: Snapshot, keys: set<Index>): set<real> {
    set sensor | sensor in keys && sensor in s.battery.temperatures && s.battery.temperatures[sensor] > SENSOR_FAULT
      :: s.battery.temperatures[sensor]
  }

  lemma SensorsNext(s: Snapshot, keys: set<Index>, sensor: Index)
    requires sensor in s.battery.temperatures
    ensures SensorsAmong(s, keys + {sensor}) ==
            SensorsAmong(s, keys) + if s.battery.temperatures[sensor] > SENSOR_FAULT
                then {s.battery.temperatures[sensor]} else {}
  {
  }

  lemma NothingCollected(config: Config)
    ensures Elements<(int, real)>([]) == NumberedCells(config, []) && Elements<real>([]) == SensorValues([])
  {
  }

  lemma CollectedNext(config: Config, snapshots: seq<Snapshot>, n: nat)
    requires Slotted(config, snapshots) && n < |snapshots|
    ensures NumberedCells(config, snapshots[..n + 1]) ==
            NumberedCells(config, snapshots[..n]) + CellsAmong(config, snapshots[n], snapshots[n].battery.cells.Keys)
    ensures SensorValues(snapshots[..n + 1]) ==
            SensorValues(snapshots[..n]) + SensorsAmong(snapshots[n], snapshots[n].battery.temperatures.Keys)
  {
    hide NumberedCell;
    assert snapshots[..n + 1] == snapshots[..n] + [snapshots[n]];
  }

  lemma ListsAreComplete(config: Config, snapshots: seq<Snapshot>, oldest: seq<real>, socs: seq<real>,
                         cells: seq<(int, real)>, voltages: seq<real>, temperatures: seq<real>)
    requires Summable(snapshots) && Slotted(config, snapshots) && |oldest| == |snapshots| == |socs|
    requires |voltages| == |cells|
    requires forall n | 0 <= n < |snapshots| :: Oldest(snapshots[n].battery.times) == Some(oldest[n])
    requires forall n | 0 <= n < |snapshots| :: snapshots[n].battery.soc == Some(socs[n])
    requires forall n | 0 <= n < |cells| :: voltages[n] == cells[n].1
    requires Elements(cells) == NumberedCells(config, snapshots) && Elements(temperatures) == SensorValues(snapshots)
    ensures forall v :: v in oldest <==> v in OldestTimes(snapshots)
    ensures forall v :: v in socs <==> v in SocValues(snapshots)
    ensures forall v :: v in voltages <==> v in CellVoltages(snapshots)
    ensures forall v :: v in temperatures <==> v in SensorValues(snapshots)
    ensures voltages == [] <==> CellVoltages(snapshots) == {}
    ensures temperatures != []
  {
    assert Elements<real>([]) == {};
    forall v ensures v in voltages <==> v in CellVoltages(snapshots) {
      VoltagesAreNumbered(config, snapshots, cells, voltages, v);
    }
    if voltages != [] {
      assert voltages[0] in voltages;
    }
    forall v ensures v in temperatures <==> v in SensorValues(snapshots) {
      assert v in temperatures <==> v in Elements(temperatures);
    }
  }

  lemma ListsAreSummarized(config: Config, snapshots: seq<Snapshot>, oldest: seq<real>, socs: seq<real>,
                           cells: seq<(int, real)>, voltages: seq<real>, temperatures: seq<real>)
    requires Summable(snapshots) && Slotted(config, snapshots) && |oldest| == |snapshots| == |socs|
    requires |voltages| == |cells|
    requires forall n | 0 <= n < |snapshots| :: Oldest(snapshots[n].battery.times) == Some(oldest[n])
    requires forall n | 0 <= n < |snapshots| :: snapshots[n].battery.soc == Some(socs[n])
    requires forall n | 0 <= n < |cells| :: voltages[n] == cells[n].1
    requires Elements(cells) == NumberedCells(config, snapshots) && Elements(temperatures) == SensorValues(snapshots)
    ensures temperatures != []
    ensures forall complete, partial ::
              var data := Summary(snapshots, complete, partial);
              && data.oldestSampleTime == Lowest(oldest[0], oldest[1..]) && data.soc == Lowest(socs[0], socs[1..])
              && data.minCell == (if voltages == [] then None else Some(Lowest(voltages[0], voltages[1..])))
              && data.maxCell == (if voltages == [] then None else Some(Highest(voltages[0], voltages[1..])))
              && data.minTemp == Lowest(temperatures[0], temperatures[1..])
                  && data.maxTemp == Highest(temperatures[0], temperatures[1..])
  {
    hide NumberedCells, SensorValues, CellVoltages, Elements, Lowest, Highest, SocValues, OldestTimes, Minimum, Maximum;
    ListsAreComplete(config, snapshots, oldest, socs, cells, voltages, temperatures);
    if voltages != [] {
      LowestIsMinimum(voltages, CellVoltages(snapshots));
    }
    LowestIsMinimum(socs, SocValues(snapshots));
    LowestIsMinimum(oldest, OldestTimes(snapshots));
    LowestIsMinimum(temperatures, SensorValues(snapshots));
  }

  lemma VoltagesAreNumbered(config: Config, snapshots: seq<Snapshot>, cells: seq<(int, real)>, voltages: seq<real>,
      v: real)
    requires Slotted(config, snapshots) && |voltages| == |cells|
    requires forall n | 0 <= n < |cells| :: voltages[n] == cells[n].1
    requires Elements(cells) == NumberedCells(config, snapshots)
    ensures v in voltages <==> v in CellVoltages(snapshots)
  {
    if v in voltages {
      var n :| 0 <= n < |voltages| && voltages[n] == v;
      assert cells[n] in Elements(cells);
    }
    if v in CellVoltages(snapshots) {
      var n, cell :| 0 <= n < |snapshots| && cell in snapshots[n].battery.cells && Measures(snapshots[n], cell)
          && snapshots[n].battery.cells[cell] == v;
      assert NumberedCell(config, snapshots[n], cell) in Elements(cells);
      var k :| 0 <= k < |cells| && cells[k] == NumberedCell(config, snapshots[n], cell);
      assert voltages[k] == v;
    }
  }

  lemma UsableHasSamples(b: Battery, now: real)
    requires b.Usable(now)
    ensures Oldest(b.times).Some? && b.soc.Some?
  {
    assert Voltage in b.RequiredKeys();
    assert b.Fresh(Voltage, now);
  }
}
