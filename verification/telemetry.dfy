/** dbus_mqtt_battery/telemetry.py: schema 1 frames, complete and partial, decoded into detached batteries. */
module Telemetry {
  import opened Prelude
  import opened BmsData
  import opened Frames

  datatype Header = Header(bootId: string, sequence: nat, ready: bool)

  const ALL_EVIDENCE := 511
  const STATUS_BIT := 8

  predicate ValidBootId(v: Value) {
    v.Text? && 1 <= |v.s| <= 128
  }

  function DecodeHeader(payload: Payload): Decoded<Header> {
    if payload.Readable? && payload.frame.schema == Int(1) && ValidBootId(payload.frame.bootId)
       && payload.frame.sequence.Int? && payload.frame.sequence.n >= 0 && payload.frame.ready.Bool?
    then Accepted(Header(payload.frame.bootId.s, payload.frame.sequence.n, payload.frame.ready.b))
    else Rejected
  }

  predicate Equals(v: Value, n: int) {
    v == Int(n) || v == Float(n as real)
  }

  function Seconds(ms: Value): Option<real> {
    var n := Number(ms);
    if n.Some? then Some(n.value / 1000.0) else None
  }

  predicate Numeric(v: Value) {
    Number(v).Some?
  }

  // ---- What one row evidences, and how old it says that evidence is -----------------------------

  function RowAge(row: Row, ready: bool): Option<real>
    requires row.Row?
  {
    Seconds(if ready then row.ageMs else row.observedAgeMs)
  }

  function BitWeight(index: nat): int
    requires index <= 8
  {
    [1, 2, 4, 8, 16, 32, 64, 128, 256][index]
  }

  predicate Bit(mask: int, index: nat)
    requires index <= 8
  {
    mask / BitWeight(index) % 2 == 1
  }

  function ObservedKey(index: nat): Key
    requires index < 8
  {
    if index == 0 then Voltage
    else if index == 1 then Current
    else if index == 2 then Soc
    else if index == 3 then Temperature(1)
    else Cell(index - 3)
  }

  function CellValue(row: Row, cell: Index): Option<real>
    requires row.Row?
  {
    if row.cells.Items? && cell <= |row.cells.elements| then Number(row.cells.elements[cell - 1]) else None
  }

  function Scalar(row: Row, key: Key): Option<real>
    requires row.Row?
  {
    match key
    case Voltage => Number(row.voltage)
    case Current => Number(row.current)
    case Soc => Number(row.soc)
    case Temperature(i) => if i == 1 then Number(row.temperature) else None
    case Cell(i) => CellValue(row, i)
    case _ => None
  }

  /** The number a row carries for a key: in a complete row a temperatures array outranks the scalar. */
  function Carried(row: Row, ready: bool, key: Key): Option<real>
    requires row.Row?
  {
    if ready && key.Temperature? && row.temperatures.Items? then
      if key.sensor <= |row.temperatures.elements| then Number(row.temperatures.elements[key.sensor - 1]) else None
    else
      Scalar(row, key)
  }

  /** A complete row evidences all it carries; a partial row only the keys whose bit is set in its mask. */
  predicate Evidences(row: Row, ready: bool, key: Key)
    requires row.Row?
  {
    ready || (row.seenMask.Int? && exists index | 0 <= index < 8 ::
        Bit(row.seenMask.n, index) && ObservedKey(index) == key)
  }

  // ---- Complete rows ----------------------------------------------------------------------------

  /** _complete_evidence: the optional masks, the age and the configured cell inventory. */
  predicate CompleteEvidence(row: Row, cellsPerBms: nat)
    requires row.Row?
  {
    && ((row.seenMask == Absent && row.validMask == Absent)
        || (Equals(row.seenMask, ALL_EVIDENCE) && Equals(row.validMask, ALL_EVIDENCE)))
    && RowAge(row, true).Some? && 0.0 <= RowAge(row, true).value < STALE_TIMEOUT
    && row.cells.Items? && |row.cells.elements| == cellsPerBms
  }

  predicate ScalarsGiven(row: Row)
    requires row.Row?
  {
    Numeric(row.voltage) && Numeric(row.current) && Numeric(row.soc) && Numeric(row.temperature)
  }

  predicate TemperaturesGiven(items: Items) {
    items.NoItems? || (items.Items? && items.elements != [] && forall v | v in items.elements :: Numeric(v))
  }

  predicate CellsGiven(items: Items) {
    items.Items? && forall v | v in items.elements :: Numeric(v) && Number(v).value > 0.0
  }

  predicate StatusKnown(row: Row)
    requires row.Row?
  {
    row.charging.Bool? && row.discharging.Bool? && row.online.Bool?
  }

  function SensorCount(row: Row): nat
    requires row.Row?
  {
    if row.temperatures.Items? then |row.temperatures.elements| else 1
  }

  /** Element i of a JSON array, counted from one; zero stands in for what is not a number. */
  function Element(elements: seq<Value>, i: Index): real
    requires i <= |elements|
  {
    var number := Number(elements[i - 1]);
    if number.Some? then number.value else 0.0
  }

  function Numbered(elements: seq<Value>, count: nat): map<Index, real>
    requires count <= |elements|
  {
    map i: Index | 1 <= i <= count :: Element(elements, i)
  }

  function SensorKeys(count: nat): set<Key> {
    set i: Index | 1 <= i <= count :: Temperature(i)
  }

  function CellKeys(count: nat): set<Key> {
    set i: Index | 1 <= i <= count :: Cell(i)
  }

  lemma NoKeys()
    ensures SensorKeys(0) == CellKeys(0) == {}
  {
  }

  lemma KeysNext(count: nat)
    ensures SensorKeys(count + 1) == SensorKeys(count) + {Temperature(count + 1)}
    ensures CellKeys(count + 1) == CellKeys(count) + {Cell(count + 1)}
  {
  }

  lemma NothingNumbered(base: map<Index, real>, elements: seq<Value>)
    ensures base + Numbered(elements, 0) == base
  {
  }

  lemma NumberedNext(base: map<Index, real>, elements: seq<Value>, n: nat)
    requires n < |elements| && Numeric(elements[n])
    ensures base + Numbered(elements, n + 1) == (base + Numbered(elements, n))[n + 1 := Number(elements[n]).value]
  {
  }

  function CompleteKeys(row: Row): set<Key>
    requires row.Row? && row.cells.Items?
  {
    {Voltage, Current, Soc} + STATUS_KEYS
    + CellKeys(|row.cells.elements|)
    + SensorKeys(SensorCount(row))
  }

  function RowTemperatures(row: Row): map<Index, real>
    requires row.Row? && Numeric(row.temperature)
  {
    if row.temperatures.Items? then Numbered(row.temperatures.elements, |row.temperatures.elements|)
    else map[1 := Number(row.temperature).value]
  }

  predicate CompleteShape(row: Row)
    requires row.Row?
  {
    ScalarsGiven(row) && TemperaturesGiven(row.temperatures) && CellsGiven(row.cells) && StatusKnown(row)
  }

  /** The detached battery a complete row describes, every field dated at one time. */
  function CompleteBattery(row: Row, cellsPerBms: nat, at: real): Battery
    requires row.Row? && CompleteShape(row)
  {
    Battery(
      cellsPerBms,
      Number(row.voltage), Number(row.current), Number(row.soc),
      RowTemperatures(row),
      Numbered(row.cells.elements, |row.cells.elements|),
      Some(row.charging.b), Some(row.discharging.b), Some(row.online.b),
      map key | key in CompleteKeys(row) :: at)
  }

  ghost predicate CompleteRow(row: Row, cellsPerBms: nat, now: real) {
    && row.Row? && CompleteEvidence(row, cellsPerBms) && CompleteShape(row)
    && CompleteBattery(row, cellsPerBms, now - RowAge(row, true).value).Usable(now)
  }

  /** _update_measurements and the status part of _decode_complete_row, on one detached battery. */
  method FillFromRow(row: Row, battery: BatteryData, now: real) returns (ok: bool)
    requires row.Row? && row.cells.Items? && battery.State() == Unknown(battery.cellCount)
    modifies battery
    ensures ok <==> CompleteShape(row)
    ensures ok ==> battery.State() == CompleteBattery(row, battery.cellCount, now).(times := battery.sampleTimes)
    ensures ok ==> battery.sampleTimes.Keys == CompleteKeys(row) - STATUS_KEYS
  {
    ok := FillScalars(row, battery, now);
    if !ok {
      return;
    }
    ok := FillTemperatures(row, battery, now);
    if !ok {
      return;
    }
    ok := FillCells(row, battery, now);
    if !ok {
      return;
    }
    ok := FillStatus(row, battery);
  }

  method FillScalars(row: Row, battery: BatteryData, now: real) returns (ok: bool)
    requires row.Row? && battery.State() == Unknown(battery.cellCount)
    modifies battery
    ensures ok <==> ScalarsGiven(row)
    ensures ok ==> battery.State() == Unknown(battery.cellCount).(
                     voltage := Number(row.voltage), current := Number(row.current), soc := Number(row.soc),
                     temperatures := map[1 := Number(row.temperature).value], times := battery.sampleTimes)
    ensures ok ==> battery.sampleTimes.Keys == {Voltage, Current, Soc, Temperature(1)}
  {
    ok := ScalarsGiven(row);
    if ok {
      battery.Update(Voltage, Number(row.voltage).value, now);
      battery.Update(Current, Number(row.current).value, now);
      battery.Update(Soc, Number(row.soc).value, now);
      battery.Update(Temperature(1), Number(row.temperature).value, now);
    }
  }

  method FillTemperatures(row: Row, battery: BatteryData, now: real) returns (ok: bool)
    requires row.Row? && Numeric(row.temperature)
    requires battery.temperatures == map[1 := Number(row.temperature).value] && Temperature(1) in battery.sampleTimes
    modifies battery
    ensures ok <==> TemperaturesGiven(row.temperatures)
    ensures battery.State() == old(battery.State()).(temperatures := battery.temperatures, times := battery.sampleTimes)
    ensures ok ==> battery.temperatures == RowTemperatures(row)
    ensures ok ==> battery.sampleTimes.Keys == old(battery.sampleTimes.Keys) + SensorKeys(SensorCount(row))
  {
    if row.temperatures.NoItems? {
      return true;
    }
    if row.temperatures.NotItems? || row.temperatures.elements == [] {
      return false;
    }
    ok := FillSensors(row.temperatures.elements, battery, now);
    if ok {
      assert 1 in Numbered(row.temperatures.elements, SensorCount(row));
      assert old(battery.temperatures) + RowTemperatures(row) == RowTemperatures(row);
    }
  }

  method FillSensors(elements: seq<Value>, battery: BatteryData, now: real) returns (ok: bool)
    modifies battery
    ensures ok <==> forall v | v in elements :: Numeric(v)
    ensures battery.State() == old(battery.State()).(temperatures := battery.temperatures, times := battery.sampleTimes)
    ensures ok ==> battery.temperatures == old(battery.temperatures) + Numbered(elements, |elements|)
    ensures ok ==> battery.sampleTimes.Keys == old(battery.sampleTimes.Keys) + SensorKeys(|elements|)
  {
    hide SensorKeys, CellKeys, Numbered, Dated;
    NoKeys();
    NothingNumbered(battery.temperatures, elements);
    for n := 0 to |elements|
      invariant forall v | v in elements[..n] :: Numeric(v)
      invariant battery.State()
          == old(battery.State()).(temperatures := battery.temperatures, times := battery.sampleTimes)
      invariant battery.temperatures == old(battery.temperatures) + Numbered(elements, n)
      invariant battery.sampleTimes.Keys == old(battery.sampleTimes.Keys) + SensorKeys(n)
    {
      if !Numeric(elements[n]) {
        return false;
      }
      KeysNext(n);
      NumberedNext(old(battery.temperatures), elements, n);
      DatedOne(battery.sampleTimes, Temperature(n + 1), now);
      battery.Update(Temperature(n + 1), Number(elements[n]).value, now);
      assert elements[..n + 1] == elements[..n] + [elements[n]];
    }
    assert elements[..|elements|] == elements;
    return true;
  }

  method FillCells(row: Row, battery: BatteryData, now: real) returns (ok: bool)
    requires row.Row? && row.cells.Items? && battery.cells == map[]
    modifies battery
    ensures ok <==> CellsGiven(row.cells)
    ensures battery.State() == old(battery.State()).(cells := battery.cells, times := battery.sampleTimes)
    ensures ok ==> battery.cells == Numbered(row.cells.elements, |row.cells.elements|)
    ensures ok ==> battery.sampleTimes.Keys == old(battery.sampleTimes.Keys) + CellKeys(|row.cells.elements|)
  {
    hide SensorKeys, CellKeys, Numbered, Dated;
    NoKeys();
    var elements := row.cells.elements;
    NothingNumbered(battery.cells, elements);
    for n := 0 to |elements|
      invariant forall v | v in elements[..n] :: Numeric(v) && Number(v).value > 0.0
      invariant battery.State() == old(battery.State()).(cells := battery.cells, times := battery.sampleTimes)
      invariant battery.cells == old(battery.cells) + Numbered(elements, n)
      invariant battery.sampleTimes.Keys == old(battery.sampleTimes.Keys) + CellKeys(n)
    {
      if !Numeric(elements[n]) || Number(elements[n]).value <= 0.0 {
        return false;
      }
      KeysNext(n);
      NumberedNext(old(battery.cells), elements, n);
      DatedOne(battery.sampleTimes, Cell(n + 1), now);
      battery.Update(Cell(n + 1), Number(elements[n]).value, now);
      assert elements[..n + 1] == elements[..n] + [elements[n]];
    }
    assert elements[..|elements|] == elements;
    assert old(battery.cells) + Numbered(elements, |elements|) == Numbered(elements, |elements|);
    return true;
  }

  method FillStatus(row: Row, battery: BatteryData) returns (ok: bool)
    requires row.Row?
    modifies battery
    ensures ok <==> StatusKnown(row)
    ensures ok ==> battery.State() == old(battery.State()).(
                     charging := Some(row.charging.b), discharging := Some(row.discharging.b),
                     online := Some(row.online.b))
  {
    ok := StatusKnown(row);
    if ok {
      battery.UpdateBoolean(Charging, row.charging.b);
      battery.UpdateBoolean(Discharging, row.discharging.b);
      battery.UpdateBoolean(Online, row.online.b);
    }
  }

  /** Give every field of a filled battery, and its status fields, the age of the physical sample. */
  method DateEveryField(ghost keys: set<Key>, battery: BatteryData, at: real)
    requires battery.sampleTimes.Keys == keys - STATUS_KEYS && STATUS_KEYS <= keys
    modifies battery`sampleTimes
    ensures battery.State() == old(battery.State()).(times := map key | key in keys :: at)
  {
    battery.Redate(at);
    battery.MarkSampleTime([Charging, Discharging, Online], at);
    assert (set key | key in [Charging, Discharging, Online]) == STATUS_KEYS;
    assert battery.sampleTimes == map key | key in keys :: at;
  }

  /** Build one detached battery; the sensor's age, not the receipt time, dates every field. */
  method DecodeCompleteRow(row: Row, battery: BatteryData, now: real) returns (ok: bool)
    requires row.Row? && battery.State() == Unknown(battery.cellCount)
    modifies battery
    ensures ok <==> CompleteRow(row, battery.cellCount, now)
    ensures ok ==> battery.State() == CompleteBattery(row, battery.cellCount, now - RowAge(row, true).value)
  {
    if !CompleteEvidence(row, battery.cellCount) {
      return false;
    }
    var age := RowAge(row, true).value;
    ok := FillFromRow(row, battery, now);
    if !ok {
      return;
    }
    DateEveryField(CompleteKeys(row), battery, now - age);
    assert battery.State() == CompleteBattery(row, battery.cellCount, now - age);
    ok := battery.IsValid(now);
  }

  // ---- Complete frames --------------------------------------------------------------------------

  ghost function DecodedRow(row: Row, cellsPerBms: nat, now: real): Decoded<Battery> {
    if CompleteRow(row, cellsPerBms, now)
        then Accepted(CompleteBattery(row, cellsPerBms, now - RowAge(row, true).value))
    else Rejected
  }

  ghost function CompleteDecoder(cellsPerBms: nat, now: real): RowDecoder {
    (slot, row) => DecodedRow(row, cellsPerBms, now)
  }

  /** decode_batteries of a ready frame: a new snapshot holding only what this frame carries. */
  ghost function DecodedComplete(batteries: Rows, count: nat, first: int, cellsPerBms: nat,
      now: real): Decoded<seq<Battery>>
  {
    if batteries.Rows? && |batteries.rows| >= count then
      Assembled(batteries.rows, Consecutive(first, count), CompleteDecoder(cellsPerBms, now))
    else Rejected
  }

  /** Decode row n into its own slot of the table of detached batteries. */
  method DecodeTaken(batteries: seq<BatteryData>, slot: int, rows: seq<Row>, n: nat, cellsPerBms: nat, now: real,
                     ghost initial: seq<Battery>, ghost source: map<int, int>) returns (ok: bool)
    requires 1 <= slot <= |batteries| == |initial| && Distinct(batteries) && slot !in source && n < |rows|
    requires rows[n].Row?
    requires Underway(Values(batteries), initial, rows, source, CompleteDecoder(cellsPerBms, now))
    requires initial[slot - 1] == Unknown(cellsPerBms)
    modifies batteries[slot - 1]
    ensures ok ==> Underway(Values(batteries), initial, rows, source[slot := n], CompleteDecoder(cellsPerBms, now))
    ensures !ok ==> CompleteDecoder(cellsPerBms, now)(slot, rows[n]).Rejected?
  {
    hide Underway, Values, CompleteRow, CompleteBattery;
    ghost var before := Values(batteries);
    UnderwayUntouched(before, initial, rows, source, CompleteDecoder(cellsPerBms, now), slot);
    ok := DecodeCompleteRow(rows[n], batteries[slot - 1], now);
    if ok {
      assert Values(batteries) == before[slot - 1 := CompleteDecoder(cellsPerBms, now)(slot, rows[n]).value];
      UnderwayAdds(before, initial, rows, source, CompleteDecoder(cellsPerBms, now), slot, n);
    }
  }

  method DecodeBatteries(frameRows: Rows, count: nat, first: int, cellsPerBms: nat, now: real)
    returns (ok: bool, batteries: seq<BatteryData>)
    ensures forall i | 0 <= i < |batteries| :: fresh(batteries[i])
    ensures DecodedComplete(frameRows, count, first, cellsPerBms, now) == if ok then Accepted(Values(batteries))
        else Rejected
  {
    hide CompleteDecoder, Underway, Scanned, Values;
    batteries := EmptyBatteries(seq(count, i => cellsPerBms));
    if frameRows.NotRows? || |frameRows.rows| < count {
      return false, batteries;
    }
    var rows, ids := frameRows.rows, Consecutive(first, count);
    var seen: set<int> := {};
    ghost var source: map<int, int> := map[];
    ghost var initial := Values(batteries);
    ghost var decode := CompleteDecoder(cellsPerBms, now);
    ScanStarts(initial, rows, ids, decode);
    for n := 0 to |rows|
      invariant seen == source.Keys && Scanned(rows, ids, n, source)
      invariant Underway(Values(batteries), initial, rows, source, decode)
    {
      var verdict := Admit(rows, ids, n, seen, source);
      if verdict.Refuse? {
        ScanRepudiates(rows, ids, decode);
        return false, batteries;
      }
      if verdict.Take? {
        ok := DecodeTaken(batteries, verdict.slot, rows, n, cellsPerBms, now, initial, source);
        if !ok {
          ScanRefuses(rows, ids, decode, n);
          return;
        }
        seen, source := seen + {verdict.slot}, source[verdict.slot := n];
      }
    }
    ok := |seen| == count;
    ScanEnds(Values(batteries), initial, rows, ids, source, decode);
  }

  // ---- Partial rows -----------------------------------------------------------------------------

  /** _partial_evidence: equal producer masks in range and an age that has not expired. */
  predicate PartialEvidence(row: Row, cellCount: nat)
    requires row.Row?
  {
    && cellCount == 4
    && row.seenMask.Int? && row.validMask.Int? && 0 <= row.seenMask.n <= ALL_EVIDENCE
        && row.seenMask.n == row.validMask.n
    && RowAge(row, false).Some? && 0.0 <= RowAge(row, false).value <= STALE_TIMEOUT
    && (row.seenMask.n != 0 ==> RowAge(row, false).value < STALE_TIMEOUT)
  }

  /** _observed_field: the value of one evidenced field, if it is physically possible. */
  function Observed(row: Row, index: nat): Option<real>
    requires row.Row? && index < 8
  {
    var v := Scalar(row, ObservedKey(index));
    if v.Some? && ((index == 0 || index >= 4) ==> v.value > 0.0) && (index == 2 ==> 0.0 <= v.value <= 100.0) then v
        else None
  }

  predicate PartialNumbers(row: Row, mask: int)
    requires row.Row?
  {
    && row.cells.Items? && |row.cells.elements| == 4
    && forall index: nat | index < 8 && Bit(mask, index) :: Observed(row, index).Some?
  }

  predicate PartialStatus(row: Row, mask: int)
    requires row.Row?
  {
    && (Bit(mask, STATUS_BIT) ==> row.charging.Bool? && row.discharging.Bool?)
    && (mask == ALL_EVIDENCE ==> row.online == Bool(true))
  }

  predicate PartialRow(row: Row, cellCount: nat) {
    && row.Row? && PartialEvidence(row, cellCount)
    && (row.seenMask.n != 0 ==> PartialNumbers(row, row.seenMask.n) && PartialStatus(row, row.seenMask.n))
  }

  /** _partial_sample_time: without refresh, nothing may look younger than the oldest reading held. */
  ghost function PartialStamp(times: map<Key, real>, at: real, refresh: bool): real {
    var oldest := Oldest(times);
    if !refresh && oldest.Some? then Least(at, oldest.value) else at
  }

  /** Recording a field at the stamp leaves the stamp of the remaining fields what it was. */
  lemma StampIsStable(times: map<Key, real>, at: real, refresh: bool, key: Key)
    ensures PartialStamp(times[key := PartialStamp(times, at, refresh)], at, refresh)
        == PartialStamp(times, at, refresh)
  {
    if !refresh {
      var stamp := PartialStamp(times, at, refresh);
      var later := times[key := stamp];
      assert later[key] == stamp;
      var oldest := Oldest(later).value;
      assert oldest in later.Values;
      assert oldest <= stamp <= oldest;
    }
  }

  ghost function Numbers(b: Battery, row: Row, stamp: real, count: nat): Battery
    requires count <= 8 && row.Row? && row.seenMask.Int? && PartialNumbers(row, row.seenMask.n)
  {
    if count == 0 then b else
    var before := Numbers(b, row, stamp, count - 1);
    if Bit(row.seenMask.n, count - 1)
    then before.Put(ObservedKey(count - 1), Observed(row, count - 1).value).Stamp({ObservedKey(count - 1)}, stamp)
    else before
  }

  /** Positive MOS states are not stored; without refresh the status fields keep their age. */
  function WithStatus(b: Battery, row: Row, at: real, refresh: bool): Battery
    requires row.Row? && row.seenMask.Int?
  {
    if !Bit(row.seenMask.n, STATUS_BIT) then b else
    var vetoed := b.(
      charging := if row.charging == Bool(false) then Some(false) else b.charging,
      discharging := if row.discharging == Bool(false) then Some(false) else b.discharging);
    if refresh then vetoed.Stamp(STATUS_KEYS, at) else vetoed
  }

  ghost function Merged(b: Battery, row: Row, now: real, refresh: bool): Battery
    requires PartialRow(row, b.cellCount)
  {
    if row.seenMask.n == 0 then b else
    var at := now - RowAge(row, false).value;
    WithStatus(Numbers(b, row, PartialStamp(b.times, at, refresh), 8), row, at, refresh)
  }

  method MergePartialNumbers(row: Row, battery: BatteryData, age: real, now: real, refresh: bool) returns (ok: bool)
    requires row.Row? && row.seenMask.Int?
    modifies battery
    ensures ok <==> PartialNumbers(row, row.seenMask.n)
    ensures ok ==>
              battery.State()
              == Numbers(old(battery.State()), row, PartialStamp(old(battery.sampleTimes), now - age, refresh), 8)
  {
    var mask := row.seenMask.n;
    if !row.cells.Items? || |row.cells.elements| != 4 {
      return false;
    }
    if exists index: nat | index < 8 :: Bit(mask, index) && Observed(row, index).None? {
      return false;
    }
    MergeNumbersInMask(row, battery, now - age, now, refresh);
    return true;
  }

  method MergeNumbersInMask(row: Row, battery: BatteryData, at: real, now: real, refresh: bool)
    requires row.Row? && row.seenMask.Int? && PartialNumbers(row, row.seenMask.n)
    modifies battery
    ensures battery.State() == Numbers(old(battery.State()), row, PartialStamp(old(battery.sampleTimes), at, refresh),
        8)
  {
    hide PartialStamp;
    ghost var stamp := PartialStamp(battery.sampleTimes, at, refresh);
    for index := 0 to 8
      invariant battery.State() == Numbers(old(battery.State()), row, stamp, index)
      invariant PartialStamp(battery.sampleTimes, at, refresh) == stamp
    {
      if Bit(row.seenMask.n, index) {
        StampIsStable(battery.sampleTimes, at, refresh, ObservedKey(index));
        MergePartialNumber(battery, ObservedKey(index), Observed(row, index).value, at, now, refresh);
      }
    }
  }

  method PartialSampleTime(battery: BatteryData, at: real, refresh: bool) returns (sampledAt: real)
    ensures sampledAt == PartialStamp(battery.sampleTimes, at, refresh)
  {
    sampledAt := at;
    if !refresh {
      var previous := battery.OldestSampleTime();
      if previous.Some? {
        sampledAt := Least(at, previous.value);
      }
    }
  }

  lemma LastStampWins(b: Battery, key: Key, v: real, now: real, at: real)
    requires key.Measured()
    ensures b.Put(key, v).Stamp({key}, now).Stamp({key}, at) == b.Put(key, v).Stamp({key}, at)
    ensures b.Put(key, v).Stamp({key}, at).times == b.times[key := at]
  {
  }

  method MergePartialNumber(battery: BatteryData, key: Key, v: real, at: real, now: real, refresh: bool)
    requires key.Measured()
    modifies battery
    ensures battery.State() == old(battery.State()).Put(key, v).Stamp({key},
        PartialStamp(old(battery.sampleTimes), at, refresh))
    ensures battery.sampleTimes == old(battery.sampleTimes)[key := PartialStamp(old(battery.sampleTimes), at, refresh)]
  {
    hide PartialStamp;
    ghost var before := battery.State();
    var sampledAt := PartialSampleTime(battery, at, refresh);
    battery.Update(key, v, now);
    battery.MarkSampleTime([key], sampledAt);
    assert (set k | k in [key]) == {key};
    LastStampWins(before, key, v, now, sampledAt);
    assert battery.State() == before.Put(key, v).Stamp({key}, sampledAt);
  }

  method MergePartialStatus(row: Row, battery: BatteryData, at: real, refresh: bool) returns (ok: bool)
    requires row.Row? && row.seenMask.Int?
    modifies battery
    ensures ok <==> PartialStatus(row, row.seenMask.n)
    ensures ok ==> battery.State() == WithStatus(old(battery.State()), row, at, refresh)
  {
    var mask := row.seenMask.n;
    if Bit(mask, STATUS_BIT) {
      if !row.charging.Bool? || !row.discharging.Bool? {
        return false;
      }
      if !row.charging.b {
        battery.UpdateBoolean(Charging, false);
      }
      if !row.discharging.b {
        battery.UpdateBoolean(Discharging, false);
      }
      if refresh {
        battery.MarkSampleTime([Charging, Discharging, Online], at);
        assert (set key | key in [Charging, Discharging, Online]) == STATUS_KEYS;
      }
    }
    return mask != ALL_EVIDENCE || row.online == Bool(true);
  }

  method MergeRow(row: Row, battery: BatteryData, now: real, refresh: bool) returns (ok: bool)
    requires row.Row?
    modifies battery
    ensures ok <==> PartialRow(row, battery.cellCount)
    ensures ok ==> battery.State() == Merged(old(battery.State()), row, now, refresh)
  {
    if !PartialEvidence(row, battery.cellCount) {
      return false;
    }
    if row.seenMask.n == 0 {
      return true;
    }
    var age := RowAge(row, false).value;
    ok := MergePartialNumbers(row, battery, age, now, refresh);
    if ok {
      ok := MergePartialStatus(row, battery, now - age, refresh);
    }
  }

  // ---- Partial frames ---------------------------------------------------------------------------

  ghost function PartialDecoder(previous: seq<Battery>, now: real, refresh: bool): RowDecoder {
    (slot, row) =>
      if 1 <= slot <= |previous| && PartialRow(row, previous[slot - 1].cellCount)
      then Accepted(Merged(previous[slot - 1], row, now, refresh))
      else Rejected
  }

  /** merge_partial: the previous table, with the evidenced fields of each configured row merged in. */
  ghost function MergedPartial(batteries: Rows, previous: seq<Battery>, first: int, now: real,
      refresh: bool): Decoded<seq<Battery>>
  {
    if batteries.Rows? then Assembled(batteries.rows, Consecutive(first, |previous|),
        PartialDecoder(previous, now, refresh)) else Rejected
  }

  method CopyBatteries(previous: seq<BatteryData>) returns (copies: seq<BatteryData>)
    ensures |copies| == |previous| && Distinct(copies) && Values(copies) == Values(previous)
    ensures forall i | 0 <= i < |copies| :: fresh(copies[i])
  {
    copies := [];
    for n := 0 to |previous|
      invariant |copies| == n && Distinct(copies)
      invariant forall i | 0 <= i < n :: fresh(copies[i]) && copies[i].State() == previous[i].State()
    {
      var copy := previous[n].Copy();
      copies := copies + [copy];
    }
  }

  /** Merge row n into its own slot of the table of detached copies. */
  method MergeTaken(batteries: seq<BatteryData>, slot: int, rows: seq<Row>, n: nat, now: real, refresh: bool,
                    ghost previous: seq<Battery>, ghost source: map<int, int>) returns (ok: bool)
    requires 1 <= slot <= |batteries| == |previous| && Distinct(batteries) && slot !in source && n < |rows|
    requires rows[n].Row?
    requires Underway(Values(batteries), previous, rows, source, PartialDecoder(previous, now, refresh))
    modifies batteries[slot - 1]
    ensures ok ==> Underway(Values(batteries), previous, rows, source[slot := n],
        PartialDecoder(previous, now, refresh))
    ensures !ok ==> PartialDecoder(previous, now, refresh)(slot, rows[n]).Rejected?
  {
    hide Underway, Values, PartialRow, Merged;
    ghost var before := Values(batteries);
    UnderwayUntouched(before, previous, rows, source, PartialDecoder(previous, now, refresh), slot);
    ok := MergeRow(rows[n], batteries[slot - 1], now, refresh);
    if ok {
      assert Values(batteries) == before[slot - 1 := PartialDecoder(previous, now, refresh)(slot, rows[n]).value];
      UnderwayAdds(before, previous, rows, source, PartialDecoder(previous, now, refresh), slot, n);
    }
  }

  /** The previous table is left untouched; a rejected frame leaves nothing behind. */
  method MergePartial(frameRows: Rows, previous: seq<BatteryData>, first: int, now: real, refresh: bool)
    returns (ok: bool, batteries: seq<BatteryData>)
    ensures forall i | 0 <= i < |batteries| :: fresh(batteries[i])
    ensures MergedPartial(frameRows, old(Values(previous)), first, now, refresh) == if ok
        then Accepted(Values(batteries)) else Rejected
  {
    hide PartialDecoder, Underway, Scanned, Values;
    batteries := CopyBatteries(previous);
    if frameRows.NotRows? {
      return false, batteries;
    }
    var rows, ids := frameRows.rows, Consecutive(first, |previous|);
    var found: set<int> := {};
    ghost var source: map<int, int> := map[];
    ghost var initial := Values(previous);
    ghost var decode := PartialDecoder(initial, now, refresh);
    ScanStarts(initial, rows, ids, decode);
    for n := 0 to |rows|
      invariant found == source.Keys && Scanned(rows, ids, n, source)
      invariant Underway(Values(batteries), initial, rows, source, decode)
    {
      var verdict := Admit(rows, ids, n, found, source);
      if verdict.Refuse? {
        ScanRepudiates(rows, ids, decode);
        return false, batteries;
      }
      if verdict.Take? {
        ok := MergeTaken(batteries, verdict.slot, rows, n, now, refresh, initial, source);
        if !ok {
          ScanRefuses(rows, ids, decode, n);
          return;
        }
        found, source := found + {verdict.slot}, source[verdict.slot := n];
      }
    }
    ok := |found| == |previous|;
    ScanEnds(Values(batteries), initial, rows, ids, source, decode);
  }
}
