/** dbus_mqtt_battery/bms_data.py: one physical battery and the age of each of its readings. */
module BmsData {
  import opened Prelude

  const STALE_TIMEOUT: real := 60.0
  const SENSOR_FAULT: real := -40.0

  type Index = i: int | 1 <= i witness 1

  datatype Key =
    | Voltage
    | Current
    | Soc
    | Temperature(sensor: Index)
    | Cell(cell: Index)
    | Charging
    | Discharging
    | Online
  {
    /** Physical measurements, as opposed to permission and status fields. */
    predicate Measured() {
      !Charging? && !Discharging? && !Online?
    }
  }

  const STATUS_KEYS: set<Key> := {Charging, Discharging, Online}

  /** The value of a BatteryData object: what is known, and when each field was physically sampled. */
  datatype Battery = Battery(
    cellCount: nat,
    voltage: Option<real>,
    current: Option<real>,
    soc: Option<real>,
    temperatures: map<Index, real>,
    cells: map<Index, real>,
    charging: Option<bool>,
    discharging: Option<bool>,
    online: Option<bool>,
    times: map<Key, real>)
  {
    function Reading(key: Key): Option<real> {
      match key
      case Voltage => voltage
      case Current => current
      case Soc => soc
      case Temperature(i) => if i in temperatures then Some(temperatures[i]) else None
      case Cell(i) => if i in cells then Some(cells[i]) else None
      case _ => None
    }

    /** The configured cells, every known temperature sensor (at least the first), and the scalars. */
    function RequiredKeys(): set<Key> {
      {Voltage, Current, Soc}
      + (set i: Index | 1 <= i <= cellCount :: Cell(i))
      + (if temperatures == map[] then {Temperature(1)} else set i | i in temperatures :: Temperature(i))
    }

    /** One tracked field has been sampled less than STALE_TIMEOUT ago, and not in the future. */
    predicate Fresh(key: Key, now: real) {
      key in times && 0.0 <= now - times[key] < STALE_TIMEOUT
    }

    predicate PlausibleValues() {
      && voltage.Some? && voltage.value > 0.0
      && soc.Some? && 0.0 <= soc.value <= 100.0
      && (forall i: Index | 1 <= i <= cellCount :: i in cells && cells[i] > 0.0)
      && (exists i :: i in temperatures && temperatures[i] > SENSOR_FAULT)
    }

    /** Every required and every tracked field is fresh, every permission known, the BMS online. */
    ghost predicate Usable(now: real) {
      && (forall key :: key in RequiredKeys() || key in times ==> Fresh(key, now))
      && charging.Some? && discharging.Some? && online == Some(true)
      && PlausibleValues()
    }

    function Put(key: Key, v: real): Battery
      requires key.Measured()
    {
      match key
      case Voltage => this.(voltage := Some(v))
      case Current => this.(current := Some(v))
      case Soc => this.(soc := Some(v))
      case Temperature(i) => this.(temperatures := temperatures[i := v])
      case Cell(i) => this.(cells := cells[i := v])
    }

    function PutStatus(key: Key, b: bool): Battery
      requires !key.Measured()
    {
      match key
      case Charging => this.(charging := Some(b))
      case Discharging => this.(discharging := Some(b))
      case Online => this.(online := Some(b))
    }

    function Stamp(keys: set<Key>, at: real): Battery {
      this.(times := times + Dated(keys, at))
    }
  }

  function Dated(keys: set<Key>, at: real): map<Key, real> {
    map key | key in keys :: at
  }

  lemma DatedNext(times: map<Key, real>, keys: set<Key>, key: Key, at: real)
    ensures times + Dated(keys + {key}, at) == (times + Dated(keys, at))[key := at]
  {
  }

  lemma DatedOne(times: map<Key, real>, key: Key, at: real)
    ensures times + Dated({key}, at) == times[key := at]
  {
  }

  lemma NothingDated(times: map<Key, real>, at: real)
    ensures times + Dated({}, at) == times
  {
  }

  function Unknown(cellCount: nat): Battery {
    Battery(cellCount, None, None, None, map[], map[], None, None, None, map[])
  }

  /** The time of the oldest sample, if there is any. */
  ghost function Oldest(times: map<Key, real>): (t: Option<real>)
    ensures t.None? <==> times == map[]
    ensures t.Some? ==> IsLeast(t.value, times.Values)
    ensures t.Some? ==> forall key :: key in times ==> t.value <= times[key]
  {
    if times == map[] then None else
    assert forall key :: key in times ==> times[key] in times.Values;
    var key :| key in times;
    assert times[key] in times.Values;
    Some(Minimum(times.Values))
  }

  /** What one required or tracked field lacks; the order of the source's list is display only. */
  datatype Gap = Untimely(key: Key) | UnknownPermission(key: Key) | NotOnline | NoVoltage | BadSoc | BadCells
      | NoTemperature

  /** What a battery must keep sampling: voltage, current, charge, its cells, its sensors, and what it ever sampled. */
  ghost predicate MustBeSampled(b: Battery, key: Key) {
    match key
    case Voltage | Current | Soc => true
    case Cell(cell) => cell <= b.cellCount || key in b.times
    case Temperature(sensor) => sensor in b.temperatures || (b.temperatures == map[] && sensor == 1) || key in b.times
    case _ => key in b.times
  }

  ghost predicate IsGap(b: Battery, now: real, gap: Gap) {
    match gap
    case Untimely(key) => MustBeSampled(b, key) && !(key in b.times && 0.0 <= now - b.times[key] < 60.0)
    case UnknownPermission(key) => (key == Charging && b.charging.None?) || (key == Discharging && b.discharging.None?)
    case NotOnline => b.online != Some(true)
    case NoVoltage => b.voltage.None? || b.voltage.value <= 0.0
    case BadSoc => b.soc.None? || !(0.0 <= b.soc.value <= 100.0)
    case BadCells => exists i: Index :: 1 <= i <= b.cellCount && (i !in b.cells || b.cells[i] <= 0.0)
    case NoTemperature => forall i :: i in b.temperatures ==> b.temperatures[i] <= -40.0
  }

  /** A battery is usable exactly when it has no gap of any kind. */
  lemma UsableHasNoGap(b: Battery, now: real)
    ensures b.Usable(now) <==> forall gap :: !IsGap(b, now, gap)
  {
    if !b.Usable(now) {
      if key :| (key in b.RequiredKeys() || key in b.times) && !b.Fresh(key, now) {
        assert IsGap(b, now, Untimely(key));
      } else if b.charging.None? {
        assert IsGap(b, now, UnknownPermission(Charging));
      } else if b.discharging.None? {
        assert IsGap(b, now, UnknownPermission(Discharging));
      } else if b.online != Some(true) {
        assert IsGap(b, now, NotOnline);
      } else if b.voltage.None? || b.voltage.value <= 0.0 {
        assert IsGap(b, now, NoVoltage);
      } else if b.soc.None? || !(0.0 <= b.soc.value <= 100.0) {
        assert IsGap(b, now, BadSoc);
      } else if i: Index :| 1 <= i <= b.cellCount && (i !in b.cells || b.cells[i] <= 0.0) {
        assert IsGap(b, now, BadCells);
      } else {
        assert IsGap(b, now, NoTemperature);
      }
    }
  }

  /** The gaps that concern values and permissions rather than sample times. */
  function ValueGaps(b: Battery): seq<Gap> {
    var badCells := exists i: Index | 1 <= i <= b.cellCount :: i !in b.cells || b.cells[i] <= 0.0;
    var cold := forall i | i in b.temperatures :: b.temperatures[i] <= SENSOR_FAULT;
    (if b.charging.None? then [UnknownPermission(Charging)] else [])
    + (if b.discharging.None? then [UnknownPermission(Discharging)] else [])
    + (if b.online != Some(true) then [NotOnline] else [])
    + (if b.voltage.None? || b.voltage.value <= 0.0 then [NoVoltage] else [])
    + (if b.soc.None? || !(0.0 <= b.soc.value <= 100.0) then [BadSoc] else [])
    + (if badCells then [BadCells] else [])
    + (if cold then [NoTemperature] else [])
  }

  lemma ValueGapsAreExact(b: Battery, now: real, gap: Gap)
    ensures gap in ValueGaps(b) <==> !gap.Untimely? && IsGap(b, now, gap)
  {
  }

  lemma EmptyHasNoMember(missing: seq<Gap>)
    ensures missing == [] <==> forall g :: g !in missing
  {
    if missing != [] {
      assert missing[0] in missing;
    }
  }

  /** The mutable container; its lock is the atomicity of one method call. */
  class BatteryData {
    const cellCount: nat
    var voltage: Option<real>
    var current: Option<real>
    var soc: Option<real>
    var temperatures: map<Index, real>
    var cells: map<Index, real>
    var charging: Option<bool>
    var discharging: Option<bool>
    var online: Option<bool>
    var sampleTimes: map<Key, real>

    function State(): Battery
      reads this
    {
      Battery(cellCount, voltage, current, soc, temperatures, cells, charging, discharging, online, sampleTimes)
    }

    constructor (cellCount: nat)
      ensures State() == Unknown(cellCount)
    {
      this.cellCount := cellCount;
      voltage, current, soc := None, None, None;
      temperatures, cells := map[], map[];
      charging, discharging, online := None, None, None;
      sampleTimes := map[];
    }

    /** A received measurement replaces the value and is stamped with the receipt time. */
    method Update(key: Key, v: real, now: real)
      requires key.Measured()
      modifies this
      ensures State() == old(State()).Put(key, v).Stamp({key}, now)
    {
      hide Dated;
      DatedOne(sampleTimes, key, now);
      match key {
        case Voltage => voltage := Some(v);
        case Current => current := Some(v);
        case Soc => soc := Some(v);
        case Temperature(i) => temperatures := temperatures[i := v];
        case Cell(i) => cells := cells[i := v];
      }
      sampleTimes := sampleTimes[key := now];
    }

    /** Permission and status values never renew a physical sample. */
    method UpdateBoolean(key: Key, b: bool)
      requires !key.Measured()
      modifies this
      ensures State() == old(State()).PutStatus(key, b)
    {
      match key {
        case Charging => charging := Some(b);
        case Discharging => discharging := Some(b);
        case Online => online := Some(b);
      }
    }

    method MarkSampleTime(keys: seq<Key>, at: real)
      modifies this`sampleTimes
      ensures State() == old(State()).Stamp((set key | key in keys), at)
    {
      hide Dated;
      ghost var marked: set<Key> := {};
      NothingDated(sampleTimes, at);
      for n := 0 to |keys|
        invariant marked == set key | key in keys[..n]
        invariant sampleTimes == old(sampleTimes) + Dated(marked, at)
      {
        DatedNext(old(sampleTimes), marked, keys[n], at);
        sampleTimes := sampleTimes[keys[n] := at];
        marked := marked + {keys[n]};
        assert keys[..n + 1] == keys[..n] + [keys[n]];
      }
      assert keys[..|keys|] == keys;
    }

    /** Re-date every sample at once; used when a detached model takes its source's age. */
    method Redate(at: real)
      modifies this`sampleTimes
      ensures State() == old(State()).Stamp(old(sampleTimes).Keys, at)
    {
      sampleTimes := map key | key in sampleTimes :: at;
    }

    /** A detached clone: same value, no shared mutable state. */
    method Copy() returns (clone: BatteryData)
      ensures fresh(clone) && clone.State() == State()
    {
      clone := new BatteryData(cellCount);
      clone.voltage, clone.current, clone.soc := voltage, current, soc;
      clone.temperatures, clone.cells := temperatures, cells;
      clone.charging, clone.discharging, clone.online := charging, discharging, online;
      clone.sampleTimes := sampleTimes;
    }

    method OldestSampleTime() returns (t: Option<real>)
      ensures t == Oldest(sampleTimes)
    {
      t := None;
      var pending := sampleTimes.Keys;
      while pending != {}
        invariant pending <= sampleTimes.Keys
        invariant t.None? ==> pending == sampleTimes.Keys
        invariant t.Some? ==> t.value in sampleTimes.Values
        invariant t.Some? ==> forall key :: key in sampleTimes && key !in pending ==> t.value <= sampleTimes[key]
        decreases pending
      {
        var key :| key in pending;
        assert sampleTimes[key] in sampleTimes.Values;
        t := if t.None? then Some(sampleTimes[key]) else Some(Least(t.value, sampleTimes[key]));
        pending := pending - {key};
      }
    }

    /** The required and tracked fields whose sample is absent, too old or in the future. */
    method UntimelyFields(now: real) returns (missing: seq<Gap>)
      ensures forall gap :: gap in missing <==> gap.Untimely? && IsGap(State(), now, gap)
    {
      missing := [];
      var tracked := State().RequiredKeys() + sampleTimes.Keys;
      var pending := tracked;
      while pending != {}
        invariant pending <= tracked
        invariant forall gap :: gap in missing ==> gap.Untimely? && IsGap(State(), now, gap)
        invariant forall key :: key in tracked - pending && !State().Fresh(key, now) ==> Untimely(key) in missing
        decreases pending
      {
        var key :| key in pending;
        if !State().Fresh(key, now) {
          missing := missing + [Untimely(key)];
        }
        pending := pending - {key};
      }
    }

    /** The complete list of reasons why this battery cannot be used at time now. */
    method MissingFields(now: real) returns (missing: seq<Gap>)
      ensures forall gap :: gap in missing <==> IsGap(State(), now, gap)
      ensures missing == [] <==> State().Usable(now)
    {
      ghost var b := State();
      missing := UntimelyFields(now);
      missing := missing + ValueGaps(State());
      forall gap ensures gap in missing <==> IsGap(b, now, gap) {
        ValueGapsAreExact(b, now, gap);
      }
      EmptyHasNoMember(missing);
      UsableHasNoGap(b, now);
    }

    /** All configured cells, measurements and explicit permissions are known. */
    method IsValid(now: real) returns (valid: bool)
      ensures valid <==> State().Usable(now)
    {
      var missing := MissingFields(now);
      valid := missing == [];
    }
  }
}
