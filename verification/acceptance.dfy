/** Which rows and frames are accepted, and what they leave in a battery, in terms of the fields that they carry. */
module Acceptance {
  import opened Prelude
  import opened BmsData
  import opened Frames
  import opened Telemetry
  import opened Topology
  import opened Evidence
  import opened TelemetryV2

  /** The numbers that a JSON value stands for: integers and finite floats, and nothing else. */
  predicate Spells(v: Value, x: real) {
    v == Float(x) || (v.Int? && v.n as real == x)
  }

  lemma NumbersExactly(v: Value, x: real)
    ensures Number(v) == Some(x) <==> Spells(v, x)
    ensures Number(v).None? <==> v.Absent? || v.Null? || v.Bool? || v.NonFinite? || v.Text? || v.Compound?
  {
  }

  // ---- Complete rows without a topology ----------------------------------------------------------------------------

  predicate Positive(v: Value) {
    Number(v).Some? && Number(v).value > 0.0
  }

  predicate Between(v: Value, low: real, high: real) {
    Number(v).Some? && low <= Number(v).value <= high
  }

  /** All the evidence a producer can give. */
  predicate FullMask(v: Value) {
    Number(v) == Some(511.0)
  }

  /** Readings less than a minute old, sensible voltages and state of charge, and a BMS that is online. */
  ghost predicate GoodReadings(row: Row, cells: nat)
    requires row.Row?
  {
    && Number(row.ageMs).Some? && 0.0 <= Number(row.ageMs).value < 60000.0
    && Positive(row.voltage) && Number(row.current).Some? && Number(row.temperature).Some?
    && Between(row.soc, 0.0, 100.0)
    && row.cells.Items? && |row.cells.elements| == cells
    && (forall i | 0 <= i < cells :: Positive(row.cells.elements[i]))
    && row.charging.Bool? && row.discharging.Bool? && row.online == Bool(true)
  }

  /** A list of sensors outranks the single one; all must be numbers, and one of them above the fault value. */
  ghost predicate GoodSensors(row: Row)
    requires row.Row?
  {
    match row.temperatures
    case NoItems => Number(row.temperature).Some? && Number(row.temperature).value > -40.0
    case NotItems => false
    case Items(elements) =>
      && (forall i | 0 <= i < |elements| :: Number(elements[i]).Some?)
      && exists i | 0 <= i < |elements| :: Number(elements[i]).Some? && Number(elements[i]).value > -40.0
  }

  lemma ListedNumbers(elements: seq<Value>)
    ensures (forall v | v in elements :: Numeric(v)) <==> forall i | 0 <= i < |elements| :: Number(elements[i]).Some?
    ensures (forall v | v in elements :: Numeric(v) && Number(v).value > 0.0)
       <==> forall i | 0 <= i < |elements| :: Positive(elements[i])
  {
    forall i | 0 <= i < |elements| ensures elements[i] in elements {
    }
  }

  lemma ShapeExactly(row: Row)
    requires row.Row?
    ensures CompleteShape(row)
       <==> && Number(row.voltage).Some? && Number(row.current).Some? && Number(row.soc).Some?
            && Number(row.temperature).Some?
            && (row.temperatures.Items? ==>
                  && row.temperatures.elements != []
                  && forall i | 0 <= i < |row.temperatures.elements| :: Number(row.temperatures.elements[i]).Some?)
            && !row.temperatures.NotItems?
            && row.cells.Items?
            && (forall i | 0 <= i < |row.cells.elements| :: Positive(row.cells.elements[i]))
            && row.charging.Bool? && row.discharging.Bool? && row.online.Bool?
  {
    hide Number;
    if row.temperatures.Items? {
      ListedNumbers(row.temperatures.elements);
    }
    if row.cells.Items? {
      ListedNumbers(row.cells.elements);
    }
  }

  /** What a complete row leaves: its own numbers under its own positions, dated by its own age. */
  lemma CompleteBatteryExactly(row: Row, cells: nat, at: real)
    requires row.Row? && CompleteShape(row)
    ensures
      var b := CompleteBattery(row, cells, at);
      && b.cellCount == cells
      && b.voltage == Number(row.voltage) && b.current == Number(row.current) && b.soc == Number(row.soc)
      && (forall i: Index :: i in b.cells <==> i <= |row.cells.elements|)
      && (forall i: Index :: i in b.cells ==> Some(b.cells[i]) == Number(row.cells.elements[i - 1]))
      && (row.temperatures.NoItems? ==>
            b.temperatures.Keys == {1 as Index} && Some(b.temperatures[1]) == Number(row.temperature))
      && (row.temperatures.Items? ==>
            && (forall i: Index :: i in b.temperatures <==> i <= |row.temperatures.elements|)
            && (forall i: Index | i in b.temperatures ::
                  Some(b.temperatures[i]) == Number(row.temperatures.elements[i - 1])))
      && b.charging == Some(row.charging.b) && b.discharging == Some(row.discharging.b)
      && b.online == Some(row.online.b)
      && (forall key :: key in b.times <==> !key.Measured() || b.Reading(key).Some?)
      && (forall key :: key in b.times ==> b.times[key] == at)
  {
    hide Number;
    ShapeExactly(row);
  }

  lemma UsableExactly(row: Row, cells: nat, at: real, now: real)
    requires row.Row? && CompleteShape(row) && |row.cells.elements| == cells
    ensures CompleteBattery(row, cells, at).Usable(now)
       <==> && 0.0 <= now - at < 60.0 && Positive(row.voltage) && Between(row.soc, 0.0, 100.0)
            && row.online == Bool(true) && GoodSensors(row)
  {
    hide Number, CompleteBattery;
    var b := CompleteBattery(row, cells, at);
    ShapeExactly(row);
    CompleteBatteryExactly(row, cells, at);
    assert Voltage in b.times;
    assert forall i: Index | 1 <= i <= cells :: i in b.cells && b.cells[i] > 0.0;
    if b.Usable(now) {
      assert b.Fresh(Voltage, now);
      var i :| i in b.temperatures && b.temperatures[i] > -40.0;
      assert row.temperatures.Items? ==> Some(b.temperatures[i]) == Number(row.temperatures.elements[i - 1]);
    }
    if 0.0 <= now - at < 60.0 && GoodSensors(row) {
      forall key | key in b.RequiredKeys() || key in b.times ensures b.Fresh(key, now) {
      }
      if row.temperatures.Items? {
        var i :| 0 <= i < |row.temperatures.elements| && Number(row.temperatures.elements[i]).value > -40.0;
        assert i + 1 in b.temperatures;
      } else {
        assert 1 in b.temperatures;
      }
    }
  }

  /** A complete row is accepted, at whatever time, exactly when it carries all this. */
  lemma CompleteRowExactly(row: Row, cells: nat, now: real)
    ensures CompleteRow(row, cells, now)
       <==> && row.Row?
            && ((row.seenMask == Absent && row.validMask == Absent)
                || (FullMask(row.seenMask) && FullMask(row.validMask)))
            && GoodReadings(row, cells) && GoodSensors(row)
  {
    hide Number, CompleteShape, CompleteBattery, Battery.Usable;
    if row.Row? {
      ShapeExactly(row);
      MasksExactly(row.seenMask);
      MasksExactly(row.validMask);
      if CompleteShape(row) && |row.cells.elements| == cells && Number(row.ageMs).Some? {
        UsableExactly(row, cells, now - Number(row.ageMs).value / 1000.0, now);
      }
    }
  }

  lemma MasksExactly(v: Value)
    ensures Equals(v, 511) <==> FullMask(v)
  {
  }

  // ---- Complete frames --------------------------------------------------------------------------------------------

  predicate HasId(rows: seq<Row>, i: int, id: int) {
    0 <= i < |rows| && rows[i].Row? && rows[i].id == Int(id)
  }

  /** Exactly one row has this id, and it is one of the good ones. */
  ghost predicate OneGoodRow(rows: seq<Row>, id: int, good: Row -> bool) {
    && (exists i :: HasId(rows, i, id) && good(rows[i]))
    && (forall i, j | HasId(rows, i, id) && HasId(rows, j, id) :: i == j)
  }

  ghost predicate AllIdentified(rows: seq<Row>) {
    forall i | 0 <= i < |rows| :: rows[i].Row? && rows[i].id.Int?
  }

  /** The id that a slot's rows carry. */
  function IdOf(ids: Numbering, slot: int): int
    requires 1 <= slot <= ids.Count()
  {
    if ids.Consecutive? then ids.first + slot - 1 else ids.ids[slot - 1]
  }

  lemma SlotNamesId(rows: seq<Row>, ids: Numbering, slot: int, i: int)
    requires 1 <= slot <= ids.Count() && (ids.Listed? ==> DistinctIds(ids.ids))
    ensures Names(rows, ids, slot, i) <==> HasId(rows, i, IdOf(ids, slot))
  {
  }

  /** A frame is assembled exactly when each slot has one row, and that row decodes. */
  lemma AssembledExactly(rows: seq<Row>, ids: Numbering, decode: RowDecoder)
    requires ids.Listed? ==> DistinctIds(ids.ids)
    ensures Assembled(rows, ids, decode).Accepted?
       <==> && AllIdentified(rows)
            && forall slot | 1 <= slot <= ids.Count() ::
                OneGoodRow(rows, IdOf(ids, slot), row => decode(slot, row).Accepted?)
    ensures Assembled(rows, ids, decode).Accepted? ==>
              && |Assembled(rows, ids, decode).value| == ids.Count()
              && forall slot, i | 1 <= slot <= ids.Count() && HasId(rows, i, IdOf(ids, slot)) ::
                   decode(slot, rows[i]) == Accepted(Assembled(rows, ids, decode).value[slot - 1])
  {
    hide IdOf, Numbering.Slot;
    forall slot, i | 1 <= slot <= ids.Count() ensures Names(rows, ids, slot, i) <==> HasId(rows, i, IdOf(ids, slot)) {
      SlotNamesId(rows, ids, slot, i);
    }
    if Assembled(rows, ids, decode).Accepted? {
      forall slot | 1 <= slot <= ids.Count()
        ensures OneGoodRow(rows, IdOf(ids, slot), row => decode(slot, row).Accepted?)
        ensures forall i | HasId(rows, i, IdOf(ids, slot)) ::
                  decode(slot, rows[i]) == Accepted(Assembled(rows, ids, decode).value[slot - 1])
      {
        AcceptedSlot(rows, ids, decode, slot);
        var i :| Names(rows, ids, slot, i);
        RowForIsTheOnlyRow(rows, ids, slot, i);
      }
    }
    if AllIdentified(rows) && forall slot | 1 <= slot <= ids.Count() ::
        OneGoodRow(rows, IdOf(ids, slot), row => decode(slot, row).Accepted?) {
      assert OneRowPerSlot(rows, ids) by {
        forall slot | 1 <= slot <= ids.Count() ensures Named(rows, ids, slot) {
          var i :| HasId(rows, i, IdOf(ids, slot)) && decode(slot, rows[i]).Accepted?;
          assert Names(rows, ids, slot, i);
        }
      }
      forall slot | 1 <= slot <= ids.Count() ensures decode(slot, RowFor(rows, ids, slot)).Accepted? {
        var i :| HasId(rows, i, IdOf(ids, slot)) && decode(slot, rows[i]).Accepted?;
        RowForIsTheOnlyRow(rows, ids, slot, i);
      }
    }
  }

  /** The indices, counted from one, of rows of the first n slots, one for each. */
  lemma {:induction false} RowsOfSlots(rows: seq<Row>, ids: Numbering, n: nat) returns (taken: set<int>)
    requires n <= ids.Count() && forall slot | 1 <= slot <= n :: Named(rows, ids, slot)
    ensures |taken| == n
    ensures forall k | k in taken :: 1 <= k <= |rows| && Identified(rows[k - 1]) && 1 <= Slot(rows[k - 1], ids) <= n
  {
    hide Slot, Identified, Numbering.Slot;
    taken := {};
    if n > 0 {
      var before := RowsOfSlots(rows, ids, n - 1);
      assert Named(rows, ids, n);
      var i :| Names(rows, ids, n, i);
      taken := before + {i + 1};
    }
  }

  lemma EnoughRows(rows: seq<Row>, ids: Numbering, decode: RowDecoder)
    requires Assembled(rows, ids, decode).Accepted?
    ensures |rows| >= ids.Count()
  {
    var taken := RowsOfSlots(rows, ids, ids.Count());
    SubsetSize(taken, Slots(|rows|));
  }

  lemma CompleteIsAssembled(batteries: Rows, count: nat, first: int, cells: nat, now: real)
    ensures DecodedComplete(batteries, count, first, cells, now)
         == if batteries.Rows? then Assembled(batteries.rows, Consecutive(first, count), CompleteDecoder(cells, now))
            else Rejected
  {
    hide Assembled, CompleteDecoder;
    if batteries.Rows? && Assembled(batteries.rows, Consecutive(first, count), CompleteDecoder(cells, now)).Accepted? {
      EnoughRows(batteries.rows, Consecutive(first, count), CompleteDecoder(cells, now));
    }
  }

  ghost predicate OneCompleteRow(rows: seq<Row>, id: int, cells: nat, now: real) {
    OneGoodRow(rows, id, row => CompleteRow(row, cells, now))
  }

  /** Without a topology: one good row for each of the consecutive ids; rows of other ids are ignored. */
  lemma CompleteFrameExactly(batteries: Rows, count: nat, first: int, cells: nat, now: real)
    ensures DecodedComplete(batteries, count, first, cells, now).Accepted?
       <==> && batteries.Rows? && AllIdentified(batteries.rows)
            && forall id | first <= id < first + count :: OneCompleteRow(batteries.rows, id, cells, now)
    ensures DecodedComplete(batteries, count, first, cells, now).Accepted? ==>
              |DecodedComplete(batteries, count, first, cells, now).value| == count
  {
    hide CompleteRow, CompleteBattery, Assembled;
    CompleteIsAssembled(batteries, count, first, cells, now);
    if batteries.Rows? {
      var ids, decode := Consecutive(first, count), CompleteDecoder(cells, now);
      AssembledExactly(batteries.rows, ids, decode);
      forall slot | 1 <= slot <= count
        ensures OneGoodRow(batteries.rows, IdOf(ids, slot), row => decode(slot, row).Accepted?)
           <==> OneCompleteRow(batteries.rows, first + slot - 1, cells, now)
      {
      }
      if Assembled(batteries.rows, ids, decode).Accepted? {
        forall id | first <= id < first + count ensures OneCompleteRow(batteries.rows, id, cells, now) {
          var slot := id - first + 1;
          assert OneGoodRow(batteries.rows, IdOf(ids, slot), row => decode(slot, row).Accepted?);
        }
      }
    }
  }

  /** Each id's row makes the battery of its slot, whatever the order of the rows. */
  lemma CompleteFrameHolds(batteries: Rows, count: nat, first: int, cells: nat, now: real, id: int, i: int)
    requires DecodedComplete(batteries, count, first, cells, now).Accepted?
    requires first <= id < first + count && HasId(batteries.rows, i, id)
    ensures
      var row := batteries.rows[i];
      var decoded := DecodedComplete(batteries, count, first, cells, now).value;
      && |decoded| == count && CompleteRow(row, cells, now)
      && decoded[id - first] == CompleteBattery(row, cells, now - Number(row.ageMs).value / 1000.0)
  {
    hide CompleteBattery, Assembled;
    CompleteIsAssembled(batteries, count, first, cells, now);
    var ids, decode := Consecutive(first, count), CompleteDecoder(cells, now);
    AssembledExactly(batteries.rows, ids, decode);
    assert HasId(batteries.rows, i, IdOf(ids, id - first + 1));
  }

  // ---- Rows of a chain --------------------------------------------------------------------------------------------

  lemma SmallPowers()
    ensures PowerOfTwo(0) == 1 && PowerOfTwo(1) == 2 && PowerOfTwo(2) == 4 && PowerOfTwo(3) == 8 && PowerOfTwo(4) == 16
    ensures PowerOfTwo(8) == 256 && PowerOfTwo(11) == 2048
  {
    assert PowerOfTwo(6) == 64 && PowerOfTwo(10) == 1024;
  }

  lemma {:induction false} PowersAdd(m: nat, n: nat)
    ensures PowerOfTwo(m + n) == PowerOfTwo(m) * PowerOfTwo(n)
  {
    if n > 0 {
      PowersAdd(m, n - 1);
      assert PowerOfTwo(m + n) == 2 * PowerOfTwo(m + (n - 1));
    }
  }

  /** Four scalars and the status, then a block of up to four cells, and after a gap a block of the others. */
  lemma {:induction false} MaskExactly(cells: nat)
    ensures cells <= 4 ==> RequiredMask(cells) == 255 + 16 * PowerOfTwo(cells)
    ensures cells >= 4 ==> RequiredMask(cells) == 511 + 2048 * (PowerOfTwo(cells - 4) - 1)
  {
    hide PowerOfTwo;
    SmallPowers();
    if cells > 0 {
      MaskExactly(cells - 1);
      if cells <= 4 {
        PowersAdd(4, cells - 1);
        PowersAdd(1, cells - 1);
      } else {
        PowersAdd(11, cells - 5);
        PowersAdd(1, cells - 5);
      }
    }
  }

  /** A field that a producer of schema 2 must carry and one of schema 1 may leave out. */
  predicate CarriesOrOmits(v: Value, n: int, schema: int) {
    v == Int(n) || (schema != 2 && v == Absent)
  }

  /** The one mask for so many cells. */
  function MaskFor(cells: nat): int {
    if cells <= 4 then 255 + 16 * PowerOfTwo(cells) else 511 + 2048 * (PowerOfTwo(cells - 4) - 1)
  }

  /** Every configured sensor is there and plausible. */
  ghost predicate AllSensors(row: Row, count: nat)
    requires row.Row?
  {
    && Number(row.temperature).Some? && Number(row.temperature).value > -40.0
    && match row.temperatures
       case NoItems => count == 1
       case NotItems => false
       case Items(elements) =>
         |elements| == count && forall i | 0 <= i < count ::
             Number(elements[i]).Some? && Number(elements[i]).value > -40.0
  }

  /** A member's row is accepted exactly when it matches the configured inventory and carries good readings. */
  lemma StrictRowExactly(row: Row, member: Member, schema: int, now: real)
    requires member.Valid()
    ensures StrictRow(row, member, schema, now)
       <==> && row.Row?
            && row.seenMask == Int(MaskFor(member.cells)) && row.validMask == Int(MaskFor(member.cells))
            && CarriesOrOmits(row.requiredMask, MaskFor(member.cells), schema)
            && CarriesOrOmits(row.cellCount, member.cells, schema)
            && (Number(row.reportedCellCount) == Some(member.cells as real)
                || (schema != 2 && row.reportedCellCount == Absent))
            && GoodReadings(row, member.cells) && AllSensors(row, member.temperatures)
  {
    hide Number, CompleteShape, CompleteBattery, Battery.Usable, RequiredMask, PowerOfTwo;
    MaskExactly(member.cells);
    if row.Row? {
      ShapeExactly(row);
      if row.temperatures.Items? {
        SensedNumbers(row.temperatures.elements);
      }
      if row.cells.Items? {
        ListedNumbers(row.cells.elements);
      }
      SensorsAreGood(row, member.temperatures);
      if CompleteShape(row) && |row.cells.elements| == member.cells && Number(row.ageMs).Some? {
        UsableExactly(row, member.cells, now - Number(row.ageMs).value / 1000.0, now);
      }
    }
  }

  lemma SensedNumbers(elements: seq<Value>)
    ensures (forall v | v in elements :: Sensed(v))
       <==> forall i | 0 <= i < |elements| :: Number(elements[i]).Some? && Number(elements[i]).value > -40.0
  {
    forall i | 0 <= i < |elements| ensures elements[i] in elements {
    }
  }

  lemma SensorsAreGood(row: Row, count: nat)
    requires row.Row? && count >= 1
    ensures AllSensors(row, count) ==> GoodSensors(row) && (row.temperatures.Items? ==> row.temperatures.elements != [])
  {
    if AllSensors(row, count) && row.temperatures.Items? {
      assert Number(row.temperatures.elements[0]).value > -40.0;
    }
  }

  ghost predicate OneStrictRow(rows: seq<Row>, member: Member, schema: int, now: real) {
    OneGoodRow(rows, member.bmsId, row => StrictRow(row, member, schema, now))
  }

  predicate DistinctMembers(members: seq<Member>) {
    forall i, j | 0 <= i < j < |members| :: members[i].bmsId != members[j].bmsId
  }

  /** A chain's frame: as many rows as members, one good row for each, and a mask of all members if there is one. */
  lemma ChainFrameExactly(frame: Frame, chain: Chain, now: real)
    requires DistinctMembers(chain.members)
    ensures DecodedMembers(frame, chain, now).Accepted?
       <==> && frame.batteries.Rows? && |frame.batteries.rows| == |chain.members| && AllIdentified(frame.batteries.rows)
            && CarriesOrOmits(frame.validMask, PowerOfTwo(|chain.members|) - 1, chain.schema)
            && forall m | 0 <= m < |chain.members| ::
                 OneStrictRow(frame.batteries.rows, chain.members[m], chain.schema, now)
    ensures DecodedMembers(frame, chain, now).Accepted? ==>
              |DecodedMembers(frame, chain, now).value| == |chain.members|
  {
    hide StrictRow, CompleteBattery, Assembled, PowerOfTwo;
    if frame.batteries.Rows? {
      var rows, ids, decode := frame.batteries.rows, Listed(chain.Ids()),
          StrictDecoder(chain.members, chain.schema, now);
      AssembledExactly(rows, ids, decode);
      forall slot | 1 <= slot <= ids.Count()
        ensures OneGoodRow(rows, IdOf(ids, slot), row => decode(slot, row).Accepted?)
           <==> OneStrictRow(rows, chain.members[slot - 1], chain.schema, now)
      {
      }
      if Assembled(rows, ids, decode).Accepted? {
        forall m | 0 <= m < |chain.members| ensures OneStrictRow(rows, chain.members[m], chain.schema, now) {
          assert OneGoodRow(rows, IdOf(ids, m + 1), row => decode(m + 1, row).Accepted?);
        }
      }
    }
  }

  lemma ChainFrameHolds(frame: Frame, chain: Chain, now: real, m: nat, i: int)
    requires DistinctMembers(chain.members) && DecodedMembers(frame, chain, now).Accepted?
    requires m < |chain.members| && HasId(frame.batteries.rows, i, chain.members[m].bmsId)
    ensures
      var row := frame.batteries.rows[i];
      var decoded := DecodedMembers(frame, chain, now).value;
      && |decoded| == |chain.members| && StrictRow(row, chain.members[m], chain.schema, now)
      && decoded[m] == CompleteBattery(row, chain.members[m].cells, now - Number(row.ageMs).value / 1000.0)
  {
    hide CompleteBattery, Assembled;
    var rows, ids, decode := frame.batteries.rows, Listed(chain.Ids()), StrictDecoder(chain.members, chain.schema, now);
    AssembledExactly(rows, ids, decode);
    assert HasId(rows, i, IdOf(ids, m + 1));
  }

  // ---- Partial rows -----------------------------------------------------------------------------------------------

  /** The mask bit of a reading that a partial row can carry, zero for the others. */
  function WeightOf(key: Key): int {
    match key
    case Voltage => 1
    case Current => 2
    case Soc => 4
    case Temperature(i) => if i == 1 then 8 else 0
    case Cell(i) => if i == 1 then 16 else if i == 2 then 32 else if i == 3 then 64 else if i == 4 then 128 else 0
    case _ => 0
  }

  predicate HasBit(mask: int, weight: int) {
    weight > 0 && mask / weight % 2 == 1
  }

  /** The number that a partial row carries for a reading. */
  function Told(row: Row, key: Key): Option<real>
    requires row.Row?
  {
    match key
    case Voltage => Number(row.voltage)
    case Current => Number(row.current)
    case Soc => Number(row.soc)
    case Temperature(_) => Number(row.temperature)
    case Cell(i) => if row.cells.Items? && i <= |row.cells.elements| then Number(row.cells.elements[i - 1]) else None
    case _ => None
  }

  /** What physics asks of one reading. */
  predicate Possible(key: Key, x: real) {
    match key
    case Voltage => x > 0.0
    case Cell(_) => x > 0.0
    case Soc => 0.0 <= x <= 100.0
    case _ => true
  }

  function IndexOf(key: Key): int {
    match key
    case Voltage => 0
    case Current => 1
    case Soc => 2
    case Temperature(_) => 3
    case Cell(i) => 3 + i
    case _ => 0
  }

  lemma WeightsAreBits(mask: int, key: Key)
    ensures HasBit(mask, WeightOf(key)) <==> ObservedBelow(mask, 8, key)
    ensures WeightOf(key) > 0 <==> exists index: nat | index < 8 :: ObservedKey(index) == key
    ensures Bit(mask, 8) <==> HasBit(mask, 256)
  {
    assert forall index: nat | index < 8 :: WeightOf(ObservedKey(index)) == BitWeight(index);
    if WeightOf(key) > 0 {
      var index := IndexOf(key);
      assert ObservedKey(index) == key && BitWeight(index) == WeightOf(key);
    }
  }

  lemma ObservedExactly(row: Row, index: nat)
    requires row.Row? && row.cells.Items? && |row.cells.elements| == 4 && index < 8
    ensures
      var key := ObservedKey(index);
      Observed(row, index) == if Told(row, key).Some? && Possible(key, Told(row, key).value) then Told(row, key)
          else None
  {
  }

  /** A partial row of four cells: one mask, an age within the minute, and a possible number for every bit set. */
  lemma PartialRowExactly(row: Row, cells: nat)
    ensures PartialRow(row, cells)
       <==> && row.Row? && cells == 4
            && row.seenMask.Int? && row.validMask == row.seenMask && 0 <= row.seenMask.n <= 511
            && Between(row.observedAgeMs, 0.0, 60000.0)
            && (row.seenMask.n != 0 ==>
                  && Number(row.observedAgeMs).value < 60000.0
                  && row.cells.Items? && |row.cells.elements| == 4
                  && (forall key | HasBit(row.seenMask.n, WeightOf(key)) ::
                        Told(row, key).Some? && Possible(key, Told(row, key).value))
                  && (HasBit(row.seenMask.n, 256) ==> row.charging.Bool? && row.discharging.Bool?)
                  && (row.seenMask.n == 511 ==> row.online == Bool(true)))
  {
    hide Number, Observed, ObservedKey, WeightOf, Told, Bit;
    if row.Row? && row.seenMask.Int? && row.cells.Items? && |row.cells.elements| == 4 {
      var mask := row.seenMask.n;
      forall key ensures HasBit(mask, WeightOf(key)) <==> ObservedBelow(mask, 8, key) {
        WeightsAreBits(mask, key);
      }
      forall index: nat | index < 8
        ensures Observed(row, index).Some?
           <==> Told(row, ObservedKey(index)).Some? && Possible(ObservedKey(index), Told(row, ObservedKey(index)).value)
      {
        ObservedExactly(row, index);
      }
      assert forall index: nat | index < 8 && Bit(mask, index) :: ObservedBelow(mask, 8, ObservedKey(index));
    }
    if row.Row? && row.seenMask.Int? {
      WeightsAreBits(row.seenMask.n, Voltage);
    }
  }

  /** The time of a partial row's readings: without refresh no later than anything held. */
  ghost predicate IsStamp(stamp: real, times: map<Key, real>, at: real, refresh: bool) {
    if refresh then stamp == at else IsLeast(stamp, times.Values + {at})
  }

  /** A partial row replaces and dates the readings of its bits; every other one keeps its number and its time. */
  lemma PartialRowHolds(b: Battery, row: Row, now: real, refresh: bool, key: Key)
    requires PartialRow(row, b.cellCount) && key.Measured()
    ensures
      var after, at := Merged(b, row, now, refresh), now - Number(row.observedAgeMs).value / 1000.0;
      && after.cellCount == b.cellCount
      && (if HasBit(row.seenMask.n, WeightOf(key))
          then after.Reading(key) == Told(row, key) && key in after.times
              && IsStamp(after.times[key], b.times, at, refresh)
          else after.Reading(key) == b.Reading(key) && StampOf(after, key) == StampOf(b, key))
  {
    hide Merged, Number, Bit, ObservedKey, WeightOf, PartialRow;
    PartialRowExactly(row, b.cellCount);
    var at := now - Number(row.observedAgeMs).value / 1000.0;
    WeightsAreBits(row.seenMask.n, key);
    MergedReadings(b, row, now, refresh, key);
    if HasBit(row.seenMask.n, WeightOf(key)) {
      ToldIsCarried(row, key);
      StampExactly(b.times, at, refresh);
    }
    MergingNeverPermits(b, row, now, refresh);
  }

  lemma ToldIsCarried(row: Row, key: Key)
    requires row.Row? && WeightOf(key) > 0
    ensures Carried(row, false, key) == Told(row, key)
  {
  }

  lemma StampExactly(times: map<Key, real>, at: real, refresh: bool)
    ensures IsStamp(PartialStamp(times, at, refresh), times, at, refresh)
  {
    if times != map[] {
      assert Oldest(times).value in times.Values;
      forall x | x in times.Values + {at} ensures PartialStamp(times, at, refresh) <= x || refresh {
        if x in times.Values {
          var key :| key in times && times[key] == x;
        }
      }
    }
  }

  /** The permissions it denies are denied; their times, and that of online, are renewed only on refresh. */
  lemma PartialStatusHolds(b: Battery, row: Row, now: real, refresh: bool)
    requires PartialRow(row, b.cellCount)
    ensures
      var after, at := Merged(b, row, now, refresh), now - Number(row.observedAgeMs).value / 1000.0;
      var status := HasBit(row.seenMask.n, 256);
      && after.charging == (if status && row.charging == Bool(false) then Some(false) else b.charging)
      && after.discharging == (if status && row.discharging == Bool(false) then Some(false) else b.discharging)
      && after.online == b.online
      && forall key: Key | !key.Measured() :: StampOf(after, key) == if status && refresh then Some(at)
          else StampOf(b, key)
  {
    hide Number, Bit, PartialStamp, Numbers;
    PartialRowExactly(row, b.cellCount);
    WeightsAreBits(row.seenMask.n, Voltage);
    var at, stamp := now - Number(row.observedAgeMs).value / 1000.0,
        PartialStamp(b.times, now - RowAge(row, false).value, refresh);
    if row.seenMask.n != 0 {
      NumbersReadings(b, row, stamp, 8, Voltage);
      forall key: Key | !key.Measured() ensures StampOf(Numbers(b, row, stamp, 8), key) == StampOf(b, key) {
        NumbersLeaveStatus(b, row, stamp, 8, key);
      }
    }
  }

  /** Without a topology a partial frame needs one good row for each slot; each is merged into its own battery. */
  ghost predicate OnePartialRow(rows: seq<Row>, id: int, cells: nat) {
    OneGoodRow(rows, id, row => PartialRow(row, cells))
  }

  lemma PartialFrameExactly(batteries: Rows, previous: seq<Battery>, first: int, now: real, refresh: bool)
    ensures MergedPartial(batteries, previous, first, now, refresh).Accepted?
       <==> && batteries.Rows? && AllIdentified(batteries.rows)
            && forall i | 0 <= i < |previous| :: OnePartialRow(batteries.rows, first + i, previous[i].cellCount)
  {
    hide PartialRow, Merged, Assembled;
    if batteries.Rows? {
      var ids, decode := Consecutive(first, |previous|), PartialDecoder(previous, now, refresh);
      AssembledExactly(batteries.rows, ids, decode);
      forall slot | 1 <= slot <= |previous|
        ensures OneGoodRow(batteries.rows, IdOf(ids, slot), row => decode(slot, row).Accepted?)
           <==> OnePartialRow(batteries.rows, first + (slot - 1), previous[slot - 1].cellCount)
      {
      }
      if Assembled(batteries.rows, ids, decode).Accepted? {
        forall i | 0 <= i < |previous| ensures OnePartialRow(batteries.rows, first + i, previous[i].cellCount) {
          assert OneGoodRow(batteries.rows, IdOf(ids, i + 1), row => decode(i + 1, row).Accepted?);
        }
      }
    }
  }

  lemma PartialFrameHolds(batteries: Rows, previous: seq<Battery>, first: int, now: real, refresh: bool, i: int, k: int)
    requires MergedPartial(batteries, previous, first, now, refresh).Accepted?
    requires 0 <= i < |previous| && HasId(batteries.rows, k, first + i)
    ensures
      var merged := MergedPartial(batteries, previous, first, now, refresh).value;
      && |merged| == |previous| && PartialRow(batteries.rows[k], previous[i].cellCount)
      && merged[i] == Merged(previous[i], batteries.rows[k], now, refresh)
  {
    hide PartialRow, Merged, Assembled;
    var ids, decode := Consecutive(first, |previous|), PartialDecoder(previous, now, refresh);
    AssembledExactly(batteries.rows, ids, decode);
    assert HasId(batteries.rows, k, IdOf(ids, i + 1));
  }
}
