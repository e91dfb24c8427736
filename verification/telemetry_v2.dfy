/** dbus_mqtt_battery/telemetry_v2.py: strict complete frames of an explicitly configured chain. */
module TelemetryV2 {
  import opened Prelude
  import opened BmsData
  import opened Frames
  import opened Telemetry
  import opened Topology

  const MAX_SEQUENCE := 0xFFFF_FFFF_FFFF_FFFF

  function DecodeChainHeader(payload: Payload, schema: int): Decoded<Header> {
    if payload.Readable? && payload.frame.schema == Int(schema) && ValidBootId(payload.frame.bootId)
       && payload.frame.sequence.Int? && 0 <= payload.frame.sequence.n <= MAX_SEQUENCE && payload.frame.ready.Bool?
    then Accepted(Header(payload.frame.bootId.s, payload.frame.sequence.n, payload.frame.ready.b))
    else Rejected
  }

  function PowerOfTwo(n: nat): nat {
    if n == 0 then 1 else 2 * PowerOfTwo(n - 1)
  }

  /** The bit of a cell, counted from zero: the producer leaves a gap before the fifth one. */
  function CellBit(cell: nat): nat {
    if cell < 4 then 4 + cell else 7 + cell
  }

  /** Four scalar bits, the status bit, and a bit of its own for each cell. */
  function RequiredMask(cells: nat): nat {
    if cells == 0 then 15 + PowerOfTwo(STATUS_BIT) else RequiredMask(cells - 1) + PowerOfTwo(CellBit(cells - 1))
  }

  /** Leaving the status bit aside, the bit of the next cell lies above all bits set so far: none is set twice. */
  lemma {:induction false} CellBitsRise(cells: nat)
    ensures RequiredMask(cells) - (if cells < 4 then PowerOfTwo(STATUS_BIT) else 0) < PowerOfTwo(CellBit(cells))
  {
    if cells == 4 {
      assert PowerOfTwo(11) == 2048 && RequiredMask(4) == RequiredMask(3) + 128;
    }
    if cells == 0 {
      assert PowerOfTwo(4) == 16;
    } else {
      CellBitsRise(cells - 1);
    }
  }

  // ---- One row ----------------------------------------------------------------------------------

  /** A schema 1 producer may leave a field out; a schema 2 producer may not. */
  predicate Declares(v: Value, expected: int, schema: int) {
    v == Int(expected) || (v == Absent && schema != 2)
  }

  predicate Reports(v: Value, expected: int, schema: int) {
    Number(v) == Some(expected as real) || (v == Absent && schema != 2)
  }

  predicate Inventory(row: Row, member: Member, schema: int)
    requires row.Row?
  {
    && row.cells.Items? && |row.cells.elements| == member.cells
    && row.seenMask == Int(RequiredMask(member.cells)) && row.validMask == Int(RequiredMask(member.cells))
    && Declares(row.requiredMask, RequiredMask(member.cells), schema)
    && Declares(row.cellCount, member.cells, schema)
    && Reports(row.reportedCellCount, member.cells, schema)
  }

  /** A sensor that reports its fault value is not left out of the extrema: the row is refused. */
  predicate Sensed(v: Value) {
    Numeric(v) && Number(v).value > SENSOR_FAULT
  }

  predicate SensorsGiven(items: Items, count: nat) {
    match items
    case NoItems => count == 1
    case NotItems => false
    case Items(elements) => |elements| == count && forall v | v in elements :: Sensed(v)
  }

  predicate Measurements(row: Row, member: Member)
    requires row.Row?
  {
    && Numeric(row.voltage) && Numeric(row.current) && Numeric(row.soc) && Sensed(row.temperature)
    && SensorsGiven(row.temperatures, member.temperatures) && CellsGiven(row.cells) && StatusKnown(row)
  }

  ghost predicate StrictRow(row: Row, member: Member, schema: int, now: real) {
    && row.Row? && member.Valid() && Inventory(row, member, schema)
    && RowAge(row, true).Some? && 0.0 <= RowAge(row, true).value < STALE_TIMEOUT
    && Measurements(row, member) && CompleteShape(row)
    && CompleteBattery(row, member.cells, now - RowAge(row, true).value).Usable(now)
  }

  method DecodeStrictRow(row: Row, battery: BatteryData, member: Member, schema: int, now: real) returns (ok: bool)
    requires row.Row? && member.Valid() && battery.State() == Unknown(member.cells)
    modifies battery
    ensures ok <==> StrictRow(row, member, schema, now)
    ensures ok ==> battery.State() == CompleteBattery(row, member.cells, now - RowAge(row, true).value)
  {
    hide RequiredMask, Battery.Usable, SensorKeys, CellKeys, Numbered, Dated;
    if !Inventory(row, member, schema) || RowAge(row, true).None? {
      return false;
    }
    var age := RowAge(row, true).value;
    if !(0.0 <= age < STALE_TIMEOUT) || !Measurements(row, member) {
      return false;
    }
    ok := FillFromRow(row, battery, now);
    if ok {
      DateEveryField(CompleteKeys(row), battery, now - age);
      ok := battery.IsValid(now);
    }
  }

  // ---- A whole frame ----------------------------------------------------------------------------

  ghost function StrictDecoder(members: seq<Member>, schema: int, now: real): RowDecoder {
    (slot, row) =>
      if 1 <= slot <= |members| && StrictRow(row, members[slot - 1], schema, now)
      then Accepted(CompleteBattery(row, members[slot - 1].cells, now - RowAge(row, true).value))
      else Rejected
  }

  predicate MembersReady(validMask: Value, count: nat, schema: int) {
    Declares(validMask, PowerOfTwo(count) - 1, schema)
  }

  ghost function DecodedMembers(frame: Frame, chain: Chain, now: real): Decoded<seq<Battery>> {
    if frame.batteries.Rows? && |frame.batteries.rows| == |chain.members|
       && MembersReady(frame.validMask, |chain.members|, chain.schema)
    then Assembled(frame.batteries.rows, Listed(chain.Ids()), StrictDecoder(chain.members, chain.schema, now))
    else Rejected
  }

  method DecodeMember(batteries: seq<BatteryData>, slot: int, rows: seq<Row>, n: nat, members: seq<Member>, schema: int,
      now: real, ghost initial: seq<Battery>, ghost source: map<int, int>)
      returns (ok: bool)
    requires 1 <= slot <= |batteries| == |initial| == |members| && Distinct(batteries) && slot !in source && n < |rows|
    requires rows[n].Row?
    requires MembersValid(members) && initial[slot - 1] == Unknown(members[slot - 1].cells)
    requires Underway(Values(batteries), initial, rows, source, StrictDecoder(members, schema, now))
    modifies batteries[slot - 1]
    ensures ok ==> Underway(Values(batteries), initial, rows, source[slot := n], StrictDecoder(members, schema, now))
    ensures !ok ==> StrictDecoder(members, schema, now)(slot, rows[n]).Rejected?
  {
    hide Underway, Values, StrictRow, CompleteBattery;
    ghost var before := Values(batteries);
    UnderwayUntouched(before, initial, rows, source, StrictDecoder(members, schema, now), slot);
    ok := DecodeStrictRow(rows[n], batteries[slot - 1], members[slot - 1], schema, now);
    if ok {
      assert Values(batteries) == before[slot - 1 := StrictDecoder(members, schema, now)(slot, rows[n]).value];
      UnderwayAdds(before, initial, rows, source, StrictDecoder(members, schema, now), slot, n);
    }
  }

  /**
   * The loop checks the number of rows, that each id is configured, and that none repeats. It never checks
   * that every member was met, and need not: the result is that of a decoder which does.
   */
  method DecodeMembers(frame: Frame, chain: Chain, now: real) returns (ok: bool, batteries: seq<BatteryData>)
    requires MembersValid(chain.members)
    ensures forall i | 0 <= i < |batteries| :: fresh(batteries[i])
    ensures DecodedMembers(frame, chain, now) == if ok then Accepted(Values(batteries)) else Rejected
  {
    hide StrictDecoder, Underway, Scanned, Values, MembersReady;
    batteries := EmptyBatteries(CellCounts(chain.members));
    if frame.batteries.NotRows? || |frame.batteries.rows| != |chain.members|
        || !MembersReady(frame.validMask, |chain.members|, chain.schema) {
      return false, batteries;
    }
    var rows, ids := frame.batteries.rows, Listed(chain.Ids());
    var seen: set<int> := {};
    ghost var source: map<int, int> := map[];
    ghost var initial := Values(batteries);
    ghost var decode := StrictDecoder(chain.members, chain.schema, now);
    ScanStarts(initial, rows, ids, decode);
    for n := 0 to |rows|
      invariant seen == source.Keys && |seen| == n && Scanned(rows, ids, n, source)
      invariant Underway(Values(batteries), initial, rows, source, decode)
    {
      var verdict := Admit(rows, ids, n, seen, source);
      if verdict.Ignore? {
        ScanFallsShort(rows, ids, n + 1, source);
      }
      if !verdict.Take? {
        ScanRepudiates(rows, ids, decode);
        return false, batteries;
      }
      ok := DecodeMember(batteries, verdict.slot, rows, n, chain.members, chain.schema, now, initial, source);
      if !ok {
        ScanRefuses(rows, ids, decode, n);
        return;
      }
      seen, source := seen + {verdict.slot}, source[verdict.slot := n];
    }
    ok := true;
    ScanEnds(Values(batteries), initial, rows, ids, source, decode);
  }

  /** An accepted frame decodes to the same batteries, and a rejected one is rejected, for every order of its rows. */
  lemma MemberOrderIsIrrelevant(frame: Frame, moved: seq<Row>, chain: Chain, now: real)
    requires frame.batteries.Rows? && multiset(frame.batteries.rows) == multiset(moved)
    ensures DecodedMembers(frame.(batteries := Rows(moved)), chain, now) == DecodedMembers(frame, chain, now)
  {
    assert |multiset(frame.batteries.rows)| == |multiset(moved)|;
    RowOrderIsIrrelevant(frame.batteries.rows, moved, Listed(chain.Ids()),
        StrictDecoder(chain.members, chain.schema, now));
  }

  // ---- Counting, membership and distinctness are enough -------------------------------------------

  predicate AllListed(rows: seq<Row>, ids: seq<int>) {
    forall i | 0 <= i < |rows| :: Identified(rows[i]) && rows[i].id.n in ids
  }

  predicate NoneTwice(rows: seq<Row>) {
    forall i, j | 0 <= i < j < |rows| && Identified(rows[i]) && Identified(rows[j]) :: rows[i].id.n != rows[j].id.n
  }

  predicate DistinctIds(ids: seq<int>) {
    forall i, j | 0 <= i < j < |ids| :: ids[i] != ids[j]
  }

  /** Of as many rows as members, each member has one exactly when every row is a member's and none repeats. */
  lemma CountingFillsEveryMember(rows: seq<Row>, ids: seq<int>)
    requires |rows| == |ids| && DistinctIds(ids)
    ensures OneRowPerSlot(rows, Listed(ids)) <==> AllListed(rows, ids) && NoneTwice(rows)
  {
    if AllListed(rows, ids) && NoneTwice(rows) {
      ListedRowsFillEverySlot(rows, ids);
    }
    if OneRowPerSlot(rows, Listed(ids)) {
      FilledSlotsAreListed(rows, ids);
    }
  }

  /** Rows in one slot carry its id, which no two rows share. */
  lemma OneRowNames(rows: seq<Row>, ids: seq<int>, slot: int, i: int, j: int)
    requires AllListed(rows, ids) && NoneTwice(rows) && 1 <= slot <= |ids|
    requires Names(rows, Listed(ids), slot, i) && Names(rows, Listed(ids), slot, j)
    ensures i == j
  {
    assert rows[i].id.n == ids[slot - 1] == rows[j].id.n;
  }

  lemma ListedRowsFillEverySlot(rows: seq<Row>, ids: seq<int>)
    requires |rows| == |ids| && DistinctIds(ids) && AllListed(rows, ids) && NoneTwice(rows)
    ensures OneRowPerSlot(rows, Listed(ids))
  {
    hide Names, Position;
    forall slot, i, j | 1 <= slot <= |ids| && Names(rows, Listed(ids), slot, i) && Names(rows, Listed(ids), slot, j)
      ensures i == j
    {
      OneRowNames(rows, ids, slot, i, j);
    }
    var slots := SlotsOf(rows, ids);
    forall slot | 1 <= slot <= |ids| ensures Named(rows, Listed(ids), slot) {
      DistinctSlotsAreAll(slots, slot);
      var i :| 0 <= i < |slots| && slots[i] == slot;
      SlotNames(rows, ids, i);
    }
  }

  /** The slot of each row. */
  function SlotsOf(rows: seq<Row>, ids: seq<int>): (slots: seq<int>)
    requires AllListed(rows, ids)
  {
    seq(|rows|, i requires 0 <= i < |rows| => Slot(rows[i], Listed(ids)))
  }

  lemma SlotNames(rows: seq<Row>, ids: seq<int>, i: int)
    requires AllListed(rows, ids) && 0 <= i < |rows|
    ensures Names(rows, Listed(ids), SlotsOf(rows, ids)[i], i)
  {
  }

  lemma FilledSlotsAreListed(rows: seq<Row>, ids: seq<int>)
    requires |rows| == |ids| && DistinctIds(ids) && OneRowPerSlot(rows, Listed(ids))
    ensures AllListed(rows, ids) && NoneTwice(rows)
  {
    var index := seq(|ids|, s requires 0 <= s < |ids| => IndexFor(rows, ids, s + 1) + 1);
    forall k | 0 <= k < |rows| ensures rows[k].id.n in ids {
      DistinctSlotsAreAll(index, k + 1);
      var s :| 0 <= s < |index| && index[s] == k + 1;
      assert Names(rows, Listed(ids), s + 1, k);
    }
    forall i, j | 0 <= i < j < |rows| ensures rows[i].id.n != rows[j].id.n {
      var slot := Slot(rows[i], Listed(ids));
      assert Names(rows, Listed(ids), slot, i);
      assert rows[i].id.n == rows[j].id.n ==> Names(rows, Listed(ids), slot, j);
    }
  }

  ghost function IndexFor(rows: seq<Row>, ids: seq<int>, slot: int): (i: int)
    requires Named(rows, Listed(ids), slot)
    ensures Names(rows, Listed(ids), slot, i)
  {
    var i :| Names(rows, Listed(ids), slot, i);
    i
  }
}
