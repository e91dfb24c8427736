/** The flattened cell list of an explicit chain: every number of the chain names one physical cell. */
module Flattening {
  import opened Prelude
  import opened BmsData
  import opened Frames
  import opened Telemetry
  import opened Topology
  import opened Packs
  import opened MqttClient
  import opened Sessions
  import opened Readings
  import TelemetryV2

  /** A battery that knows its cells knows exactly the configured ones, and all of them are positive. */
  ghost predicate Rigid(b: Battery) {
    && (forall i: Index :: i in b.cells ==> i <= b.cellCount && b.cells[i] > 0.0)
    && (b.voltage.Some? ==> forall i: Index :: i <= b.cellCount ==> i in b.cells)
  }

  ghost predicate AllRigid(batteries: seq<Battery>) {
    forall i | 0 <= i < |batteries| :: Rigid(batteries[i])
  }

  lemma CompleteIsRigid(row: Row, cells: nat, at: real)
    requires row.Row? && CompleteShape(row) && |row.cells.elements| == cells
    ensures Rigid(CompleteBattery(row, cells, at))
  {
    var b := CompleteBattery(row, cells, at);
    forall i: Index | i in b.cells ensures b.cells[i] > 0.0 {
      assert row.cells.elements[i - 1] in row.cells.elements;
    }
  }

  lemma MemberIsRigid(frame: Frame, chain: Chain, now: real, slot: int)
    requires TelemetryV2.DecodedMembers(frame, chain, now).Accepted? && 1 <= slot <= |chain.members|
    ensures |TelemetryV2.DecodedMembers(frame, chain, now).value| == |chain.members|
    ensures Rigid(TelemetryV2.DecodedMembers(frame, chain, now).value[slot - 1])
  {
    hide Assembled, CompleteShape, CompleteBattery, Battery.Usable, Rigid;
    AcceptedSlot(frame.batteries.rows, Listed(chain.Ids()), TelemetryV2.StrictDecoder(chain.members, chain.schema, now),
        slot);
    var row := RowFor(frame.batteries.rows, Listed(chain.Ids()), slot);
    CompleteIsRigid(row, chain.members[slot - 1].cells, now - RowAge(row, true).value);
  }

  lemma RigidStep(config: Config, c: Client, step: Step)
    requires config.Explicit? && AllRigid(c.batteries)
    ensures AllRigid(ClientStep(config, c, step).batteries)
  {
    hide ClientStep, HeaderOf, TelemetryV2.DecodedMembers, CarriesFrame;
    var c' := ClientStep(config, c, step);
    ReadingsMove(config, c, step);
    if Completes(config, c, step) {
      DecodedCount(config, FrameIn(config, step), step.at);
      forall i | 0 <= i < |c'.batteries| ensures Rigid(c'.batteries[i]) {
        MemberIsRigid(FrameIn(config, step), config.chain, step.at, i + 1);
      }
    }
  }

  lemma {:induction false} AlwaysRigid(config: Config, run: seq<Step>)
    requires config.Explicit?
    ensures AllRigid(ClientAfter(config, run).batteries)
  {
    hide ClientStep;
    if run != [] {
      AlwaysRigid(config, run[..|run| - 1]);
      RigidStep(config, ClientAfter(config, run[..|run| - 1]), run[|run| - 1]);
    }
  }

  /** The cells an available chain publishes. */
  ghost function Published(config: Config, run: seq<Step>, now: real): set<(int, real)>
    requires Available(config, ClientAfter(config, run), now)
  {
    var c := ClientAfter(config, run);
    AlwaysSound(config, run);
    SnapshotsAreSlotted(config, c, now);
    NumberedCells(config, Snapshots(c.batteries, now))
  }

  lemma SnapshotsAreSlotted(config: Config, c: Client, now: real)
    requires |c.batteries| == config.Count()
    ensures Slotted(config, Snapshots(c.batteries, now))
  {
    SnapshotsAreUsable(c.batteries, now);
    forall n | 0 <= n < |Snapshots(c.batteries, now)|
      ensures 1 <= Snapshots(c.batteries, now)[n].slot <= config.Count()
    {
      assert Snapshots(c.batteries, now)[n] in Snapshots(c.batteries, now);
    }
  }

  /** A published pair is a physical cell of one member under that cell's number. */
  ghost predicate NamesCell(config: Config, c: Client, pair: (int, real), member: int, cell: int)
    requires config.Explicit? && |c.batteries| == config.Count()
  {
    && IsCell(CellCounts(config.chain.members), member, cell)
        && pair.0 == CellId(CellCounts(config.chain.members), member, cell)
    && cell in c.batteries[member].cells && pair.1 == c.batteries[member].cells[cell]
  }

  lemma PublishedCellsAreCells(config: Config, run: seq<Step>, now: real, pair: (int, real))
      returns (member: int, cell: int)
    requires config.Explicit? && Available(config, ClientAfter(config, run), now) && pair in Published(config, run, now)
    ensures |ClientAfter(config, run).batteries| == config.Count()
    ensures NamesCell(config, ClientAfter(config, run), pair, member, cell)
  {
    hide ClientAfter, Available, Battery.Usable, Sum;
    var c := ClientAfter(config, run);
    AlwaysSound(config, run);
    AlwaysRigid(config, run);
    SnapshotsAreSlotted(config, c, now);
    SnapshotsAreUsable(c.batteries, now);
    var snapshots := Snapshots(c.batteries, now);
    var n, i :| 0 <= n < |snapshots| && i in snapshots[n].battery.cells && Measures(snapshots[n], i)
        && NumberedCell(config, snapshots[n], i) == pair;
    assert snapshots[n] in snapshots;
    member, cell := snapshots[n].slot - 1, i;
    assert Rigid(c.batteries[member]);
  }

  lemma CellsArePublished(config: Config, run: seq<Step>, now: real, member: int, cell: int) returns (pair: (int, real))
    requires config.Explicit? && Available(config, ClientAfter(config, run), now)
    requires IsCell(CellCounts(config.chain.members), member, cell)
    ensures pair in Published(config, run, now)
    ensures pair.0 == CellId(CellCounts(config.chain.members), member, cell)
  {
    hide ClientAfter, Available, Sum;
    var c := ClientAfter(config, run);
    AlwaysSound(config, run);
    AlwaysRigid(config, run);
    AvailableIsUsable(config, c, now, member + 1);
    assert Rigid(c.batteries[member]);
    AvailableCoversAll(config, c, now);
    AllSnapshots(c.batteries, now);
    SnapshotsAreSlotted(config, c, now);
    var snapshots := Snapshots(c.batteries, now);
    assert snapshots[member] == Snapshot(member + 1, c.batteries[member]);
    assert Measures(snapshots[member], cell);
    pair := NumberedCell(config, snapshots[member], cell);
  }

  lemma AvailableCoversAll(config: Config, c: Client, now: real)
    requires Available(config, c, now)
    ensures |Snapshots(c.batteries, now)| == config.Count()
  {
  }

  /** The published list gives cell number id the voltage v. */
  ghost predicate Lists(config: Config, run: seq<Step>, now: real, id: int, v: real) {
    Available(config, ClientAfter(config, run), now) && (id, v) in Published(config, run, now)
  }

  /**
   * Whenever an explicit chain is available, its published cell list holds every number from 1 to the
   * configured total and no other, each with one voltage: that of the physical cell that has this number.
   */
  lemma FlattenedCellsAreABijection(config: Config, run: seq<Step>, now: real, id: int)
    requires config.Explicit? && Available(config, ClientAfter(config, run), now)
    ensures (exists v :: Lists(config, run, now, id, v)) <==> 1 <= id <= config.TotalCells()
    ensures forall v, v' :: Lists(config, run, now, id, v) && Lists(config, run, now, id, v') ==> v == v'
  {
    hide ClientAfter, Available, Published, Sum, NamesCell;
    var counts := CellCounts(config.chain.members);
    if v :| Lists(config, run, now, id, v) {
      var member, cell := PublishedCellsAreCells(config, run, now, (id, v));
      NamedCellsHaveIds(config, ClientAfter(config, run), (id, v), member, cell);
      CellIdsAreDistinct(counts, member, cell, member, cell);
    }
    if 1 <= id <= config.TotalCells() {
      var member, cell := EveryNumberIsACell(counts, id);
      var pair := CellsArePublished(config, run, now, member, cell);
      assert pair == (id, pair.1);
      assert Lists(config, run, now, id, pair.1);
    }
    forall v, v' | Lists(config, run, now, id, v) && Lists(config, run, now, id, v') ensures v == v' {
      OneVoltagePerNumber(config, run, now, id, v, v');
    }
  }

  lemma NamedCellsHaveIds(config: Config, c: Client, pair: (int, real), member: int, cell: int)
    requires config.Explicit? && |c.batteries| == config.Count() && NamesCell(config, c, pair, member, cell)
    ensures IsCell(CellCounts(config.chain.members), member, cell)
    ensures pair.0 == CellId(CellCounts(config.chain.members), member, cell)
  {
  }

  lemma OneVoltagePerNumber(config: Config, run: seq<Step>, now: real, id: int, v: real, v': real)
    requires config.Explicit? && Lists(config, run, now, id, v) && Lists(config, run, now, id, v')
    ensures v == v'
  {
    hide ClientAfter, Available, Published, Sum;
    var member, cell := PublishedCellsAreCells(config, run, now, (id, v));
    var member', cell' := PublishedCellsAreCells(config, run, now, (id, v'));
    CellIdsAreDistinct(CellCounts(config.chain.members), member, cell, member', cell');
  }

  // ---- No number is published twice -----------------------------------------------------------------------

  lemma {:induction false} UpTo(n: nat, size: nat) returns (ids: set<int>)
    requires n == size
    ensures |ids| == n && forall id :: id in ids <==> 1 <= id <= n
  {
    if n == 0 {
      ids := {};
    } else {
      var fewer := UpTo(n - 1, size - 1);
      ids := fewer + {n};
    }
  }

  lemma {:induction false} ElementsSize(ids: seq<int>)
    ensures |Elements(ids)| <= |ids|
  {
    if ids != [] {
      var front, last := ids[..|ids| - 1], ids[|ids| - 1];
      assert ids == front + [last];
      ElementsSize(front);
      ElementsNext(front, last);
    }
  }

  /** A list of n entries that names every number from 1 to n names none twice. */
  lemma FullListsDoNotRepeat(ids: seq<int>, n: nat, i: int, j: int)
    requires |ids| == n && (forall id | 1 <= id <= n :: id in ids) && 0 <= i < j < n
    ensures ids[i] != ids[j]
  {
    if ids[i] == ids[j] {
      var others := ids[..j] + ids[j + 1..];
      var all := UpTo(n, n);
      forall id | id in all ensures id in Elements(others) {
        assert id in ids;
        var k :| 0 <= k < n && ids[k] == id;
        var k' := if k == j then i else k;
        assert others[if k' < j then k' else k' - 1] == id;
      }
      ElementsSize(others);
      SubsetSize(all, Elements(others));
    }
  }

  lemma RigidIsMeasured(b: Battery, slot: int, now: real)
    requires Rigid(b) && b.Usable(now)
    ensures |Measured(Snapshot(slot, b), b.cells.Keys)| == b.cellCount
  {
    var measured := Measured(Snapshot(slot, b), b.cells.Keys);
    var ids := UpTo(b.cellCount, b.cellCount);
    assert b.voltage.Some?;
    var known: set<int> := measured;
    forall id: int ensures id in known <==> id in ids {
      if 1 <= id <= b.cellCount {
        var cell: Index := id;
        assert cell in b.cells && cell in measured;
      }
    }
    assert known == ids;
  }

  lemma {:induction false} MeasuredSoFar(config: Config, c: Client, now: real, n: nat)
    requires config.Explicit? && Sound(config, c) && AllRigid(c.batteries) && Available(config, c, now)
    requires n <= config.Count()
    ensures |Snapshots(c.batteries, now)| == config.Count()
    ensures MeasuredTotal(Snapshots(c.batteries, now)[..n]) == Sum(config.Cells()[..n])
  {
    hide Battery.Usable, Available, Sound, Rigid, Measured;
    var snapshots, counts := Snapshots(c.batteries, now), config.Cells();
    AvailableCoversAll(config, c, now);
    if n > 0 {
      MeasuredSoFar(config, c, now, n - 1);
      assert snapshots[..n][..n - 1] == snapshots[..n - 1] && counts[..n][..n - 1] == counts[..n - 1];
      MemberIsMeasured(config, c, now, n);
    }
  }

  lemma MemberIsMeasured(config: Config, c: Client, now: real, slot: int)
    requires Sound(config, c) && AllRigid(c.batteries) && Available(config, c, now) && 1 <= slot <= config.Count()
    ensures |Snapshots(c.batteries, now)| == config.Count()
    ensures
      var s := Snapshots(c.batteries, now)[slot - 1];
      |Measured(s, s.battery.cells.Keys)| == config.Cells()[slot - 1]
  {
    hide Battery.Usable, Available, Rigid, Measured;
    AvailableCoversAll(config, c, now);
    AllSnapshots(c.batteries, now);
    RigidIsMeasured(c.batteries[slot - 1], slot, now);
  }

  /** The list that an available chain publishes has one entry for each of its numbers, so it names no number twice. */
  lemma EachCellIsListedOnce(config: Config, run: seq<Step>, now: real, cells: seq<(int, real)>, i: int, j: int)
    requires config.Explicit? && Available(config, ClientAfter(config, run), now)
    requires Elements(cells) == Published(config, run, now)
    requires |cells| == MeasuredTotal(Snapshots(ClientAfter(config, run).batteries, now)) && 0 <= i < j < |cells|
    ensures |cells| == config.TotalCells() && cells[i].0 != cells[j].0
  {
    hide ClientAfter, Available, Published, Sum, Snapshots, MeasuredTotal;
    var c, n := ClientAfter(config, run), config.TotalCells();
    AlwaysSound(config, run);
    AlwaysRigid(config, run);
    MeasuredSoFar(config, c, now, config.Count());
    assert Snapshots(c.batteries, now)[..config.Count()] == Snapshots(c.batteries, now);
    assert config.Cells()[..config.Count()] == config.Cells();
    var ids := seq(|cells|, k requires 0 <= k < |cells| => cells[k].0);
    forall id | 1 <= id <= n ensures id in ids {
      var v := ListedNumber(config, run, now, id);
      var k :| 0 <= k < |cells| && cells[k] == (id, v);
      assert ids[k] == id;
    }
    FullListsDoNotRepeat(ids, n, i, j);
  }

  lemma ListedNumber(config: Config, run: seq<Step>, now: real, id: int) returns (v: real)
    requires config.Explicit? && Available(config, ClientAfter(config, run), now) && 1 <= id <= config.TotalCells()
    ensures (id, v) in Published(config, run, now)
  {
    hide ClientAfter, Available, Published, Sum;
    var member, cell := EveryNumberIsACell(CellCounts(config.chain.members), id);
    var pair := CellsArePublished(config, run, now, member, cell);
    v := pair.1;
    assert pair == (id, v);
  }

  // ---- Chains without a topology ----------------------------------------------------------------------

  /**
   * Consecutively numbered packs count from the first pack of the installation, not of the chain: their
   * numbers stay within the chain's total exactly when the chain starts at the first pack.
   */
  lemma PlainNumbersStayWithinExactly(config: Config)
    requires config.Plain? && config.count > 0 && config.cellsPerBms > 0
    ensures (forall slot, cell | 1 <= slot <= config.count && 1 <= cell <= config.cellsPerBms ::
               1 <= GlobalId(config, slot, cell) <= config.TotalCells()) <==> config.bmsFirst <= 1
  {
    var n, k := config.count, config.cellsPerBms;
    if config.bmsFirst <= 1 {
      forall slot, cell | 1 <= slot <= n && 1 <= cell <= k
        ensures 1 <= GlobalId(config, slot, cell) <= config.TotalCells()
      {
        NumberWithin(slot - 1, n, cell, k);
      }
    } else {
      LastNumberIsOutside(config.bmsFirst - 1, n - 1, k);
      assert GlobalId(config, n, k) > config.TotalCells();
    }
  }

  lemma ProductIsPositive(a: nat, k: nat)
    ensures 0 <= a * k
  {
  }

  lemma ProductsAdd(a: int, b: int, k: int)
    ensures (a + b) * k == a * k + b * k
  {
  }

  lemma NumberWithin(before: int, n: int, cell: int, k: int)
    requires 0 <= before < n && 1 <= cell <= k
    ensures 1 <= before * k + cell <= n * k
  {
    var after := n - 1 - before;
    ProductIsPositive(before, k);
    ProductIsPositive(after, k);
    ProductsAdd(before, after + 1, k);
    ProductsAdd(after, 1, k);
  }

  lemma LastNumberIsOutside(skipped: int, before: int, k: int)
    requires skipped >= 1 && before >= 0 && k >= 1
    ensures skipped * k + before * k + k > (before + 1) * k
  {
    assert skipped * k >= k;
  }
}
