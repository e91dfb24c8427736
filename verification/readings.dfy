/** Where the readings of a run come from, how old they are, and who may grant a permission. */
module Readings {
  import opened Prelude
  import opened BmsData
  import opened Frames
  import opened Telemetry
  import opened Topology
  import opened Packs
  import opened MqttClient
  import opened Evidence
  import opened Sessions
  import TelemetryV2

  function NumberingOf(config: Config): Numbering {
    match config
    case Plain(count, _, _) => Consecutive(config.First(), count)
    case Explicit(chain) => Listed(chain.Ids())
  }

  /** What holds of the client in every reachable state. */
  ghost predicate Sound(config: Config, c: Client) {
    && |c.batteries| == config.Count()
    && (forall i | 0 <= i < |c.batteries| :: WellDated(c.batteries[i]) && c.batteries[i].cellCount == config.Cells()[i])
    && (c.hasFull || c.batteries == config.Empty())
    && (c.bootReady ==> c.hasFull)
  }

  ghost predicate DescribesSlot(config: Config, frame: Frame, row: Row, slot: int) {
    frame.batteries.Rows? && row in frame.batteries.rows && Identified(row) && Slot(row, NumberingOf(config)) == slot
  }

  ghost predicate UsableAs(b: Battery, row: Row, cells: nat, now: real) {
    && row.Row? && CompleteShape(row) && RowAge(row, true).Some? && 0.0 <= RowAge(row, true).value < STALE_TIMEOUT
    && b == CompleteBattery(row, cells, now - RowAge(row, true).value) && b.Usable(now)
  }

  /** A battery of an accepted complete frame is what its own row says, and usable at once. */
  lemma CompletedSlot(config: Config, frame: Frame, now: real, slot: int) returns (row: Row)
    requires DecodedFrame(config, frame, now).Accepted? && 1 <= slot <= config.Count()
    ensures |DecodedFrame(config, frame, now).value| == config.Count()
    ensures DescribesSlot(config, frame, row, slot)
    ensures UsableAs(DecodedFrame(config, frame, now).value[slot - 1], row, config.Cells()[slot - 1], now)
  {
    hide DecodedComplete, TelemetryV2.DecodedMembers, CompleteShape, CompleteBattery, Battery.Usable;
    match config {
      case Plain(count, _, cellsPerBms) =>
          row := PlainSlot(frame.batteries, count, config.First(), cellsPerBms, now, slot);
      case Explicit(chain) => row := MemberSlot(frame, chain, now, slot);
    }
  }

  lemma PlainSlot(batteries: Rows, count: nat, first: int, cellsPerBms: nat, now: real, slot: int) returns (row: Row)
    requires DecodedComplete(batteries, count, first, cellsPerBms, now).Accepted? && 1 <= slot <= count
    ensures batteries.Rows? && row in batteries.rows && Identified(row) && Slot(row, Consecutive(first, count)) == slot
    ensures |DecodedComplete(batteries, count, first, cellsPerBms, now).value| == count
    ensures UsableAs(DecodedComplete(batteries, count, first, cellsPerBms, now).value[slot - 1], row, cellsPerBms, now)
  {
    hide Assembled, CompleteShape, CompleteBattery, Battery.Usable;
    AcceptedSlot(batteries.rows, Consecutive(first, count), CompleteDecoder(cellsPerBms, now), slot);
    row := RowFor(batteries.rows, Consecutive(first, count), slot);
  }

  lemma MemberSlot(frame: Frame, chain: Chain, now: real, slot: int) returns (row: Row)
    requires TelemetryV2.DecodedMembers(frame, chain, now).Accepted? && 1 <= slot <= |chain.members|
    ensures frame.batteries.Rows? && row in frame.batteries.rows && Identified(row)
    ensures Slot(row, Listed(chain.Ids())) == slot
    ensures |TelemetryV2.DecodedMembers(frame, chain, now).value| == |chain.members|
    ensures UsableAs(TelemetryV2.DecodedMembers(frame, chain, now).value[slot - 1], row, chain.members[slot - 1].cells,
        now)
  {
    hide Assembled, CompleteShape, CompleteBattery, Battery.Usable;
    AcceptedSlot(frame.batteries.rows, Listed(chain.Ids()), TelemetryV2.StrictDecoder(chain.members, chain.schema, now),
        slot);
    row := RowFor(frame.batteries.rows, Listed(chain.Ids()), slot);
  }

  lemma MergedSlot(config: Config, c: Client, frame: Frame, now: real, slot: int) returns (row: Row)
    requires config.Plain? && |c.batteries| == config.Count() && MergedFrame(config, c, frame, now).Accepted?
    requires 1 <= slot <= config.Count()
    ensures |MergedFrame(config, c, frame, now).value| == config.Count()
    ensures row.Row? && DescribesSlot(config, frame, row, slot) && PartialRow(row, c.batteries[slot - 1].cellCount)
    ensures MergedFrame(config, c, frame, now).value[slot - 1] == Merged(c.batteries[slot - 1], row, now, c.bootReady)
  {
    hide Assembled, PartialRow, Merged;
    var rows, ids := frame.batteries.rows, NumberingOf(config);
    AcceptedSlot(rows, ids, PartialDecoder(c.batteries, now, c.bootReady), slot);
    row := RowFor(rows, ids, slot);
  }

  // ---- Soundness of every reachable state -----------------------------------------------------------

  lemma EmptyIsSound(config: Config, c: Client)
    requires c.batteries == config.Empty() && (c.bootReady ==> c.hasFull)
    ensures Sound(config, c)
  {
  }

  lemma SoundStep(config: Config, c: Client, step: Step)
    requires Sound(config, c)
    ensures Sound(config, ClientStep(config, c, step))
  {
    hide ClientStep, HeaderOf, DecodedFrame, MergedFrame, WellDated, CarriesFrame, CompleteBattery, Merged;
    hide Battery.Usable, CompleteShape, PartialRow, Config.Cells;
    var c' := ClientStep(config, c, step);
    ReadinessMoves(config, c, step);
    ReadingsMove(config, c, step);
    if Completes(config, c, step) {
      CompletedTable(config, FrameIn(config, step), step.at);
    } else if Merges(config, c, step) {
      MergedTable(config, Admitted(c, HeaderIn(config, step)), FrameIn(config, step), step.at);
    } else if c'.batteries == config.Empty() {
      EmptyIsSound(config, c');
    }
  }

  ghost predicate SoundTable(config: Config, batteries: seq<Battery>) {
    && |batteries| == config.Count()
    && forall i | 0 <= i < |batteries| :: WellDated(batteries[i]) && batteries[i].cellCount == config.Cells()[i]
  }

  lemma CompletedTable(config: Config, frame: Frame, now: real)
    requires DecodedFrame(config, frame, now).Accepted?
    ensures SoundTable(config, DecodedFrame(config, frame, now).value)
  {
    hide DecodedFrame, WellDated, CompleteBattery, Battery.Usable, CompleteShape, DescribesSlot;
    var batteries := DecodedFrame(config, frame, now).value;
    DecodedCount(config, frame, now);
    forall i | 0 <= i < |batteries| ensures WellDated(batteries[i]) && batteries[i].cellCount == config.Cells()[i] {
      var row := CompletedSlot(config, frame, now, i + 1);
      CompleteIsDated(row, config.Cells()[i], now - RowAge(row, true).value);
      CompleteReadings(row, config.Cells()[i], now - RowAge(row, true).value, Voltage);
    }
  }

  lemma DecodedCount(config: Config, frame: Frame, now: real)
    requires DecodedFrame(config, frame, now).Accepted?
    ensures |DecodedFrame(config, frame, now).value| == config.Count()
  {
  }

  lemma MergedTable(config: Config, c: Client, frame: Frame, now: real)
    requires config.Plain? && SoundTable(config, c.batteries) && MergedFrame(config, c, frame, now).Accepted?
    ensures SoundTable(config, MergedFrame(config, c, frame, now).value)
  {
    hide MergedPartial, WellDated, Merged, PartialRow, DescribesSlot;
    var batteries := MergedFrame(config, c, frame, now).value;
    MergedCount(config, c, frame, now);
    forall i | 0 <= i < |batteries| ensures WellDated(batteries[i]) && batteries[i].cellCount == config.Cells()[i] {
      var row := MergedSlot(config, c, frame, now, i + 1);
      MergedIsDated(c.batteries[i], row, now, c.bootReady);
      MergingNeverPermits(c.batteries[i], row, now, c.bootReady);
    }
  }

  lemma MergedCount(config: Config, c: Client, frame: Frame, now: real)
    requires MergedFrame(config, c, frame, now).Accepted?
    ensures |MergedFrame(config, c, frame, now).value| == |c.batteries|
  {
  }

  lemma {:induction false} AlwaysSound(config: Config, run: seq<Step>)
    ensures Sound(config, ClientAfter(config, run))
  {
    hide Sound, ClientStep;
    if run == [] {
      EmptyIsSound(config, ClientAfter(config, run));
    } else {
      AlwaysSound(config, run[..|run| - 1]);
      SoundStep(config, ClientAfter(config, run[..|run| - 1]), run[|run| - 1]);
    }
  }

  /** The battery in a slot; slots that are not configured hold nothing. */
  function BatteryOf(c: Client, slot: int): Battery {
    if 1 <= slot <= |c.batteries| then c.batteries[slot - 1] else Unknown(0)
  }

  // ---- Provenance -----------------------------------------------------------------------------------

  /** The frame of this step evidences value v for one key of one slot, sampled no earlier than the stamp. */
  ghost predicate TakenFrom(config: Config, step: Step, row: Row, slot: int, key: Key, v: real, stamp: real)
    requires CarriesFrame(config, step)
  {
    var ready := HeaderIn(config, step).ready;
    && DescribesSlot(config, FrameIn(config, step), row, slot)
    && Evidences(row, ready, key) && Carried(row, ready, key) == Some(v)
    && RowAge(row, ready).Some? && 0.0 <= RowAge(row, ready).value && stamp <= step.at - RowAge(row, ready).value
  }

  ghost predicate EvidencedAt(config: Config, run: seq<Step>, k: int, row: Row, slot: int, key: Key, v: real,
      stamp: real)
  {
    && 0 <= k < |run|
    && (Completes(config, ClientAfter(config, run[..k]), run[k])
        || Merges(config, ClientAfter(config, run[..k]), run[k]))
    && TakenFrom(config, run[k], row, slot, key, v, stamp)
  }

  /** Some frame that the run accepted carried this value, and the stamp does not make it look younger than it is. */
  ghost predicate Evidenced(config: Config, run: seq<Step>, slot: int, key: Key, v: real, stamp: real) {
    exists k, row :: EvidencedAt(config, run, k, row, slot, key, v, stamp)
  }

  lemma EvidenceLasts(config: Config, run: seq<Step>, step: Step, slot: int, key: Key, v: real, stamp: real)
    requires Evidenced(config, run, slot, key, v, stamp)
    ensures Evidenced(config, run + [step], slot, key, v, stamp)
  {
    hide Completes, Merges, TakenFrom;
    var k, row :| EvidencedAt(config, run, k, row, slot, key, v, stamp);
    assert (run + [step])[..k] == run[..k];
    assert EvidencedAt(config, run + [step], k, row, slot, key, v, stamp);
  }

  ghost predicate Kept(before: Battery, after: Battery, key: Key) {
    after.Reading(key) == before.Reading(key) && key in before.times && key in after.times
        && after.times[key] == before.times[key]
  }

  /** After one step a reading is either the old one with its old stamp, or comes from the frame of that step. */
  lemma ReadingsComeFromFrames(config: Config, c: Client, step: Step, slot: int, key: Key) returns (row: Row)
    requires Sound(config, c) && key.Measured()
    requires BatteryOf(ClientStep(config, c, step), slot).Reading(key).Some?
    ensures
      var b, b' := BatteryOf(c, slot), BatteryOf(ClientStep(config, c, step), slot);
      || Kept(b, b', key)
      || (&& (Completes(config, c, step) || Merges(config, c, step)) && key in b'.times
          && TakenFrom(config, step, row, slot, key, b'.Reading(key).value, b'.times[key]))
  {
    hide ClientStep, HeaderOf, DecodedFrame, MergedPartial, CarriesFrame, CompleteBattery, Merged, Battery.Usable;
    hide CompleteShape, DescribesSlot, Carried, Config.Cells, Evidences;
    var c' := ClientStep(config, c, step);
    ReadingsMove(config, c, step);
    SoundStep(config, c, step);
    assert 1 <= slot <= config.Count();
    row := NotAnObject;
    if Completes(config, c, step) {
      row := CompletedSlot(config, FrameIn(config, step), step.at, slot);
      CompleteReadings(row, config.Cells()[slot - 1], step.at - RowAge(row, true).value, key);
      assert Evidences(row, true, key) by {
        CompleteRowsEvidenceAll(row, key);
      }
    } else if Merges(config, c, step) {
      var session := Admitted(c, HeaderIn(config, step));
      row := MergedSlot(config, session, FrameIn(config, step), step.at, slot);
      MergedReadings(c.batteries[slot - 1], row, step.at, session.bootReady, key);
    } else if c'.batteries != c.batteries {
      EmptyHasNoReadings(config, c', slot, key);
    }
  }

  lemma CompleteRowsEvidenceAll(row: Row, key: Key)
    requires row.Row?
    ensures Evidences(row, true, key)
  {
  }

  lemma EmptyHasNoReadings(config: Config, c: Client, slot: int, key: Key)
    requires c.batteries == config.Empty()
    ensures BatteryOf(c, slot).Reading(key).None?
  {
  }

  /** Every reading of every reachable state was carried by an accepted frame that evidenced it. */
  lemma {:induction false} ReadingsAreEvidenced(config: Config, run: seq<Step>, slot: int, key: Key)
    requires key.Measured() && BatteryOf(ClientAfter(config, run), slot).Reading(key).Some?
    ensures
      var b := BatteryOf(ClientAfter(config, run), slot);
      key in b.times && Evidenced(config, run, slot, key, b.Reading(key).value, b.times[key])
  {
    hide ClientStep, Completes, Merges, TakenFrom, Evidenced, Config.Empty;
    if run == [] {
      EmptyHasNoReadings(config, ClientAfter(config, run), slot, key);
    } else {
      var front, step := run[..|run| - 1], run[|run| - 1];
      AlwaysSound(config, front);
      var row := ReadingsComeFromFrames(config, ClientAfter(config, front), step, slot, key);
      var b, b' := BatteryOf(ClientAfter(config, front), slot), BatteryOf(ClientAfter(config, run), slot);
      assert front + [step] == run;
      if Kept(b, b', key) {
        ReadingsAreEvidenced(config, front, slot, key);
        EvidenceLasts(config, front, step, slot, key, b.Reading(key).value, b.times[key]);
      } else {
        EvidenceStarts(config, run, row, slot, key, b'.Reading(key).value, b'.times[key]);
      }
    }
  }

  lemma EvidenceStarts(config: Config, run: seq<Step>, row: Row, slot: int, key: Key, v: real, stamp: real)
    requires run != []
    requires EvidencedAt(config, run, |run| - 1, row, slot, key, v, stamp)
    ensures Evidenced(config, run, slot, key, v, stamp)
  {
  }

  /** A battery that is held has reported itself online, and nothing but a complete frame looks at that again. */
  lemma {:induction false} HeldIsOnline(config: Config, run: seq<Step>, slot: int)
    requires ClientAfter(config, run).hasFull && 1 <= slot <= config.Count()
    ensures BatteryOf(ClientAfter(config, run), slot).online == Some(true)
  {
    hide ClientStep, Completes, Merges, DecodedFrame, MergedFrame, Merged, PartialRow, UsableAs, DescribesSlot;
    if run != [] {
      var c, step := ClientAfter(config, run[..|run| - 1]), run[|run| - 1];
      AlwaysSound(config, run);
      AlwaysSound(config, run[..|run| - 1]);
      ReadinessMoves(config, c, step);
      ReadingsMove(config, c, step);
      if Completes(config, c, step) {
        CompletionIsOnline(config, c, step, slot);
      } else {
        HeldIsOnline(config, run[..|run| - 1], slot);
        if Merges(config, c, step) {
          MergeLeavesOnline(config, c, step, slot);
        }
      }
    }
  }

  lemma CompletionIsOnline(config: Config, c: Client, step: Step, slot: int)
    requires Completes(config, c, step) && 1 <= slot <= config.Count()
    ensures BatteryOf(ClientStep(config, c, step), slot).online == Some(true)
  {
    hide ClientStep, DecodedFrame, DescribesSlot, CompleteBattery, CompleteShape;
    ReadingsMove(config, c, step);
    var row := CompletedSlot(config, FrameIn(config, step), step.at, slot);
  }

  lemma MergeLeavesOnline(config: Config, c: Client, step: Step, slot: int)
    requires Sound(config, c) && Merges(config, c, step) && 1 <= slot <= config.Count()
    ensures BatteryOf(ClientStep(config, c, step), slot).online == BatteryOf(c, slot).online
  {
    hide ClientStep, MergedFrame, HeaderOf, CarriesFrame, DescribesSlot, PartialRow, Merged;
    ReadingsMove(config, c, step);
    var session := Admitted(c, HeaderIn(config, step));
    var row := MergedSlot(config, session, FrameIn(config, step), step.at, slot);
    MergingNeverPermits(c.batteries[slot - 1], row, step.at, session.bootReady);
  }

  // ---- Deadlines ------------------------------------------------------------------------------------

  /** A loss of the producer or the broker, a new boot or an unreadable frame: what is held may not be renewed. */
  ghost predicate Disrupts(config: Config, c: Client, step: Step) {
    && step.Receive? && !Completes(config, c, step)
    && (|| step.event.Disconnected?
        || (!step.event.retained
            && (|| step.event.message == Status(true)
                || (step.event.message.Telemetry? && !CarriesFrame(config, step))
                || (PassesGate(config, c, step) && Displaces(c, HeaderIn(config, step))))))
  }

  lemma DisruptionsEndReadiness(config: Config, c: Client, step: Step)
    requires Disrupts(config, c, step)
    ensures !ClientStep(config, c, step).bootReady
  {
    hide HeaderOf, DecodedFrame, MergedFrame;
  }

  ghost predicate NoCompletion(config: Config, run: seq<Step>, d: nat) {
    forall k | d <= k < |run| :: !Completes(config, ClientAfter(config, run[..k]), run[k])
  }

  lemma NoCompletionBefore(config: Config, run: seq<Step>, d: nat)
    requires NoCompletion(config, run, d) && d < |run|
    ensures NoCompletion(config, run[..|run| - 1], d)
    ensures !Completes(config, ClientAfter(config, run[..|run| - 1]), run[|run| - 1])
  {
    hide Completes;
    var front := run[..|run| - 1];
    forall k | d <= k < |front| ensures !Completes(config, ClientAfter(config, front[..k]), front[k]) {
      assert front[..k] == run[..k];
    }
  }

  /** The readings are gone, or no stored sample time of the slot has risen. */
  ghost predicate NotRenewed(before: Client, after: Client, slot: int, key: Key) {
    || !after.hasFull
    || (&& key in BatteryOf(before, slot).times && key in BatteryOf(after, slot).times
        && BatteryOf(after, slot).times[key] <= BatteryOf(before, slot).times[key])
  }

  /**
   * Neither a step of a boot that is not ready nor a disrupting one, such as a new boot's own first frame, raises a
   * stamp.
   */
  lemma StepDoesNotRenew(config: Config, c: Client, step: Step, slot: int, key: Key)
    requires Sound(config, c) && !Completes(config, c, step) && (!c.bootReady || Disrupts(config, c, step))
    requires key in BatteryOf(c, slot).times
    ensures !ClientStep(config, c, step).bootReady
    ensures NotRenewed(c, ClientStep(config, c, step), slot, key)
  {
    hide ClientStep, HeaderOf, DecodedFrame, MergedPartial, CarriesFrame, Merged, DescribesSlot, PartialRow;
    if Disrupts(config, c, step) {
      DisruptionsEndReadiness(config, c, step);
    }
    ReadinessMoves(config, c, step);
    ReadingsMove(config, c, step);
    if Merges(config, c, step) {
      var session := Admitted(c, HeaderIn(config, step));
      var row := MergedSlot(config, session, FrameIn(config, step), step.at, slot);
      MergedNeverRenews(c.batteries[slot - 1], row, step.at, key);
    }
  }

  /** Without a complete frame, no event whatever raises a stored sample time of a boot that is not ready. */
  lemma {:induction false} StampsNeverRise(config: Config, run: seq<Step>, d: nat, slot: int, key: Key)
    requires d <= |run| && NoCompletion(config, run, d) && !ClientAfter(config, run[..d]).bootReady
    requires key in BatteryOf(ClientAfter(config, run[..d]), slot).times
    ensures !ClientAfter(config, run).bootReady
    ensures NotRenewed(ClientAfter(config, run[..d]), ClientAfter(config, run), slot, key)
  {
    hide ClientStep, Completes, NoCompletion;
    if d == |run| {
      assert run[..d] == run;
    } else {
      var front, step := run[..|run| - 1], run[|run| - 1];
      assert front[..d] == run[..d];
      NoCompletionBefore(config, run, d);
      AlwaysSound(config, front);
      StampsNeverRise(config, front, d, slot, key);
      var c := ClientAfter(config, front);
      if key in BatteryOf(c, slot).times {
        StepDoesNotRenew(config, c, step, slot, key);
      } else {
        ReadinessMoves(config, c, step);
      }
    }
  }

  /** The complete chain can be published at this time. */
  ghost predicate Available(config: Config, c: Client, now: real) {
    var data := AggregateOf(config, c, now);
    data.Some? && data.value.dataComplete
  }

  lemma AvailableIsUsable(config: Config, c: Client, now: real, slot: int)
    requires Sound(config, c) && Available(config, c, now) && 1 <= slot <= config.Count()
    ensures BatteryOf(c, slot).Usable(now) && c.hasFull
  {
    hide Battery.Usable, WellDated;
    CompleteMeansAllUsable(config, c, now);
  }

  /** From a disruption on, that step included, no stamp held before it rises unless a complete frame is accepted. */
  lemma DisruptionsRenewNothing(config: Config, run: seq<Step>, d: nat, slot: int, key: Key)
    requires d < |run| && Disrupts(config, ClientAfter(config, run[..d]), run[d]) && NoCompletion(config, run, d + 1)
    requires key in BatteryOf(ClientAfter(config, run[..d]), slot).times && ClientAfter(config, run).hasFull
    ensures NotRenewed(ClientAfter(config, run[..d]), ClientAfter(config, run), slot, key)
  {
    hide ClientStep, Completes, NoCompletion, Disrupts;
    assert run[..d + 1][..d] == run[..d];
    var before, after := ClientAfter(config, run[..d]), ClientAfter(config, run[..d + 1]);
    AlwaysSound(config, run[..d]);
    DisruptsWithoutCompleting(config, before, run[d]);
    DisruptionsEndReadiness(config, before, run[d]);
    StepDoesNotRenew(config, before, run[d], slot, key);
    if after.hasFull {
      StampsNeverRise(config, run, d + 1, slot, key);
    } else {
      StaysDropped(config, run, d + 1);
    }
  }

  lemma DisruptsWithoutCompleting(config: Config, c: Client, step: Step)
    requires Disrupts(config, c, step)
    ensures !Completes(config, c, step)
  {
  }

  lemma {:induction false} StaysDropped(config: Config, run: seq<Step>, d: nat)
    requires d <= |run| && NoCompletion(config, run, d) && !ClientAfter(config, run[..d]).hasFull
    ensures !ClientAfter(config, run).hasFull
  {
    hide ClientStep, Completes, NoCompletion;
    if d == |run| {
      assert run[..d] == run;
    } else {
      var front := run[..|run| - 1];
      assert front[..d] == run[..d];
      NoCompletionBefore(config, run, d);
      StaysDropped(config, front, d);
      ReadinessMoves(config, ClientAfter(config, front), run[|run| - 1]);
    }
  }

  /**
   * After a disruption, whatever partial, repeated or malformed frames arrive, the new boot's first frame among them:
   * unless a complete frame is accepted, availability ends within the timeout of each stamp held before the
   * disruption, so of the oldest.
   */
  lemma AvailabilityEnds(config: Config, run: seq<Step>, d: nat, slot: int, key: Key, now: real)
    requires d < |run| && Disrupts(config, ClientAfter(config, run[..d]), run[d]) && NoCompletion(config, run, d + 1)
    requires key in BatteryOf(ClientAfter(config, run[..d]), slot).times
    requires Available(config, ClientAfter(config, run), now)
    ensures now - BatteryOf(ClientAfter(config, run[..d]), slot).times[key] < STALE_TIMEOUT
  {
    hide ClientStep, Completes, NoCompletion, Available, Disrupts, Battery.Usable;
    AlwaysSound(config, run);
    AlwaysSound(config, run[..d]);
    AvailableIsUsable(config, ClientAfter(config, run), now, slot);
    DisruptionsRenewNothing(config, run, d, slot, key);
    UsableIsFresh(BatteryOf(ClientAfter(config, run), slot), now, key);
  }

  lemma UsableIsFresh(b: Battery, now: real, key: Key)
    requires b.Usable(now) && key in b.times
    ensures 0.0 <= now - b.times[key] < STALE_TIMEOUT
  {
    assert b.Fresh(key, now);
  }

  lemma NobodyIsUnavailable(config: Config, c: Client, now: real)
    requires c.batteries == []
    ensures !Available(config, c, now)
  {
  }

  /** Once the readings are dropped, only an accepted complete frame makes the chain available again. */
  lemma DroppedStaysUnavailable(config: Config, run: seq<Step>, d: nat, now: real)
    requires d <= |run| && NoCompletion(config, run, d) && !ClientAfter(config, run[..d]).hasFull
    ensures !ClientAfter(config, run).hasFull && !Available(config, ClientAfter(config, run), now)
  {
    hide ClientAfter, NoCompletion, Available, Battery.Usable;
    AlwaysSound(config, run);
    StaysDropped(config, run, d);
    if config.Count() == 0 {
      NobodyIsUnavailable(config, ClientAfter(config, run), now);
    } else if Available(config, ClientAfter(config, run), now) {
      AvailableIsUsable(config, ClientAfter(config, run), now, 1);
    }
  }

  lemma CompleteIsShown(b: Battery, row: Row, cells: nat, now: real)
    requires UsableAs(b, row, cells, now)
    ensures Shown(b, now)
  {
    hide Battery.Usable;
    CompleteReadings(row, cells, now - RowAge(row, true).value, Current);
    RequiredIsSampled(b, now);
  }

  lemma RequiredIsSampled(b: Battery, now: real)
    requires b.Usable(now)
    ensures Current in b.times
  {
    assert Current in b.RequiredKeys();
    assert b.Fresh(Current, now);
  }

  /** An accepted complete frame makes the chain available at once, whatever came before. */
  lemma CompletionMakesAvailable(config: Config, c: Client, step: Step)
    requires Completes(config, c, step) && config.Count() > 0
    ensures Available(config, ClientStep(config, c, step), step.at)
  {
    hide ClientStep, DecodedFrame, HeaderOf, CarriesFrame, UsableAs, Shown, DescribesSlot;
    var c' := ClientStep(config, c, step);
    ReadingsMove(config, c, step);
    var frame := FrameIn(config, step);
    var first := CompletedSlot(config, frame, step.at, 1);
    forall i | 0 <= i < config.Count() ensures Shown(c'.batteries[i], step.at) {
      var row := CompletedSlot(config, frame, step.at, i + 1);
      CompleteIsShown(c'.batteries[i], row, config.Cells()[i], step.at);
    }
    CompleteMeansAllUsable(config, c', step.at);
  }

  /**
   * So after readings were dropped, the chain is available at the next poll of the same moment exactly when a
   * complete frame was accepted.
   */
  lemma RecoversExactly(config: Config, run: seq<Step>, step: Step)
    requires config.Count() > 0 && !ClientAfter(config, run).hasFull && step.Receive?
    ensures Available(config, ClientAfter(config, run + [step]), step.at)
        <==> Completes(config, ClientAfter(config, run), step)
  {
    hide ClientStep, Completes, Available, NoCompletion;
    assert (run + [step])[..|run|] == run;
    if Completes(config, ClientAfter(config, run), step) {
      CompletionMakesAvailable(config, ClientAfter(config, run), step);
    } else {
      NothingCompletes(config, run, step);
      DroppedStaysUnavailable(config, run + [step], |run|, step.at);
    }
  }

  lemma NothingCompletes(config: Config, run: seq<Step>, step: Step)
    requires !Completes(config, ClientAfter(config, run), step)
    ensures NoCompletion(config, run + [step], |run|)
  {
    hide Completes;
    assert (run + [step])[..|run|] == run;
  }

  // ---- Permissions ----------------------------------------------------------------------------------

  datatype Permission = ToCharge | ToDischarge

  function Held(b: Battery, p: Permission): bool {
    (if p.ToCharge? then b.charging else b.discharging) == Some(true)
  }

  function Granted(row: Row, p: Permission): bool
    requires row.Row?
  {
    (if p.ToCharge? then row.charging else row.discharging) == Bool(true)
  }

  /** The complete frame accepted at step k grants the permission, and it has been held ever since. */
  ghost predicate GrantedAt(config: Config, run: seq<Step>, k: int, row: Row, slot: int, p: Permission) {
    && 0 <= k < |run| && Completes(config, ClientAfter(config, run[..k]), run[k])
    && DescribesSlot(config, FrameIn(config, run[k]), row, slot) && Granted(row, p)
    && forall m | k < m <= |run| :: Held(BatteryOf(ClientAfter(config, run[..m]), slot), p)
  }

  /** Only the row of an accepted complete frame turns a permission on. */
  lemma PermissionsMove(config: Config, c: Client, step: Step, slot: int, p: Permission) returns (row: Row)
    requires Sound(config, c) && Held(BatteryOf(ClientStep(config, c, step), slot), p)
    ensures if Completes(config, c, step) then DescribesSlot(config, FrameIn(config, step), row, slot)
        && Granted(row, p)
            else Held(BatteryOf(c, slot), p)
  {
    hide ClientStep, HeaderOf, DecodedFrame, MergedPartial, CarriesFrame, Merged, Battery.Usable, DescribesSlot;
    hide Config.Cells, PartialRow;
    ReadingsMove(config, c, step);
    SoundStep(config, c, step);
    row := NotAnObject;
    if Completes(config, c, step) {
      row := CompletedSlot(config, FrameIn(config, step), step.at, slot);
    } else if Merges(config, c, step) {
      var session := Admitted(c, HeaderIn(config, step));
      var merged := MergedSlot(config, session, FrameIn(config, step), step.at, slot);
      MergingNeverPermits(c.batteries[slot - 1], merged, step.at, session.bootReady);
    } else if ClientStep(config, c, step).batteries != c.batteries {
      EmptyHoldsNothing(config, ClientStep(config, c, step), slot, p);
    }
  }

  lemma EmptyHoldsNothing(config: Config, c: Client, slot: int, p: Permission)
    requires c.batteries == config.Empty()
    ensures !Held(BatteryOf(c, slot), p)
  {
  }

  /** A permission that is held was granted by an accepted complete frame and never lost since. */
  lemma {:induction false} PermissionsAreGranted(config: Config, run: seq<Step>, slot: int, p: Permission)
      returns (k: int, row: Row)
    requires Held(BatteryOf(ClientAfter(config, run), slot), p)
    ensures GrantedAt(config, run, k, row, slot, p)
  {
    hide ClientStep, Completes, Held, Granted, DescribesSlot, BatteryOf;
    if run == [] {
      EmptyHoldsNothing(config, ClientAfter(config, run), slot, p);
      k, row := 0, NotAnObject;
    } else {
      var front, step := run[..|run| - 1], run[|run| - 1];
      AlwaysSound(config, front);
      row := PermissionsMove(config, ClientAfter(config, front), step, slot, p);
      assert run[..|run|] == run;
      if Completes(config, ClientAfter(config, front), step) {
        k := |run| - 1;
      } else {
        k, row := PermissionsAreGranted(config, front, slot, p);
        assert front[..k] == run[..k];
        forall m | k < m <= |run| ensures Held(BatteryOf(ClientAfter(config, run[..m]), slot), p) {
          assert m < |run| ==> front[..m] == run[..m];
        }
      }
    }
  }
}
