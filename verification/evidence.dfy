/** What one decoded row leaves in a battery, key by key. */
module Evidence {
  import opened Prelude
  import opened BmsData
  import opened Frames
  import opened Telemetry

  /** A measurement is held exactly when its sample time is. */
  ghost predicate WellDated(b: Battery) {
    forall key: Key :: key.Measured() ==> (key in b.times <==> b.Reading(key).Some?)
  }

  lemma CompleteReadings(row: Row, cells: nat, at: real, key: Key)
    requires row.Row? && CompleteShape(row) && key.Measured()
    ensures
      var b := CompleteBattery(row, cells, at);
      && b.cellCount == cells
      && b.Reading(key) == Carried(row, true, key)
      && (key in b.times <==> b.Reading(key).Some?)
      && (key in b.times ==> b.times[key] == at)
  {
    match key {
      case Cell(i) =>
        var elements := row.cells.elements;
        assert i <= |elements| ==> elements[i - 1] in elements;
      case Temperature(i) =>
        if row.temperatures.Items? {
          var elements := row.temperatures.elements;
          assert i <= |elements| ==> elements[i - 1] in elements;
        }
      case _ =>
    }
  }

  lemma CompleteIsDated(row: Row, cells: nat, at: real)
    requires row.Row? && CompleteShape(row)
    ensures WellDated(CompleteBattery(row, cells, at))
  {
    hide CompleteBattery, Carried;
    forall key: Key | key.Measured()
      ensures key in CompleteBattery(row, cells, at).times <==> CompleteBattery(row, cells, at).Reading(key).Some?
    {
      CompleteReadings(row, cells, at, key);
    }
  }

  /** Whether one of the first count mask bits stands for this key. */
  predicate ObservedBelow(mask: int, count: nat, key: Key)
    requires count <= 8
  {
    exists index: nat | index < count :: Bit(mask, index) && ObservedKey(index) == key
  }

  lemma ReadingAfterPut(b: Battery, put: Key, v: real, at: real, key: Key)
    requires put.Measured()
    ensures
      var after := b.Put(put, v).Stamp({put}, at);
      && after.Reading(key) == (if key == put then Some(v) else b.Reading(key))
      && after.times == b.times[put := at]
      && after.cellCount == b.cellCount
      && after.charging == b.charging && after.discharging == b.discharging && after.online == b.online
  {
  }

  lemma ObservedIsCarried(row: Row, index: nat)
    requires row.Row? && index < 8 && Observed(row, index).Some?
    ensures Observed(row, index) == Carried(row, false, ObservedKey(index))
  {
  }

  /** Merging replaces and re-dates exactly the evidenced measurements. */
  lemma {:induction false} NumbersReadings(b: Battery, row: Row, stamp: real, count: nat, key: Key)
    requires count <= 8 && row.Row? && row.seenMask.Int? && PartialNumbers(row, row.seenMask.n)
    ensures
      var after, seen := Numbers(b, row, stamp, count), ObservedBelow(row.seenMask.n, count, key);
      && after.Reading(key) == (if seen then Carried(row, false, key) else b.Reading(key))
      && (seen ==> after.Reading(key).Some? && key in after.times && after.times[key] == stamp)
      && (!seen ==> (key in after.times <==> key in b.times) && (key in b.times ==> after.times[key] == b.times[key]))
      && after.cellCount == b.cellCount
      && after.charging == b.charging && after.discharging == b.discharging && after.online == b.online
  {
    hide Carried, Observed, Bit;
    if count > 0 {
      NumbersReadings(b, row, stamp, count - 1, key);
      if Bit(row.seenMask.n, count - 1) {
        ReadingAfterPut(Numbers(b, row, stamp, count - 1), ObservedKey(count - 1), Observed(row, count - 1).value,
            stamp, key);
        ObservedIsCarried(row, count - 1);
      }
    }
  }

  /** The effect of an accepted partial row on one measurement. */
  lemma MergedReadings(b: Battery, row: Row, now: real, refresh: bool, key: Key)
    requires PartialRow(row, b.cellCount) && key.Measured()
    ensures
      var after, stamp := Merged(b, row, now, refresh), PartialStamp(b.times, now - RowAge(row, false).value, refresh);
      && after.Reading(key) == (if Evidences(row, false, key) then Carried(row, false, key) else b.Reading(key))
      && (Evidences(row, false, key) ==> after.Reading(key).Some? && key in after.times && after.times[key] == stamp)
      && (!Evidences(row, false, key)
          ==> (key in after.times <==> key in b.times) && (key in b.times ==> after.times[key] == b.times[key]))
  {
    hide Numbers, Carried, Observed, PartialStamp, Bit, PartialNumbers, PartialStatus;
    var mask := row.seenMask.n;
    if mask == 0 {
      NoBits();
    } else {
      var at := now - RowAge(row, false).value;
      var stamp := PartialStamp(b.times, at, refresh);
      NumbersReadings(b, row, stamp, 8, key);
      StatusLeavesReadings(Numbers(b, row, stamp, 8), row, at, refresh, key);
    }
  }

  lemma NoBits()
    ensures forall index: nat | index <= 8 :: !Bit(0, index)
  {
  }

  lemma StatusLeavesReadings(b: Battery, row: Row, at: real, refresh: bool, key: Key)
    requires row.Row? && row.seenMask.Int?
    ensures
      var after := WithStatus(b, row, at, refresh);
      && after.Reading(key) == b.Reading(key) && after.cellCount == b.cellCount
      && (key.Measured() || !refresh
          ==> (key in after.times <==> key in b.times) && (key in b.times ==> after.times[key] == b.times[key]))
  {
  }

  /** A partial row can revoke a permission but never grant one. */
  lemma MergingNeverPermits(b: Battery, row: Row, now: real, refresh: bool)
    requires PartialRow(row, b.cellCount)
    ensures
      var after := Merged(b, row, now, refresh);
      && after.cellCount == b.cellCount && after.online == b.online
      && (after.charging == Some(true) ==> b.charging == Some(true))
      && (after.discharging == Some(true) ==> b.discharging == Some(true))
      && (row.seenMask.n != 0 && Bit(row.seenMask.n, STATUS_BIT) && row.charging == Bool(false)
          ==> after.charging == Some(false))
      && (row.seenMask.n != 0 && Bit(row.seenMask.n, STATUS_BIT) && row.discharging == Bool(false)
          ==> after.discharging == Some(false))
  {
    hide Numbers, PartialStamp, Bit, PartialNumbers, PartialStatus;
    if row.seenMask.n != 0 {
      NumbersReadings(b, row, PartialStamp(b.times, now - RowAge(row, false).value, refresh), 8, Voltage);
    }
  }

  function StampOf(b: Battery, key: Key): Option<real> {
    if key in b.times then Some(b.times[key]) else None
  }

  lemma {:induction false} NumbersLeaveStatus(b: Battery, row: Row, stamp: real, count: nat, key: Key)
    requires count <= 8 && row.Row? && row.seenMask.Int? && PartialNumbers(row, row.seenMask.n) && !key.Measured()
    ensures StampOf(Numbers(b, row, stamp, count), key) == StampOf(b, key)
    ensures Numbers(b, row, stamp, count).online == b.online
  {
    hide PartialNumbers, Observed, Bit;
    if count > 0 {
      NumbersLeaveStatus(b, row, stamp, count - 1, key);
    }
  }

  /**
   * A partial row renews the age of the status fields exactly when frames refresh and its status bit is set, whatever
   * it says of them: the value of online is never taken over.
   */
  lemma StatusIsRenewedExactly(b: Battery, row: Row, now: real, refresh: bool, key: Key)
    requires PartialRow(row, b.cellCount) && key in STATUS_KEYS
    ensures
      var after, at := Merged(b, row, now, refresh), now - RowAge(row, false).value;
      && after.online == b.online
      && (StampOf(after, key) != StampOf(b, key)
          <==> refresh && Bit(row.seenMask.n, STATUS_BIT) && StampOf(b, key) != Some(at))
      && (refresh && Bit(row.seenMask.n, STATUS_BIT) ==> StampOf(after, key) == Some(at))
  {
    hide Numbers, PartialStamp, PartialNumbers, PartialStatus;
    if row.seenMask.n == 0 {
      NoBits();
    } else {
      NumbersLeaveStatus(b, row, PartialStamp(b.times, now - RowAge(row, false).value, refresh), 8, key);
    }
  }

  lemma MergedIsDated(b: Battery, row: Row, now: real, refresh: bool)
    requires PartialRow(row, b.cellCount) && WellDated(b)
    ensures WellDated(Merged(b, row, now, refresh))
  {
    hide Merged, PartialStamp, Carried;
    var after := Merged(b, row, now, refresh);
    forall key: Key | key.Measured() ensures key in after.times <==> after.Reading(key).Some? {
      MergedReadings(b, row, now, refresh, key);
    }
  }

  /** Without refresh no stored sample time rises, and new ones are no younger than the oldest one held. */
  lemma MergedNeverRenews(b: Battery, row: Row, now: real, key: Key)
    requires PartialRow(row, b.cellCount) && key in b.times
    ensures key in Merged(b, row, now, false).times && Merged(b, row, now, false).times[key] <= b.times[key]
  {
    hide Numbers, Carried, Observed, Bit, PartialNumbers, PartialStatus;
    if row.seenMask.n != 0 {
      var at := now - RowAge(row, false).value;
      var stamp := PartialStamp(b.times, at, false);
      assert stamp <= b.times[key];
      NumbersReadings(b, row, stamp, 8, key);
      StatusLeavesReadings(Numbers(b, row, stamp, 8), row, at, false, key);
    }
  }
}
