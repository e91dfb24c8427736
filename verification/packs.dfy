/** The copies of usable batteries that one reading of the chain goes by. */
module Packs {
  import opened Prelude
  import opened BmsData

  /** A copy of one usable battery, with its slot. */
  datatype Snapshot = Snapshot(slot: int, battery: Battery)

  /** A battery that enters the aggregate: usable, and with a current. */
  ghost predicate Shown(b: Battery, now: real) {
    b.Usable(now) && b.current.Some?
  }

  ghost function Snapshots(batteries: seq<Battery>, now: real): seq<Snapshot> {
    if batteries == [] then []
    else
      var last := |batteries| - 1;
      Snapshots(batteries[..last], now) + if Shown(batteries[last], now) then [Snapshot(last + 1, batteries[last])]
          else []
  }

  lemma {:induction false} SnapshotsAreUsable(batteries: seq<Battery>, now: real)
    ensures |Snapshots(batteries, now)| <= |batteries|
    ensures forall s :: s in Snapshots(batteries, now) ==>
              1 <= s.slot <= |batteries| && s.battery == batteries[s.slot - 1] && Shown(s.battery, now)
  {
    hide Battery.Usable;
    if batteries != [] {
      SnapshotsAreUsable(batteries[..|batteries| - 1], now);
    }
  }
}
