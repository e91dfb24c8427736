/** The rows of one telemetry frame, and the scan that assigns each row to its configured battery. */
module Frames {
  import opened Prelude
  import opened BmsData

  /** One JSON value of a frame, as far as the decoders look into it. */
  datatype Value = Absent | Null | Bool(b: bool) | Int(n: int) | Float(x: real) | NonFinite | Text(s: string) | Compound

  datatype Items = NoItems | NotItems | Items(elements: seq<Value>)

  datatype Row =
    | NotAnObject
    | Row(id: Value, voltage: Value, current: Value, soc: Value, temperature: Value,
          temperatures: Items, cells: Items,
          seenMask: Value, validMask: Value, requiredMask: Value, cellCount: Value, reportedCellCount: Value,
          ageMs: Value, observedAgeMs: Value,
          charging: Value, discharging: Value, online: Value)

  datatype Rows = NotRows | Rows(rows: seq<Row>)

  datatype Frame = Frame(schema: Value, bootId: Value, sequence: Value, ready: Value, validMask: Value, batteries: Rows)

  /** Unreadable covers bytes that are not UTF-8, not JSON, or not a JSON object. */
  datatype Payload = Unreadable | Readable(frame: Frame)

  /** Booleans are not numbers, and neither are NaN and the infinities. */
  function Number(v: Value): Option<real> {
    match v
    case Int(n) => Some(n as real)
    case Float(x) => Some(x)
    case _ => None
  }

  /** How physical BMS ids are numbered as slots 1..Count(): consecutively, or in the order of a manifest. */
  datatype Numbering = Consecutive(first: int, count: nat) | Listed(ids: seq<int>)
  {
    function Count(): nat {
      if Consecutive? then count else |ids|
    }

    function Slot(id: int): int {
      if Consecutive? then id - first + 1 else Position(ids, id) + 1
    }
  }

  /** Where an id stands in a list; -1 when it does not. */
  function Position(ids: seq<int>, id: int): (at: int)
    ensures -1 <= at < |ids|
    ensures at >= 0 ==> ids[at] == id
    ensures at == -1 <==> id !in ids
  {
    if ids == [] then -1
    else if ids[|ids| - 1] == id then |ids| - 1
    else Position(ids[..|ids| - 1], id)
  }

  // ---- One row for each configured slot ---------------------------------------------------------

  predicate Identified(row: Row) {
    row.Row? && row.id.Int?
  }

  function Slot(row: Row, ids: Numbering): int
    requires Identified(row)
  {
    ids.Slot(row.id.n)
  }

  predicate Names(rows: seq<Row>, ids: Numbering, slot: int, index: int) {
    0 <= index < |rows| && Identified(rows[index]) && Slot(rows[index], ids) == slot
  }

  /** Every row is identified, no configured slot occurs twice, and none is absent. Other rows are ignored. */
  ghost predicate OneRowPerSlot(rows: seq<Row>, ids: Numbering) {
    && (forall i | 0 <= i < |rows| :: Identified(rows[i]))
    && (forall slot, i, j ::
          1 <= slot <= ids.Count() && Names(rows, ids, slot, i) && Names(rows, ids, slot, j) ==> i == j)
    && (forall slot | 1 <= slot <= ids.Count() :: Named(rows, ids, slot))
  }

  ghost predicate Named(rows: seq<Row>, ids: Numbering, slot: int) {
    exists i :: Names(rows, ids, slot, i)
  }

  ghost function RowFor(rows: seq<Row>, ids: Numbering, slot: int): (row: Row)
    requires Named(rows, ids, slot)
    ensures Identified(row) && Slot(row, ids) == slot && row in rows
  {
    var i :| Names(rows, ids, slot, i);
    rows[i]
  }

  lemma RowForIsTheOnlyRow(rows: seq<Row>, ids: Numbering, slot: int, i: int)
    requires OneRowPerSlot(rows, ids) && 1 <= slot <= ids.Count() && Names(rows, ids, slot, i)
    ensures RowFor(rows, ids, slot) == rows[i]
  {
    var j :| Names(rows, ids, slot, j) && RowFor(rows, ids, slot) == rows[j];
  }

  /** The first n rows are identified and source maps each configured slot met so far to its one row. */
  ghost predicate Scanned(rows: seq<Row>, ids: Numbering, n: int, source: map<int, int>) {
    && 0 <= n <= |rows| && (forall slot :: slot in source ==> 1 <= slot <= ids.Count())
    && (forall i | 0 <= i < n :: Identified(rows[i]))
    && (forall slot :: slot in source ==> source[slot] < n && Names(rows, ids, slot, source[slot]))
    && (forall slot, i ::
          1 <= slot <= ids.Count() && i < n && Names(rows, ids, slot, i) ==> slot in source && source[slot] == i)
  }

  lemma ScanSkips(rows: seq<Row>, ids: Numbering, n: int, source: map<int, int>)
    requires Scanned(rows, ids, n, source) && n < |rows|
    requires Identified(rows[n]) && !(1 <= Slot(rows[n], ids) <= ids.Count())
    ensures Scanned(rows, ids, n + 1, source)
  {
  }

  lemma ScanAdds(rows: seq<Row>, ids: Numbering, n: int, source: map<int, int>, slot: int)
    requires Scanned(rows, ids, n, source) && n < |rows|
    requires Identified(rows[n]) && slot == Slot(rows[n], ids) && 1 <= slot <= ids.Count() && slot !in source
    ensures Scanned(rows, ids, n + 1, source[slot := n])
  {
  }

  lemma ScanRepeats(rows: seq<Row>, ids: Numbering, n: int, source: map<int, int>)
    requires Scanned(rows, ids, n, source) && n < |rows|
    requires Identified(rows[n]) && Slot(rows[n], ids) in source
    ensures !OneRowPerSlot(rows, ids)
  {
    var slot := Slot(rows[n], ids);
    assert Names(rows, ids, slot, n) && Names(rows, ids, slot, source[slot]);
  }

  ghost function Slots(count: nat): (slots: set<int>)
    ensures forall slot :: slot in slots <==> 1 <= slot <= count
    ensures |slots| == count
  {
    if count == 0 then {} else Slots(count - 1) + {count}
  }

  /** A scan of all rows found every slot exactly when there was one row for each. */
  lemma ScanDecides(rows: seq<Row>, ids: Numbering, source: map<int, int>)
    requires Scanned(rows, ids, |rows|, source)
    ensures |source.Keys| == ids.Count() <==> OneRowPerSlot(rows, ids)
    ensures |source.Keys| == ids.Count()
        ==> forall slot | 1 <= slot <= ids.Count() :: slot in source && RowFor(rows, ids, slot) == rows[source[slot]]
  {
    if OneRowPerSlot(rows, ids) {
      forall slot | 1 <= slot <= ids.Count() ensures slot in source {
        assert Named(rows, ids, slot);
      }
      assert source.Keys == Slots(ids.Count());
    }
    if |source.Keys| == ids.Count() {
      SubsetOfSameSize(source.Keys, Slots(ids.Count()));
      forall slot | 1 <= slot <= ids.Count() ensures Named(rows, ids, slot) {
        assert Names(rows, ids, slot, source[slot]);
      }
      forall slot | 1 <= slot <= ids.Count() ensures slot in source && RowFor(rows, ids, slot) == rows[source[slot]] {
        RowForIsTheOnlyRow(rows, ids, slot, source[slot]);
      }
    }
  }

  /** What the scan does with a row before looking into it. */
  datatype Verdict = Refuse | Ignore | Take(slot: int)

  method Admit(rows: seq<Row>, ids: Numbering, n: nat, seen: set<int>, ghost source: map<int, int>)
      returns (verdict: Verdict)
    requires n < |rows| && seen == source.Keys && Scanned(rows, ids, n, source)
    ensures verdict.Refuse? ==> !OneRowPerSlot(rows, ids)
    ensures verdict.Ignore? ==> Scanned(rows, ids, n + 1, source)
    ensures verdict.Take? ==>
              && Identified(rows[n]) && verdict.slot == Slot(rows[n], ids) && 1 <= verdict.slot <= ids.Count()
              && verdict.slot !in source && Scanned(rows, ids, n + 1, source[verdict.slot := n])
  {
    if !Identified(rows[n]) {
      return Refuse;
    }
    var slot := Slot(rows[n], ids);
    if slot < 1 || ids.Count() < slot {
      ScanSkips(rows, ids, n, source);
      return Ignore;
    }
    if slot in seen {
      ScanRepeats(rows, ids, n, source);
      return Refuse;
    }
    ScanAdds(rows, ids, n, source, slot);
    return Take(slot);
  }

  /** What decoding one row for one slot yields; a decoder of whole frames is built from one of these. */
  type RowDecoder = (int, Row) -> Decoded<Battery>

  ghost predicate Assembles(rows: seq<Row>, ids: Numbering, decode: RowDecoder) {
    && OneRowPerSlot(rows, ids)
    && forall slot | 1 <= slot <= ids.Count() :: decode(slot, RowFor(rows, ids, slot)).Accepted?
  }

  /** A frame decodes as a whole or not at all. Slot s is element s - 1. */
  ghost function Assembled(rows: seq<Row>, ids: Numbering, decode: RowDecoder): (batteries: Decoded<seq<Battery>>)
    ensures batteries.Accepted? ==> |batteries.value| == ids.Count()
  {
    if Assembles(rows, ids, decode) then
      Accepted(seq(ids.Count(), i requires 0 <= i < ids.Count() => decode(i + 1, RowFor(rows, ids, i + 1)).value))
    else Rejected
  }

  /** In an accepted frame every slot has its row, and that row decodes to the slot's battery. */
  lemma AcceptedSlot(rows: seq<Row>, ids: Numbering, decode: RowDecoder, slot: int)
    requires Assembled(rows, ids, decode).Accepted? && 1 <= slot <= ids.Count()
    ensures Named(rows, ids, slot)
    ensures decode(slot, RowFor(rows, ids, slot)) == Accepted(Assembled(rows, ids, decode).value[slot - 1])
  {
  }

  lemma ScanRepudiates(rows: seq<Row>, ids: Numbering, decode: RowDecoder)
    requires !OneRowPerSlot(rows, ids)
    ensures Assembled(rows, ids, decode).Rejected?
  {
  }

  /** The table while a scan is under way: decoded for the slots met, as it was for the others. */
  ghost predicate Underway(values: seq<Battery>, initial: seq<Battery>, rows: seq<Row>,
      source: map<int, int>, decode: RowDecoder)
  {
    && |values| == |initial|
    && (forall slot :: slot in source ==> 0 <= source[slot] < |rows| && decode(slot, rows[source[slot]]).Accepted?)
    && (forall i | 0 <= i < |values| ::
          values[i] == if i + 1 in source then decode(i + 1, rows[source[i + 1]]).value else initial[i])
  }

  lemma ScanStarts(initial: seq<Battery>, rows: seq<Row>, ids: Numbering, decode: RowDecoder)
    ensures Scanned(rows, ids, 0, map[]) && Underway(initial, initial, rows, map[], decode)
  {
  }

  lemma UnderwayUntouched(values: seq<Battery>, initial: seq<Battery>, rows: seq<Row>,
      source: map<int, int>, decode: RowDecoder, slot: int)
    requires Underway(values, initial, rows, source, decode) && 1 <= slot <= |values| && slot !in source
    ensures |values| == |initial| && values[slot - 1] == initial[slot - 1]
  {
  }

  lemma UnderwayAdds(values: seq<Battery>, initial: seq<Battery>, rows: seq<Row>,
      source: map<int, int>, decode: RowDecoder, slot: int, n: int)
    requires Underway(values, initial, rows, source, decode) && 1 <= slot <= |values| && slot !in source
    requires 0 <= n < |rows| && decode(slot, rows[n]).Accepted?
    ensures Underway(values[slot - 1 := decode(slot, rows[n]).value], initial, rows, source[slot := n], decode)
  {
  }

  lemma ScanRefuses(rows: seq<Row>, ids: Numbering, decode: RowDecoder, n: int)
    requires 0 <= n < |rows| && Identified(rows[n]) && 1 <= Slot(rows[n], ids) <= ids.Count()
    requires decode(Slot(rows[n], ids), rows[n]).Rejected?
    ensures Assembled(rows, ids, decode).Rejected?
  {
    if Assembles(rows, ids, decode) {
      RowForIsTheOnlyRow(rows, ids, Slot(rows[n], ids), n);
    }
  }

  lemma ScanEnds(values: seq<Battery>, initial: seq<Battery>, rows: seq<Row>, ids: Numbering,
      source: map<int, int>, decode: RowDecoder)
    requires Scanned(rows, ids, |rows|, source) && |values| == ids.Count()
    requires Underway(values, initial, rows, source, decode)
    ensures Assembled(rows, ids, decode) == if |source.Keys| == ids.Count() then Accepted(values) else Rejected
  {
    ScanDecides(rows, ids, source);
    if |source.Keys| == ids.Count() {
      var decoded := Assembled(rows, ids, decode).value;
      forall i | 0 <= i < ids.Count() ensures values[i] == decoded[i] {
      }
      assert values == decoded;
    }
  }

  /** Too few rows are left to name every slot. */
  lemma ScanFallsShort(rows: seq<Row>, ids: Numbering, n: int, source: map<int, int>)
    requires Scanned(rows, ids, n, source) && |source.Keys| + |rows| - n < ids.Count()
    ensures !OneRowPerSlot(rows, ids)
    decreases |rows| - n
  {
    if n == |rows| {
      ScanDecides(rows, ids, source);
    } else if Identified(rows[n]) {
      var slot := Slot(rows[n], ids);
      if slot < 1 || ids.Count() < slot {
        ScanSkips(rows, ids, n, source);
        ScanFallsShort(rows, ids, n + 1, source);
      } else if slot in source {
        ScanRepeats(rows, ids, n, source);
      } else {
        ScanAdds(rows, ids, n, source, slot);
        assert source[slot := n].Keys == source.Keys + {slot};
        ScanFallsShort(rows, ids, n + 1, source[slot := n]);
      }
    }
  }

  // ---- The order of the rows ---------------------------------------------------------------------

  /** moved holds the rows in another order: its row i is row p[i], and every row is used once. */
  ghost predicate Reorders(p: seq<int>, rows: seq<Row>, moved: seq<Row>) {
    && |p| == |rows| == |moved|
    && (forall i | 0 <= i < |p| :: 0 <= p[i] < |rows| && moved[i] == rows[p[i]])
    && (forall i, j | 0 <= i < j < |p| :: p[i] != p[j])
  }

  ghost predicate Reached(p: seq<int>, k: int) {
    exists i | 0 <= i < |p| :: p[i] == k
  }

  lemma ReorderingIsOnto(p: seq<int>, rows: seq<Row>, moved: seq<Row>, k: int)
    requires Reorders(p, rows, moved) && 0 <= k < |rows|
    ensures Reached(p, k)
  {
    var slots := seq(|p|, i requires 0 <= i < |p| => p[i] + 1);
    DistinctSlotsAreAll(slots, k + 1);
    var i :| 0 <= i < |slots| && slots[i] == k + 1;
    assert p[i] == k;
  }

  /** As many different slots as there are leave none out. */
  lemma DistinctSlotsAreAll(slots: seq<int>, slot: int)
    requires forall i, j | 0 <= i < j < |slots| :: slots[i] != slots[j]
    requires forall i | 0 <= i < |slots| :: 1 <= slots[i] <= |slots|
    requires 1 <= slot <= |slots|
    ensures slot in slots
  {
    DistinctSize(slots);
    var met := set s | s in slots;
    SubsetOfSameSize(met, Slots(|slots|));
    assert slot in met;
  }

  lemma DistinctSize(p: seq<int>)
    requires forall i, j | 0 <= i < j < |p| :: p[i] != p[j]
    ensures |set x | x in p| == |p|
  {
    if p != [] {
      var last := |p| - 1;
      DistinctSize(p[..last]);
      assert (set x | x in p) == (set x | x in p[..last]) + {p[last]};
    }
  }

  function Shifted(q: seq<int>, k: int): seq<int> {
    seq(|q|, i requires 0 <= i < |q| => if q[i] < k then q[i] else q[i] + 1)
  }

  lemma WithoutOne(rows: seq<Row>, k: nat)
    requires k < |rows|
    ensures multiset(rows[..k] + rows[k + 1..]) == multiset(rows) - multiset{rows[k]}
  {
    assert rows == (rows[..k] + [rows[k]]) + rows[k + 1..];
    assert multiset(rows) == multiset(rows[..k]) + multiset{rows[k]} + multiset(rows[k + 1..]);
  }

  lemma ReordersOneMore(rows: seq<Row>, moved: seq<Row>, q: seq<int>, k: nat)
    requires moved != [] && k < |rows| && rows[k] == moved[|moved| - 1]
    requires Reorders(q, rows[..k] + rows[k + 1..], moved[..|moved| - 1])
    ensures Reorders(Shifted(q, k) + [k], rows, moved)
  {
    var p, front := Shifted(q, k) + [k], rows[..k] + rows[k + 1..];
    forall i | 0 <= i < |q| ensures 0 <= p[i] < |rows| && moved[i] == rows[p[i]] && p[i] != k {
      assert moved[..|moved| - 1][i] == front[q[i]];
    }
  }

  /** The same rows as often are the rows in another order. */
  lemma {:induction false} SameRowsAreReordered(rows: seq<Row>, moved: seq<Row>) returns (p: seq<int>)
    requires multiset(rows) == multiset(moved)
    ensures Reorders(p, rows, moved)
    decreases |moved|
  {
    hide Reorders, Shifted;
    assert |multiset(rows)| == |multiset(moved)|;
    if moved == [] {
      p := [];
      NothingReordered(rows, moved);
    } else {
      var last := |moved| - 1;
      assert moved[last] in multiset(moved);
      var k :| 0 <= k < |rows| && rows[k] == moved[last];
      WithoutOne(rows, k);
      WithoutOne(moved, last);
      assert moved[..last] + moved[last + 1..] == moved[..last];
      var q := SameRowsAreReordered(rows[..k] + rows[k + 1..], moved[..last]);
      ReordersOneMore(rows, moved, q, k);
      p := Shifted(q, k) + [k];
    }
  }

  lemma NothingReordered(rows: seq<Row>, moved: seq<Row>)
    requires rows == moved == []
    ensures Reorders([], rows, moved)
  {
  }

  /** Whatever the row decoder, a frame decodes the same, or is rejected alike, for every order of its rows. */
  lemma RowOrderIsIrrelevant(rows: seq<Row>, moved: seq<Row>, ids: Numbering, decode: RowDecoder)
    requires multiset(rows) == multiset(moved)
    ensures Assembled(moved, ids, decode) == Assembled(rows, ids, decode)
  {
    var p := SameRowsAreReordered(rows, moved);
    forall slot, i | 0 <= i < |p| ensures Names(moved, ids, slot, i) <==> Names(rows, ids, slot, p[i]) {
    }
    forall k | 0 <= k < |rows| ensures Reached(p, k) {
      ReorderingIsOnto(p, rows, moved, k);
    }
    assert OneRowPerSlot(moved, ids) <==> OneRowPerSlot(rows, ids) by {
      ReorderingKeepsSlots(rows, moved, p, ids);
    }
    if OneRowPerSlot(rows, ids) {
      forall slot | 1 <= slot <= ids.Count() ensures RowFor(moved, ids, slot) == RowFor(rows, ids, slot) {
        assert Named(moved, ids, slot);
        var i :| Names(moved, ids, slot, i) && RowFor(moved, ids, slot) == moved[i];
        RowForIsTheOnlyRow(rows, ids, slot, p[i]);
      }
      assert Assembles(moved, ids, decode) <==> Assembles(rows, ids, decode);
      if Assembles(rows, ids, decode) {
        assert Assembled(moved, ids, decode).value == Assembled(rows, ids, decode).value;
      }
    }
  }

  lemma ReorderingKeepsSlots(rows: seq<Row>, moved: seq<Row>, p: seq<int>, ids: Numbering)
    requires Reorders(p, rows, moved)
    requires forall k | 0 <= k < |rows| :: Reached(p, k)
    requires forall slot, i | 0 <= i < |p| :: Names(moved, ids, slot, i) <==> Names(rows, ids, slot, p[i])
    ensures OneRowPerSlot(moved, ids) <==> OneRowPerSlot(rows, ids)
  {
    if OneRowPerSlot(rows, ids) {
      forall slot | 1 <= slot <= ids.Count() ensures Named(moved, ids, slot) {
        assert Named(rows, ids, slot);
        var k :| Names(rows, ids, slot, k);
        assert Reached(p, k);
        var i :| 0 <= i < |p| && p[i] == k;
        assert Names(moved, ids, slot, i);
      }
    }
    if OneRowPerSlot(moved, ids) {
      forall slot | 1 <= slot <= ids.Count() ensures Named(rows, ids, slot) {
        assert Named(moved, ids, slot);
        var i :| Names(moved, ids, slot, i);
        assert Names(rows, ids, slot, p[i]);
      }
      forall k | 0 <= k < |rows| ensures Identified(rows[k]) {
        assert Reached(p, k);
        var i :| 0 <= i < |p| && p[i] == k;
        assert Identified(moved[i]);
      }
      forall slot, k, l | 1 <= slot <= ids.Count() && Names(rows, ids, slot, k) && Names(rows, ids, slot, l)
        ensures k == l
      {
        assert Reached(p, k);
        var i :| 0 <= i < |p| && p[i] == k;
        assert Reached(p, l);
        var j :| 0 <= j < |p| && p[j] == l;
        assert Names(moved, ids, slot, i) && Names(moved, ids, slot, j);
      }
    }
  }

  // ---- Tables of mutable batteries ---------------------------------------------------------------

  predicate Distinct(batteries: seq<BatteryData>) {
    forall i, j | 0 <= i < j < |batteries| :: batteries[i] != batteries[j]
  }

  /** The value of a table of mutable batteries. */
  function Values(batteries: seq<BatteryData>): (values: seq<Battery>)
    reads batteries
    ensures |values| == |batteries|
    ensures forall i | 0 <= i < |batteries| :: values[i] == batteries[i].State()
  {
    seq(|batteries|, i requires 0 <= i < |batteries| reads batteries => batteries[i].State())
  }

  method EmptyBatteries(cells: seq<nat>) returns (batteries: seq<BatteryData>)
    ensures |batteries| == |cells| && Distinct(batteries)
    ensures forall i | 0 <= i < |cells| :: fresh(batteries[i]) && batteries[i].State() == Unknown(cells[i])
  {
    batteries := [];
    for n := 0 to |cells|
      invariant |batteries| == n && Distinct(batteries)
      invariant forall i | 0 <= i < n :: fresh(batteries[i]) && batteries[i].State() == Unknown(cells[i])
    {
      var battery := new BatteryData(cells[n]);
      batteries := batteries + [battery];
    }
  }
}
