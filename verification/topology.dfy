/** dbus_mqtt_battery/topology.py: the configured series chain, its inventory and its capped protection profile. */
module Topology {
  import opened Prelude
  import opened Dvcc
  import opened DvccController

  const MAX_MEMBERS := 4
  const MAX_CELLS_PER_MEMBER := 32

  /** One physical member; its place in the chain numbers its cells. */
  datatype Member = Member(
    bmsId: int, cells: nat, temperatures: nat,
    capacity: Option<real>, maxCharge: Option<real>, maxDischarge: Option<real>)
  {
    predicate Valid() {
      && 1 <= bmsId <= 65535 && 1 <= cells <= MAX_CELLS_PER_MEMBER && 1 <= temperatures <= 8
      && (capacity.Some? ==> capacity.value > 0.0)
      && (maxCharge.Some? ==> maxCharge.value > 0.0)
      && (maxDischarge.Some? ==> maxDischarge.value > 0.0)
    }

    predicate Rated() {
      capacity.Some? && maxCharge.Some? && maxDischarge.Some?
    }
  }

  /** What a manifest says about one chain; a managed chain publishes limits, an offline one does not. */
  datatype Request = Request(schema: int, members: seq<Member>, managed: bool, profile: Option<Profile>,
      voltageLimit: Option<real>)

  datatype Chain = Chain(schema: int, members: seq<Member>, managed: bool, profile: Option<Profile>,
      voltageLimit: Option<real>)
  {
    function Ids(): seq<int> {
      seq(|members|, i requires 0 <= i < |members| => members[i].bmsId)
    }

    function TotalCells(): nat {
      Sum(CellCounts(members))
    }
  }

  function CellCounts(members: seq<Member>): seq<nat> {
    seq(|members|, i requires 0 <= i < |members| => members[i].cells)
  }

  function Sum(counts: seq<nat>): nat {
    if counts == [] then 0 else Sum(counts[..|counts| - 1]) + counts[|counts| - 1]
  }

  // ---- Flattened cell numbers -------------------------------------------------------------------

  /** _offsets: how many entries stand before each member. */
  method Offsets(counts: seq<nat>) returns (result: seq<nat>)
    ensures |result| == |counts|
    ensures forall i | 0 <= i < |counts| :: result[i] == Sum(counts[..i])
  {
    var offset := 0;
    result := [];
    for n := 0 to |counts|
      invariant offset == Sum(counts[..n]) && |result| == n
      invariant forall i | 0 <= i < n :: result[i] == Sum(counts[..i])
    {
      result := result + [offset];
      offset := offset + counts[n];
      assert counts[..n + 1][..n] == counts[..n];
    }
  }

  predicate IsCell(counts: seq<nat>, member: int, cell: int) {
    0 <= member < |counts| && 1 <= cell <= counts[member]
  }

  /** The number under which a member's local cell appears in the flattened chain. */
  function CellId(counts: seq<nat>, member: int, cell: int): int
    requires IsCell(counts, member, cell)
  {
    Sum(counts[..member]) + cell
  }

  lemma {:induction false} SumsGrow(counts: seq<nat>, i: nat, j: nat)
    requires i <= j <= |counts|
    ensures Sum(counts[..i]) <= Sum(counts[..j])
    ensures i < j ==> Sum(counts[..i]) + counts[i] <= Sum(counts[..j])
  {
    if i < j {
      SumsGrow(counts, i, j - 1);
      assert counts[..j][..j - 1] == counts[..j - 1];
    }
  }

  /** Different cells have different numbers, and every number is within the chain. */
  lemma CellIdsAreDistinct(counts: seq<nat>, member: int, cell: int, member': int, cell': int)
    requires IsCell(counts, member, cell) && IsCell(counts, member', cell')
    ensures 1 <= CellId(counts, member, cell) <= Sum(counts)
    ensures CellId(counts, member, cell) == CellId(counts, member', cell') ==> member == member' && cell == cell'
  {
    assert counts[..|counts|] == counts;
    SumsGrow(counts, member, |counts|);
    if member < member' {
      SumsGrow(counts, member, member');
    } else if member' < member {
      SumsGrow(counts, member', member);
    }
  }

  /** Every number of the chain belongs to a cell. */
  lemma {:induction false} EveryNumberIsACell(counts: seq<nat>, id: int) returns (member: int, cell: int)
    requires 1 <= id <= Sum(counts)
    ensures IsCell(counts, member, cell) && CellId(counts, member, cell) == id
  {
    var last := |counts| - 1;
    var front := counts[..last];
    if id <= Sum(front) {
      member, cell := EveryNumberIsACell(front, id);
      assert front[..member] == counts[..member];
    } else {
      member, cell := last, id - Sum(front);
    }
  }

  // ---- The capped protection profile ------------------------------------------------------------

  predicate AllRated(members: seq<Member>) {
    forall i | 0 <= i < |members| :: members[i].Rated()
  }

  function ChargeRatings(members: seq<Member>): seq<real>
    requires AllRated(members)
  {
    seq(|members|, i requires 0 <= i < |members| => members[i].maxCharge.value)
  }

  function DischargeRatings(members: seq<Member>): seq<real>
    requires AllRated(members)
  {
    seq(|members|, i requires 0 <= i < |members| => members[i].maxDischarge.value)
  }

  function WithMaxima(p: Profile, charge: real, discharge: real): Profile {
    p.(maxChargeCurrent := charge,
       maxDischargeCurrent := discharge,
       minChargeCurrent := Least(p.minChargeCurrent,
                                 Least(charge * p.chargeBalanceFactor, charge * p.imbalanceAggressiveFactor)))
  }

  /** The profile a managed chain runs: no member is driven past its own ratings. */
  function Capped(p: Profile, members: seq<Member>): Profile
    requires AllRated(members)
  {
    WithMaxima(p, Lowest(p.maxChargeCurrent, ChargeRatings(members)),
        Lowest(p.maxDischargeCurrent, DischargeRatings(members)))
  }

  lemma LeastShare(k: real, f: real, g: real)
    requires k > 0.0
    ensures k * Least(f, g) == Least(k * f, k * g)
  {
    if f <= g {
      assert k * f <= k * g;
    } else {
      assert k * g <= k * f;
    }
  }

  lemma SharesArePositive(k: real, f: real)
    requires k > 0.0 && f > 0.0
    ensures k * f > 0.0
  {
  }

  lemma LowerMaximaKeepTheTail(p: Profile, charge: real, discharge: real)
    requires 0.0 <= p.minChargeCurrent && charge > 0.0 && 0.0 < p.chargeBalanceFactor
    requires 0.0 < p.imbalanceAggressiveFactor
    ensures WithMaxima(p, charge, discharge).TailFits()
  {
    LeastShare(charge, p.chargeBalanceFactor, p.imbalanceAggressiveFactor);
    SharesArePositive(charge, p.chargeBalanceFactor);
    SharesArePositive(charge, p.imbalanceAggressiveFactor);
  }

  lemma TailIsPositive(p: Profile)
    requires p.Valid()
    ensures 0.0 <= p.minChargeCurrent
  {
  }

  lemma LowerMaximaStayValid(p: Profile, charge: real, discharge: real)
    requires p.Valid() && charge > 0.0 && discharge > 0.0
    ensures WithMaxima(p, charge, discharge).Valid()
  {
    hide Profile.TailFits;
    TailIsPositive(p);
    LowerMaximaKeepTheTail(p, charge, discharge);
  }

  predicate MembersValid(members: seq<Member>) {
    forall i | 0 <= i < |members| :: members[i].Valid()
  }

  lemma RatingsArePositive(members: seq<Member>)
    requires MembersValid(members) && AllRated(members)
    ensures forall r | r in ChargeRatings(members) :: r > 0.0
    ensures forall r | r in DischargeRatings(members) :: r > 0.0
  {
  }

  /** Capping any valid profile by any ratings gives a valid profile again, so building it cannot fail. */
  lemma CappedIsValid(p: Profile, members: seq<Member>)
    requires p.Valid() && MembersValid(members) && AllRated(members)
    ensures Capped(p, members).Valid()
  {
    hide ChargeRatings, DischargeRatings, WithMaxima;
    RatingsArePositive(members);
    LowerMaximaStayValid(p, Lowest(p.maxChargeCurrent, ChargeRatings(members)),
        Lowest(p.maxDischargeCurrent, DischargeRatings(members)));
  }

  /** The capped maxima are the lowest of the profile's own and all the ratings. */
  lemma CappedByEveryRating(p: Profile, members: seq<Member>, i: nat)
    requires AllRated(members) && i < |members|
    ensures Capped(p, members).maxChargeCurrent <= p.maxChargeCurrent
    ensures Capped(p, members).maxDischargeCurrent <= p.maxDischargeCurrent
    ensures Capped(p, members).maxChargeCurrent <= members[i].maxCharge.value
    ensures Capped(p, members).maxDischargeCurrent <= members[i].maxDischarge.value
  {
    var charge, discharge := ChargeRatings(members), DischargeRatings(members);
    assert Lowest(p.maxChargeCurrent, charge) <= charge[i];
    assert Lowest(p.maxDischargeCurrent, discharge) <= discharge[i];
  }

  ghost function Charges(members: seq<Member>): set<real>
    requires AllRated(members)
  {
    set i | 0 <= i < |members| :: members[i].maxCharge.value
  }

  ghost function Discharges(members: seq<Member>): set<real>
    requires AllRated(members)
  {
    set i | 0 <= i < |members| :: members[i].maxDischarge.value
  }

  predicate LeastOfThree(m: real, x: real, y: real, z: real) {
    m <= x && m <= y && m <= z && (m == x || m == y || m == z)
  }

  lemma MaximaExactly(p: Profile, charge: real, discharge: real)
    ensures
      var q := WithMaxima(p, charge, discharge);
      && q == p.(maxChargeCurrent := charge, maxDischargeCurrent := discharge, minChargeCurrent := q.minChargeCurrent)
      && LeastOfThree(q.minChargeCurrent, p.minChargeCurrent, q.maxChargeCurrent * p.chargeBalanceFactor,
                      q.maxChargeCurrent * p.imbalanceAggressiveFactor)
  {
  }

  /** Capping takes the least of the profile's own maximum and all ratings, and moves nothing else but the tail. */
  lemma CappedExactly(p: Profile, members: seq<Member>)
    requires AllRated(members)
    ensures
      var q := Capped(p, members);
      && IsLeast(q.maxChargeCurrent, {p.maxChargeCurrent} + Charges(members))
      && IsLeast(q.maxDischargeCurrent, {p.maxDischargeCurrent} + Discharges(members))
      && LeastOfThree(q.minChargeCurrent, p.minChargeCurrent, q.maxChargeCurrent * p.chargeBalanceFactor,
                      q.maxChargeCurrent * p.imbalanceAggressiveFactor)
      && q == p.(maxChargeCurrent := q.maxChargeCurrent, maxDischargeCurrent := q.maxDischargeCurrent,
                 minChargeCurrent := q.minChargeCurrent)
  {
    hide WithMaxima;
    var charge, discharge := ChargeRatings(members), DischargeRatings(members);
    MaximaExactly(p, Lowest(p.maxChargeCurrent, charge), Lowest(p.maxDischargeCurrent, discharge));
    forall x ensures x in charge <==> x in Charges(members) {
      if x in charge {
        var i :| 0 <= i < |charge| && charge[i] == x;
        assert members[i].maxCharge.value == x;
      }
      if x in Charges(members) {
        var i :| 0 <= i < |members| && members[i].maxCharge.value == x;
        assert charge[i] == x;
      }
    }
    forall x ensures x in discharge <==> x in Discharges(members) {
      if x in discharge {
        var i :| 0 <= i < |discharge| && discharge[i] == x;
        assert members[i].maxDischarge.value == x;
      }
      if x in Discharges(members) {
        var i :| 0 <= i < |members| && members[i].maxDischarge.value == x;
        assert discharge[i] == x;
      }
    }
  }

  // ---- Building a chain -------------------------------------------------------------------------

  predicate Manageable(members: seq<Member>) {
    && (forall i, j | 0 <= i < j < |members| :: members[i].cells == members[j].cells)
    && AllRated(members)
  }

  /** _protection: an offline chain has no profile; a managed one has its given profile, capped. */
  function Protection(profile: Option<Profile>, managed: bool, members: seq<Member>): Decoded<Option<Profile>> {
    if !managed then
      if profile.None? then Accepted(None) else Rejected
    else if Manageable(members) && profile.Some? && profile.value.Valid() then
      var capped := Capped(profile.value, members);
      if capped.Valid() then Accepted(Some(capped)) else Rejected
    else Rejected
  }

  predicate MembersFit(members: seq<Member>, schema: int) {
    && 1 <= |members| <= MAX_MEMBERS
    && MembersValid(members)
    && (schema == 1 ==> forall i | 0 <= i < |members| :: members[i].cells == 4)
    && (forall i, j | 0 <= i < j < |members| :: members[i].bmsId != members[j].bmsId)
  }

  /** _chain, as far as it concerns members, protection and the voltage limit. */
  function Configured(r: Request): Decoded<Chain> {
    var profile := Protection(r.profile, r.managed, r.members);
    var chain := Chain(r.schema, r.members, r.managed, if profile.Accepted? then profile.value else None,
        r.voltageLimit);
    if 1 <= r.schema <= 2 && MembersFit(r.members, r.schema) && profile.Accepted?
       && (r.voltageLimit.Some? ==> r.voltageLimit.value > 0.0)
       && (r.managed ==>
             && r.voltageLimit.Some?
             && profile.value.value.cellMaxVoltage * chain.TotalCells() as real <= r.voltageLimit.value)
    then Accepted(chain) else Rejected
  }

  /** The set-up of the controller that publishes this chain's limits. */
  function SetupOf(chain: Chain): Setup
    requires chain.profile.Some?
  {
    Setup(chain.profile.value, true, chain.TotalCells())
  }

  /** A managed request is accepted exactly when its own parts are well formed: capping never refuses it. */
  lemma ManagedChainsAreBuilt(r: Request)
    requires r.managed && 1 <= r.schema <= 2 && MembersFit(r.members, r.schema)
    ensures Configured(r).Accepted? <==>
            && Manageable(r.members) && r.profile.Some? && r.profile.value.Valid()
            && r.voltageLimit.Some? && r.voltageLimit.value > 0.0
            && r.profile.value.cellMaxVoltage * Sum(CellCounts(r.members)) as real <= r.voltageLimit.value
  {
    hide Profile.Valid, Sum, CellCounts;
    if Manageable(r.members) && r.profile.Some? && r.profile.value.Valid() {
      CappedIsValid(r.profile.value, r.members);
      assert Capped(r.profile.value, r.members).cellMaxVoltage == r.profile.value.cellMaxVoltage;
    }
  }

  predicate Ratings(capacity: Option<real>, maxCharge: Option<real>, maxDischarge: Option<real>, needed: bool) {
    && (if capacity.Some? then capacity.value > 0.0 else !needed)
    && (if maxCharge.Some? then maxCharge.value > 0.0 else !needed)
    && (if maxDischarge.Some? then maxDischarge.value > 0.0 else !needed)
  }

  /**
   * Which chains can be configured: one to four members with distinct ids, up to 32 cells and 8 sensors each, four
   * cells under schema 1; a managed one has equal members with all ratings, a profile and a voltage limit that its
   * cells keep.
   */
  lemma ChainsAreBuiltExactly(r: Request)
    ensures Configured(r).Accepted?
       <==> && (r.schema == 1 || r.schema == 2) && 1 <= |r.members| <= 4
            && (forall i | 0 <= i < |r.members| ::
                  var m := r.members[i];
                  && 1 <= m.bmsId <= 65535 && 1 <= m.cells <= 32 && 1 <= m.temperatures <= 8
                  && (r.schema == 1 ==> m.cells == 4) && Ratings(m.capacity, m.maxCharge, m.maxDischarge, r.managed))
            && (forall i, j | 0 <= i < j < |r.members| :: r.members[i].bmsId != r.members[j].bmsId)
            && (r.voltageLimit.Some? ==> r.voltageLimit.value > 0.0)
            && (if r.managed then
                  && (forall i, j | 0 <= i < j < |r.members| :: r.members[i].cells == r.members[j].cells)
                  && r.profile.Some? && r.profile.value.Valid() && r.voltageLimit.Some?
                  && r.profile.value.cellMaxVoltage * Sum(CellCounts(r.members)) as real <= r.voltageLimit.value
                else r.profile.None?)
    ensures Configured(r).Accepted? ==>
              Configured(r).value
              == Chain(r.schema, r.members, r.managed,
                       if r.managed then Some(Capped(r.profile.value, r.members)) else None, r.voltageLimit)
  {
    hide Profile.Valid, Sum, CellCounts, Capped;
    if r.managed && 1 <= r.schema <= 2 && MembersFit(r.members, r.schema) {
      ManagedChainsAreBuilt(r);
    }
  }

  /** The chains a manifest can produce. */
  ghost predicate Built(chain: Chain) {
    exists r :: Configured(r) == Accepted(chain)
  }

  /** What a managed chain may publish at most. */
  ghost predicate WithinRatings(chain: Chain, limits: Limits) {
    && (forall i | 0 <= i < |chain.members| ::
          && chain.members[i].maxCharge.Some? && limits.ccl <= chain.members[i].maxCharge.value
          && chain.members[i].maxDischarge.Some? && limits.dcl <= chain.members[i].maxDischarge.value)
    && chain.voltageLimit.Some? && limits.cvl <= chain.voltageLimit.value
  }

  /** Whatever the controller computed, what it publishes stays within every rating and the voltage limit. */
  lemma LimitsStayWithinRatings(r: Request, control: Control)
    requires r.managed && Configured(r).Accepted?
    requires
      var p := Configured(r).value.profile.value;
      control.lastCcl <= p.maxChargeCurrent && control.lastDcl <= p.maxDischargeCurrent
    ensures WithinRatings(Configured(r).value, LimitsOf(SetupOf(Configured(r).value), control))
  {
    hide Tenths, Hundredths, Profile.Valid, Sum, CellCounts, Capped;
    var chain := Configured(r).value;
    RoundedDown(control.lastCcl);
    RoundedDown(control.lastDcl);
    RoundedDown(VoltageLimit(SetupOf(chain)));
    forall i | 0 <= i < |chain.members|
      ensures LimitsOf(SetupOf(chain), control).ccl <= chain.members[i].maxCharge.value
      ensures LimitsOf(SetupOf(chain), control).dcl <= chain.members[i].maxDischarge.value
    {
      CappedByEveryRating(r.profile.value, r.members, i);
    }
  }
}
