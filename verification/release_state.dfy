/** scripts/release_state.py: version plans reserved through a ledger that concurrent runs share by compare-and-swap. */
module ReleaseState {
  import opened Prelude

  const MAX_BUILD := 2_100_000_000

  /** A base version X.Y.Z; anything the pattern does not match is Malformed. */
  datatype Base = Base(major: nat, minor: nat, patch: nat) | Malformed

  datatype Channel = Nightly | Beta | Rc | Stable | Unsupported

  datatype Sequence = NoSequence | Number(n: int) | Stamp(time: nat, run: int, attempt: int)

  datatype Promotion = PromoteBytes | FinalBuild

  /** A tag spells out base, channel and sequence, so it is modelled by them. */
  datatype Tag = Tag(base: Base, channel: Channel, sequence: Sequence)

  datatype Plan = Plan(base: Base, channel: Channel, sequence: Sequence, sourceSha: string, build: Option<int>,
                       policyDigest: string, promotion: Promotion)
  {
    function TagOf(): Tag {
      Tag(base, channel, sequence)
    }

    predicate Identified() {
      && base.Base?
      && match channel
         case Stable => sequence.NoSequence?
         case Nightly => sequence.Stamp? && sequence.run > 0 && sequence.attempt > 0
         case Unsupported => false
         case _ => sequence.Number? && sequence.n > 0
    }

    predicate Valid() {
      Identified() && IsSha(sourceSha, 40) && IsSha(policyDigest, 64) && (build.Some? ==> 0 < build.value <= MAX_BUILD)
    }
  }

  predicate IsSha(s: string, length: nat) {
    |s| == length && forall c | c in s :: '0' <= c <= '9' || 'a' <= c <= 'f'
  }

  datatype Reservation = Reservation(plan: Plan, parent: Option<string>)

  datatype Ledger = Ledger(counter: int, floor: int, plans: map<nat, Reservation>)
  {
    /** What the reader requires before it hands a ledger out. */
    predicate Readable() {
      && 0 <= floor <= counter
      && forall run | run in plans ::
          run > 0 && plans[run].plan.Valid() && plans[run].plan.build.Some? && plans[run].plan.build.value <= counter
    }
  }

  const EMPTY := Ledger(0, 0, map[])

  // ---- Reserving ----------------------------------------------------------------------------------

  /** The versioning part of a policy; its digest stands for the rest. */
  datatype Policy = Policy(digest: string, promotion: Promotion, floor: nat, projectable: bool)

  /** One call of reserve_plan, with everything it reads from outside the ledger. */
  datatype Request = Request(
    policy: Option<Policy>, base: Base, channel: Channel, sourceSha: string, run: nat, attempt: int, time: nat,
    parent: Option<string>, names: seq<Tag>, existing: set<Tag>)

  datatype Outcome = Refused | Confirmed(plan: Plan) | Write(next: Ledger, plan: Plan)

  /** next_sequence: one more than the highest number among all tags and releases of this base and channel. */
  function NextNumber(names: seq<Tag>, base: Base, channel: Channel): (n: int)
    ensures n >= 1
    ensures forall tag | tag in names && tag.base == base && tag.channel == channel && tag.sequence.Number? ::
        tag.sequence.n < n
  {
    if names == [] then 1
    else
      var tag := names[|names| - 1];
      var n := NextNumber(names[..|names| - 1], base, channel);
      assert forall t | t in names :: t in names[..|names| - 1] || t == tag;
      if tag.base == base && tag.channel == channel && tag.sequence.Number?
          && tag.sequence.n >= n then tag.sequence.n + 1 else n
  }

  predicate Takes(record: Reservation, base: Base, channel: Channel) {
    record.plan.base == base && record.plan.channel == channel && record.plan.sequence.Number?
  }

  ghost predicate IsHighest(plans: map<nat, Reservation>, base: Base, channel: Channel, highest: int) {
    && highest >= 0
    && (forall run | run in plans && Takes(plans[run], base, channel) :: plans[run].plan.sequence.n <= highest)
    && (highest > 0 ==> exists run ::
        run in plans && Takes(plans[run], base, channel) && plans[run].plan.sequence.n == highest)
  }

  /** The highest number the ledger itself has reserved, zero when there is none. */
  ghost function HighestReserved(plans: map<nat, Reservation>, base: Base, channel: Channel): (highest: int)
    ensures IsHighest(plans, base, channel, highest)
    decreases |plans|
  {
    if plans == map[] then 0
    else
      var run :| run in plans;
      var rest := map r | r in plans && r != run :: plans[r];
      assert rest.Keys == plans.Keys - {run};
      assert forall r | r in plans :: r == run || (r in rest && rest[r] == plans[r]);
      assert |rest| == |rest.Keys| < |plans.Keys| == |plans|;
      var highest := HighestReserved(rest, base, channel);
      if Takes(plans[run], base, channel) && plans[run].plan.sequence.n > highest then plans[run].plan.sequence.n else
      assert highest > 0 ==> exists r ::
          r in rest && Takes(rest[r], base, channel) && rest[r].plan.sequence.n == highest;
      highest
  }

  /** create_plan and the checks around it: the plan a request would get from this ledger. */
  ghost function Proposed(ledger: Ledger, r: Request): Plan
    requires r.policy.Some?
  {
    var sequence := match r.channel
      case Beta | Rc =>
        var free, reserved := NextNumber(r.names, r.base, r.channel),
            HighestReserved(ledger.plans, r.base, r.channel) + 1;
        Number(if free >= reserved then free else reserved)
      case Nightly => Stamp(r.time, r.run, r.attempt)
      case _ => NoSequence;
    var policy := r.policy.value;
    Plan(r.base, r.channel, sequence, r.sourceSha,
        Some((if ledger.counter >= policy.floor then ledger.counter else policy.floor) + 1),
         policy.digest, policy.promotion)
  }

  /** A retry gets its plan back when every input is the one it was reserved with. */
  predicate Retries(record: Reservation, r: Request) {
    && r.policy.Some? && record.plan.Valid()
    && record.plan.policyDigest == r.policy.value.digest && record.plan.promotion == r.policy.value.promotion
    && (record.plan.build.Some? ==> record.plan.build.value > r.policy.value.floor) && r.policy.value.projectable
    && record.plan.sourceSha == r.sourceSha && record.plan.base == r.base && record.plan.channel == r.channel
    && record.parent == r.parent
  }

  ghost function Reserved(ledger: Ledger, r: Request): Outcome {
    if r.run == 0 then Refused
    else if r.run in ledger.plans then
      if Retries(ledger.plans[r.run], r) then Confirmed(ledger.plans[r.run].plan) else Refused
    else if r.policy.None? then Refused
    else
      var plan := Proposed(ledger, r);
      if plan.Valid() && r.policy.value.projectable && plan.TagOf() !in r.existing
      then Write(Ledger(plan.build.value, ledger.floor, ledger.plans[r.run := Reservation(plan, r.parent)]), plan)
      else Refused
  }

  // ---- Publishing ---------------------------------------------------------------------------------

  /** One call of begin_publication, with the tags of the releases that are published. */
  datatype Publication = Publication(plan: Plan, run: nat, parent: Option<string>, promotion: bool, published: set<Tag>)

  /** _verify_reservation: the run's own plan, above the floor, with nothing newer published. */
  predicate MayPublish(ledger: Ledger, p: Publication) {
    && p.plan.Valid()
    && p.run in ledger.plans && ledger.plans[p.run] == Reservation(p.plan, p.parent)
    && p.plan.build.Some? && p.plan.build.value > ledger.floor
    && forall run | run in ledger.plans && ledger.plans[run].plan.TagOf() in p.published ::
         ledger.plans[run].plan.build.Some? && ledger.plans[run].plan.build.value < p.plan.build.value
  }

  ghost predicate ReservedOnce(plans: map<nat, Reservation>, plan: Plan) {
    && (exists run :: run in plans && plans[run].plan == plan)
    && (forall run, run' ::
          run in plans && run' in plans && plans[run].plan == plan && plans[run'].plan == plan ==> run == run')
  }

  /** _verify_promotion_order: a published candidate that no newer published build has overtaken. */
  ghost predicate MayPromote(ledger: Ledger, p: Publication) {
    && p.plan.Valid() && p.plan.channel == Rc && p.plan.promotion == PromoteBytes
    && ReservedOnce(ledger.plans, p.plan)
    && p.plan.build.Some? && p.plan.build.value >= ledger.floor && p.plan.TagOf() in p.published
    && forall run | run in ledger.plans && ledger.plans[run].plan.TagOf() != p.plan.TagOf()
        && ledger.plans[run].plan.TagOf() in p.published ::
         ledger.plans[run].plan.build.Some? && ledger.plans[run].plan.build.value <= p.plan.build.value
  }

  ghost function Begun(ledger: Ledger, p: Publication): Outcome {
    if p.run > 0 && (if p.promotion then MayPromote(ledger, p) else MayPublish(ledger, p))
    then Write(ledger.(floor := p.plan.build.value), p.plan)
    else Refused
  }

  // ---- One run's copy of the ledger -----------------------------------------------------------------

  /** The dictionary a run has read, which it changes in memory before it tries to write it back. */
  class LedgerCopy {
    var counter: int
    var publicationFloor: int
    var plans: map<nat, Reservation>

    function State(): Ledger
      reads this
    {
      Ledger(counter, publicationFloor, plans)
    }

    constructor (ledger: Ledger)
      ensures State() == ledger
    {
      counter, publicationFloor, plans := ledger.counter, ledger.floor, ledger.plans;
    }

    method HighestNumber(base: Base, channel: Channel) returns (highest: int)
      ensures IsHighest(plans, base, channel, highest)
    {
      highest := 0;
      var pending := plans.Keys;
      while pending != {}
        invariant pending <= plans.Keys && highest >= 0
        invariant forall run | run in plans && run !in pending && Takes(plans[run], base, channel) ::
            plans[run].plan.sequence.n <= highest
        invariant highest > 0 ==> exists run ::
            run in plans && Takes(plans[run], base, channel) && plans[run].plan.sequence.n == highest
        decreases pending
      {
        var run :| run in pending;
        if Takes(plans[run], base, channel) && plans[run].plan.sequence.n > highest {
          highest := plans[run].plan.sequence.n;
        }
        pending := pending - {run};
      }
    }

    method NextSequence(r: Request) returns (sequence: Sequence)
      requires r.policy.Some?
      ensures sequence == Proposed(State(), r).sequence
    {
      match r.channel {
        case Beta | Rc =>
          var highest := HighestNumber(r.base, r.channel);
          HighestIsUnique(plans, r.base, r.channel, highest);
          var free := NextNumber(r.names, r.base, r.channel);
          sequence := Number(if free >= highest + 1 then free else highest + 1);
        case Nightly =>
          sequence := Stamp(r.time, r.run, r.attempt);
        case _ =>
          sequence := NoSequence;
      }
    }

    /** reserve_plan between its read and its write; what is to be written is then in this copy. */
    method Reserve(r: Request) returns (outcome: Outcome)
      modifies this
      ensures outcome == Reserved(old(State()), r)
      ensures State() == if outcome.Write? then outcome.next else old(State())
    {
      if r.run == 0 {
        return Refused;
      }
      if r.run in plans {
        return if Retries(plans[r.run], r) then Confirmed(plans[r.run].plan) else Refused;
      }
      if r.policy.None? {
        return Refused;
      }
      var sequence := NextSequence(r);
      var policy := r.policy.value;
      var number := (if counter >= policy.floor then counter else policy.floor) + 1;
      var plan := Plan(r.base, r.channel, sequence, r.sourceSha, Some(number), policy.digest, policy.promotion);
      assert plan == Proposed(State(), r);
      if !plan.Valid() || !policy.projectable || plan.TagOf() in r.existing {
        return Refused;
      }
      counter := number;
      plans := plans[r.run := Reservation(plan, r.parent)];
      outcome := Write(State(), plan);
    }

    /** begin_publication between its read and its write. */
    method Begin(p: Publication) returns (outcome: Outcome)
      modifies this`publicationFloor
      ensures outcome == Begun(old(State()), p)
      ensures State() == if outcome.Write? then outcome.next else old(State())
    {
      if p.run == 0 {
        return Refused;
      }
      var allowed: bool;
      if p.promotion {
        allowed := CheckPromotion(p);
      } else {
        allowed := MayPublish(State(), p);
      }
      if !allowed {
        return Refused;
      }
      publicationFloor := p.plan.build.value;
      outcome := Write(State(), p.plan);
    }

    method CheckPromotion(p: Publication) returns (allowed: bool)
      ensures allowed <==> MayPromote(State(), p)
    {
      if !p.plan.Valid() || p.plan.channel != Rc || p.plan.promotion != PromoteBytes {
        return false;
      }
      var matching := set run | run in plans && plans[run].plan == p.plan;
      OneMatch(plans, p.plan, matching);
      allowed :=
        && |matching| == 1
        && p.plan.build.Some? && p.plan.build.value >= publicationFloor && p.plan.TagOf() in p.published
        && forall run | run in plans && plans[run].plan.TagOf() != p.plan.TagOf()
            && plans[run].plan.TagOf() in p.published ::
             plans[run].plan.build.Some? && plans[run].plan.build.value <= p.plan.build.value;
    }
  }

  lemma HighestIsUnique(plans: map<nat, Reservation>, base: Base, channel: Channel, highest: int)
    requires IsHighest(plans, base, channel, highest)
    ensures highest == HighestReserved(plans, base, channel)
  {
  }

  lemma OneMatch(plans: map<nat, Reservation>, plan: Plan, matching: set<nat>)
    requires matching == set run | run in plans && plans[run].plan == plan
    ensures |matching| == 1 <==> ReservedOnce(plans, plan)
  {
    if ReservedOnce(plans, plan) {
      var run :| run in plans && plans[run].plan == plan;
      assert matching == {run};
    }
    if |matching| == 1 {
      var run :| run in matching;
      SubsetOfSameSize({run}, matching);
      assert matching == {run};
      forall other | other in plans && plans[other].plan == plan ensures other == run {
        assert other in matching;
      }
    }
  }
}
