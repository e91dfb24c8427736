/** Exactly which plans the ledger reserves and lets be published, in terms of the tags and plans that are there. */
module Reservations {
  import opened Prelude
  import opened ReleaseState

  // ---- The number of a candidate ----------------------------------------------------------------------------------

  /** A tag or release that exists, or a plan in the ledger, has this number within its base and channel. */
  ghost predicate Claimed(ledger: Ledger, r: Request, n: int) {
    || Tag(r.base, r.channel, Number(n)) in r.names
    || exists run :: run in ledger.plans && ledger.plans[run].plan.TagOf() == Tag(r.base, r.channel, Number(n))
  }

  /** The least number above all that are claimed. */
  ghost predicate IsNextNumber(ledger: Ledger, r: Request, n: int) {
    && n >= 1 && (forall m | Claimed(ledger, r, m) :: m < n) && (n > 1 ==> Claimed(ledger, r, n - 1))
  }

  lemma NextNumberIsUnique(ledger: Ledger, r: Request, n: int, n': int)
    requires IsNextNumber(ledger, r, n) && IsNextNumber(ledger, r, n')
    ensures n == n'
  {
    hide Claimed;
  }

  lemma {:induction false} FreeNumberIsNext(names: seq<Tag>, base: Base, channel: Channel)
    ensures
      var n := NextNumber(names, base, channel);
      n > 1 ==> Tag(base, channel, Number(n - 1)) in names
  {
    if names != [] {
      FreeNumberIsNext(names[..|names| - 1], base, channel);
    }
  }

  lemma CandidatesTakeTheNextNumber(ledger: Ledger, r: Request)
    requires r.policy.Some? && (r.channel == Beta || r.channel == Rc)
    ensures Proposed(ledger, r).sequence.Number? && IsNextNumber(ledger, r, Proposed(ledger, r).sequence.n)
  {
    hide HighestReserved, NextNumber;
    var free, highest := NextNumber(r.names, r.base, r.channel), HighestReserved(ledger.plans, r.base, r.channel);
    var n := Proposed(ledger, r).sequence.n;
    FreeNumberIsNext(r.names, r.base, r.channel);
    forall m | Claimed(ledger, r, m) ensures m < n {
      if run :| run in ledger.plans && ledger.plans[run].plan.TagOf() == Tag(r.base, r.channel, Number(m)) {
        assert Takes(ledger.plans[run], r.base, r.channel);
      }
    }
    if n > 1 && n != free {
      var run :| run in ledger.plans && Takes(ledger.plans[run], r.base, r.channel)
          && ledger.plans[run].plan.sequence.n == highest;
      assert ledger.plans[run].plan.TagOf() == Tag(r.base, r.channel, Number(n - 1));
    }
  }

  /** A reserved candidate has the least number above every tag, release and plan of its base and channel. */
  lemma CandidateNumbersExactly(ledger: Ledger, r: Request)
    requires Reserved(ledger, r).Write? && (r.channel == Beta || r.channel == Rc)
    ensures Reserved(ledger, r).plan.sequence.Number? && IsNextNumber(ledger, r, Reserved(ledger, r).plan.sequence.n)
  {
    hide Proposed, IsNextNumber;
    CandidatesTakeTheNextNumber(ledger, r);
  }

  // ---- Reserving --------------------------------------------------------------------------------------------------

  predicate Hex(s: string, length: nat) {
    |s| == length && forall i | 0 <= i < |s| :: s[i] in "0123456789abcdef"
  }

  /** What distinguishes a release within its base and channel; n is the number of a candidate. */
  function SequenceFor(r: Request, n: int): Sequence {
    if r.channel == Beta || r.channel == Rc then Number(n)
    else if r.channel == Nightly then Stamp(r.time, r.run, r.attempt)
    else NoSequence
  }

  function BuildNumber(ledger: Ledger, floor: int): int {
    if ledger.counter < floor then floor + 1 else ledger.counter + 1
  }

  predicate Asks(r: Request) {
    && r.run > 0 && r.policy.Some? && r.policy.value.projectable
    && r.base.Base? && r.channel != Unsupported && (r.channel == Nightly ==> r.attempt > 0)
    && Hex(r.sourceSha, 40) && Hex(r.policy.value.digest, 64)
  }

  /**
   * A run that has not reserved gets a plan exactly when its request is complete, the tag is not taken and a build
   * number is left; the plan has the next build number above the counter and the policy's floor, and the next free
   * number.
   */
  lemma ReservesExactly(ledger: Ledger, r: Request, n: int)
    requires r.run !in ledger.plans && ledger.counter >= 0
    requires r.channel == Beta || r.channel == Rc ==> IsNextNumber(ledger, r, n)
    ensures Reserved(ledger, r).Write?
       <==> && Asks(r) && BuildNumber(ledger, r.policy.value.floor) <= 2_100_000_000
            && Tag(r.base, r.channel, SequenceFor(r, n)) !in r.existing
    ensures Reserved(ledger, r).Write? ==>
              var plan := Reserved(ledger, r).plan;
              && plan == Plan(r.base, r.channel, SequenceFor(r, n), r.sourceSha,
                              Some(BuildNumber(ledger, r.policy.value.floor)), r.policy.value.digest,
                              r.policy.value.promotion)
              && Reserved(ledger, r).next
                 == Ledger(BuildNumber(ledger, r.policy.value.floor), ledger.floor,
                           ledger.plans[r.run := Reservation(plan, r.parent)])
    ensures !Reserved(ledger, r).Write? ==> Reserved(ledger, r).Refused?
  {
    hide HighestReserved, NextNumber, IsNextNumber;
    HexExactly(r.sourceSha, 40);
    if r.policy.Some? {
      HexExactly(r.policy.value.digest, 64);
      if r.channel == Beta || r.channel == Rc {
        CandidatesTakeTheNextNumber(ledger, r);
        NextNumberIsUnique(ledger, r, n, Proposed(ledger, r).sequence.n);
        NumbersArePositive(ledger, r, n);
      }
    }
  }

  lemma NumbersArePositive(ledger: Ledger, r: Request, n: int)
    requires IsNextNumber(ledger, r, n)
    ensures n > 0
  {
  }

  lemma HexExactly(s: string, length: nat)
    ensures IsSha(s, length) <==> Hex(s, length)
  {
    var digits := "0123456789abcdef";
    forall c: char ensures c in digits <==> '0' <= c <= '9' || 'a' <= c <= 'f' {
      if '0' <= c <= '9' {
        assert digits[c as int - '0' as int] == c;
      } else if 'a' <= c <= 'f' {
        assert digits[c as int - 'a' as int + 10] == c;
      }
    }
    forall i | 0 <= i < |s| ensures s[i] in s {
    }
    if Hex(s, length) {
      forall c | c in s ensures '0' <= c <= '9' || 'a' <= c <= 'f' {
        var i :| 0 <= i < |s| && s[i] == c;
      }
    }
  }

  /** A run that has reserved gets its plan again exactly when it asks for the same release in the same way. */
  lemma RetriesExactly(ledger: Ledger, r: Request)
    requires ledger.Readable() && r.run in ledger.plans
    ensures
      var record := ledger.plans[r.run];
      Reserved(ledger, r)
      == if && r.policy.Some? && r.policy.value.projectable
            && record.plan.policyDigest == r.policy.value.digest && record.plan.promotion == r.policy.value.promotion
            && record.plan.build.Some? && record.plan.build.value > r.policy.value.floor
            && record.plan.base == r.base && record.plan.channel == r.channel && record.plan.sourceSha == r.sourceSha
            && record.parent == r.parent
         then Confirmed(record.plan) else Refused
  {
  }

  // ---- Publishing -------------------------------------------------------------------------------------------------

  /** A reserved plan whose release is published, with a build number as high as this one, or higher when strict. */
  ghost predicate Overtaken(ledger: Ledger, published: set<Tag>, build: int, strict: bool, own: Option<Tag>) {
    exists run :: run in ledger.plans && ledger.plans[run].plan.build.Some?
        && ledger.plans[run].plan.TagOf() in published
      && own != Some(ledger.plans[run].plan.TagOf())
      && ledger.plans[run].plan.build.value >= (if strict then build + 1 else build)
  }

  /** A package can be published exactly by the run that reserved it, above the floor, with nothing as new published. */
  lemma PublishesExactly(ledger: Ledger, p: Publication)
    requires ledger.Readable() && !p.promotion
    ensures Begun(ledger, p).Write?
       <==> && p.run in ledger.plans && ledger.plans[p.run] == Reservation(p.plan, p.parent)
            && p.plan.build.value > ledger.floor
            && !Overtaken(ledger, p.published, p.plan.build.value, false, None)
    ensures Begun(ledger, p).Write? ==> Begun(ledger, p).next == ledger.(floor := p.plan.build.value)
  {
  }

  /** A plan that has just been reserved can be published at once, unless a release of its own tag is there already. */
  lemma FreshPlansCanBePublished(ledger: Ledger, r: Request, published: set<Tag>)
    requires ledger.Readable() && Reserved(ledger, r).Write?
    ensures
      var next, plan := Reserved(ledger, r).next, Reserved(ledger, r).plan;
      Begun(next, Publication(plan, r.run, r.parent, false, published)).Write? <==> plan.TagOf() !in published
  {
    hide HighestReserved, NextNumber;
    var next, plan := Reserved(ledger, r).next, Reserved(ledger, r).plan;
    if plan.TagOf() in published {
      assert next.plans[r.run].plan == plan;
    }
  }

  /** The bytes of a candidate can be promoted exactly while it is published, reserved once and not overtaken. */
  lemma PromotesExactly(ledger: Ledger, p: Publication)
    requires ledger.Readable() && p.promotion
    ensures Begun(ledger, p).Write?
       <==> && p.run > 0 && p.plan.channel == Rc && p.plan.promotion == PromoteBytes
            && (exists run :: run in ledger.plans && ledger.plans[run].plan == p.plan)
            && (forall run, run' | run in ledger.plans && run' in ledger.plans ::
                  ledger.plans[run].plan == p.plan && ledger.plans[run'].plan == p.plan ==> run == run')
            && p.plan.build.value >= ledger.floor && p.plan.TagOf() in p.published
            && !Overtaken(ledger, p.published, p.plan.build.value, true, Some(p.plan.TagOf()))
    ensures Begun(ledger, p).Write? ==> Begun(ledger, p).next == ledger.(floor := p.plan.build.value)
  {
  }

  // ---- Plans and ledgers ------------------------------------------------------------------------------------------

  /** A plan's identity: a candidate has a number, a nightly its run and attempt, a stable release neither. */
  lemma PlansExactly(plan: Plan)
    ensures plan.Valid()
       <==> && plan.base.Base? && Hex(plan.sourceSha, 40) && Hex(plan.policyDigest, 64)
            && (plan.build.Some? ==> 1 <= plan.build.value <= 2_100_000_000)
            && ((plan.channel == Stable && plan.sequence == NoSequence)
                || ((plan.channel == Beta || plan.channel == Rc) && plan.sequence.Number? && plan.sequence.n >= 1)
                || (plan.channel == Nightly && plan.sequence.Stamp? && plan.sequence.run >= 1
                    && plan.sequence.attempt >= 1))
  {
    HexExactly(plan.sourceSha, 40);
    HexExactly(plan.policyDigest, 64);
  }

  /** The first reservation of a repository takes the first build number above the policy's floor. */
  lemma FirstReservation(r: Request)
    requires r.run > 0 && Reserved(EMPTY, r).Write?
    ensures
      var plan := Reserved(EMPTY, r).plan;
      && plan.build == Some(r.policy.value.floor + 1)
      && Reserved(EMPTY, r).next == Ledger(r.policy.value.floor + 1, 0, map[r.run := Reservation(plan, r.parent)])
  {
    hide HighestReserved, NextNumber;
  }
}
