/** Concurrent release runs over one ledger file: every interleaving of reads, branch creation, writes and crashes. */
module ReleaseRuns {
  import opened Prelude
  import opened ReleaseState

  datatype Operation = Reserving(request: Request) | Publishing(publication: Publication)

  ghost function OutcomeOf(ledger: Ledger, op: Operation): Outcome {
    match op
    case Reserving(request) => Reserved(ledger, request)
    case Publishing(publication) => Begun(ledger, publication)
  }

  /** A run between its read and its write: what it read, what it will write, and whether the branch is there. */
  datatype Pending = Pending(previous: Option<Ledger>, op: Operation, next: Ledger, plan: Plan, open: bool)

  /** A write that GitHub accepted. */
  datatype Entry = Entry(op: Operation, plan: Plan)
  {
    predicate Reservation() {
      op.Reserving?
    }

    /** The publication of a package under its own number, not of an accepted candidate's bytes. */
    predicate Package() {
      op.Publishing? && !op.publication.promotion
    }

    function Run(): nat {
      match op
      case Reserving(request) => request.run
      case Publishing(publication) => publication.run
    }
  }

  /** The state branch, its file, the runs under way, and the history of accepted writes. */
  datatype System = System(branch: bool, file: Option<Ledger>, pending: map<int, Pending>, log: seq<Entry>)

  const NEW := System(false, None, map[], [])

  /** A run reads and decides; makes sure of the branch; writes; or is lost on the way. */
  datatype Step = Prepare(id: int, op: Operation) | OpenBranch(id: int, sawNone: bool) | Commit(id: int)
      | Abandon(id: int)

  function Content(file: Option<Ledger>): Ledger {
    if file.Some? then file.value else EMPTY
  }

  /** read_state: a missing file is an empty ledger only while its branch does not exist either. */
  function ReadState(branch: bool, file: Option<Ledger>): Decoded<Ledger> {
    if file.None? then if branch then Rejected else Accepted(EMPTY)
    else if file.value.Readable() then Accepted(file.value) else Rejected
  }

  ghost function Next(s: System, step: Step): System {
    match step
    case Prepare(id, op) =>
      var ledger := ReadState(s.branch, s.file);
      if id in s.pending || ledger.Rejected? then s else
      var outcome := OutcomeOf(ledger.value, op);
      if outcome.Write?
      then s.(pending := s.pending[id := Pending(s.file, op, outcome.next, outcome.plan, op.Publishing?)])
      else s
    case OpenBranch(id, sawNone) =>
      if id !in s.pending || s.pending[id].open then s
      else if sawNone && s.branch then s.(pending := s.pending - {id})
      else s.(branch := s.branch || sawNone, pending := s.pending[id := s.pending[id].(open := true)])
    case Commit(id) =>
      if id !in s.pending || !s.pending[id].open then s
      else
        var p, rest := s.pending[id], s.pending - {id};
        if s.branch && s.file == p.previous
        then System(true, Some(p.next), rest, s.log + [Entry(p.op, p.plan)])
        else s.(pending := rest)
    case Abandon(id) => s.(pending := s.pending - {id})
  }

  ghost function After(steps: seq<Step>): System {
    if steps == [] then NEW else Next(After(steps[..|steps| - 1]), steps[|steps| - 1])
  }

  // ---- The file on the branch, and the runs that share it ---------------------------------------------

  /** The repository as the runs see it. A run is suspended between its requests, so that others can come in between. */
  class LedgerFile {
    var branch: bool
    var file: Option<Ledger>
    var pending: map<int, Pending>
    ghost var log: seq<Entry>

    ghost function State(): System
      reads this
    {
      System(branch, file, pending, log)
    }

    constructor ()
      ensures State() == NEW
    {
      branch, file, pending, log := false, None, map[], [];
    }

    /** read_state */
    method Read() returns (ledger: Decoded<Ledger>, previous: Option<Ledger>)
      ensures ledger == ReadState(branch, file) && previous == file
    {
      previous := file;
      if file.None? {
        return if branch then Rejected else Accepted(EMPTY), previous;
      }
      ledger := if file.value.Readable() then Accepted(file.value) else Rejected;
    }

    /** Creating a branch that exists is refused. */
    method CreateBranch() returns (ok: bool)
      modifies this`branch
      ensures branch && ok == !old(branch)
    {
      ok := !branch;
      branch := true;
    }

    /** write_state: GitHub rejects a stale blob identity; equal identities mean equal contents. */
    method Put(next: Ledger, previous: Option<Ledger>) returns (ok: bool)
      modifies this`file
      ensures ok <==> branch && old(file) == previous
      ensures file == if ok then Some(next) else old(file)
    {
      ok := branch && file == previous;
      if ok {
        file := Some(next);
      }
    }

    /** What a run does before its first change: read the ledger and decide on its own copy. */
    method Prepare(id: int, op: Operation)
      modifies this
      ensures State() == Next(old(State()), Step.Prepare(id, op))
    {
      if id in pending {
        return;
      }
      var ledger, previous := Read();
      if ledger.Rejected? {
        return;
      }
      var copy := new LedgerCopy(ledger.value);
      var outcome: Outcome;
      match op {
        case Reserving(request) => outcome := copy.Reserve(request);
        case Publishing(publication) => outcome := copy.Begin(publication);
      }
      if outcome.Write? {
        pending := pending[id := Pending(previous, op, copy.State(), outcome.plan, op.Publishing?)];
      }
    }

    /** The branch is created when the run saw none; a run that loses this race ends. */
    method OpenBranch(id: int, sawNone: bool)
      modifies this
      ensures State() == Next(old(State()), Step.OpenBranch(id, sawNone))
    {
      if id !in pending || pending[id].open {
        return;
      }
      if sawNone {
        var ok := CreateBranch();
        if !ok {
          pending := pending - {id};
          return;
        }
      }
      pending := pending[id := pending[id].(open := true)];
    }

    /** The one write of a run. */
    method Commit(id: int)
      modifies this
      ensures State() == Next(old(State()), Step.Commit(id))
    {
      if id !in pending || !pending[id].open {
        return;
      }
      var p := pending[id];
      var ok := Put(p.next, p.previous);
      pending := pending - {id};
      if ok {
        log := log + [Entry(p.op, p.plan)];
      }
    }
  }

  // ---- What the accepted writes add up to -------------------------------------------------------------

  predicate Earlier(log: seq<Entry>, i: int, j: int) {
    0 <= i < j < |log|
  }

  predicate SameLine(p: Plan, q: Plan) {
    p.base == q.base && p.channel == q.channel
  }

  /** The reservations of the log are the plans of the ledger, one for each run, numbered in the order of writing. */
  ghost predicate ReservationsAgree(ledger: Ledger, log: seq<Entry>) {
    && (forall run | run in ledger.plans :: Logged(log, run, ledger))
    && (forall i | 0 <= i < |log| && log[i].Reservation() :: ReservedFor(log[i], log[i].Run(), ledger))
    && (forall i, j | Earlier(log, i, j) && log[i].Reservation() && log[j].Reservation() ::
          log[i].plan.build.Some? && log[j].plan.build.Some? && log[i].plan.build.value < log[j].plan.build.value)
  }

  ghost predicate ReservedFor(e: Entry, run: nat, ledger: Ledger) {
    e.Reservation() && e.Run() == run && run in ledger.plans
        && ledger.plans[run] == ReleaseState.Reservation(e.plan, e.op.request.parent)
  }

  ghost predicate Logged(log: seq<Entry>, run: nat, ledger: Ledger) {
    exists i :: 0 <= i < |log| && ReservedFor(log[i], run, ledger)
  }

  lemma StillLogged(log: seq<Entry>, e: Entry, run: nat, ledger: Ledger, next: Ledger)
    requires Logged(log, run, ledger) && run in next.plans && next.plans[run] == ledger.plans[run]
    ensures Logged(log + [e], run, next)
  {
    var i :| 0 <= i < |log| && ReservedFor(log[i], run, ledger);
    assert ReservedFor((log + [e])[i], run, next);
  }

  lemma NewlyLogged(log: seq<Entry>, e: Entry, run: nat, next: Ledger)
    requires ReservedFor(e, run, next)
    ensures Logged(log + [e], run, next)
  {
    assert ReservedFor((log + [e])[|log|], run, next);
  }

  /** Sequences of one base and channel increase; nightly ones carry their run. */
  ghost predicate SequencesAgree(log: seq<Entry>) {
    && (forall i, j | Earlier(log, i, j) && log[i].Reservation() && log[j].Reservation()
        && SameLine(log[i].plan, log[j].plan)
          && log[i].plan.sequence.Number? && log[j].plan.sequence.Number? ::
          log[i].plan.sequence.n < log[j].plan.sequence.n)
    && (forall i | 0 <= i < |log| && log[i].Reservation() && log[i].plan.sequence.Stamp? ::
        log[i].plan.sequence.run == log[i].Run())
    && (forall i | 0 <= i < |log| && log[i].Reservation() :: log[i].plan.Valid())
  }

  /** Package publications increase, and the floor is at least every publication so far. */
  ghost predicate PublicationsAgree(ledger: Ledger, log: seq<Entry>) {
    && (forall i | 0 <= i < |log| && !log[i].Reservation() ::
        log[i].plan.build.Some? && log[i].plan.build.value <= ledger.floor)
    && (forall i, j | Earlier(log, i, j) && !log[i].Reservation() && log[j].Package() ::
          log[i].plan.build.Some? && log[j].plan.build.Some? && log[i].plan.build.value < log[j].plan.build.value)
  }

  ghost predicate Agrees(ledger: Ledger, log: seq<Entry>) {
    ledger.Readable() && ReservationsAgree(ledger, log) && SequencesAgree(log) && PublicationsAgree(ledger, log)
  }

  ghost predicate Sound(s: System) {
    && Agrees(Content(s.file), s.log)
    && (s.file.Some? ==> s.branch)
    && forall id | id in s.pending ::
         && Content(s.pending[id].previous).Readable()
         && OutcomeOf(Content(s.pending[id].previous), s.pending[id].op)
             == Write(s.pending[id].next, s.pending[id].plan)
  }

  // ---- One accepted write -------------------------------------------------------------------------------

  /** A reservation adds one plan, numbered above the counter, and changes nothing else. */
  lemma ReservingAdds(ledger: Ledger, r: Request)
    requires ledger.Readable() && Reserved(ledger, r).Write?
    ensures
      var next, plan := Reserved(ledger, r).next, Reserved(ledger, r).plan;
      && next.Readable() && next.floor == ledger.floor && next.counter > ledger.counter
      && plan.Valid() && plan.build == Some(next.counter)
      && r.run > 0 && r.run !in ledger.plans
          && next.plans == ledger.plans[r.run := ReleaseState.Reservation(plan, r.parent)]
      && (plan.sequence.Stamp? ==> plan.sequence.run == r.run)
      && (plan.sequence.Number?
          ==> forall run | run in ledger.plans && Takes(ledger.plans[run], plan.base, plan.channel) ::
            ledger.plans[run].plan.sequence.n < plan.sequence.n)
      && plan.TagOf() !in r.existing
  {
  }

  lemma BeginningRaisesTheFloor(ledger: Ledger, p: Publication)
    requires ledger.Readable() && Begun(ledger, p).Write?
    ensures
      var next := Begun(ledger, p).next;
      && next.Readable() && next.plans == ledger.plans && next.counter == ledger.counter && next.floor >= ledger.floor
      && p.plan.build == Some(next.floor) && (!p.promotion ==> next.floor > ledger.floor)
  {
    if p.promotion {
      var run :| run in ledger.plans && ledger.plans[run].plan == p.plan;
    }
  }

  lemma ReservationKeepsReservations(ledger: Ledger, log: seq<Entry>, r: Request)
    requires ledger.Readable() && ReservationsAgree(ledger, log) && Reserved(ledger, r).Write?
    ensures ReservationsAgree(Reserved(ledger, r).next, log + [Entry(Reserving(r), Reserved(ledger, r).plan)])
  {
    hide Reserved, Ledger.Readable, Plan.Valid, Logged;
    ReservingAdds(ledger, r);
    var next, plan := Reserved(ledger, r).next, Reserved(ledger, r).plan;
    var longer := log + [Entry(Reserving(r), plan)];
    EarlierBuilds(ledger, log);
    forall run | run in next.plans ensures Logged(longer, run, next) {
      if run == r.run {
        NewlyLogged(log, Entry(Reserving(r), plan), run, next);
      } else {
        StillLogged(log, Entry(Reserving(r), plan), run, ledger, next);
      }
    }
  }

  lemma ReservationKeepsAgreement(ledger: Ledger, log: seq<Entry>, r: Request)
    requires Agrees(ledger, log) && Reserved(ledger, r).Write?
    ensures Agrees(Reserved(ledger, r).next, log + [Entry(Reserving(r), Reserved(ledger, r).plan)])
  {
    hide Reserved, Ledger.Readable, Plan.Valid, ReservationsAgree, SequencesAgree;
    ReservingAdds(ledger, r);
    ReservationKeepsReservations(ledger, log, r);
    ReservationKeepsSequences(ledger, log, r);
  }

  lemma EarlierBuilds(ledger: Ledger, log: seq<Entry>)
    requires ledger.Readable() && ReservationsAgree(ledger, log)
    ensures forall i | 0 <= i < |log| && log[i].Reservation() ::
        log[i].plan.build.Some? && log[i].plan.build.value <= ledger.counter
  {
    forall i | 0 <= i < |log| && log[i].Reservation()
      ensures log[i].plan.build.Some? && log[i].plan.build.value <= ledger.counter
    {
      assert ReservedFor(log[i], log[i].Run(), ledger);
    }
  }

  lemma NewNumberIsHigher(ledger: Ledger, log: seq<Entry>, r: Request, i: nat)
    requires ledger.Readable() && ReservationsAgree(ledger, log) && Reserved(ledger, r).Write?
    requires i < |log| && log[i].Reservation() && SameLine(log[i].plan, Reserved(ledger, r).plan)
    requires log[i].plan.sequence.Number? && Reserved(ledger, r).plan.sequence.Number?
    ensures log[i].plan.sequence.n < Reserved(ledger, r).plan.sequence.n
  {
    hide Reserved, Ledger.Readable, Plan.Valid, Logged;
    ReservingAdds(ledger, r);
    assert ReservedFor(log[i], log[i].Run(), ledger);
    assert Takes(ledger.plans[log[i].Run()], log[i].plan.base, log[i].plan.channel);
  }

  lemma ReservationKeepsSequences(ledger: Ledger, log: seq<Entry>, r: Request)
    requires ledger.Readable() && ReservationsAgree(ledger, log) && SequencesAgree(log) && Reserved(ledger, r).Write?
    ensures SequencesAgree(log + [Entry(Reserving(r), Reserved(ledger, r).plan)])
  {
    hide Reserved, Ledger.Readable, Plan.Valid, ReservationsAgree;
    ReservingAdds(ledger, r);
    var plan := Reserved(ledger, r).plan;
    forall i | 0 <= i < |log| && log[i].Reservation() && SameLine(log[i].plan, plan) && log[i].plan.sequence.Number?
        && plan.sequence.Number?
      ensures log[i].plan.sequence.n < plan.sequence.n
    {
      NewNumberIsHigher(ledger, log, r, i);
    }
  }

  lemma PublicationKeepsReservations(ledger: Ledger, next: Ledger, log: seq<Entry>, p: Publication)
    requires ReservationsAgree(ledger, log) && next.plans == ledger.plans
    ensures ReservationsAgree(next, log + [Entry(Publishing(p), p.plan)])
  {
    hide Logged;
    var longer := log + [Entry(Publishing(p), p.plan)];
    forall run | run in next.plans ensures Logged(longer, run, next) {
      StillLogged(log, Entry(Publishing(p), p.plan), run, ledger, next);
    }
    forall i | 0 <= i < |longer| && longer[i].Reservation() ensures ReservedFor(longer[i], longer[i].Run(), next) {
      assert ReservedFor(log[i], log[i].Run(), ledger);
    }
  }

  lemma PublicationKeepsPublications(ledger: Ledger, next: Ledger, log: seq<Entry>, p: Publication)
    requires PublicationsAgree(ledger, log)
    requires p.plan.build == Some(next.floor) && next.floor >= ledger.floor
    requires (!p.promotion ==> next.floor > ledger.floor)
    ensures PublicationsAgree(next, log + [Entry(Publishing(p), p.plan)])
  {
  }

  lemma PublicationKeepsAgreement(ledger: Ledger, log: seq<Entry>, p: Publication)
    requires Agrees(ledger, log) && Begun(ledger, p).Write?
    ensures Agrees(Begun(ledger, p).next, log + [Entry(Publishing(p), p.plan)])
  {
    hide Begun, Ledger.Readable, Plan.Valid, ReservationsAgree, PublicationsAgree;
    BeginningRaisesTheFloor(ledger, p);
    PublicationKeepsReservations(ledger, Begun(ledger, p).next, log, p);
    PublicationKeepsPublications(ledger, Begun(ledger, p).next, log, p);
  }

  lemma BegunWritesItsPlan(ledger: Ledger, p: Publication)
    requires Begun(ledger, p).Write?
    ensures Begun(ledger, p).plan == p.plan
  {
  }

  // ---- Every interleaving ---------------------------------------------------------------------------------

  lemma WriteKeepsAgreement(ledger: Ledger, log: seq<Entry>, op: Operation)
    requires Agrees(ledger, log) && OutcomeOf(ledger, op).Write?
    ensures Agrees(OutcomeOf(ledger, op).next, log + [Entry(op, OutcomeOf(ledger, op).plan)])
  {
    hide Agrees, Reserved, Begun;
    match op {
      case Reserving(r) => ReservationKeepsAgreement(ledger, log, r);
      case Publishing(p) =>
        PublicationKeepsAgreement(ledger, log, p);
        BegunWritesItsPlan(ledger, p);
    }
  }

  lemma StepIsSound(s: System, step: Step)
    requires Sound(s)
    ensures Sound(Next(s, step))
  {
    hide ReservationsAgree, SequencesAgree, PublicationsAgree, OutcomeOf, Ledger.Readable;
    match step {
      case Commit(id) =>
        if id in s.pending && s.pending[id].open && s.branch && s.file == s.pending[id].previous {
          WriteKeepsAgreement(Content(s.file), s.log, s.pending[id].op);
        }
      case _ =>
    }
  }

  lemma {:induction false} AlwaysSound(steps: seq<Step>)
    ensures Sound(After(steps))
  {
    hide Sound, Next;
    if steps == [] {
      NewIsSound();
    } else {
      AlwaysSound(steps[..|steps| - 1]);
      StepIsSound(After(steps[..|steps| - 1]), steps[|steps| - 1]);
    }
  }

  lemma NewIsSound()
    ensures Sound(NEW)
  {
  }

  // ---- What every run can rely on ---------------------------------------------------------------------------

  ghost function LedgerAfter(steps: seq<Step>): Ledger {
    Content(After(steps).file)
  }

  /** Every ledger on the branch can be read back, and says what the accepted writes say. */
  lemma LedgersAreReadable(steps: seq<Step>)
    ensures ReadState(After(steps).branch, After(steps).file).Accepted?
        <==> (After(steps).file.Some? || !After(steps).branch)
    ensures LedgerAfter(steps).Readable()
  {
    AlwaysSound(steps);
  }

  lemma StepOnlyAdds(s: System, step: Step)
    requires Sound(s)
    ensures
      var before, after := Content(s.file), Content(Next(s, step).file);
      && before.counter <= after.counter && before.floor <= after.floor
      && forall run | run in before.plans :: run in after.plans && after.plans[run] == before.plans[run]
    ensures s.log <= Next(s, step).log
  {
    hide Reserved, Begun, ReservationsAgree, SequencesAgree, PublicationsAgree, Ledger.Readable;
    match step {
      case Commit(id) =>
        if id in s.pending && s.pending[id].open && s.branch && s.file == s.pending[id].previous {
          match s.pending[id].op {
            case Reserving(r) => ReservingAdds(Content(s.file), r);
            case Publishing(p) => BeginningRaisesTheFloor(Content(s.file), p);
          }
        }
      case _ =>
    }
  }

  /** Whatever runs interleave, a reserved plan never changes, and neither the counter nor the floor ever falls. */
  lemma {:induction false} LedgersOnlyGrow(steps: seq<Step>, i: nat)
    requires i <= |steps|
    ensures
      var before, after := LedgerAfter(steps[..i]), LedgerAfter(steps);
      && before.counter <= after.counter && before.floor <= after.floor
      && forall run | run in before.plans :: run in after.plans && after.plans[run] == before.plans[run]
  {
    hide Next;
    if i == |steps| {
      assert steps[..i] == steps;
    } else {
      var front := steps[..|steps| - 1];
      assert front[..i] == steps[..i];
      LedgersOnlyGrow(front, i);
      AlwaysSound(front);
      StepOnlyAdds(After(front), steps[|steps| - 1]);
    }
  }

  lemma LoggedRun(log: seq<Entry>, run: nat, ledger: Ledger) returns (i: int)
    requires Logged(log, run, ledger)
    ensures 0 <= i < |log| && ReservedFor(log[i], run, ledger)
  {
    i :| 0 <= i < |log| && ReservedFor(log[i], run, ledger);
  }

  /** Accepted reservations take strictly increasing build numbers, in the order in which they were written. */
  lemma BuildNumbersIncrease(steps: seq<Step>, i: int, j: int)
    requires Earlier(After(steps).log, i, j) && After(steps).log[i].Reservation() && After(steps).log[j].Reservation()
    ensures
      var p, q := After(steps).log[i].plan, After(steps).log[j].plan;
      && p.build.Some? && q.build.Some? && p.build.value < q.build.value
      && After(steps).log[i].Run() != After(steps).log[j].Run()
  {
    hide SequencesAgree, PublicationsAgree, Ledger.Readable, Logged;
    AlwaysSound(steps);
    var log, ledger := After(steps).log, LedgerAfter(steps);
    assert ReservedFor(log[i], log[i].Run(), ledger) && ReservedFor(log[j], log[j].Run(), ledger);
  }

  /** No two runs hold the same build number, and each run has reserved once. */
  lemma BuildNumbersAreDistinct(steps: seq<Step>, run: nat, run': nat)
    requires run in LedgerAfter(steps).plans && run' in LedgerAfter(steps).plans && run != run'
    ensures LedgerAfter(steps).plans[run].plan.build != LedgerAfter(steps).plans[run'].plan.build
  {
    hide SequencesAgree, PublicationsAgree, Ledger.Readable, Logged;
    AlwaysSound(steps);
    var log, ledger := After(steps).log, LedgerAfter(steps);
    var i := LoggedRun(log, run, ledger);
    var j := LoggedRun(log, run', ledger);
    assert Earlier(log, i, j) || Earlier(log, j, i);
  }

  /**
   * Two reservations share a tag exactly when both are stable releases of the same base: numbered candidates
   * never repeat within their base and channel, and nightly ones carry their run.
   */
  lemma TagsCollideExactly(steps: seq<Step>, run: nat, run': nat)
    requires run in LedgerAfter(steps).plans && run' in LedgerAfter(steps).plans && run != run'
    ensures
      var p, q := LedgerAfter(steps).plans[run].plan, LedgerAfter(steps).plans[run'].plan;
      p.TagOf() == q.TagOf() <==> p.channel == Stable && q.channel == Stable && p.base == q.base
  {
    hide PublicationsAgree, Ledger.Readable, Logged;
    AlwaysSound(steps);
    var log, ledger := After(steps).log, LedgerAfter(steps);
    var i := LoggedRun(log, run, ledger);
    var j := LoggedRun(log, run', ledger);
    var p, q := log[i].plan, log[j].plan;
    assert Earlier(log, i, j) || Earlier(log, j, i);
    assert p.Valid() && q.Valid();
  }

  /** Package publications start in strictly increasing build order, so no plan is published twice. */
  lemma PackagesArePublishedInOrder(steps: seq<Step>, i: int, j: int)
    requires Earlier(After(steps).log, i, j) && After(steps).log[i].Package() && After(steps).log[j].Package()
    ensures
      var p, q := After(steps).log[i].plan, After(steps).log[j].plan;
      p.build.Some? && q.build.Some? && p.build.value < q.build.value && p != q
  {
    hide ReservationsAgree, SequencesAgree;
    AlwaysSound(steps);
  }

  /** A retry of a run that has reserved gets that plan or nothing; it never writes a second one. */
  lemma RetriesNeverWrite(ledger: Ledger, r: Request)
    requires r.run in ledger.plans
    ensures !Reserved(ledger, r).Write?
    ensures Reserved(ledger, r).Confirmed? ==>
              Reserved(ledger, r).plan == ledger.plans[r.run].plan && ledger.plans[r.run].parent == r.parent
  {
  }

  /**
   * Whatever other runs do meanwhile, a run that has reserved gets the plan it then got, or nothing, and writes no
   * other.
   */
  lemma RunsReserveOnce(steps: seq<Step>, i: nat, r: Request)
    requires i <= |steps| && r.run in LedgerAfter(steps[..i]).plans
    ensures !Reserved(LedgerAfter(steps), r).Write?
    ensures Reserved(LedgerAfter(steps), r).Confirmed? ==>
              Reserved(LedgerAfter(steps), r).plan == LedgerAfter(steps[..i]).plans[r.run].plan
  {
    hide After, Reserved;
    LedgersOnlyGrow(steps, i);
    RetriesNeverWrite(LedgerAfter(steps), r);
  }

  /** A run asking again for what it has just been given is confirmed, whatever GitHub shows it by then. */
  lemma RetriesAreConfirmed(ledger: Ledger, r: Request, names: seq<Tag>, existing: set<Tag>, later: Ledger)
    requires ledger.Readable() && Reserved(ledger, r).Write?
    requires r.run in later.plans && later.plans[r.run] == Reserved(ledger, r).next.plans[r.run]
    ensures Reserved(later, r.(names := names, existing := existing)) == Confirmed(Reserved(ledger, r).plan)
  {
    hide HighestReserved, NextNumber;
  }

  // ---- When no run can reserve any more -----------------------------------------------------------------------

  /** After these steps, more of them lead to another accepted reservation. */
  ghost predicate ReservesLater(steps: seq<Step>, more: seq<Step>) {
    exists i | |After(steps).log| <= i < |After(steps + more).log| :: After(steps + more).log[i].Reservation()
  }

  /** A branch without its file and without a run that could still write it. */
  predicate Orphaned(s: System) {
    s.branch && s.file.None? && s.pending == map[]
  }

  predicate UsedUp(s: System) {
    Content(s.file).counter >= MAX_BUILD
  }

  lemma NumbersRunOut(ledger: Ledger, r: Request)
    requires r.run !in ledger.plans
    requires (ledger.counter >= MAX_BUILD || (r.policy.Some? && r.policy.value.floor >= MAX_BUILD))
    ensures Reserved(ledger, r).Refused?
  {
  }

  lemma OrphanedBranchBlocks(s: System, step: Step)
    requires Orphaned(s)
    ensures Next(s, step) == s
  {
  }

  /** A run lost between creating the branch and its first write orphans the branch. */
  lemma LostRunOrphansTheBranch(r: Request)
    requires Reserved(EMPTY, r).Write?
    ensures Orphaned(After([Prepare(0, Reserving(r)), OpenBranch(0, true), Abandon(0)]))
  {
    hide Reserved, After;
    var a, b, c := Prepare(0, Reserving(r)), OpenBranch(0, true), Abandon(0);
    ThreeMore([], a, b, c);
    assert [] + [a, b, c] == [a, b, c];
    AfterNothing();
  }

  lemma AfterNothing()
    ensures After([]) == NEW
  {
  }

  /** A request that any ledger with a number to spare grants: a stable release of a run not heard of before. */
  function Plain(sha: string, digest: string, run: nat): Request {
    Request(Some(Policy(digest, FinalBuild, 0, true)), Base(1, 0, 0), Stable, sha, run, 1, 0, None, [], {})
  }

  lemma PlainIsGranted(ledger: Ledger, sha: string, digest: string, run: nat)
    requires IsSha(sha, 40) && IsSha(digest, 64) && 0 <= ledger.counter < MAX_BUILD && run > 0 && run !in ledger.plans
    ensures Reserved(ledger, Plain(sha, digest, run)).Write?
    ensures Reserved(ledger, Plain(sha, digest, run)).plan.TagOf() == Tag(Base(1, 0, 0), Stable, NoSequence)
    ensures Reserved(ledger, Plain(sha, digest, run)).next.counter == ledger.counter + 1
  {
  }

  /** Hexadecimal texts of the two lengths. */
  function Zeros(n: nat): (s: string)
    ensures IsSha(s, n)
  {
    if n == 0 then "" else Zeros(n - 1) + ['0']
  }

  lemma {:induction false} Beyond(ids: set<int>) returns (x: int)
    ensures x > 0 && forall y | y in ids :: y < x
  {
    if ids == {} {
      x := 1;
    } else {
      var id := Pick(ids);
      var least := Beyond(ids - {id});
      x := if least <= id then id + 1 else least;
      assert forall y | y in ids :: y == id || y in ids - {id};
    }
  }

  /** As long as the file has never been written, every run under way has seen that. */
  lemma {:induction false} NobodyReadAFile(steps: seq<Step>)
    requires After(steps).file.None?
    ensures forall id | id in After(steps).pending :: After(steps).pending[id].previous.None?
  {
    hide OutcomeOf;
    if steps != [] {
      NobodyReadAFile(steps[..|steps| - 1]);
    }
  }

  /** Before its first write the ledger has nothing to publish. */
  lemma NothingToPublish(p: Publication)
    ensures !Begun(EMPTY, p).Write?
  {
  }

  lemma TwoMore(steps: seq<Step>, a: Step, b: Step)
    ensures After(steps + [a, b]) == Next(Next(After(steps), a), b)
  {
    hide Next;
    assert (steps + [a, b])[..|steps| + 1] == steps + [a];
    assert (steps + [a])[..|steps|] == steps;
  }

  lemma ThreeMore(steps: seq<Step>, a: Step, b: Step, c: Step)
    ensures After(steps + [a, b, c]) == Next(Next(Next(After(steps), a), b), c)
  {
    hide Next;
    TwoMore(steps, a, b);
    assert (steps + [a, b, c])[..|steps| + 2] == steps + [a, b];
  }

  /** A run under way that has seen the present file and may find the branch there writes its reservation. */
  lemma PendingRunReserves(s: System, id: int)
    requires id in s.pending && s.pending[id].op.Reserving? && s.branch && s.file == s.pending[id].previous
    ensures
      var after := Next(Next(s, OpenBranch(id, false)), Commit(id));
      after.log == s.log + [Entry(s.pending[id].op, s.pending[id].plan)]
  {
  }

  lemma FreshRunReserves(s: System, id: int, r: Request)
    requires id !in s.pending && ReadState(s.branch, s.file).Accepted? && Reserved(Content(s.file), r).Write?
    ensures
      var after := Next(Next(Next(s, Prepare(id, Reserving(r))), OpenBranch(id, !s.branch)), Commit(id));
      && after.log == s.log + [Entry(Reserving(r), Reserved(Content(s.file), r).plan)]
      && after.branch && after.file == Some(Reserved(Content(s.file), r).next) && after.pending == s.pending
  {
    hide Reserved;
  }

  /** Two runs that come one after the other and ask for one stable release: both reserve its tag. */
  lemma StableTagReservedTwice() returns (steps: seq<Step>)
    ensures 1 in LedgerAfter(steps).plans && 2 in LedgerAfter(steps).plans
    ensures LedgerAfter(steps).plans[1].plan.TagOf() == LedgerAfter(steps).plans[2].plan.TagOf()
  {
    hide After, Next, Reserved, Begun, Zeros;
    var first, second := Plain(Zeros(40), Zeros(64), 1), Plain(Zeros(40), Zeros(64), 2);
    AfterNothing();
    PlainIsGranted(EMPTY, Zeros(40), Zeros(64), 1);
    ReservingAdds(EMPTY, first);
    FreshRunReserves(NEW, 0, first);
    var one := [Prepare(0, Reserving(first)), OpenBranch(0, true), Commit(0)];
    ThreeMore([], Prepare(0, Reserving(first)), OpenBranch(0, true), Commit(0));
    assert [] + one == one;
    var s := After(one);
    LedgersAreReadable(one);
    PlainIsGranted(Content(s.file), Zeros(40), Zeros(64), 2);
    ReservingAdds(Content(s.file), second);
    FreshRunReserves(s, 0, second);
    steps := one + [Prepare(0, Reserving(second)), OpenBranch(0, false), Commit(0)];
    ThreeMore(one, Prepare(0, Reserving(second)), OpenBranch(0, false), Commit(0));
  }

  lemma SomeRunReserves(steps: seq<Step>) returns (more: seq<Step>)
    requires !Orphaned(After(steps)) && !UsedUp(After(steps))
    ensures ReservesLater(steps, more)
  {
    hide After, Next, Sound, Reserved, Begun, Ledger.Readable;
    var s := After(steps);
    LedgersAreReadable(steps);
    if s.file.None? && s.branch {
      AlwaysSound(steps);
      NobodyReadAFile(steps);
      var id := PendingReservation(s);
      more := [OpenBranch(id, false), Commit(id)];
      TwoMore(steps, OpenBranch(id, false), Commit(id));
      PendingRunReserves(s, id);
    } else {
      var id := Beyond(s.pending.Keys);
      var known: set<int> := Content(s.file).plans.Keys;
      var run := Beyond(known);
      assert run !in known;
      var r := Plain(Zeros(40), Zeros(64), run);
      CountersAreNatural(steps);
      PlainIsGranted(Content(s.file), Zeros(40), Zeros(64), run);
      more := [Prepare(id, Reserving(r)), OpenBranch(id, !s.branch), Commit(id)];
      ThreeMore(steps, Prepare(id, Reserving(r)), OpenBranch(id, !s.branch), Commit(id));
      FreshRunReserves(s, id, r);
    }
    assert After(steps + more).log[|s.log|].Reservation();
  }

  lemma CountersAreNatural(steps: seq<Step>)
    ensures 0 <= LedgerAfter(steps).counter
  {
    hide After;
    LedgersAreReadable(steps);
  }

  lemma PendingReservation(s: System) returns (id: int)
    requires Sound(s) && s.pending != map[] && forall id | id in s.pending :: s.pending[id].previous.None?
    ensures id in s.pending && s.pending[id].op.Reserving?
  {
    hide Agrees, Reserved, Begun;
    id := Pick(s.pending.Keys);
    if s.pending[id].op.Publishing? {
      NothingToPublish(s.pending[id].op.publication);
    }
  }

  /** With the numbers used up, a step adds no reservation and leaves them used up. */
  lemma UsedUpStep(s: System, step: Step)
    requires Sound(s) && UsedUp(s)
    ensures UsedUp(Next(s, step))
    ensures Next(s, step).log == s.log || exists e: Entry :: !e.Reservation() && Next(s, step).log == s.log + [e]
  {
    hide Agrees, Reserved, Begun, Ledger.Readable;
    StepOnlyAdds(s, step);
    if step.Commit? && step.id in s.pending && s.pending[step.id].open && s.branch
        && s.file == s.pending[step.id].previous {
      var p := s.pending[step.id];
      if p.op.Reserving? {
        UsedUpRefuses(Content(s.file), p.op.request);
      }
      assert Next(s, step).log == s.log + [Entry(p.op, p.plan)];
    }
  }

  lemma UsedUpRefuses(ledger: Ledger, r: Request)
    requires ledger.counter >= MAX_BUILD
    ensures !Reserved(ledger, r).Write?
  {
    if r.run in ledger.plans {
      RetriesNeverWrite(ledger, r);
    } else {
      NumbersRunOut(ledger, r);
    }
  }

  /** Orphaned or used up, it stays so, and nothing is reserved. */
  lemma {:induction false} StuckStays(steps: seq<Step>, more: seq<Step>)
    requires Orphaned(After(steps)) || UsedUp(After(steps))
    ensures Orphaned(After(steps + more)) || UsedUp(After(steps + more))
    ensures |After(steps).log| <= |After(steps + more).log| && !ReservesLater(steps, more)
  {
    hide Next, Sound, UsedUp, Orphaned;
    if more == [] {
      assert steps + more == steps;
    } else {
      var front, last := more[..|more| - 1], more[|more| - 1];
      assert (steps + more)[..|steps + more| - 1] == steps + front;
      StuckStays(steps, front);
      var s := After(steps + front);
      if Orphaned(s) {
        OrphanedBranchBlocks(s, last);
      } else {
        AlwaysSound(steps + front);
        UsedUpStep(s, last);
      }
      assert forall i | |After(steps).log| <= i < |s.log| :: !s.log[i].Reservation();
    }
  }

  /**
   * After any run of the system, no continuation accepts another reservation if and only if the branch is there
   * without its file and without a run under way, or the build numbers are used up.
   */
  lemma NothingReservedLaterExactly(steps: seq<Step>)
    ensures (forall more :: !ReservesLater(steps, more)) <==> Orphaned(After(steps)) || UsedUp(After(steps))
  {
    hide ReservesLater, Orphaned, UsedUp, After;
    if Orphaned(After(steps)) || UsedUp(After(steps)) {
      forall more ensures !ReservesLater(steps, more) {
        StuckStays(steps, more);
      }
    } else {
      var more := SomeRunReserves(steps);
    }
  }
}
