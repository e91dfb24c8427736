/** The installation itself: every launcher, registry and marker is written before the first link, or all is undone. */
module TopologyApply {
  import opened Prelude
  import opened TopologyInstall
  import opened TopologyRollback
  import opened TopologyPlan

  // ---- The links and the outcome ------------------------------------------------------------------------------------

  /** How far the links have come. */
  datatype Linking = Linking(nodes: Nodes, clock: nat, created: nat, ok: bool)

  predicate HasLink(nodes: Nodes, path: Path) {
    path in nodes && nodes[path].Link?
  }

  /** One link for each of the first n services that has none, up to the first failure. */
  function Linked(l: Linking, plan: Plan, n: nat, fails: Faults): Linking
    requires n <= |plan.services|
  {
    if n == 0 then l else LinkedOne(Linked(l, plan, n - 1, fails), plan, plan.services[n - 1], fails)
  }

  function LinkedOne(l: Linking, plan: Plan, s: Service, fails: Faults): Linking {
    if !l.ok || HasLink(l.nodes, LinkOf(plan, s)) then l
    else if fails(l.clock) || !CanMake(l.nodes, LinkOf(plan, s)) then l.(clock := l.clock + 1, ok := false)
    else Linking(l.nodes[LinkOf(plan, s) := Link(ServiceDirectory(plan, s))], l.clock + 1, l.created + 1, true)
  }

  datatype Outcome = Installed | Interrupted | Undone | Refused

  /** apply_plan: what is left on the system, and how the call ends. */
  function Applied(start: Nodes, plan: Plan, fails: Faults): (Nodes, Outcome) {
    if !Readable(start, ActionsOf(plan)) then (start, Refused)
    else
      var p := ActAll(start, ActionsOf(plan), fails);
      if !p.ok then (RolledBack(p, start), Undone)
      else
        var l := Linked(Linking(p.nodes, p.clock, 0, true), plan, |plan.services|, fails);
        if l.ok then (l.nodes, Installed)
        else if l.created > 0 then (l.nodes, Interrupted)
        else (RolledBack(p, start), Undone)
  }

  /**
   * Where a service's link leads once it is there: a link found is kept, a new one leads to the service's directory.
   */
  ghost predicate LeadsHome(before: Nodes, after: Nodes, plan: Plan, s: Service) {
    && LinkOf(plan, s) in after
    && after[LinkOf(plan, s)] == if HasLink(before, LinkOf(plan, s)) then before[LinkOf(plan, s)]
        else Link(ServiceDirectory(plan, s))
  }

  ghost predicate IsServiceLink(plan: Plan, n: nat, path: Path)
    requires n <= |plan.services|
  {
    exists i | 0 <= i < n :: LinkOf(plan, plan.services[i]) == path
  }

  ghost predicate Grown(before: Nodes, after: Nodes) {
    exists path :: path in after && path !in before
  }

  ghost predicate LinksAdded(before: Nodes, l: Linking, plan: Plan, n: nat)
    requires n <= |plan.services|
  {
    && (forall path | path in before :: path in l.nodes && l.nodes[path] == before[path])
    && (forall path | path in l.nodes && path !in before :: IsServiceLink(plan, n, path) && l.nodes[path].Link?)
    && (l.ok ==> forall i | 0 <= i < n :: LeadsHome(before, l.nodes, plan, plan.services[i]))
    && (l.created == 0 ==> l.nodes == before) && (l.created > 0 ==> Grown(before, l.nodes))
  }

  /** Linking only adds links; when it succeeds every service has its own, and without a new link nothing changed. */
  lemma {:induction false} LinkingAddsLinks(start: Linking, plan: Plan, n: nat, fails: Faults)
    requires n <= |plan.services| && start.ok && start.created == 0 && DistinctNames(plan)
    ensures LinksAdded(start.nodes, Linked(start, plan, n, fails), plan, n)
  {
    hide LinksAdded, LinkedOne;
    if n == 0 {
      NoLinksYet(start, plan);
    } else {
      LinkingAddsLinks(start, plan, n - 1, fails);
      OneLinkMore(start.nodes, Linked(start, plan, n - 1, fails), plan, n - 1, fails);
    }
  }

  lemma NoLinksYet(start: Linking, plan: Plan)
    requires start.created == 0
    ensures LinksAdded(start.nodes, start, plan, 0)
  {
  }

  lemma OneLinkMore(before: Nodes, l: Linking, plan: Plan, n: nat, fails: Faults)
    requires n < |plan.services| && DistinctNames(plan) && LinksAdded(before, l, plan, n)
    ensures LinksAdded(before, LinkedOne(l, plan, plan.services[n], fails), plan, n + 1)
  {
    hide DistinctNames, IsServiceLink, LinkOf, ServiceDirectory, Grown;
    var s, after := plan.services[n], LinkedOne(l, plan, plan.services[n], fails);
    ServiceLinks(plan, n);
    if after.nodes != l.nodes {
      IsGrown(before, after.nodes, LinkOf(plan, s));
    }
  }

  lemma IsGrown(before: Nodes, after: Nodes, path: Path)
    requires path in after && path !in before
    ensures Grown(before, after)
  {
  }

  /** The links of different services are different. */
  lemma ServiceLinks(plan: Plan, n: nat)
    requires n < |plan.services| && DistinctNames(plan)
    ensures IsServiceLink(plan, n + 1, LinkOf(plan, plan.services[n]))
    ensures !IsServiceLink(plan, n, LinkOf(plan, plan.services[n]))
    ensures forall path | IsServiceLink(plan, n, path) :: IsServiceLink(plan, n + 1, path)
    ensures forall i | 0 <= i < n :: LinkOf(plan, plan.services[i]) != LinkOf(plan, plan.services[n])
  {
    forall i | 0 <= i < n ensures LinkOf(plan, plan.services[i]) != LinkOf(plan, plan.services[n]) {
      assert LinkOf(plan, plan.services[i])[|plan.serviceRoot|] != LinkOf(plan, plan.services[n])[|plan.serviceRoot|];
    }
  }

  // ---- The installer ------------------------------------------------------------------------------------------------

  /** The persistent file system; its history records every state that an interruption could leave. */
  class FileSystem {
    const fails: Faults
    var nodes: Nodes
    var clock: nat
    ghost var history: seq<Nodes>

    constructor (nodes: Nodes, fails: Faults)
      ensures this.nodes == nodes && this.fails == fails && clock == 0 && history == []
    {
      this.nodes := nodes;
      this.fails := fails;
      clock := 0;
      history := [];
    }

    method MakeDirectory(path: Path) returns (ok: bool)
      modifies this
      ensures ok <==> !fails(old(clock)) && CanMake(old(nodes), path)
      ensures nodes == if ok then old(nodes)[path := Directory] else old(nodes)
      ensures clock == old(clock) + 1 && history == old(history) + [nodes]
    {
      ok := !fails(clock) && CanMake(nodes, path);
      if ok {
        nodes := nodes[path := Directory];
      }
      clock, history := clock + 1, history + [nodes];
    }

    /** _atomic_text */
    method WriteFile(path: Path, text: string, mode: nat) returns (ok: bool)
      modifies this
      ensures ok <==> !fails(old(clock)) && CanWrite(old(nodes), path)
      ensures nodes == if ok then old(nodes)[path := File(text, mode)] else old(nodes)
      ensures clock == old(clock) + 1 && history == old(history) + [nodes]
    {
      ok := !fails(clock) && CanWrite(nodes, path);
      if ok {
        nodes := nodes[path := File(text, mode)];
      }
      clock, history := clock + 1, history + [nodes];
    }

    method MakeLink(path: Path, target: Path) returns (ok: bool)
      modifies this
      ensures ok <==> !fails(old(clock)) && CanMake(old(nodes), path)
      ensures nodes == if ok then old(nodes)[path := Link(target)] else old(nodes)
      ensures clock == old(clock) + 1 && history == old(history) + [nodes]
    {
      ok := !fails(clock) && CanMake(nodes, path);
      if ok {
        nodes := nodes[path := Link(target)];
      }
      clock, history := clock + 1, history + [nodes];
    }

    /** ensure_directory: walk up to the first level that exists, then make the missing ones from the outside in. */
    method EnsureDirectory(path: Path, ghost p: Progress) returns (ok: bool, made: seq<Path>)
      requires p.nodes == nodes && p.clock == clock
      modifies this
      ensures Ensured(p, path, fails)
          == p.(nodes := nodes, clock := clock, ok := ok, directories := p.directories + made)
      ensures old(history) <= history && forall k | |old(history)| <= k < |history| :: NoNewLink(old(nodes), history[k])
    {
      hide NoNewLink;
      var missing: seq<Path> := [];
      var current := path;
      while !Exists(nodes, current)
        invariant Missing(nodes, path) == missing + Missing(nodes, current)
        decreases |current|
      {
        assert missing + ([current] + Missing(nodes, Parent(current)))
            == (missing + [current]) + Missing(nodes, Parent(current));
        missing, current := missing + [current], Parent(current);
      }
      assert Missing(nodes, current) == [] && missing + [] == missing;
      made := [];
      assert p.directories + [] == p.directories;
      NothingNew(nodes);
      if missing == [] {
        ok := !fails(clock) && IsDirectory(nodes, path);
        clock, history := clock + 1, history + [nodes];
        return;
      }
      ok := MakeMissing(missing);
      if ok {
        made := Reversed(missing);
      }
    }

    method MakeMissing(levels: seq<Path>) returns (ok: bool)
      modifies this
      ensures MakeLevels(old(nodes), old(clock), levels, fails) == (nodes, clock, ok)
      ensures old(history) <= history && forall k | |old(history)| <= k < |history| :: NoNewLink(old(nodes), history[k])
    {
      hide NoNewLink;
      NothingNew(nodes);
      var n := |levels|;
      ok := true;
      assert levels[..n] == levels;
      while n > 0
        invariant 0 <= n <= |levels|
        invariant MakeLevels(nodes, clock, levels[..n], fails) == MakeLevels(old(nodes), old(clock), levels, fails)
        invariant old(history) <= history && forall k | |old(history)| <= k < |history| ::
            NoNewLink(old(nodes), history[k])
        invariant NoNewLink(old(nodes), nodes)
      {
        n := n - 1;
        assert levels[..n + 1][..n] == levels[..n];
        ghost var before := nodes;
        ok := MakeDirectory(levels[n]);
        DirectoryIsNoLink(old(nodes), before, levels[n]);
        if !ok {
          return;
        }
      }
    }

    /** All steps before the links, up to the first failure. */
    method RunActions(actions: seq<Action>) returns (ok: bool, written: seq<Path>, directories: seq<Path>)
      requires clock == 0
      modifies this
      ensures ActAll(old(nodes), actions, fails) == Progress(nodes, clock, written, directories, ok)
      ensures old(history) <= history && forall k | |old(history)| <= k < |history| :: NoNewLink(old(nodes), history[k])
    {
      hide NoNewLink, Ensured, MakeLevels, Missing;
      ok, written, directories := true, [], [];
      NothingNew(nodes);
      for n := 0 to |actions|
        invariant ok && ActAll(old(nodes), actions[..n], fails) == Progress(nodes, clock, written, directories, ok)
        invariant old(history) <= history && forall k | |old(history)| <= k < |history| ::
            NoNewLink(old(nodes), history[k])
        invariant NoNewLink(old(nodes), nodes)
      {
        assert actions[..n + 1][..n] == actions[..n];
        ghost var p := Progress(nodes, clock, written, directories, true);
        ghost var states := history;
        ok, written, directories := RunAction(actions[n], written, directories, p);
        LaterStatesHaveNoNewLink(old(nodes), p.nodes, states, history);
        ActIsQuiet(old(nodes), p, actions[n], fails);
        if !ok {
          FailureLasts(old(nodes), actions, n + 1, fails);
          return;
        }
      }
      assert actions[..|actions|] == actions;
    }

    method RunAction(a: Action, written: seq<Path>, directories: seq<Path>, ghost p: Progress)
      returns (ok: bool, nowWritten: seq<Path>, nowDirectories: seq<Path>)
      requires p == Progress(nodes, clock, written, directories, true)
      modifies this
      ensures Act(p, a, fails) == Progress(nodes, clock, nowWritten, nowDirectories, ok)
      ensures old(history) <= history && forall k | |old(history)| <= k < |history| :: NoNewLink(old(nodes), history[k])
    {
      hide NoNewLink, Ensured;
      nowWritten, nowDirectories := written, directories;
      match a {
        case Ensure(path) =>
          var made: seq<Path>;
          ok, made := EnsureDirectory(path, p);
          nowDirectories := directories + made;
        case Write(path, text, mode) =>
          nowWritten := written + [path];
          ok := WriteFile(path, text, mode);
          FileIsNoLink(old(nodes), path, text, mode);
      }
    }

    /** Write back or remove the written files, from the last to the first. */
    method RollbackFiles(written: seq<Path>, previous: Nodes, ghost start: Nodes)
      requires NoNewLink(start, nodes) && forall path | path in previous :: previous[path].File?
      modifies this
      ensures nodes == UndoFiles(old(nodes), written, previous) && NoNewLink(start, nodes)
      ensures old(history) <= history && forall k | |old(history)| <= k < |history| :: NoNewLink(start, history[k])
    {
      hide NoNewLink;
      var n := |written|;
      assert written[..n] == written;
      while n > 0
        invariant 0 <= n <= |written|
            && UndoFiles(nodes, written[..n], previous) == UndoFiles(old(nodes), written, previous)
        invariant old(history) <= history && forall k | |old(history)| <= k < |history| :: NoNewLink(start, history[k])
        invariant NoNewLink(start, nodes)
      {
        n := n - 1;
        assert written[..n + 1][..n] == written[..n];
        UndoIsQuiet(start, nodes, written[n], previous);
        nodes := if written[n] in previous then nodes[written[n] := previous[written[n]]] else nodes - {written[n]};
        history := history + [nodes];
      }
    }

    /** Remove the made directories, from the last to the first, as long as they are empty. */
    method RollbackDirectories(directories: seq<Path>, ghost start: Nodes)
      requires NoNewLink(start, nodes)
      modifies this
      ensures nodes == UndoDirectories(old(nodes), directories)
      ensures old(history) <= history && forall k | |old(history)| <= k < |history| :: NoNewLink(start, history[k])
    {
      hide NoNewLink, IsEmptyDirectory;
      var n := |directories|;
      assert directories[..n] == directories;
      while n > 0 && IsEmptyDirectory(nodes, directories[n - 1])
        invariant 0 <= n <= |directories|
            && UndoDirectories(nodes, directories[..n]) == UndoDirectories(old(nodes), directories)
        invariant old(history) <= history && forall k | |old(history)| <= k < |history| :: NoNewLink(start, history[k])
        invariant NoNewLink(start, nodes)
      {
        n := n - 1;
        assert directories[..n + 1][..n] == directories[..n];
        UndoIsQuiet(start, nodes, directories[n], map[]);
        nodes := nodes - {directories[n]};
        history := history + [nodes];
      }
    }

    method Rollback(written: seq<Path>, directories: seq<Path>, previous: Nodes, ghost start: Nodes)
      requires NoNewLink(start, nodes) && forall path | path in previous :: previous[path].File?
      modifies this
      ensures nodes == UndoDirectories(UndoFiles(old(nodes), written, previous), directories)
      ensures old(history) <= history && forall k | |old(history)| <= k < |history| :: NoNewLink(start, history[k])
    {
      hide NoNewLink, UndoFiles, UndoDirectories;
      RollbackFiles(written, previous, start);
      RollbackDirectories(directories, start);
    }

    method LinkService(plan: Plan, s: Service, ghost created: nat, ghost files: seq<Action>)
        returns (ok: bool, made: nat)
      requires Complete(nodes, files)
      modifies this
      ensures LinkedOne(Linking(old(nodes), old(clock), created, true), plan, s, fails)
          == Linking(nodes, clock, created + made, ok)
      ensures Complete(nodes, files)
      ensures history == old(history) || history == old(history) + [nodes]
    {
      hide Complete, CanMake, LinkOf, ServiceDirectory;
      ok, made := true, 0;
      var link := LinkOf(plan, s);
      if !HasLink(nodes, link) {
        LinkingKeepsFiles(nodes, link, ServiceDirectory(plan, s), files);
        ok := MakeLink(link, ServiceDirectory(plan, s));
        made := if ok then 1 else 0;
      }
    }

    /** One link for each service that has none; stops at the first failure. */
    method LinkServices(plan: Plan, ghost files: seq<Action>) returns (ok: bool, created: nat)
      requires Complete(nodes, files)
      modifies this
      ensures Linked(Linking(old(nodes), old(clock), 0, true), plan, |plan.services|, fails)
          == Linking(nodes, clock, created, ok)
      ensures old(history) <= history && forall k | |old(history)| <= k < |history| :: Complete(history[k], files)
    {
      hide Complete, LinkedOne;
      ghost var start := Linking(nodes, clock, 0, true);
      ok, created := true, 0;
      for n := 0 to |plan.services|
        invariant ok && Linked(start, plan, n, fails) == Linking(nodes, clock, created, ok) && Complete(nodes, files)
        invariant old(history) <= history && forall k | |old(history)| <= k < |history| :: Complete(history[k], files)
      {
        var made: nat;
        ok, made := LinkService(plan, plan.services[n], created, files);
        created := created + made;
        if !ok {
          LinkFailureLasts(start, plan, n + 1, |plan.services|, fails);
          return;
        }
      }
    }

    /**
     * apply_plan: no state that an interruption could leave shows a new link before every file of the plan is
     * complete; a failure before the first link is rolled back, a later one keeps everything.
     */
    method ApplyPlan(plan: Plan) returns (outcome: Outcome)
      requires DistinctNames(plan) && clock == 0 && history == []
      modifies this
      ensures (nodes, outcome) == Applied(old(nodes), plan, fails)
      ensures forall k | 0 <= k < |history| :: NoNewLink(old(nodes), history[k]) || Complete(history[k], FilesOf(plan))
    {
      hide NoNewLink, Complete, ActAll, FilesOf, Readable, ActionsOf, LinkOf, RolledBack, Linked;
      ghost var start := nodes;
      RolledBackInFull(ActAll(start, ActionsOf(plan), fails), start);
      var actions := ActionsOf(plan);
      if !Readable(nodes, actions) {
        return Refused;
      }
      var previous := Snapshot(nodes);
      var ok, written, directories := RunActions(actions);
      PlanIsComplete(start, plan, fails);
      if !ok {
        Rollback(written, directories, previous, start);
        return Undone;
      }
      ghost var linking := Linking(nodes, clock, 0, true);
      var created: nat;
      ok, created := LinkServices(plan, FilesOf(plan));
      LinkingAddsLinks(linking, plan, |plan.services|, fails);
      if ok {
        return Installed;
      }
      if created > 0 {
        return Interrupted;
      }
      assert nodes == linking.nodes;
      Rollback(written, directories, previous, start);
      return Undone;
    }
  }

  lemma {:induction false} LinkFailureLasts(start: Linking, plan: Plan, m: nat, n: nat, fails: Faults)
    requires m <= n <= |plan.services| && !Linked(start, plan, m, fails).ok
    ensures Linked(start, plan, n, fails) == Linked(start, plan, m, fails)
  {
    if m < n {
      LinkFailureLasts(start, plan, m, n - 1, fails);
    }
  }

  // ---- What each outcome means --------------------------------------------------------------------------------------

  lemma {:induction false} LinksStay(start: Nodes, actions: seq<Action>, fails: Faults, path: Path)
    ensures HasLink(start, path)
        ==> path in ActAll(start, actions, fails).nodes && ActAll(start, actions, fails).nodes[path] == start[path]
  {
    hide Ensured;
    if actions != [] {
      LinksStay(start, actions[..|actions| - 1], fails, path);
      if HasLink(start, path) {
        LinkStays(ActAll(start, actions[..|actions| - 1], fails), actions[|actions| - 1], fails, path);
      }
    }
  }

  lemma LinkStays(p: Progress, a: Action, fails: Faults, path: Path)
    requires HasLink(p.nodes, path)
    ensures path in Act(p, a, fails).nodes && Act(p, a, fails).nodes[path] == p.nodes[path]
  {
    hide Ensured;
    ActKeeps(p, a, fails);
  }

  /** A new link, or a service without one. */
  ghost predicate SomeNewLink(start: Nodes, nodes: Nodes) {
    exists path :: path in nodes && nodes[path].Link? && !HasLink(start, path)
  }

  /**
   * Installed: every file is complete and every service has its link. Interrupted: every file is complete and a new
   * link stays. Undone or refused: no new link; everything is as it was where the rollback is exact.
   */
  lemma OutcomesMean(start: Nodes, plan: Plan, fails: Faults)
    requires DistinctNames(plan)
    ensures
      var (after, outcome) := Applied(start, plan, fails);
      && (outcome.Installed? || outcome.Interrupted? ==> Complete(after, FilesOf(plan)))
      && (outcome.Installed? ==> forall i | 0 <= i < |plan.services| :: LeadsHome(start, after, plan, plan.services[i]))
      && (outcome.Interrupted? ==> SomeNewLink(start, after))
      && (outcome.Refused? ==> after == start)
      && (&& outcome.Undone? && Sound(start, ActionsOf(plan)) && OneLevelEach(start, ActionsOf(plan))
          && FilesKept(start, ActionsOf(plan))
          ==> after == start)
  {
    hide ActAll, FilesOf, Complete, NoNewLink, ActionsOf, RolledBack, Sound, OneLevelEach, FilesKept, Linked, Readable;
    hide SomeNewLink, LeadsHome, LinksAdded;
    var p := ActAll(start, ActionsOf(plan), fails);
    PlanIsComplete(start, plan, fails);
    ExactWhenSound(start, plan, fails);
    if p.ok {
      var l := Linked(Linking(p.nodes, p.clock, 0, true), plan, |plan.services|, fails);
      LinkingAddsLinks(Linking(p.nodes, p.clock, 0, true), plan, |plan.services|, fails);
      CompleteStays(p.nodes, l, plan);
      forall path ensures HasLink(start, path) ==> HasLink(p.nodes, path) && p.nodes[path] == start[path] {
        LinksStay(start, ActionsOf(plan), fails, path);
      }
      NewLinksShow(start, p.nodes, l, plan);
    }
  }

  lemma CompleteStays(before: Nodes, l: Linking, plan: Plan)
    requires LinksAdded(before, l, plan, |plan.services|) && Complete(before, FilesOf(plan))
    ensures Complete(l.nodes, FilesOf(plan))
  {
    hide FilesOf;
  }

  lemma NewLinksShow(start: Nodes, before: Nodes, l: Linking, plan: Plan)
    requires LinksAdded(before, l, plan, |plan.services|) && NoNewLink(start, before)
    requires forall path | HasLink(start, path) :: HasLink(before, path) && before[path] == start[path]
    ensures l.created > 0 ==> SomeNewLink(start, l.nodes)
    ensures l.ok ==> forall i | 0 <= i < |plan.services| :: LeadsHome(start, l.nodes, plan, plan.services[i])
  {
    if l.created > 0 {
      var path :| path in l.nodes && path !in before;
      assert l.nodes[path].Link? && !HasLink(start, path);
    }
  }

  lemma ExactWhenSound(start: Nodes, plan: Plan, fails: Faults)
    ensures Sound(start, ActionsOf(plan)) && OneLevelEach(start, ActionsOf(plan)) && FilesKept(start, ActionsOf(plan))
            ==> RolledBack(ActAll(start, ActionsOf(plan), fails), start) == start
  {
    hide ActAll, OneLevelEach, FilesKept, RolledBack, Sound, ActionsOf, Supported;
    if Sound(start, ActionsOf(plan)) && OneLevelEach(start, ActionsOf(plan)) && FilesKept(start, ActionsOf(plan)) {
      PlanIsSupported(plan);
      AlwaysRestores(start, ActionsOf(plan), fails);
    }
  }

  lemma RolledBackInFull(p: Progress, start: Nodes)
    ensures RolledBack(p, start) == UndoDirectories(UndoFiles(p.nodes, p.written, Snapshot(start)), p.directories)
  {
  }

  lemma NothingNew(nodes: Nodes)
    ensures NoNewLink(nodes, nodes)
  {
  }

  lemma DirectoryIsNoLink(start: Nodes, nodes: Nodes, path: Path)
    requires NoNewLink(start, nodes)
    ensures NoNewLink(start, nodes[path := Directory])
  {
  }

  lemma FileIsNoLink(nodes: Nodes, path: Path, text: string, mode: nat)
    ensures NoNewLink(nodes, nodes) && NoNewLink(nodes, nodes[path := File(text, mode)])
  {
  }

  lemma ActIsQuiet(start: Nodes, p: Progress, a: Action, fails: Faults)
    requires NoNewLink(start, p.nodes)
    ensures NoNewLink(start, Act(p, a, fails).nodes)
  {
    hide Act;
    ActKeeps(p, a, fails);
  }

  lemma LaterStatesHaveNoNewLink(start: Nodes, nodes: Nodes, before: seq<Nodes>, after: seq<Nodes>)
    requires NoNewLink(start, nodes) && before <= after
    requires forall k | |before| <= k < |after| :: NoNewLink(nodes, after[k])
    ensures forall k | |before| <= k < |after| :: NoNewLink(start, after[k])
  {
    forall k | |before| <= k < |after| ensures NoNewLink(start, after[k]) {
      assert NoNewLink(nodes, after[k]);
    }
  }

  lemma UndoIsQuiet(start: Nodes, nodes: Nodes, path: Path, previous: Nodes)
    requires NoNewLink(start, nodes) && forall file | file in previous :: previous[file].File?
    ensures path in previous ==> NoNewLink(start, nodes[path := previous[path]])
    ensures NoNewLink(start, nodes - {path})
  {
  }

  lemma LinkingKeepsFiles(nodes: Nodes, link: Path, target: Path, files: seq<Action>)
    requires Complete(nodes, files)
    ensures CanMake(nodes, link) ==> Complete(nodes[link := Link(target)], files)
  {
  }
}
