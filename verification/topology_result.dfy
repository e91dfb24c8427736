/** What an installation leaves on the system, file by file, and when it succeeds. */
module TopologyResult {
  import opened TopologyInstall
  import opened TopologyRollback
  import opened TopologyPlan
  import opened TopologyApply

  // ---- The steps of a plan ----------------------------------------------------------------------------------------

  /** File number k of a plan: launcher and log runner of each service, the registry, and a marker for each service. */
  function FileOf(plan: Plan, k: nat): Action
    requires k <= 3 * |plan.services|
  {
    var n, root := |plan.services|, plan.packageRoot;
    if k < 2 * n && k % 2 == 0
        then Write(root + ["service", plan.services[k / 2].name, "run"], plan.services[k / 2].run, 493)
    else if k < 2 * n then
      Write(root + ["service", plan.services[k / 2].name, "log", "run"], plan.services[k / 2].logRun, 493)
    else if k == 2 * n then Write(root + ["topology-services.json"], plan.registry, 384)
    else Write(root + ["service", plan.services[k - 2 * n - 1].name, ".topology-ready"], plan.marker, 384)
  }

  lemma {:induction false} LaunchersExactly(plan: Plan, n: nat, k: nat)
    requires n <= |plan.services| && k < 2 * n
    ensures |Launchers(plan, n)| == 2 * n && Launchers(plan, n)[k] == FileOf(plan, k)
  {
    if n > 1 {
      LaunchersExactly(plan, n - 1, if k < 2 * (n - 1) then k else 0);
    }
    var root, s := plan.packageRoot, plan.services[n - 1];
    assert (root + ["service", s.name]) + ["run"] == root + ["service", s.name, "run"];
    assert (root + ["service", s.name]) + ["log", "run"] == root + ["service", s.name, "log", "run"];
  }

  lemma FilesExactly(plan: Plan, k: nat)
    requires k <= 3 * |plan.services|
    ensures |FilesOf(plan)| == 3 * |plan.services| + 1 && FilesOf(plan)[k] == FileOf(plan, k)
  {
    hide Launchers;
    var n := |plan.services|;
    if n > 0 {
      LaunchersExactly(plan, n, if k < 2 * n then k else 0);
    } else {
      NoLaunchers(plan);
    }
    if k > 2 * n {
      var s := plan.services[k - 2 * n - 1];
      assert (plan.packageRoot + ["service", s.name]) + [".topology-ready"]
          == plan.packageRoot + ["service", s.name, ".topology-ready"];
    }
  }

  lemma NoLaunchers(plan: Plan)
    ensures Launchers(plan, 0) == []
  {
  }

  /** First the service root, then the log directories; after that each file, with its directory made sure of before. */
  lemma StepsExactly(plan: Plan, k: nat)
    requires k <= 3 * |plan.services|
    ensures
      var steps, n, i := ActionsOf(plan), |plan.services|, |plan.services| + 1 + 2 * k;
      && |steps| == n + 1 + 2 * (3 * n + 1)
      && steps[0] == Ensure(plan.serviceRoot)
      && (forall j | 0 <= j < n :: steps[1 + j] == Ensure(plan.logRoot + [plan.services[j].name]))
      && steps[i] == Ensure(FileOf(plan, k).path[..|FileOf(plan, k).path| - 1]) && steps[i + 1] == FileOf(plan, k)
  {
    hide ActionsOf, FileOf, FilesOf;
    RootStep(plan, 0);
    forall j | 0 <= j < |plan.services|
      ensures ActionsOf(plan)[1 + j] == Ensure(plan.logRoot + [plan.services[j].name])
    {
      RootStep(plan, j + 1);
    }
    FilesExactly(plan, k);
    FilePathIsLong(plan, k);
    PairsExactly(plan, k);
  }

  lemma FilePathIsLong(plan: Plan, k: nat)
    requires k <= 3 * |plan.services|
    ensures FileOf(plan, k).Write? && FileOf(plan, k).path != []
  {
  }

  lemma PairsExactly(plan: Plan, k: nat)
    requires k <= 3 * |plan.services|
    ensures
      var steps, i := ActionsOf(plan), |plan.services| + 1 + 2 * k;
      && i + 1 < |steps| && k < |FilesOf(plan)| && FilesOf(plan)[k].Write?
      && steps[i] == Ensure(Parent(FilesOf(plan)[k].path)) && steps[i + 1] == FilesOf(plan)[k]
  {
    hide FilesOf, WithParents, Parent;
    FilePaths(plan, k);
    forall j | 0 <= j < |FilesOf(plan)| ensures FilesOf(plan)[j].Write? {
      FilePaths(plan, j);
    }
    ParentsPair(FilesOf(plan), k);
  }

  // ---- What is there afterwards -----------------------------------------------------------------------------------

  predicate HasFile(nodes: Nodes, path: Path, text: string, mode: nat) {
    path in nodes && nodes[path] == File(text, mode)
  }

  /** Executable launchers and log runners, private registry and markers, with their whole texts. */
  ghost predicate AllInstalled(nodes: Nodes, plan: Plan) {
    && HasFile(nodes, plan.packageRoot + ["topology-services.json"], plan.registry, 384)
    && forall i | 0 <= i < |plan.services| :: ServiceInstalled(nodes, plan, plan.services[i])
  }

  predicate ServiceInstalled(nodes: Nodes, plan: Plan, s: Service) {
    && HasFile(nodes, plan.packageRoot + ["service", s.name, "run"], s.run, 493)
    && HasFile(nodes, plan.packageRoot + ["service", s.name, "log", "run"], s.logRun, 493)
    && HasFile(nodes, plan.packageRoot + ["service", s.name, ".topology-ready"], plan.marker, 384)
  }

  lemma CompleteExactly(nodes: Nodes, plan: Plan)
    requires Complete(nodes, FilesOf(plan))
    ensures AllInstalled(nodes, plan)
  {
    hide FilesOf;
    forall k: nat | k <= 3 * |plan.services|
      ensures HasFile(nodes, FileOf(plan, k).path, FileOf(plan, k).text, FileOf(plan, k).mode)
    {
      FilesExactly(plan, k);
      assert FilesOf(plan)[k].Write?;
    }
    var n := |plan.services|;
    assert FileOf(plan, 2 * n) == Write(plan.packageRoot + ["topology-services.json"], plan.registry, 384);
    forall i | 0 <= i < n ensures ServiceInstalled(nodes, plan, plan.services[i]) {
      assert (2 * i) / 2 == i && (2 * i + 1) / 2 == i;
      assert FileOf(plan, 2 * i).path == plan.packageRoot + ["service", plan.services[i].name, "run"];
      assert FileOf(plan, 2 * i + 1).path == plan.packageRoot + ["service", plan.services[i].name, "log", "run"];
      assert FileOf(plan, 2 * n + 1 + i).path
          == plan.packageRoot + ["service", plan.services[i].name, ".topology-ready"];
    }
  }

  /** Where a service is started from: a link that was there stays, a new one leads to the service's directory. */
  ghost predicate IsLinked(start: Nodes, after: Nodes, plan: Plan, s: Service) {
    var link := plan.serviceRoot + [s.name];
    && link in after
    && if link in start && start[link].Link? then after[link] == start[link]
       else after[link] == Link(plan.packageRoot + ["service", s.name])
  }

  /** A finished installation has every file, and links every service; an interrupted one has every file already. */
  lemma InstalledExactly(start: Nodes, plan: Plan, fails: Faults)
    requires DistinctNames(plan)
    ensures
      var (after, outcome) := Applied(start, plan, fails);
      && (outcome.Installed? || outcome.Interrupted? ==> AllInstalled(after, plan))
      && (outcome.Installed? ==> forall i | 0 <= i < |plan.services| :: IsLinked(start, after, plan, plan.services[i]))
  {
    hide Applied, FilesOf, Complete, AllInstalled;
    OutcomesMean(start, plan, fails);
    var (after, outcome) := Applied(start, plan, fails);
    if outcome.Installed? || outcome.Interrupted? {
      CompleteExactly(after, plan);
    }
    if outcome.Installed? {
      forall i | 0 <= i < |plan.services| ensures IsLinked(start, after, plan, plan.services[i]) {
        assert LeadsHome(start, after, plan, plan.services[i]);
      }
    }
  }

  // ---- One operation after the other --------------------------------------------------------------------------------

  /** A file is replaced as a whole, in a directory that is there, or the operation fails and nothing changes. */
  lemma WritesExactlyWhen(p: Progress, path: Path, text: string, mode: nat, fails: Faults)
    requires p.ok && path != []
    ensures
      var after, directory := Act(p, Write(path, text, mode), fails), path[..|path| - 1];
      var possible := (directory == [] || (directory in p.nodes && p.nodes[directory] == Directory))
          && (path in p.nodes ==> p.nodes[path].File?);
      && (after.ok <==> !fails(p.clock) && possible)
      && after.nodes == (if after.ok then p.nodes[path := File(text, mode)] else p.nodes)
      && after.written == p.written + [path] && after.directories == p.directories
  {
  }

  ghost predicate NoneFails(fails: Faults, since: nat, until: nat) {
    forall t: nat | since <= t < until :: !fails(t)
  }

  lemma {:induction false} LevelsNeedAll(nodes: Nodes, clock: nat, levels: seq<Path>, fails: Faults)
    ensures
      var made := MakeLevels(nodes, clock, levels, fails);
      && made.1 >= clock && (levels != [] ==> made.1 > clock)
      && (made.2 ==> NoneFails(fails, clock, made.1) && made.1 == clock + |levels|)
    decreases |levels|
  {
    if levels != [] && !fails(clock) && CanMake(nodes, levels[|levels| - 1]) {
      LevelsNeedAll(nodes[levels[|levels| - 1] := Directory], clock + 1, levels[..|levels| - 1], fails);
    }
  }

  lemma {:induction false} StepsNeedAll(start: Nodes, actions: seq<Action>, fails: Faults)
    ensures
      var p := ActAll(start, actions, fails);
      p.ok ==> p.clock >= |actions| && NoneFails(fails, 0, p.clock)
  {
    hide MakeLevels;
    if actions != [] {
      var front, a := actions[..|actions| - 1], actions[|actions| - 1];
      StepsNeedAll(start, front, fails);
      var p := ActAll(start, front, fails);
      LevelsNeedAll(p.nodes, p.clock, Missing(p.nodes, a.path), fails);
    }
  }

  lemma CountOfSteps(plan: Plan)
    ensures |ActionsOf(plan)| == 7 * |plan.services| + 3
  {
    StepsExactly(plan, 0);
  }

  /** An installation in which one of its first operations fails, one for each step, does not count as finished. */
  lemma FaultsAreNoticed(start: Nodes, plan: Plan, fails: Faults, t: nat)
    requires t < 7 * |plan.services| + 3 && fails(t)
    ensures !Applied(start, plan, fails).1.Installed? && !Applied(start, plan, fails).1.Interrupted?
  {
    hide ActionsOf, ActAll, Readable, Linked, RolledBack;
    CountOfSteps(plan);
    StepsNeedAll(start, ActionsOf(plan), fails);
  }

  /** A service that has no link gets one to its own directory, or the operation fails and nothing changes. */
  lemma LinksExactlyWhen(l: Linking, plan: Plan, s: Service, fails: Faults)
    requires l.ok
    ensures
      var after, link := LinkedOne(l, plan, s, fails), plan.serviceRoot + [s.name];
      var linked := link in l.nodes && l.nodes[link].Link?;
      var possible := link !in l.nodes
          && (plan.serviceRoot == [] || (plan.serviceRoot in l.nodes && l.nodes[plan.serviceRoot] == Directory));
      && (after.ok <==> linked || (!fails(l.clock) && possible))
      && after.nodes == (if after.ok && !linked then l.nodes[link := Link(plan.packageRoot + ["service", s.name])]
                         else l.nodes)
      && (after.created > l.created <==> after.ok && !linked)
  {
    assert Parent(plan.serviceRoot + [s.name]) == plan.serviceRoot;
  }

  // ---- How files are remembered -------------------------------------------------------------------------------------

  /** The same text with other line ends. */
  function Ended(text: string, end: string): string {
    if text == "" then "" else (if text[0] == '\n' then end else [text[0]]) + Ended(text[1..], end)
  }

  lemma EndedStarts(text: string, end: string)
    requires '\r' !in text && end == "\r"
    ensures Ended(text, end) == "" || Ended(text, end)[0] != '\n'
  {
  }

  /** Whatever its line ends, a file is remembered with line feeds. */
  lemma {:induction false} LineEndsExactly(text: string, end: string)
    requires '\r' !in text && (end == "\n" || end == "\r\n" || end == "\r")
    ensures Universal(Ended(text, end)) == text
  {
    if text != "" {
      LineEndsExactly(text[1..], end);
      var rest := Ended(text[1..], end);
      assert text == [text[0]] + text[1..];
      assert ([text[0]] + rest)[1..] == rest && ("\r" + rest)[1..] == rest && ("\r\n" + rest)[2..] == rest;
      if end == "\r" {
        EndedStarts(text[1..], end);
      }
    }
  }

  /** Of a file's mode the nine permission bits are remembered. */
  lemma ModesExactly(text: string, permissions: nat, higher: nat)
    requires permissions < 512
    ensures Remembered(File(text, permissions + 512 * higher)).mode == permissions
  {
    assert (permissions + 512 * higher) % 512 == permissions;
  }

  // ---- When it is refused, and when it succeeds --------------------------------------------------------------------

  /** The writes of a plan are those of its files. */
  lemma WritesExactly(plan: Plan, i: nat) returns (k: nat)
    requires i < |ActionsOf(plan)| && ActionsOf(plan)[i].Write?
    ensures k <= 3 * |plan.services| && ActionsOf(plan)[i] == FileOf(plan, k)
  {
    hide ActionsOf, FileOf;
    k := 0;
    if i <= |plan.services| {
      RootStep(plan, i);
    } else {
      k := LaterStep(plan, i);
      StepsExactly(plan, k);
    }
  }

  /** Refused, before anything is done, exactly when something that is no file stands where a file belongs. */
  lemma RefusedExactly(start: Nodes, plan: Plan, fails: Faults)
    ensures Applied(start, plan, fails).1.Refused?
       <==> exists k: nat | k <= 3 * |plan.services| ::
           FileOf(plan, k).path in start && !start[FileOf(plan, k).path].File?
  {
    hide FileOf, ActAll, RolledBack, Linked, ActionsOf;
    if Applied(start, plan, fails).1.Refused? {
      var i :| 0 <= i < |ActionsOf(plan)| && ActionsOf(plan)[i].Write? && ActionsOf(plan)[i].path in start
          && !start[ActionsOf(plan)[i].path].File?;
      var k := WritesExactly(plan, i);
    }
    if k: nat :| k <= 3 * |plan.services| && FileOf(plan, k).path in start && !start[FileOf(plan, k).path].File? {
      FilePathIsLong(plan, k);
      StepsExactly(plan, k);
      assert ActionsOf(plan)[|plan.services| + 1 + 2 * k + 1] == FileOf(plan, k);
    }
  }

  /** Nothing but directories stands on the way to a directory that the plan needs. */
  ghost predicate NothingInTheWay(start: Nodes, plan: Plan) {
    && Clear(start, plan.serviceRoot)
    && (forall i | 0 <= i < |plan.services| :: Clear(start, plan.logRoot + [plan.services[i].name]))
    && (forall k: nat | k <= 3 * |plan.services| :: Clear(start, Parent(FileOf(plan, k).path)))
  }

  /** The place of a link is free: nothing is there, and no file or directory of the plan goes there. */
  ghost predicate FreeForLink(start: Nodes, plan: Plan, link: Path) {
    && link !in start && !HasLevel(ActionsOf(plan), |ActionsOf(plan)|, link)
    && !WritesBefore(ActionsOf(plan), |ActionsOf(plan)|, link)
  }

  lemma ReachedByPlan(start: Nodes, plan: Plan)
    ensures Reached(start, ActionsOf(plan), |ActionsOf(plan)|) <==> NothingInTheWay(start, plan)
  {
    hide ActionsOf, FileOf, Clear;
    var steps, n := ActionsOf(plan), |plan.services|;
    StepsExactly(plan, 0);
    if NothingInTheWay(start, plan) {
      forall j | 0 <= j < |steps| && steps[j].Ensure? ensures Clear(start, steps[j].path) {
        if 0 < j <= n {
          assert steps[1 + (j - 1)] == Ensure(plan.logRoot + [plan.services[j - 1].name]);
        } else if j > n {
          var k := LaterStep(plan, j);
          StepsExactly(plan, k);
          FilePathIsLong(plan, k);
          assert Clear(start, Parent(FileOf(plan, k).path));
        }
      }
    }
    if Reached(start, steps, |steps|) {
      forall i | 0 <= i < n ensures Clear(start, plan.logRoot + [plan.services[i].name]) {
        assert steps[1 + i] == Ensure(plan.logRoot + [plan.services[i].name]);
      }
      forall k: nat | k <= 3 * n ensures Clear(start, Parent(FileOf(plan, k).path)) {
        StepsExactly(plan, k);
        FilePathIsLong(plan, k);
        assert steps[n + 1 + 2 * k].Ensure?;
      }
    }
  }

  lemma {:induction false} LinksAreMade(l: Linking, plan: Plan, n: nat)
    requires n <= |plan.services| && DistinctNames(plan) && l.ok && IsDirectory(l.nodes, plan.serviceRoot)
    requires forall i | 0 <= i < |plan.services| ::
               HasLink(l.nodes, LinkOf(plan, plan.services[i])) || LinkOf(plan, plan.services[i]) !in l.nodes
    ensures Linked(l, plan, n, NoFaults()).ok
    ensures IsDirectory(Linked(l, plan, n, NoFaults()).nodes, plan.serviceRoot)
    ensures forall i | n <= i < |plan.services| ::
              var link := LinkOf(plan, plan.services[i]);
              HasLink(Linked(l, plan, n, NoFaults()).nodes, link) || link !in Linked(l, plan, n, NoFaults()).nodes
  {
    hide HasLink;
    if n > 0 {
      LinksAreMade(l, plan, n - 1);
      NextLinkIsMade(Linked(l, plan, n - 1, NoFaults()), plan, n - 1);
    }
  }

  lemma NextLinkIsMade(l: Linking, plan: Plan, n: nat)
    requires n < |plan.services| && DistinctNames(plan) && l.ok && IsDirectory(l.nodes, plan.serviceRoot)
    requires forall i | n <= i < |plan.services| ::
               HasLink(l.nodes, LinkOf(plan, plan.services[i])) || LinkOf(plan, plan.services[i]) !in l.nodes
    ensures
      var after := LinkedOne(l, plan, plan.services[n], NoFaults());
      && after.ok && IsDirectory(after.nodes, plan.serviceRoot)
      && forall i | n < i < |plan.services| ::
           HasLink(after.nodes, LinkOf(plan, plan.services[i])) || LinkOf(plan, plan.services[i]) !in after.nodes
  {
    var link := LinkOf(plan, plan.services[n]);
    assert Parent(link) == plan.serviceRoot && link != plan.serviceRoot;
    forall i | n < i < |plan.services| ensures LinkOf(plan, plan.services[i]) != link {
      assert LinkOf(plan, plan.services[i])[|plan.serviceRoot|] == plan.services[i].name;
    }
  }

  /** Without faults an installation succeeds where nothing is in its way and every link is there or has its place. */
  lemma InstallsWithoutFaults(start: Nodes, plan: Plan)
    requires DistinctNames(plan) && Sound(start, ActionsOf(plan)) && NothingInTheWay(start, plan)
    requires forall i | 0 <= i < |plan.services| ::
               var link := plan.serviceRoot + [plan.services[i].name];
               HasLink(start, link) || FreeForLink(start, plan, link)
    ensures Applied(start, plan, NoFaults()).1.Installed?
  {
    hide ActionsOf, ActAll, NothingInTheWay, Sound, WritesBefore, Linked, RolledBack;
    var steps := ActionsOf(plan);
    PlanIsSupported(plan);
    ReachedByPlan(start, plan);
    ReachedExactly(start, steps, |steps|);
    assert steps[..|steps|] == steps;
    var p := ActAll(start, steps, NoFaults());
    StepsExactly(plan, 0);
    assert HasLevel(steps, |steps|, plan.serviceRoot);
    forall i | 0 <= i < |plan.services|
      ensures HasLink(p.nodes, LinkOf(plan, plan.services[i])) || LinkOf(plan, plan.services[i]) !in p.nodes
    {
      LinksStay(start, steps, NoFaults(), LinkOf(plan, plan.services[i]));
    }
    LinksAreMade(Linking(p.nodes, p.clock, 0, true), plan, |plan.services|);
    assert Readable(start, steps) by {
      SoundIsReadable(start, steps);
    }
  }

  lemma SoundIsReadable(start: Nodes, actions: seq<Action>)
    requires Sound(start, actions)
    ensures Readable(start, actions)
  {
  }
}
