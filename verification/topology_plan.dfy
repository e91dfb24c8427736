/** The files of an installation plan in the order of apply_plan, and when undoing them is exact. */
module TopologyPlan {
  import opened TopologyInstall
  import opened TopologyRollback

  datatype Service = Service(name: string, run: string, logRun: string)

  datatype Plan = Plan(packageRoot: Path, serviceRoot: Path, logRoot: Path, services: seq<Service>, registry: string,
      marker: string)

  const EXECUTABLE := 493 // 0o755
  const PRIVATE := 384 // 0o600

  function ServiceDirectory(plan: Plan, s: Service): Path {
    plan.packageRoot + ["service", s.name]
  }

  function Launchers(plan: Plan, n: nat): seq<Action>
    requires n <= |plan.services|
  {
    if n == 0 then []
    else
      var s := plan.services[n - 1];
      Launchers(plan, n - 1)
      + [Write(ServiceDirectory(plan, s) + ["run"], s.run, EXECUTABLE),
          Write(ServiceDirectory(plan, s) + ["log", "run"], s.logRun, EXECUTABLE)]
  }

  function Registry(plan: Plan): Action {
    Write(plan.packageRoot + ["topology-services.json"], plan.registry, PRIVATE)
  }

  function Markers(plan: Plan): seq<Action> {
    seq(|plan.services|, i requires 0 <= i < |plan.services| =>
      Write(ServiceDirectory(plan, plan.services[i]) + [".topology-ready"], plan.marker, PRIVATE))
  }

  /** All launchers and log runners, then the registry, then the ready markers. */
  function FilesOf(plan: Plan): seq<Action> {
    Launchers(plan, |plan.services|) + [Registry(plan)] + Markers(plan)
  }

  function WithParents(files: seq<Action>): seq<Action> {
    if files == [] then []
    else WithParents(files[..|files| - 1]) + [Ensure(Parent(files[|files| - 1].path)), files[|files| - 1]]
  }

  function Directories(plan: Plan): seq<Action> {
    [Ensure(plan.serviceRoot)]
        + seq(|plan.services|, i requires 0 <= i < |plan.services| => Ensure(plan.logRoot + [plan.services[i].name]))
  }

  function ActionsOf(plan: Plan): seq<Action> {
    Directories(plan) + WithParents(FilesOf(plan))
  }

  function LinkOf(plan: Plan, s: Service): Path {
    plan.serviceRoot + [s.name]
  }

  // ---- Completeness and links -----------------------------------------------------------------------------------

  /** The file is there with its whole text and its mode. */
  predicate Holds(nodes: Nodes, a: Action)
    requires a.Write?
  {
    a.path in nodes && nodes[a.path] == File(a.text, a.mode)
  }

  ghost predicate Complete(nodes: Nodes, files: seq<Action>) {
    forall i | 0 <= i < |files| && files[i].Write? :: Holds(nodes, files[i])
  }

  /** Every link was there before, leading where it leads now. */
  ghost predicate NoNewLink(start: Nodes, nodes: Nodes) {
    forall path | path in nodes && nodes[path].Link? :: path in start && start[path] == nodes[path]
  }

  ghost predicate DistinctWrites(actions: seq<Action>) {
    forall i, j | 0 <= i < j < |actions| && actions[i].Write? && actions[j].Write? :: actions[i].path != actions[j].path
  }

  lemma {:induction false} LevelsKeep(nodes: Nodes, clock: nat, levels: seq<Path>, fails: Faults)
    ensures
      var made := MakeLevels(nodes, clock, levels, fails).0;
      && (forall path | path in nodes :: path in made && made[path] == nodes[path])
      && (forall path | path in made && path !in nodes :: made[path].Directory?)
    decreases |levels|
  {
    if levels != [] && CanMake(nodes, levels[|levels| - 1]) {
      LevelsKeep(nodes[levels[|levels| - 1] := Directory], clock + 1, levels[..|levels| - 1], fails);
    }
  }

  lemma ActKeeps(p: Progress, a: Action, fails: Faults)
    ensures
      var after := Act(p, a, fails);
      && (forall path | path in p.nodes && (a.Ensure? || path != a.path) ::
          path in after.nodes && after.nodes[path] == p.nodes[path])
      && (forall path | path in after.nodes && path !in p.nodes :: !after.nodes[path].Link?)
      && (forall path | path in after.nodes && path in p.nodes && after.nodes[path].Link? ::
          after.nodes[path] == p.nodes[path])
      && (after.ok && a.Write? ==> Holds(after.nodes, a))
      && (after.ok ==> p.ok)
  {
    hide MakeLevels, Missing;
    if a.Ensure? {
      LevelsKeep(p.nodes, p.clock, Missing(p.nodes, a.path), fails);
    }
  }

  /** When all steps have succeeded every planned file is complete, and no link is new. */
  lemma {:induction false} SuccessIsComplete(start: Nodes, actions: seq<Action>, fails: Faults)
    requires DistinctWrites(actions)
    ensures NoNewLink(start, ActAll(start, actions, fails).nodes)
    ensures ActAll(start, actions, fails).ok ==> Complete(ActAll(start, actions, fails).nodes, actions)
  {
    hide Act;
    if actions != [] {
      var front, a := actions[..|actions| - 1], actions[|actions| - 1];
      SuccessIsComplete(start, front, fails);
      ActKeeps(ActAll(start, front, fails), a, fails);
    }
  }

  lemma {:induction false} ParentsKeepMembers(files: seq<Action>)
    ensures forall a | a in WithParents(files) && a.Write? :: a in files
  {
    if files != [] {
      ParentsKeepMembers(files[..|files| - 1]);
      assert files == files[..|files| - 1] + [files[|files| - 1]];
    }
  }

  lemma CompleteJoins(nodes: Nodes, front: seq<Action>, back: seq<Action>)
    ensures Complete(nodes, front + back) <==> Complete(nodes, front) && Complete(nodes, back)
  {
    var all := front + back;
    if Complete(nodes, all) {
      forall i | 0 <= i < |front| && front[i].Write? ensures Holds(nodes, front[i]) {
        assert all[i] == front[i];
      }
      forall i | 0 <= i < |back| && back[i].Write? ensures Holds(nodes, back[i]) {
        assert all[|front| + i] == back[i];
      }
    }
  }

  lemma {:induction false} ParentsKeepComplete(nodes: Nodes, files: seq<Action>)
    requires forall i | 0 <= i < |files| :: files[i].Write?
    ensures Complete(nodes, WithParents(files)) <==> Complete(nodes, files)
  {
    hide Holds;
    if files != [] {
      var front, last := files[..|files| - 1], files[|files| - 1];
      assert files == front + [last];
      ParentsKeepComplete(nodes, front);
      CompleteJoins(nodes, front, [last]);
      CompleteJoins(nodes, WithParents(front), [Ensure(Parent(last.path)), last]);
      CompleteJoins(nodes, [Ensure(Parent(last.path))], [last]);
      assert [Ensure(Parent(last.path)), last] == [Ensure(Parent(last.path))] + [last];
    }
  }

  lemma {:induction false} ParentsKeepDistinct(files: seq<Action>)
    requires DistinctWrites(files) && forall i | 0 <= i < |files| :: files[i].Write?
    ensures DistinctWrites(WithParents(files))
  {
    if files != [] {
      var front, last := files[..|files| - 1], files[|files| - 1];
      ParentsKeepDistinct(front);
      ParentsKeepMembers(front);
      var more := WithParents(front);
      forall i | 0 <= i < |more| && more[i].Write? ensures more[i].path != last.path {
        assert more[i] in front;
        var k :| 0 <= k < |front| && front[k] == more[i];
        assert files[k] == front[k];
      }
    }
  }

  // ---- The paths of a plan ------------------------------------------------------------------------------------------

  predicate DistinctNames(plan: Plan) {
    forall i, j | 0 <= i < j < |plan.services| :: plan.services[i].name != plan.services[j].name
  }

  /** The path of file number i below the package root. */
  function Below(plan: Plan, i: nat): Path
    requires i <= 3 * |plan.services|
  {
    var n := |plan.services|;
    if i < 2 * n then ["service", plan.services[i / 2].name] + (if i % 2 == 0 then ["run"] else ["log", "run"])
    else if i == 2 * n then ["topology-services.json"]
    else ["service", plan.services[i - 2 * n - 1].name, ".topology-ready"]
  }

  lemma {:induction false} LauncherPaths(plan: Plan, n: nat, i: nat)
    requires n <= |plan.services| && i < 2 * n
    ensures |Launchers(plan, n)| == 2 * n && Launchers(plan, n)[i].Write?
    ensures Launchers(plan, n)[i].path == plan.packageRoot + Below(plan, i)
  {
    if n > 1 {
      LauncherPaths(plan, n - 1, if i < 2 * (n - 1) then i else 0);
    }
    var root, s := plan.packageRoot, plan.services[n - 1];
    assert (root + ["service", s.name]) + ["run"] == root + (["service", s.name] + ["run"]);
    assert (root + ["service", s.name]) + ["log", "run"] == root + (["service", s.name] + ["log", "run"]);
  }

  lemma FilePaths(plan: Plan, i: nat)
    requires i <= 3 * |plan.services|
    ensures |FilesOf(plan)| == 3 * |plan.services| + 1 && FilesOf(plan)[i].Write?
    ensures FilesOf(plan)[i].path == plan.packageRoot + Below(plan, i)
  {
    var n := |plan.services|;
    if n > 0 {
      LauncherPaths(plan, n, if i < 2 * n then i else 0);
    }
    if i > 2 * n {
      var s := plan.services[i - 2 * n - 1];
      assert (plan.packageRoot + ["service", s.name]) + [".topology-ready"]
          == plan.packageRoot + ["service", s.name, ".topology-ready"];
    }
  }

  lemma BelowIsDistinct(plan: Plan, i: nat, j: nat)
    requires DistinctNames(plan) && i < j <= 3 * |plan.services|
    ensures Below(plan, i) != Below(plan, j)
  {
    var p, q := Below(plan, i), Below(plan, j);
    if |p| == |q| && |p| >= 3 {
      assert p[1] != q[1] || p[2] != q[2];
    }
  }

  lemma FilesAreDistinct(plan: Plan)
    requires DistinctNames(plan)
    ensures DistinctWrites(FilesOf(plan)) && forall i | 0 <= i < |FilesOf(plan)| :: FilesOf(plan)[i].Write?
  {
    hide FilesOf, Below;
    FilePaths(plan, 0);
    forall i | 0 <= i < |FilesOf(plan)| ensures FilesOf(plan)[i].Write? {
      FilePaths(plan, i);
    }
    forall i, j | 0 <= i < j < |FilesOf(plan)| ensures FilesOf(plan)[i].path != FilesOf(plan)[j].path {
      FilePaths(plan, i);
      FilePaths(plan, j);
      BelowIsDistinct(plan, i, j);
      SamePrefix(plan.packageRoot, Below(plan, i), Below(plan, j));
    }
  }

  lemma SamePrefix(root: Path, p: Path, q: Path)
    ensures root + p == root + q ==> p == q
  {
    assert (root + p)[|root|..] == p && (root + q)[|root|..] == q;
  }

  /** When all steps of a plan have succeeded, every launcher, log runner, marker and the registry is complete. */
  lemma PlanIsComplete(start: Nodes, plan: Plan, fails: Faults)
    requires DistinctNames(plan)
    ensures NoNewLink(start, ActAll(start, ActionsOf(plan), fails).nodes)
    ensures ActAll(start, ActionsOf(plan), fails).ok
        ==> Complete(ActAll(start, ActionsOf(plan), fails).nodes, FilesOf(plan))
  {
    hide ActAll, FilesOf, Complete, NoNewLink;
    FilesAreDistinct(plan);
    ParentsKeepDistinct(FilesOf(plan));
    DirectoriesWriteNothing(plan);
    SuccessIsComplete(start, ActionsOf(plan), fails);
    CompleteJoins(ActAll(start, ActionsOf(plan), fails).nodes, Directories(plan), WithParents(FilesOf(plan)));
    ParentsKeepComplete(ActAll(start, ActionsOf(plan), fails).nodes, FilesOf(plan));
  }

  lemma DirectoriesWriteNothing(plan: Plan)
    requires DistinctWrites(WithParents(FilesOf(plan)))
    ensures DistinctWrites(ActionsOf(plan))
  {
    hide FilesOf, WithParents;
  }

  // ---- When the rollback of a plan is exact -------------------------------------------------------------------------

  lemma {:induction false} ParentsSupport(files: seq<Action>)
    requires forall i | 0 <= i < |files| :: files[i].Write? && files[i].path != []
    ensures Supported(WithParents(files))
  {
    if files != [] {
      var front, last := files[..|files| - 1], files[|files| - 1];
      ParentsSupport(front);
      var before, all := WithParents(front), WithParents(files);
      assert all == before + [Ensure(Parent(last.path)), last];
      forall i | 0 <= i < |all| && all[i].Write? ensures all[i].path != [] && HasLevel(all, i, Parent(all[i].path)) {
        if i < |before| {
          assert all[i] == before[i];
          SameLevels(before, all, i, Parent(all[i].path));
        } else {
          assert all[|before|] == Ensure(Parent(last.path));
        }
      }
    }
  }

  lemma SameLevels(some: seq<Action>, more: seq<Action>, n: nat, d: Path)
    requires n <= |some| <= |more| && some == more[..|some|]
    ensures HasLevel(some, n, d) <==> HasLevel(more, n, d)
  {
    forall j | 0 <= j < n ensures some[j] == more[j] {
    }
  }

  lemma PlanIsSupported(plan: Plan)
    ensures Supported(ActionsOf(plan))
  {
    hide FilesOf, WithParents, Parent;
    var front, back := Directories(plan), WithParents(FilesOf(plan));
    forall i | 0 <= i < |FilesOf(plan)| ensures FilesOf(plan)[i].Write? && FilesOf(plan)[i].path != [] {
      FilePaths(plan, 0);
      FilePaths(plan, i);
    }
    ParentsSupport(FilesOf(plan));
    var all := front + back;
    forall i | 0 <= i < |all| && all[i].Write? ensures all[i].path != [] && HasLevel(all, i, Parent(all[i].path)) {
      assert all[i] == back[i - |front|];
      LevelsShift(front, back, i - |front|, Parent(all[i].path));
    }
  }

  lemma LevelsShift(front: seq<Action>, back: seq<Action>, n: nat, d: Path)
    requires n <= |back|
    ensures HasLevel(back, n, d) ==> HasLevel(front + back, |front| + n, d)
  {
    if HasLevel(back, n, d) {
      var j :| 0 <= j < n && back[j].Ensure? && d <= back[j].path;
      assert (front + back)[|front| + j] == back[j];
    }
  }

  /** The steps of the files come in pairs: the directory, then the file. */
  lemma {:induction false} ParentsPair(files: seq<Action>, k: nat)
    requires k < |files| && forall i | 0 <= i < |files| :: files[i].Write?
    ensures |WithParents(files)| == 2 * |files|
    ensures WithParents(files)[2 * k] == Ensure(Parent(files[k].path)) && WithParents(files)[2 * k + 1] == files[k]
  {
    hide Parent;
    var front := files[..|files| - 1];
    if front != [] {
      ParentsPair(front, if k < |front| then k else 0);
    }
  }

  /** The first steps of a plan: the service root, then the log directories. */
  lemma RootStep(plan: Plan, i: nat)
    requires i <= |plan.services|
    ensures |ActionsOf(plan)| == 1 + |plan.services| + 2 * (3 * |plan.services| + 1)
    ensures ActionsOf(plan)[i] == Ensure(RootOf(plan, i))
  {
    hide FilesOf, WithParents;
    FilePaths(plan, 0);
    forall k | 0 <= k < |FilesOf(plan)| ensures FilesOf(plan)[k].Write? {
      FilePaths(plan, k);
    }
    ParentsPair(FilesOf(plan), 0);
  }

  function RootOf(plan: Plan, i: nat): Path
    requires i <= |plan.services|
  {
    if i == 0 then plan.serviceRoot else plan.logRoot + [plan.services[i - 1].name]
  }

  /** The other steps come in pairs: a directory, and a file in it. */
  lemma FileStep(plan: Plan, k: nat)
    requires k <= 3 * |plan.services|
    ensures
      var i := |plan.services| + 1 + 2 * k;
      && i + 1 < |ActionsOf(plan)| && ActionsOf(plan)[i] == Ensure(Parent(plan.packageRoot + Below(plan, k)))
      && ActionsOf(plan)[i + 1].Write? && ActionsOf(plan)[i + 1].path == plan.packageRoot + Below(plan, k)
  {
    hide FilesOf, WithParents, Parent, Below;
    FilePaths(plan, 0);
    forall j | 0 <= j < |FilesOf(plan)| ensures FilesOf(plan)[j].Write? {
      FilePaths(plan, j);
    }
    FilePaths(plan, k);
    ParentsPair(FilesOf(plan), k);
  }

  lemma LaterStep(plan: Plan, i: nat) returns (k: nat)
    requires |plan.services| < i < |ActionsOf(plan)|
    ensures k <= 3 * |plan.services|
    ensures if ActionsOf(plan)[i].Ensure?
            then i == |plan.services| + 1 + 2 * k
                && ActionsOf(plan)[i].path == Parent(plan.packageRoot + Below(plan, k))
            else i == |plan.services| + 2 + 2 * k && ActionsOf(plan)[i].path == plan.packageRoot + Below(plan, k)
  {
    hide ActionsOf, Below, Parent;
    RootStep(plan, 0);
    k := (i - |plan.services| - 1) / 2;
    FileStep(plan, k);
  }

  /** No file of the plan lies on the way to the service root or to a log directory. */
  predicate RootsApart(plan: Plan) {
    && (forall k: nat | k <= 3 * |plan.services| :: !(plan.packageRoot + Below(plan, k) <= plan.serviceRoot))
    && (forall k: nat, i | k <= 3 * |plan.services| && 0 <= i < |plan.services| ::
          !(plan.packageRoot + Below(plan, k) <= plan.logRoot + [plan.services[i].name]))
  }

  lemma UnderOneRoot(root: Path, p: Path, q: Path)
    ensures root + p <= root + q ==> p <= q
  {
    if root + p <= root + q {
      assert (root + p)[|root|..] == p && (root + q)[|root|..] == q;
      forall i | 0 <= i < |p| ensures i < |q| && p[i] == q[i] {
        assert (root + p)[|root| + i] == (root + q)[|root| + i];
      }
    }
  }

  lemma BelowApart(plan: Plan, k: nat, k': nat)
    requires k <= 3 * |plan.services| && k' <= 3 * |plan.services|
    ensures !(plan.packageRoot + Below(plan, k) <= Parent(plan.packageRoot + Below(plan, k')))
  {
    var root, p, q := plan.packageRoot, Below(plan, k), Below(plan, k');
    var r := Parent(q);
    assert Parent(root + q) == root + r;
    UnderOneRoot(root, p, r);
    assert |p| == 3 && |r| >= 3 ==> p[2] != r[2];
    assert |p| == 1 && |r| >= 1 ==> p[0][0] != r[0][0];
  }

  lemma PlanIsSeparate(plan: Plan)
    requires RootsApart(plan)
    ensures Separate(ActionsOf(plan))
  {
    hide ActionsOf, Below, Parent, RootsApart, RootOf;
    var actions, n := ActionsOf(plan), |plan.services|;
    forall i, j | 0 <= i < |actions| && 0 <= j < |actions| && actions[i].Write? && actions[j].Ensure?
      ensures !(actions[i].path <= actions[j].path)
    {
      if i <= n {
        RootStep(plan, i);
      }
      var k := LaterStep(plan, i);
      if j > n {
        var k' := LaterStep(plan, j);
        BelowApart(plan, k, k');
      } else {
        RootStep(plan, j);
        RootApart(plan, k, j);
      }
    }
  }

  lemma RootApart(plan: Plan, k: nat, j: nat)
    requires RootsApart(plan) && k <= 3 * |plan.services| && j <= |plan.services|
    ensures !(plan.packageRoot + Below(plan, k) <= RootOf(plan, j))
  {
    hide Below;
  }

  /** There at the start, or a level of one of these directories. */
  predicate OnTheWay(start: Nodes, plan: Plan, n: nat, d: Path)
    requires n <= |plan.services|
  {
    Exists(start, d) || d <= plan.serviceRoot || exists i | 0 <= i < n :: d <= plan.logRoot + [plan.services[i].name]
  }

  /**
   * The parents of the service root, of the log directories and of the service directories are there when their turn
   * comes.
   */
  predicate HasRoom(start: Nodes, plan: Plan) {
    && Exists(start, Parent(plan.serviceRoot))
    && OnTheWay(start, plan, 0, plan.logRoot)
    && OnTheWay(start, plan, |plan.services|, plan.packageRoot + ["service"])
  }

  lemma LevelsOfRoots(start: Nodes, plan: Plan, n: nat, d: Path)
    requires n <= |plan.services|
    ensures n + 1 <= |ActionsOf(plan)|
    ensures Exists(start, d) || HasLevel(ActionsOf(plan), n + 1, d) <==> OnTheWay(start, plan, n, d)
  {
    hide ActionsOf, Exists;
    var actions := ActionsOf(plan);
    RootStep(plan, 0);
    forall i | 0 <= i <= n ensures actions[i] == Ensure(RootOf(plan, i)) {
      RootStep(plan, i);
    }
    if HasLevel(actions, n + 1, d) {
      var j :| 0 <= j < n + 1 && actions[j].Ensure? && d <= actions[j].path;
      if j > 0 {
        assert d <= plan.logRoot + [plan.services[j - 1].name];
      }
    }
    if i :| 0 <= i < n && d <= plan.logRoot + [plan.services[i].name] {
      assert actions[i + 1].Ensure? && d <= actions[i + 1].path;
    }
  }

  /** Where no directory is blocked, the condition on levels comes down to three parents. */
  lemma OneLevelOfPlan(start: Nodes, plan: Plan)
    requires plan.services != [] && Reached(start, ActionsOf(plan), |ActionsOf(plan)|)
    ensures OneLevelEach(start, ActionsOf(plan)) <==> HasRoom(start, plan)
  {
    hide ActionsOf, FilesOf, Exists;
    var actions, n := ActionsOf(plan), |plan.services|;
    RootStep(plan, 0);
    RootStep(plan, 1);
    FileStep(plan, 0);
    var service := plan.packageRoot + ["service"];
    FirstDirectory(plan);
    LevelsOfRoots(start, plan, 0, plan.logRoot);
    LevelsOfRoots(start, plan, n, service);
    assert Parent(plan.logRoot + [plan.services[0].name]) == plan.logRoot;
    if OneLevelEach(start, actions) {
      assert Reached(start, actions, 1) && Reached(start, actions, 2) && Reached(start, actions, n + 2);
      assert actions[0].Ensure? && actions[1].Ensure? && actions[n + 1].Ensure?;
    }
    if HasRoom(start, plan) {
      forall i | 0 <= i < |actions| && actions[i].Ensure?
        ensures Exists(start, Parent(actions[i].path)) || HasLevel(actions, i, Parent(actions[i].path))
      {
        RoomFor(start, plan, i);
      }
    }
  }

  lemma FirstDirectory(plan: Plan)
    requires plan.services != []
    ensures
      var d := Parent(plan.packageRoot + Below(plan, 0));
      && d == plan.packageRoot + ["service", plan.services[0].name] && Parent(d) == plan.packageRoot + ["service"]
      && plan.packageRoot + ["service"] <= d && Parent(plan.packageRoot) <= d
  {
  }

  lemma LevelAt(actions: seq<Action>, n: nat, j: nat, d: Path)
    requires j < n <= |actions| && actions[j].Ensure? && d <= actions[j].path
    ensures HasLevel(actions, n, d)
  {
  }

  lemma RoomFor(start: Nodes, plan: Plan, i: nat)
    requires plan.services != [] && HasRoom(start, plan) && i < |ActionsOf(plan)| && ActionsOf(plan)[i].Ensure?
    ensures Exists(start, Parent(ActionsOf(plan)[i].path))
        || HasLevel(ActionsOf(plan), i, Parent(ActionsOf(plan)[i].path))
  {
    hide ActionsOf, Exists, HasLevel, Below, Parent;
    if i == 0 {
      RootStep(plan, 0);
    } else if i <= |plan.services| {
      RoomForLog(start, plan, i);
    } else {
      var k := LaterStep(plan, i);
      RoomForFile(start, plan, k);
    }
  }

  lemma RoomForLog(start: Nodes, plan: Plan, i: nat)
    requires HasRoom(start, plan) && 1 <= i <= |plan.services|
    ensures i < |ActionsOf(plan)| && ActionsOf(plan)[i].Ensure?
    ensures Exists(start, Parent(ActionsOf(plan)[i].path))
        || HasLevel(ActionsOf(plan), i, Parent(ActionsOf(plan)[i].path))
  {
    hide ActionsOf, Exists, HasLevel;
    RootStep(plan, i);
    RootStep(plan, 1);
    assert Parent(ActionsOf(plan)[i].path) == plan.logRoot;
    LevelsOfRoots(start, plan, 0, plan.logRoot);
    if i > 1 {
      LevelAt(ActionsOf(plan), i, 1, plan.logRoot);
    }
  }

  lemma RoomForFile(start: Nodes, plan: Plan, k: nat)
    requires plan.services != [] && HasRoom(start, plan) && k <= 3 * |plan.services|
    ensures
      var i, d := |plan.services| + 1 + 2 * k, Parent(plan.packageRoot + Below(plan, k));
      i <= |ActionsOf(plan)| && (Exists(start, Parent(d)) || HasLevel(ActionsOf(plan), i, Parent(d)))
  {
    hide ActionsOf, Exists, HasLevel, Below, Parent;
    var n, d := |plan.services|, Parent(plan.packageRoot + Below(plan, k));
    var i := n + 1 + 2 * k;
    FileStep(plan, k);
    DirectoryOf(plan, k);
    if k < 2 * n && k % 2 == 1 {
      FileStep(plan, k - 1);
      DirectoryOf(plan, k - 1);
      LevelAt(ActionsOf(plan), i, i - 2, Parent(d));
    } else {
      FileStep(plan, 0);
      FirstDirectory(plan);
      LevelsOfRoots(start, plan, n, plan.packageRoot + ["service"]);
      if k > 0 {
        LevelAt(ActionsOf(plan), i, n + 1, Parent(d));
      }
    }
  }

  /** The directory of each file: that of its service, its log, or the package root. */
  lemma DirectoryOf(plan: Plan, k: nat)
    requires k <= 3 * |plan.services|
    ensures
      var d, root, n := Parent(plan.packageRoot + Below(plan, k)), plan.packageRoot, |plan.services|;
      if k < 2 * n && k % 2 == 1 then Parent(d) == root + ["service", plan.services[k / 2].name]
      else if k == 2 * n then d == root
      else
        var s := plan.services[if k < 2 * n then k / 2 else k - 2 * n - 1];
        d == root + ["service", s.name] && Parent(d) == root + ["service"]
  {
    var root := plan.packageRoot;
    assert Parent(root + Below(plan, k)) == root + Parent(Below(plan, k));
    if k < 2 * |plan.services| && k % 2 == 1 {
      assert Parent(root + Parent(Below(plan, k))) == root + ["service", plan.services[k / 2].name];
    }
  }

  /** The rollback of a plan is exact for every fault if and only if what it needs of the start holds there. */
  lemma PlanRestoresExactly(start: Nodes, plan: Plan)
    requires WellRooted(start) && RootsApart(plan) && Readable(start, ActionsOf(plan))
    ensures (forall fails :: Restores(start, ActionsOf(plan), fails))
       <==> OneLevelEach(start, ActionsOf(plan)) && FilesKept(start, ActionsOf(plan))
    ensures plan.services != [] && Reached(start, ActionsOf(plan), |ActionsOf(plan)|)
            ==> (OneLevelEach(start, ActionsOf(plan)) <==> HasRoom(start, plan))
  {
    hide ActionsOf, OneLevelEach, FilesKept, Supported, Restores, HasRoom, Separate, Readable, Reached, RootsApart;
    PlanIsSupported(plan);
    PlanIsSeparate(plan);
    RestoresExactlyWhen(start, ActionsOf(plan));
    if plan.services != [] && Reached(start, ActionsOf(plan), |ActionsOf(plan)|) {
      OneLevelOfPlan(start, plan);
    }
  }

  /** A system on which the package has never had a service: its service directory lacks two levels. */
  function FirstInstallation(): (Nodes, Plan) {
    (map[["data"] := Directory, ["data", "package"] := Directory, ["service"] := Directory, ["log"] := Directory],
     Plan(["data", "package"], ["service"], ["log"], [Service("chain", "run", "log")], "{}", "digest"))
  }

  /** There a fault can leave the directory "service" behind in the package. */
  lemma FirstInstallationIsNotRestored() returns (fails: Faults)
    ensures !Restores(FirstInstallation().0, ActionsOf(FirstInstallation().1), fails)
  {
    hide ActionsOf, OneLevelEach, FilesKept, Restores;
    var start, plan := FirstInstallation().0, FirstInstallation().1;
    assert forall d | d in start :: start[d].Directory?;
    assert WellRooted(start) by {
      assert Parent(["data"]) == [] && Parent(["data", "package"]) == ["data"] && Parent(["service"]) == []
          && Parent(["log"]) == [];
    }
    FirstIsApart(plan);
    FirstIsReadable(start, plan);
    PlanRestoresExactly(start, plan);
    assert plan.packageRoot + ["service"] == ["data", "package", "service"];
    assert !(["data", "package", "service"] <= ["log"] + ["chain"]);
    assert !HasRoom(start, plan);
    fails :| !Restores(start, ActionsOf(plan), fails);
  }

  lemma FirstIsReadable(start: Nodes, plan: Plan)
    requires (start, plan) == FirstInstallation()
    ensures Readable(start, ActionsOf(plan))
  {
    hide ActionsOf, FilesOf;
    forall i | 0 <= i < |ActionsOf(plan)| && ActionsOf(plan)[i].Write? ensures ActionsOf(plan)[i].path !in start {
      if i <= 1 {
        RootStep(plan, i);
      }
      var k := LaterStep(plan, i);
      assert |ActionsOf(plan)[i].path| > 2;
    }
  }

  lemma FirstIsApart(plan: Plan)
    requires plan == FirstInstallation().1
    ensures RootsApart(plan)
  {
    forall k: nat | k <= 3 ensures (plan.packageRoot + Below(plan, k))[0] == "data" {
    }
    assert plan.serviceRoot[0] != "data" && (plan.logRoot + ["chain"])[0] != "data";
  }
}
