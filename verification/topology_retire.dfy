/**
 * retire_service of dbus_mqtt_battery/topology_install.py: move a stopped service aside, then give up its ownership.
 */
module TopologyRetire {
  import opened Prelude
  import opened TopologyInstall
  import opened TopologyPlan
  import opened TopologyApply

  /** The services the registry lists, each with its entry. */
  type Owned = map<string, string>

  /** How the registry is read and written. */
  datatype Codec = Codec(read: string -> Decoded<Owned>, show: Owned -> string)

  ghost predicate RoundTrips(codec: Codec) {
    forall owned: Owned :: codec.read(codec.show(owned)) == Accepted(owned)
  }

  datatype Site = Site(packageRoot: Path, serviceRoot: Path, codec: Codec)

  // ---- Paths ------------------------------------------------------------------------------------------------------

  predicate IsLetter(c: char) {
    'a' <= c <= 'z'
  }

  predicate ValidChainId(id: string) {
    && 1 <= |id| <= 64 && IsLetter(id[0])
    && forall i | 1 <= i < |id| :: IsLetter(id[i]) || '0' <= id[i] <= '9' || id[i] == '_' || id[i] == '-'
  }

  function NameOf(id: string): string {
    "dbus-mqtt-chain-" + id
  }

  function Registered(site: Site): Path {
    site.packageRoot + ["topology-services.json"]
  }

  function Target(site: Site, id: string): Path {
    site.packageRoot + ["service", NameOf(id)]
  }

  function RetiredRoot(site: Site): Path {
    site.packageRoot + ["retired-topology"]
  }

  function Destination(site: Site, id: string): Path {
    site.packageRoot + ["retired-topology", NameOf(id)]
  }

  // ---- Ownership and quiescence -------------------------------------------------------------------------------------

  /** _registry: no file is no service; anything that is not a readable registry is an error. */
  function OwnedIn(nodes: Nodes, site: Site): Decoded<Owned> {
    if Registered(site) !in nodes then Accepted(map[])
    else if nodes[Registered(site)].File? then site.codec.read(nodes[Registered(site)].text)
    else Rejected
  }

  datatype Fifo = Absent | NoReader | Listening | Unknown

  type Byte = n: int | 0 <= n < 256

  /** One supervise directory: its status record and its control pipe. */
  datatype Supervisor = Supervisor(linked: bool, status: Option<seq<Byte>>, pipe: Fifo)

  /** The child's process id, little-endian in bytes 12 to 15 of a status record. */
  function ProcessId(status: seq<Byte>): nat
    requires |status| == 18
  {
    (status[12] as int) + 0x100 * (status[13] as int) + 0x1_0000 * (status[14] as int)
        + 0x100_0000 * (status[15] as int)
  }

  predicate Stopped(s: Supervisor) {
    && !s.linked && (s.pipe.Absent? || s.pipe.NoReader?)
    && (s.status.Some? ==> |s.status.value| == 18 && ProcessId(s.status.value) == 0)
  }

  /** _require_quiescent: the service's supervisor, then that of its log. */
  method RequireQuiescent(supervisors: seq<Supervisor>) returns (quiet: bool)
    ensures quiet <==> forall s | s in supervisors :: Stopped(s)
  {
    for n := 0 to |supervisors|
      invariant forall i | 0 <= i < n :: Stopped(supervisors[i])
    {
      var s := supervisors[n];
      assert s in supervisors;
      if s.linked {
        return false;
      }
      if s.status.Some? && (|s.status.value| != 18 || ProcessId(s.status.value) != 0) {
        return false;
      }
      if s.pipe.Listening? || s.pipe.Unknown? {
        return false;
      }
    }
    return true;
  }

  /** A service that may be retired: owned, unlinked, a real directory, stopped, with nothing kept under its name. */
  predicate MayRetire(nodes: Nodes, site: Site, id: string, quiet: bool) {
    && ValidChainId(id)
    && OwnedIn(nodes, site).Accepted? && NameOf(id) in OwnedIn(nodes, site).value
    && site.serviceRoot + [NameOf(id)] !in nodes
    && Target(site, id) in nodes && nodes[Target(site, id)].Directory?
    && !HasLink(nodes, Target(site, id) + ["log"])
    && quiet
    && !HasLink(nodes, RetiredRoot(site)) && Destination(site, id) !in nodes
  }

  // ---- Moving a directory -------------------------------------------------------------------------------------------

  /** The paths of a directory's content, seen from the directory; the directory itself is the empty path. */
  function Content(nodes: Nodes, root: Path): set<Path> {
    set path | path in nodes && root <= path :: path[|root|..]
  }

  /** rename: a directory is somewhere else now, with everything in it. */
  function Moved(nodes: Nodes, from: Path, to: Path): Nodes {
    (map path | path in nodes && !(from <= path) :: nodes[path])
    + map path | path in (set rest | rest in Content(nodes, from) :: to + rest) && from + path[|to|..] in nodes ::
        nodes[from + path[|to|..]]
  }

  predicate CanMove(nodes: Nodes, from: Path, to: Path) {
    from in nodes && CanMake(nodes, to)
  }

  /** What lies where after a move. */
  lemma MovedAt(nodes: Nodes, from: Path, to: Path, path: Path)
    requires !(from <= to) && !(to <= from) && Content(nodes, to) == {}
    ensures
      var after := Moved(nodes, from, to);
      if from <= path then path !in after
      else if to <= path then
        (path in after <==> from + path[|to|..] in nodes)
            && (path in after ==> after[path] == nodes[from + path[|to|..]])
      else (path in after <==> path in nodes) && (path in after ==> after[path] == nodes[path])
  {
    if to <= path {
      var rest := path[|to|..];
      assert to + rest == path && (from + rest)[|from|..] == rest && from <= from + rest;
      assert path in nodes ==> rest in Content(nodes, to);
    }
  }

  lemma ContentAt(nodes: Nodes, root: Path, rest: Path)
    ensures rest in Content(nodes, root) <==> root + rest in nodes
  {
    assert (root + rest)[|root|..] == rest && root <= root + rest;
    if rest in Content(nodes, root) {
      var path :| path in nodes && root <= path && path[|root|..] == rest;
      assert path == root + rest;
    }
  }

  lemma EmptyPlace(nodes: Nodes, root: Path)
    requires WellRooted(nodes) && root != [] && root !in nodes
    ensures Content(nodes, root) == {}
  {
    hide WellRooted;
    forall path | path in nodes && root <= path ensures false {
      if path != root {
        NothingBelow(nodes, root, path);
      }
    }
  }

  /** Moving a directory away and back again restores the file system. */
  lemma MovedBack(nodes: Nodes, from: Path, to: Path)
    requires !(from <= to) && !(to <= from) && Content(nodes, to) == {}
    ensures Moved(Moved(nodes, from, to), to, from) == nodes
  {
    hide Moved, Content;
    var there := Moved(nodes, from, to);
    forall rest ensures rest !in Content(there, from) {
      ContentAt(there, from, rest);
      MovedAt(nodes, from, to, from + rest);
    }
    assert Content(there, from) == {};
    var back := Moved(there, to, from);
    forall path ensures (path in back <==> path in nodes) && (path in back ==> back[path] == nodes[path]) {
      MovedAt(there, to, from, path);
      MovedAt(nodes, from, to, path);
      if from <= path {
        var rest := path[|from|..];
        assert from + rest == path && (to + rest)[|to|..] == rest && to <= to + rest && !(from <= to + rest);
        MovedAt(nodes, from, to, to + rest);
      } else if to <= path {
        ContentAt(nodes, to, path[|to|..]);
        assert to + path[|to|..] == path;
      }
    }
  }

  // ---- Retiring -----------------------------------------------------------------------------------------------------

  datatype Retirement = Forbidden | Failed | Stranded | Retired

  /** What a retirement leaves, and how it ends. */
  datatype Ending = Ending(nodes: Nodes, outcome: Retirement)

  /** retire_service, from the moment nothing forbids it: mkdir, rename, registry, and the rename back if that fails. */
  function Retiring(nodes: Nodes, clock: nat, site: Site, id: string, fails: Faults): Ending
    requires OwnedIn(nodes, site).Accepted?
  {
    var owned, target, destination := OwnedIn(nodes, site).value, Target(site, id), Destination(site, id);
    if fails(clock) || !(IsDirectory(nodes, RetiredRoot(site)) || CanMake(nodes, RetiredRoot(site)))
        then Ending(nodes, Failed)
    else
      var kept := if IsDirectory(nodes, RetiredRoot(site)) then nodes else nodes[RetiredRoot(site) := Directory];
      if fails(clock + 1) || !CanMove(kept, target, destination) then Ending(kept, Failed)
      else
        var moved := Moved(kept, target, destination);
        if !fails(clock + 2) && CanWrite(moved, Registered(site)) then
          Ending(moved[Registered(site) := File(site.codec.show(owned - {NameOf(id)}), PRIVATE)], Retired)
        else if fails(clock + 3) || !CanMove(moved, destination, target) then Ending(moved, Stranded)
        else Ending(Moved(moved, destination, target), Failed)
  }

  function RetiredService(nodes: Nodes, clock: nat, site: Site, id: string, quiet: bool, fails: Faults): Ending {
    if MayRetire(nodes, site, id, quiet) then Retiring(nodes, clock, site, id, fails) else Ending(nodes, Forbidden)
  }

  method Rename(fs: FileSystem, from: Path, to: Path) returns (ok: bool)
    modifies fs
    ensures ok <==> !fs.fails(old(fs.clock)) && CanMove(old(fs.nodes), from, to)
    ensures fs.nodes == (if ok then Moved(old(fs.nodes), from, to) else old(fs.nodes)) && fs.clock == old(fs.clock) + 1
  {
    ok := !fs.fails(fs.clock) && CanMove(fs.nodes, from, to);
    if ok {
      fs.nodes := Moved(fs.nodes, from, to);
    }
    fs.clock, fs.history := fs.clock + 1, fs.history + [fs.nodes];
  }

  /** mkdir(exist_ok=True) */
  method MakeIfMissing(fs: FileSystem, path: Path) returns (ok: bool)
    modifies fs
    ensures ok <==> !fs.fails(old(fs.clock)) && (IsDirectory(old(fs.nodes), path) || CanMake(old(fs.nodes), path))
    ensures fs.nodes == (if ok && !IsDirectory(old(fs.nodes), path) then old(fs.nodes)[path := Directory]
        else old(fs.nodes))
    ensures fs.clock == old(fs.clock) + 1
  {
    var there := IsDirectory(fs.nodes, path);
    ok := fs.MakeDirectory(path);
    ok := ok || (there && !fs.fails(fs.clock - 1));
  }

  /** retire_service */
  method RetireService(fs: FileSystem, site: Site, id: string, supervisors: seq<Supervisor>)
      returns (outcome: Retirement)
    modifies fs
    ensures Ending(fs.nodes, outcome)
         == RetiredService(old(fs.nodes), old(fs.clock), site, id, forall s | s in supervisors :: Stopped(s), fs.fails)
  {
    hide Moved, CanMove, CanWrite, CanMake, IsDirectory, MayRetire;
    var quiet := RequireQuiescent(supervisors);
    if !MayRetire(fs.nodes, site, id, quiet) {
      return Forbidden;
    }
    PermissionMeans(fs.nodes, site, id, quiet);
    var owned, target, destination := OwnedIn(fs.nodes, site).value, Target(site, id), Destination(site, id);
    var ok := MakeIfMissing(fs, RetiredRoot(site));
    if !ok {
      return Failed;
    }
    ok := Rename(fs, target, destination);
    if !ok {
      return Failed;
    }
    ok := fs.WriteFile(Registered(site), site.codec.show(owned - {NameOf(id)}), PRIVATE);
    if ok {
      return Retired;
    }
    ok := Rename(fs, destination, target);
    return if ok then Failed else Stranded;
  }

  lemma PermissionMeans(nodes: Nodes, site: Site, id: string, quiet: bool)
    requires MayRetire(nodes, site, id, quiet)
    ensures OwnedIn(nodes, site).Accepted? && NameOf(id) in OwnedIn(nodes, site).value
  {
  }

  // ---- What a retirement keeps --------------------------------------------------------------------------------------

  /** The places a retirement touches are apart. */
  lemma PlacesApart(site: Site, id: string)
    ensures
      var target, destination, registered := Target(site, id), Destination(site, id), Registered(site);
      && |target| == |destination| && !(target <= destination) && !(destination <= target)
      && !(target <= registered) && !(destination <= registered)
      && !(target <= RetiredRoot(site)) && !(destination <= RetiredRoot(site)) && RetiredRoot(site) != registered
      && Parent(destination) == RetiredRoot(site) && Parent(registered) == Parent(RetiredRoot(site)) == site.packageRoot
  {
    var n := |site.packageRoot|;
    assert Target(site, id)[n] == "service" && Destination(site, id)[n] == RetiredRoot(site)[n] == "retired-topology";
    assert Registered(site)[n] == "topology-services.json";
    assert "service" != "retired-topology" && "topology-services.json" != "retired-topology" by {
      assert "service"[0] != "retired-topology"[0] && "topology-services.json"[0] != "retired-topology"[0];
    }
  }

  /** The directory that receives retired services is there now; nothing else is different. */
  function WithRetiredRoot(nodes: Nodes, site: Site): Nodes {
    if IsDirectory(nodes, RetiredRoot(site)) then nodes else nodes[RetiredRoot(site) := Directory]
  }

  lemma RootMade(nodes: Nodes, site: Site)
    requires WellRooted(nodes) && (IsDirectory(nodes, RetiredRoot(site)) || CanMake(nodes, RetiredRoot(site)))
    ensures WellRooted(WithRetiredRoot(nodes, site)) && IsDirectory(WithRetiredRoot(nodes, site), RetiredRoot(site))
  {
  }

  /** What the checks before a retirement guarantee. */
  lemma Guaranteed(nodes: Nodes, site: Site, id: string, quiet: bool)
    requires WellRooted(nodes) && MayRetire(nodes, site, id, quiet)
    ensures
      var kept, target, destination := WithRetiredRoot(nodes, site), Target(site, id), Destination(site, id);
      && target in kept && target != [] && destination !in kept && destination != []
      && IsDirectory(kept, Parent(target)) && !(target <= Parent(target)) && !(destination <= Parent(target))
      && Registered(site) != [] && Registered(site) in kept && kept[Registered(site)].File?
          && IsDirectory(kept, site.packageRoot)
      && (RetiredRoot(site) in nodes || CanMake(nodes, RetiredRoot(site)))
      && !(target <= site.packageRoot) && !(destination <= site.packageRoot)
  {
    PlacesApart(site, id);
    var target, destination := Target(site, id), Destination(site, id);
    assert IsDirectory(nodes, Parent(target)) && IsDirectory(nodes, Parent(Registered(site)));
    assert Parent(target) == site.packageRoot + ["service"];
    assert |Parent(target)| < |target| == |destination|;
  }

  /** A stopped service can be moved once the receiving directory is there, and its way back is free. */
  lemma ServiceCanMove(nodes: Nodes, site: Site, id: string, quiet: bool)
    requires WellRooted(nodes) && MayRetire(nodes, site, id, quiet)
    requires IsDirectory(nodes, RetiredRoot(site)) || CanMake(nodes, RetiredRoot(site))
    ensures
      var kept, target, destination := WithRetiredRoot(nodes, site), Target(site, id), Destination(site, id);
      var moved := Moved(kept, target, destination);
      && CanMove(kept, target, destination) && Content(kept, destination) == {}
      && CanMove(moved, destination, target) && CanWrite(moved, Registered(site))
      && Moved(moved, destination, target) == kept
  {
    hide Moved, Content, MayRetire, WellRooted, Target, Destination, Registered, RetiredRoot, WithRetiredRoot;
    var kept, target, destination := WithRetiredRoot(nodes, site), Target(site, id), Destination(site, id);
    PlacesApart(site, id);
    RootMade(nodes, site);
    Guaranteed(nodes, site, id, quiet);
    EmptyPlace(kept, destination);
    MovedBack(kept, target, destination);
    MovedAt(kept, target, destination, target);
    MovedAt(kept, target, destination, destination);
    assert target + destination[|destination|..] == target;
    MovedAt(kept, target, destination, Parent(target));
    MovedAt(kept, target, destination, Registered(site));
    MovedAt(kept, target, destination, Parent(Registered(site)));
  }

  ghost predicate Elsewhere(site: Site, id: string, path: Path) {
    !(Target(site, id) <= path) && !(Destination(site, id) <= path) && path != Registered(site)
        && path != RetiredRoot(site)
  }

  /** Which faults lead to which ending, for a service that may be retired. */
  lemma EndingsExactly(start: Nodes, clock: nat, site: Site, id: string, quiet: bool, fails: Faults)
    requires WellRooted(start) && MayRetire(start, site, id, quiet)
    ensures
      var ending, ready := RetiredService(start, clock, site, id, quiet, fails),
          Receives(start, site) && !fails(clock) && !fails(clock + 1);
      && !ending.outcome.Forbidden? && (ending.outcome.Retired? <==> ready && !fails(clock + 2))
      && (ending.outcome.Stranded? <==> ready && fails(clock + 2) && fails(clock + 3))
      && (!Receives(start, site) || fails(clock) ==> ending.outcome.Failed? && ending.nodes == start)
      && (Receives(start, site) && !fails(clock) && ending.outcome.Failed?
          ==> ending.nodes == WithRetiredRoot(start, site))
  {
    hide Moved, MayRetire, CanMake, CanMove, CanWrite, IsDirectory, WellRooted;
    PermissionMeans(start, site, id, quiet);
    if Receives(start, site) {
      ServiceCanMove(start, site, id, quiet);
    }
  }

  /** The place for retired services is a directory, or can become one. */
  predicate Receives(nodes: Nodes, site: Site) {
    IsDirectory(nodes, RetiredRoot(site)) || CanMake(nodes, RetiredRoot(site))
  }

  /** Writing the registry and moving the service back do not both fail. */
  predicate MovesBack(fails: Faults, clock: nat) {
    !(fails(clock + 2) && fails(clock + 3))
  }

  /**
   * A retirement that fails, wherever it fails, leaves everything as it was if and only if it came no further than
   * making the receiving directory, or that directory was there before and the service could be moved back.
   */
  lemma FailureRestoresExactly(start: Nodes, clock: nat, site: Site, id: string, quiet: bool, fails: Faults)
    requires WellRooted(start) && !RetiredService(start, clock, site, id, quiet, fails).outcome.Retired?
    ensures RetiredService(start, clock, site, id, quiet, fails).nodes == start
       <==> || !MayRetire(start, site, id, quiet) || !Receives(start, site) || fails(clock)
            || (RetiredRoot(site) in start && (fails(clock + 1) || MovesBack(fails, clock)))
  {
    hide MayRetire, WellRooted, RetiredService, Target, Destination, Moved;
    if MayRetire(start, site, id, quiet) {
      EndingsExactly(start, clock, site, id, quiet, fails);
      Guaranteed(start, site, id, quiet);
      if RetiredService(start, clock, site, id, quiet, fails).outcome.Stranded? {
        StrandedIsMoved(start, clock, site, id, quiet, fails);
      }
    } else {
      ForbiddenChangesNothing(start, clock, site, id, quiet, fails);
    }
  }

  lemma ForbiddenChangesNothing(start: Nodes, clock: nat, site: Site, id: string, quiet: bool, fails: Faults)
    requires !MayRetire(start, site, id, quiet)
    ensures RetiredService(start, clock, site, id, quiet, fails).nodes == start
  {
    hide MayRetire;
  }

  /** A stranded service is no longer where it was. */
  lemma StrandedIsMoved(start: Nodes, clock: nat, site: Site, id: string, quiet: bool, fails: Faults)
    requires WellRooted(start) && MayRetire(start, site, id, quiet)
    requires RetiredService(start, clock, site, id, quiet, fails).outcome.Stranded?
    ensures Target(site, id) in start && Target(site, id) !in RetiredService(start, clock, site, id, quiet, fails).nodes
  {
    hide Moved, MayRetire, CanMake, CanMove, CanWrite, WellRooted, Target, Destination, Registered, RetiredRoot;
    var target, destination := Target(site, id), Destination(site, id);
    PermissionMeans(start, site, id, quiet);
    PlacesApart(site, id);
    ServiceCanMove(start, site, id, quiet);
    Guaranteed(start, site, id, quiet);
    MovedAt(WithRetiredRoot(start, site), target, destination, target);
  }

  /**
   * Over all faults that let the service be moved back, failures restore everything exactly when the receiving
   * directory was there.
   */
  lemma FailuresRestoreExactly(start: Nodes, clock: nat, site: Site, id: string, quiet: bool)
    requires WellRooted(start) && MayRetire(start, site, id, quiet) && Receives(start, site)
    ensures (forall fails | MovesBack(fails, clock) :: Restores(start, clock, site, id, quiet, fails))
        <==> RetiredRoot(site) in start
  {
    hide RetiredService, MayRetire, WellRooted, Receives;
    forall fails | MovesBack(fails, clock) && RetiredRoot(site) in start
      ensures Restores(start, clock, site, id, quiet, fails)
    {
      if !RetiredService(start, clock, site, id, quiet, fails).outcome.Retired? {
        FailureRestoresExactly(start, clock, site, id, quiet, fails);
      }
    }
    if RetiredRoot(site) !in start {
      var fails := (t: nat) => t == clock + 1;
      EndingsExactly(start, clock, site, id, quiet, fails);
      FailureRestoresExactly(start, clock, site, id, quiet, fails);
      assert MovesBack(fails, clock) && !Restores(start, clock, site, id, quiet, fails);
    }
  }

  /** A call that raises has changed nothing. */
  ghost predicate Restores(start: Nodes, clock: nat, site: Site, id: string, quiet: bool, fails: Faults) {
    var ending := RetiredService(start, clock, site, id, quiet, fails);
    !ending.outcome.Retired? ==> ending.nodes == start
  }

  /**
   * A retired service keeps all its content under its new place, loses only its registration, and nothing else moves.
   */
  lemma RetiredKeepsItsContent(start: Nodes, clock: nat, site: Site, id: string, quiet: bool, fails: Faults, path: Path)
    requires WellRooted(start) && RoundTrips(site.codec)
    requires RetiredService(start, clock, site, id, quiet, fails).outcome.Retired?
    ensures
      var after, target, destination := RetiredService(start, clock, site, id, quiet, fails).nodes, Target(site, id),
          Destination(site, id);
      && target + path !in after
      && (destination + path in after <==> target + path in start)
      && (destination + path in after ==> after[destination + path] == start[target + path])
      && OwnedIn(start, site).Accepted? && OwnedIn(after, site) == Accepted(OwnedIn(start, site).value - {NameOf(id)})
      && (Elsewhere(site, id, path)
          ==> (path in after <==> path in start) && (path in after ==> after[path] == start[path]))
  {
    hide Moved, MayRetire, CanMake, CanMove, CanWrite, WellRooted, Target, Destination, Registered, RetiredRoot;
    var target, destination := Target(site, id), Destination(site, id);
    var kept := WithRetiredRoot(start, site);
    PermissionMeans(start, site, id, quiet);
    PlacesApart(site, id);
    ServiceCanMove(start, site, id, quiet);
    assert (destination + path)[|destination|..] == path && destination <= destination + path
        && target <= target + path;
    assert !(target <= destination + path) by {
      BelowApart(target, destination, path);
    }
    MovedAt(kept, target, destination, target + path);
    MovedAt(kept, target, destination, destination + path);
    MovedAt(kept, target, destination, path);
    Guaranteed(start, site, id, quiet);
  }

  lemma BelowApart(p: Path, q: Path, rest: Path)
    requires |p| == |q| && !(p <= q)
    ensures !(p <= q + rest)
  {
  }

  /** A retired service cannot be retired again. */
  lemma RetiredOnce(start: Nodes, clock: nat, site: Site, id: string, quiet: bool, fails: Faults, quiet': bool)
    requires WellRooted(start) && RoundTrips(site.codec)
    requires RetiredService(start, clock, site, id, quiet, fails).outcome.Retired?
    ensures !MayRetire(RetiredService(start, clock, site, id, quiet, fails).nodes, site, id, quiet')
  {
    hide RetiredService, Registered, NameOf;
    RetiredKeepsItsContent(start, clock, site, id, quiet, fails, []);
  }

  // ---- Where a retired service goes -------------------------------------------------------------------------------

  /** Stopped: not linked, no pipe that anybody reads, and a status record, if any, whose process id is zero. */
  lemma StoppedExactly(s: Supervisor)
    ensures Stopped(s)
       <==> && !s.linked && !s.pipe.Listening? && !s.pipe.Unknown?
            && (s.status.Some? ==>
                  && |s.status.value| == 18
                  && s.status.value[12] == 0 && s.status.value[13] == 0 && s.status.value[14] == 0
                  && s.status.value[15] == 0)
  {
  }

  predicate IsChainId(id: string) {
    && 1 <= |id| <= 64 && 'a' <= id[0] <= 'z'
    && forall i | 1 <= i < |id| :: 'a' <= id[i] <= 'z' || '0' <= id[i] <= '9' || id[i] == '_' || id[i] == '-'
  }

  function Packed(root: Path, directory: string, id: string): Path {
    root + [directory, "dbus-mqtt-chain-" + id]
  }

  /** Who may be retired: a registered service that is unlinked, a real directory, stopped, and not retired before. */
  lemma MayRetireExactly(start: Nodes, site: Site, id: string, quiet: bool)
    ensures MayRetire(start, site, id, quiet)
       <==> && IsChainId(id) && quiet
            && OwnedIn(start, site).Accepted? && "dbus-mqtt-chain-" + id in OwnedIn(start, site).value
            && site.serviceRoot + ["dbus-mqtt-chain-" + id] !in start
            && Packed(site.packageRoot, "service", id) in start
            && start[Packed(site.packageRoot, "service", id)].Directory?
            && !HasLink(start, Packed(site.packageRoot, "service", id) + ["log"])
            && !HasLink(start, site.packageRoot + ["retired-topology"])
            && Packed(site.packageRoot, "retired-topology", id) !in start
  {
  }

  /** Without faults, a service that may be retired is retired, if there is a place for retired services. */
  lemma RetiresWithoutFaults(start: Nodes, clock: nat, site: Site, id: string, fails: Faults)
    requires WellRooted(start) && MayRetire(start, site, id, true) && Receives(start, site)
    requires !fails(clock) && !fails(clock + 1) && !fails(clock + 2)
    ensures RetiredService(start, clock, site, id, true, fails).outcome.Retired?
  {
    hide RetiredService, MayRetire, WellRooted, Receives;
    EndingsExactly(start, clock, site, id, true, fails);
  }

  /** Then everything below its directory is below the directory of the same name for retired services. */
  lemma RetiredExactly(start: Nodes, clock: nat, site: Site, id: string, quiet: bool, fails: Faults, path: Path)
    requires WellRooted(start) && RoundTrips(site.codec)
    requires RetiredService(start, clock, site, id, quiet, fails).outcome.Retired?
    ensures
      var after := RetiredService(start, clock, site, id, quiet, fails).nodes;
      var was, now := Packed(site.packageRoot, "service", id) + path,
          Packed(site.packageRoot, "retired-topology", id) + path;
      && was !in after && (now in after <==> was in start)
      && (was in start ==> now in after && after[now] == start[was])
      && (site.packageRoot + ["topology-services.json"] in after
          && after[site.packageRoot + ["topology-services.json"]]
             == File(site.codec.show(OwnedIn(start, site).value - {"dbus-mqtt-chain-" + id}), 384))
  {
    hide Moved, CanMake, CanMove, CanWrite, WellRooted, IsDirectory, HasLink;
    RetiredKeepsItsContent(start, clock, site, id, quiet, fails, path);
  }
}
