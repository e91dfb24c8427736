/**
 * apply_plan of dbus_mqtt_battery/topology_install.py: install files, then links; undo everything if a step fails
 * before a link.
 */
module TopologyInstall {
  import opened Prelude

  type Path = seq<string>

  datatype Node = Directory | File(text: string, mode: nat) | Link(target: Path)

  type Nodes = map<Path, Node>

  /** Which operations of the system fail, counted from the start of the installation. */
  type Faults = nat -> bool

  function Parent(path: Path): Path {
    if path == [] then [] else path[..|path| - 1]
  }

  predicate Exists(nodes: Nodes, path: Path) {
    path == [] || path in nodes
  }

  predicate IsDirectory(nodes: Nodes, path: Path) {
    path == [] || (path in nodes && nodes[path].Directory?)
  }

  /** Every node lies in a directory. */
  ghost predicate WellRooted(nodes: Nodes) {
    forall path | path in nodes :: path != [] && IsDirectory(nodes, Parent(path))
  }

  /** The levels of a directory that are not there, the directory itself first. */
  function Missing(nodes: Nodes, path: Path): (missing: seq<Path>)
    ensures forall i | 0 <= i < |missing| :: !Exists(nodes, missing[i])
    decreases |path|
  {
    if Exists(nodes, path) then [] else [path] + Missing(nodes, Parent(path))
  }

  /** Nothing lies below a place that is not a directory. */
  lemma {:induction false} NothingBelow(nodes: Nodes, root: Path, path: Path)
    requires WellRooted(nodes) && !IsDirectory(nodes, root) && root < path
    ensures path !in nodes
    decreases |path|
  {
    if path in nodes {
      assert IsDirectory(nodes, Parent(path));
      if Parent(path) != root {
        NothingBelow(nodes, root, Parent(path));
      }
    }
  }

  // ---- The steps before the links -----------------------------------------------------------------------------

  datatype Action = Ensure(path: Path) | Write(path: Path, text: string, mode: nat)

  /** The system, the operations it has been asked for, and what the installer remembers for its rollback. */
  datatype Progress = Progress(nodes: Nodes, clock: nat, written: seq<Path>, directories: seq<Path>, ok: bool)

  function Start(nodes: Nodes): Progress {
    Progress(nodes, 0, [], [], true)
  }

  predicate CanMake(nodes: Nodes, path: Path) {
    IsDirectory(nodes, Parent(path)) && !Exists(nodes, path)
  }

  /** mkdir for each level, the outermost (last) first; it stops at the first failure and keeps what it made. */
  function MakeLevels(nodes: Nodes, clock: nat, levels: seq<Path>, fails: Faults): (Nodes, nat, bool)
    decreases |levels|
  {
    if levels == [] then (nodes, clock, true)
    else
      var last := |levels| - 1;
      if fails(clock) || !CanMake(nodes, levels[last]) then (nodes, clock + 1, false)
      else MakeLevels(nodes[levels[last] := Directory], clock + 1, levels[..last], fails)
  }

  /** ensure_directory: the levels are remembered only once all of them have been made. */
  function Ensured(p: Progress, path: Path, fails: Faults): Progress {
    var missing := Missing(p.nodes, path);
    if missing == [] then p.(clock := p.clock + 1, ok := !fails(p.clock) && IsDirectory(p.nodes, path))
    else
      var made := MakeLevels(p.nodes, p.clock, missing, fails);
      p.(nodes := made.0, clock := made.1, ok := made.2,
         directories := if made.2 then p.directories + Reversed(missing) else p.directories)
  }

  predicate CanWrite(nodes: Nodes, path: Path) {
    path != [] && IsDirectory(nodes, Parent(path)) && (path in nodes ==> nodes[path].File?)
  }

  /** _atomic_text: the file is replaced as a whole or not at all; it is remembered before the attempt. */
  function Written(p: Progress, path: Path, text: string, mode: nat, fails: Faults): Progress {
    var ok := !fails(p.clock) && CanWrite(p.nodes, path);
    p.(nodes := if ok then p.nodes[path := File(text, mode)] else p.nodes, clock := p.clock + 1,
        written := p.written + [path], ok := ok)
  }

  function Act(p: Progress, a: Action, fails: Faults): Progress {
    if !p.ok then p else
    match a
    case Ensure(path) => Ensured(p, path, fails)
    case Write(path, text, mode) => Written(p, path, text, mode, fails)
  }

  function ActAll(nodes: Nodes, actions: seq<Action>, fails: Faults): Progress {
    if actions == [] then Start(nodes)
        else Act(ActAll(nodes, actions[..|actions| - 1], fails), actions[|actions| - 1], fails)
  }

  // ---- What the installer remembers of the files it replaces ------------------------------------------------------

  /** read_text: every line end is read as a line feed. */
  function Universal(text: string): string
    decreases |text|
  {
    if text == "" then ""
    else if text[0] != '\r' then [text[0]] + Universal(text[1..])
    else if |text| > 1 && text[1] == '\n' then ['\n'] + Universal(text[2..])
    else ['\n'] + Universal(text[1..])
  }

  const PERMISSIONS := 512 // st_mode & 0o777 is the remainder by 0o1000

  function Remembered(node: Node): Node
    requires node.File?
  {
    File(Universal(node.text), node.mode % PERMISSIONS)
  }

  /** What is remembered of each file that is there before the first step. */
  function Snapshot(start: Nodes): Nodes {
    map path | path in start && start[path].File? :: Remembered(start[path])
  }

  /** A file that a rollback writes back as it was. */
  predicate Kept(node: Node) {
    node.File? ==> Remembered(node) == node
  }

  /** Exactly the files without carriage returns and without bits above the permissions are kept. */
  lemma {:induction false} KeptExactly(node: Node)
    requires node.File?
    ensures Kept(node) <==> '\r' !in node.text && node.mode < 512
  {
    UniversalKeepsExactly(node.text);
  }

  lemma {:induction false} UniversalKeepsExactly(text: string)
    ensures |Universal(text)| <= |text| && '\r' !in Universal(text)
    ensures Universal(text) == text <==> '\r' !in text
    decreases |text|
  {
    if text != "" {
      UniversalKeepsExactly(text[1..]);
      assert text == [text[0]] + text[1..];
      if text[0] == '\r' && |text| > 1 {
        UniversalKeepsExactly(text[2..]);
      }
      if text[0] != '\r' {
        assert Universal(text)[1..] == Universal(text[1..]);
      }
    }
  }

  // ---- The rollback -----------------------------------------------------------------------------------------------

  /** Files that were there get their old text and mode back, others are removed; the last written first. */
  function UndoFiles(nodes: Nodes, written: seq<Path>, previous: Nodes): Nodes
    decreases |written|
  {
    if written == [] then nodes
    else
      var path := written[|written| - 1];
      UndoFiles(if path in previous then nodes[path := previous[path]] else nodes - {path}, written[..|written| - 1],
          previous)
  }

  predicate IsEmptyDirectory(nodes: Nodes, path: Path) {
    path in nodes && nodes[path].Directory? && forall child | child in nodes :: child == [] || Parent(child) != path
  }

  /** rmdir of the remembered directories, the last made first; a directory that is not empty ends the rollback. */
  function UndoDirectories(nodes: Nodes, directories: seq<Path>): Nodes
    decreases |directories|
  {
    if directories == [] then nodes
    else
      var path := directories[|directories| - 1];
      if IsEmptyDirectory(nodes, path) then UndoDirectories(nodes - {path}, directories[..|directories| - 1]) else nodes
  }

  function RolledBack(p: Progress, start: Nodes): Nodes {
    UndoDirectories(UndoFiles(p.nodes, p.written, Snapshot(start)), p.directories)
  }

  // ---- What the installer knows at each step ------------------------------------------------------------------------

  ghost predicate Distinct(paths: seq<Path>) {
    forall i, j | 0 <= i < j < |paths| :: paths[i] != paths[j]
  }

  /** Made directories are new, distinct, and lie in old ones or in ones made before. */
  ghost predicate MadeInOrder(start: Nodes, directories: seq<Path>) {
    && Distinct(directories)
    && (forall i | 0 <= i < |directories| :: directories[i] != [] && directories[i] !in start)
    && (forall i | 0 <= i < |directories| ::
        IsDirectory(start, Parent(directories[i])) || Parent(directories[i]) in directories[..i])
  }

  /** The written paths were files or nothing, and are files now or were not written after all. */
  ghost predicate FilesTouched(start: Nodes, nodes: Nodes, written: seq<Path>, directories: seq<Path>) {
    forall path | path in written :: path !in directories && (path in start ==> start[path].File?)
  }

  /** The system is what it was, but for the remembered directories and the written files. */
  ghost predicate Accounted(start: Nodes, nodes: Nodes, written: seq<Path>, directories: seq<Path>) {
    && (forall path | path in start && path !in written :: path in nodes && nodes[path] == start[path])
    && (forall path | path in start && path in written :: path in nodes && nodes[path].File?)
    && (forall path | path in nodes && path !in start :: path in directories || path in written)
    && (forall path | path in directories :: path in nodes && nodes[path].Directory?)
    && (forall path | path in written && path in nodes :: nodes[path].File?)
  }

  ghost predicate Undoable(start: Nodes, p: Progress) {
    && MadeInOrder(start, p.directories) && FilesTouched(start, p.nodes, p.written, p.directories)
    && Accounted(start, p.nodes, p.written, p.directories)
  }

  /** Old text, old modes, old directories: an accounted state rolls back to exactly what it started from. */
  lemma UndoableIsUndone(start: Nodes, p: Progress)
    requires WellRooted(start) && Undoable(start, p) && AllKept(start, p.written)
    ensures RolledBack(p, start) == start
  {
    hide MadeInOrder, WellRooted;
    SnapshotSuffices(start, p.nodes, p.written);
    FilesAreUndone(start, p.nodes, p.written, p.written, p.directories);
    DirectoriesAreUndone(start, p.directories);
  }

  /** Of the written paths, those that were files are kept by the snapshot. */
  ghost predicate AllKept(start: Nodes, written: seq<Path>) {
    forall path | path in written && path in start :: start[path].File? && Kept(start[path])
  }

  lemma {:induction false} SnapshotSuffices(start: Nodes, nodes: Nodes, written: seq<Path>)
    requires AllKept(start, written)
    ensures UndoFiles(nodes, written, Snapshot(start)) == UndoFiles(nodes, written, start)
    decreases |written|
  {
    if written != [] {
      var path, front := written[|written| - 1], written[..|written| - 1];
      assert path in written;
      SnapshotSuffices(start, if path in start then nodes[path := start[path]] else nodes - {path}, front);
    }
  }

  ghost function WithDirectories(start: Nodes, directories: seq<Path>): Nodes {
    start + map path | path in directories :: Directory
  }

  /** While the files are undone from the last, those still to be undone are the only difference but directories. */
  ghost predicate HalfUndone(start: Nodes, nodes: Nodes, left: seq<Path>, directories: seq<Path>) {
    && (forall path | path in start && path !in left :: path in nodes && nodes[path] == start[path])
    && (forall path | path in nodes && path !in start :: path in directories || path in left)
    && (forall path | path in directories :: path in nodes && nodes[path].Directory? && path !in start)
    && (forall path | path in left :: path !in directories)
  }

  lemma {:induction false} HalfUndoneIsUndone(start: Nodes, nodes: Nodes, left: seq<Path>, directories: seq<Path>)
    requires HalfUndone(start, nodes, left, directories)
    ensures UndoFiles(nodes, left, start) == WithDirectories(start, directories)
    decreases |left|
  {
    if left == [] {
      assert nodes.Keys == WithDirectories(start, directories).Keys;
    } else {
      var path, rest := left[|left| - 1], left[..|left| - 1];
      assert left == rest + [path];
      var next := if path in start then nodes[path := start[path]] else nodes - {path};
      HalfUndoneIsUndone(start, next, rest, directories);
    }
  }

  lemma FilesAreUndone(start: Nodes, nodes: Nodes, written: seq<Path>, left: seq<Path>, directories: seq<Path>)
    requires left == written && MadeInOrder(start, directories)
    requires FilesTouched(start, nodes, written, directories) && Accounted(start, nodes, written, directories)
    ensures UndoFiles(nodes, written, start) == WithDirectories(start, directories)
  {
    assert forall path | path in directories :: path !in start by {
      NewDirectories(start, directories);
    }
    HalfUndoneIsUndone(start, nodes, written, directories);
  }

  lemma NewDirectories(start: Nodes, directories: seq<Path>)
    requires MadeInOrder(start, directories)
    ensures forall path | path in directories :: path !in start && path != []
  {
  }

  lemma WithoutTheLast(start: Nodes, front: seq<Path>, path: Path)
    requires path !in start && path !in front
    ensures WithDirectories(start, front + [path]) - {path} == WithDirectories(start, front)
  {
  }

  lemma {:induction false} DirectoriesAreUndone(start: Nodes, directories: seq<Path>)
    requires WellRooted(start) && MadeInOrder(start, directories)
    ensures UndoDirectories(WithDirectories(start, directories), directories) == start
    decreases |directories|
  {
    hide WellRooted, MadeInOrder, IsEmptyDirectory, WithDirectories;
    if directories == [] {
      NoDirectories(start);
    } else {
      var front, path := directories[..|directories| - 1], directories[|directories| - 1];
      assert directories == front + [path];
      LastIsEmpty(start, directories);
      MadeInOrderFront(start, directories);
      NewDirectories(start, directories);
      WithoutTheLast(start, front, path);
      DirectoriesAreUndone(start, front);
    }
  }

  lemma NoDirectories(start: Nodes)
    ensures WithDirectories(start, []) == start
  {
  }

  lemma MadeInOrderFront(start: Nodes, directories: seq<Path>)
    requires directories != [] && MadeInOrder(start, directories)
    ensures MadeInOrder(start, directories[..|directories| - 1])
    ensures directories[|directories| - 1] !in directories[..|directories| - 1]
  {
    var front := directories[..|directories| - 1];
    forall i | 0 <= i < |front| ensures IsDirectory(start, Parent(front[i])) || Parent(front[i]) in front[..i] {
      assert front[..i] == directories[..i];
    }
  }

  lemma LastIsEmpty(start: Nodes, directories: seq<Path>)
    requires WellRooted(start) && directories != [] && MadeInOrder(start, directories)
    ensures IsEmptyDirectory(WithDirectories(start, directories), directories[|directories| - 1])
  {
    var path := directories[|directories| - 1];
    var nodes := WithDirectories(start, directories);
    assert path in directories;
    forall child | child in nodes ensures child == [] || Parent(child) != path {
      if child in start {
        assert IsDirectory(start, Parent(child));
      } else {
        var i :| 0 <= i < |directories| && directories[i] == child;
        assert IsDirectory(start, Parent(directories[i])) || Parent(directories[i]) in directories[..i];
      }
    }
  }

  // ---- Making levels ------------------------------------------------------------------------------------------------

  /** The missing levels of a path are ever shorter beginnings of it, each the parent of the one before. */
  ghost predicate IsChain(nodes: Nodes, path: Path, missing: seq<Path>) {
    && (forall i | 0 <= i < |missing| :: missing[i] != [] && missing[i] <= path && |missing[i]| == |path| - i)
    && (forall i | 0 <= i < |missing| - 1 :: Parent(missing[i]) == missing[i + 1])
    && (missing != [] ==> missing[0] == path && Exists(nodes, Parent(missing[|missing| - 1])))
  }

  lemma ChainGrows(nodes: Nodes, path: Path, rest: seq<Path>)
    requires path != [] && IsChain(nodes, Parent(path), rest) && (rest == [] ==> Exists(nodes, Parent(path)))
    ensures IsChain(nodes, path, [path] + rest)
  {
    var missing := [path] + rest;
    forall i | 0 < i < |missing| ensures missing[i] != [] && missing[i] <= path && |missing[i]| == |path| - i {
      assert missing[i] == rest[i - 1] && rest[i - 1] <= Parent(path);
    }
    forall i | 0 <= i < |missing| - 1 ensures Parent(missing[i]) == missing[i + 1] {
      if i > 0 {
        assert missing[i] == rest[i - 1] && missing[i + 1] == rest[i];
      }
    }
  }

  lemma {:induction false} MissingIsAChain(nodes: Nodes, path: Path)
    ensures IsChain(nodes, path, Missing(nodes, path))
    ensures Missing(nodes, path) == [] <==> Exists(nodes, path)
    decreases |path|
  {
    hide IsChain;
    if Exists(nodes, path) {
      NothingMissing(nodes, path);
    } else {
      MissingIsAChain(nodes, Parent(path));
      ChainGrows(nodes, path, Missing(nodes, Parent(path)));
    }
  }

  lemma NothingMissing(nodes: Nodes, path: Path)
    ensures IsChain(nodes, path, [])
  {
  }

  lemma ChainsAreDistinct(nodes: Nodes, path: Path, missing: seq<Path>)
    requires IsChain(nodes, path, missing)
    ensures Distinct(missing)
  {
    forall i, j | 0 <= i < j < |missing| ensures missing[i] != missing[j] {
      assert |missing[i]| == |path| - i && |missing[j]| == |path| - j;
    }
  }

  ghost function WithLevels(nodes: Nodes, levels: seq<Path>): Nodes {
    nodes + map path | path in levels :: Directory
  }

  lemma LevelsJoin(nodes: Nodes, front: seq<Path>, last: Path)
    ensures WithLevels(nodes[last := Directory], front) == WithLevels(nodes, front + [last])
  {
  }

  lemma NoLevels(nodes: Nodes)
    ensures WithLevels(nodes, []) == nodes
  {
  }

  lemma {:induction false} MadeLevels(nodes: Nodes, clock: nat, levels: seq<Path>, fails: Faults)
    requires MakeLevels(nodes, clock, levels, fails).2
    ensures MakeLevels(nodes, clock, levels, fails).0 == WithLevels(nodes, levels)
    ensures levels != [] ==> CanMake(nodes, levels[|levels| - 1])
    decreases |levels|
  {
    hide WithLevels, CanMake;
    if levels == [] {
      NoLevels(nodes);
    } else {
      var front, last := levels[..|levels| - 1], levels[|levels| - 1];
      assert levels == front + [last];
      MadeLevels(nodes[last := Directory], clock + 1, front, fails);
      LevelsJoin(nodes, front, last);
    }
  }

  lemma MadeNothing(nodes: Nodes, clock: nat, levels: seq<Path>, fails: Faults)
    requires levels != [] && !MakeLevels(nodes, clock, levels, fails).2
    requires |levels| == 1 || !CanMake(nodes, levels[|levels| - 1])
    ensures MakeLevels(nodes, clock, levels, fails).0 == nodes
  {
  }

  // ---- Each step keeps the account ----------------------------------------------------------------------------------

  /** Nothing is made that would not be remembered: at most one level is missing, or none can be made. */
  predicate LeavesNothing(nodes: Nodes, path: Path) {
    var missing := Missing(nodes, path);
    |missing| <= 1 || !CanMake(nodes, missing[|missing| - 1])
  }

  /** Written paths are not among the directories the plan needs, nor above one of them. */
  ghost predicate Separate(actions: seq<Action>) {
    forall i, j | 0 <= i < |actions| && 0 <= j < |actions| && actions[i].Write? && actions[j].Ensure? ::
        !(actions[i].path <= actions[j].path)
  }

  /** What the installer reads before it starts: each path it will write is a file, or nothing yet. */
  predicate Readable(start: Nodes, actions: seq<Action>) {
    forall i | 0 <= i < |actions| && actions[i].Write? :: actions[i].path in start ==> start[actions[i].path].File?
  }

  ghost predicate Needed(actions: seq<Action>, d: Path) {
    exists j | 0 <= j < |actions| :: actions[j].Ensure? && d <= actions[j].path
  }

  ghost predicate Planned(actions: seq<Action>, w: Path) {
    exists j | 0 <= j < |actions| :: actions[j].Write? && actions[j].path == w
  }

  /** Made directories are levels of directories the plan needs; written paths are the plan's. */
  ghost predicate FromPlan(actions: seq<Action>, p: Progress) {
    && (forall d | d in p.directories :: Needed(actions, d))
    && (forall w | w in p.written :: Planned(actions, w))
  }

  lemma EnsuredNoneMissing(start: Nodes, p: Progress, path: Path, fails: Faults)
    requires Undoable(start, p) && Missing(p.nodes, path) == []
    ensures Undoable(start, Ensured(p, path, fails))
  {
  }

  lemma EnsuredFails(start: Nodes, p: Progress, path: Path, fails: Faults)
    requires Undoable(start, p) && LeavesNothing(p.nodes, path) && Missing(p.nodes, path) != []
    requires !Ensured(p, path, fails).ok
    ensures Undoable(start, Ensured(p, path, fails))
  {
    hide MadeInOrder, FilesTouched, Accounted, MakeLevels;
    MadeNothing(p.nodes, p.clock, Missing(p.nodes, path), fails);
  }

  lemma EnsuredWorks(start: Nodes, p: Progress, path: Path, fails: Faults)
    requires Undoable(start, p) && Missing(p.nodes, path) != [] && Ensured(p, path, fails).ok
    requires forall w | w in p.written :: !(w <= path)
    ensures Undoable(start, Ensured(p, path, fails))
  {
    hide MadeInOrder, Accounted, MakeLevels;
    var missing := Missing(p.nodes, path);
    MissingIsAChain(p.nodes, path);
    MadeLevels(p.nodes, p.clock, missing, fails);
    OrderGrows(start, p, path);
    forall w | w in p.written ensures w !in Reversed(missing) {
      if w in Reversed(missing) {
        InReversed(missing, w);
      }
    }
    AccountGrows(start, p, missing);
  }

  lemma InReversed(paths: seq<Path>, x: Path)
    ensures x in Reversed(paths) <==> x in paths
  {
    hide Reversed;
    var r := Reversed(paths);
    if x in paths {
      var i :| 0 <= i < |paths| && paths[i] == x;
      assert r[|paths| - 1 - i] == x;
    }
  }

  lemma AccountGrows(start: Nodes, p: Progress, missing: seq<Path>)
    requires Accounted(start, p.nodes, p.written, p.directories)
    requires forall x | x in missing :: x !in p.nodes && x !in p.written
    ensures Accounted(start, WithLevels(p.nodes, missing), p.written, p.directories + Reversed(missing))
  {
    hide Reversed;
    forall x ensures x in Reversed(missing) <==> x in missing {
      InReversed(missing, x);
    }
  }

  lemma DistinctJoin(a: seq<Path>, b: seq<Path>)
    requires Distinct(a) && Distinct(b) && forall i | 0 <= i < |b| :: b[i] !in a
    ensures Distinct(a + b)
  {
    forall i, j | 0 <= i < j < |a + b| ensures (a + b)[i] != (a + b)[j] {
      if i < |a| <= j {
        assert a[i] in a;
      }
    }
  }

  /** The levels of one directory, outermost first: new, distinct, each inside the one before. */
  lemma LevelsInOrder(nodes: Nodes, path: Path)
    ensures
      var r := Reversed(Missing(nodes, path));
      && Distinct(r) && |r| == |Missing(nodes, path)|
      && (forall i | 0 <= i < |r| :: r[i] != [] && r[i] !in nodes)
      && (forall i | 0 < i < |r| :: Parent(r[i]) == r[i - 1])
  {
    hide Reversed, Missing, Parent;
    MissingIsAChain(nodes, path);
    var missing, r := Missing(nodes, path), Reversed(Missing(nodes, path));
    ChainsAreDistinct(nodes, path, missing);
    forall i | 0 <= i < |r| ensures r[i] != [] && r[i] !in nodes {
      assert !Exists(nodes, missing[|missing| - 1 - i]);
    }
  }

  lemma OldStaysIn(start: Nodes, p: Progress, x: Path)
    requires Accounted(start, p.nodes, p.written, p.directories) && x !in p.nodes
    ensures x !in start && x !in p.directories
  {
  }

  lemma MadeInOrderJoins(start: Nodes, known: seq<Path>, r: seq<Path>)
    requires MadeInOrder(start, known) && Distinct(r) && r != []
    requires forall i | 0 <= i < |r| :: r[i] != [] && r[i] !in start && r[i] !in known
    requires forall i | 0 < i < |r| :: Parent(r[i]) == r[i - 1]
    requires IsDirectory(start, Parent(r[0])) || Parent(r[0]) in known
    ensures MadeInOrder(start, known + r)
  {
    hide Parent, IsDirectory, Distinct;
    var all := known + r;
    DistinctJoin(known, r);
    forall i | 0 <= i < |all| ensures IsDirectory(start, Parent(all[i])) || Parent(all[i]) in all[..i] {
      if i < |known| {
        assert all[..i] == known[..i];
      } else if i == |known| {
        assert all[..i] == known;
      } else {
        assert all[i] == r[i - |known|] && all[..i][i - 1] == r[i - |known| - 1];
      }
    }
  }

  lemma OrderGrows(start: Nodes, p: Progress, path: Path)
    requires Undoable(start, p) && Missing(p.nodes, path) != []
    requires CanMake(p.nodes, Missing(p.nodes, path)[|Missing(p.nodes, path)| - 1])
    ensures MadeInOrder(start, p.directories + Reversed(Missing(p.nodes, path)))
  {
    hide Reversed, Missing, FilesTouched, Accounted, Parent, MadeInOrder;
    var r := Reversed(Missing(p.nodes, path));
    LevelsInOrder(p.nodes, path);
    forall i | 0 <= i < |r| ensures r[i] !in start && r[i] !in p.directories {
      OldStaysIn(start, p, r[i]);
    }
    OutermostParent(start, p, Parent(r[0]));
    MadeInOrderJoins(start, p.directories, r);
  }

  lemma OutermostParent(start: Nodes, p: Progress, parent: Path)
    requires Accounted(start, p.nodes, p.written, p.directories) && IsDirectory(p.nodes, parent)
    ensures IsDirectory(start, parent) || parent in p.directories
  {
  }

  lemma WrittenStep(start: Nodes, p: Progress, path: Path, text: string, mode: nat, fails: Faults)
    requires Undoable(start, p) && path !in p.directories && (path in start ==> start[path].File?)
    ensures Undoable(start, Written(p, path, text, mode, fails))
  {
    hide MadeInOrder;
  }

  lemma ActKeepsTheAccount(start: Nodes, p: Progress, a: Action, fails: Faults)
    requires Undoable(start, p) && p.ok
    requires a.Ensure? ==> LeavesNothing(p.nodes, a.path) && forall w | w in p.written :: !(w <= a.path)
    requires a.Write? ==> a.path !in p.directories && (a.path in start ==> start[a.path].File?)
    ensures Undoable(start, Act(p, a, fails))
  {
    hide Undoable, Ensured, Written, LeavesNothing;
    match a {
      case Ensure(path) =>
        if Missing(p.nodes, path) == [] {
          EnsuredNoneMissing(start, p, path, fails);
        } else if Ensured(p, path, fails).ok {
          EnsuredWorks(start, p, path, fails);
        } else {
          EnsuredFails(start, p, path, fails);
        }
      case Write(path, text, mode) => WrittenStep(start, p, path, text, mode, fails);
    }
  }
}
