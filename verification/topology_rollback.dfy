/** When the rollback of an installation restores everything, whatever operation fails. */
module TopologyRollback {
  import opened Prelude
  import opened TopologyInstall

  // ---- Every fault --------------------------------------------------------------------------------------------------

  ghost function NoFaults(): Faults {
    n => false
  }

  /** Without any fault, each directory lacks at most one level when its turn comes, or cannot be made at all. */
  ghost predicate OneLevelInTurn(start: Nodes, actions: seq<Action>) {
    forall i | 0 <= i < |actions| && actions[i].Ensure? ::
      ActAll(start, actions[..i], NoFaults()).ok ==>
      LeavesNothing(ActAll(start, actions[..i], NoFaults()).nodes, actions[i].path)
  }

  lemma {:induction false} LevelsWithoutFaults(nodes: Nodes, clock: nat, levels: seq<Path>, fails: Faults)
    requires MakeLevels(nodes, clock, levels, fails).2
    ensures MakeLevels(nodes, clock, levels, NoFaults()) == MakeLevels(nodes, clock, levels, fails)
    decreases |levels|
  {
    if levels != [] {
      LevelsWithoutFaults(nodes[levels[|levels| - 1] := Directory], clock + 1, levels[..|levels| - 1], fails);
    }
  }

  /** Steps that have all succeeded have done what they do without faults. */
  lemma {:induction false} SuccessIsFaultless(start: Nodes, actions: seq<Action>, fails: Faults)
    requires ActAll(start, actions, fails).ok
    ensures ActAll(start, actions, NoFaults()) == ActAll(start, actions, fails)
  {
    hide MakeLevels, Missing;
    if actions != [] {
      SuccessIsFaultless(start, actions[..|actions| - 1], fails);
      var p, a := ActAll(start, actions[..|actions| - 1], fails), actions[|actions| - 1];
      if a.Ensure? && Missing(p.nodes, a.path) != [] {
        LevelsWithoutFaults(p.nodes, p.clock, Missing(p.nodes, a.path), fails);
      }
    }
  }

  lemma FromPlanGrows(front: seq<Action>, a: Action, p: Progress, fails: Faults)
    requires FromPlan(front, p)
    ensures FromPlan(front + [a], Act(p, a, fails))
  {
    hide MakeLevels, Missing;
    var all, after := front + [a], Act(p, a, fails);
    forall d | d in after.directories ensures Needed(all, d) {
      if d in p.directories {
        var j :| 0 <= j < |front| && front[j].Ensure? && d <= front[j].path;
        assert all[j] == front[j];
      } else {
        var missing := Missing(p.nodes, a.path);
        InReversed(missing, d);
        MissingIsAChain(p.nodes, a.path);
        assert all[|front|] == a;
      }
    }
    forall w | w in after.written ensures Planned(all, w) {
      if w in p.written {
        var j :| 0 <= j < |front| && front[j].Write? && front[j].path == w;
        assert all[j] == front[j];
      } else {
        assert all[|front|] == a;
      }
    }
  }

  ghost predicate Sound(start: Nodes, actions: seq<Action>) {
    WellRooted(start) && Separate(actions) && Readable(start, actions)
  }

  lemma PrefixIsSound(start: Nodes, actions: seq<Action>)
    requires actions != [] && Sound(start, actions)
    ensures Sound(start, actions[..|actions| - 1])
    ensures OneLevelInTurn(start, actions) ==> OneLevelInTurn(start, actions[..|actions| - 1])
  {
    hide ActAll, LeavesNothing, WellRooted;
    var front := actions[..|actions| - 1];
    if OneLevelInTurn(start, actions) {
      forall i | 0 <= i < |front| && front[i].Ensure? && ActAll(start, front[..i], NoFaults()).ok
        ensures LeavesNothing(ActAll(start, front[..i], NoFaults()).nodes, front[i].path)
      {
        assert front[..i] == actions[..i] && front[i] == actions[i];
      }
    }
  }

  lemma NextIsAllowed(start: Nodes, actions: seq<Action>, p: Progress)
    requires actions != [] && Sound(start, actions) && FromPlan(actions[..|actions| - 1], p)
    ensures
      var a := actions[|actions| - 1];
      && (a.Ensure? ==> forall w | w in p.written :: !(w <= a.path))
      && (a.Write? ==> a.path !in p.directories && (a.path in start ==> start[a.path].File?))
  {
    var front, a := actions[..|actions| - 1], actions[|actions| - 1];
    if a.Ensure? {
      forall w | w in p.written ensures !(w <= a.path) {
        assert Planned(front, w);
        var j :| 0 <= j < |front| && front[j].Write? && front[j].path == w;
        assert actions[j].Write?;
      }
    } else {
      forall d | d in p.directories ensures d != a.path {
        assert Needed(front, d);
        var j :| 0 <= j < |front| && front[j].Ensure? && d <= front[j].path;
        assert actions[j].Ensure? && !(a.path <= actions[j].path);
      }
    }
  }

  /** Under any faults, what has been done so far is accounted for. */
  lemma {:induction false} AlwaysUndoable(start: Nodes, actions: seq<Action>, fails: Faults)
    requires Sound(start, actions) && OneLevelInTurn(start, actions)
    ensures Undoable(start, ActAll(start, actions, fails)) && FromPlan(actions, ActAll(start, actions, fails))
  {
    hide Sound, OneLevelInTurn, Undoable, FromPlan, Act, LeavesNothing;
    if actions == [] {
      StartIsUndoable(start, actions, fails);
    } else {
      var front, a := actions[..|actions| - 1], actions[|actions| - 1];
      var p := ActAll(start, front, fails);
      PrefixIsSound(start, actions);
      AlwaysUndoable(start, front, fails);
      assert front + [a] == actions;
      FromPlanGrows(front, a, p, fails);
      if p.ok {
        NextIsAllowed(start, actions, p);
        SuccessIsFaultless(start, front, fails);
        OneLevelNow(start, actions);
        ActKeepsTheAccount(start, p, a, fails);
      } else {
        FailedStays(p, a, fails);
      }
    }
  }

  lemma FailedStays(p: Progress, a: Action, fails: Faults)
    requires !p.ok
    ensures Act(p, a, fails) == p
  {
  }

  lemma OneLevelNow(start: Nodes, actions: seq<Action>)
    requires actions != [] && OneLevelInTurn(start, actions)
    ensures
      var front, a := actions[..|actions| - 1], actions[|actions| - 1];
      a.Ensure? && ActAll(start, front, NoFaults()).ok ==> LeavesNothing(ActAll(start, front, NoFaults()).nodes, a.path)
  {
  }

  lemma StartIsUndoable(start: Nodes, actions: seq<Action>, fails: Faults)
    requires actions == []
    ensures Undoable(start, ActAll(start, actions, fails)) && FromPlan(actions, ActAll(start, actions, fails))
  {
  }

  // ---- The fault that leaves a directory behind ---------------------------------------------------------------------

  lemma {:induction false} LevelsAdvance(nodes: Nodes, clock: nat, levels: seq<Path>, fails: Faults)
    ensures MakeLevels(nodes, clock, levels, fails).1 >= clock
    decreases |levels|
  {
    if levels != [] {
      LevelsAdvance(nodes[levels[|levels| - 1] := Directory], clock + 1, levels[..|levels| - 1], fails);
    }
  }

  lemma {:induction false} LevelsSameUntil(nodes: Nodes, clock: nat, levels: seq<Path>, fails: Faults)
    requires forall t: nat | t < MakeLevels(nodes, clock, levels, NoFaults()).1 :: !fails(t)
    ensures MakeLevels(nodes, clock, levels, fails) == MakeLevels(nodes, clock, levels, NoFaults())
    decreases |levels|
  {
    if levels != [] {
      LevelsAdvance(nodes[levels[|levels| - 1] := Directory], clock + 1, levels[..|levels| - 1], NoFaults());
      if CanMake(nodes, levels[|levels| - 1]) {
        LevelsSameUntil(nodes[levels[|levels| - 1] := Directory], clock + 1, levels[..|levels| - 1], fails);
      }
    }
  }

  lemma ActAdvances(p: Progress, a: Action, fails: Faults)
    ensures Act(p, a, fails).clock >= p.clock
  {
    hide MakeLevels, Missing;
    if a.Ensure? {
      LevelsAdvance(p.nodes, p.clock, Missing(p.nodes, a.path), fails);
    }
  }

  /** Faults that come later change nothing yet. */
  lemma {:induction false} SameUntil(start: Nodes, actions: seq<Action>, fails: Faults)
    requires forall t: nat | t < ActAll(start, actions, NoFaults()).clock :: !fails(t)
    ensures ActAll(start, actions, fails) == ActAll(start, actions, NoFaults())
  {
    hide MakeLevels, Missing;
    if actions != [] {
      var front, a := actions[..|actions| - 1], actions[|actions| - 1];
      var p := ActAll(start, front, NoFaults());
      ActAdvances(p, a, NoFaults());
      SameUntil(start, front, fails);
      if p.ok && a.Ensure? && Missing(p.nodes, a.path) != [] {
        LevelsSameUntil(p.nodes, p.clock, Missing(p.nodes, a.path), fails);
      }
    }
  }

  lemma {:induction false} FailureLasts(start: Nodes, actions: seq<Action>, i: nat, fails: Faults)
    requires i <= |actions| && !ActAll(start, actions[..i], fails).ok
    ensures ActAll(start, actions, fails) == ActAll(start, actions[..i], fails)
  {
    hide Ensured, Written;
    if i == |actions| {
      assert actions[..i] == actions;
    } else {
      var front := actions[..|actions| - 1];
      assert front[..i] == actions[..i];
      FailureLasts(start, front, i, fails);
    }
  }

  lemma {:induction false} FilesStayGone(nodes: Nodes, written: seq<Path>, previous: Nodes, x: Path)
    requires x in nodes && x !in written
    ensures x in UndoFiles(nodes, written, previous)
    decreases |written|
  {
    if written != [] {
      var path := written[|written| - 1];
      FilesStayGone(if path in previous then nodes[path := previous[path]] else nodes - {path},
          written[..|written| - 1], previous, x);
    }
  }

  lemma {:induction false} DirectoriesStay(nodes: Nodes, directories: seq<Path>, x: Path)
    requires x in nodes && x !in directories
    ensures x in UndoDirectories(nodes, directories)
    decreases |directories|
  {
    if directories != [] && IsEmptyDirectory(nodes, directories[|directories| - 1]) {
      DirectoriesStay(nodes - {directories[|directories| - 1]}, directories[..|directories| - 1], x);
    }
  }

  /** The second of two missing levels fails: the first has been made, and nobody remembers it. */
  lemma SecondLevelFails(nodes: Nodes, clock: nat, levels: seq<Path>, fails: Faults)
    requires |levels| >= 2 && CanMake(nodes, levels[|levels| - 1]) && !fails(clock) && fails(clock + 1)
    ensures
      var made := MakeLevels(nodes, clock, levels, fails);
      !made.2 && levels[|levels| - 1] in made.0
  {
    var last, front := levels[|levels| - 1], levels[..|levels| - 1];
    assert front != [];
    assert MakeLevels(nodes[last := Directory], clock + 1, front, fails)
        == (nodes[last := Directory], clock + 2, false);
  }

  /** Where the rollback is restored exactly: whatever fails before the first link, everything is as it was. */
  ghost predicate Restores(start: Nodes, actions: seq<Action>, fails: Faults) {
    RolledBack(ActAll(start, actions, fails), start) == start
  }

  lemma SuccessAccounts(start: Nodes, actions: seq<Action>)
    requires ActAll(start, actions, NoFaults()).ok
    ensures forall w | w in ActAll(start, actions, NoFaults()).written :: w in ActAll(start, actions, NoFaults()).nodes
    ensures forall d | d in ActAll(start, actions, NoFaults()).directories ::
        d in ActAll(start, actions, NoFaults()).nodes
    ensures forall path | path in start :: path in ActAll(start, actions, NoFaults()).nodes
  {
    hide MakeLevels, Missing;
    if actions != [] {
      var front, a := actions[..|actions| - 1], actions[|actions| - 1];
      var p := ActAll(start, front, NoFaults());
      SuccessAccounts(start, front);
      if a.Ensure? && Missing(p.nodes, a.path) != [] {
        var missing := Missing(p.nodes, a.path);
        MadeLevels(p.nodes, p.clock, missing, NoFaults());
        forall d | d in Reversed(missing) ensures d in missing {
          InReversed(missing, d);
        }
      }
    }
  }

  lemma LeftBehind(start: Nodes, actions: seq<Action>, i: nat) returns (fails: Faults)
    requires i < |actions| && actions[i].Ensure? && ActAll(start, actions[..i], NoFaults()).ok
    requires !LeavesNothing(ActAll(start, actions[..i], NoFaults()).nodes, actions[i].path)
    ensures !Restores(start, actions, fails)
  {
    hide MakeLevels, Missing, UndoFiles, UndoDirectories, Snapshot;
    var p := ActAll(start, actions[..i], NoFaults());
    fails := t => t == p.clock + 1;
    SameUntil(start, actions[..i], fails);
    var missing := Missing(p.nodes, actions[i].path);
    SecondLevelFails(p.nodes, p.clock, missing, fails);
    assert actions[..i + 1][..i] == actions[..i];
    var q := ActAll(start, actions[..i + 1], fails);
    assert q == Ensured(p, actions[i].path, fails);
    FailureLasts(start, actions, i + 1, fails);
    SuccessAccounts(start, actions[..i]);
    var x := missing[|missing| - 1];
    assert !Exists(p.nodes, x);
    FilesStayGone(q.nodes, q.written, Snapshot(start), x);
    DirectoriesStay(UndoFiles(q.nodes, q.written, Snapshot(start)), q.directories, x);
  }

  // ---- The condition, read off the start ----------------------------------------------------------------------------

  /** Every level of the path that is there is a directory. */
  predicate Clear(start: Nodes, path: Path) {
    forall d | d in start && d <= path :: start[d].Directory?
  }

  /** The first n steps can all succeed: none of the directories they need is blocked. */
  predicate Reached(start: Nodes, actions: seq<Action>, n: nat)
    requires n <= |actions|
  {
    forall j | 0 <= j < n && actions[j].Ensure? :: Clear(start, actions[j].path)
  }

  /** A level of a directory that one of the first n steps needs. */
  predicate HasLevel(actions: seq<Action>, n: nat, d: Path)
    requires n <= |actions|
  {
    exists j | 0 <= j < n && actions[j].Ensure? :: d <= actions[j].path
  }

  predicate WritesBefore(actions: seq<Action>, n: nat, w: Path)
    requires n <= |actions|
  {
    exists j | 0 <= j < n && actions[j].Write? :: actions[j].path == w
  }

  /** Each directory lies in one that is there at the start, or in a level of one needed before it. */
  predicate OneLevelEach(start: Nodes, actions: seq<Action>) {
    forall i | 0 <= i < |actions| && actions[i].Ensure? && Reached(start, actions, i + 1) ::
      Exists(start, Parent(actions[i].path)) || HasLevel(actions, i, Parent(actions[i].path))
  }

  /** Each file to be replaced has no carriage return, and no mode bit above the permissions. */
  predicate FilesKept(start: Nodes, actions: seq<Action>) {
    forall i | 0 <= i < |actions| && actions[i].Write? && Reached(start, actions, i) && actions[i].path in start ::
        Kept(start[actions[i].path])
  }

  /** Each file has its directory made sure of before it is written. */
  predicate Supported(actions: seq<Action>) {
    forall i | 0 <= i < |actions| && actions[i].Write? ::
        actions[i].path != [] && HasLevel(actions, i, Parent(actions[i].path))
  }

  /** The system after the first n steps without faults: old directories, needed levels, planned files. */
  ghost predicate Tracks(start: Nodes, actions: seq<Action>, n: nat, nodes: Nodes)
    requires n <= |actions|
  {
    && WellRooted(nodes)
    && (forall d :: IsDirectory(nodes, d) <==> IsDirectory(start, d) || HasLevel(actions, n, d))
    && (forall d | d in start :: d in nodes)
    && (forall d | d in nodes && !nodes[d].Directory? ::
          (nodes[d].File? && WritesBefore(actions, n, d)) || (d in start && nodes[d] == start[d]))
  }

  lemma LevelsMore(actions: seq<Action>, n: nat, d: Path)
    requires n < |actions|
    ensures HasLevel(actions, n + 1, d) <==> HasLevel(actions, n, d) || (actions[n].Ensure? && d <= actions[n].path)
  {
  }

  lemma WritesMore(actions: seq<Action>, n: nat, w: Path)
    requires n < |actions|
    ensures WritesBefore(actions, n + 1, w)
        <==> WritesBefore(actions, n, w) || (actions[n].Write? && w == actions[n].path)
  {
  }

  /** Below a needed directory everything that is there is a directory. */
  lemma NeededIsClear(start: Nodes, actions: seq<Action>, n: nat, nodes: Nodes)
    requires n < |actions| && actions[n].Ensure? && Separate(actions) && Tracks(start, actions, n, nodes)
    requires Clear(start, actions[n].path)
    ensures forall d | Exists(nodes, d) && d <= actions[n].path :: IsDirectory(nodes, d)
  {
    hide WellRooted, HasLevel;
  }

  lemma {:induction false} MissingHasAll(nodes: Nodes, path: Path, d: Path)
    requires WellRooted(nodes) && d <= path && !Exists(nodes, d)
    ensures d in Missing(nodes, path)
    decreases |path|
  {
    if d != path {
      NothingBelow(nodes, d, path);
      assert d <= Parent(path);
      MissingHasAll(nodes, Parent(path), d);
    }
  }

  /** The missing levels of a path are exactly the absent ones. */
  lemma MissingExactly(nodes: Nodes, path: Path)
    requires WellRooted(nodes)
    ensures forall d :: d in Missing(nodes, path) <==> d <= path && !Exists(nodes, d)
  {
    hide WellRooted, Exists;
    MissingIsAChain(nodes, path);
    forall d | d <= path && !Exists(nodes, d) ensures d in Missing(nodes, path) {
      MissingHasAll(nodes, path, d);
    }
  }

  lemma {:induction false} LevelsCanBeMade(nodes: Nodes, clock: nat, levels: seq<Path>)
    requires forall i | 0 <= i < |levels| :: !Exists(nodes, levels[i])
    requires forall i | 0 <= i < |levels| - 1 :: Parent(levels[i]) == levels[i + 1]
    requires Distinct(levels) && (levels != [] ==> IsDirectory(nodes, Parent(levels[|levels| - 1])))
    ensures MakeLevels(nodes, clock, levels, NoFaults()).2
    decreases |levels|
  {
    hide Parent;
    if levels != [] {
      var last, front := levels[|levels| - 1], levels[..|levels| - 1];
      LevelsCanBeMade(nodes[last := Directory], clock + 1, front);
    }
  }

  /** A directory that is not blocked is made. */
  lemma ClearIsMade(start: Nodes, actions: seq<Action>, n: nat, p: Progress)
    requires n < |actions| && actions[n].Ensure? && Separate(actions) && Tracks(start, actions, n, p.nodes)
    requires Clear(start, actions[n].path)
    ensures
      var after, path := Ensured(p, actions[n].path, NoFaults()), actions[n].path;
      after.ok && after.nodes == WithLevels(p.nodes, Missing(p.nodes, path))
  {
    hide Tracks, Clear, MakeLevels, WithLevels, Separate, Missing;
    var path := actions[n].path;
    var missing := Missing(p.nodes, path);
    NeededIsClear(start, actions, n, p.nodes);
    MissingIsAChain(p.nodes, path);
    if missing == [] {
      NoLevels(p.nodes);
    } else {
      ChainsAreDistinct(p.nodes, path, missing);
      var outer := Parent(missing[|missing| - 1]);
      assert outer <= path;
      LevelsCanBeMade(p.nodes, p.clock, missing);
      MadeLevels(p.nodes, p.clock, missing, NoFaults());
    }
  }

  /** Making the missing levels of a path makes directories of all its levels, and changes nothing else. */
  lemma LevelsMade(nodes: Nodes, path: Path)
    requires WellRooted(nodes) && forall d | Exists(nodes, d) && d <= path :: IsDirectory(nodes, d)
    ensures
      var made := WithLevels(nodes, Missing(nodes, path));
      && (forall d :: IsDirectory(made, d) <==> IsDirectory(nodes, d) || d <= path)
      && (forall d | d in nodes :: d in made)
      && (forall d | d in made && !made[d].Directory? :: d in nodes && nodes[d] == made[d])
  {
    hide WellRooted, Missing;
    MissingExactly(nodes, path);
  }

  lemma EnsuredTracks(start: Nodes, actions: seq<Action>, n: nat, p: Progress)
    requires n < |actions| && actions[n].Ensure? && Separate(actions) && Tracks(start, actions, n, p.nodes)
    requires Clear(start, actions[n].path)
    ensures Tracks(start, actions, n + 1, WithLevels(p.nodes, Missing(p.nodes, actions[n].path)))
  {
    hide Clear, Separate, Missing, HasLevel, WritesBefore, WithLevels, WellRooted, IsDirectory;
    var path := actions[n].path;
    NeededIsClear(start, actions, n, p.nodes);
    LevelsMade(p.nodes, path);
    LevelsRooted(p.nodes, path);
    forall d ensures HasLevel(actions, n + 1, d) <==> HasLevel(actions, n, d) || d <= path {
      LevelsMore(actions, n, d);
    }
    forall d ensures WritesBefore(actions, n + 1, d) <==> WritesBefore(actions, n, d) {
      WritesMore(actions, n, d);
    }
  }

  lemma LevelsRooted(nodes: Nodes, path: Path)
    requires WellRooted(nodes) && forall d | Exists(nodes, d) && d <= path :: IsDirectory(nodes, d)
    ensures WellRooted(WithLevels(nodes, Missing(nodes, path)))
  {
    hide Missing;
    var made := WithLevels(nodes, Missing(nodes, path));
    MissingExactly(nodes, path);
    forall d | d in made ensures d != [] && IsDirectory(made, Parent(d)) {
      if d !in nodes {
        assert Parent(d) <= path;
      }
    }
  }

  /** A supported file is written. */
  lemma SupportedIsWritten(start: Nodes, actions: seq<Action>, n: nat, p: Progress)
    requires n < |actions| && actions[n].Write? && Separate(actions) && Supported(actions) && Readable(start, actions)
    requires Tracks(start, actions, n, p.nodes)
    ensures
      var a := actions[n];
      var after := Written(p, a.path, a.text, a.mode, NoFaults());
      after.ok && Tracks(start, actions, n + 1, after.nodes)
  {
    var a := actions[n];
    assert CanWrite(p.nodes, a.path) by {
      hide WellRooted;
      assert !HasLevel(actions, n, a.path);
    }
    WrittenTracks(start, actions, n, p.nodes);
  }

  lemma FileChangesNoDirectory(nodes: Nodes, path: Path, file: Node)
    requires WellRooted(nodes) && CanWrite(nodes, path) && file.File?
    ensures WellRooted(nodes[path := file])
    ensures forall d :: IsDirectory(nodes[path := file], d) <==> IsDirectory(nodes, d)
  {
    hide Parent;
  }

  lemma WrittenTracks(start: Nodes, actions: seq<Action>, n: nat, nodes: Nodes)
    requires n < |actions| && actions[n].Write? && Tracks(start, actions, n, nodes) && CanWrite(nodes, actions[n].path)
    ensures Tracks(start, actions, n + 1, nodes[actions[n].path := File(actions[n].text, actions[n].mode)])
  {
    hide HasLevel, WritesBefore, WellRooted, IsDirectory, CanWrite;
    var file := File(actions[n].text, actions[n].mode);
    var after := nodes[actions[n].path := file];
    FileChangesNoDirectory(nodes, actions[n].path, file);
    forall d ensures IsDirectory(after, d) <==> IsDirectory(start, d) || HasLevel(actions, n + 1, d) {
      LevelsMore(actions, n, d);
    }
    forall d | d in after && !after[d].Directory?
      ensures (after[d].File? && WritesBefore(actions, n + 1, d)) || (d in start && after[d] == start[d])
    {
      WritesMore(actions, n, d);
    }
  }

  /** A blocked directory makes its step fail, and nothing is made for it. */
  lemma BlockedFails(start: Nodes, actions: seq<Action>, n: nat, p: Progress)
    requires n < |actions| && actions[n].Ensure? && Tracks(start, actions, n, p.nodes) && Reached(start, actions, n)
    requires !Clear(start, actions[n].path)
    ensures !Ensured(p, actions[n].path, NoFaults()).ok && LeavesNothing(p.nodes, actions[n].path)
  {
    hide Missing;
    var nodes, path := p.nodes, actions[n].path;
    var d :| d in start && d <= path && !start[d].Directory?;
    assert !HasLevel(actions, n, d);
    assert d in nodes && !IsDirectory(nodes, d);
    MissingIsAChain(nodes, path);
    if d != path {
      OutermostIsBlocked(nodes, path, d);
    }
  }

  /** Of two levels of one path, the shorter is a level of the longer. */
  lemma Nested(path: Path, a: Path, b: Path)
    requires a <= path && b <= path
    ensures |a| <= |b| ==> a <= b
    ensures |a| == |b| ==> a == b
  {
  }

  lemma OutermostIsBlocked(nodes: Nodes, path: Path, d: Path)
    requires WellRooted(nodes) && d in nodes && !IsDirectory(nodes, d) && d < path
    ensures Missing(nodes, path) != [] && !CanMake(nodes, Missing(nodes, path)[|Missing(nodes, path)| - 1])
  {
    hide WellRooted, Missing;
    MissingIsAChain(nodes, path);
    NothingBelow(nodes, d, path);
    var missing := Missing(nodes, path);
    var outermost := missing[|missing| - 1];
    if IsDirectory(nodes, Parent(outermost)) {
      Nested(path, d, Parent(outermost));
      Nested(path, outermost, d);
      if |d| < |Parent(outermost)| {
        NothingBelow(nodes, d, Parent(outermost));
      } else {
        NothingBelow(nodes, outermost, d);
      }
    }
  }

  lemma TracksStep(start: Nodes, actions: seq<Action>, n: nat, p: Progress)
    requires n < |actions| && Sound(start, actions) && Supported(actions) && p.ok && Reached(start, actions, n)
    requires Tracks(start, actions, n, p.nodes)
    ensures
      var after := Act(p, actions[n], NoFaults());
      && (after.ok <==> (actions[n].Ensure? ==> Clear(start, actions[n].path)))
      && (after.ok ==> Tracks(start, actions, n + 1, after.nodes))
  {
    hide Tracks, Clear, Ensured, Written, Separate, Supported, Readable, WellRooted, Reached, Missing, WithLevels;
    hide LeavesNothing;
    if actions[n].Write? {
      SupportedIsWritten(start, actions, n, p);
    } else if Clear(start, actions[n].path) {
      ClearIsMade(start, actions, n, p);
      EnsuredTracks(start, actions, n, p);
    } else {
      BlockedFails(start, actions, n, p);
    }
  }

  /** Without faults, a step is reached exactly when no directory before it is blocked. */
  lemma {:induction false} ReachedExactly(start: Nodes, actions: seq<Action>, n: nat)
    requires n <= |actions| && Sound(start, actions) && Supported(actions)
    ensures ActAll(start, actions[..n], NoFaults()).ok <==> Reached(start, actions, n)
    ensures Reached(start, actions, n) ==> Tracks(start, actions, n, ActAll(start, actions[..n], NoFaults()).nodes)
  {
    hide Tracks, Clear, Act, Separate, Supported, Readable, WellRooted;
    if n == 0 {
      StartTracks(start, actions);
    } else {
      ReachedExactly(start, actions, n - 1);
      assert actions[..n][..n - 1] == actions[..n - 1];
      var p := ActAll(start, actions[..n - 1], NoFaults());
      if p.ok {
        TracksStep(start, actions, n - 1, p);
      } else {
        FailedStays(p, actions[n - 1], NoFaults());
      }
    }
  }

  lemma StartTracks(start: Nodes, actions: seq<Action>)
    requires WellRooted(start)
    ensures Tracks(start, actions, 0, start)
  {
  }

  /** At most one level is missing exactly when the parent is there. */
  lemma OneLevelMissing(nodes: Nodes, path: Path)
    requires WellRooted(nodes)
    ensures |Missing(nodes, path)| <= 1 <==> Exists(nodes, Parent(path))
  {
    MissingIsAChain(nodes, Parent(path));
  }

  lemma OneLevelAt(start: Nodes, actions: seq<Action>, i: nat)
    requires Sound(start, actions) && Supported(actions) && i < |actions| && actions[i].Ensure?
    requires Reached(start, actions, i)
    ensures LeavesNothing(ActAll(start, actions[..i], NoFaults()).nodes, actions[i].path)
       <==> || !Clear(start, actions[i].path) || Exists(start, Parent(actions[i].path))
            || HasLevel(actions, i, Parent(actions[i].path))
  {
    hide ActAll, Missing, Reached, Clear, Readable, Supported, HasLevel;
    var p, path := ActAll(start, actions[..i], NoFaults()), actions[i].path;
    ReachedExactly(start, actions, i);
    if Clear(start, path) {
      OneLevelMissing(p.nodes, path);
      NeededIsClear(start, actions, i, p.nodes);
      ClearCanBeMade(start, actions, i, p.nodes);
      ClearAbove(start, path);
    } else {
      BlockedFails(start, actions, i, p);
    }
  }

  lemma ClearAbove(start: Nodes, path: Path)
    requires Clear(start, path)
    ensures Exists(start, Parent(path)) <==> IsDirectory(start, Parent(path))
    ensures Parent(path) <= path
  {
  }

  lemma ClearCanBeMade(start: Nodes, actions: seq<Action>, n: nat, nodes: Nodes)
    requires n < |actions| && actions[n].Ensure? && Separate(actions) && Tracks(start, actions, n, nodes)
    requires Clear(start, actions[n].path)
    ensures
      var missing := Missing(nodes, actions[n].path);
      missing != [] ==> CanMake(nodes, missing[|missing| - 1])
  {
    hide Tracks, Clear, Separate, Missing;
    NeededIsClear(start, actions, n, nodes);
    MissingIsAChain(nodes, actions[n].path);
  }

  /** What the start says about levels is what the installer meets when each directory's turn comes. */
  lemma OneLevelExactly(start: Nodes, actions: seq<Action>)
    requires Sound(start, actions) && Supported(actions)
    ensures OneLevelEach(start, actions) <==> OneLevelInTurn(start, actions)
  {
    hide ActAll, Sound, Supported, LeavesNothing, Clear, HasLevel;
    forall i | 0 <= i < |actions| && actions[i].Ensure?
      ensures ActAll(start, actions[..i], NoFaults()).ok <==> Reached(start, actions, i)
      ensures Reached(start, actions, i) ==>
                (LeavesNothing(ActAll(start, actions[..i], NoFaults()).nodes, actions[i].path)
                 <==> || !Reached(start, actions, i + 1) || Exists(start, Parent(actions[i].path))
                      || HasLevel(actions, i, Parent(actions[i].path)))
    {
      ReachedExactly(start, actions, i);
      if Reached(start, actions, i) {
        OneLevelAt(start, actions, i);
      }
    }
  }

  // ---- The files ----------------------------------------------------------------------------------------------------

  ghost predicate Replaces(start: Nodes, actions: seq<Action>, n: nat, w: Path)
    requires n <= |actions|
  {
    exists i | 0 <= i < n && actions[i].Write? && Reached(start, actions, i) :: actions[i].path == w
  }

  /** Under any faults, only files whose step can be reached are replaced. */
  lemma {:induction false} WrittenAreReached(start: Nodes, actions: seq<Action>, n: nat, fails: Faults)
    requires n <= |actions| && Sound(start, actions) && Supported(actions)
    ensures forall w | w in ActAll(start, actions[..n], fails).written :: Replaces(start, actions, n, w)
  {
    hide Sound, Supported, Reached, Ensured;
    if n > 0 {
      WrittenAreReached(start, actions, n - 1, fails);
      assert actions[..n][..n - 1] == actions[..n - 1];
      var p, a := ActAll(start, actions[..n - 1], fails), actions[n - 1];
      if p.ok {
        SuccessIsFaultless(start, actions[..n - 1], fails);
        ReachedExactly(start, actions, n - 1);
        EnsuredWritesNothing(p, a.path, fails);
      }
      forall w | w in ActAll(start, actions[..n], fails).written ensures Replaces(start, actions, n, w) {
        if w in p.written {
          assert Replaces(start, actions, n - 1, w);
        } else {
          assert actions[n - 1].Write? && actions[n - 1].path == w;
        }
      }
    }
  }

  lemma EnsuredWritesNothing(p: Progress, path: Path, fails: Faults)
    ensures Ensured(p, path, fails).written == p.written
  {
  }

  /** Without faults, every file whose step can be reached is replaced. */
  lemma {:induction false} ReachedAreWritten(start: Nodes, actions: seq<Action>, i: nat, n: nat)
    requires i < n <= |actions| && actions[i].Write? && Sound(start, actions) && Supported(actions)
    requires Reached(start, actions, i)
    ensures actions[i].path in ActAll(start, actions[..n], NoFaults()).written
    decreases n
  {
    hide Sound, Supported, Reached, Ensured;
    assert actions[..n][..n - 1] == actions[..n - 1];
    var p, a := ActAll(start, actions[..n - 1], NoFaults()), actions[n - 1];
    EnsuredWritesNothing(p, a.path, NoFaults());
    if i == n - 1 {
      ReachedExactly(start, actions, i);
    } else {
      ReachedAreWritten(start, actions, i, n - 1);
    }
  }

  lemma {:induction false} UndoneFile(nodes: Nodes, written: seq<Path>, previous: Nodes, w: Path)
    requires w in previous && (w in written || (w in nodes && nodes[w] == previous[w]))
    ensures w in UndoFiles(nodes, written, previous) && UndoFiles(nodes, written, previous)[w] == previous[w]
    decreases |written|
  {
    if written != [] {
      var path, front := written[|written| - 1], written[..|written| - 1];
      assert written == front + [path];
      UndoneFile(if path in previous then nodes[path := previous[path]] else nodes - {path}, front, previous, w);
    }
  }

  lemma {:induction false} FilesOutlast(nodes: Nodes, directories: seq<Path>, w: Path)
    requires w in nodes && nodes[w].File?
    ensures w in UndoDirectories(nodes, directories) && UndoDirectories(nodes, directories)[w] == nodes[w]
    decreases |directories|
  {
    if directories != [] && IsEmptyDirectory(nodes, directories[|directories| - 1]) {
      FilesOutlast(nodes - {directories[|directories| - 1]}, directories[..|directories| - 1], w);
    }
  }

  /** A file that the snapshot does not keep comes back changed. */
  lemma ChangedByRollback(start: Nodes, actions: seq<Action>, i: nat)
    requires Sound(start, actions) && Supported(actions) && i < |actions| && actions[i].Write?
    requires Reached(start, actions, i)
    requires actions[i].path in start && !Kept(start[actions[i].path])
    ensures !Restores(start, actions, NoFaults())
  {
    hide ActAll, Supported, Reached, UndoFiles, UndoDirectories, WellRooted, Separate;
    var p, w := ActAll(start, actions, NoFaults()), actions[i].path;
    assert actions[..|actions|] == actions;
    ReachedAreWritten(start, actions, i, |actions|);
    UndoneFile(p.nodes, p.written, Snapshot(start), w);
    FilesOutlast(UndoFiles(p.nodes, p.written, Snapshot(start)), p.directories, w);
  }

  lemma WrittenAreKept(start: Nodes, actions: seq<Action>, fails: Faults)
    requires Sound(start, actions) && Supported(actions) && FilesKept(start, actions)
    ensures AllKept(start, ActAll(start, actions, fails).written)
  {
    hide ActAll, Supported, Reached, WellRooted, Separate, Kept;
    assert actions[..|actions|] == actions;
    WrittenAreReached(start, actions, |actions|, fails);
    forall w | w in ActAll(start, actions, fails).written && w in start ensures start[w].File? && Kept(start[w]) {
      assert Replaces(start, actions, |actions|, w);
    }
  }

  /**
   * The rollback restores files, modes and directories exactly, whatever operation fails, if and only if every
   * directory of the plan lies in one that is there or needed before it, and every file it replaces survives
   * being read as text and having its mode cut down to the permissions.
   */
  lemma RestoresExactlyWhen(start: Nodes, actions: seq<Action>)
    requires Sound(start, actions) && Supported(actions)
    ensures (forall fails :: Restores(start, actions, fails))
        <==> OneLevelEach(start, actions) && FilesKept(start, actions)
  {
    hide ActAll, RolledBack, LeavesNothing, Restores, Sound, Supported, OneLevelEach, FilesKept, Reached, Kept;
    OneLevelExactly(start, actions);
    if !OneLevelEach(start, actions) {
      var i :| 0 <= i < |actions| && actions[i].Ensure? && ActAll(start, actions[..i], NoFaults()).ok
               && !LeavesNothing(ActAll(start, actions[..i], NoFaults()).nodes, actions[i].path);
      var fails := LeftBehind(start, actions, i);
    } else if !FilesKept(start, actions) {
      var i := ChangedFile(start, actions);
      ChangedByRollback(start, actions, i);
    } else {
      forall fails ensures Restores(start, actions, fails) {
        AlwaysRestores(start, actions, fails);
      }
    }
  }

  lemma ChangedFile(start: Nodes, actions: seq<Action>) returns (i: nat)
    requires !FilesKept(start, actions)
    ensures i < |actions| && actions[i].Write? && Reached(start, actions, i) && actions[i].path in start
    ensures !Kept(start[actions[i].path])
  {
    hide Reached, Kept;
    i :| 0 <= i < |actions| && actions[i].Write? && Reached(start, actions, i) && actions[i].path in start
        && !Kept(start[actions[i].path]);
  }

  lemma AlwaysRestores(start: Nodes, actions: seq<Action>, fails: Faults)
    requires Sound(start, actions) && Supported(actions) && OneLevelEach(start, actions) && FilesKept(start, actions)
    ensures Restores(start, actions, fails)
  {
    hide ActAll, Undoable, RolledBack, OneLevelEach, FilesKept, Supported, Separate, WellRooted;
    OneLevelExactly(start, actions);
    AlwaysUndoable(start, actions, fails);
    WrittenAreKept(start, actions, fails);
    UndoableIsUndone(start, ActAll(start, actions, fails));
  }
}
