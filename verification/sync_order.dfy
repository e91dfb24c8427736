/** Which files a sync replaces, in which order, and how it ends, in terms of the files that differ. */
module SyncOrder {
  import opened Prelude
  import opened VersionSync

  /** The files that the sync would change. */
  function Drifted(files: Files, synced: Files): set<string> {
    set path | path in files && path in synced && synced[path] != files[path]
  }

  /** Those whose names come earlier. */
  function Earlier(names: set<string>, path: string): set<string> {
    set q | q in names && Less(q, path)
  }

  /** k of n replacements work before the first that does not. */
  ghost predicate WorksUntil(works: nat -> bool, n: nat, k: nat) {
    k <= n && (forall i: nat | i < k :: works(i)) && (k < n ==> !works(k))
  }

  function Names(names: seq<string>): set<string> {
    set q | q in names
  }

  predicate InOrder(names: seq<string>) {
    forall i, j | 0 <= i < j < |names| :: Less(names[i], names[j])
  }

  lemma {:induction false} DriftIsInOrder(files: Files, edited: Files, paths: seq<string>)
    requires Ascending(paths)
    ensures InOrder(Drift(files, edited, paths))
  {
    hide Less;
    if paths != [] {
      var front, last := paths[..|paths| - 1], paths[|paths| - 1];
      AscendingFront(paths);
      DriftIsInOrder(files, edited, front);
      var before := Drift(files, edited, front);
      forall i | 0 <= i < |before| ensures Less(before[i], last) {
        assert before[i] in before;
        var k :| 0 <= k < |front| && front[k] == before[i];
        AscendingThroughout(paths, k, |paths| - 1);
      }
    }
  }

  lemma NamesMore(names: seq<string>, last: string)
    ensures Names(names + [last]) == Names(names) + {last} && (last in Names(names) <==> last in names)
  {
  }

  lemma {:induction false} SizeOfFirst(names: seq<string>, n: nat)
    requires InOrder(names) && n <= |names|
    ensures |Names(names[..n])| == n
  {
    hide Less, InOrder, Names;
    if n == 0 {
      NoNames();
    } else {
      SizeOfFirst(names, n - 1);
      LaterIsNew(names, n - 1);
      assert names[..n] == names[..n - 1] + [names[n - 1]];
      NamesMore(names[..n - 1], names[n - 1]);
    }
  }

  lemma NoNames()
    ensures Names([]) == {}
  {
  }

  lemma LaterIsNew(names: seq<string>, n: nat)
    requires InOrder(names) && n < |names|
    ensures names[n] !in names[..n]
  {
    hide Less;
    NotLessThanItself(names[n]);
  }

  /** In order, a name has as many earlier ones as its position says. */
  lemma PositionExactly(names: seq<string>, i: nat)
    requires InOrder(names) && i < |names|
    ensures |Earlier(Names(names), names[i])| == i
  {
    hide Less;
    SizeOfFirst(names, i);
    forall q ensures q in names && Less(q, names[i]) <==> q in names[..i] {
      if q in names && Less(q, names[i]) {
        var k :| 0 <= k < |names| && names[k] == q;
        NotLessThanItself(q);
        if k > i {
          LessIsTransitive(names[i], names[k], names[i]);
          NotLessThanItself(names[i]);
        }
        assert names[..i][k] == q;
      }
    }
    assert Earlier(Names(names), names[i]) == Names(names[..i]);
  }

  lemma DriftIsDrifted<D>(files: Files, items: seq<Item<D>>, edit: Editor<D>)
    requires Synced(files, items, edit).Accepted?
    ensures
      var edited := EditedFiles(files, items, edit).value;
      var drift := Drift(files, edited, SortedPaths(items));
      && InOrder(drift) && Names(drift) == Drifted(files, Synced(files, items, edit).value)
      && |drift| == |Drifted(files, Synced(files, items, edit).value)|
      && forall path | path in drift :: path in edited && Synced(files, items, edit).value[path] == edited[path]
  {
    hide EditedFiles, Settled, SortedPaths, Drift, Less;
    var edited := EditedFiles(files, items, edit).value;
    var paths := SortedPaths(items);
    EveryPathIsEdited(files, items, edit);
    forall path | path in edited ensures path in paths {
      OnlyDeclaredPaths(files, items, edit, path);
    }
    DriftIsInOrder(files, edited, paths);
    var drift := Drift(files, edited, paths);
    SizeOfFirst(drift, |drift|);
    assert drift[..|drift|] == drift;
    assert Names(drift) == Drifted(files, Synced(files, items, edit).value);
  }

  /**
   * Refused exactly when the edits are, or check mode finds a difference; otherwise the files that differ are
   * replaced in the order of their names, as many as can be before the first failure.
   */
  lemma EndingsExactly<D>(files: Files, items: seq<Item<D>>, edit: Editor<D>, check: bool, works: nat -> bool, k: nat)
    requires Synced(files, items, edit).Accepted? ==>
               WorksUntil(works, |Drifted(files, Synced(files, items, edit).value)|, k)
    ensures
      var (after, ending) := SyncEnd(files, items, edit, check, works);
      var synced := Synced(files, items, edit);
      if synced.Rejected? then after == files && ending.Refused?
      else if check then after == files && ending == if synced.value == files then Done else Refused
      else
        var drifted := Drifted(files, synced.value);
        && ending == (if k == |drifted| then Done else Broken) && after.Keys == files.Keys
        && forall path | path in files ::
             after[path] == if path in drifted && |Earlier(drifted, path)| < k then synced.value[path] else files[path]
  {
    hide EditedFiles, Settled, SortedPaths, Drift, Earlier;
    if Synced(files, items, edit).Accepted? {
      AllReplaced(files, items, edit);
      DriftIsDrifted(files, items, edit);
      var synced := Synced(files, items, edit).value;
      var drift := Drift(files, EditedFiles(files, items, edit).value, SortedPaths(items));
      var drifted := Drifted(files, synced);
      assert Working(works, |drift|) == k;
      forall path | path in files ensures path in drift[..k] <==> path in drifted && |Earlier(drifted, path)| < k {
        if path in drifted {
          assert path in drift;
          var i :| 0 <= i < |drift| && drift[i] == path;
          PositionExactly(drift, i);
          assert i < k ==> drift[..k][i] == path;
        }
        if path in drift[..k] {
          var i :| 0 <= i < k && drift[i] == path;
          PositionExactly(drift, i);
          assert path in drift;
        }
      }
    }
  }
}
