/** sync_versions of scripts/version_plan.py: several declared edits over several files, all or none. */
module VersionSync {
  import opened Prelude
  import opened JsonScan
  import opened JsonEdit
  import opened JsonEditLaws

  type Files = map<string, string>

  /** One declared edit: the file it belongs to, and what the edit is told. */
  datatype Item<D> = Item(path: string, declaration: D)

  /** An edit of one format: a new text, or an error. */
  type Editor<!D> = (string, D) -> Decoded<string>

  // ---- What a sync computes ---------------------------------------------------------------------------------

  function Current(files: Files, edited: Files, path: string): Option<string> {
    if path in edited then Some(edited[path]) else if path in files then Some(files[path]) else None
  }

  /** The declared files after all edits in order; a missing file or a refused edit refuses all. */
  function EditedFiles<D>(files: Files, items: seq<Item<D>>, edit: Editor<D>): Decoded<Files> {
    if items == [] then Accepted(map[])
    else
      var before := EditedFiles(files, items[..|items| - 1], edit);
      var item := items[|items| - 1];
      if before.Rejected? || Current(files, before.value, item.path).None? then Rejected
      else
        var updated := edit(Current(files, before.value, item.path).value, item.declaration);
        if updated.Rejected? then Rejected else Accepted(before.value[item.path := updated.value])
  }

  /** No declared edit would change its file any more, even where several selectors share one file. */
  predicate Settled<D>(edited: Files, items: seq<Item<D>>, edit: Editor<D>) {
    forall i | 0 <= i < |items| ::
      items[i].path in edited && edit(edited[items[i].path], items[i].declaration) == Accepted(edited[items[i].path])
  }

  function Synced<D>(files: Files, items: seq<Item<D>>, edit: Editor<D>): Decoded<Files> {
    var edited := EditedFiles(files, items, edit);
    if edited.Rejected? || !Settled(edited.value, items, edit) then Rejected else Accepted(files + edited.value)
  }

  /** The declared paths, each once, in order. */
  function SortedPaths<D>(items: seq<Item<D>>): (paths: seq<string>)
    ensures Ascending(paths)
    ensures forall path :: path in paths <==> exists i | 0 <= i < |items| :: items[i].path == path
  {
    if items == [] then []
    else
      var front, last := items[..|items| - 1], items[|items| - 1];
      assert items == front + [last];
      Insert(SortedPaths(front), last.path)
  }

  /** Of some paths, those whose text differs. */
  function Drift(files: Files, edited: Files, paths: seq<string>): (names: seq<string>)
    ensures forall path ::
              path in names <==>
              path in paths && path in edited && !(path in files && files[path] == edited[path])
  {
    if paths == [] then []
    else
      var front, last := paths[..|paths| - 1], paths[|paths| - 1];
      assert paths == front + [last];
      Drift(files, edited, front) + if last in edited && !(last in files && files[last] == edited[last]) then [last]
          else []
  }

  /** The files with the named ones replaced. */
  function Replaced(files: Files, edited: Files, names: seq<string>): Files {
    map path | path in files :: if path in names && path in edited then edited[path] else files[path]
  }

  datatype Ending = Done | Refused | Broken

  /** What a sync leaves: nothing new when it is refused, and the first drifted files when a replacement fails. */
  function SyncEnd<D>(files: Files, items: seq<Item<D>>, edit: Editor<D>, check: bool,
      works: nat -> bool): (Files, Ending)
  {
    var edited := EditedFiles(files, items, edit);
    if edited.Rejected? || !Settled(edited.value, items, edit) then (files, Refused)
    else
      var drift := Drift(files, edited.value, SortedPaths(items));
      if check then (files, if drift == [] then Done else Refused)
      else
        var done := Working(works, |drift|);
        (Replaced(files, edited.value, drift[..done]), if done == |drift| then Done else Broken)
  }

  /** How many of n replacements work before the first that does not. */
  function Working(works: nat -> bool, n: nat): (done: nat)
    ensures done <= n && (forall i: nat | i < done :: works(i)) && (done < n ==> !works(done))
  {
    if n == 0 then 0
    else
      var before := Working(works, n - 1);
      if before == n - 1 && works(n - 1) then n else before
  }

  // ---- The sync -----------------------------------------------------------------------------------------------

  /** Edit copies of the declared files; the files themselves are not written yet. */
  method EditCopies<D>(files: Files, items: seq<Item<D>>, edit: Editor<D>)
      returns (ok: bool, originals: Files, edited: Files)
    ensures EditedFiles(files, items, edit) == if ok then Accepted(edited) else Rejected
    ensures ok ==> originals.Keys == edited.Keys && forall path | path in originals ::
        path in files && originals[path] == files[path]
  {
    originals, edited := map[], map[];
    for n := 0 to |items|
      invariant EditedFiles(files, items[..n], edit) == Accepted(edited)
      invariant originals.Keys == edited.Keys
      invariant forall path | path in originals :: path in files && originals[path] == files[path]
    {
      assert items[..n + 1][..n] == items[..n];
      var item := items[n];
      var start := edited;
      if item.path !in originals {
        if item.path !in files {
          RefusedStaysRefused(files, items, n + 1, edit);
          return false, originals, edited;
        }
        originals := originals[item.path := files[item.path]];
        start := edited[item.path := files[item.path]];
      }
      var updated := edit(start[item.path], item.declaration);
      if updated.Rejected? {
        RefusedStaysRefused(files, items, n + 1, edit);
        return false, originals, edited;
      }
      assert edited[item.path := updated.value] == start[item.path := updated.value];
      edited := start[item.path := updated.value];
    }
    assert items[..|items|] == items;
    return true, originals, edited;
  }

  lemma {:induction false} RefusedStaysRefused<D>(files: Files, items: seq<Item<D>>, n: nat, edit: Editor<D>)
    requires n <= |items| && EditedFiles(files, items[..n], edit).Rejected?
    ensures EditedFiles(files, items, edit).Rejected?
    decreases |items| - n
  {
    if n < |items| {
      assert items[..n + 1][..n] == items[..n];
      RefusedStaysRefused(files, items, n + 1, edit);
    } else {
      assert items[..n] == items;
    }
  }

  method CheckSettled<D>(edited: Files, items: seq<Item<D>>, edit: Editor<D>) returns (settled: bool)
    requires forall i | 0 <= i < |items| :: items[i].path in edited
    ensures settled <==> Settled(edited, items, edit)
  {
    for n := 0 to |items|
      invariant Settled(edited, items[..n], edit)
    {
      if edit(edited[items[n].path], items[n].declaration) != Accepted(edited[items[n].path]) {
        return false;
      }
      assert items[..n + 1] == items[..n] + [items[n]];
    }
    assert items[..|items|] == items;
    return true;
  }

  lemma {:induction false} EveryPathIsEdited<D>(files: Files, items: seq<Item<D>>, edit: Editor<D>)
    requires EditedFiles(files, items, edit).Accepted?
    ensures forall i | 0 <= i < |items| :: items[i].path in EditedFiles(files, items, edit).value
    ensures forall path | path in EditedFiles(files, items, edit).value :: path in files
  {
    if items != [] {
      var front := items[..|items| - 1];
      EveryPathIsEdited(files, front, edit);
      forall i | 0 <= i < |items| ensures items[i].path in EditedFiles(files, items, edit).value {
        assert i < |front| ==> items[i] == front[i];
      }
    }
  }

  /** Check mode accepts only files that need no change and writes none; otherwise the drifted files are replaced. */
  method SyncVersions<D>(files: Files, items: seq<Item<D>>, edit: Editor<D>, check: bool, works: nat -> bool)
    returns (after: Files, ending: Ending)
    ensures (after, ending) == SyncEnd(files, items, edit, check, works)
  {
    var ok, originals, edited := EditCopies(files, items, edit);
    if !ok {
      return files, Refused;
    }
    EveryPathIsEdited(files, items, edit);
    ok := CheckSettled(edited, items, edit);
    if !ok {
      return files, Refused;
    }
    var drift := Drift(originals, edited, SortedPaths(items));
    SameDrift(files, originals, edited, SortedPaths(items));
    if check {
      return files, if drift == [] then Done else Refused;
    }
    var done: nat;
    after, done := ReplaceDrifted(files, edited, drift, works);
    return after, if done == |drift| then Done else Broken;
  }

  lemma {:induction false} SameDrift(files: Files, originals: Files, edited: Files, paths: seq<string>)
    requires originals.Keys == edited.Keys && forall path | path in originals ::
        path in files && originals[path] == files[path]
    ensures Drift(originals, edited, paths) == Drift(files, edited, paths)
  {
    if paths != [] {
      SameDrift(files, originals, edited, paths[..|paths| - 1]);
    }
  }

  /** Replace the drifted files one after the other, until one cannot be replaced. */
  method ReplaceDrifted(files: Files, edited: Files, drift: seq<string>, works: nat -> bool)
      returns (after: Files, done: nat)
    requires forall name | name in drift :: name in files && name in edited
    ensures done == Working(works, |drift|) && after == Replaced(files, edited, drift[..done])
  {
    after, done := files, 0;
    assert files == Replaced(files, edited, []);
    while done < |drift| && works(done)
      invariant 0 <= done <= |drift| && after == Replaced(files, edited, drift[..done])
      invariant forall i: nat | i < done :: works(i)
    {
      ReplacedNext(files, edited, drift, done);
      after := after[drift[done] := edited[drift[done]]];
      done := done + 1;
    }
  }

  lemma ReplacedNext(files: Files, edited: Files, drift: seq<string>, n: nat)
    requires n < |drift| && drift[n] in files && drift[n] in edited
    ensures Replaced(files, edited, drift[..n + 1]) == Replaced(files, edited, drift[..n])[drift[n] := edited[drift[n]]]
  {
    assert drift[..n + 1] == drift[..n] + [drift[n]];
    var more, less := Replaced(files, edited, drift[..n + 1]),
        Replaced(files, edited, drift[..n])[drift[n] := edited[drift[n]]];
    assert more.Keys == less.Keys;
  }

  // ---- What each ending means -------------------------------------------------------------------------------------

  /** When all drifted files are replaced, the files are the synced ones. */
  lemma AllReplaced<D>(files: Files, items: seq<Item<D>>, edit: Editor<D>)
    requires Synced(files, items, edit).Accepted?
    ensures
      var edited := EditedFiles(files, items, edit).value;
      var drift := Drift(files, edited, SortedPaths(items));
      && Replaced(files, edited, drift) == Synced(files, items, edit).value
      && (drift == [] <==> Synced(files, items, edit).value == files)
  {
    hide EditedFiles, Settled, SortedPaths;
    var edited := EditedFiles(files, items, edit).value;
    EveryPathIsEdited(files, items, edit);
    forall path | path in edited ensures path in SortedPaths(items) {
      OnlyDeclaredPaths(files, items, edit, path);
    }
    DriftCovers(files, edited, SortedPaths(items));
  }

  lemma DriftCovers(files: Files, edited: Files, paths: seq<string>)
    requires forall path | path in edited :: path in files && path in paths
    ensures Replaced(files, edited, Drift(files, edited, paths)) == files + edited
    ensures Drift(files, edited, paths) == [] <==> files + edited == files
  {
    hide Drift;
    var drift, synced := Drift(files, edited, paths), files + edited;
    assert synced.Keys == files.Keys == Replaced(files, edited, drift).Keys;
    if drift == [] {
      forall path | path in edited ensures files[path] == edited[path] {
        assert path !in drift;
      }
      assert synced == files;
    } else {
      assert drift[0] in drift && synced[drift[0]] == edited[drift[0]] != files[drift[0]];
    }
  }

  /**
   * Done: the files are the synced ones, or they already were and nothing is written. Refused: nothing is written.
   * Broken: every file holds its old text or the synced one.
   */
  lemma EndingsMean<D>(files: Files, items: seq<Item<D>>, edit: Editor<D>, check: bool, works: nat -> bool)
    ensures
      var (after, ending) := SyncEnd(files, items, edit, check, works);
      var synced := Synced(files, items, edit);
      && (ending.Done? ==> synced == Accepted(after) && (check ==> after == files))
      && (ending.Refused? ==> after == files && (synced.Rejected? || (check && synced.value != files)))
      && (ending.Broken? ==>
            synced.Accepted? && after.Keys == files.Keys
            && forall path | path in files :: after[path] == files[path] || after[path] == synced.value[path])
  {
    hide Settled, EditedFiles, SortedPaths, Drift;
    if Synced(files, items, edit).Accepted? {
      AllReplaced(files, items, edit);
      EveryPathIsEdited(files, items, edit);
      var drift := Drift(files, EditedFiles(files, items, edit).value, SortedPaths(items));
      assert drift[..|drift|] == drift;
    }
  }

  lemma AscendingFront(paths: seq<string>)
    requires Ascending(paths) && paths != []
    ensures Ascending(paths[..|paths| - 1])
    ensures paths[|paths| - 1] !in paths[..|paths| - 1]
  {
    hide Less;
    forall k | 0 <= k < |paths| - 1 ensures paths[k] != paths[|paths| - 1] {
      AscendingThroughout(paths, k, |paths| - 1);
    }
  }

  /** The drifted names, a part of the ascending paths, are all different. */
  lemma {:induction false} DriftIsDistinct(files: Files, edited: Files, paths: seq<string>, i: nat, j: nat)
    requires Ascending(paths) && i < j < |Drift(files, edited, paths)|
    ensures Drift(files, edited, paths)[i] != Drift(files, edited, paths)[j]
  {
    hide Ascending;
    var front := paths[..|paths| - 1];
    var before := Drift(files, edited, front);
    AscendingFront(paths);
    if j < |before| {
      DriftIsDistinct(files, edited, front, i, j);
    } else {
      assert before[i] in before;
    }
  }

  /** An accepted sync that is allowed to go on this far has written everything or nothing. */
  ghost predicate AllOrNothing<D>(files: Files, items: seq<Item<D>>, edit: Editor<D>, works: nat -> bool) {
    var after := SyncEnd(files, items, edit, false, works).0;
    after == files || Synced(files, items, edit) == Accepted(after)
  }

  /** Only the first replacement works. */
  function OnlyTheFirst(): nat -> bool {
    i => i == 0
  }

  /** Of two drifted files one is replaced, the other not: neither the old files nor the synced ones. */
  lemma OneOfTwo<D>(files: Files, items: seq<Item<D>>, edit: Editor<D>)
    requires Synced(files, items, edit).Accepted?
    requires |Drift(files, EditedFiles(files, items, edit).value, SortedPaths(items))| > 1
    ensures !AllOrNothing(files, items, edit, OnlyTheFirst())
  {
    hide Drift, EditedFiles, Settled, SortedPaths;
    var edited := EditedFiles(files, items, edit).value;
    var drift := Drift(files, edited, SortedPaths(items));
    var first, second := drift[0], drift[1];
    EveryPathIsEdited(files, items, edit);
    DriftIsDistinct(files, edited, SortedPaths(items), 0, 1);
    assert first in drift && second in drift;
    OneWorks(|drift|);
    assert drift[..1] == [first];
    var after := Replaced(files, edited, [first]);
    assert after[first] == edited[first] != files[first];
    assert after[second] == files[second] != edited[second] == (files + edited)[second];
  }

  lemma {:induction false} OneWorks(n: nat)
    requires n > 0
    ensures Working(OnlyTheFirst(), n) == 1
  {
    if n > 1 {
      OneWorks(n - 1);
    }
  }

  /** With at most one file to replace, any failure leaves all or nothing. */
  lemma OneIsAllOrNothing<D>(files: Files, items: seq<Item<D>>, edit: Editor<D>, works: nat -> bool)
    requires Synced(files, items, edit).Accepted?
    requires |Drift(files, EditedFiles(files, items, edit).value, SortedPaths(items))| <= 1
    ensures AllOrNothing(files, items, edit, works)
  {
    hide Drift, EditedFiles, Settled, SortedPaths, Replaced;
    var drift := Drift(files, EditedFiles(files, items, edit).value, SortedPaths(items));
    AllReplaced(files, items, edit);
    NothingReplaced(files, EditedFiles(files, items, edit).value);
    var done := Working(works, |drift|);
    if done == 0 {
      assert drift[..0] == [];
    } else {
      assert drift[..done] == drift;
    }
  }

  lemma NothingReplaced(files: Files, edited: Files)
    ensures Replaced(files, edited, []) == files
  {
  }

  /** An accepted sync writes all or nothing, wherever it may fail, if and only if at most one file drifts. */
  lemma AllOrNothingExactly<D>(files: Files, items: seq<Item<D>>, edit: Editor<D>)
    requires Synced(files, items, edit).Accepted?
    ensures (forall works: nat -> bool :: AllOrNothing(files, items, edit, works))
       <==> |Drift(files, EditedFiles(files, items, edit).value, SortedPaths(items))| <= 1
  {
    hide AllOrNothing, Drift, EditedFiles, Settled, SortedPaths;
    if |Drift(files, EditedFiles(files, items, edit).value, SortedPaths(items))| > 1 {
      OneOfTwo(files, items, edit);
    } else {
      forall works: nat -> bool ensures AllOrNothing(files, items, edit, works) {
        OneIsAllOrNothing(files, items, edit, works);
      }
    }
  }

  /** Files that are final already stay final, and the others go through the same texts as before. */
  ghost predicate Resumes(before: Files, again: Files, final: Files, names: seq<string>) {
    && before.Keys == again.Keys
    && forall path | path in again :: path in final && again[path] == if path in names then final[path]
        else before[path]
  }

  lemma OneResumes<D>(files: Files, final: Files, before: Files, again: Files, item: Item<D>, edit: Editor<D>,
      names: seq<string>)
    requires Resumes(before, again, final, names) && item.path in files && item.path in final
    requires edit(final[item.path], item.declaration) == Accepted(final[item.path])
    requires Current(files, before, item.path).Some?
    requires edit(Current(files, before, item.path).value, item.declaration).Accepted?
    ensures
      var was := edit(Current(files, before, item.path).value, item.declaration).value;
      var now := Current(Replaced(files, final, names), again, item.path);
      && now.Some? && edit(now.value, item.declaration).Accepted?
      && Resumes(before[item.path := was], again[item.path := edit(now.value, item.declaration).value], final, names)
  {
  }

  lemma {:induction false} EditsResume<D>(files: Files, items: seq<Item<D>>, edit: Editor<D>, n: nat,
      names: seq<string>)
    requires n <= |items| && EditedFiles(files, items, edit).Accepted?
    requires Settled(EditedFiles(files, items, edit).value, items, edit)
    ensures
      var final := EditedFiles(files, items, edit).value;
      var before, again := EditedFiles(files, items[..n], edit),
          EditedFiles(Replaced(files, final, names), items[..n], edit);
      before.Accepted? && again.Accepted? && Resumes(before.value, again.value, final, names)
    decreases n
  {
    hide Settled, Replaced, Resumes, Current;
    var final := EditedFiles(files, items, edit).value;
    if EditedFiles(files, items[..n], edit).Rejected? {
      RefusedStaysRefused(files, items, n, edit);
    }
    if n == 0 {
      NothingResumes(final, names);
    } else {
      EditsResume(files, items, edit, n - 1, names);
      assert items[..n][..n - 1] == items[..n - 1];
      EveryPathIsEdited(files, items, edit);
      SettledOne(final, items, edit, n - 1);
      var before, again := EditedFiles(files, items[..n - 1], edit).value,
          EditedFiles(Replaced(files, final, names), items[..n - 1], edit).value;
      OneResumes(files, final, before, again, items[n - 1], edit, names);
    }
  }

  lemma NothingResumes(final: Files, names: seq<string>)
    ensures Resumes(map[], map[], final, names)
  {
  }

  lemma SettledOne<D>(edited: Files, items: seq<Item<D>>, edit: Editor<D>, i: nat)
    requires Settled(edited, items, edit) && i < |items|
    ensures items[i].path in edited
    ensures edit(edited[items[i].path], items[i].declaration) == Accepted(edited[items[i].path])
  {
  }

  /** A sync that broke while replacing files is completed by the next one. */
  lemma NextSyncCompletes<D>(files: Files, items: seq<Item<D>>, edit: Editor<D>, works: nat -> bool)
    requires SyncEnd(files, items, edit, false, works).1.Broken?
    ensures Synced(SyncEnd(files, items, edit, false, works).0, items, edit) == Synced(files, items, edit)
  {
    hide Settled, SortedPaths, Drift, EditedFiles, Replaced;
    var final := EditedFiles(files, items, edit).value;
    var drift := Drift(files, final, SortedPaths(items));
    var names := drift[..Working(works, |drift|)];
    EditsResume(files, items, edit, |items|, names);
    EveryPathIsEdited(files, items, edit);
    assert items[..|items|] == items;
    SameFinal(final, EditedFiles(Replaced(files, final, names), items, edit).value);
    SameUnion(files, final, names);
  }

  lemma SameFinal(final: Files, again: Files)
    requires again.Keys == final.Keys && forall path | path in again :: again[path] == final[path]
    ensures again == final
  {
  }

  lemma SameUnion(files: Files, final: Files, names: seq<string>)
    requires forall path | path in final :: path in files
    ensures Replaced(files, final, names) + final == files + final
  {
    assert Replaced(files, final, names).Keys == files.Keys;
  }

  // ---- What an accepted sync leaves behind ----------------------------------------------------------------------

  /** Every declared edit is a no-op on the final text of its file, and no other file has changed. */
  lemma EveryEditIsANoOp<D>(files: Files, items: seq<Item<D>>, edit: Editor<D>, i: nat)
    requires Synced(files, items, edit).Accepted? && i < |items|
    ensures
      var after := Synced(files, items, edit).value;
      && items[i].path in after && edit(after[items[i].path], items[i].declaration) == Accepted(after[items[i].path])
      && after.Keys == files.Keys
      && forall path | path in files && (forall j | 0 <= j < |items| :: items[j].path != path) ::
          after[path] == files[path]
  {
    var edited := EditedFiles(files, items, edit).value;
    EveryPathIsEdited(files, items, edit);
    forall path | path in files && (forall j | 0 <= j < |items| :: items[j].path != path) ensures path !in edited {
      if path in edited {
        OnlyDeclaredPaths(files, items, edit, path);
      }
    }
    var after := files + edited;
    assert after.Keys == files.Keys;
  }

  lemma {:induction false} OnlyDeclaredPaths<D>(files: Files, items: seq<Item<D>>, edit: Editor<D>, path: string)
    requires EditedFiles(files, items, edit).Accepted? && path in EditedFiles(files, items, edit).value
    ensures exists j :: 0 <= j < |items| && items[j].path == path
  {
    var front := items[..|items| - 1];
    if items[|items| - 1].path != path {
      OnlyDeclaredPaths(files, front, edit, path);
      var j :| 0 <= j < |front| && front[j].path == path;
      assert items[j].path == path;
    }
  }

  /** On settled files the edits change nothing, one after the other. */
  lemma {:induction false} SettledFilesStay<D>(files: Files, items: seq<Item<D>>, edit: Editor<D>)
    requires forall i | 0 <= i < |items| ::
        items[i].path in files && edit(files[items[i].path], items[i].declaration) == Accepted(files[items[i].path])
    ensures EditedFiles(files, items, edit).Accepted?
    ensures forall path | path in EditedFiles(files, items, edit).value ::
        path in files && EditedFiles(files, items, edit).value[path] == files[path]
  {
    if items != [] {
      var front := items[..|items| - 1];
      forall i | 0 <= i < |front|
        ensures front[i].path in files
        ensures edit(files[front[i].path], front[i].declaration) == Accepted(files[front[i].path])
      {
        assert front[i] == items[i];
      }
      SettledFilesStay(files, front, edit);
    }
  }

  /** A second sync accepts and changes nothing, and check mode accepts: whatever the format of the edits. */
  lemma SecondSyncChangesNothing<D>(files: Files, items: seq<Item<D>>, edit: Editor<D>)
    requires Synced(files, items, edit).Accepted?
    ensures
      var after := Synced(files, items, edit).value;
      Synced(after, items, edit) == Accepted(after)
  {
    var after := Synced(files, items, edit).value;
    forall i | 0 <= i < |items|
      ensures items[i].path in after
      ensures edit(after[items[i].path], items[i].declaration) == Accepted(after[items[i].path])
    {
      EveryEditIsANoOp(files, items, edit, i);
    }
    SettledFilesStay(after, items, edit);
    EveryPathIsEdited(after, items, edit);
    assert after + EditedFiles(after, items, edit).value == after;
  }

  // ---- The JSON formats -------------------------------------------------------------------------------------------

  /** The editor of JSON manifests and npm lock files, told the declaration and the projected value. */
  function JsonEditor(text: string, told: (Declaration, Scalar)): Decoded<string> {
    var edited := Edited(text, told.0, told.1);
    if edited.Rejected? then Rejected else Accepted(edited.value.0)
  }

  /** One JSON declaration synchronizes exactly when its edit is accepted and does not rename its own package. */
  lemma JsonSyncsExactly(files: Files, item: Item<(Declaration, Scalar)>)
    ensures Synced(files, [item], JsonEditor).Accepted? <==>
            && item.path in files && Edited(files[item.path], item.declaration.0, item.declaration.1).Accepted?
            && !RenamesItself(item.declaration.0, item.declaration.1)
  {
    hide Edited, RenamesItself;
    var items := [item];
    assert items[..0] == [];
    assert EditedFiles(files, [], JsonEditor) == Accepted(map[]);
    if item.path in files && Edited(files[item.path], item.declaration.0, item.declaration.1).Accepted? {
      EditingAgain(files[item.path], item.declaration.0, item.declaration.1);
    }
  }
}
