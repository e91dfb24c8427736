/**
 * Several JSON declarations that share one file: exactly when sync_versions of scripts/version_plan.py accepts them.
 */
module JsonSync {
  import opened Prelude
  import opened JsonScan
  import opened JsonTree
  import opened JsonPaths
  import opened JsonDocuments
  import opened JsonEdit
  import opened JsonEditLaws
  import opened VersionSync

  /** A declaration and the value that the release plan projects for it. */
  type Told = (Declaration, Scalar)

  function TreeOf(text: string): Cst
    requires DocumentOf(text).Accepted?
  {
    DocumentOf(text).value.tree
  }

  function FieldsIn(c: Cst, told: Told): seq<Path> {
    FieldsOf(told.0, DataOf(c))
  }

  /** The edits of one file, one after the other. */
  function Chain(text: string, told: seq<Told>): Decoded<string> {
    if told == [] then Accepted(text)
    else
      var before := Chain(text, told[..|told| - 1]);
      if before.Rejected? then Rejected else JsonEditor(before.value, told[|told| - 1])
  }

  predicate SameKind(a: Scalar, b: Scalar) {
    (a.Text? <==> b.Text?) && (a.Int? <==> b.Int?)
  }

  lemma KindDecides(value: Scalar, a: Scalar, b: Scalar)
    requires SameKind(a, b)
    ensures Replacement(value, a) == Replacement(value, b)
    ensures Replacement(value, a).Some? ==> SameKind(Replacement(value, a).value, a)
  {
  }

  // ---- One edit -----------------------------------------------------------------------------------------------

  /** Both trees have the same structure, and every scalar keeps its kind. */
  ghost predicate Alike(c: Cst, after: Cst) {
    && WellFormed(c) && WellFormed(after)
    && (forall q: Path :: SameShape(Subtree(c, q), Subtree(after, q)))
    && (forall q: Path | IsLeaf(c, q) :: IsLeaf(after, q) && SameKind(ValueAt(c, q), ValueAt(after, q)))
    && (forall q: Path | IsLeaf(after, q) :: IsLeaf(c, q))
  }

  lemma AlikeJoins(a: Cst, b: Cst, c: Cst)
    requires Alike(a, b) && Alike(b, c)
    ensures Alike(a, c)
  {
    hide WellFormed, Subtree;
    forall q: Path ensures SameShape(Subtree(a, q), Subtree(c, q)) {
      assert SameShape(Subtree(a, q), Subtree(b, q)) && SameShape(Subtree(b, q), Subtree(c, q));
    }
  }

  lemma AlikeToItself(c: Cst)
    requires WellFormed(c)
    ensures Alike(c, c)
  {
    hide WellFormed, Subtree;
  }

  /** Trees that are alike have the same version fields. */
  lemma SameFields(c: Cst, after: Cst, told: Told)
    requires Alike(c, after)
    ensures FieldsIn(after, told) == FieldsIn(c, told)
  {
    hide WellFormed, Subtree, DataOf, FieldsOf;
    FieldsStayTheSame(told.0, c, after);
  }

  lemma EditableIsReplaced(c: Cst, field: Path, value: Scalar)
    requires EditableAt(c, field, value)
    ensures IsLeaf(c, field) && Replacement(value, ValueAt(c, field)).Some?
  {
  }

  lemma TreeEdit(c: Cst, fields: seq<Path>, value: Scalar)
    requires WellFormed(c) && GoodFields(c, fields, value)
    ensures Alike(c, WithFields(c, fields, value))
    ensures forall f | f in fields ::
              IsLeaf(c, f) && Replacement(value, ValueAt(c, f)) == Some(ValueAt(WithFields(c, fields, value), f))
    ensures forall q | q !in fields && IsLeaf(c, q) :: ValueAt(WithFields(c, fields, value), q) == ValueAt(c, q)
  {
    hide WellFormed, WithFields, Subtree, EditableAt, Replacement;
    var after := WithFields(c, fields, value);
    FieldsAreSet(c, fields, value);
    forall f | f in fields
      ensures IsLeaf(c, f) && IsLeaf(after, f) && Replacement(value, ValueAt(c, f)) == Some(ValueAt(after, f))
    {
      var i :| 0 <= i < |fields| && fields[i] == f;
      EditableIsReplaced(c, fields[i], value);
    }
    forall q | IsLeaf(c, q) ensures IsLeaf(after, q) && SameKind(ValueAt(c, q), ValueAt(after, q)) {
      if q in fields {
        KindDecides(value, ValueAt(c, q), ValueAt(c, q));
      }
    }
  }

  lemma OneEdit(text: string, told: Told)
    requires JsonEditor(text, told).Accepted?
    ensures
      var edited := JsonEditor(text, told).value;
      && DocumentOf(text).Accepted? && DocumentOf(edited).Accepted?
      && Alike(TreeOf(text), TreeOf(edited)) && Owned(told.0, DataOf(TreeOf(text)))
      && (forall f | f in FieldsIn(TreeOf(text), told) ::
            IsLeaf(TreeOf(text), f) && Replacement(told.1, ValueAt(TreeOf(text), f))
                == Some(ValueAt(TreeOf(edited), f)))
      && (forall q | q !in FieldsIn(TreeOf(text), told) && IsLeaf(TreeOf(text), q) ::
          ValueAt(TreeOf(edited), q) == ValueAt(TreeOf(text), q))
  {
    hide DocumentOf, DataOf, WellFormed, Owned, FieldsOf, WithFields, IsLeaf, ValueAt, Alike, GoodFields, Replacement;
    hide Makes, SameShape;
    EditedParts(text, told.0, told.1);
    EditedTextReadsBack(text, told.0, told.1);
    TreeEdit(TreeOf(text), FieldsIn(TreeOf(text), told), told.1);
  }

  // ---- A chain of edits -----------------------------------------------------------------------------------------

  lemma FrontIsAccepted(text: string, told: seq<Told>, n: nat)
    requires n <= |told| && Chain(text, told).Accepted?
    ensures Chain(text, told[..n]).Accepted?
    decreases |told|
  {
    if n < |told| {
      assert told[..|told| - 1][..n] == told[..n];
      FrontIsAccepted(text, told[..|told| - 1], n);
    } else {
      assert told[..n] == told;
    }
  }

  /** The tree after the first n edits. */
  function TreeAfter(text: string, told: seq<Told>, n: nat): Cst
    requires n <= |told| && Chain(text, told).Accepted? && DocumentOf(text).Accepted?
  {
    ChainIsRead(text, told, n);
    TreeOf(Chain(text, told[..n]).value)
  }

  lemma {:induction false} ChainIsRead(text: string, told: seq<Told>, n: nat)
    requires n <= |told| && Chain(text, told).Accepted? && DocumentOf(text).Accepted?
    ensures Chain(text, told[..n]).Accepted? && DocumentOf(Chain(text, told[..n]).value).Accepted?
    ensures Alike(TreeOf(text), TreeOf(Chain(text, told[..n]).value))
  {
    hide DocumentOf, JsonEditor, Alike, WellFormed;
    FrontIsAccepted(text, told, n);
    if n == 0 {
      ReadingIsSound(text);
      WellFormedTree(text);
      AlikeToItself(TreeOf(text));
    } else {
      ChainIsRead(text, told, n - 1);
      assert told[..n][..n - 1] == told[..n - 1];
      var before := Chain(text, told[..n - 1]).value;
      OneEdit(before, told[n - 1]);
      AlikeJoins(TreeOf(text), TreeOf(before), TreeOf(JsonEditor(before, told[n - 1]).value));
    }
  }

  lemma WellFormedTree(text: string)
    requires DocumentOf(text).Accepted?
    ensures WellFormed(TreeOf(text))
  {
    hide DocumentOf, WellFormed;
    ReadingIsSound(text);
  }

  /** What edit number n of a chain does, in terms of the document that the chain started from. */
  lemma ChainStep(text: string, told: seq<Told>, n: nat)
    requires n < |told| && Chain(text, told).Accepted? && DocumentOf(text).Accepted?
    ensures
      var c, before, after := TreeOf(text), TreeAfter(text, told, n), TreeAfter(text, told, n + 1);
      && Alike(c, before) && Alike(c, after) && Owned(told[n].0, DataOf(before))
      && (forall f | f in FieldsIn(c, told[n]) ::
            IsLeaf(c, f) && IsLeaf(after, f) && Replacement(told[n].1, ValueAt(c, f)) == Some(ValueAt(after, f)))
      && (forall q | q !in FieldsIn(c, told[n]) && IsLeaf(c, q) ::
            IsLeaf(before, q) && IsLeaf(after, q) && ValueAt(after, q) == ValueAt(before, q))
  {
    hide DocumentOf, JsonEditor, DataOf, Owned, FieldsOf, Replacement, WellFormed, Subtree, SameShape;
    ChainIsRead(text, told, n);
    ChainIsRead(text, told, n + 1);
    assert told[..n + 1][..n] == told[..n];
    var c, before := TreeOf(text), TreeAfter(text, told, n);
    OneEdit(Chain(text, told[..n]).value, told[n]);
    SameFields(c, before, told[n]);
    forall f | f in FieldsIn(c, told[n])
      ensures IsLeaf(c, f) && Replacement(told[n].1, ValueAt(c, f)) == Replacement(told[n].1, ValueAt(before, f))
    {
      KindDecides(told[n].1, ValueAt(c, f), ValueAt(before, f));
    }
  }

  /** A value stays where it is as long as whoever sets that field sets this value. */
  lemma {:induction false} ValueHolds(text: string, told: seq<Told>, q: Path, w: Scalar, a: nat, n: nat)
    requires a <= n <= |told| && Chain(text, told).Accepted? && DocumentOf(text).Accepted? && IsLeaf(TreeOf(text), q)
    requires IsLeaf(TreeAfter(text, told, a), q) && ValueAt(TreeAfter(text, told, a), q) == w
    requires forall j | a <= j < n && q in FieldsIn(TreeOf(text), told[j]) ::
        Replacement(told[j].1, ValueAt(TreeOf(text), q)) == Some(w)
    ensures IsLeaf(TreeAfter(text, told, n), q) && ValueAt(TreeAfter(text, told, n), q) == w
  {
    hide DocumentOf, Chain, TreeAfter, TreeOf, Replacement, FieldsIn, Alike, Subtree;
    if a < n {
      ValueHolds(text, told, q, w, a, n - 1);
      ChainStep(text, told, n - 1);
    }
  }

  // ---- Conflicts --------------------------------------------------------------------------------------------------

  /** The scalars that must name the package for a declaration to own the document. */
  function Owners(c: Cst, d: Declaration): set<Path> {
    match d
    case Manifest(_, package) => if package.Some? then {NAME} else {}
    case NpmLock(_) => if Subtree(c, PACKAGES).Some? && Subtree(c, ROOT + NAME).Some? then {NAME, ROOT + NAME}
        else {NAME}
  }

  function PackageOf(d: Declaration): Key {
    match d
    case Manifest(_, package) => if package.Some? then package.value else []
    case NpmLock(owner) => owner
  }

  /** Both set one field, to different values. */
  predicate SetDifferently(c: Cst, a: Told, b: Told)
    requires WellFormed(c)
  {
    exists f :: f in FieldsIn(c, a) && f in FieldsIn(c, b) && IsLeaf(c, f)
                && Replacement(a.1, ValueAt(c, f)) != Replacement(b.1, ValueAt(c, f))
  }

  /** The second sets a scalar that must name the package of the first, to something else. */
  predicate Renames(c: Cst, a: Told, b: Told)
    requires WellFormed(c)
  {
    exists q :: q in Owners(c, a.0) && q in FieldsIn(c, b) && IsLeaf(c, q)
                && Replacement(b.1, ValueAt(c, q)) != Some(Text(PackageOf(a.0)))
  }

  predicate Compatible(c: Cst, told: seq<Told>)
    requires WellFormed(c)
  {
    && (forall i, j | 0 <= i < j < |told| :: !SetDifferently(c, told[i], told[j]))
    && (forall i, j | 0 <= i <= j < |told| :: !Renames(c, told[i], told[j]))
  }

  /** What ownership asks of the structure of a document. */
  predicate Ownable(c: Cst, d: Declaration) {
    match d
    case Manifest(_, package) => package.Some? ==> IsObjectAt(c, [])
    case NpmLock(_) => IsObjectAt(c, []) && (Subtree(c, PACKAGES).Some? ==> IsObjectAt(c, ROOT))
  }

  /** Where the structure stays, ownership is a matter of the names. */
  lemma OwnedByNames(c: Cst, after: Cst, d: Declaration)
    requires Alike(c, after)
    ensures forall q | IsLeaf(after, q) :: IsLeaf(c, q)
    ensures Owned(d, DataOf(after))
        <==> Ownable(c, d) && forall q | q in Owners(c, d) :: NamesAt(after, q, PackageOf(d))
  {
    hide WellFormed, DataOf, Owned, Subtree;
    OwnedIsOwnedTree(d, after);
    assert SameShape(Subtree(c, []), Subtree(after, []));
    assert SameShape(Subtree(c, PACKAGES), Subtree(after, PACKAGES));
    assert SameShape(Subtree(c, ROOT), Subtree(after, ROOT));
    assert SameShape(Subtree(c, ROOT + NAME), Subtree(after, ROOT + NAME));
    assert IsObjectAt(c, []) <==> IsObjectAt(after, []);
    assert IsObjectAt(c, ROOT) <==> IsObjectAt(after, ROOT);
    match d {
      case Manifest(_, package) =>
        assert package.Some? ==> Owners(c, d) == {NAME} && NAME in Owners(c, d);
      case NpmLock(owner) =>
        assert NAME in Owners(c, d);
        assert (ROOT + NAME in Owners(c, d)) || !(Subtree(c, PACKAGES).Some? && Subtree(c, ROOT + NAME).Some?);
    }
  }

  /** An edit is a no-op exactly when the document is owned and every field already holds its value. */
  lemma NoOpExactly(text: string, told: Told)
    requires DocumentOf(text).Accepted?
    ensures JsonEditor(text, told) == Accepted(text)
       <==> && Owned(told.0, DataOf(TreeOf(text)))
            && forall f | f in FieldsIn(TreeOf(text), told) ::
                 IsLeaf(TreeOf(text), f) && Replacement(told.1, ValueAt(TreeOf(text), f))
                     == Some(ValueAt(TreeOf(text), f))
  {
    hide DocumentOf, DataOf, Owned, FieldsOf, Replacement, WellFormed, Alike, WithFields, TextOf;
    var c, fields := TreeOf(text), FieldsIn(TreeOf(text), told);
    if JsonEditor(text, told) == Accepted(text) {
      OneEdit(text, told);
    }
    if Owned(told.0, DataOf(c)) && forall f | f in fields ::
        IsLeaf(c, f) && Replacement(told.1, ValueAt(c, f)) == Some(ValueAt(c, f)) {
      FieldsAreDistinct(told.0, DataOf(c));
      forall i | 0 <= i < |fields| ensures EditableAt(c, fields[i], told.1) && !Changes(c, fields[i], told.1) {
        assert fields[i] in fields;
      }
      NothingLeftToSet(c, fields, told.1);
      ReadingIsSound(text);
    }
  }

  // ---- When several declarations go together ------------------------------------------------------------------

  /** Every declared edit is a no-op on the text that the chain leaves. */
  ghost predicate AllNoOps(text: string, told: seq<Told>)
    requires Chain(text, told).Accepted?
  {
    forall i | 0 <= i < |told| :: JsonEditor(Chain(text, told).value, told[i]) == Accepted(Chain(text, told).value)
  }

  /** What a declaration finds at the end of the chain. */
  lemma AtTheEnd(text: string, told: seq<Told>, i: nat)
    requires i < |told| && Chain(text, told).Accepted? && DocumentOf(text).Accepted?
    ensures WellFormed(TreeOf(text))
    ensures
      var c, before, after := TreeOf(text), TreeAfter(text, told, i), TreeAfter(text, told, |told|);
      && Alike(c, before) && Alike(c, after) && Owned(told[i].0, DataOf(before))
      && (forall f | f in FieldsIn(c, told[i]) ::
          IsLeaf(c, f) && IsLeaf(after, f)
          && Replacement(told[i].1, ValueAt(after, f)) == Replacement(told[i].1, ValueAt(c, f)))
      && (JsonEditor(Chain(text, told).value, told[i]) == Accepted(Chain(text, told).value)
          <==> && Owned(told[i].0, DataOf(after))
               && forall f | f in FieldsIn(c, told[i]) ::
                   Replacement(told[i].1, ValueAt(c, f)) == Some(ValueAt(after, f)))
  {
    hide DocumentOf, DataOf, Owned, FieldsOf, Replacement, Subtree, SameShape, WellFormed, JsonEditor;
    var c, after := TreeOf(text), TreeAfter(text, told, |told|);
    WellFormedTree(text);
    ChainStep(text, told, i);
    ChainIsRead(text, told, |told|);
    assert told[..|told|] == told;
    NoOpExactly(Chain(text, told).value, told[i]);
    SameFields(c, after, told[i]);
    forall f | f in FieldsIn(c, told[i])
      ensures IsLeaf(c, f) && IsLeaf(after, f)
      ensures Replacement(told[i].1, ValueAt(after, f)) == Replacement(told[i].1, ValueAt(c, f))
    {
      KindDecides(told[i].1, ValueAt(c, f), ValueAt(after, f));
    }
  }

  lemma CompatibleHolds(text: string, told: seq<Told>, i: nat)
    requires i < |told| && Chain(text, told).Accepted? && DocumentOf(text).Accepted? && WellFormed(TreeOf(text))
    requires Compatible(TreeOf(text), told)
    ensures JsonEditor(Chain(text, told).value, told[i]) == Accepted(Chain(text, told).value)
  {
    hide DocumentOf, DataOf, Owned, FieldsIn, Replacement, WellFormed, JsonEditor, Chain, TreeAfter, TreeOf, Owners;
    hide Alike, Subtree;
    var c, n := TreeOf(text), |told|;
    AtTheEnd(text, told, i);
    ChainStep(text, told, i);
    forall f | f in FieldsIn(c, told[i])
      ensures Replacement(told[i].1, ValueAt(c, f)) == Some(ValueAt(TreeAfter(text, told, n), f))
    {
      var w := ValueAt(TreeAfter(text, told, i + 1), f);
      forall j | i + 1 <= j < n && f in FieldsIn(c, told[j]) ensures Replacement(told[j].1, ValueAt(c, f)) == Some(w) {
        assert !SetDifferently(c, told[i], told[j]);
      }
      ValueHolds(text, told, f, w, i + 1, n);
    }
    OwnedByNames(c, TreeAfter(text, told, i), told[i].0);
    OwnedByNames(c, TreeAfter(text, told, n), told[i].0);
    forall q | q in Owners(c, told[i].0)
      ensures IsLeaf(TreeAfter(text, told, n), q) && ValueAt(TreeAfter(text, told, n), q) == Text(PackageOf(told[i].0))
    {
      forall j | i <= j < n && q in FieldsIn(c, told[j])
        ensures Replacement(told[j].1, ValueAt(c, q)) == Some(Text(PackageOf(told[i].0)))
      {
        assert !Renames(c, told[i], told[j]);
      }
      ValueHolds(text, told, q, Text(PackageOf(told[i].0)), i, n);
    }
  }

  lemma NoOpsAreCompatible(text: string, told: seq<Told>, i: nat, j: nat)
    requires i <= j < |told| && Chain(text, told).Accepted? && DocumentOf(text).Accepted? && WellFormed(TreeOf(text))
    requires AllNoOps(text, told)
    ensures !SetDifferently(TreeOf(text), told[i], told[j]) && !Renames(TreeOf(text), told[i], told[j])
  {
    hide DocumentOf, DataOf, Owned, FieldsIn, Replacement, WellFormed, JsonEditor, Chain, TreeAfter, TreeOf, Owners;
    hide Alike, Subtree;
    AtTheEnd(text, told, i);
    AtTheEnd(text, told, j);
    OwnedByNames(TreeOf(text), TreeAfter(text, told, i), told[i].0);
    OwnedByNames(TreeOf(text), TreeAfter(text, told, |told|), told[i].0);
  }

  /** The second look of the sync passes exactly when no two declarations contradict each other. */
  lemma NoOpsExactly(text: string, told: seq<Told>)
    requires Chain(text, told).Accepted? && DocumentOf(text).Accepted?
    ensures WellFormed(TreeOf(text))
    ensures AllNoOps(text, told) <==> Compatible(TreeOf(text), told)
  {
    hide DocumentOf, WellFormed, SetDifferently, Renames, JsonEditor, Chain;
    WellFormedTree(text);
    if Compatible(TreeOf(text), told) {
      forall i | 0 <= i < |told|
        ensures JsonEditor(Chain(text, told).value, told[i]) == Accepted(Chain(text, told).value)
      {
        CompatibleHolds(text, told, i);
      }
    }
    if AllNoOps(text, told) {
      forall i, j | 0 <= i <= j < |told|
        ensures !SetDifferently(TreeOf(text), told[i], told[j]) && !Renames(TreeOf(text), told[i], told[j])
      {
        NoOpsAreCompatible(text, told, i, j);
      }
    }
  }

  // ---- When each edit is accepted in its turn --------------------------------------------------------------------

  /** When declaration i has its turn, the scalar at q names the package: as edits before it left it, or as it was. */
  predicate NamedInTurn(c: Cst, told: seq<Told>, i: nat, q: Path, package: Key)
    requires i <= |told|
  {
    && IsLeaf(c, q)
    && (forall j | 0 <= j < i && q in FieldsIn(c, told[j]) ::
        Replacement(told[j].1, ValueAt(c, q)) == Some(Text(package)))
    && ((forall j | 0 <= j < i :: q !in FieldsIn(c, told[j])) ==> ValueAt(c, q) == Text(package))
  }

  /** The document is owned when declaration i has its turn, and each of its fields can take its value. */
  predicate AcceptedInTurn(c: Cst, told: seq<Told>, i: nat)
    requires i < |told|
  {
    && Ownable(c, told[i].0)
    && (forall q | q in Owners(c, told[i].0) :: NamedInTurn(c, told, i, q, PackageOf(told[i].0)))
    && (forall f | f in FieldsIn(c, told[i]) :: EditableAt(c, f, told[i].1))
  }

  /** What a scalar holds after the chain, in terms of the document that the chain started from. */
  lemma ValueInTurn(text: string, told: seq<Told>, q: Path)
    requires Chain(text, told).Accepted? && DocumentOf(text).Accepted? && IsLeaf(TreeOf(text), q)
    requires WellFormed(TreeOf(text)) && Compatible(TreeOf(text), told)
    ensures
      var c, after := TreeOf(text), TreeAfter(text, told, |told|);
      && Alike(c, after)
      && (forall j | 0 <= j < |told| && q in FieldsIn(c, told[j]) ::
          Replacement(told[j].1, ValueAt(c, q)) == Some(ValueAt(after, q)))
      && ((forall j | 0 <= j < |told| :: q !in FieldsIn(c, told[j])) ==> ValueAt(after, q) == ValueAt(c, q))
  {
    hide DocumentOf, DataOf, Owned, FieldsIn, Replacement, WellFormed, JsonEditor, Chain, TreeAfter, TreeOf, Owners;
    hide Subtree;
    var c, n := TreeOf(text), |told|;
    StartsWith(text, told);
    ChainIsAlike(text, told);
    forall j | 0 <= j < n && q in FieldsIn(c, told[j])
      ensures Replacement(told[j].1, ValueAt(c, q)) == Some(ValueAt(TreeAfter(text, told, n), q))
    {
      ChainStep(text, told, j);
      var w := ValueAt(TreeAfter(text, told, j + 1), q);
      forall k | j + 1 <= k < n && q in FieldsIn(c, told[k]) ensures Replacement(told[k].1, ValueAt(c, q)) == Some(w) {
        assert !SetDifferently(c, told[j], told[k]);
      }
      ValueHolds(text, told, q, w, j + 1, n);
    }
    if forall j | 0 <= j < n :: q !in FieldsIn(c, told[j]) {
      ValueHolds(text, told, q, ValueAt(c, q), 0, n);
    }
  }

  lemma StartsWith(text: string, told: seq<Told>)
    requires Chain(text, told).Accepted? && DocumentOf(text).Accepted?
    ensures TreeAfter(text, told, 0) == TreeOf(text)
  {
    hide DocumentOf, JsonEditor;
    assert told[..0] == [];
  }

  lemma ChainIsAlike(text: string, told: seq<Told>)
    requires Chain(text, told).Accepted? && DocumentOf(text).Accepted?
    ensures DocumentOf(Chain(text, told).value).Accepted?
    ensures TreeAfter(text, told, |told|) == TreeOf(Chain(text, told).value)
    ensures Alike(TreeOf(text), TreeAfter(text, told, |told|))
  {
    hide DocumentOf, JsonEditor, Alike, Chain;
    assert told[..|told|] == told;
    ChainIsRead(text, told, |told|);
  }

  lemma EditorAccepts(text: string, told: Told)
    requires DocumentOf(text).Accepted?
    ensures JsonEditor(text, told).Accepted?
       <==> Owned(told.0, DataOf(TreeOf(text))) && forall f | f in FieldsIn(TreeOf(text), told) ::
           EditableAt(TreeOf(text), f, told.1)
  {
    hide DocumentOf, DataOf, Owned, FieldsOf, EditableAt, WithFields, TextOf;
    var c, fields := TreeOf(text), FieldsIn(TreeOf(text), told);
    FieldsAreDistinct(told.0, DataOf(c));
    assert (forall f | f in fields :: EditableAt(c, f, told.1))
        <==> forall i | 0 <= i < |fields| :: EditableAt(c, fields[i], told.1);
  }

  /** Earlier edits that set a field to the same value make it neither more nor less editable. */
  lemma SameEditable(c: Cst, after: Cst, f: Path, value: Scalar, told: seq<Told>)
    requires Alike(c, after) && IsLeaf(c, f)
    requires forall j | 0 <= j < |told| && f in FieldsIn(c, told[j]) ::
               && Replacement(told[j].1, ValueAt(c, f)) == Some(ValueAt(after, f)) == Replacement(value, ValueAt(c, f))
               && EditableAt(c, f, told[j].1)
    requires (forall j | 0 <= j < |told| :: f !in FieldsIn(c, told[j])) ==> ValueAt(after, f) == ValueAt(c, f)
    ensures EditableAt(after, f, value) <==> EditableAt(c, f, value)
  {
    hide WellFormed, FieldsIn, Subtree, Replacement, SameShape, Dumpable;
    KindDecides(value, ValueAt(c, f), ValueAt(after, f));
  }

  /** Whether the next declaration is accepted can be read off the document that the chain started from. */
  lemma LastIsAccepted(text: string, told: seq<Told>, last: Told)
    requires Chain(text, told).Accepted? && DocumentOf(text).Accepted? && WellFormed(TreeOf(text))
    requires Compatible(TreeOf(text), told + [last])
    requires forall i | 0 <= i < |told| :: AcceptedInTurn(TreeOf(text), told, i)
    ensures JsonEditor(Chain(text, told).value, last).Accepted? <==> AcceptedInTurn(TreeOf(text), told + [last], |told|)
  {
    hide DocumentOf, DataOf, Owned, FieldsOf, Replacement, WellFormed, JsonEditor, Chain, TreeOf, Owners, Subtree;
    hide Alike;
    hide Ownable, EditableAt, TreeAfter;
    var c, before, all := TreeOf(text), TreeAfter(text, told, |told|), told + [last];
    FrontIsCompatible(c, told, last);
    ChainIsAlike(text, told);
    EditorAccepts(Chain(text, told).value, last);
    SameFields(c, before, last);
    OwnedByNames(c, before, last.0);
    forall q | q in Owners(c, last.0)
      ensures NamesAt(before, q, PackageOf(last.0)) <==> NamedInTurn(c, all, |told|, q, PackageOf(last.0))
    {
      NamesInTurn(text, told, last, q);
    }
    forall f | f in FieldsIn(c, last) ensures EditableAt(before, f, last.1) <==> EditableAt(c, f, last.1) {
      EditableInTurn(text, told, last, f);
    }
  }

  lemma FrontIsCompatible(c: Cst, told: seq<Told>, last: Told)
    requires WellFormed(c) && Compatible(c, told + [last])
    ensures Compatible(c, told)
    ensures forall j | 0 <= j < |told| :: !SetDifferently(c, told[j], last)
  {
    hide WellFormed, SetDifferently, Renames;
    var all := told + [last];
    forall i, j | 0 <= i < j < |told| ensures !SetDifferently(c, told[i], told[j]) {
      assert all[i] == told[i] && all[j] == told[j];
    }
    forall i, j | 0 <= i <= j < |told| ensures !Renames(c, told[i], told[j]) {
      assert all[i] == told[i] && all[j] == told[j];
    }
    forall j | 0 <= j < |told| ensures !SetDifferently(c, told[j], last) {
      assert all[j] == told[j] && all[|told|] == last;
    }
  }

  lemma NamesInTurn(text: string, told: seq<Told>, last: Told, q: Path)
    requires Chain(text, told).Accepted? && DocumentOf(text).Accepted?
    requires WellFormed(TreeOf(text)) && Compatible(TreeOf(text), told)
    ensures NamesAt(TreeAfter(text, told, |told|), q, PackageOf(last.0))
       <==> NamedInTurn(TreeOf(text), told + [last], |told|, q, PackageOf(last.0))
  {
    hide DocumentOf, DataOf, FieldsIn, Replacement, WellFormed, JsonEditor, Chain, TreeOf, Subtree, Compatible;
    hide TreeAfter, SameShape;
    ChainIsAlike(text, told);
    assert forall j | 0 <= j < |told| :: (told + [last])[j] == told[j];
    if IsLeaf(TreeOf(text), q) {
      ValueInTurn(text, told, q);
    }
  }

  lemma EditableInTurn(text: string, told: seq<Told>, last: Told, f: Path)
    requires Chain(text, told).Accepted? && DocumentOf(text).Accepted?
    requires WellFormed(TreeOf(text)) && Compatible(TreeOf(text), told)
    requires forall j | 0 <= j < |told| ::
        !SetDifferently(TreeOf(text), told[j], last) && AcceptedInTurn(TreeOf(text), told, j)
    requires f in FieldsIn(TreeOf(text), last)
    ensures EditableAt(TreeAfter(text, told, |told|), f, last.1) <==> EditableAt(TreeOf(text), f, last.1)
  {
    hide DocumentOf, DataOf, FieldsIn, Replacement, WellFormed, JsonEditor, Chain, TreeOf, Subtree, Compatible;
    hide TreeAfter, SameShape;
    hide Owners, Ownable, NamedInTurn;
    ChainIsAlike(text, told);
    var c := TreeOf(text);
    if IsLeaf(c, f) {
      ValueInTurn(text, told, f);
      SameEditable(c, TreeAfter(text, told, |told|), f, last.1, told);
    }
  }

  /** Where no two declarations contradict each other, the chain is accepted if each edit is, read off the start. */
  lemma {:induction false} ChainExactly(text: string, told: seq<Told>)
    requires DocumentOf(text).Accepted? && WellFormed(TreeOf(text)) && Compatible(TreeOf(text), told)
    ensures Chain(text, told).Accepted? <==> forall i | 0 <= i < |told| :: AcceptedInTurn(TreeOf(text), told, i)
  {
    hide DocumentOf, WellFormed, JsonEditor, TreeOf, Compatible, AcceptedInTurn;
    if told != [] {
      var n := |told| - 1;
      var front, last := told[..n], told[n];
      assert told == front + [last];
      FrontIsCompatible(TreeOf(text), front, last);
      ChainExactly(text, front);
      forall i | 0 <= i < n ensures AcceptedInTurn(TreeOf(text), front, i) <==> AcceptedInTurn(TreeOf(text), told, i) {
        SameTurn(TreeOf(text), front, last, i);
      }
      if Chain(text, front).Accepted? {
        LastIsAccepted(text, front, last);
      }
    }
  }

  lemma SameTurn(c: Cst, told: seq<Told>, last: Told, i: nat)
    requires i < |told|
    ensures AcceptedInTurn(c, told, i) <==> AcceptedInTurn(c, told + [last], i)
  {
    hide FieldsIn, Subtree, Replacement, EditableAt, Owners, Ownable;
    assert forall j | 0 <= j <= i :: (told + [last])[j] == told[j];
  }

  function ItemsFor(path: string, told: seq<Told>): seq<Item<Told>> {
    seq(|told|, i requires 0 <= i < |told| => Item(path, told[i]))
  }

  lemma {:induction false} ChainIsTheSync(files: Files, path: string, told: seq<Told>)
    requires path in files && told != []
    ensures EditedFiles(files, ItemsFor(path, told), JsonEditor)
         == if Chain(files[path], told).Accepted? then Accepted(map[path := Chain(files[path], told).value])
             else Rejected
  {
    hide JsonEditor;
    var items, front := ItemsFor(path, told), told[..|told| - 1];
    assert items[..|items| - 1] == ItemsFor(path, front);
    if front == [] {
      assert EditedFiles(files, ItemsFor(path, front), JsonEditor) == Accepted(map[]);
    } else {
      ChainIsTheSync(files, path, front);
      assert forall x: string, y: string :: map[path := x][path := y] == map[path := y];
      assert items[|items| - 1] == Item(path, told[|told| - 1]);
    }
  }

  /** The sync accepts exactly the chains that are accepted and whose declarations do not contradict each other. */
  lemma SyncsAsAChain(files: Files, path: string, told: seq<Told>)
    requires path in files && told != []
    ensures Chain(files[path], told).Accepted? ==> DocumentOf(files[path]).Accepted? && WellFormed(TreeOf(files[path]))
    ensures Synced(files, ItemsFor(path, told), JsonEditor).Accepted?
       <==> Chain(files[path], told).Accepted? && Compatible(TreeOf(files[path]), told)
  {
    hide JsonEditor, DocumentOf, WellFormed, Compatible, EditedFiles, Chain;
    ChainIsTheSync(files, path, told);
    if Chain(files[path], told).Accepted? {
      FirstIsRead(files[path], told);
      NoOpsExactly(files[path], told);
      var items, edited := ItemsFor(path, told), EditedFiles(files, ItemsFor(path, told), JsonEditor).value;
      assert Settled(edited, items, JsonEditor) <==> AllNoOps(files[path], told) by {
        forall i | 0 <= i < |told| ensures items[i].path == path && items[i].declaration == told[i] {
        }
      }
    }
  }

  /**
   * Declarations that share one file synchronize if and only if, read off the document as it was before, each owns
   * it by the names it has or has been given when its turn comes, each field is there and can take its value, no two
   * declarations set one field to different values, and none sets a name by which it or an earlier one owns the file
   * to another.
   */
  lemma SharedFileSyncsExactly(files: Files, path: string, told: seq<Told>)
    requires path in files && told != []
    ensures DocumentOf(files[path]).Accepted? ==> WellFormed(TreeOf(files[path]))
    ensures Synced(files, ItemsFor(path, told), JsonEditor).Accepted?
       <==> && DocumentOf(files[path]).Accepted?
            && (forall i | 0 <= i < |told| :: AcceptedInTurn(TreeOf(files[path]), told, i))
            && Compatible(TreeOf(files[path]), told)
  {
    hide JsonEditor, DocumentOf, WellFormed, Compatible, Chain, Synced, AcceptedInTurn, TreeOf;
    SyncsAsAChain(files, path, told);
    if DocumentOf(files[path]).Accepted? {
      WellFormedTree(files[path]);
      if Compatible(TreeOf(files[path]), told) {
        ChainExactly(files[path], told);
      }
    }
  }

  lemma FirstIsRead(text: string, told: seq<Told>)
    requires told != [] && Chain(text, told).Accepted?
    ensures DocumentOf(text).Accepted?
  {
    hide DocumentOf, JsonEditor;
    FrontIsAccepted(text, told, 1);
    assert told[..1][..0] == [] && told[..1][0] == told[0];
    OneEdit(text, told[0]);
  }

  // ---- Two files that can part ----------------------------------------------------------------------------------

  /** Two manifests that name their package, and a plan that gives both another name. */
  const PAIR: Files := map["a.json" := "{\"name\":\"a\"}", "b.json" := "{\"name\":\"a\"}"]

  const RENAME: Told := (Manifest(NAME, None), Text(Points("b")))

  lemma PairIsEdited()
    ensures JsonEditor("{\"name\":\"a\"}", RENAME) == Accepted("{\"name\":\"b\"}")
    ensures JsonEditor("{\"name\":\"b\"}", RENAME) == Accepted("{\"name\":\"b\"}")
  {
    hide Edited, TextOf, Points;
    LettersDiffer();
    NamedIsSpelled('a');
    NamedIsSpelled('b');
    assert Spelled('a') == "{\"name\":\"a\"}" && Spelled('b') == "{\"name\":\"b\"}";
    NamedIsRenamed(Points("a"), Points("b"), None);
    EditingAgain(Spelled('a'), RENAME.0, RENAME.1);
  }

  /** When the second replacement fails, one manifest has the new name and the other the old one. */
  lemma PairCanPart()
    ensures
      var items := [Item("a.json", RENAME), Item("b.json", RENAME)];
      && Synced(PAIR, items, JsonEditor).Accepted?
      && !AllOrNothing(PAIR, items, JsonEditor, OnlyTheFirst())
  {
    hide JsonEditor, AllOrNothing, Drift, SortedPaths;
    var items := [Item("a.json", RENAME), Item("b.json", RENAME)];
    PairIsEdited();
    PathsDiffer();
    assert items[..1] == [items[0]] && items[..0] == [] && [items[0]][..0] == [];
    var one: Files := map["a.json" := "{\"name\":\"b\"}"];
    assert EditedFiles(PAIR, [], JsonEditor) == Accepted(map[]);
    assert EditedFiles(PAIR, [items[0]], JsonEditor) == Accepted(one);
    assert EditedFiles(PAIR, items, JsonEditor) == Accepted(one["b.json" := "{\"name\":\"b\"}"]);
    var drift := Drift(PAIR, EditedFiles(PAIR, items, JsonEditor).value, SortedPaths(items));
    assert items[0].path in SortedPaths(items) && items[1].path in SortedPaths(items);
    assert "a.json" in drift && "b.json" in drift;
    OneOfTwo(PAIR, items, JsonEditor);
  }

  lemma PathsDiffer()
    ensures "a.json" != "b.json" && "{\"name\":\"a\"}" != "{\"name\":\"b\"}"
  {
    assert "a.json"[0] != "b.json"[0] && "{\"name\":\"a\"}"[9] != "{\"name\":\"b\"}"[9];
  }
}
