/** What a JSON edit promises: it reads back as intended, leaves the rest alone, and need not be made twice. */
module JsonEditLaws {
  import opened Prelude
  import opened JsonScan
  import opened JsonTree
  import opened JsonPaths
  import opened JsonDocuments
  import opened JsonEdit

  // ---- Ownership in terms of the tree -----------------------------------------------------------------------

  predicate IsObjectAt(c: Cst, path: Path) {
    Subtree(c, path).Some? && !Subtree(c, path).value.Leaf? && Subtree(c, path).value.kind.Objects?
  }

  predicate NamesAt(c: Cst, path: Path, package: Key) {
    IsLeaf(c, path) && ValueAt(c, path) == Text(package)
  }

  predicate OwnedTree(d: Declaration, c: Cst) {
    match d
    case Manifest(_, package) => package.Some? ==> IsObjectAt(c, []) && NamesAt(c, NAME, package.value)
    case NpmLock(owner) =>
      && IsObjectAt(c, []) && NamesAt(c, NAME, owner)
      && (Subtree(c, PACKAGES).Some? ==>
            && IsObjectAt(c, ROOT)
            && (Subtree(c, ROOT + NAME).Some? ==> NamesAt(c, ROOT + NAME, owner)))
  }

  lemma DataAt(c: Cst, path: Path, package: Key)
    requires WellFormed(c)
    ensures Get(DataOf(c), path).Some? <==> Subtree(c, path).Some?
    ensures IsObjectAt(c, path) <==> Get(DataOf(c), path).Some? && Get(DataOf(c), path).value.Dict?
    ensures Get(DataOf(c), path) == Some(Value(Text(package))) <==> NamesAt(c, path, package)
  {
    hide WellFormed, Subtree, Get;
    GetIsSubtree(c, path);
  }

  lemma OwnedIsOwnedTree(d: Declaration, c: Cst)
    requires WellFormed(c)
    ensures Owned(d, DataOf(c)) <==> OwnedTree(d, c)
    ensures FieldsOf(d, DataOf(c)) == match d
                                      case Manifest(field, _) => [field]
                                      case NpmLock(_) => if Subtree(c, PACKAGES).Some? then [VERSION, ROOT + VERSION]
                                          else [VERSION]
  {
    hide WellFormed, DataOf, IsObjectAt, NamesAt;
    var package := match d case Manifest(_, p) => (if p.Some? then p.value else []) case NpmLock(owner) => owner;
    DataAt(c, NAME, package);
    DataAt(c, [], package);
    DataAt(c, PACKAGES, package);
    DataAt(c, ROOT, package);
    DataAt(c, ROOT + NAME, package);
    assert Get(DataOf(c), []) == Some(DataOf(c));
  }

  // ---- Fields after the edit ----------------------------------------------------------------------------------

  lemma FieldIsSet(c: Cst, field: Path, value: Scalar)
    requires EditableAt(c, field, value)
    ensures IsLeaf(WithField(c, field, value), field)
    ensures ValueAt(WithField(c, field, value), field) == Replacement(value, ValueAt(c, field)).value
  {
    if Changes(c, field, value) {
      ReplaceKeeps(c, field, LeafFor(value, ValueAt(c, field)), "");
    }
  }

  lemma OthersStay(c: Cst, field: Path, value: Scalar, q: Path)
    requires EditableAt(c, field, value) && q != field
    ensures IsLeaf(WithField(c, field, value), q) <==> IsLeaf(c, q)
    ensures IsLeaf(c, q) ==> Subtree(WithField(c, field, value), q) == Subtree(c, q)
  {
    if Changes(c, field, value) {
      OtherLeavesStay(c, field, LeafFor(value, ValueAt(c, field)), q);
    }
  }

  lemma ShapeStays(c: Cst, field: Path, value: Scalar, q: Path)
    requires EditableAt(c, field, value)
    ensures SameShape(Subtree(c, q), Subtree(WithField(c, field, value), q))
  {
    if Changes(c, field, value) {
      ReplaceKeepsShape(c, field, LeafFor(value, ValueAt(c, field)), q);
    }
  }

  lemma FieldStaysWellFormed(c: Cst, field: Path, value: Scalar)
    requires WellFormed(c) && EditableAt(c, field, value)
    ensures WellFormed(WithField(c, field, value))
  {
    hide WellFormed, Dumps, Replace;
    if Changes(c, field, value) {
      DumpsReadsBack(Replacement(value, ValueAt(c, field)).value);
      ReplaceIsWellFormed(c, field, LeafFor(value, ValueAt(c, field)));
    }
  }

  /** The chosen replacement replaces itself, so a set field needs no second edit. */
  lemma ReplacementIsStable(value: Scalar, held: Scalar)
    requires Replacement(value, held).Some?
    ensures Replacement(value, Replacement(value, held).value) == Replacement(value, held)
  {
  }

  /** A declaration whose edit overwrites the very name that proves its ownership, with some other name. */
  predicate RenamesItself(d: Declaration, value: Scalar) {
    d.Manifest? && d.package.Some? && d.field == NAME && Replacement(value, Text([])) != Some(Text(d.package.value))
  }

  ghost predicate GoodFields(c: Cst, fields: seq<Path>, value: Scalar) {
    && 1 <= |fields| <= 2 && (|fields| == 2 ==> fields[0] != fields[1])
    && forall i | 0 <= i < |fields| :: EditableAt(c, fields[i], value)
  }

  /** The edited tree: well formed, each field set, every other scalar and all structure as before. */
  lemma FieldsAreSet(c: Cst, fields: seq<Path>, value: Scalar)
    requires WellFormed(c) && GoodFields(c, fields, value)
    ensures
      var after := WithFields(c, fields, value);
      && WellFormed(after)
      && (forall i | 0 <= i < |fields| ::
            IsLeaf(after, fields[i]) && ValueAt(after, fields[i]) == Replacement(value, ValueAt(c, fields[i])).value)
      && (forall q | q !in fields ::
          (IsLeaf(after, q) <==> IsLeaf(c, q)) && (IsLeaf(c, q) ==> Subtree(after, q) == Subtree(c, q)))
      && (forall q: Path :: SameShape(Subtree(c, q), Subtree(after, q)))
  {
    hide WellFormed, WithField, Replacement, SameShape;
    var first := WithField(c, fields[0], value);
    FieldStaysWellFormed(c, fields[0], value);
    FieldIsSet(c, fields[0], value);
    forall q | q != fields[0]
      ensures (IsLeaf(first, q) <==> IsLeaf(c, q)) && (IsLeaf(c, q) ==> Subtree(first, q) == Subtree(c, q))
    {
      OthersStay(c, fields[0], value, q);
    }
    forall q: Path ensures SameShape(Subtree(c, q), Subtree(first, q)) {
      ShapeStays(c, fields[0], value, q);
    }
    if |fields| == 2 {
      WithFieldKeeps(c, fields[0], fields[1], value);
      SecondFieldIsSet(c, first, fields[0], fields[1], value);
    }
  }

  lemma SecondFieldIsSet(c: Cst, first: Cst, p: Path, q: Path, value: Scalar)
    requires WellFormed(first) && EditableAt(first, q, value) && p != q && IsLeaf(first, p)
    requires forall r: Path :: SameShape(Subtree(c, r), Subtree(first, r))
    ensures
      var after := WithField(first, q, value);
      && WellFormed(after)
      && IsLeaf(after, q) && ValueAt(after, q) == Replacement(value, ValueAt(first, q)).value
      && Subtree(after, p) == Subtree(first, p)
      && (forall r | r != q ::
            && (IsLeaf(after, r) <==> IsLeaf(first, r))
            && (IsLeaf(first, r) ==> Subtree(after, r) == Subtree(first, r)))
      && (forall r: Path :: SameShape(Subtree(c, r), Subtree(after, r)))
  {
    hide WellFormed, WithField, Replacement;
    var after := WithField(first, q, value);
    FieldStaysWellFormed(first, q, value);
    FieldIsSet(first, q, value);
    forall r | r != q
      ensures (IsLeaf(after, r) <==> IsLeaf(first, r)) && (IsLeaf(first, r) ==> Subtree(after, r) == Subtree(first, r))
    {
      OthersStay(first, q, value, r);
    }
    forall r: Path ensures SameShape(Subtree(c, r), Subtree(after, r)) {
      ShapeStays(first, q, value, r);
      assert SameShape(Subtree(c, r), Subtree(first, r));
    }
  }

  // ---- The laws -------------------------------------------------------------------------------------------------

  lemma EditedParts(text: string, d: Declaration, value: Scalar)
    requires Edited(text, d, value).Accepted?
    ensures
      var doc := DocumentOf(text).value;
      var fields := FieldsOf(d, DataOf(doc.tree));
      && DocumentOf(text).Accepted? && text == TextOf(doc) && WellFormedDocument(doc)
      && Owned(d, DataOf(doc.tree)) && GoodFields(doc.tree, fields, value)
      && Edited(text, d, value).value.0 == TextOf(doc.(tree := WithFields(doc.tree, fields, value)))
  {
    hide DocumentOf, DataOf, Owned, TextOf, WellFormedDocument, EditableAt, WithFields;
    ReadingIsSound(text);
    FieldsAreDistinct(d, DataOf(DocumentOf(text).value.tree));
  }

  /**
   * An accepted edit replaces the tokens of the fields that change, and no other character of the text; the
   * result reads back as the same document with exactly those scalars set.
   */
  lemma EditedTextReadsBack(text: string, d: Declaration, value: Scalar)
    requires Edited(text, d, value).Accepted?
    ensures
      var doc := DocumentOf(text).value;
      var fields, edited := FieldsOf(d, DataOf(doc.tree)), Edited(text, d, value).value.0;
      && GoodFields(doc.tree, fields, value)
      && Makes(Descending(EditsFor(doc, fields, value)), text, edited)
      && DocumentOf(edited) == Accepted(doc.(tree := WithFields(doc.tree, fields, value)))
      && (forall i | 0 <= i < |fields| ::
            && IsLeaf(DocumentOf(edited).value.tree, fields[i])
            && ValueAt(DocumentOf(edited).value.tree, fields[i])
                == Replacement(value, ValueAt(doc.tree, fields[i])).value)
      && (forall q | q !in fields && IsLeaf(doc.tree, q) ::
          Subtree(DocumentOf(edited).value.tree, q) == Subtree(doc.tree, q))
      && (forall q: Path :: SameShape(Subtree(doc.tree, q), Subtree(DocumentOf(edited).value.tree, q)))
  {
    hide DocumentOf, DataOf, Owned, TextOf, WellFormed, EditableAt, WithFields, Makes, SameShape;
    EditedParts(text, d, value);
    var doc := DocumentOf(text).value;
    var fields := FieldsOf(d, DataOf(doc.tree));
    EditsOfFields(doc, fields, value);
    FieldsAreSet(doc.tree, fields, value);
    ReadingIsComplete(doc.(tree := WithFields(doc.tree, fields, value)));
  }

  lemma NothingLeftToSet(c: Cst, fields: seq<Path>, value: Scalar)
    requires GoodFields(c, fields, value)
    requires forall i | 0 <= i < |fields| :: !Changes(c, fields[i], value)
    ensures WithFields(c, fields, value) == c
  {
  }

  lemma StillOwned(d: Declaration, c: Cst, after: Cst, value: Scalar)
    requires OwnedTree(d, c)
    requires forall q: Path :: SameShape(Subtree(c, q), Subtree(after, q))
    requires forall q | IsLeaf(c, q) && (d.Manifest? ==> q != d.field) && q != VERSION && q != ROOT + VERSION ::
        Subtree(after, q) == Subtree(c, q)
    requires d.Manifest? ==>
               && IsLeaf(c, d.field) && IsLeaf(after, d.field)
               && Replacement(value, ValueAt(c, d.field)) == Some(ValueAt(after, d.field))
    requires d.Manifest? ==> forall q | IsLeaf(c, q) && q != d.field :: Subtree(after, q) == Subtree(c, q)
    ensures OwnedTree(d, after) <==> !RenamesItself(d, value)
  {
    hide Subtree, Replacement;
    assert SameShape(Subtree(c, []), Subtree(after, []));
    assert SameShape(Subtree(c, PACKAGES), Subtree(after, PACKAGES));
    assert SameShape(Subtree(c, ROOT), Subtree(after, ROOT));
    assert SameShape(Subtree(c, ROOT + NAME), Subtree(after, ROOT + NAME));
    assert SameShape(Subtree(c, NAME), Subtree(after, NAME));
    PathsDiffer();
    if d.Manifest? && d.package.Some? && d.field == NAME {
      TextReplacesAlike(value, d.package.value);
    }
  }

  lemma TextReplacesAlike(value: Scalar, points: Key)
    ensures Replacement(value, Text(points)) == Replacement(value, Text([]))
  {
  }

  lemma PathsDiffer()
    ensures NAME != VERSION && NAME != ROOT + VERSION && ROOT + NAME != VERSION && ROOT + NAME != ROOT + VERSION
  {
    assert Points("name")[0] != Points("version")[0];
    assert (ROOT + NAME)[2] != (ROOT + VERSION)[2];
  }

  lemma NothingChangesAgain(c: Cst, fields: seq<Path>, value: Scalar)
    requires WellFormed(c) && GoodFields(c, fields, value)
    ensures
      var after := WithFields(c, fields, value);
      GoodFields(after, fields, value) && WithFields(after, fields, value) == after
  {
    hide WellFormed, WithFields, SameShape, Subtree, Replacement;
    FieldsAreSet(c, fields, value);
    var after := WithFields(c, fields, value);
    forall i | 0 <= i < |fields| ensures EditableAt(after, fields[i], value) && !Changes(after, fields[i], value) {
      ReplacementIsStable(value, ValueAt(c, fields[i]));
    }
    NothingLeftToSet(after, fields, value);
  }

  lemma OwnershipAfter(d: Declaration, c: Cst, value: Scalar)
    requires WellFormed(c) && Owned(d, DataOf(c)) && GoodFields(c, FieldsOf(d, DataOf(c)), value)
    ensures
      var after := WithFields(c, FieldsOf(d, DataOf(c)), value);
      && FieldsOf(d, DataOf(after)) == FieldsOf(d, DataOf(c))
      && (Owned(d, DataOf(after)) <==> !RenamesItself(d, value))
  {
    hide DataOf, WellFormed, WithFields, SameShape, Owned, OwnedTree, Subtree, Replacement, FieldsOf, RenamesItself;
    var fields := FieldsOf(d, DataOf(c));
    var after := WithFields(c, fields, value);
    FieldsAreSet(c, fields, value);
    OwnedIsOwnedTree(d, c);
    OwnedIsOwnedTree(d, after);
    assert SameShape(Subtree(c, PACKAGES), Subtree(after, PACKAGES));
    FieldsStayTheSame(d, c, after);
    assert d.Manifest? ==> fields[0] == d.field;
    StillOwned(d, c, after, value);
  }

  /**
   * Editing an edited text again changes nothing, unless the edit has renamed the package that proved its
   * ownership: then, and only then, the second edit is refused.
   */
  lemma EditingAgain(text: string, d: Declaration, value: Scalar)
    requires Edited(text, d, value).Accepted?
    ensures
      var edited := Edited(text, d, value).value.0;
      if RenamesItself(d, value) then Edited(edited, d, value).Rejected?
      else Edited(edited, d, value).Accepted? && Edited(edited, d, value).value.0 == edited
  {
    hide DocumentOf, DataOf, TextOf, WellFormed, WithFields, Makes, SameShape, Owned, Subtree, EditableAt, FieldsOf;
    hide RenamesItself;
    EditedParts(text, d, value);
    EditedTextReadsBack(text, d, value);
    var c := DocumentOf(text).value.tree;
    OwnershipAfter(d, c, value);
    NothingChangesAgain(c, FieldsOf(d, DataOf(c)), value);
  }

  lemma FieldsStayTheSame(d: Declaration, c: Cst, after: Cst)
    requires WellFormed(c) && WellFormed(after) && SameShape(Subtree(c, PACKAGES), Subtree(after, PACKAGES))
    ensures FieldsOf(d, DataOf(after)) == FieldsOf(d, DataOf(c))
    ensures d.Manifest? ==> FieldsOf(d, DataOf(c)) == [d.field]
    ensures d.NpmLock? ==> forall q | q in FieldsOf(d, DataOf(c)) :: q == VERSION || q == ROOT + VERSION
  {
    hide WellFormed, DataOf, Subtree, OwnedTree, Owned;
    OwnedIsOwnedTree(d, c);
    OwnedIsOwnedTree(d, after);
  }

  // ---- A package that renames itself ---------------------------------------------------------------------------

  /** The document of a package that says no more than its name. */
  function Named(package: Key): Document
    requires Writable(package)
  {
    var name := Label(Dumps(Text(Points("name"))), Points("name"), "", "");
    Document("", Filled(Objects, Last("", name, Leaf(Dumps(Text(package)), Text(package)), "")), "")
  }

  lemma NamedIsWellFormed(package: Key)
    requires Writable(package)
    ensures WellFormedDocument(Named(package))
  {
    hide Scan, Dumps;
    DumpsReadsBack(Text(Points("name")));
    DumpsReadsBack(Text(package));
    var items := Named(package).tree.items;
    assert WellLabelled(Objects, items.name, {}) && WellFormed(items.value);
    assert WellFormedItems(Objects, items, {});
  }

  /** Giving the package of such a file a new name leaves the document of the new name, whoever owns it. */
  lemma NamedIsRenamed(was: Key, name: Key, owner: Option<Key>)
    requires Writable(was) && Writable(name) && was != name && (owner.None? || owner == Some(was))
    ensures
      var edited := Edited(TextOf(Named(was)), Manifest(NAME, owner), Text(name));
      edited.Accepted? && edited.value.0 == TextOf(Named(name))
  {
    hide DocumentOf, TextOf, DataOf, WellFormed, Dumps;
    var d, c := Manifest(NAME, owner), Named(was).tree;
    NamedIsWellFormed(was);
    ReadingIsComplete(Named(was));
    OwnedIsOwnedTree(d, c);
    assert NAME[1..] == [] && Subtree(c.items.value, []) == Some(c.items.value);
    assert Subtree(c, NAME) == Some(c.items.value);
    var leaf := Leaf(Dumps(Text(name)), Text(name));
    assert Replace(c.items.value, [], leaf) == leaf;
    assert ReplaceIn(c.items, 0, NAME, leaf) == Last(c.items.before, c.items.name, leaf, c.items.after);
    assert WithField(c, NAME, Text(name)) == Replace(c, NAME, leaf) == Named(name).tree;
  }

  /** An edit that gives the package of a file its new name is accepted, and refused when it is made again. */
  lemma RenamingIsRefusedTheSecondTime(was: Key, name: Key)
    requires Writable(was) && Writable(name) && was != name
    ensures
      var d, text := Manifest(NAME, Some(was)), TextOf(Named(was));
      && Edited(text, d, Text(name)).Accepted?
      && Edited(Edited(text, d, Text(name)).value.0, d, Text(name)).Rejected?
  {
    hide DocumentOf, TextOf, DataOf, WellFormed, WithFields, Dumps, Edited;
    NamedIsRenamed(was, name, Some(was));
    EditingAgain(TextOf(Named(was)), Manifest(NAME, Some(was)), Text(name));
  }

  lemma EscapedNext(point: int, rest: seq<int>)
    requires IsScalarValue(point) && Writable(rest)
    ensures Writable([point] + rest)
    ensures EscapedAll([point] + rest) == Escaped(point) + EscapedAll(rest)
  {
    assert ([point] + rest)[1..] == rest;
  }

  lemma NameIsSpelled(letter: char)
    requires 'a' <= letter <= 'z'
    ensures Writable(Points("name")) && EscapedAll(Points("name")) == "name"
    ensures Writable(Points([letter])) && EscapedAll(Points([letter])) == [letter]
  {
    hide EscapedAll;
    EscapedNothing();
    EscapedNext(0x65, []);
    EscapedNext(0x6D, [0x65]);
    EscapedNext(0x61, [0x6D, 0x65]);
    EscapedNext(0x6E, [0x61, 0x6D, 0x65]);
    EscapedNext(letter as int, []);
    assert Points("name") == [0x6E] + [0x61, 0x6D, 0x65];
    assert [0x61, 0x6D, 0x65] == [0x61] + [0x6D, 0x65] && [0x6D, 0x65] == [0x6D] + [0x65];
    assert [0x65] == [0x65] + [] && Points([letter]) == [letter as int] + [];
  }

  lemma EscapedNothing()
    ensures EscapedAll([]) == ""
  {
  }

  /** Such files letter by letter. */
  function Spelled(letter: char): string {
    "{\"name\":\"" + [letter] + "\"}"
  }

  lemma NamedIsSpelled(letter: char)
    requires 'a' <= letter <= 'z'
    ensures Writable(Points([letter])) && TextOf(Named(Points([letter]))) == Spelled(letter)
  {
    hide EscapedAll, Points;
    NameIsSpelled(letter);
    var package := Points([letter]);
    var name, value := Dumps(Text(Points("name"))), Dumps(Text(package));
    var items := Named(package).tree.items;
    assert name == "\"name\"" && value == "\"" + [letter] + "\"";
    assert TailTo(Objects, items, "") == "}" && "" + "}" == "}";
    assert PrintTo(items.value, "}") == value + "}";
    assert ItemsTo(Objects, items, "") == "" + (name + ("" + (":" + ("" + (value + "}")))));
    assert TextOf(Named(package)) == "" + ("{" + ItemsTo(Objects, items, ""));
  }

  /** {"name":"a"} becomes {"name":"b"}, which the same edit then refuses. */
  lemma OneFileIsRefusedTheSecondTime()
    ensures
      var d, value := Manifest(NAME, Some(Points("a"))), Text(Points("b"));
      && Edited("{\"name\":\"a\"}", d, value).Accepted?
          && Edited("{\"name\":\"a\"}", d, value).value.0 == "{\"name\":\"b\"}"
      && Edited("{\"name\":\"b\"}", d, value).Rejected?
  {
    hide Edited, TextOf, Points;
    LettersDiffer();
    NamedIsSpelled('a');
    NamedIsSpelled('b');
    assert Spelled('a') == "{\"name\":\"a\"}" && Spelled('b') == "{\"name\":\"b\"}";
    NamedIsRenamed(Points("a"), Points("b"), Some(Points("a")));
    RenamingIsRefusedTheSecondTime(Points("a"), Points("b"));
  }

  lemma LettersDiffer()
    ensures Points("a") != Points("b")
  {
    assert Points("a")[0] != Points("b")[0];
  }
}
