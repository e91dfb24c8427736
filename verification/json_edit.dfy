/** _json_edit of scripts/version_plan.py: change the owned version fields of a document and nothing else. */
module JsonEdit {
  import opened Prelude
  import opened JsonScan
  import opened JsonTree
  import opened JsonPaths
  import opened JsonDocuments

  // ---- Whole documents ------------------------------------------------------------------------------------

  /** A document with the spaces around it. */
  datatype Document = Document(lead: string, tree: Cst, trail: string)

  function TextOf(doc: Document): string {
    doc.lead + PrintTo(doc.tree, doc.trail)
  }

  /** The whole text must be one value. */
  function DocumentOf(text: string): Decoded<Document> {
    var value := ParseValue(AfterSpaces(text));
    if value.Rejected? || AfterSpaces(value.value.1) != "" then Rejected
    else Accepted(Document(text[..Spaces(text)], value.value.0, value.value.1))
  }

  predicate WellFormedDocument(doc: Document) {
    AllSpace(doc.lead) && WellFormed(doc.tree) && AllSpace(doc.trail)
  }

  /** Reading accepts exactly the texts of well-formed documents, and reads each as the document it spells. */
  lemma ReadingIsSound(text: string)
    requires DocumentOf(text).Accepted?
    ensures text == TextOf(DocumentOf(text).value) && WellFormedDocument(DocumentOf(text).value)
  {
    hide ParseValue, PrintTo, WellFormed, Spaces, AfterSpaces, AllSpace;
    SpacesSplit(text);
    ValueIsSound(AfterSpaces(text));
    SpacesSplit(ParseValue(AfterSpaces(text)).value.1);
    var trail := ParseValue(AfterSpaces(text)).value.1;
    assert trail[..Spaces(trail)] + "" == trail[..Spaces(trail)];
  }

  lemma ReadingIsComplete(doc: Document)
    requires WellFormedDocument(doc)
    ensures DocumentOf(TextOf(doc)) == Accepted(doc)
  {
    hide ParseValue, PrintTo, WellFormed, Spaces, AfterSpaces;
    ValueStarts(doc.tree, doc.trail);
    SpacesEnd(doc.lead, PrintTo(doc.tree, doc.trail));
    ValueIsComplete(doc.tree, doc.trail);
    SpacesEnd(doc.trail, "");
    assert doc.trail + "" == doc.trail;
  }

  /** _json_document: the value of a whole text and the positions of its scalars. */
  method ReadJson(text: string) returns (ok: bool, data: Json, spans: Spans)
    ensures ok <==> DocumentOf(text).Accepted?
    ensures ok ==> data == DataOf(DocumentOf(text).value.tree)
    ensures ok ==> spans == SpansOf(DocumentOf(text).value.tree, [], |DocumentOf(text).value.lead|)
  {
    hide ParseValue, Spaces, SpansOf, DataOf;
    var document := new JsonDocument(text);
    var end: nat;
    ok, data, end := document.Parse(0, []);
    assert text[0..] == text;
    if ok {
      RestOfText(text, 0, AfterSpaces(text));
      SpacesSplit(text);
      var last := document.Whitespace(end);
      ok := last == |text|;
      spans := document.spans;
      ghost var found := SpansOf(ParseValue(AfterSpaces(text)).value.0, [], |text| - |AfterSpaces(text)|);
      assert map[] + found == found;
    } else {
      spans := map[];
    }
  }

  // ---- Fields and ownership ---------------------------------------------------------------------------------

  function Points(s: string): seq<int> {
    seq(|s|, i requires 0 <= i < |s| => s[i] as int)
  }

  /** One field of a manifest, or the version fields of an npm lock file; package is the owner the file must name. */
  datatype Declaration = Manifest(field: Path, package: Option<Key>) | NpmLock(owner: Key)

  /** _get on the parsed value. */
  function Get(data: Json, path: Path): Option<Json>
    decreases |path|
  {
    if path == [] then Some(data)
    else match path[0]
      case Name(key) => if data.Dict? && key in data.members then Get(data.members[key], path[1..]) else None
      case At(index) => if data.List? && index < |data.elements| then Get(data.elements[index], path[1..]) else None
  }

  const NAME: Path := [Name(Points("name"))]
  const VERSION: Path := [Name(Points("version"))]
  const PACKAGES: Path := [Name(Points("packages"))]
  const ROOT: Path := [Name(Points("packages")), Name([])]

  predicate Names(data: Json, package: Key) {
    Get(data, NAME) == Some(Value(Text(package)))
  }

  /** The document's own name is the package, and the root package of a lock file does not say otherwise. */
  predicate Owned(d: Declaration, data: Json) {
    match d
    case Manifest(_, package) => package.Some? ==> data.Dict? && Names(data, package.value)
    case NpmLock(owner) =>
      && data.Dict? && Names(data, owner)
      && (Get(data, PACKAGES).Some? ==>
            && Get(data, ROOT).Some? && Get(data, ROOT).value.Dict?
            && (Get(data, ROOT + NAME).Some? ==> Get(data, ROOT + NAME) == Some(Value(Text(owner)))))
  }

  function FieldsOf(d: Declaration, data: Json): seq<Path> {
    match d
    case Manifest(field, _) => [field]
    case NpmLock(_) => if Get(data, PACKAGES).Some? then [VERSION, ROOT + VERSION] else [VERSION]
  }

  /** _scalar: strings take the projection as text, integers only an integer; other scalars are not owned. */
  function Replacement(value: Scalar, held: Scalar): Option<Scalar> {
    match held
    case Text(_) => if value.Int? then Some(Text(Points(IntText(value.n)))) else if value.Text? then Some(value)
        else None
    case Int(_) => if value.Int? then Some(value) else None
    case _ => None
  }

  /** An edit that can be made: nothing to change, or a change that can be written. */
  predicate Editable(value: Scalar, held: Scalar) {
    Replacement(value, held).Some?
        && (Replacement(value, held).value == held || Dumpable(Replacement(value, held).value))
  }

  predicate EditableAt(c: Cst, field: Path, value: Scalar) {
    IsLeaf(c, field) && Editable(value, ValueAt(c, field))
  }

  function LeafFor(value: Scalar, held: Scalar): Cst
    requires Editable(value, held) && Replacement(value, held).value != held
  {
    Leaf(Dumps(Replacement(value, held).value), Replacement(value, held).value)
  }

  /** The tree with one field set. */
  function WithField(c: Cst, field: Path, value: Scalar): Cst
    requires EditableAt(c, field, value)
  {
    var held := ValueAt(c, field);
    if Replacement(value, held).value == held then c else Replace(c, field, LeafFor(value, held))
  }

  /** The tree with all fields set, the last of them first. */
  function WithFields(c: Cst, fields: seq<Path>, value: Scalar): Cst
    requires |fields| <= 2 && forall i | 0 <= i < |fields| :: EditableAt(c, fields[i], value)
    requires |fields| == 2 ==> fields[0] != fields[1]
  {
    if fields == [] then c
    else if |fields| == 1 then WithField(c, fields[0], value)
    else
      WithFieldKeeps(c, fields[0], fields[1], value);
      WithField(WithField(c, fields[0], value), fields[1], value)
  }

  lemma WithFieldKeeps(c: Cst, field: Path, other: Path, value: Scalar)
    requires EditableAt(c, field, value) && EditableAt(c, other, value) && field != other
    ensures EditableAt(WithField(c, field, value), other, value)
    ensures Subtree(WithField(c, field, value), other) == Subtree(c, other)
  {
    var held := ValueAt(c, field);
    if Replacement(value, held).value != held {
      OtherLeavesStay(c, field, LeafFor(value, held), other);
    }
  }

  /** What an edit makes of a text: nothing, or the edited text and the values the fields held before. */
  function Edited(text: string, d: Declaration, value: Scalar): Decoded<(string, seq<Scalar>)> {
    var doc := DocumentOf(text);
    if doc.Rejected? || !Owned(d, DataOf(doc.value.tree)) then Rejected
    else
      var c, fields := doc.value.tree, FieldsOf(d, DataOf(doc.value.tree));
      if exists i | 0 <= i < |fields| :: !EditableAt(c, fields[i], value) then Rejected
      else
        Accepted((TextOf(doc.value.(tree := WithFields(c, fields, value))),
                  seq(|fields|, i requires 0 <= i < |fields| => ValueAt(c, fields[i]))))
  }

  // ---- The value and the tree ---------------------------------------------------------------------------------

  /** Walking the parsed value and walking the document lead to the same place. */
  lemma {:induction false} GetIsSubtree(c: Cst, path: Path)
    requires WellFormed(c)
    ensures Get(DataOf(c), path).Some? <==> Subtree(c, path).Some?
    ensures Get(DataOf(c), path).Some? ==> Get(DataOf(c), path).value == DataOf(Subtree(c, path).value)
    decreases c
  {
    hide IsToken;
    if c.Filled? && path != [] {
      if c.kind.Arrays? {
        ListIsSubtree(c.items, 0, {}, path);
      } else {
        DictIsSubtree(c.items, 0, {}, path);
      }
    }
  }

  lemma {:induction false} ListIsSubtree(i: Items, n: nat, seen: set<Key>, path: Path)
    requires WellFormedItems(Arrays, i, seen) && path != []
    ensures
      var list, found := ListOf(i), SubtreeOf(i, n, path);
      && (found.Some? ==> path[0].At? && 0 <= path[0].index - n < |list|)
      && (path[0].At? && 0 <= path[0].index - n < |list| ==>
            && (Get(list[path[0].index - n], path[1..]).Some? <==> found.Some?)
            && (found.Some? ==> Get(list[path[0].index - n], path[1..]).value == DataOf(found.value)))
    decreases i
  {
    hide IsToken, AllSpace;
    GetIsSubtree(i.value, path[1..]);
    if StepOf(i.name, n) != path[0] && i.More? {
      ListIsSubtree(i.rest, n + 1, Seen(i.name, seen), path);
    }
  }

  lemma {:induction false} DictKeysAreNew(i: Items, seen: set<Key>)
    requires WellFormedItems(Objects, i, seen)
    ensures forall key :: key in DictOf(i) ==> key !in seen
    decreases i
  {
    hide IsToken, AllSpace, WellFormed;
    if i.More? {
      DictKeysAreNew(i.rest, Seen(i.name, seen));
    }
  }

  lemma {:induction false} DictIsSubtree(i: Items, n: nat, seen: set<Key>, path: Path)
    requires WellFormedItems(Objects, i, seen) && path != []
    ensures
      var dict, found := DictOf(i), SubtreeOf(i, n, path);
      && (found.Some? ==> path[0].Name? && path[0].key in dict)
      && (path[0].Name? && path[0].key in dict ==>
            && (Get(dict[path[0].key], path[1..]).Some? <==> found.Some?)
            && (found.Some? ==> Get(dict[path[0].key], path[1..]).value == DataOf(found.value)))
    decreases i
  {
    hide IsToken, AllSpace;
    GetIsSubtree(i.value, path[1..]);
    if i.More? {
      DictKeysAreNew(i.rest, Seen(i.name, seen));
      if StepOf(i.name, n) != path[0] {
        DictIsSubtree(i.rest, n + 1, Seen(i.name, seen), path);
      }
    }
  }

  lemma LeafIsValue(c: Cst, path: Path)
    requires WellFormed(c)
    ensures IsLeaf(c, path) ==> Get(DataOf(c), path) == Some(Value(ValueAt(c, path)))
    ensures Get(DataOf(c), path).Some? && Get(DataOf(c), path).value.Value? ==> IsLeaf(c, path)
  {
    GetIsSubtree(c, path);
  }

  // ---- Splicing -----------------------------------------------------------------------------------------------

  /** Replace the characters from start to end by a token. */
  datatype Edit = Edit(start: nat, end: nat, token: string)

  predicate Fits(text: string, e: Edit) {
    e.start <= e.end <= |text|
  }

  function Splice(text: string, e: Edit): string
    requires Fits(text, e)
  {
    text[..e.start] + e.token + text[e.end..]
  }

  /** The edit that sets one field of a document. */
  function EditFor(doc: Document, field: Path, value: Scalar): Edit
    requires EditableAt(doc.tree, field, value)
    requires Replacement(value, ValueAt(doc.tree, field)).value != ValueAt(doc.tree, field)
  {
    var start := |doc.lead| + Offset(doc.tree, field);
    Edit(start, start + |TokenAt(doc.tree, field)|, LeafFor(value, ValueAt(doc.tree, field)).token)
  }

  predicate Changes(c: Cst, field: Path, value: Scalar)
    requires EditableAt(c, field, value)
  {
    Replacement(value, ValueAt(c, field)).value != ValueAt(c, field)
  }

  /** Splicing the token of a field sets the field. */
  lemma SpliceSetsTheField(doc: Document, field: Path, value: Scalar)
    requires EditableAt(doc.tree, field, value) && Changes(doc.tree, field, value)
    ensures Fits(TextOf(doc), EditFor(doc, field, value))
    ensures Splice(TextOf(doc), EditFor(doc, field, value)) == TextOf(doc.(tree := WithField(doc.tree, field, value)))
  {
    hide PrintTo, Replace, Offset, TokenAt, Dumps;
    var leaf := LeafFor(value, ValueAt(doc.tree, field));
    ReplacedText(doc.tree, field, leaf, doc.trail);
    SpliceBehind(doc.lead, PrintTo(doc.tree, doc.trail), Offset(doc.tree, field), |TokenAt(doc.tree, field)|,
        leaf.token);
  }

  lemma SpliceBehind(lead: string, s: string, at: nat, size: nat, token: string)
    requires at + size <= |s|
    ensures Splice(lead + s, Edit(|lead| + at, |lead| + at + size, token)) == lead + (s[..at] + token + s[at + size..])
  {
    assert (lead + s)[..|lead| + at] == lead + s[..at];
    assert (lead + s)[|lead| + at + size..] == s[at + size..];
    assert (lead + s[..at]) + token + s[at + size..] == lead + (s[..at] + token + s[at + size..]);
  }

  /** The edits of two fields, in either order of position: the later one leaves the earlier one in place. */
  lemma LaterEditLeavesEarlier(doc: Document, p: Path, q: Path, value: Scalar)
    requires WellFormed(doc.tree) && p != q
    requires EditableAt(doc.tree, p, value) && EditableAt(doc.tree, q, value) && Changes(doc.tree, p, value)
    requires Changes(doc.tree, q, value)
    ensures EditableAt(WithField(doc.tree, q, value), p, value) && EditableAt(WithField(doc.tree, p, value), q, value)
    ensures EditFor(doc, p, value).start < EditFor(doc, q, value).start ==>
              && Changes(WithField(doc.tree, q, value), p, value)
              && EditFor(doc.(tree := WithField(doc.tree, q, value)), p, value) == EditFor(doc, p, value)
    ensures EditFor(doc, p, value).start != EditFor(doc, q, value).start
    ensures WithField(WithField(doc.tree, q, value), p, value) == WithField(WithField(doc.tree, p, value), q, value)
  {
    hide Replace, Before, Dumps;
    var c := doc.tree;
    var forP, forQ := LeafFor(value, ValueAt(c, p)), LeafFor(value, ValueAt(c, q));
    WithFieldKeeps(c, p, q, value);
    WithFieldKeeps(c, q, p, value);
    LeavesApart(c, p, q, forP, forQ);
    LeafHasToken(c, p);
    LeafHasToken(c, q);
    ReplacesCommute(c, p, q, forP, forQ);
  }

  lemma {:induction false} LeafHasToken(c: Cst, path: Path)
    requires WellFormed(c) && IsLeaf(c, path)
    ensures IsToken(TokenAt(c, path), ValueAt(c, path)) && |TokenAt(c, path)| >= 1
    decreases c
  {
    hide Scan;
    if c.Filled? {
      LeafHasTokenIn(c.kind, c.items, 0, {}, path);
    }
  }

  lemma {:induction false} LeafHasTokenIn(kind: Kind, i: Items, n: nat, seen: set<Key>, path: Path)
    requires path != [] && WellFormedItems(kind, i, seen) && IsLeafOf(i, n, path)
    ensures
      var leaf := SubtreeOf(i, n, path).value;
      IsToken(leaf.token, leaf.value) && |leaf.token| >= 1
    decreases i
  {
    hide Scan, AllSpace, WellLabelled;
    if StepOf(i.name, n) == path[0] {
      LeafHasToken(i.value, path[1..]);
    } else {
      LeafHasTokenIn(kind, i.rest, n + 1, Seen(i.name, seen), path);
    }
  }

  // ---- The edit -------------------------------------------------------------------------------------------------

  /** The edits of the fields that change, in the order of the fields. */
  function EditsFor(doc: Document, fields: seq<Path>, value: Scalar): seq<Edit>
    requires forall i | 0 <= i < |fields| :: EditableAt(doc.tree, fields[i], value)
  {
    if fields == [] then []
    else
      var last := fields[|fields| - 1];
      EditsFor(doc, fields[..|fields| - 1], value)
      + if Changes(doc.tree, last, value) then [EditFor(doc, last, value)] else []
  }

  predicate Ordered(text: string, edits: seq<Edit>) {
    && (forall i | 0 <= i < |edits| :: Fits(text, edits[i]))
    && (forall i, j | 0 <= i < j < |edits| :: edits[j].end <= edits[i].start)
  }

  /** Applying these edits to a text, the later position first, gives the target. */
  ghost predicate Makes(edits: seq<Edit>, text: string, target: string) {
    && |edits| <= 2 && Ordered(text, edits)
    && (edits == [] ==> target == text)
    && (|edits| == 1 ==> target == Splice(text, edits[0]))
    && (|edits| == 2 ==> Fits(Splice(text, edits[0]), edits[1]) && target == Splice(Splice(text, edits[0]), edits[1]))
  }

  /** Splice from the last position to the first, so that earlier positions stay what they are. */
  method Apply(text: string, edits: seq<Edit>, ghost target: string) returns (edited: string)
    requires Makes(edits, text, target)
    ensures edited == target
  {
    edited := text;
    for n := 0 to |edits|
      invariant n == 0 ==> edited == text
      invariant n == 1 ==> edited == Splice(text, edits[0])
      invariant n == 2 ==> Fits(Splice(text, edits[0]), edits[1]) && edited == Splice(Splice(text, edits[0]), edits[1])
    {
      edited := Splice(edited, edits[n]);
    }
  }

  lemma EditsOfFields(doc: Document, fields: seq<Path>, value: Scalar)
    requires WellFormed(doc.tree) && 1 <= |fields| <= 2 && (|fields| == 2 ==> fields[0] != fields[1])
    requires forall i | 0 <= i < |fields| :: EditableAt(doc.tree, fields[i], value)
    ensures Makes(Descending(EditsFor(doc, fields, value)), TextOf(doc),
        TextOf(doc.(tree := WithFields(doc.tree, fields, value))))
  {
    hide TextOf, WellFormed, EditableAt, WithField, Changes, Makes;
    if |fields| == 1 {
      assert fields == [fields[0]];
      OneEdit(doc, fields[0], value);
    } else {
      assert fields[..1] == [fields[0]];
      TwoEdits(doc, fields[0], fields[1], value);
    }
  }

  lemma OneEdit(doc: Document, field: Path, value: Scalar)
    requires EditableAt(doc.tree, field, value)
    ensures Makes(EditsFor(doc, [field], value), TextOf(doc), TextOf(doc.(tree := WithField(doc.tree, field, value))))
    ensures Descending(EditsFor(doc, [field], value)) == EditsFor(doc, [field], value)
  {
    hide TextOf, Splice, EditFor;
    EditsForOne(doc, field, value);
    if Changes(doc.tree, field, value) {
      SpliceSetsTheField(doc, field, value);
    }
  }

  lemma TwoEdits(doc: Document, p: Path, q: Path, value: Scalar)
    requires WellFormed(doc.tree) && p != q && EditableAt(doc.tree, p, value) && EditableAt(doc.tree, q, value)
    ensures EditableAt(WithField(doc.tree, p, value), q, value)
    ensures
      var edits := EditsFor(doc, [p], value) + if Changes(doc.tree, q, value) then [EditFor(doc, q, value)] else [];
      Makes(Descending(edits), TextOf(doc), TextOf(doc.(tree := WithField(WithField(doc.tree, p, value), q, value))))
  {
    hide TextOf, Splice, EditFor, WellFormed, Replacement;
    EditsForOne(doc, p, value);
    WithFieldKeeps(doc.tree, p, q, value);
    if Changes(doc.tree, p, value) && Changes(doc.tree, q, value) {
      BothEdits(doc, p, q, value);
    } else if Changes(doc.tree, p, value) {
      SpliceSetsTheField(doc, p, value);
    } else if Changes(doc.tree, q, value) {
      SpliceSetsTheField(doc, q, value);
    }
  }

  lemma EditsForOne(doc: Document, field: Path, value: Scalar)
    requires EditableAt(doc.tree, field, value)
    ensures EditsFor(doc, [field], value) == if Changes(doc.tree, field, value) then [EditFor(doc, field, value)]
        else []
  {
    assert [field][..0] == [];
  }

  /** sorted(edits, reverse=True); a declaration has at most two edits. */
  function Descending(edits: seq<Edit>): seq<Edit> {
    if |edits| == 2 && edits[0].start < edits[1].start then [edits[1], edits[0]] else edits
  }

  lemma BothEdits(doc: Document, p: Path, q: Path, value: Scalar)
    requires WellFormed(doc.tree) && p != q
    requires EditableAt(doc.tree, p, value) && EditableAt(doc.tree, q, value) && Changes(doc.tree, p, value)
    requires Changes(doc.tree, q, value)
    ensures EditableAt(WithField(doc.tree, p, value), q, value)
    ensures
      var edits := Descending([EditFor(doc, p, value), EditFor(doc, q, value)]);
      && Ordered(TextOf(doc), edits) && Fits(Splice(TextOf(doc), edits[0]), edits[1])
      && Splice(Splice(TextOf(doc), edits[0]), edits[1])
          == TextOf(doc.(tree := WithField(WithField(doc.tree, p, value), q, value)))
  {
    hide TextOf, Splice, WellFormed, Replace, Before;
    SpliceSetsTheField(doc, p, value);
    SpliceSetsTheField(doc, q, value);
    LaterEditLeavesEarlier(doc, p, q, value);
    LaterEditLeavesEarlier(doc, q, p, value);
    EditsDoNotOverlap(doc, p, q, value);
    if EditFor(doc, p, value).start < EditFor(doc, q, value).start {
      SpliceSetsTheField(doc.(tree := WithField(doc.tree, q, value)), p, value);
    } else {
      SpliceSetsTheField(doc.(tree := WithField(doc.tree, p, value)), q, value);
    }
  }

  lemma EditsDoNotOverlap(doc: Document, p: Path, q: Path, value: Scalar)
    requires WellFormed(doc.tree) && p != q
    requires EditableAt(doc.tree, p, value) && EditableAt(doc.tree, q, value) && Changes(doc.tree, p, value)
    requires Changes(doc.tree, q, value)
    ensures
      var e, f := EditFor(doc, p, value), EditFor(doc, q, value);
      (e.start < f.start && e.end <= f.start) || (f.start < e.start && f.end <= e.start)
  {
    hide Replace, Before, Dumps;
    LeavesApart(doc.tree, p, q, LeafFor(value, ValueAt(doc.tree, p)), LeafFor(value, ValueAt(doc.tree, q)));
    LeafHasToken(doc.tree, p);
    LeafHasToken(doc.tree, q);
  }

  lemma FieldsAreDistinct(d: Declaration, data: Json)
    ensures
      var fields := FieldsOf(d, data);
      1 <= |fields| <= 2 && (|fields| == 2 ==> fields[0] != fields[1])
  {
  }

  /** _json_edit: find every owned field, check it, and splice the changed ones from the end of the text. */
  method EditJson(text: string, d: Declaration, value: Scalar) returns (ok: bool, edited: string, previous: seq<Scalar>)
    ensures Edited(text, d, value) == if ok then Accepted((edited, previous)) else Rejected
  {
    hide DocumentOf, SpansOf, DataOf, Owned, FieldsOf, WithFields, TextOf, Makes, EditableAt, Descending;
    edited, previous := text, [];
    var data: Json, spans: Spans;
    ok, data, spans := ReadJson(text);
    if !ok || !Owned(d, data) {
      return false, text, [];
    }
    ghost var doc := DocumentOf(text).value;
    ReadingIsSound(text);
    var fields := FieldsOf(d, data);
    FieldsAreDistinct(d, data);
    var edits: seq<Edit>;
    ok, edits, previous := CollectEdits(doc, fields, value, data, spans);
    if ok {
      EditsOfFields(doc, fields, value);
      edited := Apply(text, Descending(edits), TextOf(doc.(tree := WithFields(doc.tree, fields, value))));
    }
  }

  method CollectEdits(ghost doc: Document, fields: seq<Path>, value: Scalar, data: Json, spans: Spans)
    returns (ok: bool, edits: seq<Edit>, previous: seq<Scalar>)
    requires WellFormed(doc.tree) && data == DataOf(doc.tree) && spans == SpansOf(doc.tree, [], |doc.lead|)
    ensures ok <==> forall i | 0 <= i < |fields| :: EditableAt(doc.tree, fields[i], value)
    ensures ok ==> edits == EditsFor(doc, fields, value)
    ensures ok ==> previous == seq(|fields|, i requires 0 <= i < |fields| => ValueAt(doc.tree, fields[i]))
  {
    hide WellFormed, SpansOf, DataOf, Get, Dumps, Dumpable, Offset, TokenAt, Replacement;
    edits, previous := [], [];
    for n := 0 to |fields|
      invariant forall i | 0 <= i < n :: EditableAt(doc.tree, fields[i], value)
      invariant edits == EditsFor(doc, fields[..n], value)
      invariant previous == seq(n, i requires 0 <= i < n => ValueAt(doc.tree, fields[i]))
    {
      var field := fields[n];
      var found := Get(data, field);
      FieldIsFound(doc, field);
      if found.None? || field !in spans {
        return false, edits, previous;
      }
      var held := found.value.scalar;
      var replacement := Replacement(value, held);
      if replacement.None? || (replacement.value != held && !Dumpable(replacement.value)) {
        return false, edits, previous;
      }
      assert fields[..n + 1][..n] == fields[..n];
      if replacement.value != held {
        edits := edits + [Edit(spans[field].0, spans[field].1, Dumps(replacement.value))];
      }
      previous := previous + [held];
    }
    assert fields[..|fields|] == fields;
    return true, edits, previous;
  }

  /** The table of positions holds a field exactly when the field is a scalar, and says where it stands. */
  lemma FieldIsFound(doc: Document, field: Path)
    requires WellFormed(doc.tree)
    ensures
      var spans := SpansOf(doc.tree, [], |doc.lead|);
      && (field in spans <==> IsLeaf(doc.tree, field))
      && (field in spans ==>
            && Get(DataOf(doc.tree), field) == Some(Value(ValueAt(doc.tree, field)))
            && spans[field].0 == |doc.lead| + Offset(doc.tree, field)
            && spans[field].1 == |doc.lead| + Offset(doc.tree, field) + |TokenAt(doc.tree, field)|)
  {
    hide WellFormed, SpansOf, DataOf, Get;
    SpansAreExact(doc.tree, [], |doc.lead|, field);
    assert [] + field == field;
    LeafIsValue(doc.tree, field);
  }
}
