/** Where the scalars of a document stand in its text, and what replacing one of them does to the text. */
module JsonPaths {
  import opened Prelude
  import opened JsonScan
  import opened JsonTree

  datatype PathStep = Name(key: Key) | At(index: nat)

  type Path = seq<PathStep>

  function StepOf(name: Label, n: nat): PathStep {
    if name.NoLabel? then At(n) else Name(name.key)
  }

  /** The part of a document that a path leads to. */
  function Subtree(c: Cst, path: Path): Option<Cst>
    decreases c
  {
    if path == [] then Some(c)
    else if c.Filled? then SubtreeOf(c.items, 0, path)
    else None
  }

  function SubtreeOf(i: Items, n: nat, path: Path): Option<Cst>
    requires path != []
    decreases i
  {
    if StepOf(i.name, n) == path[0] then Subtree(i.value, path[1..])
    else if i.More? then SubtreeOf(i.rest, n + 1, path)
    else None
  }

  predicate IsLeaf(c: Cst, path: Path) {
    Subtree(c, path).Some? && Subtree(c, path).value.Leaf?
  }

  predicate IsLeafOf(i: Items, n: nat, path: Path)
    requires path != []
  {
    SubtreeOf(i, n, path).Some? && SubtreeOf(i, n, path).value.Leaf?
  }

  // ---- The text around a scalar -----------------------------------------------------------------------

  function Before(c: Cst, path: Path): string
    requires IsLeaf(c, path)
    decreases c
  {
    if c.Leaf? then "" else [Open(c.kind)] + BeforeOf(c.items, 0, path)
  }

  function BeforeOf(i: Items, n: nat, path: Path): string
    requires path != [] && IsLeafOf(i, n, path)
    decreases i
  {
    if StepOf(i.name, n) == path[0] then i.before + LabelTo(i.name, Before(i.value, path[1..]))
    else i.before + LabelTo(i.name, PrintTo(i.value, i.after + ("," + BeforeOf(i.rest, n + 1, path))))
  }

  function Behind(c: Cst, path: Path, rest: string): string
    requires IsLeaf(c, path)
    decreases c
  {
    if c.Leaf? then rest else BehindOf(c.kind, c.items, 0, path, rest)
  }

  function BehindOf(kind: Kind, i: Items, n: nat, path: Path, rest: string): string
    requires path != [] && IsLeafOf(i, n, path)
    decreases i
  {
    if StepOf(i.name, n) == path[0] then Behind(i.value, path[1..], i.after + TailTo(kind, i, rest))
    else BehindOf(kind, i.rest, n + 1, path, rest)
  }

  function TokenAt(c: Cst, path: Path): string
    requires IsLeaf(c, path)
  {
    Subtree(c, path).value.token
  }

  function ValueAt(c: Cst, path: Path): Scalar
    requires IsLeaf(c, path)
  {
    Subtree(c, path).value.value
  }

  /** Where a scalar starts in the text of its document. */
  function Offset(c: Cst, path: Path): nat
    requires IsLeaf(c, path)
  {
    |Before(c, path)|
  }

  lemma LabelAppends(name: Label, a: string, b: string)
    ensures LabelTo(name, a + b) == LabelTo(name, a) + b
  {
    if name.Label? {
      assert name.beforeValue + (a + b) == (name.beforeValue + a) + b;
      assert ":" + ((name.beforeValue + a) + b) == (":" + (name.beforeValue + a)) + b;
      assert name.afterKey + ((":" + (name.beforeValue + a)) + b)
          == (name.afterKey + (":" + (name.beforeValue + a))) + b;
    }
  }

  lemma {:induction false} PrintAppends(c: Cst, a: string, b: string)
    ensures PrintTo(c, a + b) == PrintTo(c, a) + b
    decreases c
  {
    hide ItemsTo;
    match c {
      case Leaf(token, _) =>
      case Empty(kind, space) =>
        assert [Close(kind)] + (a + b) == ([Close(kind)] + a) + b;
        assert space + (([Close(kind)] + a) + b) == (space + ([Close(kind)] + a)) + b;
      case Filled(kind, items) => ItemsAppend(kind, items, a, b);
    }
  }

  lemma {:induction false} ItemsAppend(kind: Kind, i: Items, a: string, b: string)
    ensures ItemsTo(kind, i, a + b) == ItemsTo(kind, i, a) + b
    decreases i
  {
    hide PrintTo, LabelTo;
    TailAppends(kind, i, a, b);
    var tail := TailTo(kind, i, a);
    assert i.after + (tail + b) == (i.after + tail) + b;
    PrintAppends(i.value, i.after + tail, b);
    LabelAppends(i.name, PrintTo(i.value, i.after + tail), b);
    var named := LabelTo(i.name, PrintTo(i.value, i.after + tail));
    assert i.before + (named + b) == (i.before + named) + b;
  }

  lemma {:induction false} TailAppends(kind: Kind, i: Items, a: string, b: string)
    ensures TailTo(kind, i, a + b) == TailTo(kind, i, a) + b
    decreases i, 0
  {
    if i.Last? {
      assert [Close(kind)] + (a + b) == ([Close(kind)] + a) + b;
    } else {
      ItemsAppend(kind, i.rest, a, b);
      assert "," + (ItemsTo(kind, i.rest, a) + b) == ("," + ItemsTo(kind, i.rest, a)) + b;
    }
  }

  /** A document's text is what stands before a scalar, the scalar's token, and what stands behind it. */
  lemma {:induction false} TextAround(c: Cst, path: Path, rest: string)
    requires IsLeaf(c, path)
    ensures PrintTo(c, rest) == Before(c, path) + (TokenAt(c, path) + Behind(c, path, rest))
    decreases c
  {
    if c.Filled? {
      TextAroundIn(c.kind, c.items, 0, path, rest);
      var inside := BeforeOf(c.items, 0, path);
      var onwards := TokenAt(c, path) + Behind(c, path, rest);
      assert [Open(c.kind)] + (inside + onwards) == ([Open(c.kind)] + inside) + onwards;
    }
  }

  lemma {:induction false} TextAroundIn(kind: Kind, i: Items, n: nat, path: Path, rest: string)
    requires path != [] && IsLeafOf(i, n, path)
    ensures ItemsTo(kind, i, rest) ==
            BeforeOf(i, n, path) + (SubtreeOf(i, n, path).value.token + BehindOf(kind, i, n, path, rest))
    decreases i
  {
    hide LabelTo, PrintTo;
    var onwards := SubtreeOf(i, n, path).value.token + BehindOf(kind, i, n, path, rest);
    var tail := TailTo(kind, i, rest);
    if StepOf(i.name, n) == path[0] {
      TextAround(i.value, path[1..], i.after + tail);
      var within := Before(i.value, path[1..]);
      LabelAppends(i.name, within, onwards);
      assert i.before + (LabelTo(i.name, within) + onwards) == (i.before + LabelTo(i.name, within)) + onwards;
    } else {
      TextAroundIn(kind, i.rest, n + 1, path, rest);
      var later := BeforeOf(i.rest, n + 1, path);
      assert i.after + ("," + (later + onwards)) == (i.after + ("," + later)) + onwards;
      PrintAppends(i.value, i.after + ("," + later), onwards);
      var value := PrintTo(i.value, i.after + ("," + later));
      LabelAppends(i.name, value, onwards);
      assert i.before + (LabelTo(i.name, value) + onwards) == (i.before + LabelTo(i.name, value)) + onwards;
    }
  }

  // ---- Replacing a scalar -------------------------------------------------------------------------------

  function Replace(c: Cst, path: Path, leaf: Cst): Cst
    requires IsLeaf(c, path)
    decreases c
  {
    if c.Leaf? then leaf else Filled(c.kind, ReplaceIn(c.items, 0, path, leaf))
  }

  function ReplaceIn(i: Items, n: nat, path: Path, leaf: Cst): Items
    requires path != [] && IsLeafOf(i, n, path)
    decreases i
  {
    if StepOf(i.name, n) == path[0] then i.(value := Replace(i.value, path[1..], leaf))
    else i.(rest := ReplaceIn(i.rest, n + 1, path, leaf))
  }

  /** Replacing a scalar changes nothing around it: keys, spaces, other values and their text stay. */
  lemma {:induction false} ReplaceKeeps(c: Cst, path: Path, leaf: Cst, rest: string)
    requires IsLeaf(c, path) && leaf.Leaf?
    ensures Subtree(Replace(c, path, leaf), path) == Some(leaf)
    ensures Before(Replace(c, path, leaf), path) == Before(c, path)
    ensures Behind(Replace(c, path, leaf), path, rest) == Behind(c, path, rest)
    decreases c
  {
    if c.Filled? {
      ReplaceInKeeps(c.kind, c.items, 0, path, leaf, rest);
    }
  }

  lemma {:induction false} ReplaceInKeeps(kind: Kind, i: Items, n: nat, path: Path, leaf: Cst, rest: string)
    requires path != [] && IsLeafOf(i, n, path) && leaf.Leaf?
    ensures SubtreeOf(ReplaceIn(i, n, path, leaf), n, path) == Some(leaf)
    ensures BeforeOf(ReplaceIn(i, n, path, leaf), n, path) == BeforeOf(i, n, path)
    ensures BehindOf(kind, ReplaceIn(i, n, path, leaf), n, path, rest) == BehindOf(kind, i, n, path, rest)
    decreases i
  {
    hide LabelTo, PrintTo;
    if StepOf(i.name, n) == path[0] {
      ReplaceKeeps(i.value, path[1..], leaf, i.after + TailTo(kind, i, rest));
    } else {
      ReplaceInKeeps(kind, i.rest, n + 1, path, leaf, rest);
    }
  }

  /** The text of the changed document: every character outside the token is where it was relative to it. */
  lemma ReplacedText(c: Cst, path: Path, leaf: Cst, rest: string)
    requires IsLeaf(c, path) && leaf.Leaf?
    ensures
      var s, at, size := PrintTo(c, rest), Offset(c, path), |TokenAt(c, path)|;
      && at + size <= |s| && s[at..at + size] == TokenAt(c, path)
      && PrintTo(Replace(c, path, leaf), rest) == s[..at] + leaf.token + s[at + size..]
  {
    hide Before, Behind, PrintTo, Replace;
    ReplaceKeeps(c, path, leaf, rest);
    TextAround(c, path, rest);
    TextAround(Replace(c, path, leaf), path, rest);
  }

  lemma {:induction false} ReplaceIsWellFormed(c: Cst, path: Path, leaf: Cst)
    requires IsLeaf(c, path) && leaf.Leaf? && WellFormed(c) && IsToken(leaf.token, leaf.value)
    ensures WellFormed(Replace(c, path, leaf))
    decreases c
  {
    hide IsToken;
    if c.Filled? {
      ReplaceInIsWellFormed(c.kind, c.items, 0, path, leaf, {});
    }
  }

  lemma {:induction false} ReplaceInIsWellFormed(kind: Kind, i: Items, n: nat, path: Path, leaf: Cst, seen: set<Key>)
    requires path != [] && IsLeafOf(i, n, path) && leaf.Leaf? && WellFormedItems(kind, i, seen)
    requires IsToken(leaf.token, leaf.value)
    ensures WellFormedItems(kind, ReplaceIn(i, n, path, leaf), seen)
    decreases i
  {
    hide IsToken, WellLabelled, AllSpace;
    if StepOf(i.name, n) == path[0] {
      ReplaceIsWellFormed(i.value, path[1..], leaf);
    } else {
      ReplaceInIsWellFormed(kind, i.rest, n + 1, path, leaf, Seen(i.name, seen));
    }
  }

  /** Another scalar is still there, with its own token. */
  lemma {:induction false} OtherLeavesStay(c: Cst, path: Path, leaf: Cst, q: Path)
    requires IsLeaf(c, path) && leaf.Leaf? && q != path
    ensures IsLeaf(Replace(c, path, leaf), q) <==> IsLeaf(c, q)
    ensures IsLeaf(c, q) ==> Subtree(Replace(c, path, leaf), q) == Subtree(c, q)
    decreases c
  {
    if c.Filled? && q != [] {
      OtherLeavesStayIn(c.items, 0, path, leaf, q);
    }
  }

  lemma {:induction false} OtherLeavesStayIn(i: Items, n: nat, path: Path, leaf: Cst, q: Path)
    requires path != [] && q != [] && IsLeafOf(i, n, path) && leaf.Leaf? && q != path
    ensures IsLeafOf(ReplaceIn(i, n, path, leaf), n, q) <==> IsLeafOf(i, n, q)
    ensures IsLeafOf(i, n, q) ==> SubtreeOf(ReplaceIn(i, n, path, leaf), n, q) == SubtreeOf(i, n, q)
    decreases i
  {
    if StepOf(i.name, n) == path[0] {
      if q[0] == path[0] {
        assert q[1..] != path[1..] by {
          assert q == [q[0]] + q[1..] && path == [path[0]] + path[1..];
        }
        OtherLeavesStay(i.value, path[1..], leaf, q[1..]);
      }
    } else if i.More? {
      OtherLeavesStayIn(i.rest, n + 1, path, leaf, q);
    }
  }

  // ---- Scalars do not overlap -------------------------------------------------------------------------------

  function LabelLength(name: Label): nat {
    if name.NoLabel? then 0 else |name.token| + |name.afterKey| + 1 + |name.beforeValue|
  }

  lemma LabelToLength(name: Label, rest: string)
    ensures |LabelTo(name, rest)| == LabelLength(name) + |rest|
  {
  }

  /** p ends before q starts, so replacing q leaves everything before p as it was. */
  ghost predicate Precedes(c: Cst, p: Path, q: Path, leaf: Cst)
    requires IsLeaf(c, p) && IsLeaf(c, q) && leaf.Leaf?
  {
    Offset(c, p) + |TokenAt(c, p)| <= Offset(c, q) && IsLeaf(Replace(c, q, leaf), p)
        && Before(Replace(c, q, leaf), p) == Before(c, p)
  }

  ghost predicate PrecedesIn(i: Items, n: nat, p: Path, q: Path, leaf: Cst)
    requires p != [] && q != [] && IsLeafOf(i, n, p) && IsLeafOf(i, n, q) && leaf.Leaf?
  {
    && |BeforeOf(i, n, p)| + |SubtreeOf(i, n, p).value.token| <= |BeforeOf(i, n, q)|
    && IsLeafOf(ReplaceIn(i, n, q, leaf), n, p) && BeforeOf(ReplaceIn(i, n, q, leaf), n, p) == BeforeOf(i, n, p)
  }

  lemma {:induction false} LeavesApart(c: Cst, p: Path, q: Path, forP: Cst, forQ: Cst)
    requires IsLeaf(c, p) && IsLeaf(c, q) && p != q && forP.Leaf? && forQ.Leaf?
    ensures Precedes(c, p, q, forQ) || Precedes(c, q, p, forP)
    decreases c
  {
    LeavesApartIn(c.items, 0, p, q, forP, forQ);
    OtherLeavesStay(c, q, forQ, p);
    OtherLeavesStay(c, p, forP, q);
  }

  /** The first entry holds p and a later one holds q. */
  lemma FirstPrecedes(i: Items, n: nat, p: Path, q: Path, leaf: Cst)
    requires p != [] && q != [] && IsLeafOf(i, n, p) && IsLeafOf(i, n, q) && leaf.Leaf?
    requires StepOf(i.name, n) == p[0] && StepOf(i.name, n) != q[0]
    ensures PrecedesIn(i, n, p, q, leaf)
  {
    hide LabelTo, PrintTo;
    var onwards := i.after + ("," + BeforeOf(i.rest, n + 1, q));
    TextAround(i.value, p[1..], onwards);
    LabelToLength(i.name, PrintTo(i.value, onwards));
    LabelToLength(i.name, Before(i.value, p[1..]));
  }

  lemma {:induction false} LeavesApartIn(i: Items, n: nat, p: Path, q: Path, forP: Cst, forQ: Cst)
    requires p != [] && q != [] && IsLeafOf(i, n, p) && IsLeafOf(i, n, q) && p != q && forP.Leaf? && forQ.Leaf?
    ensures PrecedesIn(i, n, p, q, forQ) || PrecedesIn(i, n, q, p, forP)
    decreases i
  {
    hide LabelTo, PrintTo;
    if StepOf(i.name, n) == p[0] && StepOf(i.name, n) == q[0] {
      assert p[1..] != q[1..] by {
        assert q == [q[0]] + q[1..] && p == [p[0]] + p[1..];
      }
      LeavesApart(i.value, p[1..], q[1..], forP, forQ);
      LabelToLength(i.name, Before(i.value, p[1..]));
      LabelToLength(i.name, Before(i.value, q[1..]));
    } else if StepOf(i.name, n) == p[0] {
      FirstPrecedes(i, n, p, q, forQ);
    } else if StepOf(i.name, n) == q[0] {
      FirstPrecedes(i, n, q, p, forP);
    } else {
      LeavesApartIn(i.rest, n + 1, p, q, forP, forQ);
      LaterPrecedes(i, n, p, q, forP, forQ);
    }
  }

  lemma LaterPrecedes(i: Items, n: nat, p: Path, q: Path, forP: Cst, forQ: Cst)
    requires p != [] && q != [] && IsLeafOf(i, n, p) && IsLeafOf(i, n, q) && forP.Leaf? && forQ.Leaf?
    requires StepOf(i.name, n) != p[0] && StepOf(i.name, n) != q[0]
    ensures PrecedesIn(i.rest, n + 1, p, q, forQ) ==> PrecedesIn(i, n, p, q, forQ)
    ensures PrecedesIn(i.rest, n + 1, q, p, forP) ==> PrecedesIn(i, n, q, p, forP)
  {
    hide LabelTo, PrintTo;
    LaterOffset(i, n, p);
    LaterOffset(i, n, q);
  }

  /** The text before a scalar in a later entry is longer by the first entry and its comma. */
  lemma LaterOffset(i: Items, n: nat, p: Path)
    requires p != [] && IsLeafOf(i, n, p) && StepOf(i.name, n) != p[0]
    ensures |BeforeOf(i, n, p)|
        == |i.before| + LabelLength(i.name) + Length(i.value) + |i.after| + 1 + |BeforeOf(i.rest, n + 1, p)|
  {
    hide LabelTo, PrintTo;
    var onwards := i.after + ("," + BeforeOf(i.rest, n + 1, p));
    PrintLength(i.value, onwards);
    LabelToLength(i.name, PrintTo(i.value, onwards));
  }

  function Length(c: Cst): nat {
    |Print(c)|
  }

  lemma PrintLength(c: Cst, rest: string)
    ensures |PrintTo(c, rest)| == Length(c) + |rest|
  {
    PrintAppends(c, "", rest);
    assert "" + rest == rest;
  }

  /** Two scalars can be replaced in either order. */
  lemma {:induction false} ReplacesCommute(c: Cst, p: Path, q: Path, forP: Cst, forQ: Cst)
    requires IsLeaf(c, p) && IsLeaf(c, q) && p != q && forP.Leaf? && forQ.Leaf?
    ensures IsLeaf(Replace(c, p, forP), q) && IsLeaf(Replace(c, q, forQ), p)
    ensures Replace(Replace(c, p, forP), q, forQ) == Replace(Replace(c, q, forQ), p, forP)
    decreases c
  {
    OtherLeavesStay(c, p, forP, q);
    OtherLeavesStay(c, q, forQ, p);
    ReplacesCommuteIn(c.items, 0, p, q, forP, forQ);
  }

  lemma {:induction false} ReplacesCommuteIn(i: Items, n: nat, p: Path, q: Path, forP: Cst, forQ: Cst)
    requires p != [] && q != [] && IsLeafOf(i, n, p) && IsLeafOf(i, n, q) && p != q && forP.Leaf? && forQ.Leaf?
    ensures IsLeafOf(ReplaceIn(i, n, p, forP), n, q) && IsLeafOf(ReplaceIn(i, n, q, forQ), n, p)
    ensures ReplaceIn(ReplaceIn(i, n, p, forP), n, q, forQ) == ReplaceIn(ReplaceIn(i, n, q, forQ), n, p, forP)
    decreases i
  {
    OtherLeavesStayIn(i, n, p, forP, q);
    OtherLeavesStayIn(i, n, q, forQ, p);
    if StepOf(i.name, n) == p[0] && StepOf(i.name, n) == q[0] {
      assert p[1..] != q[1..] by {
        assert q == [q[0]] + q[1..] && p == [p[0]] + p[1..];
      }
      ReplacesCommute(i.value, p[1..], q[1..], forP, forQ);
    } else if StepOf(i.name, n) != p[0] && StepOf(i.name, n) != q[0] {
      ReplacesCommuteIn(i.rest, n + 1, p, q, forP, forQ);
    }
  }

  // ---- The table of scalar positions --------------------------------------------------------------------------

  type Spans = map<Path, (nat, nat)>

  /** Start and end of every scalar, for a document that starts at some position under some path. */
  function SpansOf(c: Cst, path: Path, at: nat): Spans
    decreases c
  {
    match c
    case Leaf(token, _) => map[path := (at, at + |token|)]
    case Empty(_, _) => map[]
    case Filled(_, items) => SpansIn(items, path, at + 1, 0)
  }

  function SpansIn(i: Items, path: Path, at: nat, n: nat): Spans
    decreases i
  {
    var start := at + |i.before| + LabelLength(i.name);
    var first := SpansOf(i.value, path + [StepOf(i.name, n)], start);
    if i.Last? then first else first + SpansIn(i.rest, path, start + Length(i.value) + |i.after| + 1, n + 1)
  }

  lemma {:induction false} SpansAreBelow(c: Cst, path: Path, at: nat, p: Path)
    requires p in SpansOf(c, path, at)
    ensures path <= p
    decreases c
  {
    if c.Filled? {
      SpansInAreBelow(c.items, path, at + 1, 0, p);
    }
  }

  lemma {:induction false} SpansInAreBelow(i: Items, path: Path, at: nat, n: nat, p: Path)
    requires p in SpansIn(i, path, at, n)
    ensures path < p
    decreases i
  {
    var start := at + |i.before| + LabelLength(i.name);
    if p in SpansOf(i.value, path + [StepOf(i.name, n)], start) {
      SpansAreBelow(i.value, path + [StepOf(i.name, n)], start, p);
    } else {
      SpansInAreBelow(i.rest, path, start + Length(i.value) + |i.after| + 1, n + 1, p);
    }
  }

  /** The first steps of later entries: higher indices, or keys not seen before. */
  predicate StepIsNew(step: PathStep, n: nat, seen: set<Key>) {
    match step
    case At(k) => k >= n
    case Name(key) => key !in seen
  }

  lemma {:induction false} StepsAreNew(kind: Kind, i: Items, path: Path, at: nat, n: nat, seen: set<Key>, p: Path)
    requires WellFormedItems(kind, i, seen) && p in SpansIn(i, path, at, n)
    ensures path < p && StepIsNew(p[|path|], n, seen)
    decreases i
  {
    hide IsToken, WellFormed, AllSpace;
    var start := at + |i.before| + LabelLength(i.name);
    if p in SpansOf(i.value, path + [StepOf(i.name, n)], start) {
      SpansAreBelow(i.value, path + [StepOf(i.name, n)], start, p);
    } else {
      StepsAreNew(kind, i.rest, path, start + Length(i.value) + |i.after| + 1, n + 1, Seen(i.name, seen), p);
    }
  }

  /** The table lists exactly the scalars of a well-formed document, each where its token stands. */
  lemma {:induction false} SpansAreExact(c: Cst, path: Path, at: nat, q: Path)
    requires WellFormed(c)
    ensures path + q in SpansOf(c, path, at) <==> IsLeaf(c, q)
    ensures IsLeaf(c, q) ==> SpansOf(c, path, at)[path + q] == (at + Offset(c, q), at + Offset(c, q) + |TokenAt(c, q)|)
    decreases c
  {
    hide IsToken;
    match c {
      case Leaf(_, _) => assert path + q == path <==> q == [];
      case Empty(_, _) =>
      case Filled(kind, items) =>
        if q == [] {
          assert path + q == path;
          if path in SpansIn(items, path, at + 1, 0) {
            SpansInAreBelow(items, path, at + 1, 0, path);
          }
        } else {
          SpansInAreExact(kind, items, path, at + 1, 0, {}, q);
        }
    }
  }

  lemma {:induction false} SpansInAreExact(kind: Kind, i: Items, path: Path, at: nat, n: nat, seen: set<Key>, q: Path)
    requires WellFormedItems(kind, i, seen) && q != []
    ensures path + q in SpansIn(i, path, at, n) <==> IsLeafOf(i, n, q)
    ensures IsLeafOf(i, n, q) ==>
              SpansIn(i, path, at, n)[path + q]
              == (at + |BeforeOf(i, n, q)|, at + |BeforeOf(i, n, q)| + |SubtreeOf(i, n, q).value.token|)
    decreases i
  {
    hide IsToken, WellFormed, AllSpace, LabelTo, PrintTo;
    var step := StepOf(i.name, n);
    var start := at + |i.before| + LabelLength(i.name);
    var later := start + Length(i.value) + |i.after| + 1;
    SpansAreExact(i.value, path + [step], start, q[1..]);
    if step == q[0] {
      assert path + q == (path + [step]) + q[1..];
      if i.More? && path + q in SpansIn(i.rest, path, later, n + 1) {
        StepsAreNew(kind, i.rest, path, later, n + 1, Seen(i.name, seen), path + q);
      }
      if IsLeaf(i.value, q[1..]) {
        LabelToLength(i.name, Before(i.value, q[1..]));
      }
    } else {
      assert (path + q)[|path|] == q[0];
      if path + q in SpansOf(i.value, path + [step], start) {
        SpansAreBelow(i.value, path + [step], start, path + q);
      }
      if i.More? {
        SpansInAreExact(kind, i.rest, path, later, n + 1, Seen(i.name, seen), q);
        if IsLeafOf(i.rest, n + 1, q) {
          LaterOffset(i, n, q);
        }
      }
    }
  }

  // ---- The shape of a document ------------------------------------------------------------------------------

  /** Replacing a scalar neither adds nor removes anything, and containers stay containers of their kind. */
  ghost predicate SameShape(before: Option<Cst>, after: Option<Cst>) {
    && (before.None? <==> after.None?)
    && (before.Some? ==> (before.value.Leaf? <==> after.value.Leaf?))
    && (before.Some? && !before.value.Leaf? ==> after.value.kind == before.value.kind)
  }

  lemma {:induction false} ReplaceKeepsShape(c: Cst, path: Path, leaf: Cst, q: Path)
    requires IsLeaf(c, path) && leaf.Leaf?
    ensures SameShape(Subtree(c, q), Subtree(Replace(c, path, leaf), q))
    decreases c
  {
    if c.Filled? && q != [] {
      ReplaceInKeepsShape(c.items, 0, path, leaf, q);
    }
  }

  lemma {:induction false} ReplaceInKeepsShape(i: Items, n: nat, path: Path, leaf: Cst, q: Path)
    requires path != [] && q != [] && IsLeafOf(i, n, path) && leaf.Leaf?
    ensures SameShape(SubtreeOf(i, n, q), SubtreeOf(ReplaceIn(i, n, path, leaf), n, q))
    decreases i
  {
    if StepOf(i.name, n) == path[0] {
      if q[0] == path[0] {
        ReplaceKeepsShape(i.value, path[1..], leaf, q[1..]);
      }
    } else if i.More? {
      ReplaceInKeepsShape(i.rest, n + 1, path, leaf, q);
    }
  }
}
