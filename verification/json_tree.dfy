/** JSON documents with all their white space, the text each one spells, and the grammar that reads it back. */
module JsonTree {
  import opened Prelude
  import opened JsonScan

  type Key = seq<int>

  datatype Kind = Arrays | Objects

  /** What stands before a value in an object: the key as written, its value, and the spaces around the colon. */
  datatype Label = NoLabel | Label(token: string, key: Key, afterKey: string, beforeValue: string)

  datatype Cst = Leaf(token: string, value: Scalar) | Empty(kind: Kind, space: string)
      | Filled(kind: Kind, items: Items)

  /** The entries of a container up to its closing bracket. */
  datatype Items =
    | Last(before: string, name: Label, value: Cst, after: string)
    | More(before: string, name: Label, value: Cst, after: string, rest: Items)

  function Open(kind: Kind): char {
    if kind.Arrays? then '[' else '{'
  }

  function Close(kind: Kind): char {
    if kind.Arrays? then ']' else '}'
  }

  // ---- Printing ---------------------------------------------------------------------------------------

  function LabelTo(name: Label, rest: string): string {
    if name.NoLabel? then rest else name.token + (name.afterKey + (":" + (name.beforeValue + rest)))
  }

  /** The text of a document followed by some other text. */
  function PrintTo(c: Cst, rest: string): string
    decreases c
  {
    match c
    case Leaf(token, _) => token + rest
    case Empty(kind, space) => [Open(kind)] + (space + ([Close(kind)] + rest))
    case Filled(kind, items) => [Open(kind)] + ItemsTo(kind, items, rest)
  }

  function ItemsTo(kind: Kind, i: Items, rest: string): string
    decreases i
  {
    i.before + LabelTo(i.name, PrintTo(i.value, i.after + TailTo(kind, i, rest)))
  }

  function TailTo(kind: Kind, i: Items, rest: string): string
    decreases i, 0
  {
    if i.Last? then [Close(kind)] + rest else "," + ItemsTo(kind, i.rest, rest)
  }

  function Print(c: Cst): string {
    PrintTo(c, "")
  }

  // ---- Well-formed documents ----------------------------------------------------------------------------

  predicate AllSpace(s: string) {
    forall i | 0 <= i < |s| :: IsSpace(s[i])
  }

  predicate IsToken(token: string, value: Scalar) {
    Scan(token) == Accepted(Token(value, |token|))
  }

  predicate WellLabelled(kind: Kind, name: Label, seen: set<Key>) {
    match name
    case NoLabel => kind.Arrays?
    case Label(token, key, afterKey, beforeValue) =>
      kind.Objects? && key !in seen && IsToken(token, Text(key)) && AllSpace(afterKey) && AllSpace(beforeValue)
  }

  function Seen(name: Label, seen: set<Key>): set<Key> {
    if name.NoLabel? then seen else seen + {name.key}
  }

  /** Tokens are scalars, spaces are spaces, and no object has a key twice. */
  predicate WellFormed(c: Cst)
    decreases c
  {
    match c
    case Leaf(token, value) => IsToken(token, value)
    case Empty(_, space) => AllSpace(space)
    case Filled(kind, items) => WellFormedItems(kind, items, {})
  }

  predicate WellFormedItems(kind: Kind, i: Items, seen: set<Key>)
    decreases i
  {
    && AllSpace(i.before) && AllSpace(i.after) && WellLabelled(kind, i.name, seen) && WellFormed(i.value)
    && (i.More? ==> WellFormedItems(kind, i.rest, Seen(i.name, seen)))
  }

  // ---- The grammar ----------------------------------------------------------------------------------------

  function Spaces(s: string): (n: nat)
    ensures n <= |s| && AllSpace(s[..n])
    ensures n < |s| ==> !IsSpace(s[n])
  {
    if s != "" && IsSpace(s[0]) then
      var n := 1 + Spaces(s[1..]);
      assert s[..n] == [s[0]] + s[1..][..n - 1];
      n
    else 0
  }

  function AfterSpaces(s: string): (rest: string)
    ensures |rest| <= |s|
  {
    s[Spaces(s)..]
  }

  /** The key of a member and its colon; other kinds of key and keys seen before are refused. */
  function ParseLabel(kind: Kind, s: string, seen: set<Key>): (r: Decoded<(Label, string)>)
    ensures r.Accepted? ==> |r.value.1| <= |s|
  {
    if kind.Arrays? then Accepted((NoLabel, s))
    else
      var token := Scan(s);
      if token.Rejected? || !token.value.value.Text? || token.value.value.points in seen then Rejected
      else
        var n := token.value.length;
        var colon := AfterSpaces(s[n..]);
        if colon == "" || colon[0] != ':' then Rejected
        else Accepted((Label(s[..n], token.value.value.points, s[n..][..Spaces(s[n..])],
            colon[1..][..Spaces(colon[1..])]), AfterSpaces(colon[1..])))
  }

  /** One value at the start of a text, and the text after it. */
  function ParseValue(s: string): (r: Decoded<(Cst, string)>)
    ensures r.Accepted? ==> |r.value.1| < |s|
    decreases |s|, 0
  {
    if s == "" then Rejected
    else if s[0] == '{' || s[0] == '[' then
      var kind := if s[0] == '{' then Objects else Arrays;
      var inside := AfterSpaces(s[1..]);
      if inside != "" && inside[0] == Close(kind) then Accepted((Empty(kind, s[1..][..Spaces(s[1..])]), inside[1..]))
      else
        var items := ParseItems(kind, s[1..], {});
        if items.Rejected? then Rejected else Accepted((Filled(kind, items.value.0), items.value.1))
    else
      var token := Scan(s);
      if token.Rejected? then Rejected
      else Accepted((Leaf(s[..token.value.length], token.value.value), s[token.value.length..]))
  }

  /** The entries of a container and its closing bracket. */
  function ParseItems(kind: Kind, s: string, seen: set<Key>): (r: Decoded<(Items, string)>)
    ensures r.Accepted? ==> |r.value.1| < |s|
    decreases |s|, 1
  {
    var before := s[..Spaces(s)];
    var name := ParseLabel(kind, AfterSpaces(s), seen);
    if name.Rejected? then Rejected
    else
      var value := ParseValue(name.value.1);
      if value.Rejected? then Rejected
      else
        var after := value.value.1[..Spaces(value.value.1)];
        var tail := AfterSpaces(value.value.1);
        if tail != "" && tail[0] == Close(kind)
            then Accepted((Last(before, name.value.0, value.value.0, after), tail[1..]))
        else if tail == "" || tail[0] != ',' then Rejected
        else
          var rest := ParseItems(kind, tail[1..], Seen(name.value.0, seen));
          if rest.Rejected? then Rejected
          else Accepted((More(before, name.value.0, value.value.0, after, rest.value.0), rest.value.1))
  }

  // ---- What is read is what was written ---------------------------------------------------------------------

  lemma SpacesSplit(s: string)
    ensures s == s[..Spaces(s)] + AfterSpaces(s) && AllSpace(s[..Spaces(s)])
  {
  }

  lemma TokenIsItself(s: string)
    requires Scan(s).Accepted?
    ensures IsToken(s[..Scan(s).value.length], Scan(s).value.value)
  {
    var n := Scan(s).value.length;
    assert s[..n][..n] == s[..n];
    ScanStable(s, s[..n]);
  }

  lemma ColonSplit(s: string)
    requires AfterSpaces(s) != "" && AfterSpaces(s)[0] == ':'
    ensures
      var value := AfterSpaces(s)[1..];
      s == s[..Spaces(s)] + (":" + (value[..Spaces(value)] + AfterSpaces(value)))
  {
    hide Spaces, AfterSpaces, AllSpace;
    SpacesSplit(s);
    var colon := AfterSpaces(s);
    SpacesSplit(colon[1..]);
    assert colon == ":" + colon[1..];
  }

  lemma LabelIsSpelled(s: string, seen: set<Key>)
    requires ParseLabel(Objects, s, seen).Accepted?
    ensures
      var r := ParseLabel(Objects, s, seen).value;
      s == LabelTo(r.0, r.1)
  {
    hide Scan, Spaces, AfterSpaces, AllSpace;
    var n := Scan(s).value.length;
    ColonSplit(s[n..]);
    var r := ParseLabel(Objects, s, seen).value;
    var spelled := r.0.afterKey + (":" + (r.0.beforeValue + r.1));
    assert s[n..] == spelled;
    assert s == s[..n] + spelled;
  }

  lemma LabelIsSound(kind: Kind, s: string, seen: set<Key>)
    requires ParseLabel(kind, s, seen).Accepted?
    ensures
      var r := ParseLabel(kind, s, seen).value;
      s == LabelTo(r.0, r.1) && WellLabelled(kind, r.0, seen)
  {
    hide Scan, Spaces, AfterSpaces, AllSpace, IsToken, LabelTo;
    if kind.Objects? {
      LabelIsSpelled(s, seen);
      var n := Scan(s).value.length;
      TokenIsItself(s);
      SpacesSplit(s[n..]);
      SpacesSplit(AfterSpaces(s[n..])[1..]);
    } else {
      assert LabelTo(NoLabel, s) == s by {
        UnlabelledText(s);
      }
    }
  }

  lemma UnlabelledText(s: string)
    ensures LabelTo(NoLabel, s) == s
  {
  }

  /** An accepted text is the text of the tree it was read as, and that tree is well formed. */
  lemma {:induction false} ValueIsSound(s: string)
    requires ParseValue(s).Accepted?
    ensures
      var r := ParseValue(s).value;
      s == PrintTo(r.0, r.1) && WellFormed(r.0)
    decreases |s|, 0
  {
    hide Scan, WellFormedItems, ItemsTo, ParseItems, Spaces, AfterSpaces, AllSpace;
    if s[0] == '{' || s[0] == '[' {
      var kind := if s[0] == '{' then Objects else Arrays;
      SpacesSplit(s[1..]);
      var inside := AfterSpaces(s[1..]);
      assert s == [Open(kind)] + s[1..];
      if inside != "" && inside[0] == Close(kind) {
        assert inside == [Close(kind)] + inside[1..];
      } else {
        ItemsAreSound(kind, s[1..], {});
      }
    } else {
      TokenIsItself(s);
    }
  }

  lemma {:induction false} ItemsAreSound(kind: Kind, s: string, seen: set<Key>)
    requires ParseItems(kind, s, seen).Accepted?
    ensures
      var r := ParseItems(kind, s, seen).value;
      s == ItemsTo(kind, r.0, r.1) && WellFormedItems(kind, r.0, seen)
    decreases |s|, 1
  {
    hide Scan, PrintTo, WellFormed, LabelTo, WellLabelled, ParseLabel, ParseValue, Spaces, AfterSpaces, AllSpace;
    SpacesSplit(s);
    LabelIsSound(kind, AfterSpaces(s), seen);
    var name := ParseLabel(kind, AfterSpaces(s), seen).value;
    ValueIsSound(name.1);
    var value := ParseValue(name.1).value;
    SpacesSplit(value.1);
    var tail := AfterSpaces(value.1);
    if tail[0] == Close(kind) {
      assert tail == [Close(kind)] + tail[1..];
    } else {
      assert tail == "," + tail[1..];
      ItemsAreSound(kind, tail[1..], Seen(name.0, seen));
    }
  }

  // ---- What is written can be read ------------------------------------------------------------------------

  predicate Unspaced(s: string) {
    s == "" || !IsSpace(s[0])
  }

  predicate Delimited(s: string) {
    s == "" || IsDelimiter(s[0])
  }

  lemma {:induction false} SpacesEnd(space: string, rest: string)
    requires AllSpace(space) && Unspaced(rest)
    ensures Spaces(space + rest) == |space|
    ensures (space + rest)[..|space|] == space && AfterSpaces(space + rest) == rest
  {
    if space == "" {
      assert space + rest == rest;
    } else {
      assert (space + rest)[1..] == space[1..] + rest;
      SpacesEnd(space[1..], rest);
    }
  }

  lemma TokenEnds(token: string, value: Scalar, rest: string)
    requires IsToken(token, value) && Delimited(rest)
    ensures Scan(token + rest) == Accepted(Token(value, |token|))
    ensures (token + rest)[..|token|] == token && (token + rest)[|token|..] == rest
  {
    hide Scan;
    assert token[..|token|] == token;
    ScanStable(token, token + rest);
  }

  /** A token starts with a character of its own: no space, bracket or comma. */
  lemma TokenStarts(token: string, value: Scalar)
    requires IsToken(token, value)
    ensures token != "" && !IsSpace(token[0]) && token[0] != '[' && token[0] != ']' && token[0] != '{'
    ensures token[0] != '}' && token[0] != ','
    ensures value.Text? ==> token[0] == '"'
  {
    if token[0] != '"' && !IsLiteral(token) {
      NumberStart(token);
    }
  }

  lemma LabelIsComplete(kind: Kind, name: Label, seen: set<Key>, rest: string)
    requires WellLabelled(kind, name, seen) && Unspaced(rest)
    ensures ParseLabel(kind, LabelTo(name, rest), seen) == Accepted((name, rest))
  {
    hide Scan, Spaces, AfterSpaces, AllSpace;
    if name.Label? {
      var value := name.beforeValue + rest;
      var colon := ":" + value;
      var tail := name.afterKey + colon;
      SpacesEnd(name.beforeValue, rest);
      SpacesEnd(name.afterKey, colon);
      assert colon[1..] == value;
      SpacesDelimit(name.afterKey, colon);
      TokenEnds(name.token, Text(name.key), tail);
    }
  }

  lemma SpacesDelimit(space: string, rest: string)
    requires AllSpace(space) && rest != "" && IsDelimiter(rest[0])
    ensures Delimited(space + rest)
  {
  }

  /** The text of a value starts with no space and no closing bracket. */
  lemma ValueStarts(c: Cst, rest: string)
    requires WellFormed(c)
    ensures
      var s := PrintTo(c, rest);
      s != "" && !IsSpace(s[0]) && s[0] != ']' && s[0] != '}'
  {
    if c.Leaf? {
      TokenStarts(c.token, c.value);
    }
  }

  lemma LabelStarts(kind: Kind, name: Label, seen: set<Key>, rest: string)
    requires WellLabelled(kind, name, seen) && rest != "" && !IsSpace(rest[0]) && rest[0] != Close(kind)
    ensures
      var s := LabelTo(name, rest);
      s != "" && !IsSpace(s[0]) && s[0] != Close(kind)
  {
    hide Scan;
    if name.Label? {
      TokenStarts(name.token, Text(name.key));
    }
  }

  lemma ItemsStart(kind: Kind, i: Items, seen: set<Key>, rest: string)
    requires WellFormedItems(kind, i, seen)
    ensures
      var inside := AfterSpaces(ItemsTo(kind, i, rest));
      inside == LabelTo(i.name, PrintTo(i.value, i.after + TailTo(kind, i, rest))) && inside != ""
          && inside[0] != Close(kind)
    ensures ItemsTo(kind, i, rest)[..Spaces(ItemsTo(kind, i, rest))] == i.before
  {
    hide Spaces, AfterSpaces, AllSpace, PrintTo, LabelTo, TailTo, WellFormed, WellLabelled;
    var value := PrintTo(i.value, i.after + TailTo(kind, i, rest));
    ValueStarts(i.value, i.after + TailTo(kind, i, rest));
    LabelStarts(kind, i.name, seen, value);
    SpacesEnd(i.before, LabelTo(i.name, value));
  }

  /** Every well-formed tree is read back from its text, whatever delimiter follows. */
  lemma {:induction false} ValueIsComplete(c: Cst, rest: string)
    requires WellFormed(c) && Delimited(rest)
    ensures ParseValue(PrintTo(c, rest)) == Accepted((c, rest))
    decreases c
  {
    hide Scan, Spaces, AfterSpaces, AllSpace, WellFormedItems, ItemsTo, ParseItems;
    match c {
      case Leaf(token, value) =>
        TokenStarts(token, value);
        TokenEnds(token, value, rest);
      case Empty(kind, space) =>
        var inside := [Close(kind)] + rest;
        SpacesEnd(space, inside);
        assert PrintTo(c, rest)[1..] == space + inside;
        assert inside[1..] == rest;
      case Filled(kind, items) =>
        ItemsStart(kind, items, {}, rest);
        ItemsAreComplete(kind, items, {}, rest);
        assert PrintTo(c, rest)[1..] == ItemsTo(kind, items, rest);
    }
  }

  lemma TailStarts(kind: Kind, i: Items, rest: string)
    ensures
      var tail := TailTo(kind, i, rest);
      && tail != "" && IsDelimiter(tail[0]) && !IsSpace(tail[0])
      && (i.Last? ==> tail[0] == Close(kind) && tail[1..] == rest)
      && (i.More? ==> tail[0] == ',' && tail[1..] == ItemsTo(kind, i.rest, rest))
  {
    hide ItemsTo;
  }

  lemma {:induction false} ItemsAreComplete(kind: Kind, i: Items, seen: set<Key>, rest: string)
    requires WellFormedItems(kind, i, seen)
    ensures ParseItems(kind, ItemsTo(kind, i, rest), seen) == Accepted((i, rest))
    decreases i
  {
    hide Scan, Spaces, AfterSpaces, AllSpace, WellFormed, WellLabelled, LabelTo, PrintTo, TailTo, ParseLabel;
    hide ParseValue, ItemsTo;
    var tail := TailTo(kind, i, rest);
    var following := i.after + tail;
    ItemsStart(kind, i, seen, rest);
    ValueStarts(i.value, following);
    LabelIsComplete(kind, i.name, seen, PrintTo(i.value, following));
    TailStarts(kind, i, rest);
    SpacesDelimit(i.after, tail);
    ValueIsComplete(i.value, following);
    SpacesEnd(i.after, tail);
    if i.More? {
      ItemsAreComplete(kind, i.rest, Seen(i.name, seen), rest);
    }
  }
}
