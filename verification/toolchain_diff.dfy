/** toolchain_changes of scripts/release_versioned.py: a depth-first comparison of JSON trees on an explicit stack. */
module ToolchainDiff {
  import opened Prelude

  /** JSON as Python holds it; a dictionary is the list of its members. */
  datatype Json = Null | Bool(b: bool) | Int(n: int) | Float(x: real) | Infinite(negative: bool) | NotANumber
      | Text(s: string) | List(elements: seq<Json>) | Dict(members: seq<Member>)

  datatype Member = Member(key: string, value: Json)

  datatype Type = NoneType | BoolType | IntType | FloatType | StrType | ListType | DictType

  function TypeOf(v: Json): Type {
    match v
    case Null => NoneType
    case Bool(_) => BoolType
    case Int(_) => IntType
    case Float(_) => FloatType
    case Infinite(_) => FloatType
    case NotANumber => FloatType
    case Text(_) => StrType
    case List(_) => ListType
    case Dict(_) => DictType
  }

  function Height(v: Json): nat
    decreases v
  {
    match v
    case List(elements) => 1 + HeightOfList(elements)
    case Dict(members) => 1 + HeightOfMembers(members)
    case _ => 1
  }

  function HeightOfList(elements: seq<Json>): (h: nat)
    ensures forall i | 0 <= i < |elements| :: Height(elements[i]) <= h
    decreases elements
  {
    if elements == [] then 0
    else
      var first, rest := Height(elements[0]), HeightOfList(elements[1..]);
      assert forall i | 1 <= i < |elements| :: elements[i] == elements[1..][i - 1];
      if first >= rest then first else rest
  }

  function HeightOfMembers(members: seq<Member>): (h: nat)
    ensures forall i | 0 <= i < |members| :: Height(members[i].value) <= h
    decreases members
  {
    if members == [] then 0
    else
      var first, rest := Height(members[0].value), HeightOfMembers(members[1..]);
      assert forall i | 1 <= i < |members| :: members[i] == members[1..][i - 1];
      if first >= rest then first else rest
  }

  /** The value under a key, None where the dictionary does not have it. */
  function Lookup(members: seq<Member>, key: string): (v: Option<Json>)
    ensures v.Some? ==> Height(v.value) <= HeightOfMembers(members)
    ensures v.Some? <==> exists i | 0 <= i < |members| :: members[i].key == key
  {
    if members == [] then None
    else if members[|members| - 1].key == key then Some(members[|members| - 1].value)
    else
      var front := members[..|members| - 1];
      var v := Lookup(front, key);
      assert v.Some? ==> exists i :: 0 <= i < |members| && members[i].key == key by {
        if i :| 0 <= i < |front| && front[i].key == key {
          assert members[i].key == key;
        }
      }
      FrontIsLower(members);
      v
  }

  lemma {:induction false} FrontIsLower(members: seq<Member>)
    requires members != []
    ensures HeightOfMembers(members[..|members| - 1]) <= HeightOfMembers(members)
  {
    if |members| > 1 {
      FrontIsLower(members[1..]);
      assert members[..|members| - 1][1..] == members[1..][..|members| - 2];
    }
  }

  // ---- Python equality ----------------------------------------------------------------------------------------

  predicate IsNumber(v: Json) {
    v.Bool? || v.Int? || v.Float?
  }

  function NumberOf(v: Json): real
    requires IsNumber(v)
  {
    match v
    case Bool(b) => if b then 1.0 else 0.0
    case Int(n) => n as real
    case Float(x) => x
  }

  /**
   * How containers compare their members: identical or equal. Numbers compare by value whatever their type. All
   * not-a-number values of parsed documents are one object, so inside containers it matches itself.
   */
  predicate Same(v: Json, w: Json)
    decreases Height(v)
  {
    if IsNumber(v) && IsNumber(w) then NumberOf(v) == NumberOf(w)
    else
      match v
      case Null => w.Null?
      case Infinite(negative) => w == Infinite(negative)
      case NotANumber => w.NotANumber?
      case Text(s) => w == Text(s)
      case List(elements) =>
        w.List? && |w.elements| == |elements| && forall i | 0 <= i < |elements| :: Same(elements[i], w.elements[i])
      case Dict(members) =>
        && w.Dict?
        && (forall j | 0 <= j < |w.members| :: Lookup(members, w.members[j].key).Some?)
        && (forall i | 0 <= i < |members| ::
              var mine, theirs := Lookup(members, members[i].key), Lookup(w.members, members[i].key);
              theirs.Some? && mine.Some? && Same(mine.value, theirs.value))
      case _ => false
  }

  /** The == of Python on two values themselves: not-a-number equals nothing, not even itself. */
  predicate Equal(v: Json, w: Json) {
    !v.NotANumber? && Same(v, w)
  }

  // ---- Keys in order --------------------------------------------------------------------------------------------

  /** sorted(before.keys() | after.keys()) */
  function SortedKeys(before: seq<Member>, after: seq<Member>): (keys: seq<string>)
    ensures Ascending(keys)
    ensures forall k :: k in keys <==> Lookup(before, k).Some? || Lookup(after, k).Some?
    decreases |before| + |after|
  {
    if before != [] then Insert(SortedKeys(before[..|before| - 1], after), before[|before| - 1].key)
    else if after != [] then Insert(SortedKeys(before, after[..|after| - 1]), after[|after| - 1].key)
    else []
  }

  // ---- The comparison, recursively ------------------------------------------------------------------------------

  /** Two values at one path; None where a tree does not have that path. */
  datatype Item = Item(path: string, before: Option<Json>, after: Option<Json>)

  datatype Change = MissingBefore | MissingAfter | TypeChanged(was: Type, now: Type) | ValueChanged

  datatype Line = Line(path: string, change: Change)

  /** How a path is shown; long or unusual paths are replaced by a digest. */
  type Labelling = string -> string

  function EscapedKey(key: string): string {
    if key == "" then ""
    else (if key[0] == '~' then "~0" else if key[0] == '/' then "~1" else [key[0]]) + EscapedKey(key[1..])
  }

  /** Both values are there, differ, and are containers of one type. */
  predicate Opens(item: Item) {
    && item.before.Some? && item.after.Some? && !Equal(item.before.value, item.after.value)
    && TypeOf(item.before.value) == TypeOf(item.after.value) && (item.before.value.List? || item.before.value.Dict?)
  }

  /** What an item says by itself, before its children are looked at. */
  function Own(item: Item): seq<Line> {
    if item.before.None? then [Line(item.path, MissingBefore)]
    else if item.after.None? then [Line(item.path, MissingAfter)]
    else if Equal(item.before.value, item.after.value) then []
    else if TypeOf(item.before.value) != TypeOf(item.after.value)
    then [Line(item.path, TypeChanged(TypeOf(item.before.value), TypeOf(item.after.value)))]
    else if Opens(item) then []
    else [Line(item.path, ValueChanged)]
  }

  function MemberItem(item: Item, key: string, show: Labelling): Item
    requires Opens(item) && item.before.value.Dict?
  {
    Item(show(item.path + "/" + EscapedKey(key)), Lookup(item.before.value.members, key),
        Lookup(item.after.value.members, key))
  }

  function ElementAt(elements: seq<Json>, n: nat): Option<Json> {
    if n < |elements| then Some(elements[n]) else None
  }

  function ElementItem(item: Item, n: nat, show: Labelling): Item
    requires Opens(item) && item.before.value.List?
  {
    Item(show(item.path + "/" + Decimal(n)), ElementAt(item.before.value.elements, n),
        ElementAt(item.after.value.elements, n))
  }

  function Longer(a: nat, b: nat): nat {
    if a >= b then a else b
  }

  function KeysOf(item: Item): seq<string>
    requires Opens(item) && item.before.value.Dict?
  {
    SortedKeys(item.before.value.members, item.after.value.members)
  }

  function ElementCount(item: Item): nat
    requires Opens(item) && item.before.value.List?
  {
    Longer(|item.before.value.elements|, |item.after.value.elements|)
  }

  /** The members in the order of their keys, or the elements in the order of their positions. */
  function Children(item: Item, show: Labelling): (children: seq<Item>)
    ensures forall i | 0 <= i < |children| :: ItemHeight(children[i]) < ItemHeight(item)
  {
    if !Opens(item) then []
    else if item.before.value.Dict? then
      var keys := KeysOf(item);
      seq(|keys|, i requires 0 <= i < |keys| => MemberItem(item, keys[i], show))
    else seq(ElementCount(item), n requires 0 <= n < ElementCount(item) => ElementItem(item, n, show))
  }

  function ItemHeight(item: Item): nat {
    if item.before.Some? then Height(item.before.value) else 0
  }

  function Highest(items: seq<Item>): (h: nat)
    ensures forall i | 0 <= i < |items| :: ItemHeight(items[i]) <= h
    ensures h == 0 || exists i | 0 <= i < |items| :: ItemHeight(items[i]) == h
  {
    if items == [] then 0
    else
      var rest := Highest(items[1..]);
      assert forall i | 1 <= i < |items| :: items[i] == items[1..][i - 1];
      if ItemHeight(items[0]) >= rest then ItemHeight(items[0])
      else
        assert exists i | 0 <= i < |items| :: ItemHeight(items[i]) == rest by {
          var i :| 0 <= i < |items[1..]| && ItemHeight(items[1..][i]) == rest;
          assert items[i + 1] == items[1..][i];
        }
        rest
  }

  /** The lines of an item and of everything below it, depth first. */
  function Trace(item: Item, show: Labelling): seq<Line>
    decreases 2 * ItemHeight(item) + 1, 0
  {
    var children := Children(item, show);
    if children == [] then Own(item) else Own(item) + TraceAll(children, show)
  }

  function TraceAll(items: seq<Item>, show: Labelling): seq<Line>
    decreases 2 * Highest(items) + 2, |items|
  {
    if items == [] then []
    else
      assert Highest(items[1..]) <= Highest(items);
      Trace(items[0], show) + TraceAll(items[1..], show)
  }

  /** How many items the stack hands out for an item and everything below it. */
  function Pops(item: Item, show: Labelling): nat
    decreases 2 * ItemHeight(item) + 1, 0
  {
    var children := Children(item, show);
    if children == [] then 1 else 1 + PopsAll(children, show)
  }

  function PopsAll(items: seq<Item>, show: Labelling): nat
    decreases 2 * Highest(items) + 2, |items|
  {
    if items == [] then 0
    else
      assert Highest(items[1..]) <= Highest(items);
      Pops(items[0], show) + PopsAll(items[1..], show)
  }

  // ---- The comparison on a stack ----------------------------------------------------------------------------------

  lemma {:induction false} ReversedSplits(stack: seq<Item>)
    requires stack != []
    ensures Reversed(stack) == [stack[|stack| - 1]] + Reversed(stack[..|stack| - 1])
  {
    hide Reversed;
    var all, front := Reversed(stack), Reversed(stack[..|stack| - 1]);
    forall i | 1 <= i < |stack| ensures all[i] == front[i - 1] {
    }
  }

  lemma {:induction false} ReversedAppends(stack: seq<Item>, items: seq<Item>)
    ensures Reversed(stack + Reversed(items)) == items + Reversed(stack)
  {
    hide Reversed;
    var all, under := Reversed(stack + Reversed(items)), Reversed(stack);
    forall i | 0 <= i < |all| ensures all[i] == (items + under)[i] {
    }
  }

  lemma {:induction false} ReversedNext(items: seq<Item>, k: nat)
    requires k < |items|
    ensures Reversed(items)[..k + 1] == Reversed(items)[..k] + [items[|items| - 1 - k]]
  {
    hide Reversed;
  }

  lemma {:induction false} TraceAllAppends(items: seq<Item>, more: seq<Item>, show: Labelling)
    ensures TraceAll(items + more, show) == TraceAll(items, show) + TraceAll(more, show)
    ensures PopsAll(items + more, show) == PopsAll(items, show) + PopsAll(more, show)
  {
    hide Trace, Pops, Highest;
    if items == [] {
      assert items + more == more;
    } else {
      assert (items + more)[1..] == items[1..] + more;
      TraceAllAppends(items[1..], more, show);
    }
  }

  /** Push the children of an item, the last one first, so that the first one is on top. */
  method QueueMapping(item: Item, show: Labelling, pending: seq<Item>) returns (stack: seq<Item>)
    requires Opens(item) && item.before.value.Dict?
    ensures stack == pending + Reversed(Children(item, show))
  {
    hide SortedKeys, Lookup, Equal, Same, Height, Reversed, KeysOf, MemberItem;
    var keys := KeysOf(item);
    ghost var children := Children(item, show);
    stack := pending;
    var n := |keys|;
    while n > 0
      invariant 0 <= n <= |keys| && stack == pending + Reversed(children)[..|keys| - n]
    {
      n := n - 1;
      ReversedNext(children, |keys| - n - 1);
      stack := stack + [MemberItem(item, keys[n], show)];
    }
    assert Reversed(children)[..|keys|] == Reversed(children);
  }

  method QueueList(item: Item, show: Labelling, pending: seq<Item>) returns (stack: seq<Item>)
    requires Opens(item) && item.before.value.List?
    ensures stack == pending + Reversed(Children(item, show))
  {
    hide Equal, Same, Height, Reversed, ElementCount, ElementItem;
    var count := ElementCount(item);
    ghost var children := Children(item, show);
    stack := pending;
    var n := count;
    while n > 0
      invariant 0 <= n <= count && stack == pending + Reversed(children)[..count - n]
    {
      n := n - 1;
      ReversedNext(children, count - n - 1);
      stack := stack + [ElementItem(item, n, show)];
    }
    assert Reversed(children)[..count] == Reversed(children);
  }

  /** What popping an item does to the lines still to come and to the work still to do. */
  lemma PopStep(stack: seq<Item>, show: Labelling)
    requires stack != []
    ensures
      var rest, item := stack[..|stack| - 1], stack[|stack| - 1];
      var next := rest + Reversed(Children(item, show));
      && TraceAll(Reversed(stack), show) == Own(item) + TraceAll(Reversed(next), show)
      && PopsAll(Reversed(stack), show) == 1 + PopsAll(Reversed(next), show)
  {
    hide Own, Children, Highest, Reversed;
    var rest, item := stack[..|stack| - 1], stack[|stack| - 1];
    var children := Children(item, show);
    ReversedSplits(stack);
    ReversedAppends(rest, children);
    TraceAllAppends(children, Reversed(rest), show);
    var all := [item] + Reversed(rest);
    assert all[1..] == Reversed(rest);
    if children == [] {
      assert TraceAll(children, show) == [] && PopsAll(children, show) == 0;
    }
  }

  /** The loop terminates on all trees and says, line by line, what the recursive comparison says. */
  method ToolchainChanges(original: Json, current: Json, show: Labelling) returns (lines: seq<Line>)
    ensures lines == Trace(Item("toolchain", Some(original), Some(current)), show)
  {
    hide Children, Trace, TraceAll, Pops, PopsAll, Highest, Reversed, Equal, Same;
    ghost var root := Item("toolchain", Some(original), Some(current));
    var pending := [Item("toolchain", Some(original), Some(current))];
    lines := [];
    RootAlone(root, show);
    while pending != []
      invariant lines + TraceAll(Reversed(pending), show) == Trace(root, show)
      decreases PopsAll(Reversed(pending), show)
    {
      PopStep(pending, show);
      var item := pending[|pending| - 1];
      ghost var before := lines;
      pending := pending[..|pending| - 1];
      ghost var rest := pending;
      if item.before.None? {
        lines := lines + [Line(item.path, MissingBefore)];
      } else if item.after.None? {
        lines := lines + [Line(item.path, MissingAfter)];
      } else if Equal(item.before.value, item.after.value) {
        lines := lines + [];
      } else if TypeOf(item.before.value) != TypeOf(item.after.value) {
        lines := lines + [Line(item.path, TypeChanged(TypeOf(item.before.value), TypeOf(item.after.value)))];
      } else if item.before.value.Dict? {
        lines := lines + [];
        pending := QueueMapping(item, show, pending);
      } else if item.before.value.List? {
        lines := lines + [];
        pending := QueueList(item, show, pending);
      } else {
        lines := lines + [Line(item.path, ValueChanged)];
      }
      if !Opens(item) {
        ClosedHasNoChildren(item, show);
        assert rest + [] == rest;
      }
      LinesJoin(before, Own(item), TraceAll(Reversed(pending), show));
    }
    NothingIsLeft(show);
    assert lines + [] == lines;
  }

  lemma LinesJoin(a: seq<Line>, b: seq<Line>, c: seq<Line>)
    ensures a + (b + c) == (a + b) + c
  {
  }

  lemma RootAlone(root: Item, show: Labelling)
    ensures TraceAll(Reversed([root]), show) == Trace(root, show)
  {
    hide Trace, Highest;
    assert Reversed([root]) == [root];
    assert [root][1..] == [];
  }

  lemma ClosedHasNoChildren(item: Item, show: Labelling)
    requires !Opens(item)
    ensures Reversed(Children(item, show)) == []
  {
  }

  lemma NothingIsLeft(show: Labelling)
    ensures TraceAll(Reversed([]), show) == []
  {
  }

  // ---- Line by line -------------------------------------------------------------------------------------------------

  function Types(v: Json, w: Json): (Type, Type) {
    (if v.Null? then NoneType else if v.Bool? then BoolType else if v.Int? then IntType else if v.Text? then StrType
     else if v.List? then ListType else if v.Dict? then DictType else FloatType,
     if w.Null? then NoneType else if w.Bool? then BoolType else if w.Int? then IntType else if w.Text? then StrType
     else if w.List? then ListType else if w.Dict? then DictType else FloatType)
  }

  /** The element of a list at a position, the value of a dictionary under a key, if they are there. */
  function Nth(elements: seq<Json>, n: nat): Option<Json> {
    if n >= |elements| then None else Some(elements[n])
  }

  /** A path below another one: the separators inside a key are written as escapes. */
  lemma {:induction false} PathsExactly(key: string, rest: string)
    ensures EscapedKey("") == "" && EscapedKey("~" + rest) == "~0" + EscapedKey(rest)
    ensures EscapedKey("/" + rest) == "~1" + EscapedKey(rest)
    ensures key != "" && key[0] != '~' && key[0] != '/' ==> EscapedKey(key) == [key[0]] + EscapedKey(key[1..])
  {
    assert ("~" + rest)[1..] == rest && ("/" + rest)[1..] == rest;
  }

  /**
   * What is said of one item: that it is missing on one side, nothing when its values are equal, both types when they
   * differ, what is said of the members or elements of two containers, and otherwise that the value has changed.
   */
  lemma LinesExactly(item: Item, show: Labelling)
    ensures item.before.None? ==> Trace(item, show) == [Line(item.path, MissingBefore)]
    ensures item.before.Some? && item.after.None? ==> Trace(item, show) == [Line(item.path, MissingAfter)]
    ensures item.before.Some? && item.after.Some? ==>
              var v, w := item.before.value, item.after.value;
              Trace(item, show) ==
              if Equal(v, w) then []
              else if Types(v, w).0 != Types(v, w).1 then [Line(item.path, TypeChanged(Types(v, w).0, Types(v, w).1))]
              else if v.Dict? then
                var keys := SortedKeys(v.members, w.members);
                TraceAll(seq(|keys|, i requires 0 <= i < |keys| =>
                  Item(show(item.path + "/" + EscapedKey(keys[i])), Lookup(v.members, keys[i]),
                      Lookup(w.members, keys[i]))), show)
              else if v.List? then
                var count := if |v.elements| < |w.elements| then |w.elements| else |v.elements|;
                TraceAll(seq(count, n requires 0 <= n < count =>
                  Item(show(item.path + "/" + Decimal(n)), Nth(v.elements, n), Nth(w.elements, n))), show)
              else [Line(item.path, ValueChanged)]
  {
    hide TraceAll, SortedKeys, Lookup, EscapedKey, Decimal, Equal, Same, Height;
    if Opens(item) {
      var v, w := item.before.value, item.after.value;
      if v.Dict? {
        var keys := SortedKeys(v.members, w.members);
        assert Children(item, show) == seq(|keys|, i requires 0 <= i < |keys| =>
          Item(show(item.path + "/" + EscapedKey(keys[i])), Lookup(v.members, keys[i]), Lookup(w.members, keys[i])));
      } else {
        var count := if |v.elements| < |w.elements| then |w.elements| else |v.elements|;
        assert Children(item, show) == seq(count, n requires 0 <= n < count =>
          Item(show(item.path + "/" + Decimal(n)), Nth(v.elements, n), Nth(w.elements, n)));
      }
      NothingIsLeft(show);
      assert Own(item) + TraceAll(Children(item, show), show) == TraceAll(Children(item, show), show);
    }
  }

  /** Both dictionaries lack a key, or have it with values that are the same. */
  predicate SameUnder(mine: seq<Member>, theirs: seq<Member>, key: string) {
    && (Lookup(mine, key).None? <==> Lookup(theirs, key).None?)
    && (Lookup(mine, key).Some? ==> Same(Lookup(mine, key).value, Lookup(theirs, key).value))
  }

  lemma MembersAreSame(v: Json, w: Json, key: string)
    requires v.Dict? && w.Dict? && Same(v, w)
    ensures SameUnder(v.members, w.members, key)
  {
    hide Height, HeightOfList, HeightOfMembers, Lookup;
    if Lookup(v.members, key).Some? {
      var i :| 0 <= i < |v.members| && v.members[i].key == key;
    }
  }

  lemma SameMembersAreSame(v: Json, w: Json)
    requires v.Dict? && w.Dict? && forall key :: SameUnder(v.members, w.members, key)
    ensures Same(v, w)
  {
    hide Height, HeightOfList, HeightOfMembers, Lookup;
    forall j | 0 <= j < |w.members| ensures Lookup(v.members, w.members[j].key).Some? {
      assert SameUnder(v.members, w.members, w.members[j].key);
    }
    forall i | 0 <= i < |v.members|
      ensures Lookup(v.members, v.members[i].key).Some? && Lookup(w.members, v.members[i].key).Some?
      ensures Same(Lookup(v.members, v.members[i].key).value, Lookup(w.members, v.members[i].key).value)
    {
      assert SameUnder(v.members, w.members, v.members[i].key);
    }
  }

  lemma DictsExactly(v: Json, w: Json)
    requires v.Dict?
    ensures Same(v, w) <==> w.Dict? && forall key :: SameUnder(v.members, w.members, key)
  {
    hide SameUnder, Lookup, Height;
    if w.Dict? {
      if Same(v, w) {
        forall key ensures SameUnder(v.members, w.members, key) {
          MembersAreSame(v, w, key);
        }
      }
      if forall key :: SameUnder(v.members, w.members, key) {
        SameMembersAreSame(v, w);
      }
    }
  }

  lemma ListsExactly(v: Json, w: Json)
    requires v.List?
    ensures Same(v, w)
       <==> && w.List? && |v.elements| == |w.elements|
            && forall i | 0 <= i < |v.elements| :: Same(v.elements[i], w.elements[i])
  {
    hide Height, HeightOfList, HeightOfMembers, Lookup;
  }

  /**
   * Numbers are equal by value, whatever their type; other scalars by being the same; containers by what they hold.
   */
  lemma EqualityExactly(v: Json, w: Json)
    ensures v.NotANumber? ==> !Equal(v, w)
    ensures !v.NotANumber? ==> (Equal(v, w) <==> Same(v, w))
    ensures IsNumber(v) && IsNumber(w) ==> (Same(v, w) <==> NumberOf(v) == NumberOf(w))
    ensures !(IsNumber(v) && IsNumber(w)) && !v.List? && !v.Dict? ==> (Same(v, w) <==> v == w)
    ensures v.List? ==>
              (Same(v, w) <==>
               && w.List? && |v.elements| == |w.elements|
               && forall i | 0 <= i < |v.elements| :: Same(v.elements[i], w.elements[i]))
    ensures v.Dict? ==> (Same(v, w) <==> w.Dict? && forall key :: SameUnder(v.members, w.members, key))
    ensures NumberOf(Bool(true)) == NumberOf(Int(1)) == NumberOf(Float(1.0)) == 1.0 && NumberOf(Bool(false)) == 0.0
  {
    hide SameUnder, Lookup, Height, HeightOfList, HeightOfMembers;
    if v.List? {
      ListsExactly(v, w);
    } else if v.Dict? {
      DictsExactly(v, w);
    }
  }

  // ---- Silence means equality ---------------------------------------------------------------------------------------

  lemma {:induction false} SomeTraceSpeaks(items: seq<Item>, i: nat, show: Labelling)
    requires i < |items| && Trace(items[i], show) != []
    ensures TraceAll(items, show) != []
  {
    hide Trace, Highest;
    if i > 0 {
      SomeTraceSpeaks(items[1..], i - 1, show);
    }
  }

  /** An item that is missing on one side, or whose values differ, has at least one line. */
  lemma {:induction false} DifferencesSpeak(item: Item, show: Labelling)
    requires item.before.Some? || item.after.Some?
    requires item.before.Some? && item.after.Some? ==> !Equal(item.before.value, item.after.value)
    ensures Trace(item, show) != []
    decreases ItemHeight(item)
  {
    hide TraceAll, Highest, Equal, Same;
    if Opens(item) {
      var i := DifferingChild(item, show);
      var child := Children(item, show)[i];
      DifferencesSpeak(child, show);
      SomeTraceSpeaks(Children(item, show), i, show);
    }
  }

  /** Containers that differ have a child that differs. */
  lemma DifferingChild(item: Item, show: Labelling) returns (i: nat)
    requires Opens(item)
    ensures i < |Children(item, show)|
    ensures
      var child := Children(item, show)[i];
      && (child.before.Some? || child.after.Some?)
      && (child.before.Some? && child.after.Some? ==> !Equal(child.before.value, child.after.value))
  {
    hide SortedKeys, Height;
    if item.before.value.Dict? {
      var mine, theirs := item.before.value.members, item.after.value.members;
      var key := DifferingKey(mine, theirs);
      assert key in KeysOf(item);
      i :| 0 <= i < |KeysOf(item)| && KeysOf(item)[i] == key;
    } else {
      var mine, theirs := item.before.value.elements, item.after.value.elements;
      if |mine| != |theirs| {
        i := if |mine| < |theirs| then |mine| else |theirs|;
      } else {
        i :| 0 <= i < |mine| && !Same(mine[i], theirs[i]);
      }
    }
  }

  lemma DifferingKey(mine: seq<Member>, theirs: seq<Member>) returns (key: string)
    requires !Equal(Dict(mine), Dict(theirs))
    ensures key in SortedKeys(mine, theirs)
    ensures Lookup(mine, key).Some? && Lookup(theirs, key).Some?
        ==> !Equal(Lookup(mine, key).value, Lookup(theirs, key).value)
  {
    hide SortedKeys, Lookup;
    if j :| 0 <= j < |theirs| && Lookup(mine, theirs[j].key).None? {
      key := theirs[j].key;
    } else {
      var i :| 0 <= i < |mine| && !(
                 var a, b := Lookup(mine, mine[i].key), Lookup(theirs, mine[i].key);
                 b.Some? && a.Some? && Same(a.value, b.value));
      key := mine[i].key;
    }
  }

  /** Nothing is emitted exactly when the trees are equal under Python equality. */
  lemma SilentExactlyWhenEqual(original: Json, current: Json, show: Labelling)
    ensures Trace(Item("toolchain", Some(original), Some(current)), show) == [] <==> Equal(original, current)
  {
    if !Equal(original, current) {
      DifferencesSpeak(Item("toolchain", Some(original), Some(current)), show);
    }
  }

  lemma {:induction false} LineOfOne(items: seq<Item>, i: nat, show: Labelling, line: Line)
    requires i < |items| && line in Trace(items[i], show)
    ensures line in TraceAll(items, show)
  {
    hide Trace, Highest;
    if i > 0 {
      LineOfOne(items[1..], i - 1, show, line);
    }
  }

  /** Not-a-number on both sides is reported in every container that differs for whatever reason. */
  lemma NotANumberIsReported(item: Item, i: nat, show: Labelling)
    requires Opens(item) && i < |Children(item, show)|
    requires Children(item, show)[i].before == Some(NotANumber) && Children(item, show)[i].after == Some(NotANumber)
    ensures Line(Children(item, show)[i].path, ValueChanged) in Trace(item, show)
  {
    hide TraceAll, Highest, Children, Opens, Same;
    var child := Children(item, show)[i];
    ClosedSaysItsOwn(child, show);
    LineOfOne(Children(item, show), i, show, Line(child.path, ValueChanged));
  }

  lemma ClosedSaysItsOwn(item: Item, show: Labelling)
    requires item.before == Some(NotANumber) && item.after == Some(NotANumber)
    ensures Trace(item, show) == [Line(item.path, ValueChanged)]
  {
    hide TraceAll, Highest, Same;
  }

  /** A container with not-a-number in it is passed over when nothing else in it differs. */
  lemma NotANumberInside(show: Labelling)
    ensures
      var document := Dict([Member("v", NotANumber)]);
      Trace(Item("toolchain", Some(document), Some(document)), show) == []
  {
    hide TraceAll, Highest;
  }
}
