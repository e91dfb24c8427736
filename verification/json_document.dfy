/** _JsonDocument of scripts/version_plan.py: a recursive parser that records where every scalar stands. */
module JsonDocuments {
  import opened Prelude
  import opened JsonScan
  import opened JsonTree
  import opened JsonPaths

  datatype Json = Value(scalar: Scalar) | List(elements: seq<Json>) | Dict(members: map<Key, Json>)

  /** The Python value of a document: spaces, spelling and the order of keys are gone. */
  function DataOf(c: Cst): Json
    decreases c
  {
    match c
    case Leaf(_, value) => Value(value)
    case Empty(kind, _) => if kind.Arrays? then List([]) else Dict(map[])
    case Filled(kind, items) => if kind.Arrays? then List(ListOf(items)) else Dict(DictOf(items))
  }

  function ListOf(i: Items): seq<Json>
    decreases i
  {
    [DataOf(i.value)] + if i.More? then ListOf(i.rest) else []
  }

  function DictOf(i: Items): map<Key, Json>
    decreases i
  {
    var first := if i.name.Label? then map[i.name.key := DataOf(i.value)] else map[];
    if i.More? then first + DictOf(i.rest) else first
  }

  // ---- What a parse leaves behind -------------------------------------------------------------------------

  datatype Outcome = Failed | Done(value: Json, end: int, spans: Spans)

  /** Parsing one value at the start of s, the end of a text of some total length. */
  function ValueOutcome(s: string, total: nat, path: Path, spans: Spans): Outcome
    requires |s| <= total
  {
    var r := ParseValue(s);
    if r.Rejected? then Failed
    else Done(DataOf(r.value.0), total - |r.value.1|, spans + SpansOf(r.value.0, path, total - |s|))
  }

  /** Parsing the entries of an array from the start of s on, with some elements already read. */
  function ArrayOutcome(s: string, total: nat, path: Path, elements: seq<Json>, spans: Spans): Outcome
    requires |s| <= total
  {
    var r := ParseItems(Arrays, s, {});
    if r.Rejected? then Failed
    else Done(List(elements + ListOf(r.value.0)), total - |r.value.1|,
        spans + SpansIn(r.value.0, path, total - |s|, |elements|))
  }

  function ObjectOutcome(s: string, total: nat, path: Path, members: map<Key, Json>, n: nat, spans: Spans): Outcome
    requires |s| <= total
  {
    var r := ParseItems(Objects, s, members.Keys);
    if r.Rejected? then Failed
    else Done(Dict(members + DictOf(r.value.0)), total - |r.value.1|, spans + SpansIn(r.value.0, path, total - |s|, n))
  }

  lemma ValueEnds(s: string)
    requires ParseValue(s).Accepted?
    ensures |s| == Length(ParseValue(s).value.0) + |ParseValue(s).value.1|
  {
    hide ParseValue, PrintTo, WellFormed;
    ValueIsSound(s);
    PrintLength(ParseValue(s).value.0, ParseValue(s).value.1);
  }

  lemma MapsJoin<K, V>(a: map<K, V>, b: map<K, V>, c: map<K, V>)
    ensures a + (b + c) == (a + b) + c
  {
  }

  lemma MapTakes<K, V>(a: map<K, V>, k: K, v: V)
    ensures a + map[k := v] == a[k := v] && a[k := v].Keys == a.Keys + {k}
  {
  }

  /** What follows a parsed value is the rest of the text from its end on. */
  lemma RestOfText(text: string, at: nat, s: string)
    requires at <= |text| && s == AfterSpaces(text[at..]) && ParseValue(s).Accepted?
    ensures
      var rest := ParseValue(s).value.1;
      |rest| <= |text| && text[|text| - |rest|..] == rest
  {
    hide ParseValue, PrintTo, WellFormed, Spaces, AfterSpaces;
    ValueIsSound(s);
    var r := ParseValue(s).value;
    PrintLength(r.0, r.1);
    PrintAppends(r.0, "", r.1);
    assert "" + r.1 == r.1;
    SpacesSplit(text[at..]);
    assert text == text[..at] + text[at..];
  }

  /** One turn of the array loop, when the value is the last one. */
  lemma ArrayEnds(s: string, total: nat, path: Path, elements: seq<Json>, spans: Spans)
    requires |s| <= total && ParseValue(AfterSpaces(s)).Accepted?
    requires var tail := AfterSpaces(ParseValue(AfterSpaces(s)).value.1); tail != "" && tail[0] == ']'
    ensures
      var value := ParseValue(AfterSpaces(s)).value;
      ArrayOutcome(s, total, path, elements, spans)
      == Done(List(elements + [DataOf(value.0)]), total - |AfterSpaces(value.1)| + 1,
              spans + SpansOf(value.0, path + [At(|elements|)], total - |AfterSpaces(s)|))
  {
    hide Spaces, AllSpace, ParseValue, SpansOf;
    var value := ParseValue(AfterSpaces(s)).value;
    var r := ParseItems(Arrays, s, {}).value;
    assert ListOf(r.0) == [DataOf(value.0)];
  }

  /** One turn of the array loop, when a comma follows the value. */
  lemma ArrayGoesOn(s: string, total: nat, path: Path, elements: seq<Json>, spans: Spans)
    requires |s| <= total && ParseValue(AfterSpaces(s)).Accepted?
    requires var tail := AfterSpaces(ParseValue(AfterSpaces(s)).value.1); tail != "" && tail[0] == ','
    ensures
      var value := ParseValue(AfterSpaces(s)).value;
      ArrayOutcome(s, total, path, elements, spans)
      == ArrayOutcome(AfterSpaces(value.1)[1..], total, path, elements + [DataOf(value.0)],
                      spans + SpansOf(value.0, path + [At(|elements|)], total - |AfterSpaces(s)|))
  {
    hide Spaces, AllSpace, ParseValue, SpansOf, Length;
    var value := ParseValue(AfterSpaces(s)).value;
    ValueEnds(AfterSpaces(s));
    var tail := AfterSpaces(value.1);
    var rest := ParseItems(Arrays, tail[1..], {});
    if rest.Accepted? {
      var first, later := [DataOf(value.0)], ListOf(rest.value.0);
      assert (elements + first) + later == elements + (first + later);
      MapsJoin(spans, SpansOf(value.0, path + [At(|elements|)], total - |AfterSpaces(s)|),
          SpansIn(rest.value.0, path, total - |tail[1..]|, |elements| + 1));
    }
  }

  lemma ArrayFails(s: string, total: nat, path: Path, elements: seq<Json>, spans: Spans)
    requires |s| <= total
    requires
      var value := ParseValue(AfterSpaces(s));
      value.Accepted? ==> var tail := AfterSpaces(value.value.1); tail == "" || (tail[0] != ']' && tail[0] != ',')
    ensures ArrayOutcome(s, total, path, elements, spans) == Failed
  {
  }

  lemma LabelEnds(s: string, seen: set<Key>)
    requires ParseLabel(Objects, s, seen).Accepted?
    ensures
      var r := ParseLabel(Objects, s, seen).value;
      |s| == LabelLength(r.0) + |r.1| && r.0.Label? && r.0.key !in seen
  {
    hide Scan, LabelTo;
    LabelIsSound(Objects, s, seen);
    LabelToLength(ParseLabel(Objects, s, seen).value.0, ParseLabel(Objects, s, seen).value.1);
  }

  /** The member at the start of s: its key and the text of its value; rejected also when the key is a repeat. */
  function MemberAt(s: string, seen: set<Key>): Decoded<(Label, string)> {
    ParseLabel(Objects, AfterSpaces(s), seen)
  }

  lemma ObjectEnds(s: string, total: nat, path: Path, members: map<Key, Json>, n: nat, spans: Spans)
    requires |s| <= total && MemberAt(s, members.Keys).Accepted?
    requires ParseValue(MemberAt(s, members.Keys).value.1).Accepted?
    requires var tail := AfterSpaces(ParseValue(MemberAt(s, members.Keys).value.1).value.1);
        tail != "" && tail[0] == '}'
    ensures
      var name := MemberAt(s, members.Keys).value;
      var value := ParseValue(name.1).value;
      && name.0.Label?
      && ObjectOutcome(s, total, path, members, n, spans)
         == Done(Dict(members[name.0.key := DataOf(value.0)]), total - |AfterSpaces(value.1)| + 1,
                 spans + SpansOf(value.0, path + [Name(name.0.key)], total - |name.1|))
  {
    hide Spaces, AllSpace, ParseValue, SpansOf, ParseLabel, LabelLength;
    var name := MemberAt(s, members.Keys).value;
    LabelEnds(AfterSpaces(s), members.Keys);
    var r := ParseItems(Objects, s, members.Keys).value;
    var data := DataOf(ParseValue(name.1).value.0);
    assert DictOf(r.0) == map[name.0.key := data];
    assert members + map[name.0.key := data] == members[name.0.key := data];
  }

  lemma ItemsGoOn(kind: Kind, s: string, seen: set<Key>)
    requires ParseLabel(kind, AfterSpaces(s), seen).Accepted?
    requires ParseValue(ParseLabel(kind, AfterSpaces(s), seen).value.1).Accepted?
    requires
      var value := ParseValue(ParseLabel(kind, AfterSpaces(s), seen).value.1).value;
      AfterSpaces(value.1) != "" && AfterSpaces(value.1)[0] == ','
    ensures
      var name := ParseLabel(kind, AfterSpaces(s), seen).value;
      var value := ParseValue(name.1).value;
      var rest := ParseItems(kind, AfterSpaces(value.1)[1..], Seen(name.0, seen));
      ParseItems(kind, s, seen) ==
      if rest.Rejected? then Rejected
      else Accepted((More(s[..Spaces(s)], name.0, value.0, value.1[..Spaces(value.1)], rest.value.0), rest.value.1))
  {
    hide Spaces, AfterSpaces, ParseLabel, ParseValue;
  }

  /** The positions of a container's entries, seen from the end of the text. */
  lemma SpansGoOn(s: string, seen: set<Key>, total: nat, path: Path, n: nat, rest: Items)
    requires |s| <= total && MemberAt(s, seen).Accepted? && ParseValue(MemberAt(s, seen).value.1).Accepted?
    requires AfterSpaces(ParseValue(MemberAt(s, seen).value.1).value.1) != ""
    ensures
      var name := MemberAt(s, seen).value;
      var value := ParseValue(name.1).value;
      && name.0.Label?
      && SpansIn(More(s[..Spaces(s)], name.0, value.0, value.1[..Spaces(value.1)], rest), path, total - |s|, n)
         == SpansOf(value.0, path + [Name(name.0.key)], total - |name.1|)
            + SpansIn(rest, path, total - |AfterSpaces(value.1)[1..]|, n + 1)
  {
    hide ParseValue, SpansOf, ParseLabel, LabelLength, Length;
    var name := MemberAt(s, seen).value;
    LabelEnds(AfterSpaces(s), seen);
    ValueEnds(name.1);
  }

  lemma ObjectGoesOn(s: string, total: nat, path: Path, members: map<Key, Json>, n: nat, spans: Spans)
    requires |s| <= total && MemberAt(s, members.Keys).Accepted?
    requires ParseValue(MemberAt(s, members.Keys).value.1).Accepted?
    requires var tail := AfterSpaces(ParseValue(MemberAt(s, members.Keys).value.1).value.1);
        tail != "" && tail[0] == ','
    ensures
      var name := MemberAt(s, members.Keys).value;
      var value := ParseValue(name.1).value;
      && name.0.Label?
      && ObjectOutcome(s, total, path, members, n, spans)
         == ObjectOutcome(AfterSpaces(value.1)[1..], total, path, members[name.0.key := DataOf(value.0)], n + 1,
                          spans + SpansOf(value.0, path + [Name(name.0.key)], total - |name.1|))
  {
    hide Spaces, AfterSpaces, AllSpace, ParseValue, SpansOf, ParseLabel, SpansIn, ParseItems, DataOf, ValueOutcome;
    var name := MemberAt(s, members.Keys).value;
    LabelEnds(AfterSpaces(s), members.Keys);
    ItemsGoOn(Objects, s, members.Keys);
    var value := ParseValue(name.1).value;
    var more := members[name.0.key := DataOf(value.0)];
    MapTakes(members, name.0.key, DataOf(value.0));
    var rest := ParseItems(Objects, AfterSpaces(value.1)[1..], more.Keys);
    if rest.Accepted? {
      var r := rest.value;
      SpansGoOn(s, members.Keys, total, path, n, r.0);
      MapsJoin(members, map[name.0.key := DataOf(value.0)], DictOf(r.0));
      MapsJoin(spans, SpansOf(value.0, path + [Name(name.0.key)], total - |name.1|),
          SpansIn(r.0, path, total - |AfterSpaces(value.1)[1..]|, n + 1));
    }
  }

  lemma ObjectFails(s: string, total: nat, path: Path, members: map<Key, Json>, n: nat, spans: Spans)
    requires |s| <= total
    requires
      var name := MemberAt(s, members.Keys);
      name.Accepted? ==>
        var value := ParseValue(name.value.1);
        value.Accepted? ==> var tail := AfterSpaces(value.value.1); tail == "" || (tail[0] != '}' && tail[0] != ',')
    ensures ObjectOutcome(s, total, path, members, n, spans) == Failed
  {
    hide Spaces, AllSpace, ParseLabel;
  }

  // ---- The parser ---------------------------------------------------------------------------------------------

  class JsonDocument {
    const text: string
    var spans: Spans

    constructor (text: string)
      ensures this.text == text && spans == map[]
    {
      this.text := text;
      spans := map[];
    }

    ghost function Result(ok: bool, value: Json, end: int): Outcome
      reads this
    {
      if ok then Done(value, end, spans) else Failed
    }

    method Whitespace(index: nat) returns (end: nat)
      requires index <= |text|
      ensures index <= end <= |text| && text[end..] == AfterSpaces(text[index..])
    {
      end := index;
      while end < |text| && IsSpace(text[end])
        invariant index <= end <= |text| && AllSpace(text[index..end])
      {
        assert text[index..end + 1] == text[index..end] + [text[end]];
        end := end + 1;
      }
      assert text[index..] == text[index..end] + text[end..];
      SpacesEnd(text[index..end], text[end..]);
    }

    /** One value after any spaces: an object, an array, or a scalar whose position is recorded. */
    method Parse(index: nat, path: Path) returns (ok: bool, value: Json, end: nat)
      requires index <= |text|
      modifies this
      ensures end <= |text|
      ensures Result(ok, value, end) == ValueOutcome(AfterSpaces(text[index..]), |text|, path, old(spans))
      decreases |text| - index, 2
    {
      ok, value, end := false, List([]), index;
      var start := Whitespace(index);
      if start == |text| {
        return;
      }
      if text[start] == '{' {
        ok, value, end := Object(start, path);
      } else if text[start] == '[' {
        ok, value, end := Array(start, path);
      } else {
        var token := Scan(text[start..]);
        if token.Accepted? {
          end := start + token.value.length;
          spans := spans[path := (start, end)];
          ok, value := true, Value(token.value.value);
          ScalarOutcome(text, start, path, old(spans));
        }
      }
    }

    method Array(index: nat, path: Path) returns (ok: bool, value: Json, end: nat)
      requires index < |text| && text[index] == '['
      modifies this
      ensures end <= |text|
      ensures Result(ok, value, end) == ValueOutcome(text[index..], |text|, path, old(spans))
      decreases |text| - index, 1
    {
      hide Spaces, AfterSpaces, ParseValue, ParseItems, SpansOf, SpansIn, ArrayOutcome;
      ok, value, end := false, List([]), index;
      var at := Whitespace(index + 1);
      ContainerOutcome(text, index, path, spans);
      if at < |text| && text[at] == ']' {
        return true, List([]), at + 1;
      }
      var elements: seq<Json> := [];
      ghost var from := index + 1;
      while true
        invariant end <= |text| && index < from <= at <= |text| && text[at..] == AfterSpaces(text[from..])
        invariant ArrayOutcome(text[from..], |text|, path, elements, spans)
            == ValueOutcome(text[index..], |text|, path, old(spans))
        decreases |text| - at
      {
        var element: Json;
        ghost var before, known := spans, elements;
        SpacedTwice(text, from, at);
        ok, element, end := Parse(at, path + [At(|elements|)]);
        if !ok {
          ArrayFails(text[from..], |text|, path, known, before);
          return;
        }
        RestOfText(text, from, AfterSpaces(text[from..]));
        var next := Whitespace(end);
        ok := next < |text| && (text[next] == ']' || text[next] == ',');
        if !ok {
          ArrayFails(text[from..], |text|, path, known, before);
          return false, value, index;
        }
        elements := elements + [element];
        if text[next] == ']' {
          ArrayEnds(text[from..], |text|, path, known, before);
          return true, List(elements), next + 1;
        }
        ArrayGoesOn(text[from..], |text|, path, known, before);
        from := next + 1;
        at := Whitespace(next + 1);
      }
    }

    /** The key of a member and its colon; the value may start after the returned position. */
    method ReadKey(index: nat, seen: set<Key>) returns (ok: bool, key: Key, end: nat)
      requires index <= |text|
      ensures ok <==> ParseLabel(Objects, text[index..], seen).Accepted?
      ensures ok ==> index < end <= |text| && ParseLabel(Objects, text[index..], seen).value.0.Label?
      ensures ok ==> ParseLabel(Objects, text[index..], seen).value.0.key == key
      ensures ok ==> ParseLabel(Objects, text[index..], seen).value.1 == AfterSpaces(text[end..])
    {
      hide Spaces, AfterSpaces, AllSpace, Scan;
      ok, key, end := false, [], index;
      var token := Scan(text[index..]);
      if token.Rejected? || !token.value.value.Text? || token.value.value.points in seen {
        return;
      }
      var past := index + token.value.length;
      assert text[past..] == text[index..][token.value.length..];
      var colon := Whitespace(past);
      if colon == |text| || text[colon] != ':' {
        return;
      }
      assert text[colon..][1..] == text[colon + 1..];
      return true, token.value.value.points, colon + 1;
    }

    method Object(index: nat, path: Path) returns (ok: bool, value: Json, end: nat)
      requires index < |text| && text[index] == '{'
      modifies this
      ensures end <= |text|
      ensures Result(ok, value, end) == ValueOutcome(text[index..], |text|, path, old(spans))
      decreases |text| - index, 1
    {
      hide Spaces, AfterSpaces, AllSpace, ParseValue, ParseItems, ParseLabel, SpansOf, SpansIn, ObjectOutcome;
      hide ArrayOutcome, DataOf;
      ok, value, end := false, List([]), index;
      var at := Whitespace(index + 1);
      ContainerOutcome(text, index, path, spans);
      if at < |text| && text[at] == '}' {
        return true, Dict(map[]), at + 1;
      }
      var members: map<Key, Json> := map[];
      ghost var from, n: nat := index + 1, 0;
      while true
        invariant end <= |text| && index < from <= at <= |text| && text[at..] == AfterSpaces(text[from..])
        invariant ObjectOutcome(text[from..], |text|, path, members, n, spans)
            == ValueOutcome(text[index..], |text|, path, old(spans))
        decreases |text| - at
      {
        var key: Key, member: Json, start: nat;
        ghost var before, known := spans, members;
        ok, key, start := ReadKey(at, members.Keys);
        if !ok {
          ObjectFails(text[from..], |text|, path, known, n, before);
          return;
        }
        ok, member, end := Parse(start, path + [Name(key)]);
        if !ok {
          ObjectFails(text[from..], |text|, path, known, n, before);
          return;
        }
        RestOfText(text, start, AfterSpaces(text[start..]));
        var next := Whitespace(end);
        ok := next < |text| && (text[next] == '}' || text[next] == ',');
        if !ok {
          ObjectFails(text[from..], |text|, path, known, n, before);
          return false, value, index;
        }
        members := members[key := member];
        if text[next] == '}' {
          ObjectEnds(text[from..], |text|, path, known, n, before);
          return true, Dict(members), next + 1;
        }
        ObjectGoesOn(text[from..], |text|, path, known, n, before);
        from, n := next + 1, n + 1;
        at := Whitespace(next + 1);
      }
    }
  }

  lemma ScalarOutcome(text: string, start: nat, path: Path, spans: Spans)
    requires start < |text| && text[start] != '{' && text[start] != '['
    ensures
      var token := Scan(text[start..]);
      ValueOutcome(text[start..], |text|, path, spans)
      == if token.Rejected? then Failed
         else Done(Value(token.value.value), start + token.value.length,
             spans[path := (start, start + token.value.length)])
  {
    hide Scan;
    var token := Scan(text[start..]);
    if token.Accepted? {
      var found := map[path := (start, start + token.value.length)];
      assert spans + found == spans[path := (start, start + token.value.length)];
    }
  }

  lemma ContainerOutcome(text: string, index: nat, path: Path, spans: Spans)
    requires index < |text| && (text[index] == '{' || text[index] == '[')
    ensures
      var outcome := ValueOutcome(text[index..], |text|, path, spans);
      var inside := AfterSpaces(text[index + 1..]);
      if text[index] == '[' then
        if inside != "" && inside[0] == ']' then outcome == Done(List([]), |text| - |inside| + 1, spans)
        else outcome == ArrayOutcome(text[index + 1..], |text|, path, [], spans)
      else
        if inside != "" && inside[0] == '}' then outcome == Done(Dict(map[]), |text| - |inside| + 1, spans)
        else outcome == ObjectOutcome(text[index + 1..], |text|, path, map[], 0, spans)
  {
    hide AfterSpaces, Spaces, ParseItems, SpansIn, ListOf, DictOf;
    var s := text[index..];
    assert s[1..] == text[index + 1..];
    assert spans + map[] == spans;
    var kind := if text[index] == '{' then Objects else Arrays;
    var r := ParseItems(kind, s[1..], {});
    var none: map<Key, Json> := map[];
    assert none.Keys == {};
    if r.Accepted? {
      assert [] + ListOf(r.value.0) == ListOf(r.value.0);
      assert none + DictOf(r.value.0) == DictOf(r.value.0);
    }
  }

  lemma SpacedTwice(text: string, from: nat, at: nat)
    requires from <= at <= |text| && text[at..] == AfterSpaces(text[from..])
    ensures AfterSpaces(text[at..]) == text[at..]
  {
    SpacesEnd("", text[at..]);
    assert "" + text[at..] == text[at..];
  }
}
