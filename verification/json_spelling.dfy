/** How a JSON document is spelled and when it is well formed, entry by entry, as section 2 of RFC 8259 has it. */
module JsonSpelling {
  import opened Prelude
  import opened JsonScan
  import opened JsonTree
  import opened JsonPaths

  // ---- The text of a document -------------------------------------------------------------------------------------

  function KeyText(name: Label): string {
    match name
    case NoLabel => ""
    case Label(token, _, afterKey, beforeValue) => token + afterKey + ":" + beforeValue
  }

  /** The entries of a container, with commas between them. */
  function EntriesText(i: Items): string
    decreases i
  {
    i.before + KeyText(i.name) + Print(i.value) + i.after + if i.Last? then "" else "," + EntriesText(i.rest)
  }

  lemma KeysAreSpelled(name: Label, rest: string)
    ensures LabelTo(name, rest) == KeyText(name) + rest
  {
    if name.Label? {
      assert KeyText(name) + rest == name.token + (name.afterKey + (":" + (name.beforeValue + rest)));
    }
  }

  lemma PrintsBefore(c: Cst, rest: string)
    ensures PrintTo(c, rest) == Print(c) + rest
  {
    hide PrintTo;
    PrintAppends(c, "", rest);
    assert "" + rest == rest;
  }

  lemma {:induction false} EntriesAreSpelled(kind: Kind, i: Items)
    ensures ItemsTo(kind, i, "") == EntriesText(i) + (if kind.Arrays? then "]" else "}")
    decreases i
  {
    hide PrintTo, LabelTo, KeyText;
    var tail := TailTo(kind, i, "");
    if i.More? {
      EntriesAreSpelled(kind, i.rest);
    }
    PrintsBefore(i.value, i.after + tail);
    KeysAreSpelled(i.name, PrintTo(i.value, i.after + tail));
    var front := i.before + KeyText(i.name) + Print(i.value) + i.after;
    assert ItemsTo(kind, i, "") == front + tail;
    assert [Close(kind)] + "" == [Close(kind)];
  }

  /** Brackets around the entries of an array, braces around those of an object. */
  lemma TextsExactly(c: Cst)
    ensures c.Leaf? ==> Print(c) == c.token
    ensures c.Empty? ==> Print(c) == if c.kind.Arrays? then "[" + c.space + "]" else "{" + c.space + "}"
    ensures c.Filled? ==>
              Print(c) == if c.kind.Arrays? then "[" + EntriesText(c.items) + "]" else "{" + EntriesText(c.items) + "}"
  {
    hide ItemsTo, EntriesText;
    if c.Filled? {
      EntriesAreSpelled(c.kind, c.items);
    }
    if c.Empty? {
      assert c.space + ([Close(c.kind)] + "") == c.space + [Close(c.kind)];
    }
  }

  // ---- Well-formed documents --------------------------------------------------------------------------------------

  /** The entries one by one; each is the list from there on. */
  function Entries(i: Items): (entries: seq<Items>)
    ensures entries != []
    decreases i
  {
    [i] + if i.Last? then [] else Entries(i.rest)
  }

  predicate IsWhite(s: string) {
    forall k | 0 <= k < |s| :: s[k] == ' ' || s[k] == '\t' || s[k] == '\n' || s[k] == '\r'
  }

  /** Values stand alone in an array; in an object each has a key, a colon, and spaces where they may be. */
  predicate EntryFits(kind: Kind, i: Items) {
    && IsWhite(i.before) && IsWhite(i.after) && WellFormed(i.value)
    && match i.name
       case NoLabel => kind.Arrays?
       case Label(token, key, afterKey, beforeValue) =>
         kind.Objects? && Scan(token) == Accepted(Token(Text(key), |token|)) && IsWhite(afterKey)
             && IsWhite(beforeValue)
  }

  predicate KeysDifferFrom(entries: seq<Items>, seen: set<Key>) {
    && (forall k | 0 <= k < |entries| && entries[k].name.Label? :: entries[k].name.key !in seen)
    && (forall j, k | 0 <= j < k < |entries| && entries[j].name.Label? && entries[k].name.Label? ::
          entries[j].name.key != entries[k].name.key)
  }

  lemma SpacesAreWhite(s: string)
    ensures AllSpace(s) <==> IsWhite(s)
  {
  }

  lemma EntryIsLabelled(kind: Kind, i: Items, seen: set<Key>)
    ensures AllSpace(i.before) && AllSpace(i.after) && WellLabelled(kind, i.name, seen) && WellFormed(i.value)
       <==> EntryFits(kind, i) && (i.name.Label? ==> i.name.key !in seen)
  {
    hide WellFormed, AllSpace, IsWhite;
    SpacesAreWhite(i.before);
    SpacesAreWhite(i.after);
    if i.name.Label? {
      SpacesAreWhite(i.name.afterKey);
      SpacesAreWhite(i.name.beforeValue);
    }
  }

  lemma SeenBefore(i: Items, rest: seq<Items>, seen: set<Key>)
    ensures KeysDifferFrom([i] + rest, seen)
       <==> (i.name.Label? ==> i.name.key !in seen) && KeysDifferFrom(rest, Seen(i.name, seen))
  {
    var all := [i] + rest;
    assert all[0] == i && forall k | 0 <= k < |rest| :: all[k + 1] == rest[k];
    if KeysDifferFrom(all, seen) {
      forall k | 0 <= k < |rest| && rest[k].name.Label? ensures rest[k].name.key !in Seen(i.name, seen) {
        assert all[k + 1].name == rest[k].name;
      }
      forall j, k | 0 <= j < k < |rest| && rest[j].name.Label? && rest[k].name.Label?
        ensures rest[j].name.key != rest[k].name.key
      {
        assert all[j + 1].name == rest[j].name && all[k + 1].name == rest[k].name;
      }
    }
  }

  lemma {:induction false} EntriesFit(kind: Kind, i: Items, seen: set<Key>)
    ensures WellFormedItems(kind, i, seen)
       <==> && (forall k | 0 <= k < |Entries(i)| :: EntryFits(kind, Entries(i)[k]))
            && KeysDifferFrom(Entries(i), seen)
    decreases i
  {
    hide EntryFits, KeysDifferFrom, WellLabelled, AllSpace, WellFormed;
    EntryIsLabelled(kind, i, seen);
    var rest := if i.Last? then [] else Entries(i.rest);
    assert Entries(i) == [i] + rest && Entries(i)[0] == i;
    assert forall k | 0 <= k < |rest| :: Entries(i)[k + 1] == rest[k];
    SeenBefore(i, rest, seen);
    if i.More? {
      EntriesFit(kind, i.rest, Seen(i.name, seen));
    } else {
      NoneDiffer(Seen(i.name, seen));
    }
  }

  lemma NoneDiffer(seen: set<Key>)
    ensures KeysDifferFrom([], seen)
  {
  }

  /** A document is well formed exactly when its tokens and entries are, and no object has a key twice. */
  lemma WellFormedExactly(c: Cst)
    ensures c.Leaf? ==> (WellFormed(c) <==> Scan(c.token) == Accepted(Token(c.value, |c.token|)))
    ensures c.Empty? ==> (WellFormed(c) <==> IsWhite(c.space))
    ensures c.Filled? ==>
              (WellFormed(c)
               <==> && (forall k | 0 <= k < |Entries(c.items)| :: EntryFits(c.kind, Entries(c.items)[k]))
                    && KeysDifferFrom(Entries(c.items), {}))
  {
    hide EntryFits, KeysDifferFrom, WellFormedItems;
    if c.Filled? {
      EntriesFit(c.kind, c.items, {});
    }
  }
}
