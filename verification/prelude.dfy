/** Small shared vocabulary: optional values, rejected decodings, extrema of finite sets of readings. */
module Prelude {
  datatype Option<+T> = None | Some(value: T)

  /** The outcome of a decoder: the source raises, here the frame is Rejected. */
  datatype Decoded<+T> = Rejected | Accepted(value: T)

  function Least(x: real, y: real): real {
    if x <= y then x else y
  }

  /** The least of x and a list of readings. */
  function Lowest(x: real, readings: seq<real>): (y: real)
    ensures y <= x && (y == x || y in readings)
    ensures forall i | 0 <= i < |readings| :: y <= readings[i]
  {
    if readings == [] then x else Least(Lowest(x, readings[..|readings| - 1]), readings[|readings| - 1])
  }

  /** The greatest of x and a list of readings. */
  function Highest(x: real, readings: seq<real>): (y: real)
    ensures x <= y && (y == x || y in readings)
    ensures forall i | 0 <= i < |readings| :: readings[i] <= y
  {
    if readings == [] then x else
    var y := Highest(x, readings[..|readings| - 1]);
    if y <= readings[|readings| - 1] then readings[|readings| - 1] else y
  }

  function Reversed<T>(s: seq<T>): (r: seq<T>)
    ensures |r| == |s| && forall i | 0 <= i < |s| :: r[i] == s[|s| - 1 - i]
  {
    if s == [] then [] else Reversed(s[1..]) + [s[0]]
  }

  /** The decimal digits of a number. */
  function Decimal(n: nat): string {
    if n < 10 then [(n + '0' as int) as char] else Decimal(n / 10) + [(n % 10 + '0' as int) as char]
  }

  ghost predicate IsLeast(m: real, s: set<real>) {
    m in s && forall x :: x in s ==> m <= x
  }

  ghost predicate IsGreatest(m: real, s: set<real>) {
    m in s && forall x :: x in s ==> x <= m
  }

  ghost function Pick<T>(s: set<T>): (x: T)
    requires s != {}
    ensures x in s
  {
    var x :| x in s;
    x
  }

  ghost function Minimum(s: set<real>): (m: real)
    requires s != {}
    ensures IsLeast(m, s)
  {
    var x := Pick(s);
    var rest := s - {x};
    assert forall y :: y in s ==> y == x || y in rest;
    if rest == {} then x else Least(x, Minimum(rest))
  }

  ghost function Maximum(s: set<real>): (m: real)
    requires s != {}
    ensures IsGreatest(m, s)
  {
    var x := Pick(s);
    var rest := s - {x};
    assert forall y :: y in s ==> y == x || y in rest;
    if rest == {} then x else
    var m := Maximum(rest);
    if m <= x then x else m
  }

  /** Any element of a set, as a loop over a dictionary's keys takes them. */
  method Choose<T(==)>(s: set<T>) returns (x: T)
    requires s != {}
    ensures x in s
  {
    x :| x in s;
  }

  lemma SubsetSize<T>(small: set<T>, large: set<T>)
    requires small <= large
    ensures |small| <= |large|
  {
    if small != {} {
      var x := Pick(small);
      SubsetSize(small - {x}, large - {x});
    }
  }

  lemma SubsetOfSameSize<T>(small: set<T>, large: set<T>)
    requires small <= large && |small| == |large|
    ensures small == large
  {
    forall x | x in large ensures x in small {
      if x !in small {
        SubsetSize(small, large - {x});
      }
    }
  }

  // ---- Strings in order ---------------------------------------------------------------------------------------

  /** Strings by code points, as Python orders them. */
  predicate Less(s: string, t: string) {
    if t == "" then false
    else if s == "" then true
    else s[0] < t[0] || (s[0] == t[0] && Less(s[1..], t[1..]))
  }

  lemma {:induction false} LessIsTotal(s: string, t: string)
    ensures Less(s, t) || Less(t, s) || s == t
  {
    if s != "" && t != "" {
      LessIsTotal(s[1..], t[1..]);
      assert s == [s[0]] + s[1..] && t == [t[0]] + t[1..];
    }
  }

  lemma {:induction false} LessIsTransitive(s: string, t: string, u: string)
    requires Less(s, t) && Less(t, u)
    ensures Less(s, u)
  {
    if s != "" && s[0] == t[0] == u[0] {
      LessIsTransitive(s[1..], t[1..], u[1..]);
    }
  }

  predicate Ascending(keys: seq<string>) {
    forall i | 0 <= i < |keys| - 1 :: Less(keys[i], keys[i + 1])
  }

  lemma {:induction false} NotLessThanItself(s: string)
    ensures !Less(s, s)
  {
    if s != "" {
      NotLessThanItself(s[1..]);
    }
  }

  lemma {:induction false} AscendingThroughout(keys: seq<string>, i: nat, j: nat)
    requires Ascending(keys) && i < j < |keys|
    ensures Less(keys[i], keys[j]) && keys[i] != keys[j]
    decreases j
  {
    hide Less;
    NotLessThanItself(keys[j]);
    if i < j - 1 {
      AscendingThroughout(keys, i, j - 1);
      LessIsTransitive(keys[i], keys[j - 1], keys[j]);
    }
  }

  /** Insert a key into an ascending list that may already hold it. */
  function Insert(keys: seq<string>, key: string): (r: seq<string>)
    requires Ascending(keys)
    ensures Ascending(r) && forall k :: k in r <==> k in keys || k == key
    ensures r != [] && (r[0] == key || (keys != [] && r[0] == keys[0]))
  {
    if keys == [] || Less(key, keys[0]) then [key] + keys
    else if keys[0] == key then keys
    else
      LessIsTotal(key, keys[0]);
      var rest := Insert(keys[1..], key);
      assert keys == [keys[0]] + keys[1..];
      [keys[0]] + rest
  }
}
