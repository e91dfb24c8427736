/** Which values a JSON edit writes and which it refuses, and how numbers and strings are spelled. */
module JsonValues {
  import opened Prelude
  import opened JsonScan
  import opened JsonTree
  import opened JsonPaths
  import opened JsonDocuments
  import opened JsonEdit
  import opened JsonEditLaws

  // ---- What an edit sets ------------------------------------------------------------------------------------------

  /** The code points are the characters of the token that reads as this integer. */
  ghost predicate WritesInteger(points: seq<int>, n: int) {
    exists token: string :: ScanNumber(token) == Accepted(Token(Int(n), |token|)) && token != "-0"
      && |token| == |points| && forall i | 0 <= i < |token| :: points[i] == token[i] as int
  }

  /** A code point that UTF-8 can hold: no surrogate. */
  predicate EncodesAlone(point: int) {
    && 0 <= point <= 1114111 && !(55296 <= point <= 57343)
  }

  /** An integer takes an integer; a string takes an integer, or a text that can be written. Nothing else is set. */
  predicate Settable(value: Scalar, held: Scalar) {
    || (held.Int? && value.Int?)
    || (held.Text? && value.Int?)
    || (held.Text? && value.Text?
        && (value == held || forall i | 0 <= i < |value.points| :: EncodesAlone(value.points[i])))
  }

  /** What a field holds once it is set. */
  ghost predicate IsSet(value: Scalar, held: Scalar, now: Scalar) {
    if held.Int? then value.Int? && now == Int(value.n)
    else held.Text? && now.Text? && match value
      case Text(points) => now.points == points
      case Int(n) => WritesInteger(now.points, n)
      case _ => false
  }

  lemma IntegersAreWritten(n: int)
    ensures WritesInteger(Points(IntText(n)), n)
    ensures Writable(Points(IntText(n)))
  {
    hide ScanNumber, Decimal;
    IntReadsBack(n);
    IntegersAreAscii(n);
    NoNegativeZero(n);
  }

  lemma {:induction false} DecimalsAreDigits(n: nat)
    ensures forall i | 0 <= i < |Decimal(n)| :: '0' <= Decimal(n)[i] <= '9'
    ensures n > 0 ==> Decimal(n) != "0"
  {
    if n >= 10 {
      DecimalsAreDigits(n / 10);
    }
  }

  lemma IntegersAreAscii(n: int)
    ensures forall i | 0 <= i < |IntText(n)| :: IntText(n)[i] as int < 0x80
  {
    hide Decimal;
    DecimalsAreDigits(if n < 0 then -n else n);
  }

  lemma NoNegativeZero(n: int)
    ensures IntText(n) != "-0"
  {
    hide Decimal;
    DecimalsAreDigits(if n < 0 then -n else n);
    if n < 0 {
      assert IntText(n)[1..] == Decimal(-n) && "-0"[1..] == "0";
    } else {
      assert "-0"[0] == '-';
    }
  }

  lemma ReplacementExactly(value: Scalar, held: Scalar)
    ensures Editable(value, held) <==> Settable(value, held)
    ensures Editable(value, held) ==> IsSet(value, held, Replacement(value, held).value)
  {
    hide WritesInteger, Points, IntText;
    if value.Int? {
      IntegersAreWritten(value.n);
    }
    if value.Text? {
      assert Writable(value.points) <==> forall i | 0 <= i < |value.points| :: EncodesAlone(value.points[i]);
    }
  }

  /** An edit is accepted exactly when the file is a document that is owned and every field can take the value. */
  lemma EditsAreAcceptedExactly(text: string, d: Declaration, value: Scalar)
    ensures Edited(text, d, value).Accepted?
       <==> && DocumentOf(text).Accepted? && Owned(d, DataOf(DocumentOf(text).value.tree))
            && forall field | field in FieldsOf(d, DataOf(DocumentOf(text).value.tree)) ::
                 && IsLeaf(DocumentOf(text).value.tree, field)
                 && Settable(value, ValueAt(DocumentOf(text).value.tree, field))
  {
    hide DocumentOf, DataOf, Owned, FieldsOf, Settable, Editable, WithFields, TextOf;
    if DocumentOf(text).Accepted? && Owned(d, DataOf(DocumentOf(text).value.tree)) {
      var c := DocumentOf(text).value.tree;
      var fields := FieldsOf(d, DataOf(c));
      forall field | IsLeaf(c, field)
        ensures Editable(value, ValueAt(c, field)) <==> Settable(value, ValueAt(c, field))
      {
        ReplacementExactly(value, ValueAt(c, field));
      }
      FieldsAreDistinct(d, DataOf(c));
      assert (forall field | field in fields :: EditableAt(c, field, value))
          <==> forall i | 0 <= i < |fields| :: EditableAt(c, fields[i], value);
    }
  }

  /** Read back from the edited text, every owned field holds the value in its own kind. */
  lemma FieldsHoldTheirValue(text: string, d: Declaration, value: Scalar, field: Path)
    requires Edited(text, d, value).Accepted? && DocumentOf(text).Accepted?
    requires field in FieldsOf(d, DataOf(DocumentOf(text).value.tree))
    ensures
      var c, edited := DocumentOf(text).value.tree, Edited(text, d, value).value.0;
      && DocumentOf(edited).Accepted?
      && IsLeaf(c, field) && IsLeaf(DocumentOf(edited).value.tree, field)
      && IsSet(value, ValueAt(c, field), ValueAt(DocumentOf(edited).value.tree, field))
  {
    hide DocumentOf, DataOf, Owned, FieldsOf, IsSet, Settable, WithFields, TextOf, Makes, SameShape, WellFormed;
    hide Subtree;
    hide Replacement, Edited;
    var c := DocumentOf(text).value.tree;
    EditedTextReadsBack(text, d, value);
    var fields := FieldsOf(d, DataOf(c));
    var i :| 0 <= i < |fields| && fields[i] == field;
    assert EditableAt(c, fields[i], value);
    ReplacementExactly(value, ValueAt(c, field));
  }

  // ---- How numbers are spelled ------------------------------------------------------------------------------------

  predicate AreDigits(s: string) {
    s != "" && forall i | 0 <= i < |s| :: '0' <= s[i] <= '9'
  }

  /** A sign, digits without a needless zero, a fraction, and an exponent. */
  ghost predicate IsNumberText(sign: string, whole: string, fraction: string, exponent: string) {
    && (sign == "" || sign == "-") && AreDigits(whole) && (whole[0] == '0' ==> whole == "0")
    && (fraction == "" || (fraction[0] == '.' && AreDigits(fraction[1..])))
    && (exponent == "" || IsExponent(exponent))
  }

  predicate IsExponent(s: string) {
    && |s| >= 2 && (s[0] == 'e' || s[0] == 'E')
    && (AreDigits(s[1..]) || ((s[1] == '+' || s[1] == '-') && AreDigits(s[2..])))
  }

  lemma DigitsOf(s: string, rest: string)
    requires AreDigits(s) && (rest == "" || !IsDigit(rest[0]))
    ensures Digits(s + rest) == |s|
  {
    assert forall i | 0 <= i < |s| :: IsDigit((s + rest)[i]);
    assert rest != "" ==> (s + rest)[|s|] == rest[0];
  }

  lemma PartsMakeANumber(s: string, a: nat, b: nat)
    requires a == IntLength(s) > 0 && b == FractionLength(s[a..])
    requires a + b <= |s| && a + b + ExponentLength(s[a + b..]) == |s|
    ensures ScanNumber(s) == Accepted(Token(if a == |s| then Int(Integer(s)) else Float(s), |s|))
  {
    hide Integer, IntLength, FractionLength, ExponentLength;
    assert s[..|s|] == s;
  }

  /** Every number of RFC 8259 is one token, an integer when it has neither fraction nor exponent. */
  lemma NumbersAreRead(sign: string, whole: string, fraction: string, exponent: string)
    requires IsNumberText(sign, whole, fraction, exponent)
    ensures
      var s := sign + whole + fraction + exponent;
      && ScanNumber(s).Accepted? && ScanNumber(s).value.length == |s|
      && (ScanNumber(s).value.value.Int? <==> fraction == "" && exponent == "")
      && (!ScanNumber(s).value.value.Int? ==> ScanNumber(s).value.value == Float(s))
  {
    hide Integer, IntLength, FractionLength, ExponentLength, ScanNumber, IsExponent;
    var s, tail := sign + whole + fraction + exponent, fraction + exponent;
    assert s == sign + (whole + tail);
    TailStartsWithNoDigit(fraction, exponent);
    WholeIsRead(sign, whole, tail);
    var a := |sign| + |whole|;
    assert s[a..] == tail;
    FractionIsRead(fraction, exponent);
    assert s[a + |fraction|..] == exponent;
    ExponentIsRead(exponent);
    PartsMakeANumber(s, a, |fraction|);
  }

  lemma TailStartsWithNoDigit(fraction: string, exponent: string)
    requires fraction == "" || (fraction[0] == '.' && AreDigits(fraction[1..]))
    requires exponent == "" || IsExponent(exponent)
    ensures fraction + exponent == "" || !IsDigit((fraction + exponent)[0])
  {
    assert fraction == "" ==> fraction + exponent == exponent;
  }

  lemma WholeIsRead(sign: string, whole: string, tail: string)
    requires (sign == "" || sign == "-") && AreDigits(whole) && (whole[0] == '0' ==> whole == "0")
    requires tail == "" || !IsDigit(tail[0])
    ensures IntLength(sign + (whole + tail)) == |sign| + |whole|
  {
    var s := sign + (whole + tail);
    assert s[|sign|..] == whole + tail;
    assert s[|sign|] == whole[0];
    DigitsOf(whole, tail);
  }

  lemma FractionIsRead(fraction: string, exponent: string)
    requires fraction == "" || (fraction[0] == '.' && AreDigits(fraction[1..]))
    requires exponent == "" || IsExponent(exponent)
    ensures FractionLength(fraction + exponent) == |fraction|
  {
    if fraction != "" {
      assert (fraction + exponent)[1..] == fraction[1..] + exponent;
      DigitsOf(fraction[1..], exponent);
    }
  }

  lemma ExponentIsRead(s: string)
    requires s == "" || IsExponent(s)
    ensures ExponentLength(s) == |s|
  {
    if s != "" {
      var from := if AreDigits(s[1..]) then 1 else 2;
      assert s[from..] == s[from..] + "";
      DigitsOf(s[from..], "");
      assert AreDigits(s[1..]) ==> IsDigit(s[1..][0]);
    }
  }

  /** Whatever is read as a number is one: sign, whole part, fraction and exponent of the token. */
  lemma ReadNumbersAreNumbers(s: string) returns (sign: string, whole: string, fraction: string, exponent: string)
    requires ScanNumber(s).Accepted?
    ensures IsNumberText(sign, whole, fraction, exponent)
    ensures s[..ScanNumber(s).value.length] == sign + whole + fraction + exponent
  {
    hide Integer, FractionLength, ExponentLength, IntLength, IsExponent, AreDigits, SignLength;
    var a, b := SignLength(s), IntLength(s);
    WholeIsOne(s);
    var f := FractionLength(s[b..]);
    var e := ExponentLength(s[b + f..]);
    sign, whole := s[..a], s[a..b];
    fraction, exponent := s[b..][..f], s[b + f..][..e];
    FractionIsOne(s[b..]);
    ExponentIsOne(s[b + f..]);
    FourParts(s, a, b, f, e);
  }

  lemma FourParts(s: string, a: nat, b: nat, f: nat, e: nat)
    requires a <= b && b + f + e <= |s|
    ensures s[..b + f + e] == s[..a] + s[a..b] + s[b..][..f] + s[b + f..][..e]
  {
    assert s[..b] == s[..a] + s[a..b];
    assert s[b..][..f] == s[b..b + f] && s[b + f..][..e] == s[b + f..b + f + e];
    assert s[..b + f] == s[..b] + s[b..b + f];
    assert s[..b + f + e] == s[..b + f] + s[b + f..b + f + e];
  }

  lemma WholeIsOne(s: string)
    requires IntLength(s) > 0
    ensures
      var a, b := SignLength(s), IntLength(s);
      && a <= b <= |s| && (s[..a] == "" || s[..a] == "-")
      && AreDigits(s[a..b]) && (s[a..b][0] == '0' ==> s[a..b] == "0")
  {
    var a, b := SignLength(s), IntLength(s);
    assert s[a..b] == s[a..][..b - a];
    assert IsDigit(s[a..][0]) && Digits(s[a..]) > 0;
    if s[a] == '0' {
      assert s[a..b] == [s[a]];
    }
  }

  lemma FractionIsOne(s: string)
    ensures
      var f := s[..FractionLength(s)];
      f == "" || (f[0] == '.' && AreDigits(f[1..]))
  {
    var n := FractionLength(s);
    if n > 0 {
      assert s[..n][1..] == s[1..][..n - 1];
      assert Digits(s[1..]) > 0 by {
        assert IsDigit(s[1..][0]);
      }
    }
  }

  lemma ExponentIsOne(s: string)
    ensures s[..ExponentLength(s)] == "" || IsExponent(s[..ExponentLength(s)])
  {
    var n := ExponentLength(s);
    if n > 0 {
      var from := if |s| >= 2 && (s[1] == '+' || s[1] == '-') then 2 else 1;
      DigitsBehind(s, from, n);
    }
  }

  lemma DigitsBehind(s: string, from: nat, n: nat)
    requires from < |s| && IsDigit(s[from]) && n == from + Digits(s[from..]) <= |s|
    ensures n > from && AreDigits(s[..n][from..])
  {
    assert s[from..][0] == s[from];
    assert s[..n][from..] == s[from..][..n - from];
  }

  // ---- How other tokens are spelled -------------------------------------------------------------------------------

  lemma SpacesExactly(c: char)
    ensures IsSpace(c) <==> c == ' ' || c == '\t' || c == '\n' || c == '\r'
  {
  }

  lemma HexDigitsExactly(c: char, d: nat)
    ensures d < 16 ==> HexDigit("0123456789abcdef"[d]) == d && HexDigit("0123456789ABCDEF"[d]) == d
    ensures HexDigit(c) >= 0 <==> '0' <= c <= '9' || 'a' <= c <= 'f' || 'A' <= c <= 'F'
  {
  }

  /** An escaped code unit has exactly four hexadecimal digits. */
  lemma UnitsExactly(s: string, rest: string)
    requires |s| == 4
    ensures ScanChar("\\u" + s + rest).Accepted? <==> forall i | 0 <= i < 4 :: HexDigit(s[i]) >= 0
  {
    hide HexDigit;
    var t := "\\u" + s + rest;
    assert t[0] == '\\' && t[1] == 'u';
    assert t[2] == s[0] && t[3] == s[1] && t[4] == s[2] && t[5] == s[3];
  }

  /** What a backslash and one letter stand for, minus one where they stand for nothing. */
  function Escape(c: char): int {
    if c == '"' then 0x22 else if c == '\\' then 0x5C else if c == '/' then 0x2F else if c == 'b' then 0x08
    else if c == 'f' then 0x0C else if c == 'n' then 0x0A else if c == 'r' then 0x0D else if c == 't' then 0x09 else -1
  }

  /** Characters stand for themselves, control characters for nothing, escapes for what the standard says. */
  lemma CharactersExactly(c: char, rest: string)
    ensures c != 'u' ==>
              ScanChar(['\\', c] + rest) == if Escape(c) == -1 then Rejected else Accepted(Token(Escape(c), 2))
    ensures c != '\\' ==> ScanChar([c] + rest) == if c as int < 0x20 then Rejected else Accepted(Token(c as int, 1))
  {
  }

  predicate FourDigits(s: string) {
    |s| == 4 && forall i | 0 <= i < 4 :: HexDigit(s[i]) >= 0
  }

  function Coded(s: string): int
    requires FourDigits(s)
  {
    0x1000 * HexDigit(s[0]) + 0x100 * HexDigit(s[1]) + 0x10 * HexDigit(s[2]) + HexDigit(s[3])
  }

  lemma UnitAt(s: string, at: nat, four: string)
    requires FourDigits(four) && at + 4 <= |s| && s[at..at + 4] == four
    ensures IsUnit(s, at) && Unit(s, at) == Coded(four)
  {
    hide HexDigit;
    assert s[at] == four[0] && s[at + 1] == four[1] && s[at + 2] == four[2] && s[at + 3] == four[3];
  }

  /** An escaped surrogate pair is one code point, a lone surrogate is kept. */
  lemma SurrogatesExactly(high: string, low: string, rest: string)
    requires FourDigits(high) && FourDigits(low)
    ensures
      var u, v := Coded(high), Coded(low);
      ScanChar("\\u" + high + "\\u" + low + rest) == Accepted(
        if 0xD800 <= u < 0xDC00 && 0xDC00 <= v < 0xE000 then Token(0x10000 + (u - 0xD800) * 0x400 + (v - 0xDC00), 12)
        else Token(u, 6))
  {
    hide Coded, Unit, IsUnit, FourDigits;
    var s := "\\u" + high + "\\u" + low + rest;
    assert s == ("\\u" + high) + ("\\u" + low + rest);
    assert |high| == 4 && |low| == 4 by {
      LengthsAreFour(high);
      LengthsAreFour(low);
    }
    assert s[2..6] == high && s[8..12] == low;
    assert s[0] == '\\' && s[1] == 'u' && s[6] == '\\' && s[7] == 'u';
    UnitAt(s, 2, high);
    UnitAt(s, 8, low);
  }

  lemma LengthsAreFour(s: string)
    requires FourDigits(s)
    ensures |s| == 4
  {
  }

  /** The literals that Python's reader knows beside numbers. */
  lemma LiteralsAreRead(word: string, rest: string)
    requires word in {"null", "true", "false", "NaN", "Infinity", "-Infinity"}
    ensures
      Scan(word + rest) == Accepted(Token(
        if word == "null" then Scalar.Null else if word == "true" then Scalar.Bool(true)
        else if word == "false" then Scalar.Bool(false) else Constant(word), |word|))
  {
    hide ScanNumber, ScanChars;
    assert (word + rest)[0] == word[0] && (word + rest)[..|word|] == word;
    assert LiteralFor(word[0]) == word;
    assert "null"[0] == 'n' && "true"[0] == 't' && "false"[0] == 'f' && "NaN"[0] == 'N' && "Infinity"[0] == 'I';
    assert "-Infinity"[0] == '-';
  }

  // ---- A lock file ------------------------------------------------------------------------------------------------

  predicate Plain(s: string) {
    forall i | 0 <= i < |s| :: s[i] as int < 0x80
  }

  lemma PlainIsWritable(s: string)
    requires Plain(s)
    ensures Writable(Points(s))
  {
  }

  function Quoted(s: string): Cst
    requires Plain(s)
  {
    PlainIsWritable(s);
    Leaf(Dumps(Text(Points(s))), Text(Points(s)))
  }

  function Key(s: string): Label
    requires Plain(s)
  {
    Label(Quoted(s).token, Points(s), "", "")
  }

  /** What an npm lock file of one package says: its name, its version, and the version of the root package. */
  function TwoVersions(package: string, outer: Cst, inner: Cst): Cst
    requires Plain(package)
  {
    KeysDiffer();
    var root := Filled(Objects, Last("", Key("version"), inner, ""));
    var packages := Filled(Objects, Last("", Key(""), root, ""));
    Filled(Objects, More("", Key("name"), Quoted(package), "",
                    More("", Key("version"), outer, "",
                    Last("", Key("packages"), packages, ""))))
  }

  function Lock(package: string, version: string): Document
    requires Plain(package) && Plain(version)
  {
    Document("", TwoVersions(package, Quoted(version), Quoted(version)), "")
  }

  lemma QuotedReadsBack(s: string)
    requires Plain(s)
    ensures Quoted(s).Leaf? && Quoted(s).value == Text(Points(s)) && IsToken(Quoted(s).token, Text(Points(s)))
  {
    hide Dumps, Scan;
    PlainIsWritable(s);
    DumpsReadsBack(Text(Points(s)));
  }

  lemma LockIsWellFormed(package: string, version: string)
    requires Plain(package) && Plain(version)
    ensures WellFormedDocument(Lock(package, version))
  {
    hide Quoted, Points, Plain, IsToken;
    KeysDiffer();
    QuotedReadsBack("name");
    QuotedReadsBack("version");
    QuotedReadsBack("packages");
    QuotedReadsBack("");
    QuotedReadsBack(package);
    QuotedReadsBack(version);
    var items := Lock(package, version).tree.items;
    var packages := items.rest.rest.value;
    assert WellFormedItems(Objects, packages.items.value.items, {});
    assert WellFormedItems(Objects, packages.items, {});
    var seen := Seen(items.name, {});
    assert WellFormedItems(Objects, items.rest.rest, Seen(items.rest.name, seen));
    assert WellFormedItems(Objects, items.rest, seen);
    assert WellFormedItems(Objects, items, {});
  }

  lemma KeysDiffer()
    ensures Plain("name") && Plain("version") && Plain("packages") && Plain("") && Points("") == []
    ensures Points("name") != Points("version") && Points("name") != Points("packages")
    ensures Points("version") != Points("packages")
  {
    assert Points("name")[0] == 'n' as int && Points("version")[0] == 'v' as int && Points("packages")[0] == 'p' as int;
  }

  lemma StepInto(c: Cst, i: Items, n: nat, step: PathStep, rest: Path)
    ensures Subtree(c, []) == Some(c)
    ensures SubtreeOf(i, n, [step] + rest)
         == if StepOf(i.name, n) == step then Subtree(i.value, rest)
            else if i.More? then SubtreeOf(i.rest, n + 1, [step] + rest) else None
  {
    assert ([step] + rest)[1..] == rest;
  }

  lemma StepReplaces(i: Items, n: nat, step: PathStep, rest: Path, leaf: Cst)
    requires IsLeafOf(i, n, [step] + rest)
    ensures ReplaceIn(i, n, [step] + rest, leaf)
         == if StepOf(i.name, n) == step then i.(value := Replace(i.value, rest, leaf))
            else i.(rest := ReplaceIn(i.rest, n + 1, [step] + rest, leaf))
  {
    assert ([step] + rest)[1..] == rest;
  }

  /** The steps to the fields of a lock file. */
  lemma LockPaths()
    ensures NAME == [Name(Points("name"))] + [] && VERSION == [Name(Points("version"))] + []
    ensures PACKAGES == [Name(Points("packages"))] + [] && ROOT == [Name(Points("packages"))] + ([Name([])] + [])
    ensures ROOT + NAME == [Name(Points("packages"))] + ([Name([])] + NAME)
    ensures ROOT + VERSION == [Name(Points("packages"))] + ([Name([])] + VERSION)
    ensures VERSION != ROOT + VERSION
  {
    assert |VERSION| == 1 && |ROOT + VERSION| == 3;
  }

  lemma TopStep(package: string, outer: Cst, inner: Cst, step: PathStep, rest: Path)
    requires Plain(package)
    ensures
      var c := TwoVersions(package, outer, inner);
      && Subtree(c, []) == Some(c)
      && Subtree(c, [step] + rest)
         == if step == Name(Points("name")) then Subtree(Quoted(package), rest)
            else if step == Name(Points("version")) then Subtree(outer, rest)
            else if step == Name(Points("packages")) then Subtree(c.items.rest.rest.value, rest) else None
  {
    hide Points, Quoted, SubtreeOf;
    KeysDiffer();
    var c := TwoVersions(package, outer, inner);
    StepInto(c, c.items, 0, step, rest);
    StepInto(c, c.items.rest, 1, step, rest);
    StepInto(c, c.items.rest.rest, 2, step, rest);
  }

  lemma InnerSteps(package: string, outer: Cst, inner: Cst, step: PathStep, rest: Path)
    requires Plain(package)
    ensures
      var packages := TwoVersions(package, outer, inner).items.rest.rest.value;
      var root := packages.items.value;
      && Subtree(packages, []).Some? && Subtree(root, []) == Some(root) && !root.Leaf? && root.kind.Objects?
      && Subtree(packages, [step] + rest) == (if step == Name([]) then Subtree(root, rest) else None)
      && Subtree(root, [step] + rest) == if step == Name(Points("version")) then Subtree(inner, rest) else None
  {
    hide Points, Quoted, SubtreeOf;
    KeysDiffer();
    var packages := TwoVersions(package, outer, inner).items.rest.rest.value;
    StepInto(packages, packages.items, 0, step, rest);
    StepInto(packages.items.value, packages.items.value.items, 0, step, rest);
  }

  lemma LockFields(package: string, version: string)
    requires Plain(package) && Plain(version)
    ensures
      var c := Lock(package, version).tree;
      && Subtree(c, []) == Some(c) && !c.Leaf? && c.kind.Objects? && Subtree(c, NAME) == Some(Quoted(package))
      && Subtree(c, VERSION) == Some(Quoted(version))
      && Subtree(c, PACKAGES).Some? && IsObjectAt(c, ROOT) && Subtree(c, ROOT + NAME).None?
      && Subtree(c, ROOT + VERSION) == Some(Quoted(version))
  {
    hide Points, Quoted, SubtreeOf, Subtree;
    KeysDiffer();
    LockPaths();
    var q := Quoted(version);
    var packages, nothing: Path := Name(Points("packages")), [];
    StepInto(Quoted(package), Last("", NoLabel, q, ""), 0, At(0), []);
    StepInto(q, Last("", NoLabel, q, ""), 0, At(0), []);
    TopStep(package, q, q, Name(Points("name")), nothing);
    TopStep(package, q, q, Name(Points("version")), nothing);
    TopStep(package, q, q, packages, nothing);
    TopStep(package, q, q, packages, [Name([])] + nothing);
    TopStep(package, q, q, packages, [Name([])] + NAME);
    TopStep(package, q, q, packages, [Name([])] + VERSION);
    InnerSteps(package, q, q, Name([]), nothing);
    InnerSteps(package, q, q, Name([]), NAME);
    InnerSteps(package, q, q, Name([]), VERSION);
    InnerSteps(package, q, q, Name(Points("name")), nothing);
    InnerSteps(package, q, q, Name(Points("version")), nothing);
  }

  lemma LockIsSet(package: string, was: string, version: string)
    requires Plain(package) && Plain(was) && Plain(version) && was != version
    ensures
      var c, value := Lock(package, was).tree, Text(Points(version));
      && EditableAt(c, VERSION, value) && EditableAt(c, ROOT + VERSION, value) && VERSION != ROOT + VERSION
      && WithFields(c, [VERSION, ROOT + VERSION], value) == Lock(package, version).tree
  {
    hide Points, Subtree, SubtreeOf, Replace, ReplaceIn;
    KeysDiffer();
    LockPaths();
    PointsDiffer(was, version);
    LockFields(package, was);
    PlainIsWritable(version);
    var c, value, leaf := Lock(package, was).tree, Text(Points(version)), Quoted(version);
    WithFieldKeeps(c, VERSION, ROOT + VERSION, value);
    FirstIsSet(package, was, leaf);
    var first := WithField(c, VERSION, value);
    assert first == Replace(c, VERSION, leaf);
    SecondIsSet(package, was, leaf);
  }

  lemma FirstIsSet(package: string, was: string, leaf: Cst)
    requires Plain(package) && Plain(was) && IsLeaf(Lock(package, was).tree, VERSION)
    ensures Replace(Lock(package, was).tree, VERSION, leaf) == TwoVersions(package, leaf, Quoted(was))
  {
    hide Points, Quoted, SubtreeOf, ReplaceIn;
    KeysDiffer();
    LockPaths();
    var c, step := Lock(package, was).tree, Name(Points("version"));
    StepInto(c, c.items, 0, step, []);
    StepInto(Quoted(was), c.items.rest, 1, step, []);
    QuotedReadsBack(was);
    StepReplaces(c.items, 0, step, [], leaf);
    StepReplaces(c.items.rest, 1, step, [], leaf);
  }

  lemma SecondIsSet(package: string, was: string, leaf: Cst)
    requires Plain(package) && Plain(was)
    ensures
      var c := TwoVersions(package, leaf, Quoted(was));
      IsLeaf(c, ROOT + VERSION) && Replace(c, ROOT + VERSION, leaf) == TwoVersions(package, leaf, leaf)
  {
    hide Points, Quoted, SubtreeOf, ReplaceIn;
    KeysDiffer();
    LockPaths();
    QuotedReadsBack(was);
    var c := TwoVersions(package, leaf, Quoted(was));
    var items := c.items;
    var packages := items.rest.rest.value;
    var root := packages.items.value;
    var a, b, v := Name(Points("packages")), Name([]), Name(Points("version"));
    StepInto(Quoted(was), root.items, 0, v, []);
    StepInto(root, packages.items, 0, b, VERSION);
    StepInto(c, items, 0, a, [b] + VERSION);
    StepInto(c, items.rest, 1, a, [b] + VERSION);
    StepInto(c, items.rest.rest, 2, a, [b] + VERSION);
    StepReplaces(root.items, 0, v, [], leaf);
    StepReplaces(packages.items, 0, b, VERSION, leaf);
    StepReplaces(items.rest.rest, 2, a, [b] + VERSION, leaf);
    StepReplaces(items.rest, 1, a, [b] + VERSION, leaf);
    StepReplaces(items, 0, a, [b] + VERSION, leaf);
  }

  lemma PointsDiffer(s: string, t: string)
    requires s != t
    ensures Points(s) != Points(t)
  {
    if |s| == |t| {
      var i :| 0 <= i < |s| && s[i] != t[i];
      assert Points(s)[i] != Points(t)[i];
    }
  }

  lemma TwoFieldsAreSet(doc: Document, d: Declaration, value: Scalar, p: Path, q: Path)
    requires DocumentOf(TextOf(doc)) == Accepted(doc) && Owned(d, DataOf(doc.tree))
    requires FieldsOf(d, DataOf(doc.tree)) == [p, q]
    requires p != q && IsLeaf(doc.tree, p) && EditableAt(doc.tree, p, value)
    requires IsLeaf(doc.tree, q) && EditableAt(doc.tree, q, value)
    ensures Edited(TextOf(doc), d, value)
         == Accepted((TextOf(doc.(tree := WithFields(doc.tree, [p, q], value))),
             [ValueAt(doc.tree, p), ValueAt(doc.tree, q)]))
  {
    hide DocumentOf, TextOf, DataOf, Owned, FieldsOf, EditableAt, WithFields, ValueAt;
    var edited := Edited(TextOf(doc), d, value);
    assert edited.Accepted?;
    assert edited.value.1 == [ValueAt(doc.tree, p), ValueAt(doc.tree, q)];
  }

  /** Setting the version of a lock file sets both of its versions, and nothing else. */
  lemma LockFilesAreSet(package: string, was: string, version: string)
    requires Plain(package) && Plain(was) && Plain(version) && was != version
    ensures Edited(TextOf(Lock(package, was)), NpmLock(Points(package)), Text(Points(version)))
         == Accepted((TextOf(Lock(package, version)), [Text(Points(was)), Text(Points(was))]))
  {
    hide DocumentOf, TextOf, DataOf, WellFormed, Points, Subtree, WithFields, Quoted, TwoVersions, Edited, Owned;
    hide FieldsOf;
    hide EditableAt;
    LockIsWellFormed(package, was);
    ReadingIsComplete(Lock(package, was));
    var c, d := Lock(package, was).tree, NpmLock(Points(package));
    OwnedIsOwnedTree(d, c);
    LockFields(package, was);
    QuotedReadsBack(package);
    QuotedReadsBack(was);
    LockIsSet(package, was, version);
    TwoFieldsAreSet(Lock(package, was), d, Text(Points(version)), VERSION, ROOT + VERSION);
  }
}
