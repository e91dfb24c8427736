/** The scalar tokens of JSON as Python's json module reads and writes them. */
module JsonScan {
  import opened Prelude

  /** A text value is a list of code points, which may include a lone surrogate written as an escape. */
  datatype Scalar = Null | Bool(b: bool) | Int(n: int) | Float(token: string) | Constant(token: string)
      | Text(points: seq<int>)

  /** What was read from the start of a text, and how many characters it took. */
  datatype Token<T> = Token(value: T, length: nat)

  predicate IsDigit(c: char) {
    '0' <= c <= '9'
  }

  function HexDigit(c: char): int {
    if '0' <= c <= '9' then c as int - '0' as int
    else if 'a' <= c <= 'f' then c as int - 'a' as int + 10
    else if 'A' <= c <= 'F' then c as int - 'A' as int + 10
    else -1
  }

  // ---- Strings --------------------------------------------------------------------------------------

  predicate IsUnit(s: string, at: nat) {
    at + 4 <= |s| && HexDigit(s[at]) >= 0 && HexDigit(s[at + 1]) >= 0 && HexDigit(s[at + 2]) >= 0
        && HexDigit(s[at + 3]) >= 0
  }

  function Unit(s: string, at: nat): int
    requires IsUnit(s, at)
  {
    ((HexDigit(s[at]) * 16 + HexDigit(s[at + 1])) * 16 + HexDigit(s[at + 2])) * 16 + HexDigit(s[at + 3])
  }

  predicate IsHigh(unit: int) {
    0xD800 <= unit <= 0xDBFF
  }

  predicate IsLow(unit: int) {
    0xDC00 <= unit <= 0xDFFF
  }

  predicate StartsUnicodeEscape(s: string, at: nat) {
    at + 2 <= |s| && s[at] == '\\' && s[at + 1] == 'u' && IsUnit(s, at + 2)
  }

  /** An escaped code unit; a high surrogate joins the low one escaped right after it. */
  function UnicodeEscape(s: string): Token<int>
    requires StartsUnicodeEscape(s, 0)
  {
    var unit := Unit(s, 2);
    if IsHigh(unit) && StartsUnicodeEscape(s, 6) && IsLow(Unit(s, 8))
    then Token(0x10000 + (unit - 0xD800) * 0x400 + (Unit(s, 8) - 0xDC00), 12)
    else Token(unit, 6)
  }

  function SimpleEscape(c: char): int {
    match c
    case '"' => 0x22
    case '\\' => 0x5C
    case '/' => 0x2F
    case 'b' => 0x08
    case 'f' => 0x0C
    case 'n' => 0x0A
    case 'r' => 0x0D
    case 't' => 0x09
    case _ => -1
  }

  /** One character of a string, escaped or not; control characters must be escaped. */
  function ScanChar(s: string): (r: Decoded<Token<int>>)
    requires s != ""
    ensures r.Accepted? ==> 1 <= r.value.length <= |s|
  {
    if s[0] == '\\' then
      if |s| < 2 then Rejected
      else if s[1] == 'u' then if StartsUnicodeEscape(s, 0) then Accepted(UnicodeEscape(s)) else Rejected
      else if SimpleEscape(s[1]) >= 0 then Accepted(Token(SimpleEscape(s[1]), 2)) else Rejected
    else if s[0] < ' ' then Rejected
    else Accepted(Token(s[0] as int, 1))
  }

  /** The characters of a string up to and including its closing quote. */
  function ScanChars(s: string): (r: Decoded<Token<seq<int>>>)
    ensures r.Accepted? ==> 1 <= r.value.length <= |s|
  {
    if s == "" then Rejected
    else if s[0] == '"' then Accepted(Token([], 1))
    else
      var first := ScanChar(s);
      if first.Rejected? then Rejected
      else
        var rest := ScanChars(s[first.value.length..]);
        if rest.Rejected? then Rejected
        else Accepted(Token([first.value.value] + rest.value.value, first.value.length + rest.value.length))
  }

  // ---- Numbers --------------------------------------------------------------------------------------

  /** How many digits the text starts with. */
  function Digits(s: string): (n: nat)
    ensures n <= |s| && forall i | 0 <= i < n :: IsDigit(s[i])
    ensures n < |s| ==> !IsDigit(s[n])
  {
    if s != "" && IsDigit(s[0]) then 1 + Digits(s[1..]) else 0
  }

  function SignLength(s: string): nat {
    if s != "" && s[0] == '-' then 1 else 0
  }

  function IntLength(s: string): (n: nat)
    ensures n <= |s|
  {
    var sign := SignLength(s);
    if sign >= |s| || !IsDigit(s[sign]) then 0
    else if s[sign] == '0' then sign + 1
    else sign + Digits(s[sign..])
  }

  /** The length of a fraction that starts here: a point and at least one digit. */
  function FractionLength(s: string): (n: nat)
    ensures n <= |s|
  {
    if |s| >= 2 && s[0] == '.' && IsDigit(s[1]) then 1 + Digits(s[1..]) else 0
  }

  function ExponentLength(s: string): (n: nat)
    ensures n <= |s|
  {
    if s == "" || (s[0] != 'e' && s[0] != 'E') then 0
    else
      var sign := if |s| >= 2 && (s[1] == '+' || s[1] == '-') then 2 else 1;
      if sign < |s| && IsDigit(s[sign]) then sign + Digits(s[sign..]) else 0
  }

  function DigitValue(c: char): nat
    requires IsDigit(c)
  {
    c as int - '0' as int
  }

  function Natural(digits: string): nat
    requires forall i | 0 <= i < |digits| :: IsDigit(digits[i])
  {
    if digits == "" then 0
    else Natural(digits[..|digits| - 1]) * 10 + DigitValue(digits[|digits| - 1])
  }

  function Integer(token: string): int {
    var sign := SignLength(token);
    if forall i | sign <= i < |token| :: IsDigit(token[i]) then
      var n: int := Natural(token[sign..]);
      if sign == 1 then -n else n
    else 0
  }

  /** The longest number at the start; without fraction and exponent it is an integer. */
  function ScanNumber(s: string): (r: Decoded<Token<Scalar>>)
    ensures r.Accepted? ==> 1 <= r.value.length <= |s|
  {
    var whole := IntLength(s);
    if whole == 0 then Rejected
    else
      var fraction := FractionLength(s[whole..]);
      var exponent := ExponentLength(s[whole + fraction..]);
      var length := whole + fraction + exponent;
      Accepted(Token(if fraction + exponent == 0 then Int(Integer(s[..whole])) else Float(s[..length]), length))
  }

  // ---- Scalars --------------------------------------------------------------------------------------

  predicate Begins(s: string, literal: string) {
    |literal| <= |s| && s[..|literal|] == literal
  }

  /** The only literal that can start with this character. */
  function LiteralFor(c: char): string {
    match c
    case 'n' => "null"
    case 't' => "true"
    case 'f' => "false"
    case 'N' => "NaN"
    case 'I' => "Infinity"
    case '-' => "-Infinity"
    case _ => ""
  }

  function LiteralValue(c: char): Scalar {
    match c
    case 'n' => Null
    case 't' => Bool(true)
    case 'f' => Bool(false)
    case _ => Constant(LiteralFor(c))
  }

  predicate IsLiteral(s: string) {
    s != "" && LiteralFor(s[0]) != "" && Begins(s, LiteralFor(s[0]))
  }

  /** raw_decode at a position that starts neither an object nor an array. */
  function Scan(s: string): (r: Decoded<Token<Scalar>>)
    ensures r.Accepted? ==> 1 <= r.value.length <= |s|
  {
    if s != "" && s[0] == '"' then
      var text := ScanChars(s[1..]);
      if text.Rejected? then Rejected else Accepted(Token(Text(text.value.value), 1 + text.value.length))
    else if IsLiteral(s) then Accepted(Token(LiteralValue(s[0]), |LiteralFor(s[0])|))
    else ScanNumber(s)
  }

  // ---- A token reads the same wherever it stands ------------------------------------------------------

  predicate IsSpace(c: char) {
    c == ' ' || c == '\n' || c == '\r' || c == '\t'
  }

  /** What may follow a scalar inside a document. */
  predicate IsDelimiter(c: char) {
    IsSpace(c) || c == ',' || c == ':' || c == ']' || c == '}'
  }

  /** t starts with the first n characters of s. */
  predicate Shares(s: string, t: string, n: nat) {
    n <= |s| && n <= |t| && s[..n] == t[..n]
  }

  predicate Ends(t: string, n: nat) {
    n == |t| || (n < |t| && IsDelimiter(t[n]))
  }

  lemma SharesChars(s: string, t: string, n: nat, i: nat)
    requires Shares(s, t, n) && i < n
    ensures i < |s| && i < |t| && s[i] == t[i]
  {
    assert s[..n][i] == t[..n][i];
  }

  lemma SharesRest(s: string, t: string, n: nat, k: nat)
    requires Shares(s, t, n) && k <= n
    ensures Shares(s[k..], t[k..], n - k)
  {
    assert s[k..][..n - k] == s[..n][k..];
    assert t[k..][..n - k] == t[..n][k..];
  }

  lemma FirstCharIsRead(s: string)
    requires ScanChars(s).Accepted? && s != "" && s[0] != '"'
    ensures ScanChar(s).Accepted? && ScanChars(s).value.length > ScanChar(s).value.length
  {
  }

  lemma ScanCharStable(s: string, t: string)
    requires s != "" && s[0] != '"' && ScanChar(s).Accepted? && ScanChars(s[ScanChar(s).value.length..]).Accepted?
    requires Shares(s, t, ScanChar(s).value.length + ScanChars(s[ScanChar(s).value.length..]).value.length)
    ensures t != "" && ScanChar(t) == ScanChar(s)
  {
    hide ScanChars, SimpleEscape, Shares, HexDigit;
    var k := ScanChar(s).value.length;
    var rest := s[k..];
    var n := k + ScanChars(rest).value.length;
    forall i: nat | i < n ensures i < |t| && s[i] == t[i] {
      SharesChars(s, t, n, i);
    }
    if s[0] == '\\' && s[1] == 'u' && k == 6 && rest[0] == '\\' {
      FirstCharIsRead(rest);
    }
  }

  lemma {:induction false} ScanCharsStable(s: string, t: string)
    requires ScanChars(s).Accepted? && Shares(s, t, ScanChars(s).value.length)
    ensures ScanChars(t) == ScanChars(s)
  {
    hide ScanChar;
    var n := ScanChars(s).value.length;
    SharesChars(s, t, n, 0);
    if s[0] != '"' {
      var k := ScanChar(s).value.length;
      ScanCharStable(s, t);
      SharesRest(s, t, n, k);
      ScanCharsStable(s[k..], t[k..]);
    }
  }

  /** A run of digits that is followed by a delimiter or nothing ends where it ended before. */
  lemma {:induction false} DigitsStable(s: string, t: string)
    requires Shares(s, t, Digits(s)) && (Digits(s) == |t| || !IsDigit(t[Digits(s)]))
    ensures Digits(t) == Digits(s)
  {
    if Digits(s) > 0 {
      SharesChars(s, t, Digits(s), 0);
      SharesRest(s, t, Digits(s), 1);
      DigitsStable(s[1..], t[1..]);
    }
  }

  lemma IntLengthStable(s: string, t: string, n: nat)
    requires 0 < IntLength(s) <= n && Shares(s, t, n)
    requires n == IntLength(s) ==> Ends(t, n)
    ensures IntLength(t) == IntLength(s)
  {
    var sign, whole := SignLength(s), IntLength(s);
    SharesChars(s, t, n, 0);
    SharesChars(s, t, n, sign);
    if s[sign] != '0' {
      SharesRest(s, t, n, sign);
      if whole < n {
        SharesChars(s, t, n, whole);
        assert s[sign..][whole - sign] == s[whole];
      }
      assert Shares(s[sign..], t[sign..], whole - sign) by {
        SharesLess(s[sign..], t[sign..], n - sign, whole - sign);
      }
      DigitsStable(s[sign..], t[sign..]);
    }
  }

  lemma SharesLess(s: string, t: string, n: nat, k: nat)
    requires Shares(s, t, n) && k <= n
    ensures Shares(s, t, k)
  {
    assert s[..k] == s[..n][..k];
    assert t[..k] == t[..n][..k];
  }

  lemma FractionStable(s: string, t: string, n: nat)
    requires FractionLength(s) <= n && Shares(s, t, n) && Ends(t, n)
    requires FractionLength(s) == 0 && n > 0 ==> s[0] != '.'
    ensures FractionLength(t) == FractionLength(s)
  {
    var k := FractionLength(s);
    if k > 0 {
      SharesChars(s, t, n, 0);
      SharesChars(s, t, n, 1);
      TailDigitsStable(s, t, n, 1);
    } else if n > 0 {
      SharesChars(s, t, n, 0);
    }
  }

  /** Digits that start inside the shared part and end within it, or at its delimited end, are the same. */
  lemma TailDigitsStable(s: string, t: string, n: nat, from: nat)
    requires Shares(s, t, n) && Ends(t, n) && from <= n && from + Digits(s[from..]) <= n
    ensures Digits(t[from..]) == Digits(s[from..])
  {
    var k := Digits(s[from..]);
    SharesRest(s, t, n, from);
    SharesLess(s[from..], t[from..], n - from, k);
    if from + k < n {
      SharesChars(s, t, n, from + k);
    }
    DigitsStable(s[from..], t[from..]);
  }

  lemma ExponentStable(s: string, t: string)
    requires Shares(s, t, ExponentLength(s)) && Ends(t, ExponentLength(s))
    ensures ExponentLength(t) == ExponentLength(s)
  {
    var n := ExponentLength(s);
    if n > 0 {
      SharesChars(s, t, n, 0);
      SharesChars(s, t, n, 1);
      var sign := if s[1] == '+' || s[1] == '-' then 2 else 1;
      SharesChars(s, t, n, sign);
      TailDigitsStable(s, t, n, sign);
    }
  }

  lemma ExponentStartsWithE(s: string)
    requires ExponentLength(s) > 0
    ensures s != "" && s[0] != '.'
  {
  }

  lemma NumberParts(s: string)
    requires ScanNumber(s).Accepted?
    ensures
      var whole := IntLength(s);
      var fraction := FractionLength(s[whole..]);
      var n := ScanNumber(s).value.length;
      && 0 < whole <= n && n == whole + fraction + ExponentLength(s[whole + fraction..])
      && (fraction == 0 && n > whole ==> s[whole] != '.')
  {
    var whole := IntLength(s);
    if FractionLength(s[whole..]) == 0 && ExponentLength(s[whole..]) > 0 {
      ExponentStartsWithE(s[whole..]);
    }
  }

  lemma NumbersAgree(s: string, t: string)
    requires IntLength(s) > 0 && IntLength(t) == IntLength(s)
    requires FractionLength(t[IntLength(s)..]) == FractionLength(s[IntLength(s)..])
    requires
      var point := IntLength(s) + FractionLength(s[IntLength(s)..]);
      ExponentLength(t[point..]) == ExponentLength(s[point..])
    requires ScanNumber(s).Accepted? && Shares(s, t, ScanNumber(s).value.length)
    ensures ScanNumber(t) == ScanNumber(s)
  {
    hide IntLength, FractionLength, ExponentLength;
    SharesLess(s, t, ScanNumber(s).value.length, IntLength(s));
  }

  lemma ScanNumberStable(s: string, t: string)
    requires ScanNumber(s).Accepted? && Shares(s, t, ScanNumber(s).value.length) && Ends(t, ScanNumber(s).value.length)
    ensures ScanNumber(t) == ScanNumber(s)
  {
    hide IntLength, FractionLength, ExponentLength, ScanNumber;
    NumberParts(s);
    var n := ScanNumber(s).value.length;
    var whole := IntLength(s);
    var fraction := FractionLength(s[whole..]);
    IntLengthStable(s, t, n);
    SharesRest(s, t, n, whole);
    FractionStable(s[whole..], t[whole..], n - whole);
    SharesRest(s, t, n, whole + fraction);
    ExponentStable(s[whole + fraction..], t[whole + fraction..]);
    NumbersAgree(s, t);
  }

  lemma NegativeIsNoLiteral(t: string)
    requires |t| >= 2 && t[0] == '-' && IsDigit(t[1])
    ensures !IsLiteral(t)
  {
    assert LiteralFor('-')[1] == 'I';
  }

  lemma NumberStart(s: string)
    requires ScanNumber(s).Accepted?
    ensures s != "" && (IsDigit(s[0]) || (s[0] == '-' && ScanNumber(s).value.length >= 2 && IsDigit(s[1])))
  {
  }

  /** What a scalar reads as depends on its own characters only, provided a delimiter or nothing follows. */
  lemma ScanStable(s: string, t: string)
    requires Scan(s).Accepted? && Shares(s, t, Scan(s).value.length) && Ends(t, Scan(s).value.length)
    ensures Scan(t) == Scan(s)
  {
    hide ScanNumber, ScanChars;
    var n := Scan(s).value.length;
    SharesChars(s, t, n, 0);
    if s[0] == '"' {
      SharesRest(s, t, n, 1);
      ScanCharsStable(s[1..], t[1..]);
    } else if IsLiteral(s) {
      assert t[..n] == s[..n];
    } else {
      NumberStart(s);
      if s[0] == '-' {
        SharesChars(s, t, n, 1);
        NegativeIsNoLiteral(t);
      }
      ScanNumberStable(s, t);
    }
  }

  // ---- Writing --------------------------------------------------------------------------------------

  /** Code points that a UTF-8 file can hold: a text with a lone surrogate cannot be written. */
  predicate IsScalarValue(point: int) {
    0 <= point < 0xD800 || 0xE000 <= point < 0x11_0000
  }

  predicate Writable(points: seq<int>) {
    forall i | 0 <= i < |points| :: IsScalarValue(points[i])
  }

  function LowerHex(digit: int): char
    requires 0 <= digit < 16
  {
    if digit < 10 then (digit + '0' as int) as char else (digit - 10 + 'a' as int) as char
  }

  /** json.dumps with ensure_ascii=False escapes quotes, backslashes and control characters only. */
  function Escaped(point: int): string
    requires IsScalarValue(point)
  {
    if point == 0x22 then "\\\""
    else if point == 0x5C then "\\\\"
    else if point == 0x0A then "\\n"
    else if point == 0x0D then "\\r"
    else if point == 0x09 then "\\t"
    else if point == 0x0C then "\\f"
    else if point == 0x08 then "\\b"
    else if point < 0x20 then ['\\', 'u', '0', '0', LowerHex(point / 16), LowerHex(point % 16)]
    else [point as char]
  }

  function EscapedAll(points: seq<int>): string
    requires Writable(points)
  {
    if points == [] then "" else Escaped(points[0]) + EscapedAll(points[1..])
  }

  function IntText(n: int): string {
    if n < 0 then "-" + Decimal(-n) else Decimal(n)
  }

  predicate Dumpable(v: Scalar) {
    v.Int? || (v.Text? && Writable(v.points))
  }

  function Dumps(v: Scalar): string
    requires Dumpable(v)
  {
    if v.Int? then IntText(v.n) else "\"" + EscapedAll(v.points) + "\""
  }

  lemma EscapedReadsBack(point: int, rest: string)
    requires IsScalarValue(point)
    ensures
      var s := Escaped(point) + rest;
      s[0] != '"' && ScanChar(s) == Accepted(Token(point, |Escaped(point)|))
  {
    if point < 0x20 {
      assert HexDigit(LowerHex(point / 16)) == point / 16;
      assert HexDigit(LowerHex(point % 16)) == point % 16;
    }
  }

  lemma {:induction false} EscapedAllReadsBack(points: seq<int>)
    requires Writable(points)
    ensures ScanChars(EscapedAll(points) + "\"") == Accepted(Token(points, |EscapedAll(points)| + 1))
  {
    hide ScanChar, Escaped;
    if points != [] {
      var tail := EscapedAll(points[1..]) + "\"";
      assert EscapedAll(points) + "\"" == Escaped(points[0]) + tail;
      EscapedReadsBack(points[0], tail);
      assert (Escaped(points[0]) + tail)[|Escaped(points[0])|..] == tail;
      EscapedAllReadsBack(points[1..]);
      assert [points[0]] + points[1..] == points;
    }
  }

  lemma {:induction false} DecimalReadsBack(n: nat)
    ensures |Decimal(n)| >= 1 && forall i | 0 <= i < |Decimal(n)| :: IsDigit(Decimal(n)[i])
    ensures Natural(Decimal(n)) == n
    ensures n > 0 ==> Decimal(n)[0] != '0'
    ensures n == 0 ==> Decimal(n) == "0"
  {
    if n >= 10 {
      DecimalReadsBack(n / 10);
      assert Decimal(n)[..|Decimal(n)| - 1] == Decimal(n / 10);
    }
  }

  lemma {:induction false} AllDigits(s: string)
    requires forall i | 0 <= i < |s| :: IsDigit(s[i])
    ensures Digits(s) == |s|
  {
    if s != "" {
      AllDigits(s[1..]);
    }
  }

  lemma WholeTextIsInteger(s: string)
    requires IntLength(s) == |s| > 0
    ensures ScanNumber(s) == Accepted(Token(Int(Integer(s)), |s|))
  {
    assert s[|s|..] == "" && s[..|s|] == s;
  }

  lemma DigitsAreAnInteger(s: string, digits: string)
    requires digits != "" && forall i | 0 <= i < |digits| :: IsDigit(digits[i])
    requires digits[0] != '0' || digits == "0"
    requires s == digits || s == "-" + digits
    ensures IntLength(s) == |s|
    ensures s == digits ==> Integer(s) == Natural(digits)
    ensures s != digits ==> Integer(s) == 0 - Natural(digits)
  {
    assert s[SignLength(s)..] == digits;
    AllDigits(digits);
  }

  lemma IntReadsBack(n: int)
    ensures ScanNumber(IntText(n)) == Accepted(Token(Int(n), |IntText(n)|))
    ensures IsDigit(IntText(n)[0]) || (IntText(n)[0] == '-' && |IntText(n)| >= 2 && IsDigit(IntText(n)[1]))
  {
    hide Decimal, Integer, IntLength, ScanNumber, Natural;
    var size: nat := if n < 0 then -n else n;
    DecimalReadsBack(size);
    DigitsAreAnInteger(IntText(n), Decimal(size));
    WholeTextIsInteger(IntText(n));
  }

  /** What is written for a value reads back as that value, as one whole token. */
  lemma DumpsReadsBack(v: Scalar)
    requires Dumpable(v)
    ensures Scan(Dumps(v)) == Accepted(Token(v, |Dumps(v)|))
  {
    hide ScanNumber, ScanChars, EscapedAll, IntText;
    match v {
      case Int(n) =>
        IntReadsBack(n);
        if IntText(n)[0] == '-' {
          NegativeIsNoLiteral(IntText(n));
        }
      case Text(points) =>
        EscapedAllReadsBack(points);
        assert Dumps(v)[1..] == EscapedAll(points) + "\"";
    }
  }
}
