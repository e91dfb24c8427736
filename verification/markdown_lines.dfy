/** Which lines of a release document are fences, headings, indented code and comments, character by character. */
module MarkdownLines {
  import opened Prelude
  import opened ReleaseMarkdown
  import opened ReleaseSections

  /** So many spaces, then exactly so many of one other character. */
  predicate Starts(line: string, spaces: nat, c: char, count: nat) {
    && c != ' ' && spaces + count <= |line|
    && (forall i | 0 <= i < spaces :: line[i] == ' ')
    && (forall i | spaces <= i < spaces + count :: line[i] == c)
    && (spaces + count == |line| || line[spaces + count] != c)
  }

  lemma {:induction false} LeadingExactly(s: string, c: char, n: nat)
    requires n <= |s| && (forall i | 0 <= i < n :: s[i] == c) && (n == |s| || s[n] != c)
    ensures LeadingCount(s, c) == n
  {
    if n > 0 {
      LeadingExactly(s[1..], c, n - 1);
    }
  }

  lemma {:induction false} LeadingIs(s: string, c: char)
    ensures
      var n := LeadingCount(s, c);
      (forall i | 0 <= i < n :: s[i] == c) && (n == |s| || s[n] != c)
  {
    if s != "" && s[0] == c {
      LeadingIs(s[1..], c);
    }
  }

  lemma StartsExactly(line: string, spaces: nat, c: char, count: nat)
    requires Starts(line, spaces, c, count) && count > 0
    ensures LeadingCount(line, ' ') == spaces && LeadingCount(line[spaces..], c) == count
  {
    LeadingExactly(line, ' ', spaces);
    LeadingExactly(line[spaces..], c, count);
  }

  // ---- Fences -----------------------------------------------------------------------------------------------------

  /** At most three spaces, then at least three backticks or tildes. */
  predicate IsFenceLine(line: string, spaces: nat, marker: char, length: nat) {
    Starts(line, spaces, marker, length) && spaces <= 3 && length >= 3 && (marker == '`' || marker == '~')
  }

  lemma FenceIsSeen(line: string, spaces: nat, marker: char, length: nat)
    requires IsFenceLine(line, spaces, marker, length)
    ensures spaces + length <= |line|
    ensures FenceOf(line) == Some(Candidate(Fence(marker, length), line[spaces + length..]))
  {
    hide LeadingCount;
    StartsExactly(line, spaces, marker, length);
    assert line[spaces..][0] == line[spaces] == marker;
    assert line[spaces..][length..] == line[spaces + length..];
  }

  lemma SeenIsFence(line: string) returns (spaces: nat, marker: char, length: nat)
    requires FenceOf(line).Some?
    ensures IsFenceLine(line, spaces, marker, length)
  {
    hide LeadingCount;
    spaces := LeadingCount(line, ' ');
    marker := line[spaces..][0];
    length := LeadingCount(line[spaces..], marker);
    LeadingIs(line, ' ');
    LeadingIs(line[spaces..], marker);
    forall i | spaces <= i < spaces + length ensures line[i] == marker {
      assert line[spaces..][i - spaces] == line[i];
    }
  }

  lemma FenceExactly(line: string)
    ensures FenceOf(line).Some?
        <==> exists spaces: nat, marker, length: nat :: IsFenceLine(line, spaces, marker, length)
    ensures forall spaces: nat, marker, length: nat | IsFenceLine(line, spaces, marker, length) ::
              FenceOf(line) == Some(Candidate(Fence(marker, length), line[spaces + length..]))
  {
    hide FenceOf, IsFenceLine;
    forall spaces: nat, marker, length: nat | IsFenceLine(line, spaces, marker, length)
      ensures spaces + length <= |line|
      ensures FenceOf(line) == Some(Candidate(Fence(marker, length), line[spaces + length..]))
    {
      FenceIsSeen(line, spaces, marker, length);
    }
    if FenceOf(line).Some? {
      var spaces, marker, length := SeenIsFence(line);
    }
  }

  predicate IsBlank(s: string) {
    forall i | 0 <= i < |s| :: s[i] == ' ' || s[i] == '\t' || s[i] == '\r' || s[i] == '\n'
  }

  /** A line that ends fenced code: the fence's own marker, at least as often, and nothing behind it. */
  ghost predicate Ends(line: string, fence: Fence) {
    exists spaces: nat, length: nat ::
      IsFenceLine(line, spaces, fence.marker, length) && length >= fence.length && IsBlank(line[spaces + length..])
  }

  /** A line that begins fenced code; behind backticks no other backtick may follow. */
  ghost predicate Begins(line: string, fence: Fence) {
    exists spaces: nat ::
      && IsFenceLine(line, spaces, fence.marker, fence.length)
      && (fence.marker == '`' ==> forall i | spaces + fence.length <= i < |line| :: line[i] != '`')
  }

  lemma BlanksExactly(info: string)
    ensures (forall c | c in info :: c == ' ' || c == '\t' || c == '\r' || c == '\n') <==> IsBlank(info)
  {
    assert forall i | 0 <= i < |info| :: info[i] in info;
  }

  lemma EndsExactly(line: string, fence: Fence)
    ensures ClosesFence(FenceOf(line), fence) <==> Ends(line, fence)
  {
    hide FenceOf, IsFenceLine, IsBlank;
    FenceExactly(line);
    if ClosesFence(FenceOf(line), fence) {
      var spaces: nat, marker, length: nat :| IsFenceLine(line, spaces, marker, length);
      FenceFits(line, spaces, marker, length);
      BlanksExactly(line[spaces + length..]);
    }
    if Ends(line, fence) {
      EndingCloses(line, fence);
    }
  }

  lemma FenceFits(line: string, spaces: nat, marker: char, length: nat)
    requires IsFenceLine(line, spaces, marker, length)
    ensures spaces + length <= |line|
  {
  }

  lemma EndingCloses(line: string, fence: Fence)
    requires Ends(line, fence)
    ensures ClosesFence(FenceOf(line), fence)
  {
    hide FenceOf, IsBlank;
    FenceExactly(line);
    var spaces: nat, length: nat :|
      IsFenceLine(line, spaces, fence.marker, length) && length >= fence.length && IsBlank(line[spaces + length..]);
    BlanksExactly(line[spaces + length..]);
  }

  lemma NoBacktickExactly(line: string, at: nat)
    requires at <= |line|
    ensures '`' !in line[at..] <==> forall i | at <= i < |line| :: line[i] != '`'
  {
    assert forall i | at <= i < |line| :: line[at..][i - at] == line[i];
  }

  lemma BeginsExactly(line: string)
    ensures OpensFence(FenceOf(line)) ==> Begins(line, FenceOf(line).value.fence)
    ensures forall fence | Begins(line, fence) :: OpensFence(FenceOf(line)) && FenceOf(line).value.fence == fence
  {
    hide FenceOf, IsFenceLine;
    FenceExactly(line);
    if OpensFence(FenceOf(line)) {
      var spaces: nat, marker, length: nat :| IsFenceLine(line, spaces, marker, length);
      FenceFits(line, spaces, marker, length);
      MarkersExactly(line, spaces, marker, length);
      NoBacktickExactly(line, spaces + length);
    }
    forall fence | Begins(line, fence) ensures OpensFence(FenceOf(line)) && FenceOf(line).value.fence == fence {
      var spaces: nat :| IsFenceLine(line, spaces, fence.marker, fence.length)
          && (fence.marker == '`' ==> forall i | spaces + fence.length <= i < |line| :: line[i] != '`');
      FenceFits(line, spaces, fence.marker, fence.length);
      MarkersExactly(line, spaces, fence.marker, fence.length);
      NoBacktickExactly(line, spaces + fence.length);
    }
  }

  lemma MarkersExactly(line: string, spaces: nat, marker: char, length: nat)
    requires IsFenceLine(line, spaces, marker, length)
    ensures marker == '`' || marker == '~'
  {
  }

  // ---- Lines ------------------------------------------------------------------------------------------------------

  /** Four spaces or a tab. */
  predicate IsCode(line: string) {
    || (|line| >= 4 && line[0] == ' ' && line[1] == ' ' && line[2] == ' ' && line[3] == ' ')
    || (|line| >= 1 && line[0] == '\t')
  }

  /**
   * What becomes of a line: inside a fence only its end is looked for; outside a comment a fence begins or indented
   * code is shown as it is; all other text can be a heading, with its comments masked.
   */
  lemma LinesAreShownExactly(line: string, scan: Scan, shown: Shown, next: Scan)
    requires LineStep(line, scan, shown, next)
    ensures scan.fence.Some? && Ends(line, scan.fence.value)
        ==> shown == Shown(line, false, false) && next == Scan(None, scan.comment)
    ensures scan.fence.Some? && !Ends(line, scan.fence.value) ==> shown == Shown(line, false, true) && next == scan
    ensures scan.fence.None? && !scan.comment ==>
              forall fence | Begins(line, fence) ::
                  shown == Shown(line, false, false) && next == Scan(Some(fence), false)
    ensures scan.fence.None? && !scan.comment && (forall fence :: !Begins(line, fence)) && IsCode(line) ==>
              shown == Shown(line, false, true) && next == scan
    ensures scan.fence.None? && (scan.comment || (!IsCode(line) && forall fence :: !Begins(line, fence))) ==>
              && shown.heading && shown.guidance && next.fence.None?
              && exists ends ::
                   && PairsSpans(line, ends) && SpansFit(line, ends)
                   && Masked(shown.line, next.comment) == MaskFrom(line, ends, 0, scan.comment)
  {
    hide FenceOf, ClosesFence, OpensFence, Begins, Ends, PairsSpans, SpansFit, MaskFrom;
    if scan.fence.Some? {
      EndsExactly(line, scan.fence.value);
    }
    BeginsExactly(line);
    CodeExactly(line);
  }

  lemma CodeExactly(line: string)
    ensures IsIndented(line) <==> IsCode(line)
  {
    assert |line| >= 4 ==> line[0..4] == [line[0], line[1], line[2], line[3]];
    assert |line| >= 1 ==> line[0..1] == [line[0]];
  }

  /** No fence, no indented code, and nowhere the marker of a comment. */
  ghost predicate IsPlain(line: string) {
    && (forall fence :: !Begins(line, fence)) && !IsCode(line)
    && forall k: nat | k + 4 <= |line| ::
         !(line[k] == '<' && line[k + 1] == '!' && line[k + 2] == '-' && line[k + 3] == '-')
  }

  lemma PlainLineIsShown(line: string, shown: Shown, next: Scan)
    requires IsPlain(line) && LineStep(line, Scan(None, false), shown, next)
    ensures shown == Shown(line, true, true) && next == Scan(None, false)
  {
    hide FenceOf, Begins, IsCode, PairsSpans, SpansFit, MaskFrom;
    BeginsExactly(line);
    CodeExactly(line);
    var ends :| PairsSpans(line, ends) && SpansFit(line, ends)
        && Masked(shown.line, next.comment) == MaskFrom(line, ends, 0, false);
    forall k: nat | k < |line| ensures !BeginsAt(line, k, OPENS) {
      ArrowsExactly(line, k);
    }
    NoMarkerNoMask(line, ends, 0);
    assert line[0..] == line;
  }

  /** A document starts as text: its plain lines up to the first other one are shown as they are. */
  lemma {:induction false} PlainTextIsShown(lines: seq<string>, shown: seq<Shown>, scans: seq<Scan>, n: nat)
    requires Scanned(lines, shown, scans) && n <= |lines| && forall i | 0 <= i < n :: IsPlain(lines[i])
    ensures scans[n] == Scan(None, false) && forall i | 0 <= i < n :: shown[i] == Shown(lines[i], true, true)
  {
    hide IsPlain, LineStep;
    if n > 0 {
      PlainTextIsShown(lines, shown, scans, n - 1);
      PlainLineIsShown(lines[n - 1], shown[n - 1], scans[n]);
    }
  }

  // ---- Comments ---------------------------------------------------------------------------------------------------

  predicate Arrow(line: string, at: nat) {
    at + 3 <= |line| && line[at] == '-' && line[at + 1] == '-' && line[at + 2] == '>'
  }

  lemma ArrowsExactly(line: string, at: nat)
    ensures BeginsAt(line, at, CLOSES) <==> Arrow(line, at)
    ensures BeginsAt(line, at, OPENS)
       <==> at + 4 <= |line| && line[at] == '<' && line[at + 1] == '!' && line[at + 2] == '-' && line[at + 3] == '-'
  {
    assert at + 3 <= |line| ==> line[at..at + 3] == [line[at], line[at + 1], line[at + 2]];
    assert at + 4 <= |line| ==> line[at..at + 4] == [line[at], line[at + 1], line[at + 2], line[at + 3]];
  }

  lemma {:induction false} StopsAtArrow(line: string, from: nat, k: nat)
    requires from <= k && Arrow(line, k) && forall j: nat | from <= j < k :: !Arrow(line, j)
    ensures ClosesComment(line, from) && CommentStop(line, from) == k + 3
    decreases k - from
  {
    hide BeginsAt;
    ArrowsExactly(line, from);
    if from < k {
      StopsAtArrow(line, from + 1, k);
    }
  }

  lemma {:induction false} StopsNowhere(line: string, from: nat)
    requires from <= |line| && forall j: nat | from <= j :: !Arrow(line, j)
    ensures !ClosesComment(line, from) && CommentStop(line, from) == |line|
    decreases |line| - from
  {
    hide BeginsAt, Arrow;
    ArrowsExactly(line, from);
    if from < |line| {
      StopsNowhere(line, from + 1);
    }
  }

  lemma {:induction false} FirstArrow(line: string, from: nat, k: nat) returns (first: nat)
    requires from <= k && Arrow(line, k)
    ensures from <= first <= k && Arrow(line, first) && forall j: nat | from <= j < first :: !Arrow(line, j)
    decreases k - from
  {
    hide Arrow;
    if Arrow(line, from) {
      first := from;
    } else {
      first := FirstArrow(line, from + 1, k);
    }
  }

  /** A comment ends behind the first arrow, or goes on behind the line. */
  lemma CommentsEndExactly(line: string, from: nat)
    requires from <= |line|
    ensures ClosesComment(line, from) <==> exists k: nat :: from <= k && Arrow(line, k)
    ensures forall k: nat | from <= k && Arrow(line, k) && (forall j: nat | from <= j < k :: !Arrow(line, j)) ::
              CommentStop(line, from) == k + 3
    ensures !ClosesComment(line, from) ==> CommentStop(line, from) == |line|
  {
    hide Arrow, ClosesComment, CommentStop;
    if k: nat :| from <= k && Arrow(line, k) {
      var first := FirstArrow(line, from, k);
      StopsAtArrow(line, from, first);
    } else {
      StopsNowhere(line, from);
    }
  }

  /** Behind its start a comment is blank, except for line breaks. */
  lemma BlankExactly(s: string, i: nat)
    requires i < |s|
    ensures |Blank(s)| == |s| && Blank(s)[i] == if s[i] == '\n' || s[i] == '\r' then s[i] else ' '
  {
  }

  // ---- Code spans -------------------------------------------------------------------------------------------------

  /** Here stand so many backticks, and not one more on either side. */
  predicate Ticks(line: string, start: int, n: int) {
    && n > 0 && 0 <= start && start + n <= |line|
    && (forall i | start <= i < start + n :: line[i] == '`')
    && (start == 0 || line[start - 1] != '`') && (start + n == |line| || line[start + n] != '`')
  }

  lemma TicksExactly(line: string, start: int, n: int)
    ensures Ticks(line, start, n) <==> IsRun(line, start, start + n)
  {
  }

  lemma NoTicksInside(line: string, start: int, n: int, s: int)
    requires Ticks(line, start, n) && start < s < start + n
    ensures !Ticks(line, s, n)
  {
    assert line[s - 1] == '`';
  }

  lemma LaterTicks(line: string, start: int, n: int, s: int)
    requires Ticks(line, start, n) && Ticks(line, s, n) && s > start
    ensures Closes(line, start, start + n, s, s + n)
  {
    if s < start + n {
      NoTicksInside(line, start, n, s);
    }
  }

  /** Backticks open a code span exactly when as many stand further on; it then ends behind the nearest of them. */
  lemma SpansExactly(line: string, ends: map<int, int>, start: int, n: int)
    requires PairsSpans(line, ends) && Ticks(line, start, n)
    ensures start in ends <==> exists s :: s > start && Ticks(line, s, n)
    ensures start in ends ==>
              && Ticks(line, ends[start] - n, n) && start < ends[start] - n
              && forall s | s > start && Ticks(line, s, n) :: ends[start] <= s + n
  {
    hide Ticks;
    TicksExactly(line, start, n);
    forall s | s > start && Ticks(line, s, n) ensures Closes(line, start, start + n, s, s + n) {
      LaterTicks(line, start, n, s);
    }
    if start in ends {
      var s :| Closes(line, start, start + n, s, ends[start]);
      TicksExactly(line, s, n);
    }
  }

  /** Nothing else opens a code span. */
  lemma OnlyTicksOpen(line: string, ends: map<int, int>, start: int)
    requires PairsSpans(line, ends) && start in ends
    ensures exists n :: Ticks(line, start, n)
  {
    var end :| IsRun(line, start, end);
    TicksExactly(line, start, end - start);
  }

  /** What is shown from a place on: blanks up to the comment's end, an escaped pair, a code span, or one character. */
  lemma MasksExactly(line: string, ends: map<int, int>, at: nat)
    requires at < |line| && SpansFit(line, ends)
    ensures
      var stop := CommentStop(line, at);
      MaskFrom(line, ends, at, true)
          == Join(Blank(line[at..stop]), MaskFrom(line, ends, stop, !ClosesComment(line, at)))
    ensures
      var opens := at + 4 <= |line| && line[at] == '<' && line[at + 1] == '!' && line[at + 2] == '-'
          && line[at + 3] == '-';
      MaskFrom(line, ends, at, false)
      == if line[at] == '\\' then
           var next := if at + 2 <= |line| then at + 2 else |line|;
           Join(line[at..next], MaskFrom(line, ends, next, false))
         else if at in ends then Join(line[at..ends[at]], MaskFrom(line, ends, ends[at], false))
         else if opens then MaskFrom(line, ends, at, true)
         else Join([line[at]], MaskFrom(line, ends, at + 1, false))
  {
    hide CommentStop, ClosesComment, BeginsAt;
    ArrowsExactly(line, at);
    assert line[at..at + 1] == [line[at]];
  }

  // ---- Headings ---------------------------------------------------------------------------------------------------

  /** At most three spaces, one to six hashes, and then the end of the line or white space. */
  predicate IsHeadingLine(line: string, spaces: nat, level: nat) {
    && Starts(line, spaces, '#', level) && spaces <= 3 && 1 <= level <= 6
    && (spaces + level == |line| || IsBlank([line[spaces + level]]))
  }

  lemma SpaceIsNoHash(line: string)
    ensures line != "" && line[0] == ' ' ==> LeadingCount(line, '#') == 0
  {
  }

  lemma HeadingsExactly(shown: Shown)
    ensures HeadingLevel(shown) > 0
        <==> shown.heading && exists spaces: nat, level: nat :: IsHeadingLine(shown.line, spaces, level)
    ensures shown.heading ==> forall spaces: nat, level: nat | IsHeadingLine(shown.line, spaces, level) ::
        HeadingLevel(shown) == level
  {
    var line := shown.line;
    forall spaces: nat, level: nat | shown.heading && IsHeadingLine(line, spaces, level)
      ensures HeadingLevel(shown) == level
    {
      StartsExactly(line, spaces, '#', level);
      assert spaces + level < |line|
          ==> IsBlank([line[spaces + level]]) && [line[spaces + level]][0] == line[spaces + level];
    }
    if HeadingLevel(shown) > 0 {
      var spaces := LeadingCount(line, ' ');
      LeadingIs(line, ' ');
      SpaceIsNoHash(line);
      var level := LeadingCount(line[spaces..], '#');
      LeadingIs(line[spaces..], '#');
      assert IsHeadingLine(line, spaces, level);
    }
  }

  /** A heading stands where its line is shown, and its section starts behind that line. */
  lemma {:induction false} HeadingsStandExactly(shown: seq<Shown>, h: Heading)
    ensures h in HeadingsOf(shown)
       <==> exists i | 0 <= i < |shown| ::
              h.level > 0 && h == Heading(HeadingLevel(shown[i]), |Visible(shown[..i])|,
                  |Visible(shown[..i])| + |shown[i].line|)
  {
    hide HeadingLevel, Visible;
    if shown != [] {
      var front, last := shown[..|shown| - 1], |shown| - 1;
      HeadingsStandExactly(front, h);
      forall i | 0 <= i < last ensures front[..i] == shown[..i] && front[i] == shown[i] {
      }
      var own := Heading(HeadingLevel(shown[last]), |Visible(front)|, |Visible(front)| + |shown[last].line|);
      assert h in HeadingsOf(shown) <==> h in HeadingsOf(front) || (h.level > 0 && h == own);
    }
  }

  /** A section starts behind a heading of its level and ends at the next of that level or above, or with the text. */
  lemma SectionsExactly(s: Section, text: string, visible: string, headings: seq<Heading>, level: nat)
    requires IsSection(s, text, visible, headings, level)
    ensures s.start <= s.end <= |text| && s.body == text[s.start..s.end] && s.visible == visible[s.start..s.end]
    ensures exists i | 0 <= i < |headings| :: headings[i].level == level && headings[i].body == s.start
    ensures s.end < |text| ==>
              exists i | 0 <= i < |headings| :: headings[i].level <= level && headings[i].start == s.end
    ensures forall i | 0 <= i < |headings| && headings[i].level <= level && s.start < headings[i].body ::
              s.end <= headings[i].start
  {
    var h :| h in headings && h.level == level && h.body == s.start;
  }

  // ---- Splitting a text -------------------------------------------------------------------------------------------

  /** Every line but the last ends with a line feed, and has no other. */
  ghost predicate IsLine(line: string, last: bool) {
    && line != "" && (forall i | 0 <= i < |line| - 1 :: line[i] != '\n') && (!last ==> line[|line| - 1] == '\n')
  }

  lemma {:induction false} LengthIsALine(text: string)
    requires text != ""
    ensures IsLine(text[..LineLength(text)], LineLength(text) == |text|)
  {
    if text[0] != '\n' && |text| > 1 {
      LengthIsALine(text[1..]);
      var rest := text[1..][..LineLength(text[1..])];
      assert text[..LineLength(text)] == [text[0]] + rest;
    }
  }

  lemma {:induction false} LinesExactly(text: string, i: nat)
    requires i < |Lines(text)|
    ensures IsLine(Lines(text)[i], i == |Lines(text)| - 1)
    decreases |text|
  {
    LengthIsALine(text);
    if i > 0 {
      LinesExactly(text[LineLength(text)..], i - 1);
    }
  }
}
