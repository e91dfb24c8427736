/** Comment masking and section slicing of scripts/release_control.py: what is shown lines up with what was written. */
module ReleaseSections {
  import opened Prelude
  import opened ReleaseMarkdown

  predicate IsNewline(c: char) {
    c == '\n' || c == '\r'
  }

  /** Same length, same line breaks, and every character is the original one or a blank in its place. */
  predicate Aligned(original: string, shown: string) {
    && |shown| == |original|
    && forall i | 0 <= i < |original| :: shown[i] == original[i] || (shown[i] == ' ' && !IsNewline(original[i]))
  }

  function Blank(s: string): (r: string)
    ensures Aligned(s, r)
  {
    seq(|s|, i requires 0 <= i < |s| => if IsNewline(s[i]) then s[i] else ' ')
  }

  // ---- Masking one line ---------------------------------------------------------------------------------------

  predicate BeginsAt(line: string, at: nat, marker: string) {
    at + |marker| <= |line| && line[at..at + |marker|] == marker
  }

  const OPENS := "<!--"
  const CLOSES := "-->"

  /** The first place at or after a position where a comment closes; the end of the line when there is none. */
  function CommentStop(line: string, from: nat): (stop: nat)
    requires from <= |line|
    ensures from <= stop <= |line|
    ensures from < |line| ==> from < stop
    decreases |line| - from
  {
    if from == |line| then from
    else if BeginsAt(line, from, CLOSES) then from + |CLOSES|
    else CommentStop(line, from + 1)
  }

  predicate ClosesComment(line: string, from: nat)
    requires from <= |line|
    decreases |line| - from
  {
    from < |line| && (BeginsAt(line, from, CLOSES) || ClosesComment(line, from + 1))
  }

  /** Code spans end after they start, inside the line. */
  predicate SpansFit(line: string, ends: map<int, int>) {
    forall start | start in ends :: 0 <= start < ends[start] <= |line|
  }

  datatype Masked = Masked(shown: string, comment: bool)

  /** The rest of a line from a position on: comments blanked, escapes and code spans kept as they are. */
  function MaskFrom(line: string, ends: map<int, int>, at: nat, comment: bool): (r: Masked)
    requires at <= |line| && SpansFit(line, ends)
    ensures Aligned(line[at..], r.shown)
    decreases |line| - at, if comment then 0 else 1
  {
    if at == |line| then Masked("", comment)
    else if comment then
      var stop := CommentStop(line, at);
      var rest := MaskFrom(line, ends, stop, !ClosesComment(line, at));
      AlignedJoins(line, at, stop, Blank(line[at..stop]), rest.shown);
      Masked(Blank(line[at..stop]) + rest.shown, rest.comment)
    else if BeginsAt(line, at, OPENS) && line[at] != '\\' && at !in ends then MaskFrom(line, ends, at, true)
    else
      var next := KeptTo(line, ends, at);
      var rest := MaskFrom(line, ends, next, false);
      AlignedJoins(line, at, next, line[at..next], rest.shown);
      Masked(line[at..next] + rest.shown, rest.comment)
  }

  /** How far the characters at a position are kept: an escaped pair, a whole code span, or one character. */
  function KeptTo(line: string, ends: map<int, int>, at: nat): (next: nat)
    requires at < |line| && SpansFit(line, ends)
    ensures at < next <= |line|
  {
    if line[at] == '\\' then if at + 2 <= |line| then at + 2 else |line|
    else if at in ends then ends[at]
    else at + 1
  }

  lemma AlignedJoins(line: string, at: nat, next: nat, head: string, tail: string)
    requires at <= next <= |line| && Aligned(line[at..next], head) && Aligned(line[next..], tail)
    ensures Aligned(line[at..], head + tail)
  {
    assert line[at..] == line[at..next] + line[next..];
  }

  /** _release_comment_line: mask comments in place; terminates although opening a comment moves nothing. */
  method CommentLine(line: string, comment: bool) returns (shown: string, after: bool)
    ensures Aligned(line, shown)
    ensures exists ends ::
              && PairsSpans(line, ends) && SpansFit(line, ends)
              && Masked(shown, after) == MaskFrom(line, ends, 0, comment)
  {
    hide MaskFrom, Aligned, PairsSpans;
    var ends := CodeSpanEnds(line);
    PairedSpansFit(line, ends);
    var visible := new char[|line|](i requires 0 <= i < |line| => line[i]);
    after := comment;
    var position := 0;
    ghost var done := "";
    assert line[0..] == line;
    while position < |line|
      invariant 0 <= position <= |line| && |done| == position
      invariant visible[..] == done + line[position..]
      invariant MaskFrom(line, ends, 0, comment) == Join(done, MaskFrom(line, ends, position, after))
      decreases |line| - position, if after then 0 else 1
    {
      MaskStep(line, ends, position, after);
      if after {
        var stop := CommentStop(line, position);
        BlankOut(visible, line, position, stop, done);
        JoinsAssociate(done, Blank(line[position..stop]), MaskFrom(line, ends, stop, !ClosesComment(line, position)));
        done := done + Blank(line[position..stop]);
        after := !ClosesComment(line, position);
        position := stop;
      } else if line[position] != '\\' && position !in ends && BeginsAt(line, position, OPENS) {
        after := true;
      } else {
        ghost var next := KeptTo(line, ends, position);
        JoinsAssociate(done, line[position..next], MaskFrom(line, ends, next, false));
        assert done + line[position..] == (done + line[position..next]) + line[next..];
        done := done + line[position..next];
        if line[position] == '\\' {
          position := if position + 2 <= |line| then position + 2 else |line|;
        } else if position in ends {
          position := ends[position];
        } else {
          position := position + 1;
        }
      }
    }
    shown := visible[..];
    MaskEnds(line, ends, after);
    assert done + line[position..] == done;
    MaskIsAligned(line, ends, comment);
  }

  /** Overwrite a stretch of the line with blanks, leaving its line breaks. */
  method BlankOut(visible: array<char>, line: string, position: nat, stop: nat, ghost done: string)
    requires position <= stop <= |line| && |done| == position && visible[..] == done + line[position..]
    modifies visible
    ensures visible[..] == (done + Blank(line[position..stop])) + line[stop..]
  {
    ghost var blank := Blank(line[position..stop]);
    for i := position to stop
      invariant visible[..] == done + blank[..i - position] + line[i..]
    {
      ghost var before := visible[..];
      if !IsNewline(line[i]) {
        visible[i] := ' ';
      }
      assert visible[..] == before[i := blank[i - position]];
      BlankStep(done, line, position, stop, i);
    }
    assert blank[..stop - position] == blank;
  }

  function Join(done: string, rest: Masked): Masked {
    Masked(done + rest.shown, rest.comment)
  }

  lemma JoinsAssociate(a: string, b: string, rest: Masked)
    ensures Join(a, Join(b, rest)) == Join(a + b, rest)
  {
    assert a + (b + rest.shown) == (a + b) + rest.shown;
  }

  lemma BlankStep(done: string, line: string, position: nat, stop: nat, i: nat)
    requires position <= i < stop <= |line| && |done| == position
    ensures
      var blank := Blank(line[position..stop]);
      (done + blank[..i - position] + line[i..])[i := blank[i - position]]
          == done + blank[..i + 1 - position] + line[i + 1..]
  {
  }

  lemma MaskStep(line: string, ends: map<int, int>, at: nat, comment: bool)
    requires at < |line| && SpansFit(line, ends)
    ensures MaskFrom(line, ends, at, comment) ==
            if comment then Join(Blank(line[at..CommentStop(line, at)]),
                MaskFrom(line, ends, CommentStop(line, at), !ClosesComment(line, at)))
            else if BeginsAt(line, at, OPENS) && line[at] != '\\' && at !in ends then MaskFrom(line, ends, at, true)
            else Join(line[at..KeptTo(line, ends, at)], MaskFrom(line, ends, KeptTo(line, ends, at), false))
  {
  }

  lemma MaskEnds(line: string, ends: map<int, int>, comment: bool)
    requires SpansFit(line, ends)
    ensures MaskFrom(line, ends, |line|, comment) == Masked("", comment)
  {
  }

  lemma MaskIsAligned(line: string, ends: map<int, int>, comment: bool)
    requires SpansFit(line, ends)
    ensures Aligned(line, MaskFrom(line, ends, 0, comment).shown)
  {
    assert line[0..] == line;
  }

  lemma PairedSpansFit(line: string, ends: map<int, int>)
    requires PairsSpans(line, ends)
    ensures SpansFit(line, ends)
  {
    forall start | start in ends ensures 0 <= start < ends[start] <= |line| {
      assert StartsRun(line, start);
      var end :| IsRun(line, start, end);
      assert NearestCloser(line, start, end, ends[start]);
      var s :| Closes(line, start, end, s, ends[start]);
    }
  }

  /** A line without an opening marker, outside a comment, is shown as it is. */
  lemma {:induction false} NoMarkerNoMask(line: string, ends: map<int, int>, at: nat)
    requires at <= |line| && SpansFit(line, ends) && forall k: nat | k < |line| :: !BeginsAt(line, k, OPENS)
    ensures MaskFrom(line, ends, at, false) == Masked(line[at..], false)
    decreases |line| - at
  {
    if at < |line| {
      var next := KeptTo(line, ends, at);
      NoMarkerNoMask(line, ends, next);
      assert line[at..] == line[at..next] + line[next..];
    }
  }

  /** The spans of a line are determined by the line. */
  lemma SameSpans(line: string, ends: map<int, int>, ends': map<int, int>)
    requires PairsSpans(line, ends) && PairsSpans(line, ends')
    ensures forall start | start in ends :: start in ends' && ends'[start] == ends[start]
  {
    hide IsRun;
    forall start | start in ends ensures start in ends' && ends'[start] == ends[start] {
      assert StartsRun(line, start);
      var end :| IsRun(line, start, end);
      assert NearestCloser(line, start, end, ends[start]);
      var s :| Closes(line, start, end, s, ends[start]);
      assert start in ends';
      assert NearestCloser(line, start, end, ends'[start]);
      var s' :| Closes(line, start, end, s', ends'[start]);
    }
  }

  // ---- Lines ----------------------------------------------------------------------------------------------------

  function LineLength(text: string): (n: nat)
    ensures n <= |text| && (text != "" ==> n >= 1)
  {
    if text == "" then 0 else if text[0] == '\n' then 1 else 1 + LineLength(text[1..])
  }

  /** The lines of a text, each with its own line break. */
  function Lines(text: string): seq<string> {
    if text == "" then [] else [text[..LineLength(text)]] + Lines(text[LineLength(text)..])
  }

  function Concat(lines: seq<string>): string {
    if lines == [] then "" else Concat(lines[..|lines| - 1]) + lines[|lines| - 1]
  }

  lemma {:induction false} ConcatFront(line: string, lines: seq<string>)
    ensures Concat([line] + lines) == line + Concat(lines)
  {
    if lines == [] {
      assert [line] + lines == [line];
      assert [line][..0] == [];
      assert "" + line == line + "";
    } else {
      var front := lines[..|lines| - 1];
      assert ([line] + lines)[..|lines|] == [line] + front;
      ConcatFront(line, front);
      assert (line + Concat(front)) + lines[|lines| - 1] == line + (Concat(front) + lines[|lines| - 1]);
    }
  }

  lemma {:induction false} LinesAreTheText(text: string)
    ensures Concat(Lines(text)) == text
  {
    if text != "" {
      var n := LineLength(text);
      LinesAreTheText(text[n..]);
      ConcatFront(text[..n], Lines(text[n..]));
      assert text == text[..n] + text[n..];
    }
  }

  function LeadingCount(s: string, c: char): (n: nat)
    ensures n <= |s|
  {
    if s != "" && s[0] == c then 1 + LeadingCount(s[1..], c) else 0
  }

  datatype Fence = Fence(marker: char, length: nat)

  datatype Candidate = Candidate(fence: Fence, info: string)

  /** _release_fence: at most three spaces, then at least three backticks or tildes. */
  function FenceOf(line: string): Option<Candidate> {
    var spaces := LeadingCount(line, ' ');
    var content := line[spaces..];
    if spaces > 3 || content == "" || (content[0] != '`' && content[0] != '~') then None
    else
      var length := LeadingCount(content, content[0]);
      if length < 3 then None else Some(Candidate(Fence(content[0], length), content[length..]))
  }

  predicate ClosesFence(candidate: Option<Candidate>, fence: Fence) {
    && candidate.Some? && candidate.value.fence.marker == fence.marker && candidate.value.fence.length >= fence.length
    && forall c | c in candidate.value.info :: c == ' ' || c == '\t' || c == '\r' || c == '\n'
  }

  predicate OpensFence(candidate: Option<Candidate>) {
    candidate.Some? && (candidate.value.fence.marker == '~' || '`' !in candidate.value.info)
  }

  predicate IsIndented(line: string) {
    BeginsAt(line, 0, "    ") || BeginsAt(line, 0, "\t")
  }

  /** A line as it is shown, whether it can be a heading, and whether it counts as guidance. */
  datatype Shown = Shown(line: string, heading: bool, guidance: bool)

  datatype Scan = Scan(fence: Option<Fence>, comment: bool)

  /** One line of the scan: fenced code, an opening fence, indented code, or text with its comments masked. */
  ghost predicate LineStep(line: string, scan: Scan, shown: Shown, next: Scan) {
    var candidate := FenceOf(line);
    if scan.fence.Some? then
      var closes := ClosesFence(candidate, scan.fence.value);
      shown == Shown(line, false, !closes) && next == if closes then scan.(fence := None) else scan
    else if !scan.comment && OpensFence(candidate) then
      shown == Shown(line, false, false) && next == scan.(fence := Some(candidate.value.fence))
    else if !scan.comment && IsIndented(line) then
      shown == Shown(line, false, true) && next == scan
    else
      && shown.heading && shown.guidance && next.fence == scan.fence
      && exists ends :: PairsSpans(line, ends) && SpansFit(line, ends)
          && Masked(shown.line, next.comment) == MaskFrom(line, ends, 0, scan.comment)
  }

  ghost predicate Scanned(lines: seq<string>, shown: seq<Shown>, scans: seq<Scan>) {
    && |shown| == |lines| && |scans| == |lines| + 1 && scans[0] == Scan(None, false)
    && forall i | 0 <= i < |lines| :: LineStep(lines[i], scans[i], shown[i], scans[i + 1])
  }

  /** _release_lines */
  method ReleaseLines(text: string) returns (shown: seq<Shown>, ghost scans: seq<Scan>)
    ensures Scanned(Lines(text), shown, scans)
    ensures |shown| == |Lines(text)| && forall i | 0 <= i < |shown| :: Aligned(Lines(text)[i], shown[i].line)
  {
    hide LineStep, PairsSpans, MaskFrom, Aligned, Lines;
    var lines := Lines(text);
    var scan := Scan(None, false);
    shown, scans := [], [scan];
    for n := 0 to |lines|
      invariant |shown| == n && |scans| == n + 1 && scans[0] == Scan(None, false) && scans[n] == scan
      invariant forall i | 0 <= i < n ::
          LineStep(lines[i], scans[i], shown[i], scans[i + 1]) && Aligned(lines[i], shown[i].line)
    {
      var one: Shown;
      ghost var before := scan;
      one, scan := ShowLine(lines[n], scan);
      ShownIsAligned(lines[n], before, one, scan);
      shown, scans := shown + [one], scans + [scan];
    }
  }

  method ShowLine(line: string, scan: Scan) returns (shown: Shown, next: Scan)
    ensures LineStep(line, scan, shown, next)
  {
    hide PairsSpans, MaskFrom, SpansFit, ClosesFence, FenceOf, Aligned;
    var candidate := FenceOf(line);
    next := scan;
    if scan.fence.Some? {
      var closes := ClosesFence(candidate, scan.fence.value);
      shown := Shown(line, false, !closes);
      if closes {
        next := scan.(fence := None);
      }
    } else if !scan.comment && OpensFence(candidate) {
      next := scan.(fence := Some(candidate.value.fence));
      shown := Shown(line, false, false);
    } else if !scan.comment && IsIndented(line) {
      shown := Shown(line, false, true);
    } else {
      var visible, comment := CommentLine(line, scan.comment);
      shown, next := Shown(visible, true, true), scan.(comment := comment);
    }
  }

  lemma ShownIsAligned(line: string, scan: Scan, shown: Shown, next: Scan)
    requires LineStep(line, scan, shown, next)
    ensures Aligned(line, shown.line)
  {
    hide PairsSpans, MaskFrom, FenceOf, ClosesFence;
    if shown.line != line {
      var ends :| SpansFit(line, ends) && Masked(shown.line, next.comment) == MaskFrom(line, ends, 0, scan.comment);
      MaskIsAligned(line, ends, scan.comment);
    }
  }

  // ---- Headings and sections --------------------------------------------------------------------------------------

  /** The level of an ATX heading, zero when the line is none. */
  function HeadingLevel(shown: Shown): nat {
    var spaces := LeadingCount(shown.line, ' ');
    var heading := if spaces <= 3 then shown.line[spaces..] else shown.line;
    var level := LeadingCount(heading, '#');
    if shown.heading && 1 <= level <= 6
       && (level == |heading| || heading[level] == ' ' || heading[level] == '\t' || heading[level] == '\r'
           || heading[level] == '\n')
    then level else 0
  }

  /** A heading stands at [start, body); its section's text starts at body. */
  datatype Heading = Heading(level: nat, start: nat, body: nat)

  function Visible(shown: seq<Shown>): string {
    if shown == [] then "" else Visible(shown[..|shown| - 1]) + shown[|shown| - 1].line
  }

  /** The headings of the first lines, each at the place its line has in the text. */
  function HeadingsOf(shown: seq<Shown>): (headings: seq<Heading>)
    ensures forall i | 0 <= i < |headings| ::
        headings[i].start <= headings[i].body <= |Visible(shown)| && 1 <= headings[i].level <= 6
    ensures forall i, j | 0 <= i < j < |headings| :: headings[i].body <= headings[j].start
  {
    if shown == [] then []
    else
      var front := shown[..|shown| - 1];
      var last := shown[|shown| - 1];
      HeadingsOf(front)
      + if HeadingLevel(last) == 0 then []
        else [Heading(HeadingLevel(last), |Visible(front)|, |Visible(front)| + |last.line|)]
  }

  /** _release_headings, on the lines shown. */
  method Headings(shown: seq<Shown>) returns (headings: seq<Heading>)
    ensures headings == HeadingsOf(shown)
  {
    hide HeadingLevel;
    headings := [];
    var offset := 0;
    for n := 0 to |shown|
      invariant offset == |Visible(shown[..n])| && headings == HeadingsOf(shown[..n])
    {
      assert shown[..n + 1][..n] == shown[..n];
      var level := HeadingLevel(shown[n]);
      if level > 0 {
        headings := headings + [Heading(level, offset, offset + |shown[n].line|)];
      }
      offset := offset + |shown[n].line|;
    }
    assert shown[..|shown|] == shown;
  }

  lemma {:induction false} VisibleIsAligned(lines: seq<string>, shown: seq<Shown>, scans: seq<Scan>, n: nat)
    requires Scanned(lines, shown, scans) && n <= |lines|
    ensures Aligned(Concat(lines[..n]), Visible(shown[..n]))
  {
    hide LineStep;
    if n > 0 {
      VisibleIsAligned(lines, shown, scans, n - 1);
      assert lines[..n][..n - 1] == lines[..n - 1] && shown[..n][..n - 1] == shown[..n - 1];
      ShownIsAligned(lines[n - 1], scans[n - 1], shown[n - 1], scans[n]);
      AlignedConcat(Concat(lines[..n - 1]), Visible(shown[..n - 1]), lines[n - 1], shown[n - 1].line);
    }
  }

  lemma AlignedConcat(a: string, a': string, b: string, b': string)
    requires Aligned(a, a') && Aligned(b, b')
    ensures Aligned(a + b, a' + b')
  {
  }

  /** What is shown lines up with the text, character by character and line break by line break. */
  lemma TextIsAligned(text: string, shown: seq<Shown>, scans: seq<Scan>)
    requires Scanned(Lines(text), shown, scans)
    ensures Aligned(text, Visible(shown))
  {
    VisibleIsAligned(Lines(text), shown, scans, |shown|);
    LinesAreTheText(text);
    assert Lines(text)[..|shown|] == Lines(text) && shown[..|shown|] == shown;
  }

  function AtMost(headings: seq<Heading>, level: nat): (some: seq<Heading>)
    ensures forall h :: h in some <==> h in headings && h.level <= level
    ensures forall i | 0 <= i < |some| :: some[i] in headings && some[i].level <= level
  {
    if headings == [] then []
    else
      var last := headings[|headings| - 1];
      assert headings == headings[..|headings| - 1] + [last];
      AtMost(headings[..|headings| - 1], level) + if last.level <= level then [last] else []
  }

  ghost predicate InOrder(headings: seq<Heading>, limit: nat) {
    && (forall i | 0 <= i < |headings| :: headings[i].start <= headings[i].body <= limit)
    && (forall i, j | 0 <= i < j < |headings| :: headings[i].body <= headings[j].start)
  }

  lemma InOrderGrows(front: seq<Heading>, last: Heading, limit: nat)
    requires InOrder(front, limit) && last.start <= last.body <= limit
    requires forall h | h in front :: h.body <= last.start
    ensures InOrder(front + [last], limit)
  {
  }

  lemma BeforeTheLast(headings: seq<Heading>, limit: nat)
    requires headings != [] && InOrder(headings, limit)
    ensures
      var front, last := headings[..|headings| - 1], headings[|headings| - 1];
      && InOrder(front, limit) && last.start <= last.body <= limit
      && forall h | h in front :: h.body <= last.start
  {
  }

  lemma {:induction false} AtMostKeepsOrder(headings: seq<Heading>, level: nat, limit: nat)
    requires InOrder(headings, limit)
    ensures InOrder(AtMost(headings, level), limit)
  {
    hide InOrder;
    if headings == [] {
      assert AtMost(headings, level) == headings;
    } else {
      var front, last := headings[..|headings| - 1], headings[|headings| - 1];
      BeforeTheLast(headings, limit);
      AtMostKeepsOrder(front, level, limit);
      if last.level <= level {
        InOrderGrows(AtMost(front, level), last, limit);
      } else {
        assert AtMost(headings, level) == AtMost(front, level);
      }
    }
  }

  /** The same stretch of the text and of what is shown. */
  datatype Section = Section(start: nat, end: nat, body: string, visible: string)

  /** A section of this level: it follows such a heading, and runs to the next heading of that level or above. */
  ghost predicate IsSection(s: Section, text: string, visible: string, headings: seq<Heading>, level: nat) {
    && s.start <= s.end <= |text| == |visible|
    && s.body == text[s.start..s.end] && s.visible == visible[s.start..s.end] && Aligned(s.body, s.visible)
    && (exists h :: h in headings && h.level == level && h.body == s.start)
    && (s.end == |text| || exists h :: h in headings && h.level <= level && h.start == s.end)
    && (forall h | h in headings && h.level <= level :: h.body <= s.start || s.end <= h.start)
  }

  lemma AlignedSlice(a: string, b: string, start: nat, end: nat)
    requires Aligned(a, b) && start <= end <= |a|
    ensures Aligned(a[start..end], b[start..end])
  {
  }

  /** _release_sections: one section for each heading of the level, original and shown text side by side. */
  method Sections(text: string, level: nat)
      returns (sections: seq<Section>, ghost shown: seq<Shown>, ghost scans: seq<Scan>)
    ensures Scanned(Lines(text), shown, scans)
    ensures forall i | 0 <= i < |sections| :: IsSection(sections[i], text, Visible(shown), HeadingsOf(shown), level)
    ensures forall h | h in HeadingsOf(shown) && h.level == level :: exists i | 0 <= i < |sections| ::
        sections[i].start == h.body
    ensures forall i, j | 0 <= i < j < |sections| :: sections[i].end <= sections[j].start
  {
    hide Scanned, Aligned, HeadingsOf, Visible, AtMost, InOrder, IsSection;
    var lines: seq<Shown>;
    lines, scans := ReleaseLines(text);
    shown := lines;
    TextIsAligned(text, lines, scans);
    var visible := Visible(lines);
    var all := Headings(lines);
    HeadingsAreInOrder(lines);
    var headings := AtMost(all, level);
    AtMostKeepsOrder(all, level, |visible|);
    sections := CutSections(text, visible, all, headings, level);
  }

  lemma HeadingsAreInOrder(shown: seq<Shown>)
    ensures InOrder(HeadingsOf(shown), |Visible(shown)|)
  {
  }

  method CutSections(text: string, visible: string, ghost all: seq<Heading>, headings: seq<Heading>, level: nat)
      returns (sections: seq<Section>)
    requires Aligned(text, visible) && InOrder(headings, |text|) && headings == AtMost(all, level)
    ensures forall i | 0 <= i < |sections| :: IsSection(sections[i], text, visible, all, level)
    ensures forall h | h in all && h.level == level :: exists i | 0 <= i < |sections| :: sections[i].start == h.body
    ensures forall i, j | 0 <= i < j < |sections| :: sections[i].end <= sections[j].start
  {
    hide IsSection, Aligned, AtMost;
    sections := [];
    for n := 0 to |headings|
      invariant forall i | 0 <= i < |sections| :: IsSection(sections[i], text, visible, all, level)
      invariant forall i | 0 <= i < |sections| :: n < |headings| ==> sections[i].end <= headings[n].start
      invariant forall i, j | 0 <= i < j < |sections| :: sections[i].end <= sections[j].start
      invariant forall k | 0 <= k < n && headings[k].level == level :: Covers(sections, headings[k].body)
    {
      ghost var before := sections;
      if headings[n].level == level {
        SameLength(text, visible);
        var end := if n + 1 < |headings| then headings[n + 1].start else |text|;
        var section := Section(headings[n].body, end, text[headings[n].body..end], visible[headings[n].body..end]);
        CutIsSection(section, text, visible, all, headings, level, n);
        sections := sections + [section];
        CoversMore(before, section);
      }
      forall k | 0 <= k < n && headings[k].level == level ensures Covers(sections, headings[k].body) {
        StillCovers(before, sections, headings[k].body);
      }
    }
    forall h | h in all && h.level == level ensures exists i | 0 <= i < |sections| :: sections[i].start == h.body {
      assert h in headings;
      var k :| 0 <= k < |headings| && headings[k] == h;
      assert Covers(sections, headings[k].body);
    }
  }

  ghost predicate Covers(sections: seq<Section>, body: nat) {
    exists i | 0 <= i < |sections| :: sections[i].start == body
  }

  lemma CoversMore(sections: seq<Section>, section: Section)
    ensures Covers(sections + [section], section.start)
  {
    assert (sections + [section])[|sections|].start == section.start;
  }

  lemma StillCovers(before: seq<Section>, after: seq<Section>, body: nat)
    requires before <= after && Covers(before, body)
    ensures Covers(after, body)
  {
    var i :| 0 <= i < |before| && before[i].start == body;
    assert after[i].start == body;
  }

  lemma SameLength(text: string, visible: string)
    requires Aligned(text, visible)
    ensures |visible| == |text|
  {
  }

  lemma CutIsSection(s: Section, text: string, visible: string, all: seq<Heading>, headings: seq<Heading>, level: nat,
      n: nat)
    requires Aligned(text, visible) && InOrder(headings, |text|) && headings == AtMost(all, level) && n < |headings|
    requires headings[n].level == level
    requires s.start == headings[n].body && s.end == if n + 1 < |headings| then headings[n + 1].start else |text|
    requires s.start <= s.end <= |text| == |visible| && s.body == text[s.start..s.end]
    requires s.visible == visible[s.start..s.end]
    ensures IsSection(s, text, visible, all, level)
  {
    hide Aligned;
    AlignedSlice(text, visible, s.start, s.end);
    assert headings[n] in headings;
    if n + 1 < |headings| {
      assert headings[n + 1] in headings;
    }
    forall h | h in all && h.level <= level ensures h.body <= s.start || s.end <= h.start {
      assert h in headings;
      var k :| 0 <= k < |headings| && headings[k] == h;
      if k > n + 1 {
        assert headings[n + 1].body <= headings[k].start;
      }
    }
  }
}
