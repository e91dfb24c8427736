/** The Markdown scanners of scripts/release_control.py: code spans, comment masking, lines, headings and sections. */
module ReleaseMarkdown {
  // ---- Backtick runs ------------------------------------------------------------------------------------------

  /** A maximal run of backticks: nothing longer that contains it consists of backticks only. */
  predicate IsRun(line: string, start: int, end: int) {
    && 0 <= start < end <= |line| && (forall i | start <= i < end :: line[i] == '`')
    && (start == 0 || line[start - 1] != '`') && (end == |line| || line[end] != '`')
  }

  datatype Run = Run(start: nat, end: nat)
  {
    function Length(): int {
      end - start
    }
  }

  ghost predicate StartsRun(line: string, start: int) {
    exists end :: IsRun(line, start, end)
  }

  ghost predicate Listed(runs: seq<Run>, n: nat, start: int) {
    exists i | n <= i < |runs| :: runs[i].start == start
  }

  /** All runs that start at or after a position, in order. */
  ghost predicate AreRuns(line: string, runs: seq<Run>, from: nat) {
    && (forall i | 0 <= i < |runs| :: IsRun(line, runs[i].start, runs[i].end) && runs[i].start >= from)
    && (forall i, j | 0 <= i < j < |runs| :: runs[i].end < runs[j].start)
    && (forall start | StartsRun(line, start) && start >= from :: Listed(runs, 0, start))
  }

  /** re.finditer for one or more backticks. */
  method FindRuns(line: string) returns (runs: seq<Run>)
    ensures AreRuns(line, runs, 0)
  {
    runs := [];
    var at := |line|;
    while at > 0
      invariant 0 <= at <= |line| && AreRuns(line, runs, at)
      invariant at < |line| && at > 0 ==> !(line[at] == '`' && line[at - 1] == '`')
    {
      if line[at - 1] != '`' {
        SkipsNoRun(line, runs, at);
        at := at - 1;
      } else {
        var start := at - 1;
        while start > 0 && line[start - 1] == '`'
          invariant 0 <= start < at && forall i | start <= i < at :: line[i] == '`'
        {
          start := start - 1;
        }
        AddsRun(line, runs, start, at);
        runs := [Run(start, at)] + runs;
        at := start;
      }
    }
  }

  lemma SkipsNoRun(line: string, runs: seq<Run>, at: nat)
    requires 0 < at <= |line| && AreRuns(line, runs, at) && line[at - 1] != '`'
    ensures AreRuns(line, runs, at - 1)
  {
    assert !StartsRun(line, at - 1);
  }

  /** Inside a run no other run starts. */
  lemma NoRunInside(line: string, start: int, end: int, s: int)
    requires IsRun(line, start, end) && start < s < end
    ensures !StartsRun(line, s)
  {
    assert line[s - 1] == '`';
  }

  lemma AddsRun(line: string, runs: seq<Run>, start: nat, at: nat)
    requires start < at <= |line| && AreRuns(line, runs, at) && IsRun(line, start, at)
    ensures AreRuns(line, [Run(start, at)] + runs, start)
  {
    hide StartsRun;
    var more := [Run(start, at)] + runs;
    forall i | 0 <= i < |runs| ensures at < runs[i].start {
      assert IsRun(line, runs[i].start, runs[i].end);
      assert line[at] != '`' && line[runs[i].start] == '`';
    }
    forall s | StartsRun(line, s) && s >= start ensures Listed(more, 0, s) {
      if start < s < at {
        NoRunInside(line, start, at, s);
      } else if s == start {
        assert more[0].start == s;
      } else {
        var i :| 0 <= i < |runs| && runs[i].start == s;
        assert more[i + 1].start == s;
      }
    }
  }

  lemma RunsAreFunctional(line: string, start: int, end: int, end': int)
    requires IsRun(line, start, end) && IsRun(line, start, end')
    ensures end == end'
  {
  }

  // ---- Code spans -----------------------------------------------------------------------------------------------

  /** A run that closes the one at start to end: it comes later, and has the same length. */
  predicate Closes(line: string, start: int, end: int, s: int, e: int) {
    IsRun(line, s, e) && s >= end && e - s == end - start
  }

  /** The quadratic definition of section 6.1 of CommonMark 0.31.2: the nearest later run of equal length. */
  ghost predicate NearestCloser(line: string, start: int, end: int, close: int) {
    && IsRun(line, start, end)
    && (exists s :: Closes(line, start, end, s, close))
    && (forall s, e | Closes(line, start, end, s, e) :: close <= e)
  }

  /** Each opening run is mapped to the end of its nearest closer, and no other run is mapped. */
  ghost predicate PairsSpans(line: string, ends: map<int, int>) {
    && (forall start | start in ends :: StartsRun(line, start))
    && (forall start, end | start in ends && IsRun(line, start, end) :: NearestCloser(line, start, end, ends[start]))
    && (forall start, end, s, e | IsRun(line, start, end) && Closes(line, start, end, s, e) :: start in ends)
  }

  /** The first run from some place on that has this length; |runs| when there is none. */
  function NextEqual(runs: seq<Run>, length: int, from: nat): (j: nat)
    requires from <= |runs|
    ensures from <= j <= |runs| && (j < |runs| ==> runs[j].Length() == length)
    ensures forall k | from <= k < j :: runs[k].Length() != length
    decreases |runs| - from
  {
    if from == |runs| || runs[from].Length() == length then from else NextEqual(runs, length, from + 1)
  }

  /** The reverse pass remembers, for each length, the end of the nearest later run of that length. */
  ghost predicate Remembers(runs: seq<Run>, n: nat, following: map<int, int>)
    requires n <= |runs|
  {
    forall length ::
      && (length in following <==> NextEqual(runs, length, n) < |runs|)
      && (length in following ==> following[length] == runs[NextEqual(runs, length, n)].end)
  }

  /** The nearest later run of the same length, |runs| when there is none. */
  function Partner(runs: seq<Run>, i: nat): (j: nat)
    requires i < |runs|
    ensures i < j <= |runs| && (j < |runs| ==> runs[j].Length() == runs[i].Length())
    ensures forall k | i < k < j :: runs[k].Length() != runs[i].Length()
  {
    NextEqual(runs, runs[i].Length(), i + 1)
  }

  ghost predicate PairedFrom(runs: seq<Run>, n: nat, ends: map<int, int>) {
    && (forall i: nat | n <= i < |runs| ::
          && (runs[i].start in ends <==> Partner(runs, i) < |runs|)
          && (runs[i].start in ends ==> ends[runs[i].start] == runs[Partner(runs, i)].end))
    && (forall start | start in ends :: Listed(runs, n, start))
  }

  /** _release_code_span_ends: one scan, and one pass from the last run to the first. */
  method CodeSpanEnds(line: string) returns (ends: map<int, int>)
    ensures PairsSpans(line, ends)
  {
    hide PairsSpans, AreRuns, Remembers, PairedFrom;
    var runs := FindRuns(line);
    var following: map<int, int> := map[];
    ends := map[];
    var n := |runs|;
    NothingRemembered(runs);
    while n > 0
      invariant 0 <= n <= |runs| && Remembers(runs, n, following) && PairedFrom(runs, n, ends)
    {
      n := n - 1;
      var length := runs[n].Length();
      PairStep(line, runs, n, following, ends);
      if length in following {
        ends := ends[runs[n].start := following[length]];
      }
      following := following[length := runs[n].end];
    }
    PairedIsNearest(line, runs, ends);
  }

  lemma NothingRemembered(runs: seq<Run>)
    ensures Remembers(runs, |runs|, map[]) && PairedFrom(runs, |runs|, map[])
  {
  }

  lemma NextEqualStep(runs: seq<Run>, length: int, n: nat)
    requires n < |runs|
    ensures NextEqual(runs, length, n) == if runs[n].Length() == length then n else NextEqual(runs, length, n + 1)
  {
  }

  lemma RemembersStep(runs: seq<Run>, n: nat, following: map<int, int>)
    requires n < |runs| && Remembers(runs, n + 1, following)
    ensures Remembers(runs, n, following[runs[n].Length() := runs[n].end])
  {
    hide NextEqual;
    forall length
      ensures NextEqual(runs, length, n) == if runs[n].Length() == length then n else NextEqual(runs, length, n + 1)
    {
      NextEqualStep(runs, length, n);
    }
  }

  lemma PairedStep(line: string, runs: seq<Run>, n: nat, following: map<int, int>, ends: map<int, int>)
    requires n < |runs| && AreRuns(line, runs, 0) && Remembers(runs, n + 1, following) && PairedFrom(runs, n + 1, ends)
    ensures PairedFrom(runs, n,
        if runs[n].Length() in following then ends[runs[n].start := following[runs[n].Length()]] else ends)
  {
    hide AreRuns, Listed, Remembers, Partner;
    forall i | n < i < |runs| ensures runs[i].start != runs[n].start {
      RunsAreApart(line, runs, n, i);
    }
    if runs[n].start in ends {
      assert Listed(runs, n + 1, runs[n].start);
      ListedSomewhere(runs, n + 1, runs[n].start);
    }
    forall start | Listed(runs, n + 1, start) ensures Listed(runs, n, start) {
      ListedEarlier(runs, n, start);
    }
    ListedItself(runs, n);
    PartnerIsRemembered(runs, n, following);
  }

  lemma ListedSomewhere(runs: seq<Run>, n: nat, start: int)
    requires Listed(runs, n, start)
    ensures exists i | n <= i < |runs| :: runs[i].start == start
  {
  }

  lemma ListedEarlier(runs: seq<Run>, n: nat, start: int)
    requires Listed(runs, n + 1, start)
    ensures Listed(runs, n, start)
  {
  }

  lemma ListedItself(runs: seq<Run>, n: nat)
    requires n < |runs|
    ensures Listed(runs, n, runs[n].start)
  {
  }

  lemma PartnerIsRemembered(runs: seq<Run>, n: nat, following: map<int, int>)
    requires n < |runs| && Remembers(runs, n + 1, following)
    ensures runs[n].Length() in following <==> Partner(runs, n) < |runs|
    ensures runs[n].Length() in following ==> following[runs[n].Length()] == runs[Partner(runs, n)].end
  {
  }

  lemma PairStep(line: string, runs: seq<Run>, n: nat, following: map<int, int>, ends: map<int, int>)
    requires n < |runs| && AreRuns(line, runs, 0) && Remembers(runs, n + 1, following) && PairedFrom(runs, n + 1, ends)
    ensures
      var length := runs[n].Length();
      && Remembers(runs, n, following[length := runs[n].end])
      && PairedFrom(runs, n, if length in following then ends[runs[n].start := following[length]] else ends)
  {
    hide AreRuns, Remembers, PairedFrom;
    RemembersStep(runs, n, following);
    PairedStep(line, runs, n, following, ends);
  }

  lemma RunsAreApart(line: string, runs: seq<Run>, i: nat, j: nat)
    requires AreRuns(line, runs, 0) && i < j < |runs|
    ensures runs[i].start < runs[i].end < runs[j].start < runs[j].end
  {
    assert IsRun(line, runs[i].start, runs[i].end) && IsRun(line, runs[j].start, runs[j].end);
  }

  lemma RunIsListed(line: string, runs: seq<Run>, start: int, end: int) returns (i: nat)
    requires AreRuns(line, runs, 0) && IsRun(line, start, end)
    ensures i < |runs| && runs[i].start == start && runs[i].end == end
  {
    assert StartsRun(line, start);
    i :| 0 <= i < |runs| && runs[i].start == start;
    RunsAreFunctional(line, start, end, runs[i].end);
  }

  lemma PairIsNearest(line: string, runs: seq<Run>, i: nat)
    requires AreRuns(line, runs, 0) && i < |runs| && Partner(runs, i) < |runs|
    ensures NearestCloser(line, runs[i].start, runs[i].end, runs[Partner(runs, i)].end)
  {
    hide AreRuns, Partner;
    var j := Partner(runs, i);
    RunIsRun(line, runs, i);
    RunIsRun(line, runs, j);
    RunsAreApart(line, runs, i, j);
    assert Closes(line, runs[i].start, runs[i].end, runs[j].start, runs[j].end);
    forall s, e | Closes(line, runs[i].start, runs[i].end, s, e) ensures runs[j].end <= e {
      var k := CloserComesLater(line, runs, i, s, e);
      if j < k {
        RunsAreApart(line, runs, j, k);
      }
    }
  }

  lemma RunIsRun(line: string, runs: seq<Run>, i: nat)
    requires AreRuns(line, runs, 0) && i < |runs|
    ensures IsRun(line, runs[i].start, runs[i].end)
  {
  }

  lemma CloserComesLater(line: string, runs: seq<Run>, i: nat, s: int, e: int) returns (k: nat)
    requires AreRuns(line, runs, 0) && i < |runs| && Closes(line, runs[i].start, runs[i].end, s, e)
    ensures i < k < |runs| && runs[k].start == s && runs[k].end == e && runs[k].Length() == runs[i].Length()
  {
    hide AreRuns;
    k := RunIsListed(line, runs, s, e);
    if k < i {
      RunsAreApart(line, runs, k, i);
    }
    RunIsRun(line, runs, i);
  }

  lemma PairedIsNearest(line: string, runs: seq<Run>, ends: map<int, int>)
    requires AreRuns(line, runs, 0) && PairedFrom(runs, 0, ends)
    ensures PairsSpans(line, ends)
  {
    hide IsRun, AreRuns, NearestCloser, Closes, Partner, StartsRun;
    forall start | start in ends ensures StartsRun(line, start) {
      var i :| 0 <= i < |runs| && runs[i].start == start;
      RunIsRun(line, runs, i);
      RunStarts(line, start, runs[i].end);
    }
    forall start, end | start in ends && IsRun(line, start, end) ensures NearestCloser(line, start, end, ends[start]) {
      var i := RunIsListed(line, runs, start, end);
      PairIsNearest(line, runs, i);
    }
    forall start, end, s, e | IsRun(line, start, end) && Closes(line, start, end, s, e) ensures start in ends {
      var i := RunIsListed(line, runs, start, end);
      var k := CloserComesLater(line, runs, i, s, e);
      assert Partner(runs, i) <= k;
    }
  }

  lemma RunStarts(line: string, start: int, end: int)
    requires IsRun(line, start, end)
    ensures StartsRun(line, start)
  {
  }
}
