/** The report `printCounts` logs: per stored key, in insertion order, a header
    with the key's summed count, one line per diff that is not hidden, in
    histogram order, and one combined line for the hidden initial-state diffs
    when their count is not zero. The lines are a datatype; `RenderLine`
    gives the text each one is logged as. */
module Report {
  import opened OrderedMap
  import opened CounterStore
  import opened Text

  datatype Line =
    | Header(total: nat, key: Key)
    | DiffLine(count: nat, text: string)
    | HiddenSummary(count: nat)

  /** Sum of the counts of a histogram. */
  function Total(ds: OMap<Diff, nat>): nat
  {
    if |ds| == 0 then 0 else Total(ds[..|ds| - 1]) + ds[|ds| - 1].1
  }

  /** A diff the report folds into the hidden summary instead of printing. */
  predicate IsHidden(d: Diff, hideInitial: bool) {
    d.isInitialStateDiff && hideInitial
  }

  /** The diffs printed on lines of their own, in histogram order. */
  function Visible(ds: OMap<Diff, nat>, hideInitial: bool): OMap<Diff, nat>
  {
    if |ds| == 0 then []
    else
      var rest := Visible(ds[..|ds| - 1], hideInitial);
      if IsHidden(ds[|ds| - 1].0, hideInitial) then rest else rest + [ds[|ds| - 1]]
  }

  /** The diffs counted into the hidden summary, in histogram order. */
  function Hidden(ds: OMap<Diff, nat>, hideInitial: bool): OMap<Diff, nat>
  {
    if |ds| == 0 then []
    else
      var rest := Hidden(ds[..|ds| - 1], hideInitial);
      if IsHidden(ds[|ds| - 1].0, hideInitial) then rest + [ds[|ds| - 1]] else rest
  }

  /** One line per diff, its text re-indented. */
  function DiffLines(ds: OMap<Diff, nat>): (lines: seq<Line>)
    ensures |lines| == |ds|
    ensures forall i :: 0 <= i < |ds| ==> lines[i] == DiffLine(ds[i].1, IndentDifference(ds[i].0.text))
  {
    if |ds| == 0 then []
    else DiffLines(ds[..|ds| - 1]) + [DiffLine(ds[|ds| - 1].1, IndentDifference(ds[|ds| - 1].0.text))]
  }

  /** The lines reported for one key. */
  function KeyReport(k: Key, v: Value): seq<Line>
  {
    var hidden := Total(Hidden(v.differences, v.hideInitialStateDiffs));
    [Header(Total(v.differences), k)]
      + DiffLines(Visible(v.differences, v.hideInitialStateDiffs))
      + (if hidden != 0 then [HiddenSummary(hidden)] else [])
  }

  /** The lines reported for a whole store: each key's block, in key order. */
  function ReportLines(s: Store): seq<Line>
  {
    if |s| == 0 then [] else ReportLines(s[..|s| - 1]) + KeyReport(s[|s| - 1].0, s[|s| - 1].1)
  }

  lemma TotalSnoc(ds: OMap<Diff, nat>, j: nat)
    requires j < |ds|
    ensures Total(ds[..j + 1]) == Total(ds[..j]) + ds[j].1
    ensures Visible(ds[..j + 1], false) == Visible(ds[..j], false) + [ds[j]]
  {
    assert ds[..j + 1][..j] == ds[..j];
  }

  lemma FilterSnoc(ds: OMap<Diff, nat>, j: nat, hideInitial: bool)
    requires j < |ds|
    ensures Visible(ds[..j + 1], hideInitial) == Visible(ds[..j], hideInitial) + (if IsHidden(ds[j].0, hideInitial) then [] else [ds[j]])
    ensures Hidden(ds[..j + 1], hideInitial) == Hidden(ds[..j], hideInitial) + (if IsHidden(ds[j].0, hideInitial) then [ds[j]] else [])
  {
    assert ds[..j + 1][..j] == ds[..j];
  }

  lemma DiffLinesSnoc(ds: OMap<Diff, nat>, p: (Diff, nat))
    ensures DiffLines(ds + [p]) == DiffLines(ds) + [DiffLine(p.1, IndentDifference(p.0.text))]
  {
    assert (ds + [p])[..|ds|] == ds;
  }

  lemma ScanStep(ds: OMap<Diff, nat>, j: nat, hideInitial: bool)
    requires j < |ds|
    ensures DiffLines(Visible(ds[..j + 1], hideInitial))
         == DiffLines(Visible(ds[..j], hideInitial))
            + (if IsHidden(ds[j].0, hideInitial) then [] else [DiffLine(ds[j].1, IndentDifference(ds[j].0.text))])
    ensures Total(Hidden(ds[..j + 1], hideInitial))
         == Total(Hidden(ds[..j], hideInitial)) + (if IsHidden(ds[j].0, hideInitial) then ds[j].1 else 0)
  {
    FilterSnoc(ds, j, hideInitial);
    var h := Hidden(ds[..j], hideInitial);
    if IsHidden(ds[j].0, hideInitial) {
      assert (h + [ds[j]])[..|h|] == h;
    } else {
      assert h + [] == h;
      DiffLinesSnoc(Visible(ds[..j], hideInitial), ds[j]);
    }
  }

  /** The first pass of `printCounts` over a histogram: its counts summed. */
  method OverallCount(ds: OMap<Diff, nat>) returns (overallCount: nat)
    ensures overallCount == Total(ds)
  {
    overallCount := 0;
    var j := 0;
    while j < |ds|
      invariant 0 <= j <= |ds|
      invariant overallCount == Total(ds[..j])
    {
      TotalSnoc(ds, j);
      overallCount := overallCount + ds[j].1;
      j := j + 1;
    }
    assert ds[..|ds|] == ds;
  }

  /** The second pass of `printCounts` over a histogram, as written: one
      line per diff that is not hidden, in order, while the counts of the
      hidden ones are added up. */
  method PrintDifferences(ds: OMap<Diff, nat>, hideInitial: bool) returns (printed: seq<Line>, hiddenInitialStateDiffCount: nat)
    ensures printed == DiffLines(Visible(ds, hideInitial))
    ensures hiddenInitialStateDiffCount == Total(Hidden(ds, hideInitial))
  {
    printed := [];
    hiddenInitialStateDiffCount := 0;
    var j := 0;
    while j < |ds|
      invariant 0 <= j <= |ds|
      invariant printed == DiffLines(Visible(ds[..j], hideInitial))
      invariant hiddenInitialStateDiffCount == Total(Hidden(ds[..j], hideInitial))
    {
      var (difference, count) := ds[j];
      ScanStep(ds, j, hideInitial);
      if difference.isInitialStateDiff && hideInitial {
        assert printed + [] == printed;
        hiddenInitialStateDiffCount := hiddenInitialStateDiffCount + count;
      } else {
        printed := printed + [DiffLine(count, IndentDifference(difference.text))];
      }
      j := j + 1;
    }
    assert ds[..|ds|] == ds;
  }

  /** The body of the `printCounts` loop for one key: the header with the
      summed count, the printed diffs, and the summary when the hidden count
      is not zero. */
  method PrintKey(key: Key, value: Value) returns (block: seq<Line>)
    ensures block == KeyReport(key, value)
  {
    var overallCount := OverallCount(value.differences);
    var printed, hiddenInitialStateDiffCount := PrintDifferences(value.differences, value.hideInitialStateDiffs);
    block := [Header(overallCount, key)] + printed;
    if hiddenInitialStateDiffCount != 0 {
      block := block + [HiddenSummary(hiddenInitialStateDiffCount)];
    } else {
      assert block + [] == block;
    }
  }

  /** `printCounts`: each stored key's block, in insertion order; the lines
      are those of the reference definition `ReportLines`. */
  method PrintCounts(s: Store) returns (lines: seq<Line>)
    ensures lines == ReportLines(s)
  {
    lines := [];
    var i := 0;
    while i < |s|
      invariant 0 <= i <= |s|
      invariant lines == ReportLines(s[..i])
    {
      var block := PrintKey(s[i].0, s[i].1);
      assert s[..i + 1][..i] == s[..i];
      lines := lines + block;
      i := i + 1;
    }
    assert s[..|s|] == s;
  }

  // Properties of the report.

  /** The header lines of a line sequence, in order. */
  function HeadersOf(lines: seq<Line>): seq<Line>
  {
    if |lines| == 0 then []
    else HeadersOf(lines[..|lines| - 1]) + (if lines[|lines| - 1].Header? then [lines[|lines| - 1]] else [])
  }

  lemma {:induction false} HeadersOfAppend(a: seq<Line>, b: seq<Line>)
    ensures HeadersOf(a + b) == HeadersOf(a) + HeadersOf(b)
    decreases |b|
  {
    if |b| == 0 {
      assert a + b == a;
    } else {
      var b' := b[..|b| - 1];
      HeadersOfAppend(a, b');
      assert (a + b)[..|a + b| - 1] == a + b';
    }
  }

  lemma {:induction false} NoHeadersInDiffLines(ds: OMap<Diff, nat>)
    ensures HeadersOf(DiffLines(ds)) == []
  {
    if |ds| > 0 {
      var ls := DiffLines(ds);
      NoHeadersInDiffLines(ds[..|ds| - 1]);
      assert ls[..|ls| - 1] == DiffLines(ds[..|ds| - 1]);
    }
  }

  lemma KeyReportHeaders(k: Key, v: Value)
    ensures HeadersOf(KeyReport(k, v)) == [Header(Total(v.differences), k)]
  {
    var hidden := Total(Hidden(v.differences, v.hideInitialStateDiffs));
    var head := [Header(Total(v.differences), k)];
    var body := DiffLines(Visible(v.differences, v.hideInitialStateDiffs));
    var tail: seq<Line> := if hidden != 0 then [HiddenSummary(hidden)] else [];
    HeadersOfAppend(head, body);
    HeadersOfAppend(head + body, tail);
    NoHeadersInDiffLines(Visible(v.differences, v.hideInitialStateDiffs));
    assert HeadersOf(head) == head by {
      assert head[..0] == [];
    }
    if hidden != 0 {
      assert tail[..0] == [];
    }
  }

  /** Exactly one header per stored key, in insertion order, each carrying the
      sum of that key's diff counts. */
  lemma {:induction false} OneHeaderPerKey(s: Store)
    ensures |HeadersOf(ReportLines(s))| == |s|
    ensures forall i :: 0 <= i < |s| ==> HeadersOf(ReportLines(s))[i] == Header(Total(s[i].1.differences), s[i].0)
  {
    if |s| > 0 {
      var init := s[..|s| - 1];
      var last := s[|s| - 1];
      OneHeaderPerKey(init);
      assert ReportLines(s) == ReportLines(init) + KeyReport(last.0, last.1);
      HeadersOfAppend(ReportLines(init), KeyReport(last.0, last.1));
      KeyReportHeaders(last.0, last.1);
      var hs := HeadersOf(ReportLines(s));
      assert hs == HeadersOf(ReportLines(init)) + [Header(Total(last.1.differences), last.0)];
      forall i | 0 <= i < |s|
        ensures hs[i] == Header(Total(s[i].1.differences), s[i].0)
      {
        if i < |s| - 1 {
          assert s[i] == init[i];
        }
      }
    }
  }

  /** Sum of the counts of the lines that are not headers. */
  function BodyCount(lines: seq<Line>): nat
  {
    if |lines| == 0 then 0
    else BodyCount(lines[..|lines| - 1]) + (if lines[|lines| - 1].Header? then 0 else lines[|lines| - 1].count)
  }

  lemma {:induction false} BodyCountAppend(a: seq<Line>, b: seq<Line>)
    ensures BodyCount(a + b) == BodyCount(a) + BodyCount(b)
    decreases |b|
  {
    if |b| == 0 {
      assert a + b == a;
    } else {
      var b' := b[..|b| - 1];
      BodyCountAppend(a, b');
      assert (a + b)[..|a + b| - 1] == a + b';
    }
  }

  lemma {:induction false} BodyCountOfDiffLines(ds: OMap<Diff, nat>)
    ensures BodyCount(DiffLines(ds)) == Total(ds)
  {
    if |ds| > 0 {
      var ls := DiffLines(ds);
      BodyCountOfDiffLines(ds[..|ds| - 1]);
      assert ls[..|ls| - 1] == DiffLines(ds[..|ds| - 1]);
    }
  }

  /** Splitting a histogram into printed and hidden diffs loses no count. */
  lemma {:induction false} TotalSplits(ds: OMap<Diff, nat>, hideInitial: bool)
    ensures Total(Visible(ds, hideInitial)) + Total(Hidden(ds, hideInitial)) == Total(ds)
  {
    if |ds| > 0 {
      var init := ds[..|ds| - 1];
      var last := ds[|ds| - 1];
      TotalSplits(init, hideInitial);
      var vis := Visible(init, hideInitial);
      var hid := Hidden(init, hideInitial);
      if IsHidden(last.0, hideInitial) {
        assert (hid + [last])[..|hid|] == hid;
      } else {
        assert (vis + [last])[..|vis|] == vis;
      }
    }
  }

  /** Every count of a key is accounted for exactly once below its header:
      the counts of its diff lines and of its hidden summary add up to the
      header's total. */
  lemma KeyReportBalances(k: Key, v: Value)
    ensures KeyReport(k, v)[0] == Header(Total(v.differences), k)
    ensures BodyCount(KeyReport(k, v)) == Total(v.differences)
  {
    var ds := v.differences;
    var hideInitial := v.hideInitialStateDiffs;
    var hidden := Total(Hidden(ds, hideInitial));
    var head := [Header(Total(ds), k)];
    var body := DiffLines(Visible(ds, hideInitial));
    var tail: seq<Line> := if hidden != 0 then [HiddenSummary(hidden)] else [];
    assert KeyReport(k, v) == head + body + tail;
    BodyCountAppend(head, body);
    BodyCountAppend(head + body, tail);
    assert BodyCount(head) == 0 by {
      assert head[..0] == [];
    }
    BodyCountOfDiffLines(Visible(ds, hideInitial));
    TotalSplits(ds, hideInitial);
    if hidden != 0 {
      assert tail[..0] == [];
    }
  }

  /** The printed diffs are exactly the ones not hidden and the summarised
      diffs exactly the hidden ones, each in histogram order; with the flag
      off every diff is printed and nothing is summarised. */
  lemma {:induction false} HiddenPartition(ds: OMap<Diff, nat>, hideInitial: bool)
    ensures |Visible(ds, hideInitial)| + |Hidden(ds, hideInitial)| == |ds|
    ensures forall p :: p in Visible(ds, hideInitial) <==> p in ds && !IsHidden(p.0, hideInitial)
    ensures forall p :: p in Hidden(ds, hideInitial) <==> p in ds && IsHidden(p.0, hideInitial)
    ensures !hideInitial ==> Visible(ds, hideInitial) == ds && Hidden(ds, hideInitial) == []
  {
    if |ds| > 0 {
      var init := ds[..|ds| - 1];
      HiddenPartition(init, hideInitial);
      assert ds == init + [ds[|ds| - 1]];
    }
  }

  /** With a well-formed histogram the hidden summary is printed exactly when
      the key has a hidden initial-state diff. */
  lemma {:induction false} SummaryIffHiddenDiff(ds: OMap<Diff, nat>, hideInitial: bool)
    requires forall i :: 0 <= i < |ds| ==> ds[i].1 >= 1
    ensures Total(Hidden(ds, hideInitial)) != 0 <==> exists i :: 0 <= i < |ds| && IsHidden(ds[i].0, hideInitial)
  {
    if |ds| > 0 {
      var init := ds[..|ds| - 1];
      SummaryIffHiddenDiff(init, hideInitial);
      var hid := Hidden(init, hideInitial);
      if IsHidden(ds[|ds| - 1].0, hideInitial) {
        assert (hid + [ds[|ds| - 1]])[..|hid|] == hid;
      } else {
        if exists i :: 0 <= i < |ds| && IsHidden(ds[i].0, hideInitial) {
          var i :| 0 <= i < |ds| && IsHidden(ds[i].0, hideInitial);
          assert init[i] == ds[i];
        }
        assert forall i :: 0 <= i < |init| ==> init[i] == ds[i];
      }
    }
  }

  /** The hidden-diff example: a key whose flag is set, with an initial-state
      diff counted 3 times and another diff counted twice, is reported as a
      header with total 5, one line for the other diff with count 2, and one
      summary line with count 3. */
  lemma SuppressionExample(k: Key, initial: string, other: string)
    ensures KeyReport(k, Value([(Diff(true, initial), 3), (Diff(false, other), 2)], true))
         == [Header(5, k), DiffLine(2, IndentDifference(other)), HiddenSummary(3)]
  {
    var p0: (Diff, nat) := (Diff(true, initial), 3);
    var p1: (Diff, nat) := (Diff(false, other), 2);
    TwoDiffHistogram(p0, p1);
    assert Total([p0]) == 3 by {
      assert [p0][..0] == [];
    }
    assert DiffLines([p1]) == [DiffLine(2, IndentDifference(other))];
  }

  /** An initial-state diff followed by another diff, with the flag set: the
      first is hidden, the second printed. */
  lemma TwoDiffHistogram(p0: (Diff, nat), p1: (Diff, nat))
    requires p0.0.isInitialStateDiff && !p1.0.isInitialStateDiff
    ensures Visible([p0, p1], true) == [p1]
    ensures Hidden([p0, p1], true) == [p0]
    ensures Total([p0, p1]) == p0.1 + p1.1
  {
    var ds := [p0, p1];
    assert ds[..0] == [] && ds[..1] == [p0] && ds[..2] == ds;
    FilterSnoc(ds, 0, true);
    FilterSnoc(ds, 1, true);
    TotalSnoc(ds, 0);
    TotalSnoc(ds, 1);
  }

  // The text of each line.

  /** The count a line carries: a header's total, a diff's count, the hidden
      diffs' summed count. */
  function LineCount(l: Line): nat
  {
    match l
    case Header(total, _) => total
    case DiffLine(count, _) => count
    case HiddenSummary(count) => count
  }

  /** A logged text reads as a header when a digit, not the indent, follows
      the marker. */
  predicate IsHeaderText(r: string) {
    |r| > 4 && IsDigit(r[4])
  }

  /** Where the count of a logged text starts: right after the marker on a
      header, after the marker and the indent on the lines under it. */
  function CountStart(r: string): nat
  {
    if IsHeaderText(r) then 4 else 8
  }

  /** The count a reader of the log takes from a logged text: the digits
      where the count starts. */
  function ReadCount(r: string): nat
  {
    if CountStart(r) <= |r| then DecimalValue(LeadingDigits(r[CountStart(r)..])) else 0
  }

  /** The text logged for a line (the log's `\n## ` marker first, the indent
      before every line under a header, then the count and an `x`). A reader
      tells the headers from the other lines and reads every count back. */
  function RenderLine(l: Line): (r: string)
    ensures |r| >= 4 && r[..4] == "\n## "
    ensures !l.Header? ==> |r| >= 8 && r[4..8] == DifferenceLineIndent
    ensures IsHeaderText(r) <==> l.Header?
    ensures ReadCount(r) == LineCount(l)
  {
    match l
    case Header(total, key) =>
      var rest := "x " + key.prefix + " " + key.file + "#" + NatToDecimal(key.line)
        + " <" + key.viewStateType + ", " + key.viewActionType + ", ...>";
      RenderedCount("\n## ", total, rest);
      "\n## " + NatToDecimal(total) + rest
    case DiffLine(count, text) =>
      var rest := "x " + text;
      RenderedCount("\n## " + DifferenceLineIndent, count, rest);
      "\n## " + DifferenceLineIndent + NatToDecimal(count) + rest
    case HiddenSummary(count) =>
      var rest := "x (Initial state) [diffs hidden]";
      RenderedCount("\n## " + DifferenceLineIndent, count, rest);
      "\n## " + DifferenceLineIndent + NatToDecimal(count) + rest
  }

  lemma RenderedCount(head: string, n: nat, rest: string)
    requires head == "\n## " || head == "\n## " + DifferenceLineIndent
    requires |rest| > 0 && rest[0] == 'x'
    ensures var r := head + NatToDecimal(n) + rest;
      && |r| >= 4 && r[..4] == "\n## "
      && (head != "\n## " ==> |r| >= 8 && r[4..8] == DifferenceLineIndent)
      && (IsHeaderText(r) <==> head == "\n## ")
      && ReadCount(r) == n
  {
    var d := NatToDecimal(n);
    var r := head + d + rest;
    assert r[..|head|] == head;
    assert r[|head|..] == d + rest;
    assert r[..4] == head[..4];
    if head == "\n## " {
      assert r[4] == d[0];
    } else {
      assert r[4..8] == head[4..8];
      assert r[4] == ' ';
    }
    LeadingDigitsOf(d, rest);
    DecimalRoundTrip(n);
  }

  /** The log output of one `printCounts` call, one entry per `log` call: an
      entry reads as a header exactly where the report has a header, and
      every entry reads back as the count of its line. */
  function LogLines(s: Store): (out: seq<string>)
    ensures |out| == |ReportLines(s)|
    ensures forall i :: 0 <= i < |out| ==> (IsHeaderText(out[i]) <==> ReportLines(s)[i].Header?)
    ensures forall i :: 0 <= i < |out| ==> ReadCount(out[i]) == LineCount(ReportLines(s)[i])
  {
    var lines := ReportLines(s);
    seq(|lines|, i requires 0 <= i < |lines| => RenderLine(lines[i]))
  }

  /** The counts read off the header entries of a log, in order. */
  function HeaderCounts(out: seq<string>): seq<nat>
  {
    if |out| == 0 then []
    else HeaderCounts(out[..|out| - 1]) + (if IsHeaderText(out[|out| - 1]) then [ReadCount(out[|out| - 1])] else [])
  }

  lemma {:induction false} HeaderCountsOfLog(lines: seq<Line>, out: seq<string>)
    requires |out| == |lines|
    requires forall i :: 0 <= i < |out| ==> (IsHeaderText(out[i]) <==> lines[i].Header?)
    requires forall i :: 0 <= i < |out| ==> ReadCount(out[i]) == LineCount(lines[i])
    ensures |HeaderCounts(out)| == |HeadersOf(lines)|
    ensures forall j :: 0 <= j < |HeaderCounts(out)| ==> HeaderCounts(out)[j] == LineCount(HeadersOf(lines)[j])
  {
    if |out| > 0 {
      var n := |out|;
      HeaderCountsOfLog(lines[..n - 1], out[..n - 1]);
    }
  }

  /** A reader of the log finds exactly one header entry per stored key, in
      insertion order, and reads off each the sum of that key's diff counts. */
  lemma LoggedHeaderCounts(s: Store)
    ensures |HeaderCounts(LogLines(s))| == |s|
    ensures forall i :: 0 <= i < |s| ==> HeaderCounts(LogLines(s))[i] == Total(s[i].1.differences)
  {
    HeaderCountsOfLog(ReportLines(s), LogLines(s));
    OneHeaderPerKey(s);
  }
}
