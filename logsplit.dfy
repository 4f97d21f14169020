/** `splitReportFromLogs`: cuts the scraped text of the logs view into the report
    preface (from the `Summary` line to the end of the `Files (N)` block) and the
    cleaned log that follows it. */
module LogSplit {
  import opened Text

  // ---------------------------------------------------------------------------
  // Character cleanup.

  /** U+0000..U+0009, U+000B..U+001F, U+007F and U+FFFD: what `stripCtl` deletes. */
  predicate IsControl(c: char) {
    c <= '\U{0009}' || ('\U{000B}' <= c <= '\U{001F}') || c == '\U{007F}' || c == '\U{FFFD}'
  }

  predicate NotControl(c: char) { !IsControl(c) }

  /** The lines of the input once carriage returns and control characters are gone. */
  function CleanedLines(raw: string): seq<string> {
    Lines(Keep(Keep(raw, NotCR), NotControl))
  }

  // ---------------------------------------------------------------------------
  // Line classifiers. All patterns are ASCII, so `i` is the ASCII case fold.

  /** The labels of the page's own buttons and tabs. */
  const CrumbWords: seq<string> :=
    ["ask", "code", "diff", "logs", "internet on", "copy", "archive", "share", "create pr", "view pr"]

  predicate IsCrumbWord(t: string) {
    exists k :: 0 <= k < |CrumbWords| && EqCI(t, CrumbWords[k])
  }

  /** `version`, then at least one whitespace, then digits to the end. */
  predicate IsVersionLabel(t: string) {
    StartsWithCI(t, "version") &&
    var d := TrimStart(t[7..]);
    |d| < |t| - 7 && d != [] && AllDigits(d)
  }

  /** `isCrumb`: the trimmed line is a button label or a `Version N` tab. */
  predicate IsCrumb(l: string) {
    var t := Trim(l);
    IsCrumbWord(t) || IsVersionLabel(t)
  }

  /** The characters that `.` does not match. */
  predicate IsLineTerminator(c: char) {
    c == '\n' || c == '\r' || c == '\U{2028}' || c == '\U{2029}'
  }

  /** `root@`, at least one character, `#` and a whitespace character, at the start. */
  predicate IsRootPrompt(l: string) {
    StartsWith(l, "root@") && exists k :: 0 <= k < |l| && PromptHashAt(l, k)
  }

  /** After `root@`, the characters up to index k are not line terminators, there is at
      least one of them, and `#` and a whitespace character follow. */
  predicate PromptHashAt(l: string, k: int) {
    5 < k < |l| - 1 && l[k] == '#' && IsSpace(l[k + 1]) &&
    forall i :: 5 <= i < k ==> !IsLineTerminator(l[i])
  }

  /** `isShellMarker`: a root prompt, or `shell` alone on its line. */
  predicate IsShellMarker(l: string) {
    IsRootPrompt(l) || (StartsWithCI(l, "shell") && AllSpace(l[5..]))
  }

  /** The word w occurs at index i of l between two word boundaries. */
  predicate WordAt(l: string, w: string, i: int) {
    OccursAt(l, w, i) && (i == 0 || !IsWordChar(l[i - 1])) && BoundaryAt(l, i + |w|)
  }

  const CommandWords: seq<string> := ["node", "git", "bash", "pnpm", "npm", "yarn"]

  const UiWords: seq<string> := ["Ask", "Code", "Diff", "Logs"]

  /** `isUsefulCmd`: a package-manager or git word somewhere, and no UI label at the start
      (both case-sensitive). */
  predicate IsUsefulCmd(l: string) {
    (exists k, i :: 0 <= k < |CommandWords| && 0 <= i <= |l| && WordAt(l, CommandWords[k], i)) &&
    !(exists k :: 0 <= k < |UiWords| && StartsWith(l, UiWords[k]) && BoundaryAt(l, |UiWords[k]|))
  }

  /** `Summary` alone on its line, up to case and surrounding whitespace. */
  predicate IsSummaryLine(l: string) {
    EqCI(Trim(l), "summary")
  }

  /** `Files`, optional whitespace, then `(digits)`, alone on its line, up to case. */
  predicate IsFilesLine(l: string) {
    var t := Trim(l);
    StartsWithCI(t, "files") &&
    var u := TrimStart(t[5..]);
    |u| >= 3 && u[0] == '(' && u[|u| - 1] == ')' && AllDigits(u[1..|u| - 1])
  }

  /** A trimmed line of digits followed by `x`, such as `3x`. */
  predicate IsCountLine(t: string) {
    |t| >= 2 && AllDigits(t[..|t| - 1]) && Lower(t[|t| - 1]) == 'x'
  }

  /** A trimmed line starting `worked`, whitespace, then the word `for`. */
  predicate IsWorkedLine(t: string) {
    StartsWithCI(t, "worked") &&
    var u := t[6..];
    var v := TrimStart(u);
    |v| < |u| && StartsWithWordCI(v, "for")
  }

  predicate IsImplementLine(t: string) {
    StartsWithWordCI(t, "implement")
  }

  /** An environment-setup line. */
  predicate IsEnvLine(l: string) {
    var t := Trim(l);
    EqCI(t, "environment setup") || StartsWithCI(t, "[setup]") ||
    ContainsCI(l, "configuring language runtimes")
  }

  /** A line that ends the `Files (N)` block of the report. */
  predicate IsStopLine(l: string) {
    var t := Trim(l);
    IsCrumb(l) || IsShellMarker(l) || IsEnvLine(l) ||
    IsCountLine(t) || IsWorkedLine(t) || IsImplementLine(t)
  }

  /** What ends the report when there is no `Files (N)` line. */
  predicate IsCrumbOrShell(l: string) {
    IsCrumb(l) || IsShellMarker(l)
  }

  /** The lines dropped from the front of the log: blank, crumb, or `Implement` first. */
  predicate IsPrefaceLine(l: string) {
    IsBlank(l) || IsCrumb(l) || StartsWithWordCI(l, "implement")
  }

  const AgentOpenings: seq<string> :=
    ["i need to", "i'll", "i will", "let me", "we need to", "i should", "first,", "first step", "step 1"]

  const AgentTopics: seq<string> := ["instructions", "guide", "locate", "search", "check"]

  /** `isAgentStart`: an opening phrase, and a mention of agents or of one of the topics. */
  predicate IsAgentStart(l: string) {
    IsAgentStep(Trim(l))
  }

  /** The agent-step test on a trimmed line. */
  predicate IsAgentStep(t: string) {
    t != [] &&
    (exists k :: 0 <= k < |AgentOpenings| && StartsWithCI(t, AgentOpenings[k])) &&
    (ContainsCI(t, "agents.md") || (exists i :: 0 <= i <= |t| && WordAtCI(t, "agents", i)) ||
     exists k :: 0 <= k < |AgentTopics| && ContainsCI(t, AgentTopics[k]))
  }

  /** The word w occurs at index i of l, up to case, between two word boundaries. */
  predicate WordAtCI(l: string, w: string, i: int) {
    OccursCIAt(l, w, i) && (i == 0 || !IsWordChar(l[i - 1])) && BoundaryAt(l, i + |w|)
  }

  // ---------------------------------------------------------------------------
  // The specification of the split, step by step.

  /** The end index the `Files (N)` loop reaches when it is at line k with end e; blank
      and stop are its tests for a blank line and for a line that ends the report. */
  function FilesScan(lines: seq<string>, k: nat, e: nat, blank: string -> bool, stop: string -> bool): (r: nat)
    requires e <= k <= |lines|
    ensures e <= r <= |lines|
    decreases |lines| - k
  {
    if k == |lines| then e
    else if blank(lines[k]) then FilesScan(lines, k + 1, k, blank, stop)
    else if stop(lines[k]) then k
    else FilesScan(lines, k + 1, k + 1, blank, stop)
  }

  /** Where the report ends, given the index of its `Summary` line. */
  function ReportEnd(lines: seq<string>, iSummary: nat): (e: nat)
    requires iSummary < |lines|
    ensures iSummary < e <= |lines|
  {
    var iFiles := FindFirst(lines, iSummary + 1, IsFilesLine);
    if iFiles != -1 then FilesScan(lines, iFiles + 1, iFiles + 1, IsBlank, IsStopLine)
    else
      var c := FindFirst(lines, iSummary + 1, IsCrumbOrShell);
      if c == -1 then |lines| else c
  }

  /** The `rest.shift()` loop: the index of the first line at or after i that is not a
      preface line. */
  function SkipPreface(lines: seq<string>, i: nat): (r: nat)
    requires i <= |lines|
    ensures i <= r <= |lines|
    decreases |lines| - i
  {
    if i < |lines| && IsPrefaceLine(lines[i]) then SkipPreface(lines, i + 1) else i
  }

  /** With the log starting at line d: move to the first agent step when it is less than
      120 lines in (and not the first line), else to the first useful command when it is
      less than 50 lines in (and not the first line). */
  function PickStart(lines: seq<string>, d: nat): (r: nat)
    requires d <= |lines|
    ensures d <= r <= |lines|
  {
    var a := FindFirst(lines, d, IsAgentStart);
    if a != -1 && 0 < a - d < 120 then a
    else
      var u := FindFirst(lines, d, IsUsefulCmd);
      if u != -1 && 0 < u - d < 50 then u else d
  }

  /** The index of the first log line after a report that ends at index e. */
  function LogStart(lines: seq<string>, e: nat): (r: nat)
    requires e <= |lines|
    ensures e <= r <= |lines|
  {
    PickStart(lines, SkipPreface(lines, e))
  }

  /** `cleanLogs(s)`: crumb lines removed, runs of 3+ newlines cut to 2, trimmed. */
  function CleanLogs(s: string): string {
    Trim(CollapseNewlines(Join(Without(Lines(s), IsCrumb), "\n")))
  }

  /** `splitReportFromLogs(raw)` as (report, logs); "" stands for every falsy input. */
  function Split(raw: string): (string, string) {
    if raw == "" then ("", "")
    else
      var lines := CleanedLines(raw);
      var iSummary := FindFirst(lines, 0, IsSummaryLine);
      if iSummary == -1 then ("", CleanLogs(Join(lines, "\n")))
      else
        var e := ReportEnd(lines, iSummary);
        (Trim(Join(lines[iSummary..e], "\n")), CleanLogs(Join(lines[LogStart(lines, e)..], "\n")))
  }

  // ---------------------------------------------------------------------------
  // The procedure.

  method SplitReportFromLogs(raw: string) returns (report: string, logs: string)
    ensures (report, logs) == Split(raw)
    ensures raw == "" ==> report == "" && logs == ""
  {
    if raw == "" {
      return "", "";
    }
    var lines := CleanedLines(raw);
    var iSummary := FindFirst(lines, 0, IsSummaryLine);
    if iSummary == -1 {
      return "", CleanLogs(Join(lines, "\n"));
    }
    var end := FindReportEnd(lines, iSummary);
    report := Trim(Join(lines[iSummary..end], "\n"));
    var first := FindLogStart(lines, end);
    logs := CleanLogs(Join(lines[first..], "\n"));
  }

  /** Where the report ends: after the Files block, or at the first crumb or shell
      marker when there is no Files line. */
  method FindReportEnd(lines: seq<string>, iSummary: nat) returns (end: nat)
    requires iSummary < |lines|
    ensures end == ReportEnd(lines, iSummary)
  {
    var iFiles := FindFirst(lines, iSummary + 1, IsFilesLine);
    if iFiles != -1 {
      end := ScanFilesBlock(lines, iFiles);
      ReportEndCases(lines, iSummary);
    } else {
      var found := FindCrumbOrShell(lines, iSummary + 1);
      end := if found == -1 then |lines| else found;
      ReportEndCases(lines, iSummary);
    }
  }

  lemma ReportEndCases(lines: seq<string>, iSummary: nat)
    requires iSummary < |lines|
    ensures var iFiles := FindFirst(lines, iSummary + 1, IsFilesLine);
      var c := FindFirst(lines, iSummary + 1, IsCrumbOrShell);
      ReportEnd(lines, iSummary) ==
        if iFiles != -1 then FilesScan(lines, iFiles + 1, iFiles + 1, IsBlank, IsStopLine)
        else if c == -1 then |lines| else c
  {
  }

  /** The loop that consumes the Files block, stopping at the first marker line. */
  method ScanFilesBlock(lines: seq<string>, iFiles: nat) returns (end: nat)
    requires iFiles < |lines|
    ensures end == FilesScan(lines, iFiles + 1, iFiles + 1, IsBlank, IsStopLine)
  {
    end := iFiles + 1;
    var k := end;
    while k < |lines|
      invariant iFiles + 1 <= end <= k <= |lines|
      invariant FilesScan(lines, k, end, IsBlank, IsStopLine) == FilesScan(lines, iFiles + 1, iFiles + 1, IsBlank, IsStopLine)
    {
      var ln := lines[k];
      if IsBlank(ln) {
        end := k;
        k := k + 1;
        continue;
      }
      if IsStopLine(ln) {
        end := k;
        break;
      }
      end := k + 1;
      k := k + 1;
    }
  }

  /** The fallback loop: the first crumb or shell marker at or after `from`, or -1. */
  method FindCrumbOrShell(lines: seq<string>, from: nat) returns (found: int)
    requires from <= |lines|
    ensures found == FindFirst(lines, from, IsCrumbOrShell)
  {
    found := -1;
    var k := from;
    while k < |lines|
      invariant from <= k <= |lines|
      invariant FindFirst(lines, k, IsCrumbOrShell) == FindFirst(lines, from, IsCrumbOrShell)
    {
      if IsCrumbOrShell(lines[k]) {
        found := k;
        break;
      }
      k := k + 1;
    }
  }

  /** The shift loop and the choice of the first log line; `rest` is `lines[first..]`. */
  method FindLogStart(lines: seq<string>, end: nat) returns (first: nat)
    requires end <= |lines|
    ensures first == LogStart(lines, end)
  {
    first := end;
    while first < |lines| && IsPrefaceLine(lines[first])
      invariant end <= first <= |lines|
      invariant SkipPreface(lines, first) == SkipPreface(lines, end)
    {
      first := first + 1;
    }
    var d := first;
    var idxAgent := FindFirst(lines, d, IsAgentStart);
    if idxAgent != -1 && 0 < idxAgent - d < 120 {
      first := idxAgent;
    } else {
      var firstUseful := FindFirst(lines, d, IsUsefulCmd);
      if firstUseful != -1 && 0 < firstUseful - d < 50 {
        first := firstUseful;
      }
    }
  }

  // ---------------------------------------------------------------------------
  // Properties.

  /** Whether a line is a crumb depends only on the trimmed line, and "" is none. */
  lemma CrumbTrimInvariant()
    ensures TrimInvariant(IsCrumb)
  {
    forall l
      ensures IsCrumb(l) == IsCrumb(Trim(l))
    {
      TrimIdempotent(l);
    }
    assert !IsCrumb("") by {
      assert Trim("") == "";
      forall k | 0 <= k < |CrumbWords|
        ensures !EqCI("", CrumbWords[k])
      {
        assert |CrumbWords[k]| > 0;
      }
    }
  }

  /** `cleanLogs` leaves no crumb line, no run of three newlines and no outer whitespace. */
  lemma CleanLogsSpec(s: string)
    ensures var r := CleanLogs(s);
      NoLineSatisfies(r, IsCrumb) && NoTripleNewline(r) && IsTrimmed(r)
  {
    var ls := Without(Lines(s), IsCrumb);
    var j := Join(ls, "\n");
    WithoutSpec(Lines(s), IsCrumb);
    CrumbTrimInvariant();
    assert NoLineSatisfies(j, IsCrumb) by {
      if ls == [] {
        assert Lines(j) == [""];
      } else {
        forall k | 0 <= k < |ls|
          ensures '\n' !in ls[k]
        {
          assert ls[k] in ls;
        }
        LinesOfJoin(ls);
      }
    }
    CollapseKeepsNoLine(j, IsCrumb);
    TrimKeepsNoLine(CollapseNewlines(j), IsCrumb);
    CollapseNoTriple(j);
    TrimNoTriple(CollapseNewlines(j));
  }

  /** `cleanLogs` adds no character other than the newline. */
  lemma CleanLogsCharsOK(s: string, ok: char -> bool)
    requires CharsOK(s, ok) && ok('\n')
    ensures CharsOK(CleanLogs(s), ok)
  {
    var ls := Without(Lines(s), IsCrumb);
    LinesCharsOK(s, ok);
    WithoutCharsOK(Lines(s), IsCrumb, ok);
    assert CharsOK("\n", ok);
    JoinCharsOK(ls, "\n", ok);
    CollapseCharsOK(Join(ls, "\n"), ok);
    TrimCharsOK(CollapseNewlines(Join(ls, "\n")), ok);
  }

  /** The Files-block loop ends at a marker line, at the end of the input, or on a final
      blank line, and every non-blank line it walked over is not a marker. */
  lemma {:induction false} FilesScanSpec(lines: seq<string>, lo: nat, k: nat, e: nat,
                                         blank: string -> bool, stop: string -> bool)
    requires lo < e <= k <= |lines|
    requires k == e || (k == e + 1 && blank(lines[e]))
    requires forall m :: lo < m < k ==> blank(lines[m]) || !stop(lines[m])
    ensures var r := FilesScan(lines, k, e, blank, stop);
      (forall m :: lo < m < r ==> blank(lines[m]) || !stop(lines[m])) &&
      (r == |lines| || (!blank(lines[r]) && stop(lines[r])) ||
       (r == |lines| - 1 && blank(lines[r])))
    decreases |lines| - k
  {
    if k < |lines| {
      if blank(lines[k]) {
        FilesScanSpec(lines, lo, k + 1, k, blank, stop);
      } else if !stop(lines[k]) {
        FilesScanSpec(lines, lo, k + 1, k + 1, blank, stop);
      }
    }
  }

  /** After a `Files (N)` line the report takes in every line up to the first non-blank
      marker line, or up to the end of the input, less a final blank line. */
  lemma ReportEndAfterFiles(lines: seq<string>, iSummary: nat)
    requires iSummary < |lines|
    requires FindFirst(lines, iSummary + 1, IsFilesLine) != -1
    ensures var iF := FindFirst(lines, iSummary + 1, IsFilesLine);
      var e := ReportEnd(lines, iSummary);
      iF < e &&
      (forall m :: iF < m < e ==> IsBlank(lines[m]) || !IsStopLine(lines[m])) &&
      (e == |lines| || (!IsBlank(lines[e]) && IsStopLine(lines[e])) ||
       (e == |lines| - 1 && IsBlank(lines[e])))
  {
    var iF := FindFirst(lines, iSummary + 1, IsFilesLine);
    ReportEndCases(lines, iSummary);
    assert ReportEnd(lines, iSummary) == FilesScan(lines, iF + 1, iF + 1, IsBlank, IsStopLine);
    FilesScanSpec(lines, iF, iF + 1, iF + 1, IsBlank, IsStopLine);
  }

  /** The shift loop drops exactly the leading run of blank, crumb and `Implement` lines. */
  lemma {:induction false} SkipPrefaceSpec(lines: seq<string>, i: nat)
    requires i <= |lines|
    ensures var r := SkipPreface(lines, i);
      (forall m :: i <= m < r ==> IsPrefaceLine(lines[m])) &&
      (r == |lines| || !IsPrefaceLine(lines[r]))
    decreases |lines| - i
  {
    if i < |lines| && IsPrefaceLine(lines[i]) {
      SkipPrefaceSpec(lines, i + 1);
    }
  }

  /** The log start moves to the first agent step when that is 1 to 119 lines in; failing
      that, to the first useful command when that is 1 to 49 lines in; otherwise it stays
      where it was. Each target is the first line of its kind at or after d. */
  lemma PickStartSpec(lines: seq<string>, d: nat)
    requires d <= |lines|
    ensures var r := PickStart(lines, d);
      var a := FindFirst(lines, d, IsAgentStart);
      var u := FindFirst(lines, d, IsUsefulCmd);
      var agent := a != -1 && 0 < a - d < 120;
      var useful := u != -1 && 0 < u - d < 50;
      (agent ==> r == a && IsAgentStart(lines[a]) && forall m :: d <= m < a ==> !IsAgentStart(lines[m])) &&
      (!agent && useful ==> r == u && IsUsefulCmd(lines[u]) && forall m :: d <= m < u ==> !IsUsefulCmd(lines[m])) &&
      (!agent && !useful ==> r == d)
  {
    FindFirstSpec(lines, d, IsAgentStart);
    FindFirstSpec(lines, d, IsUsefulCmd);
  }

  /** With no `Summary` line the report is empty and the log is the cleaned whole text. */
  lemma SplitWithoutSummary(raw: string)
    requires raw != ""
    requires forall k :: 0 <= k < |CleanedLines(raw)| ==> !IsSummaryLine(CleanedLines(raw)[k])
    ensures Split(raw) == ("", CleanLogs(Keep(Keep(raw, NotCR), NotControl)))
  {
    var c := Keep(Keep(raw, NotCR), NotControl);
    FindFirstSpec(CleanedLines(raw), 0, IsSummaryLine);
    JoinOfLines(c);
  }

  /** The trimmed join of lines that start with a `Summary` line starts with "summary". */
  lemma ReportStartsWithSummary(ls: seq<string>)
    requires |ls| >= 1 && IsSummaryLine(ls[0])
    ensures StartsWithCI(Trim(Join(ls, "\n")), "summary")
  {
    var t := Trim(ls[0]);
    var tail := JoinHead(ls, "\n");
    assert t != [] by {
      assert |t| == 7;
    }
    TrimPrefix(ls[0], tail);
    PrefixStartsWithCI(t, Trim(Join(ls, "\n")), "summary");
  }

  /** A join of lines starts with its first line. */
  lemma JoinHead(ls: seq<string>, sep: string) returns (tail: string)
    requires |ls| >= 1
    ensures Join(ls, sep) == ls[0] + tail
  {
    tail := if |ls| == 1 then "" else sep + Join(ls[1..], sep);
  }

  /** A string that starts with a case-insensitive copy of p starts with p. */
  lemma PrefixStartsWithCI(t: string, r: string, p: string)
    requires t <= r && EqCI(t, p)
    ensures StartsWithCI(r, p)
  {
    assert r[..|p|] == t;
  }

  /** When line iS is the first `Summary` line, the report runs from it up to the end of
      the report; it starts with "Summary", takes in the first `Files (N)` line after it,
      and the log is cleaned from lines at or after that end, so that no line before the
      `Summary` line reaches either output. */
  lemma SplitWithSummary(raw: string, lines: seq<string>, iS: nat)
    requires raw != "" && lines == CleanedLines(raw)
    requires iS < |lines| && IsSummaryLine(lines[iS])
    requires forall k :: 0 <= k < iS ==> !IsSummaryLine(lines[k])
    ensures var e := ReportEnd(lines, iS);
      var iF := FindFirst(lines, iS + 1, IsFilesLine);
      Split(raw).0 == Trim(Join(lines[iS..e], "\n")) &&
      StartsWithCI(Split(raw).0, "summary") &&
      (iF != -1 ==> iS < iF < e && IsFilesLine(lines[iF])) &&
      Split(raw).1 == CleanLogs(Join(lines[LogStart(lines, e)..], "\n"))
  {
    assert iS == FindFirst(lines, 0, IsSummaryLine) by {
      FindFirstSpec(lines, 0, IsSummaryLine);
    }
    var e := ReportEnd(lines, iS);
    var a := LogStart(lines, e);
    SplitShape(raw, lines, iS, e, a);
    assert StartsWithCI(Trim(Join(lines[iS..e], "\n")), "summary") by {
      ReportStartsWithSummary(lines[iS..e]);
    }
    var iF := FindFirst(lines, iS + 1, IsFilesLine);
    assert iF != -1 ==> iS < iF < e && IsFilesLine(lines[iF]) by {
      FindFirstSpec(lines, iS + 1, IsFilesLine);
      if iF != -1 {
        ReportEndAfterFiles(lines, iS);
      }
    }
  }

  lemma SplitShape(raw: string, lines: seq<string>, iS: nat, e: nat, a: nat)
    requires raw != "" && lines == CleanedLines(raw)
    requires iS == FindFirst(lines, 0, IsSummaryLine) && iS < |lines|
    requires e == ReportEnd(lines, iS) && a == LogStart(lines, e)
    ensures Split(raw) == (Trim(Join(lines[iS..e], "\n")), CleanLogs(Join(lines[a..], "\n")))
  {
  }

  lemma SplitShapeNone(raw: string, lines: seq<string>)
    requires raw != "" && lines == CleanedLines(raw)
    requires FindFirst(lines, 0, IsSummaryLine) == -1
    ensures Split(raw) == ("", CleanLogs(Join(lines, "\n")))
  {
  }

  /** Every cleaned line is free of control characters. */
  lemma CleanedLinesOK(raw: string)
    ensures AllCharsOK(CleanedLines(raw), NotControl)
  {
    var c := Keep(Keep(raw, NotCR), NotControl);
    KeepCharsOK(Keep(raw, NotCR), NotControl);
    LinesCharsOK(c, NotControl);
  }

  /** Joined clean lines stay clean through trimming and through `cleanLogs`. */
  lemma JoinedLinesClean(ls: seq<string>)
    requires AllCharsOK(ls, NotControl)
    ensures CharsOK(Trim(Join(ls, "\n")), NotControl)
    ensures var r := CleanLogs(Join(ls, "\n"));
      CharsOK(r, NotControl) && IsTrimmed(r) && NoLineSatisfies(r, IsCrumb) && NoTripleNewline(r)
  {
    assert NotControl('\n');
    assert CharsOK("\n", NotControl);
    JoinCharsOK(ls, "\n", NotControl);
    TrimCharsOK(Join(ls, "\n"), NotControl);
    CleanLogsCharsOK(Join(ls, "\n"), NotControl);
    CleanLogsSpec(Join(ls, "\n"));
  }

  /** Both outputs are free of control characters and trimmed; the log has no crumb line
      and no run of three newlines. */
  predicate CleanOutputs(report: string, logs: string) {
    CharsOK(report, NotControl) && IsTrimmed(report) &&
    CharsOK(logs, NotControl) && IsTrimmed(logs) &&
    NoLineSatisfies(logs, IsCrumb) && NoTripleNewline(logs)
  }

  /** Neither output holds a control character; the log has no crumb line and no run of
      three newlines, and both are trimmed. */
  lemma SplitClean(raw: string)
    ensures CleanOutputs(Split(raw).0, Split(raw).1)
  {
    if raw == "" {
      assert Split(raw) == ("", "");
      assert CleanOutputs("", "") by {
        assert Lines("") == [""];
        CrumbTrimInvariant();
        assert NoTripleNewline("");
      }
    } else {
      var lines := CleanedLines(raw);
      CleanedLinesOK(raw);
      var iS := FindFirst(lines, 0, IsSummaryLine);
      if iS == -1 {
        SplitShapeNone(raw, lines);
        JoinedLinesClean(lines);
        assert CleanOutputs("", CleanLogs(Join(lines, "\n")));
      } else {
        var e := ReportEnd(lines, iS);
        var a := LogStart(lines, e);
        SplitShape(raw, lines, iS, e, a);
        assert CleanOutputs(Trim(Join(lines[iS..e], "\n")), CleanLogs(Join(lines[a..], "\n"))) by {
          SplitPiecesClean(lines, iS, e, a);
        }
      }
    }
  }

  lemma SplitPiecesClean(lines: seq<string>, iS: nat, e: nat, a: nat)
    requires AllCharsOK(lines, NotControl)
    requires iS <= e <= |lines| && a <= |lines|
    ensures CleanOutputs(Trim(Join(lines[iS..e], "\n")), CleanLogs(Join(lines[a..], "\n")))
  {
    AllCharsOKSlice(lines, iS, e, NotControl);
    JoinedLinesClean(lines[iS..e]);
    AllCharsOKSlice(lines, a, |lines|, NotControl);
    assert lines[a..|lines|] == lines[a..];
    JoinedLinesClean(lines[a..]);
  }

  // ---------------------------------------------------------------------------
  // A worked example: a report of three lines, a blank line, then a shell prompt.

  /** The lines `Summary`, `Hello`, `Files (2)`, a blank line, `root@host# ls` and
      `more text`. */
  predicate IsExample(ls: seq<string>) {
    |ls| == 6 && ls[0] == "Summary" && ls[1] == "Hello" && ls[2] == "Files (2)" &&
    ls[3] == "" && ls[4] == "root@host# ls" && ls[5] == "more text"
  }

  /** Every example line is printable ASCII. */
  lemma ExamplePrintable(ls: seq<string>)
    requires IsExample(ls)
    ensures forall k, i :: 0 <= k < |ls| && 0 <= i < |ls[k]| ==> ' ' <= ls[k][i] <= '~'
  {
  }

  lemma ExampleCleanedLines(ls: seq<string>)
    requires IsExample(ls)
    ensures CleanedLines(Join(ls, "\n")) == ls
  {
    var raw := Join(ls, "\n");
    ExamplePrintable(ls);
    assert AllCharsOK(ls, NotControl);
    assert CharsOK("\n", NotControl);
    JoinCharsOK(ls, "\n", NotControl);
    assert CharsOK(raw, NotCR);
    KeepAll(raw, NotCR);
    KeepAll(raw, NotControl);
    LinesOfJoin(ls);
  }

  lemma ExampleSummary()
    ensures IsSummaryLine("Summary")
  {
    TrimNoop("Summary");
  }

  lemma ExampleNotFiles()
    ensures !IsFilesLine("Hello")
  {
    TrimNoop("Hello");
    assert Lower('H') != Lower('F');
  }

  lemma ExampleFiles()
    ensures IsFilesLine("Files (2)")
  {
    var t := "Files (2)";
    FilesHead(t);
    FilesTail(t);
  }

  lemma FilesHead(t: string)
    requires t == "Files (2)"
    ensures Trim(t) == t && StartsWithCI(t, "files")
  {
    TrimNoop(t);
  }

  lemma FilesTail(t: string)
    requires t == "Files (2)"
    ensures TrimStart(t[5..]) == "(2)"
  {
    var v := t[5..];
    assert v == " (2)";
    var u := v[1..];
    assert u == "(2)";
    assert IsSpace(v[0]);
    assert TrimStart(v) == TrimStart(u);
    assert !IsSpace(u[0]);
    assert TrimStart(u) == u;
  }

  lemma ExamplePrompt()
    ensures !IsBlank("root@host# ls") && IsStopLine("root@host# ls")
  {
    var l := "root@host# ls";
    assert PromptHashAt(l, 9);
    assert IsRootPrompt(l);
  }

  /** A line can be a crumb only if its first character is one that a crumb word or
      `version` starts with. */
  lemma NotCrumbByHead(l: string)
    requires l != [] && IsTrimmed(l) && Lower(l[0]) !in "acdilsv"
    ensures !IsCrumb(l)
  {
    TrimNoop(l);
    forall k | 0 <= k < |CrumbWords|
      ensures !EqCI(l, CrumbWords[k])
    {
      assert CrumbWords[k] != [] && CrumbWords[k][0] in "acdilsv";
    }
  }

  /** An agent step starts with one of a few letters. */
  lemma NotAgentByHead(l: string)
    requires l != [] && IsTrimmed(l) && Lower(l[0]) !in "ilwfs"
    ensures !IsAgentStart(l)
  {
    TrimNoop(l);
    forall k | 0 <= k < |AgentOpenings|
      ensures !StartsWithCI(l, AgentOpenings[k])
    {
      assert AgentOpenings[k] != [] && AgentOpenings[k][0] in "ilwfs";
    }
  }

  /** A useful command needs one of the first letters of the command words. */
  lemma NotUsefulByChars(l: string)
    requires forall j :: 0 <= j < |l| ==> l[j] !in "ngbpy"
    ensures !IsUsefulCmd(l)
  {
    forall k, i | 0 <= k < |CommandWords| && 0 <= i <= |l|
      ensures !OccursAt(l, CommandWords[k], i)
    {
      var w := CommandWords[k];
      assert w != [] && w[0] in "ngbpy";
    }
  }

  /** A trimmed line that starts with none of the letters below and holds none of the
      first letters of the command words is kept as an ordinary log line. */
  lemma PlainLine(l: string)
    requires l != [] && IsTrimmed(l) && Lower(l[0]) !in "acdfilsvw"
    requires forall j :: 0 <= j < |l| ==> l[j] !in "ngbpy"
    ensures !IsCrumb(l) && !IsPrefaceLine(l) && !IsAgentStart(l) && !IsUsefulCmd(l)
  {
    NotCrumbByHead(l);
    NotAgentByHead(l);
    NotUsefulByChars(l);
  }

  lemma ExampleLogLine(l: string)
    requires l == "root@host# ls" || l == "more text"
    ensures !IsCrumb(l) && !IsPrefaceLine(l) && !IsAgentStart(l) && !IsUsefulCmd(l)
  {
    PlainLine(l);
  }

  /** The report ends on the blank line before the shell prompt: the scan of the Files
      block stops there. */
  lemma ExampleFilesBlock(ls: seq<string>)
    requires IsExample(ls)
    ensures |ls| == 6 && FindFirst(ls, 1, IsFilesLine) == 2
    ensures FilesScan(ls, 3, 3, IsBlank, IsStopLine) == 4
  {
    ExampleFilesAt(ls);
    ExampleScan(ls);
  }

  lemma ExampleFilesAt(ls: seq<string>)
    requires IsExample(ls)
    ensures FindFirst(ls, 1, IsFilesLine) == 2
  {
    ExampleNotFiles();
    ExampleFiles();
  }

  lemma ExampleScan(ls: seq<string>)
    requires IsExample(ls)
    ensures FilesScan(ls, 3, 3, IsBlank, IsStopLine) == 4
  {
    ExamplePrompt();
    assert IsBlank(ls[3]);
  }

  lemma ReportEndFromFiles(lines: seq<string>, iS: nat, iF: nat, e: nat)
    requires iS < |lines| && iF == FindFirst(lines, iS + 1, IsFilesLine) && iF != -1
    requires iF + 1 <= |lines| && e == FilesScan(lines, iF + 1, iF + 1, IsBlank, IsStopLine)
    ensures ReportEnd(lines, iS) == e
  {
  }

  /** The log starts at the shell prompt. */
  lemma ExampleLogStart(ls: seq<string>)
    requires IsExample(ls)
    ensures LogStart(ls, 4) == 4
  {
    ExampleLogLine(ls[4]);
    ExampleLogLine(ls[5]);
    assert SkipPreface(ls, 4) == 4;
    assert FindFirst(ls, 4, IsAgentStart) == -1;
    assert FindFirst(ls, 4, IsUsefulCmd) == -1;
  }

  /** The report: the first three lines, without the blank line that follows them. */
  lemma ExampleReport(ls: seq<string>)
    requires IsExample(ls)
    ensures Trim(Join(ls[0..4], "\n")) == Join(ls[..3], "\n")
  {
    var head := ls[..3];
    var j := Join(head, "\n");
    assert Join(ls[0..4], "\n") == j + ['\n'] by {
      assert ls[0..4] == head + [""];
      JoinSnoc(head, "", "\n");
    }
    TrimOfSpaceSnoc(j, '\n');
    JoinFirst(head, "\n");
    JoinLast(head, "\n");
    assert head[0][0] == 'S' && head[2][8] == ')';
    TrimNoop(j);
  }

  /** Cleaning a cleaned log changes nothing. */
  lemma CleanLogsIdempotent(s: string)
    ensures CleanLogs(CleanLogs(s)) == CleanLogs(s)
  {
    var c := CleanLogs(s);
    var ls := Lines(c);
    CleanLogsSpec(s);
    JoinOfLines(c);
    forall k | 0 <= k < |ls|
      ensures !IsCrumb(ls[k])
    {
      assert ls[k] in ls;
    }
    CleanNoop(ls, IsCrumb);
  }

  /** The cleanup steps of `cleanLogs`, with any line filter, leave alone a trimmed join of
      lines that the filter keeps and that has no run of three newlines. */
  lemma CleanNoop(ls: seq<string>, bad: string -> bool)
    requires |ls| >= 1
    requires forall k :: 0 <= k < |ls| ==> '\n' !in ls[k] && !bad(ls[k])
    requires NoTripleNewline(Join(ls, "\n")) && IsTrimmed(Join(ls, "\n"))
    ensures Trim(CollapseNewlines(Join(Without(Lines(Join(ls, "\n")), bad), "\n"))) == Join(ls, "\n")
  {
    var j := Join(ls, "\n");
    LinesOfJoin(ls);
    WithoutNone(ls, bad);
    CollapseNoop(j);
    TrimNoop(j);
  }

  /** The log: the last two lines, unchanged. */
  lemma ExampleLogs(ls: seq<string>)
    requires IsExample(ls)
    ensures CleanLogs(Join(ls[4..], "\n")) == Join(ls[4..], "\n")
  {
    ExampleTail(ls);
    CleanNoop(ls[4..], IsCrumb);
  }

  lemma ExampleTail(ls: seq<string>)
    requires IsExample(ls)
    ensures var tail := ls[4..];
      (forall k :: 0 <= k < |tail| ==> '\n' !in tail[k] && !IsCrumb(tail[k])) &&
      NoTripleNewline(Join(tail, "\n")) && IsTrimmed(Join(tail, "\n"))
  {
    var tail := ls[4..];
    forall k | 0 <= k < |tail|
      ensures '\n' !in tail[k] && !IsCrumb(tail[k])
    {
      ExampleNoNewline(ls);
      ExampleTailNotCrumb(ls);
      assert tail[k] == ls[4 + k];
      assert k == 0 || k == 1;
    }
    ExampleTailJoin(ls);
  }

  lemma ExampleTailNotCrumb(ls: seq<string>)
    requires IsExample(ls)
    ensures !IsCrumb(ls[4]) && !IsCrumb(ls[5])
  {
    NotCrumbByHead(ls[4]);
    NotCrumbByHead(ls[5]);
  }

  lemma ExampleNoNewline(ls: seq<string>)
    requires IsExample(ls)
    ensures forall k :: 0 <= k < |ls| ==> '\n' !in ls[k]
  {
    ExamplePrintable(ls);
  }

  lemma ExampleTailJoin(ls: seq<string>)
    requires IsExample(ls)
    ensures NoTripleNewline(Join(ls[4..], "\n")) && IsTrimmed(Join(ls[4..], "\n"))
  {
    var tail := ls[4..];
    var j := Join(tail, "\n");
    assert NoTripleNewline(j) by {
      assert tail[1..] == [tail[1]];
      assert Join(tail[1..], "\n") == tail[1];
      assert j == tail[0] + "\n" + tail[1];
      ExampleNoNewline(ls);
      JoinTwoNoTriple(tail[0], tail[1]);
    }
    assert IsTrimmed(j) by {
      JoinFirst(tail, "\n");
      JoinLast(tail, "\n");
      assert tail[0][0] == 'r' && tail[1][8] == 't';
    }
  }

  /** `"Summary\nHello\nFiles (2)\n\nroot@host# ls\nmore text"` splits into the report
      `"Summary\nHello\nFiles (2)"` and the log `"root@host# ls\nmore text"`. */
  lemma ExampleSplit(ls: seq<string>)
    requires IsExample(ls)
    ensures Split(Join(ls, "\n")) == (Join(ls[..3], "\n"), Join(ls[4..], "\n"))
  {
    var raw := Join(ls, "\n");
    JoinFirst(ls, "\n");
    ExampleIndices(ls);
    SplitShape(raw, ls, 0, 4, 4);
    ExampleReport(ls);
    ExampleLogs(ls);
  }

  lemma ExampleIndices(ls: seq<string>)
    requires IsExample(ls)
    ensures CleanedLines(Join(ls, "\n")) == ls
    ensures FindFirst(ls, 0, IsSummaryLine) == 0
    ensures ReportEnd(ls, 0) == 4 && LogStart(ls, 4) == 4
  {
    ExampleCleanedLines(ls);
    ExampleSummary();
    ExampleFilesBlock(ls);
    ReportEndFromFiles(ls, 0, 2, 4);
    ExampleLogStart(ls);
  }
}
