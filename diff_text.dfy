/** `normalizeDiffText`: repairs patch text copied from a rendered diff view, where
    each line number sits on a line of its own above the `+`/`-` line it numbers. */
module DiffText {
  import opened Text

  /** `/^\s*\d+\s*$/` */
  predicate IsNumberLine(l: string) {
    var t := Trim(l); t != [] && AllDigits(t)
  }

  /** `s.replace(/\r/g, '')` */
  function RemoveCR(s: string): (r: string)
    ensures '\r' !in r
    ensures NonSpace(r) == NonSpace(s)
  {
    if s == [] then []
    else
      var rest := RemoveCR(s[1..]);
      NonSpaceAppend(if s[0] == '\r' then [] else [s[0]], rest);
      (if s[0] == '\r' then [] else [s[0]]) + rest
  }

  /** `t.charAt(0)` is `'+'`, `'-'` or `' '`: false for the empty string, whose
      `charAt(0)` is "". */
  predicate StartsWithMarker(t: string) {
    t != [] && (t[0] == '+' || t[0] == '-' || t[0] == ' ')
  }

  /** The index of the first non-blank line at or after j (|lines| when there is none). */
  function NextNonBlank(lines: seq<string>, j: nat): (k: nat)
    requires j <= |lines|
    ensures j <= k <= |lines|
    ensures forall m :: j <= m < k ==> IsBlank(lines[m])
    ensures k < |lines| ==> !IsBlank(lines[k])
    decreases |lines| - j
  {
    if j < |lines| && IsBlank(lines[j]) then NextNonBlank(lines, j + 1) else j
  }

  /** The number on line i is joined to the next non-blank line: that line, once
      trimmed, begins with `+`, `-` or a space. */
  predicate MergesAt(lines: seq<string>, i: nat)
    requires i < |lines|
  {
    IsNumberLine(lines[i]) &&
    var j := NextNonBlank(lines, i + 1);
    j < |lines| && StartsWithMarker(Trim(lines[j]))
  }

  /** The joined line: the number, three spaces, then the diff line without its indentation. */
  function MergedLine(number: string, diffLine: string): string {
    Trim(number) + "   " + TrimStart(diffLine)
  }

  /** One turn of the loop at line i: the line it pushes and the index it moves on to. */
  function Step(lines: seq<string>, i: nat): (st: (string, nat))
    requires i < |lines|
    ensures i < st.1 <= |lines|
  {
    if MergesAt(lines, i) then
      var j := NextNonBlank(lines, i + 1);
      (MergedLine(lines[i], lines[j]), j + 1)
    else (lines[i], i + 1)
  }

  /** The lines that the loop pushes to `out`, from index i on. */
  function Normalized(lines: seq<string>, i: nat): (out: seq<string>)
    requires i <= |lines|
    ensures |out| <= |lines| - i
    decreases |lines| - i
  {
    if i == |lines| then []
    else
      var st := Step(lines, i);
      [st.0] + Normalized(lines, st.1)
  }

  /** `normalizeDiffText(raw)`, with `raw` a string ("" is the falsy case). */
  method NormalizeDiffText(raw: string) returns (r: string)
    ensures raw == "" ==> r == ""
    ensures r == Trim(CollapseNewlines(Join(Normalized(Lines(RemoveCR(raw)), 0), "\n")))
    ensures '\r' !in r
    ensures NoTripleNewline(r)
    ensures IsTrimmed(r)
    ensures NonSpace(r) == NonSpace(raw)
  {
    if raw == "" {
      return "";
    }
    var out := NormalizeLines(Lines(RemoveCR(raw)));
    r := Trim(CollapseNewlines(Join(out, "\n")));
    NormalizeDiffTextProperties(raw);
  }

  /** The line loop of `normalizeDiffText`: a number line followed (after blank
      lines) by a `+`/`-` line becomes one line; every other line is kept as is. */
  method NormalizeLines(lines: seq<string>) returns (out: seq<string>)
    ensures out == Normalized(lines, 0)
  {
    out := [];
    var i := 0;
    ghost var all := Normalized(lines, 0);
    assert out + Normalized(lines, i) == all;
    while i < |lines|
      invariant 0 <= i <= |lines|
      invariant out + Normalized(lines, i) == all
    {
      var line, next := StepAt(lines, i);
      PushStep(out, lines, i);
      out := out + [line];
      i := next;
    }
    assert out + [] == out;
    assert Normalized(lines, i) == [];
  }

  /** One turn of the line loop: the line pushed for index i, and the index after the
      lines it used up. */
  method StepAt(lines: seq<string>, i: nat) returns (line: string, next: nat)
    requires i < |lines|
    ensures (line, next) == Step(lines, i)
  {
    var a := lines[i];
    if IsNumberLine(a) {
      var j := i + 1;
      while j < |lines| && IsBlank(lines[j])
        invariant i + 1 <= j <= |lines|
        invariant NextNonBlank(lines, j) == NextNonBlank(lines, i + 1)
      {
        j := j + 1;
      }
      assert NextNonBlank(lines, j) == j;
      if j < |lines| && StartsWithMarker(Trim(lines[j])) {
        StepWhenMerging(lines, i, j);
        return MergedLine(a, lines[j]), j + 1;
      }
    }
    StepOtherwise(lines, i);
    return a, i + 1;
  }

  /** Pushing the line of one step moves it from the pending lines to `out`. */
  lemma PushStep(out: seq<string>, lines: seq<string>, i: nat)
    requires i < |lines|
    ensures out + Normalized(lines, i)
         == (out + [Step(lines, i).0]) + Normalized(lines, Step(lines, i).1)
  {
    var st := Step(lines, i);
    assert Normalized(lines, i) == [st.0] + Normalized(lines, st.1);
  }

  lemma StepWhenMerging(lines: seq<string>, i: nat, j: nat)
    requires i < j < |lines| && j == NextNonBlank(lines, i + 1)
    requires IsNumberLine(lines[i]) && StartsWithMarker(Trim(lines[j]))
    ensures Step(lines, i) == (MergedLine(lines[i], lines[j]), j + 1)
  {
  }

  lemma StepOtherwise(lines: seq<string>, i: nat)
    requires i < |lines| && !MergesAt(lines, i)
    ensures Step(lines, i) == (lines[i], i + 1)
  {
  }

  /** The `' '` alternative of the merge test never fires: a trimmed non-blank line
      does not start with whitespace. */
  lemma SpaceBranchUnreachable(lines: seq<string>, i: nat)
    requires i < |lines| && MergesAt(lines, i)
    ensures var t := Trim(lines[NextNonBlank(lines, i + 1)]); t[0] == '+' || t[0] == '-'
  {
  }

  lemma GapIsSpace()
    ensures AllSpace("   ")
  {
  }

  lemma MergedLineNonSpace(number: string, diffLine: string)
    ensures NonSpace(MergedLine(number, diffLine)) == NonSpace(number) + NonSpace(diffLine)
  {
    var x := Trim(number);
    var y := TrimStart(diffLine);
    GapIsSpace();
    NonSpaceAroundSpaces(x, "   ", y);
    TrimNonSpace(number);
    TrimStartNonSpace(diffLine);
  }

  lemma GapCharsOK(ok: char -> bool)
    requires ok(' ')
    ensures CharsOK("   ", ok)
  {
  }

  lemma MergedLineCharsOK(number: string, diffLine: string, ok: char -> bool)
    requires CharsOK(number, ok) && CharsOK(diffLine, ok) && ok(' ')
    ensures CharsOK(MergedLine(number, diffLine), ok)
  {
    var x := Trim(number);
    var y := TrimStart(diffLine);
    TrimCharsOK(number, ok);
    TrimStartCharsOK(diffLine, ok);
    GapCharsOK(ok);
    CharsOKConcat(x, "   ", ok);
    CharsOKConcat(x + "   ", y, ok);
  }

  lemma NonSpaceAllSingle(x: string)
    ensures NonSpaceAll([x]) == NonSpace(x)
  {
    assert [x][1..] == [];
  }

  /** Joining a number line to its diff line keeps the non-whitespace text of the
      number, the blank lines between and the diff line. */
  lemma MergeNonSpace(lines: seq<string>, i: nat, j: nat)
    requires i < j < |lines|
    requires forall m :: i < m < j ==> IsBlank(lines[m])
    ensures NonSpace(MergedLine(lines[i], lines[j])) == NonSpaceAll(lines[i..j + 1])
  {
    var gap := lines[i + 1..j];
    assert NonSpaceAll(gap) == [] by {
      NonSpaceAllBlank(gap);
    }
    assert NonSpaceAll(lines[i..j + 1]) == NonSpace(lines[i]) + NonSpace(lines[j]) by {
      assert lines[i..j + 1] == [lines[i]] + gap + [lines[j]];
      NonSpaceAllAppend([lines[i]] + gap, [lines[j]]);
      NonSpaceAllAppend([lines[i]], gap);
      NonSpaceAllSingle(lines[i]);
      NonSpaceAllSingle(lines[j]);
    }
    MergedLineNonSpace(lines[i], lines[j]);
  }

  /** One step keeps the non-whitespace text of the lines it consumes. */
  lemma StepNonSpace(lines: seq<string>, i: nat)
    requires i < |lines|
    ensures NonSpace(Step(lines, i).0) == NonSpaceAll(lines[i..Step(lines, i).1])
  {
    if MergesAt(lines, i) {
      var j := NextNonBlank(lines, i + 1);
      MergeNonSpace(lines, i, j);
    } else {
      assert lines[i..i + 1] == [lines[i]];
      NonSpaceAllSingle(lines[i]);
    }
  }

  /** Merging only moves whitespace: the non-whitespace text of the lines is kept, in order. */
  lemma {:induction false} NormalizedNonSpace(lines: seq<string>, i: nat)
    requires i <= |lines|
    ensures NonSpaceAll(Normalized(lines, i)) == NonSpaceAll(lines[i..])
    decreases |lines| - i
  {
    if i < |lines| {
      var st := Step(lines, i);
      var rest := Normalized(lines, st.1);
      assert NonSpaceAll(lines[i..]) == NonSpaceAll(lines[i..st.1]) + NonSpaceAll(lines[st.1..]) by {
        assert lines[i..] == lines[i..st.1] + lines[st.1..];
        NonSpaceAllAppend(lines[i..st.1], lines[st.1..]);
      }
      assert NonSpaceAll(Normalized(lines, i)) == NonSpace(st.0) + NonSpaceAll(rest) by {
        assert Normalized(lines, i) == [st.0] + rest;
        NonSpaceAllAppend([st.0], rest);
        NonSpaceAllSingle(st.0);
      }
      NormalizedNonSpace(lines, st.1);
      StepNonSpace(lines, i);
    }
  }

  lemma StepCharsOK(lines: seq<string>, i: nat, ok: char -> bool)
    requires i < |lines|
    requires AllCharsOK(lines, ok) && ok(' ')
    ensures CharsOK(Step(lines, i).0, ok)
  {
    if MergesAt(lines, i) {
      var j := NextNonBlank(lines, i + 1);
      MergedLineCharsOK(lines[i], lines[j], ok);
    }
  }

  lemma {:induction false} NormalizedCharsOK(lines: seq<string>, i: nat, ok: char -> bool)
    requires i <= |lines|
    requires AllCharsOK(lines, ok) && ok(' ')
    ensures AllCharsOK(Normalized(lines, i), ok)
    decreases |lines| - i
  {
    if i < |lines| {
      var st := Step(lines, i);
      NormalizedCharsOK(lines, st.1, ok);
      StepCharsOK(lines, i, ok);
      AllCharsOKCons(st.0, Normalized(lines, st.1), ok);
    }
  }

  lemma NormalizeDiffTextProperties(raw: string)
    ensures var r := Trim(CollapseNewlines(Join(Normalized(Lines(RemoveCR(raw)), 0), "\n")));
      '\r' !in r && NoTripleNewline(r) && NonSpace(r) == NonSpace(raw)
  {
    var noCR := NotCR;
    var s := RemoveCR(raw);
    var lines := Lines(s);
    var out := Normalized(lines, 0);
    var joined := Join(out, "\n");
    var collapsed := CollapseNewlines(joined);
    var r := Trim(collapsed);
    // no carriage return survives
    assert CharsOK(s, noCR);
    LinesCharsOK(s, noCR);
    NormalizedCharsOK(lines, 0, noCR);
    JoinCharsOK(out, "\n", noCR);
    CollapseCharsOK(joined, noCR);
    TrimCharsOK(collapsed, noCR);
    assert CharsOK(r, noCR);
    // no run of three newlines
    CollapseNoTriple(joined);
    TrimNoTriple(collapsed);
    // only whitespace changed
    NormalizedNonSpace(lines, 0);
    assert lines[0..] == lines;
    NonSpaceJoin(out);
    NonSpaceJoin(lines);
    JoinOfLines(s);
    CollapseNonSpace(joined);
    TrimNonSpace(collapsed);
  }
}
