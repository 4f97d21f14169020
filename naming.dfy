/** File-name pieces of an export: `slug`, `sanitizeSegment`, the task title that
    feeds the slug, and the `<title>__<version>__<types>.<ext>` assembly. */
module Naming {
  import opened Text

  /** U+0300..U+036F, the combining marks that `slug` deletes. */
  predicate IsMark(c: char) { '\U{0300}' <= c <= '\U{036F}' }

  predicate NotMark(c: char) { !IsMark(c) }

  /** `[a-z0-9._ -]` under the `i` flag. */
  predicate SlugChar(c: char) { IsAsciiAlnum(c) || c == '.' || c == '_' || c == ' ' || c == '-' }

  predicate NotSlugChar(c: char) { !SlugChar(c) }

  /** `[a-z0-9._-]` under the `i` flag: what a segment of a file name is made of. */
  predicate FileChar(c: char) { IsAsciiAlnum(c) || c == '.' || c == '_' || c == '-' }

  predicate NotFileChar(c: char) { !FileChar(c) }

  predicate IsUnderscore(c: char) { c == '_' }

  /** The replacement steps of `slug`, with the input taken as already in NFKD form
      (the marks that NFKD splits off are then the U+0300..U+036F characters):
      combining marks deleted; each run of characters outside `[A-Za-z0-9._ -]`
      turned into `_`; each run of whitespace turned into `_`; each run of `_`
      turned into one `_`. */
  function SlugReplaced(s: string): string {
    var noMarks := Keep(s, NotMark);
    var a := ReplaceRuns(noMarks, NotSlugChar, '_');
    var b := ReplaceRuns(a, IsSpace, '_');
    ReplaceRuns(b, IsUnderscore, '_')
  }

  /** Deleting every `_` at the start and every `_` at the end. */
  function StripUnderscores(c: string): (r: string)
    ensures r == [] || (r[0] != '_' && r[|r| - 1] != '_')
  {
    var d := SkipRun(c, IsUnderscore);
    var u := SkipRunEnd(d, IsUnderscore);
    SkipRunEndPrefix(d, IsUnderscore);
    assert u != [] ==> u[0] == d[0];
    u
  }

  /** `slug` before its final `.slice(0, 120)`. */
  function SlugUncut(s: string): string {
    StripUnderscores(SlugReplaced(s))
  }

  /** `slug(s)` */
  function Slug(s: string): (r: string)
    ensures |r| <= 120
  {
    var u := SlugUncut(s);
    if |u| <= 120 then u else u[..120]
  }

  lemma SlugReplacedCharset(s: string)
    ensures CharsOK(SlugReplaced(s), FileChar)
  {
    var noMarks := Keep(s, NotMark);
    var a := ReplaceRuns(noMarks, NotSlugChar, '_');
    var b := ReplaceRuns(a, IsSpace, '_');
    ReplaceRunsCharsOK(noMarks, NotSlugChar, '_', SlugChar);
    ReplaceRunsCharsOK(a, IsSpace, '_', FileChar);
    ReplaceRunsCharsOK(b, IsUnderscore, '_', FileChar);
  }

  lemma SlugReplacedKeepsAlnum(s: string)
    ensures Keep(SlugReplaced(s), IsAsciiAlnum) == Keep(s, IsAsciiAlnum)
  {
    var noMarks := Keep(s, NotMark);
    var a := ReplaceRuns(noMarks, NotSlugChar, '_');
    var b := ReplaceRuns(a, IsSpace, '_');
    KeepMarksAlnum(s);
    ReplaceRunsKeep(noMarks, NotSlugChar, '_', IsAsciiAlnum);
    ReplaceRunsKeep(a, IsSpace, '_', IsAsciiAlnum);
    ReplaceRunsKeep(b, IsUnderscore, '_', IsAsciiAlnum);
  }

  /** Stripping takes a slice: it keeps a property of every character, of every
      pair of neighbours, and every letter and digit. */
  lemma StripUnderscoresCharsOK(c: string, ok: char -> bool)
    requires CharsOK(c, ok)
    ensures CharsOK(StripUnderscores(c), ok)
  {
    var d := SkipRun(c, IsUnderscore);
    SkipRunSuffix(c, IsUnderscore);
    SkipRunEndPrefix(d, IsUnderscore);
    CharsOKSlice(c, |c| - |d|, |c|, ok);
    CharsOKSlice(d, 0, |SkipRunEnd(d, IsUnderscore)|, ok);
  }

  lemma StripUnderscoresNoAdjacent(c: string, p: char -> bool)
    requires NoAdjacent(c, p)
    ensures NoAdjacent(StripUnderscores(c), p)
  {
    var d := SkipRun(c, IsUnderscore);
    SkipRunSuffix(c, IsUnderscore);
    SkipRunEndPrefix(d, IsUnderscore);
    NoAdjacentSlice(c, |c| - |d|, |c|, p);
    NoAdjacentSlice(d, 0, |SkipRunEnd(d, IsUnderscore)|, p);
  }

  lemma StripUnderscoresKeep(c: string)
    ensures Keep(StripUnderscores(c), IsAsciiAlnum) == Keep(c, IsAsciiAlnum)
  {
    var d := SkipRun(c, IsUnderscore);
    KeepSkipRun(c, IsUnderscore, IsAsciiAlnum);
    SkipRunEndKeep(d, IsUnderscore, IsAsciiAlnum);
  }

  /** A trailing run of p holds no character of q when p and q are disjoint on d. */
  lemma {:induction false} SkipRunEndKeep(d: string, p: char -> bool, q: char -> bool)
    requires forall i :: 0 <= i < |d| && p(d[i]) ==> !q(d[i])
    ensures Keep(SkipRunEnd(d, p), q) == Keep(d, q)
    decreases |d|
  {
    if d != [] && p(d[|d| - 1]) {
      var init := d[..|d| - 1];
      assert forall i :: 0 <= i < |init| ==> init[i] == d[i];
      SkipRunEndKeep(init, p, q);
      assert d == init + [d[|d| - 1]];
      KeepAppend(init, [d[|d| - 1]], q);
      assert Keep([d[|d| - 1]], q) == [];
    }
  }

  /** The slug is made of ASCII letters, digits, `.`, `_` and `-` only; upper case is kept. */
  lemma SlugCharset(s: string)
    ensures CharsOK(Slug(s), FileChar)
  {
    var c := SlugReplaced(s);
    SlugReplacedCharset(s);
    StripUnderscoresCharsOK(c, FileChar);
    var u := SlugUncut(s);
    CharsOKSlice(u, 0, |Slug(s)|, FileChar);
  }

  /** No `__` anywhere in a slug, no `_` at its start, and a `_` at its end only when
      the 120-character cut fell just after one. */
  lemma SlugUnderscores(s: string)
    ensures NoAdjacent(Slug(s), IsUnderscore)
    ensures Slug(s) == [] || Slug(s)[0] != '_'
    ensures |SlugUncut(s)| <= 120 ==> Slug(s) == [] || Slug(s)[|Slug(s)| - 1] != '_'
  {
    var c := SlugReplaced(s);
    var noMarks := Keep(s, NotMark);
    var a := ReplaceRuns(noMarks, NotSlugChar, '_');
    var b := ReplaceRuns(a, IsSpace, '_');
    ReplaceRunsNoAdjacent(b, IsUnderscore, '_');
    StripUnderscoresNoAdjacent(c, IsUnderscore);
    var u := SlugUncut(s);
    NoAdjacentSlice(u, 0, |Slug(s)|, IsUnderscore);
  }

  /** The letters and digits of the input survive in order: all of them when the slug
      was not cut, a prefix of them when it was. */
  lemma SlugKeepsAlnum(s: string)
    ensures Keep(Slug(s), IsAsciiAlnum) <= Keep(s, IsAsciiAlnum)
    ensures |SlugUncut(s)| <= 120 ==> Keep(Slug(s), IsAsciiAlnum) == Keep(s, IsAsciiAlnum)
  {
    SlugReplacedKeepsAlnum(s);
    StripUnderscoresKeep(SlugReplaced(s));
    var u := SlugUncut(s);
    if |u| > 120 {
      KeepPrefix(u, 120, IsAsciiAlnum);
    }
  }

  /** Deleting combining marks keeps every letter and digit. */
  lemma {:induction false} KeepMarksAlnum(s: string)
    ensures Keep(Keep(s, NotMark), IsAsciiAlnum) == Keep(s, IsAsciiAlnum)
  {
    if s != [] {
      KeepMarksAlnum(s[1..]);
      var h := if NotMark(s[0]) then [s[0]] else [];
      KeepAppend(h, Keep(s[1..], NotMark), IsAsciiAlnum);
      assert Keep(h, IsAsciiAlnum) == if IsAsciiAlnum(s[0]) then [s[0]] else [];
    }
  }

  /** `sanitizeSegment(value, fallback)`, with "" standing for every falsy value. */
  function SanitizeSegment(value: string, fallback: string): string {
    if value == "" then fallback else ReplaceRuns(value, NotFileChar, '_')
  }

  /** A non-empty value yields a non-empty segment of file-name characters, no longer
      than the value, with its letters and digits kept in order; the fallback is used
      exactly for the empty value. */
  lemma SanitizeSegmentSpec(value: string, fallback: string)
    ensures value == "" ==> SanitizeSegment(value, fallback) == fallback
    ensures value != "" ==> var r := SanitizeSegment(value, fallback);
      r != [] && |r| <= |value| && CharsOK(r, FileChar) &&
      Keep(r, IsAsciiAlnum) == Keep(value, IsAsciiAlnum)
  {
    if value != "" {
      ReplaceRunsCharsOK(value, NotFileChar, '_', FileChar);
      ReplaceRunsKeep(value, NotFileChar, '_', IsAsciiAlnum);
    }
  }

  /** Sanitizing a segment a second time changes nothing. */
  lemma SanitizeSegmentIdempotent(value: string, fallback: string)
    ensures var r := SanitizeSegment(value, fallback);
      CharsOK(r, FileChar) ==> SanitizeSegment(r, fallback) == r
    ensures value != "" ==> var r := SanitizeSegment(value, fallback);
      SanitizeSegment(r, fallback) == r
  {
    var r := SanitizeSegment(value, fallback);
    SanitizeSegmentSpec(value, fallback);
    if CharsOK(r, FileChar) && r != "" {
      ReplaceRunsNoRun(r, NotFileChar, '_');
    }
  }

  // ---------------------------------------------------------------------------
  // The task title.

  /** The first heading text that is not blank, trimmed. */
  function FirstHeading(texts: seq<string>): Option<string> {
    if texts == [] then None
    else if !IsBlank(texts[0]) then Some(Trim(texts[0]))
    else FirstHeading(texts[1..])
  }

  /** FirstHeading finds nothing exactly when every text is blank, and otherwise the
      trimmed text of the first one that is not. */
  lemma {:induction false} FirstHeadingSpec(texts: seq<string>)
    ensures FirstHeading(texts).None? <==> forall k :: 0 <= k < |texts| ==> IsBlank(texts[k])
    ensures FirstHeading(texts).Some? ==>
              FirstHeading(texts).value != [] &&
              exists k :: 0 <= k < |texts| && FirstHeading(texts).value == Trim(texts[k]) &&
                forall m :: 0 <= m < k ==> IsBlank(texts[m])
    decreases |texts|
  {
    if texts != [] && IsBlank(texts[0]) {
      var rest := texts[1..];
      FirstHeadingSpec(rest);
      assert forall k :: 0 <= k < |rest| ==> rest[k] == texts[k + 1];
      if FirstHeading(rest).Some? {
        var k :| 0 <= k < |rest| && FirstHeading(rest).value == Trim(rest[k]) &&
                 forall m :: 0 <= m < k ==> IsBlank(rest[m]);
        assert forall m :: 0 <= m < k + 1 ==> IsBlank(texts[m]) by {
          forall m | 0 < m < k + 1 ensures IsBlank(texts[m]) {
            assert texts[m] == rest[m - 1];
          }
        }
      } else {
        forall k | 0 <= k < |texts| ensures IsBlank(texts[k]) {
          if k > 0 { assert texts[k] == rest[k - 1]; }
        }
      }
    } else if texts != [] {
      assert !AllSpace(texts[0]);
    }
  }

  /** The `document.title` fallback: the text before the first " - ", else the whole
      trimmed title, else "Task". */
  function TitleFallback(title: string): string {
    var t := Trim(title);
    var idx := IndexOf(t, " - ");
    if idx > 0 then t[..idx] else if t != "" then t else "Task"
  }

  /** `getTaskTitle()`, given the text of the visible heading candidates in document order. */
  function TaskTitle(headingTexts: seq<string>, title: string): string {
    match FirstHeading(headingTexts)
    case Some(h) => h
    case None => TitleFallback(title)
  }

  /** The fallback title is never empty and never holds " - ": it is "Task" for a blank
      title and otherwise a leading part of the trimmed title. */
  lemma TitleFallbackSpec(title: string)
    ensures TitleFallback(title) != ""
    ensures !Contains(TitleFallback(title), " - ")
    ensures Trim(title) == "" ==> TitleFallback(title) == "Task"
    ensures Trim(title) != "" ==> TitleFallback(title) <= Trim(title)
  {
    var t := Trim(title);
    var idx := IndexOf(t, " - ");
    NoSeparatorAtStart(t);
    if idx > 0 {
      BeforeFirstSeparator(t, idx);
    } else if t == "" {
      NoDashNoSeparator("Task");
    }
  }

  /** The text before the first " - " does not hold " - ". */
  lemma BeforeFirstSeparator(t: string, idx: int)
    requires idx == IndexOf(t, " - ") && idx >= 0
    ensures !Contains(t[..idx], " - ")
  {
    forall i | 0 <= i <= |t[..idx]| ensures !OccursAt(t[..idx], " - ", i) {
      if i + 3 <= idx {
        assert t[..idx][i..i + 3] == t[i..i + 3];
        assert !OccursAt(t, " - ", i);
      }
    }
  }

  /** A string without '-' does not hold " - ". */
  lemma NoDashNoSeparator(s: string)
    requires forall i :: 0 <= i < |s| ==> s[i] != '-'
    ensures !Contains(s, " - ")
  {
    forall i | 0 <= i <= |s| ensures !OccursAt(s, " - ", i) {
      if i + 3 <= |s| {
        assert s[i..i + 3][1] == s[i + 1] != " - "[1];
      }
    }
  }

  /** A trimmed string does not begin with " - ". */
  lemma NoSeparatorAtStart(t: string)
    requires IsTrimmed(t)
    ensures !OccursAt(t, " - ", 0)
  {
    if |t| >= 3 {
      assert t[0..3][0] == t[0];
    }
  }

  /** The task title is never empty: the first visible non-blank heading when there is
      one, the title fallback otherwise. */
  lemma TaskTitleSpec(headingTexts: seq<string>, title: string)
    ensures TaskTitle(headingTexts, title) != ""
    ensures (forall k :: 0 <= k < |headingTexts| ==> IsBlank(headingTexts[k])) ==>
      TaskTitle(headingTexts, title) == TitleFallback(title)
    ensures (exists k :: 0 <= k < |headingTexts| && !IsBlank(headingTexts[k])) ==>
      exists k :: 0 <= k < |headingTexts| && TaskTitle(headingTexts, title) == Trim(headingTexts[k]) &&
        forall m :: 0 <= m < k ==> IsBlank(headingTexts[m])
  {
    FirstHeadingSpec(headingTexts);
    TitleFallbackSpec(title);
  }

  // ---------------------------------------------------------------------------
  // The file name.

  /** The fixed order of section types in a file name. */
  const TypeOrder: seq<string> := ["report", "diffs", "logs"]

  /** The position of a section type in TypeOrder. */
  function Rank(t: string): nat {
    if t == "report" then 0 else if t == "diffs" then 1 else 2
  }

  /** `typeOrder.filter(t => set.has(t))`, over TypeOrder from index k on. */
  function CapturedTypesFrom(keys: seq<string>, k: nat): (ts: seq<string>)
    requires k <= |TypeOrder|
    ensures forall t :: t in ts <==> t in TypeOrder[k..] && t in keys
    ensures forall i :: 0 <= i < |ts| ==> k <= Rank(ts[i])
    ensures forall i, j :: 0 <= i < j < |ts| ==> Rank(ts[i]) < Rank(ts[j])
    decreases |TypeOrder| - k
  {
    if k == |TypeOrder| then []
    else
      var rest := CapturedTypesFrom(keys, k + 1);
      assert TypeOrder[k..] == [TypeOrder[k]] + TypeOrder[k + 1..];
      assert Rank(TypeOrder[k]) == k;
      if TypeOrder[k] in keys then [TypeOrder[k]] + rest else rest
  }

  /** The section types present among the captured keys, each once, in TypeOrder. */
  function CapturedTypes(keys: seq<string>): (ts: seq<string>)
    ensures forall t :: t in ts <==> t in TypeOrder && t in keys
    ensures forall i, j :: 0 <= i < j < |ts| ==> Rank(ts[i]) < Rank(ts[j])
  {
    CapturedTypesFrom(keys, 0)
  }

  /** `typesSuffix`: "" when no known type was captured, else `__` and the types joined by `+`. */
  function TypesSuffix(keys: seq<string>): string {
    var ts := CapturedTypes(keys);
    if ts == [] then "" else "__" + Join(ts, "+")
  }

  /** The saved file name: `${titleSlug || 'task'}__${version}${typesSuffix}.md` (or `.json`). */
  function ExportFilename(titleSlug: string, version: string, keys: seq<string>, markdown: bool): string {
    (if titleSlug == "" then "task" else titleSlug) + "__" + version + TypesSuffix(keys) +
    (if markdown then ".md" else ".json")
  }

  /** The version segment: the trimmed located label, "current" when blank, sanitized. */
  function VersionSegment(located: string): string {
    var raw := if Trim(located) == "" then "current" else Trim(located);
    SanitizeSegment(raw, "current")
  }

  /** A character of an export file name: a segment character or the `+` between types. */
  predicate NameChar(c: char) { FileChar(c) || c == '+' }

  lemma FileCharIsNameChar(s: string)
    requires CharsOK(s, FileChar)
    ensures CharsOK(s, NameChar)
  {
  }

  lemma TypeNamesChars()
    ensures forall t :: t in TypeOrder ==> CharsOK(t, NameChar)
  {
    assert CharsOK("report", NameChar) && CharsOK("diffs", NameChar) && CharsOK("logs", NameChar);
  }

  lemma TypesSuffixChars(keys: seq<string>)
    ensures CharsOK(TypesSuffix(keys), NameChar)
  {
    var ts := CapturedTypes(keys);
    TypeNamesChars();
    assert AllCharsOK(ts, NameChar) by {
      forall k | 0 <= k < |ts| ensures CharsOK(ts[k], NameChar) {
        assert ts[k] in ts;
      }
    }
    assert CharsOK("+", NameChar) && CharsOK("__", NameChar);
    JoinCharsOK(ts, "+", NameChar);
    if ts != [] {
      CharsOKConcat("__", Join(ts, "+"), NameChar);
    }
  }

  lemma LiteralNameChars()
    ensures CharsOK("__", NameChar) && CharsOK("task", NameChar)
    ensures CharsOK(".md", NameChar) && CharsOK(".json", NameChar)
  {
  }

  /** A file name built from segment characters is made of name characters and ends
      in the format's extension. */
  lemma ExportFilenameChars(slug: string, version: string, keys: seq<string>, markdown: bool)
    requires CharsOK(slug, FileChar) && CharsOK(version, FileChar)
    ensures var name := ExportFilename(slug, version, keys, markdown);
      CharsOK(name, NameChar) &&
      (if markdown then EndsWith(name, ".md") else EndsWith(name, ".json"))
  {
    var head := if slug == "" then "task" else slug;
    var ext := if markdown then ".md" else ".json";
    var suffix := TypesSuffix(keys);
    var name := ExportFilename(slug, version, keys, markdown);
    assert name == head + "__" + version + suffix + ext;
    TypesSuffixChars(keys);
    LiteralNameChars();
    CharsOKConcat(head, "__", NameChar);
    CharsOKConcat(head + "__", version, NameChar);
    CharsOKConcat(head + "__" + version, suffix, NameChar);
    CharsOKConcat(head + "__" + version + suffix, ext, NameChar);
    assert name[|name| - |ext|..] == ext;
  }

  /** The file name of an export is one path segment: letters, digits, `.`, `_`, `-`
      and `+`, so no `/` and no whitespace; it ends in the format's extension. */
  lemma ExportFilenameSpec(title: string, located: string, keys: seq<string>, markdown: bool)
    ensures var name := ExportFilename(Slug(title), VersionSegment(located), keys, markdown);
      CharsOK(name, NameChar) &&
      (if markdown then EndsWith(name, ".md") else EndsWith(name, ".json"))
  {
    SlugCharset(title);
    var raw := if Trim(located) == "" then "current" else Trim(located);
    SanitizeSegmentSpec(raw, "current");
    ExportFilenameChars(Slug(title), VersionSegment(located), keys, markdown);
  }
}
