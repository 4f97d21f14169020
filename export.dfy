/** The export side of content-script.js: a captured section, the loop that captures the
    requested sections on every version tab, the filter that drops repeated captures,
    and the markdown document built from what remains. */
module Export {
  import opened Text

  /** A captured section: `{ key, label, text }`, the label held in `name`. */
  datatype Section = Section(key: string, name: string, text: string)

  // ---------------------------------------------------------------------------
  // De-duplication on (key, label, the first 512 characters of text).

  /** `s.slice(0, n)` */
  function Prefix(s: string, n: nat): (r: string)
    ensures |r| <= n && r <= s
    ensures |s| <= n ==> r == s
  {
    if |s| <= n then s else s[..n]
  }

  /** The filter's key: `${key}::${label}::${text.slice(0, 512)}`. */
  function DedupKey(s: Section): string {
    s.key + "::" + s.name + "::" + Prefix(s.text, 512)
  }

  /** No capture before position i has the key of capture i. */
  predicate FirstOfKey(ss: seq<Section>, i: int)
    requires 0 <= i < |ss|
  {
    forall j :: 0 <= j < i ==> DedupKey(ss[j]) != DedupKey(ss[i])
  }

  /** The captures among the first n that are the first with their key, in order. */
  function KeepFirst(ss: seq<Section>, n: nat): seq<Section>
    requires n <= |ss|
  {
    if n == 0 then []
    else KeepFirst(ss, n - 1) + (if FirstOfKey(ss, n - 1) then [ss[n - 1]] else [])
  }

  /** The positions, among the first n, of the captures KeepFirst keeps. */
  function KeptIndices(ss: seq<Section>, n: nat): seq<nat>
    requires n <= |ss|
  {
    if n == 0 then []
    else KeptIndices(ss, n - 1) + (if FirstOfKey(ss, n - 1) then [n - 1] else [])
  }

  /** `captured.filter(...)` with the `seen` set: a capture passes when its key has not
      been seen, and its key is then added. */
  method Dedup(captured: seq<Section>) returns (kept: seq<Section>)
    ensures kept == KeepFirst(captured, |captured|)
  {
    var seen: set<string> := {};
    kept := [];
    for i := 0 to |captured|
      invariant kept == KeepFirst(captured, i)
      invariant forall x :: x in seen <==> exists j :: 0 <= j < i && DedupKey(captured[j]) == x
    {
      var k := DedupKey(captured[i]);
      if k !in seen {
        seen := seen + {k};
        kept := kept + [captured[i]];
      } else {
        assert !FirstOfKey(captured, i);
      }
    }
  }

  /** The filter keeps an order-preserving subsequence of the captures: the kept ones
      are the captures at strictly increasing positions that are first with their key. */
  lemma {:induction false} KeepFirstIndices(ss: seq<Section>, n: nat)
    requires n <= |ss|
    ensures var r := KeepFirst(ss, n); var idx := KeptIndices(ss, n);
      |idx| == |r| &&
      (forall m :: 0 <= m < |idx| ==> idx[m] < n && r[m] == ss[idx[m]] && FirstOfKey(ss, idx[m])) &&
      (forall a, b :: 0 <= a < b < |idx| ==> idx[a] < idx[b])
  {
    if n > 0 {
      KeepFirstIndices(ss, n - 1);
      var r0 := KeepFirst(ss, n - 1);
      var idx0 := KeptIndices(ss, n - 1);
      if FirstOfKey(ss, n - 1) {
        assert KeepFirst(ss, n) == r0 + [ss[n - 1]];
        assert KeptIndices(ss, n) == idx0 + [n - 1];
      } else {
        assert KeepFirst(ss, n) == r0;
        assert KeptIndices(ss, n) == idx0;
      }
    }
  }

  /** Every capture that is first with its key is among the kept positions. */
  lemma {:induction false} KeptIndicesComplete(ss: seq<Section>, n: nat)
    requires n <= |ss|
    ensures forall i :: 0 <= i < n && FirstOfKey(ss, i) ==> i in KeptIndices(ss, n)
  {
    if n > 0 {
      KeptIndicesComplete(ss, n - 1);
    }
  }

  /** Every capture has a first capture with its key at or before it. */
  lemma {:induction false} FirstWithKey(ss: seq<Section>, i: nat)
    requires i < |ss|
    ensures exists j :: 0 <= j <= i && FirstOfKey(ss, j) && DedupKey(ss[j]) == DedupKey(ss[i])
    decreases i
  {
    if !FirstOfKey(ss, i) {
      var j :| 0 <= j < i && DedupKey(ss[j]) == DedupKey(ss[i]);
      FirstWithKey(ss, j);
    }
  }

  /** The kept captures have pairwise different keys, and every key of the input is kept:
      the first capture with each key survives. */
  lemma DedupSpec(ss: seq<Section>)
    ensures var r := KeepFirst(ss, |ss|);
      (forall a, b :: 0 <= a < b < |r| ==> DedupKey(r[a]) != DedupKey(r[b])) &&
      (forall i :: 0 <= i < |ss| && FirstOfKey(ss, i) ==> ss[i] in r) &&
      (forall i :: 0 <= i < |ss| ==> exists y :: y in r && DedupKey(y) == DedupKey(ss[i]))
  {
    var r := KeepFirst(ss, |ss|);
    var idx := KeptIndices(ss, |ss|);
    KeepFirstIndices(ss, |ss|);
    KeptIndicesComplete(ss, |ss|);
    forall a, b | 0 <= a < b < |r| ensures DedupKey(r[a]) != DedupKey(r[b]) {
      assert idx[a] < idx[b] && FirstOfKey(ss, idx[b]);
    }
    forall i | 0 <= i < |ss| && FirstOfKey(ss, i) ensures ss[i] in r {
      var m :| 0 <= m < |idx| && idx[m] == i;
    }
    forall i | 0 <= i < |ss| ensures exists y :: y in r && DedupKey(y) == DedupKey(ss[i]) {
      FirstWithKey(ss, i);
      var j :| 0 <= j <= i && FirstOfKey(ss, j) && DedupKey(ss[j]) == DedupKey(ss[i]);
      var m :| 0 <= m < |idx| && idx[m] == j;
      assert r[m] == ss[j];
    }
  }

  /** Captures whose keys are already pairwise different pass the filter unchanged; with
      DedupSpec this makes the filter idempotent. */
  lemma {:induction false} DedupDistinct(ss: seq<Section>, n: nat)
    requires n <= |ss|
    requires forall a, b :: 0 <= a < b < |ss| ==> DedupKey(ss[a]) != DedupKey(ss[b])
    ensures KeepFirst(ss, n) == ss[..n]
  {
    if n > 0 {
      DedupDistinct(ss, n - 1);
      assert ss[..n] == ss[..n - 1] + [ss[n - 1]];
    }
  }

  /** Of two captures of the same key and label whose texts agree on their first 512
      characters, however their texts differ after that, the later one is not first with
      its key and its position is not among the kept ones: it collapses into the earlier. */
  lemma DedupCollapses512(ss: seq<Section>, i: nat, j: nat)
    requires i < j < |ss|
    requires ss[i].key == ss[j].key && ss[i].name == ss[j].name
    requires |ss[i].text| >= 512 && |ss[j].text| >= 512 && ss[i].text[..512] == ss[j].text[..512]
    ensures DedupKey(ss[i]) == DedupKey(ss[j]) && !FirstOfKey(ss, j)
    ensures j !in KeptIndices(ss, |ss|)
  {
    assert Prefix(ss[i].text, 512) == Prefix(ss[j].text, 512);
    KeepFirstIndices(ss, |ss|);
  }

  // ---------------------------------------------------------------------------
  // The capture loop: every requested section on every version tab, or once on the page
  // as it is when there are fewer than two tabs. What a capture reads off the page is a
  // parameter.

  /** The page a capture reads: the page as it is, or the page after version tab t was
      clicked. */
  datatype View = Current | AfterClick(tab: nat)

  /** `{ ...s, label: `${s.label} (${tabLabel})` }`, or s itself when there is no tab. */
  function Tagged(s: Section, tab: Option<string>): Section {
    if tab.Some? then s.(name := s.name + " (" + tab.value + ")") else s
  }

  /** Tagging keeps the key and the text; with a tab it appends " (label)" to the name,
      without one it changes nothing. */
  lemma TaggedSpec(s: Section, tab: Option<string>)
    ensures var r := Tagged(s, tab);
      r.key == s.key && r.text == s.text &&
      (tab.Some? ==> EndsWith(r.name, " (" + tab.value + ")") && StartsWith(r.name, s.name)) &&
      (tab.None? ==> r == s)
  {
    if tab.Some? {
      var r := Tagged(s, tab);
      var suffix := " (" + tab.value + ")";
      assert r.name == s.name + suffix;
      assert r.name[|r.name| - |suffix|..] == suffix;
      assert r.name[..|s.name|] == s.name;
    }
  }

  /** The captures of keys[..n] read in one view, in key order, tagged with the tab label. */
  function CapturesIn(keys: seq<string>, n: nat, view: View, capture: (View, string) -> Option<Section>,
                      tab: Option<string>): seq<Section>
    requires n <= |keys|
  {
    if n == 0 then []
    else
      CapturesIn(keys, n - 1, view, capture, tab) +
      (if capture(view, keys[n - 1]).Some? then [Tagged(capture(view, keys[n - 1]).value, tab)] else [])
  }

  /** The captures on the first t version tabs, tab after tab. */
  function CapturesOver(tabs: seq<string>, t: nat, keys: seq<string>,
                        capture: (View, string) -> Option<Section>): seq<Section>
    requires t <= |tabs|
  {
    if t == 0 then []
    else
      CapturesOver(tabs, t - 1, keys, capture) +
      CapturesIn(keys, |keys|, AfterClick(t - 1), capture, Some(tabs[t - 1]))
  }

  /** What the capture loop collects before de-duplication. */
  function Captured(tabs: seq<string>, keys: seq<string>, capture: (View, string) -> Option<Section>): seq<Section> {
    if |tabs| > 1 then CapturesOver(tabs, |tabs|, keys, capture)
    else CapturesIn(keys, |keys|, Current, capture, None)
  }

  /** The capture loop of the export: with two or more version tabs, click each in turn and
      capture every requested key, tagging each label with the tab's label; otherwise
      capture every requested key once. */
  method CaptureAll(tabs: seq<string>, keys: seq<string>, capture: (View, string) -> Option<Section>)
    returns (captured: seq<Section>)
    ensures captured == Captured(tabs, keys, capture)
  {
    captured := [];
    if |tabs| > 1 {
      for t := 0 to |tabs|
        invariant captured == CapturesOver(tabs, t, keys, capture)
      {
        var parts: seq<Section> := [];
        for i := 0 to |keys|
          invariant parts == CapturesIn(keys, i, AfterClick(t), capture, Some(tabs[t]))
        {
          var s := capture(AfterClick(t), keys[i]);
          if s.Some? {
            parts := parts + [Tagged(s.value, Some(tabs[t]))];
          }
        }
        captured := captured + parts;
      }
    } else {
      for i := 0 to |keys|
        invariant captured == CapturesIn(keys, i, Current, capture, None)
      {
        var s := capture(Current, keys[i]);
        if s.Some? {
          captured := captured + [s.value];
        }
      }
    }
  }

  /** s is what key i gave in the view, tagged with the tab label. */
  predicate FromKey(keys: seq<string>, view: View, capture: (View, string) -> Option<Section>,
                    tab: Option<string>, i: nat, s: Section)
    requires i < |keys|
  {
    capture(view, keys[i]).Some? && s == Tagged(capture(view, keys[i]).value, tab)
  }

  /** In one view: at most one capture per requested key; each is the tagged capture of a
      requested key, and every key that captures something contributes it. */
  lemma {:induction false} CapturesInSpec(keys: seq<string>, n: nat, view: View,
                                          capture: (View, string) -> Option<Section>, tab: Option<string>)
    requires n <= |keys|
    ensures var r := CapturesIn(keys, n, view, capture, tab);
      |r| <= n &&
      (forall s :: s in r ==> exists i :: 0 <= i < n && FromKey(keys, view, capture, tab, i, s)) &&
      (forall i, s :: 0 <= i < n && FromKey(keys, view, capture, tab, i, s) ==> s in r)
  {
    if n > 0 {
      var r := CapturesIn(keys, n, view, capture, tab);
      var prev := CapturesIn(keys, n - 1, view, capture, tab);
      var c := capture(view, keys[n - 1]);
      var last := if c.Some? then [Tagged(c.value, tab)] else [];
      CapturesInSpec(keys, n - 1, view, capture, tab);
      assert r == prev + last;
      forall s | s in r ensures exists i :: 0 <= i < n && FromKey(keys, view, capture, tab, i, s) {
        if s in prev {
          var i :| 0 <= i < n - 1 && FromKey(keys, view, capture, tab, i, s);
        } else {
          assert FromKey(keys, view, capture, tab, n - 1, s);
        }
      }
      forall i, s | 0 <= i < n && FromKey(keys, view, capture, tab, i, s) ensures s in r {
        if i < n - 1 {
          assert s in prev;
        } else {
          assert s in last;
        }
      }
    }
  }

  /** s is what key i gave after clicking tab u, tagged with the tab's label. */
  predicate FromTab(tabs: seq<string>, keys: seq<string>, capture: (View, string) -> Option<Section>,
                    u: nat, i: nat, s: Section)
    requires u < |tabs| && i < |keys|
  {
    FromKey(keys, AfterClick(u), capture, Some(tabs[u]), i, s)
  }

  /** Over the first t tabs: at most t * |keys| captures; each is a capture read after
      clicking one of those tabs, tagged with its label, and every such capture is there. */
  lemma {:induction false} CapturesOverSpec(tabs: seq<string>, t: nat, keys: seq<string>,
                                            capture: (View, string) -> Option<Section>)
    requires t <= |tabs|
    ensures var r := CapturesOver(tabs, t, keys, capture);
      |r| <= t * |keys| &&
      (forall s :: s in r ==>
        exists u, i :: 0 <= u < t && 0 <= i < |keys| && FromTab(tabs, keys, capture, u, i, s)) &&
      (forall u, i, s :: 0 <= u < t && 0 <= i < |keys| && FromTab(tabs, keys, capture, u, i, s) ==> s in r)
  {
    if t > 0 {
      var r := CapturesOver(tabs, t, keys, capture);
      var prev := CapturesOver(tabs, t - 1, keys, capture);
      var last := CapturesIn(keys, |keys|, AfterClick(t - 1), capture, Some(tabs[t - 1]));
      CapturesOverSpec(tabs, t - 1, keys, capture);
      CapturesInSpec(keys, |keys|, AfterClick(t - 1), capture, Some(tabs[t - 1]));
      assert r == prev + last;
      MulStep(t, |keys|);
      forall s | s in r
        ensures exists u, i :: 0 <= u < t && 0 <= i < |keys| && FromTab(tabs, keys, capture, u, i, s)
      {
        if s in prev {
          var u, i :| 0 <= u < t - 1 && 0 <= i < |keys| && FromTab(tabs, keys, capture, u, i, s);
        } else {
          var i :| 0 <= i < |keys| && FromKey(keys, AfterClick(t - 1), capture, Some(tabs[t - 1]), i, s);
          assert FromTab(tabs, keys, capture, t - 1, i, s);
        }
      }
      forall u, i, s | 0 <= u < t && 0 <= i < |keys| && FromTab(tabs, keys, capture, u, i, s)
        ensures s in r
      {
        if u < t - 1 {
          assert s in prev;
        } else {
          assert FromKey(keys, AfterClick(t - 1), capture, Some(tabs[t - 1]), i, s);
          assert s in last;
        }
      }
    }
  }

  lemma MulStep(t: nat, k: nat)
    requires t > 0
    ensures (t - 1) * k + k == t * k
  {
  }

  // ---------------------------------------------------------------------------
  // buildMarkdown

  /** `String(n)`: the decimal digits of n, without leading zeros. */
  function Decimal(n: nat): (r: string)
    ensures |r| >= 1 && AllDigits(r)
    ensures n < 10 <==> |r| == 1
    ensures |r| > 1 ==> r[0] != '0'
  {
    if n < 10 then [(48 + n) as char] else Decimal(n / 10) + [(48 + n % 10) as char]
  }

  /** The number a string of decimal digits denotes. */
  function DigitsValue(s: string): int {
    if s == [] then 0 else DigitsValue(s[..|s| - 1]) * 10 + (s[|s| - 1] as int - 48)
  }

  /** Reading back the digits of n gives n. */
  lemma {:induction false} DecimalValue(n: nat)
    ensures DigitsValue(Decimal(n)) == n
  {
    if n >= 10 {
      DecimalValue(n / 10);
      var d := Decimal(n);
      assert d[..|d| - 1] == Decimal(n / 10);
    }
  }

  const GroupOrder: seq<string> := ["report", "diffs", "logs"]

  /** The opening fence of a group's blocks. */
  function Fence(key: string): string {
    if key == "diffs" then "```diff" else if key == "report" then "```json" else "```text"
  }

  /** The captures with the given key, in capture order. */
  function Items(ss: seq<Section>, key: string): (r: seq<Section>)
    ensures |r| <= |ss|
    ensures forall s :: s in r ==> s in ss && s.key == key
  {
    if ss == [] then []
    else Items(ss[..|ss| - 1], key) + (if ss[|ss| - 1].key == key then [ss[|ss| - 1]] else [])
  }

  /** `grouped[key] || []` */
  function GroupOf(grouped: map<string, seq<Section>>, key: string): seq<Section> {
    if key in grouped then grouped[key] else []
  }

  /** `items[0].label || key` */
  function GroupLabel(items: seq<Section>, key: string): string
    requires items != []
  {
    if items[0].name == "" then key else items[0].name
  }

  /** The heading of the idx-th item (from 1) of a group of count items: the group label,
      followed by the number when the group has more than one item. */
  function Heading(caption: string, count: nat, idx: nat): string {
    if count > 1 then caption + " " + Decimal(idx) else caption
  }

  /** The five lines of item m of a group. */
  function ItemBlock(items: seq<Section>, caption: string, key: string, m: nat): seq<string>
    requires m < |items|
  {
    ["### " + Heading(caption, |items|, m + 1), Fence(key), items[m].text, "```", ""]
  }

  /** The blocks of the first n items of a group. */
  function Blocks(items: seq<Section>, caption: string, key: string, n: nat): seq<string>
    requires n <= |items|
  {
    if n == 0 then [] else Blocks(items, caption, key, n - 1) + ItemBlock(items, caption, key, n - 1)
  }

  /** The lines of a group of items: nothing when it is empty, else its `##` heading, a
      blank line and the blocks of its items. */
  function GroupBody(items: seq<Section>, key: string): seq<string> {
    if items == [] then []
    else
      var caption := GroupLabel(items, key);
      ["## " + caption, ""] + Blocks(items, caption, key, |items|)
  }

  /** The lines of the group of captures with the given key. */
  function GroupLines(ss: seq<Section>, key: string): seq<string> {
    GroupBody(Items(ss, key), key)
  }

  /** The lines of the first o groups of GroupOrder. */
  function GroupsUpTo(ss: seq<Section>, o: nat): seq<string>
    requires o <= |GroupOrder|
  {
    if o == 0 then [] else GroupsUpTo(ss, o - 1) + GroupLines(ss, GroupOrder[o - 1])
  }

  /** The six header lines; the time stamp and the page address are parameters. */
  function HeaderLines(taskId: string, version: string, url: string, generated: string): seq<string> {
    ["# Codex Task Export", "Task: " + taskId, "Version: " + (if version == "" then "current" else version),
     "URL: " + url, "Generated: " + generated, ""]
  }

  /** The lines of the markdown document. */
  function MarkdownLines(taskId: string, version: string, url: string, generated: string,
                         ss: seq<Section>): seq<string> {
    HeaderLines(taskId, version, url, generated) +
    (if ss == [] then ["_No sections were captured._", ""] else GroupsUpTo(ss, |GroupOrder|))
  }

  /** `sections.reduce(...)`: the captures grouped by key, each group in capture order. */
  method GroupByKey(sections: seq<Section>) returns (grouped: map<string, seq<Section>>)
    ensures forall k :: GroupOf(grouped, k) == Items(sections, k)
  {
    grouped := map[];
    for i := 0 to |sections|
      invariant forall k :: GroupOf(grouped, k) == Items(sections[..i], k)
    {
      var s := sections[i];
      assert sections[..i + 1][..i] == sections[..i];
      grouped := grouped[s.key := GroupOf(grouped, s.key) + [s]];
    }
    assert sections[..|sections|] == sections;
  }

  lemma AppendAssoc(a: seq<string>, b: seq<string>, c: seq<string>)
    ensures (a + b) + c == a + (b + c)
  {
  }

  /** The body of the loop over one group: push its `##` heading and a blank line, then
      for each item its numbered heading, fence, text, closing fence and a blank line. */
  method PushGroup(lines: seq<string>, items: seq<Section>, key: string) returns (out: seq<string>)
    ensures out == lines + GroupBody(items, key)
  {
    out := lines;
    if |items| > 0 {
      var caption := if items[0].name == "" then key else items[0].name;
      var head := ["## " + caption, ""];
      out := out + head;
      var idx := 0;
      for m := 0 to |items|
        invariant idx == m
        invariant out == lines + (head + Blocks(items, caption, key, m))
      {
        idx := idx + 1;
        var block := ["### " + Heading(caption, |items|, idx), Fence(key), items[m].text, "```", ""];
        assert block == ItemBlock(items, caption, key, m);
        AppendAssoc(lines, head + Blocks(items, caption, key, m), block);
        AppendAssoc(head, Blocks(items, caption, key, m), block);
        out := out + block;
      }
    }
  }

  /** `for (const key of order)`: the groups in the order report, diffs, logs. */
  method PushGroups(lines: seq<string>, sections: seq<Section>, grouped: map<string, seq<Section>>)
    returns (out: seq<string>)
    requires forall k :: GroupOf(grouped, k) == Items(sections, k)
    ensures out == lines + GroupsUpTo(sections, |GroupOrder|)
  {
    out := lines;
    for o := 0 to |GroupOrder|
      invariant out == lines + GroupsUpTo(sections, o)
    {
      var key := GroupOrder[o];
      var items := GroupOf(grouped, key);
      assert items == Items(sections, key);
      AppendAssoc(lines, GroupsUpTo(sections, o), GroupBody(items, key));
      out := PushGroup(out, items, key);
    }
  }

  /** `buildMarkdown({ taskId, version, sections })`: the lines pushed one by one and joined
      with newlines. */
  method BuildMarkdown(taskId: string, version: string, url: string, generated: string,
                       sections: seq<Section>) returns (md: string)
    ensures md == Join(MarkdownLines(taskId, version, url, generated, sections), "\n")
  {
    var lines := ["# Codex Task Export", "Task: " + taskId,
                  "Version: " + (if version == "" then "current" else version),
                  "URL: " + url, "Generated: " + generated, ""];
    if |sections| == 0 {
      lines := lines + ["_No sections were captured._", ""];
      assert lines == MarkdownLines(taskId, version, url, generated, sections);
      return Join(lines, "\n");
    }
    var grouped := GroupByKey(sections);
    lines := PushGroups(lines, sections, grouped);
    assert lines == MarkdownLines(taskId, version, url, generated, sections);
    md := Join(lines, "\n");
  }

  /** The blocks of n items are five lines each: line k of the block of item m is line
      k of ItemBlock(m). */
  lemma {:induction false} BlockLine(items: seq<Section>, caption: string, key: string, n: nat, m: nat, k: nat)
    requires m < n <= |items| && k < 5
    ensures |Blocks(items, caption, key, n)| == 5 * n
    ensures Blocks(items, caption, key, n)[5 * m + k] == ItemBlock(items, caption, key, m)[k]
  {
    BlocksLength(items, caption, key, n - 1);
    if m < n - 1 {
      BlockLine(items, caption, key, n - 1, m, k);
    }
  }

  lemma {:induction false} BlocksLength(items: seq<Section>, caption: string, key: string, n: nat)
    requires n <= |items|
    ensures |Blocks(items, caption, key, n)| == 5 * n
  {
    if n > 0 {
      BlocksLength(items, caption, key, n - 1);
    }
  }

  /** The five lines of item m sit at offset 2 + 5 * m of its group. */
  lemma ItemLine(items: seq<Section>, key: string, m: nat, k: nat)
    requires m < |items| && k < 5
    ensures var caption := GroupLabel(items, key); var g := GroupBody(items, key);
      |g| == 2 + 5 * |items| && g[2 + 5 * m + k] == ItemBlock(items, caption, key, m)[k]
  {
    var caption := GroupLabel(items, key);
    var b := Blocks(items, caption, key, |items|);
    BlockLine(items, caption, key, |items|, m, k);
    assert GroupBody(items, key) == ["## " + caption, ""] + b;
  }

  /** A group with items is its label's `##` line, a blank line, then per item, in capture
      order, a `###` heading numbered from 1 only when the group has several items, the
      group's fence (`diff` for diffs, `json` for report, `text` otherwise), the item's
      text verbatim and the closing fence. A group without items contributes no line. */
  lemma GroupLinesSpec(ss: seq<Section>, key: string)
    ensures var items := Items(ss, key); var g := GroupLines(ss, key);
      (items == [] <==> g == []) &&
      (items != [] ==>
        var caption := GroupLabel(items, key);
        |g| == 2 + 5 * |items| && g[0] == "## " + caption && g[1] == "" &&
        forall m :: 0 <= m < |items| ==> ItemAt(g, items, caption, key, m))
  {
    var items := Items(ss, key);
    if items != [] {
      ItemLine(items, key, 0, 0);
      forall m | 0 <= m < |items|
        ensures ItemAt(GroupBody(items, key), items, GroupLabel(items, key), key, m)
      {
        ItemLinesAt(items, key, m);
      }
    }
  }

  /** Lines 2 + 5 * m to 6 + 5 * m of g are item m's `###` heading, numbered from 1 only
      when there are several items, the fence, the item's text, the closing fence and a
      blank line. */
  predicate ItemAt(g: seq<string>, items: seq<Section>, caption: string, key: string, m: nat)
    requires m < |items| && |g| == 2 + 5 * |items|
  {
    g[2 + 5 * m] == "### " + Heading(caption, |items|, m + 1) &&
    g[3 + 5 * m] == Fence(key) && g[4 + 5 * m] == items[m].text &&
    g[5 + 5 * m] == "```" && g[6 + 5 * m] == ""
  }

  lemma ItemLinesAt(items: seq<Section>, key: string, m: nat)
    requires m < |items|
    ensures |GroupBody(items, key)| == 2 + 5 * |items|
    ensures ItemAt(GroupBody(items, key), items, GroupLabel(items, key), key, m)
  {
    var caption := GroupLabel(items, key);
    var g := GroupBody(items, key);
    ItemLine(items, key, m, 0);
    forall k | 0 <= k < 5
      ensures g[2 + 5 * m + k] == ItemBlock(items, caption, key, m)[k]
    {
      ItemLine(items, key, m, k);
    }
    BlockAt(g, items, caption, key, m);
  }

  /** Lines that agree with ItemBlock(m) at offset 2 + 5 * m are item m's lines. */
  lemma BlockAt(g: seq<string>, items: seq<Section>, caption: string, key: string, m: nat)
    requires m < |items| && |g| == 2 + 5 * |items|
    requires forall k :: 0 <= k < 5 ==> g[2 + 5 * m + k] == ItemBlock(items, caption, key, m)[k]
    ensures ItemAt(g, items, caption, key, m)
  {
    var blk := ItemBlock(items, caption, key, m);
    assert g[2 + 5 * m + 0] == blk[0] && g[2 + 5 * m + 1] == blk[1] && g[2 + 5 * m + 2] == blk[2];
    assert g[2 + 5 * m + 3] == blk[3] && g[2 + 5 * m + 4] == blk[4];
  }

  /** Within a group of several items the `###` headings are pairwise different. */
  lemma HeadingsDistinct(caption: string, count: nat, a: nat, b: nat)
    requires count > 1 && a != b
    ensures Heading(caption, count, a) != Heading(caption, count, b)
  {
    if Heading(caption, count, a) == Heading(caption, count, b) {
      var p := caption + " ";
      assert Decimal(a) == Heading(caption, count, a)[|p|..];
      assert Decimal(b) == Heading(caption, count, b)[|p|..];
      DecimalValue(a);
      DecimalValue(b);
    }
  }

  /** The captures whose key is one of the three grouped kinds, in capture order. */
  function Known(ss: seq<Section>): seq<Section> {
    if ss == [] then []
    else Known(ss[..|ss| - 1]) + (if ss[|ss| - 1].key in GroupOrder then [ss[|ss| - 1]] else [])
  }

  /** Captures of any other key are dropped: the groups of the captures are those of the
      known ones, and the three groups hold exactly the known captures between them. */
  lemma KnownOnly(ss: seq<Section>)
    ensures forall o :: 0 <= o < |GroupOrder| ==> Items(ss, GroupOrder[o]) == Items(Known(ss), GroupOrder[o])
    ensures |Items(ss, "report")| + |Items(ss, "diffs")| + |Items(ss, "logs")| == |Known(ss)|
  {
    forall o | 0 <= o < |GroupOrder|
      ensures Items(ss, GroupOrder[o]) == Items(Known(ss), GroupOrder[o])
    {
      KnownItems(ss, GroupOrder[o]);
    }
    KnownCount(ss);
  }

  lemma ItemsSnoc(xs: seq<Section>, x: Section, key: string)
    ensures Items(xs + [x], key) == Items(xs, key) + (if x.key == key then [x] else [])
  {
    assert (xs + [x])[..|xs|] == xs;
  }

  /** The group of a known key is the same among the known captures. */
  lemma {:induction false} KnownItems(ss: seq<Section>, key: string)
    requires key in GroupOrder
    ensures Items(ss, key) == Items(Known(ss), key)
    decreases |ss|
  {
    if ss != [] {
      var init := ss[..|ss| - 1];
      var last := ss[|ss| - 1];
      KnownItems(init, key);
      if last.key in GroupOrder {
        assert Known(ss) == Known(init) + [last];
        ItemsSnoc(Known(init), last, key);
      } else {
        assert Known(ss) == Known(init);
        assert last.key != key;
      }
    }
  }

  /** Every known capture falls in exactly one of the three groups. */
  lemma {:induction false} KnownCount(ss: seq<Section>)
    ensures |Items(ss, "report")| + |Items(ss, "diffs")| + |Items(ss, "logs")| == |Known(ss)|
    decreases |ss|
  {
    if ss != [] {
      KnownCount(ss[..|ss| - 1]);
    }
  }

  /** The document of captures that include some of an unknown key is the document of
      their known ones; when none is known it is the header alone, without the
      "_No sections were captured._" line. */
  lemma MarkdownKnownOnly(taskId: string, version: string, url: string, generated: string, ss: seq<Section>)
    requires ss != []
    ensures Known(ss) != [] ==>
      MarkdownLines(taskId, version, url, generated, ss) == MarkdownLines(taskId, version, url, generated, Known(ss))
    ensures Known(ss) == [] ==>
      MarkdownLines(taskId, version, url, generated, ss) == HeaderLines(taskId, version, url, generated)
  {
    KnownOnly(ss);
    assert forall o :: 0 <= o <= |GroupOrder| ==> GroupsUpTo(ss, o) == GroupsUpTo(Known(ss), o) by {
      forall o | 0 <= o <= |GroupOrder| ensures GroupsUpTo(ss, o) == GroupsUpTo(Known(ss), o) {
        GroupsAgree(ss, Known(ss), o);
      }
    }
    if Known(ss) == [] {
      assert GroupsUpTo(Known(ss), |GroupOrder|) == [] by { GroupsOfNone(|GroupOrder|); }
    }
  }

  lemma {:induction false} GroupsAgree(ss: seq<Section>, tt: seq<Section>, o: nat)
    requires o <= |GroupOrder|
    requires forall j :: 0 <= j < |GroupOrder| ==> Items(ss, GroupOrder[j]) == Items(tt, GroupOrder[j])
    ensures GroupsUpTo(ss, o) == GroupsUpTo(tt, o)
  {
    if o > 0 {
      GroupsAgree(ss, tt, o - 1);
      assert Items(ss, GroupOrder[o - 1]) == Items(tt, GroupOrder[o - 1]);
    }
  }

  lemma {:induction false} GroupsOfNone(o: nat)
    requires o <= |GroupOrder|
    ensures GroupsUpTo([], o) == []
  {
    if o > 0 {
      GroupsOfNone(o - 1);
    }
  }
}
