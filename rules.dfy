/** The locators of rules.js: the version tabs, the containers of the Diffs and Report
    sections, the label of the selected version and the task id of a URL. */
module Rules {
  import opened Text
  import opened Dom

  /** The first element of ls that passes the test: the first match of a selector. */
  function FirstWhere(ls: seq<Located>, test: Element -> bool): (r: Option<Located>)
    ensures r.None? <==> forall l :: l in ls ==> !test(l.el)
    ensures r.Some? ==>
      exists k :: 0 <= k < |ls| && ls[k] == r.value && test(r.value.el) &&
        forall j :: 0 <= j < k ==> !test(ls[j].el)
  {
    if ls == [] then None
    else if test(ls[0].el) then Some(ls[0])
    else
      var r := FirstWhere(ls[1..], test);
      assert forall l :: l in ls[1..] ==> l in ls;
      assert forall l :: l in ls ==> l == ls[0] || l in ls[1..];
      if r.Some? then
        ghost var k :| 0 <= k < |ls[1..]| && ls[1..][k] == r.value && test(r.value.el) &&
          forall j :: 0 <= j < k ==> !test(ls[1..][j].el);
        assert ls[k + 1] == r.value;
        assert forall j :: 0 < j < k + 1 ==> ls[j] == ls[1..][j - 1];
        r
      else r
  }

  // ---------------------------------------------------------------------------
  // collectVersionTabs

  /** `/^version\s*\d+$/i`: "version", any whitespace, then one or more digits. */
  predicate IsVersionTabLabel(t: string) {
    StartsWithCI(t, "version") &&
    exists k :: 7 <= k < |t| && AllSpace(t[7..k]) && AllDigits(t[k..])
  }

  /** The ASCII whitespace that separates the tokens of a `class` attribute. */
  predicate IsClassSep(c: char) {
    c == ' ' || c == '\t' || c == '\n' || c == '\U{000C}' || c == '\r'
  }

  /** c is one of the whitespace-separated tokens of the class attribute cls. */
  predicate HasClass(cls: string, c: string) {
    exists i :: 0 <= i <= |cls| && OccursAt(cls, c, i) &&
      (i == 0 || IsClassSep(cls[i - 1])) && (i + |c| == |cls| || IsClassSep(cls[i + |c|]))
  }

  /** `div.border-token-border-default.flex.items-center.justify-between` */
  predicate IsHeaderBar(e: Element) {
    e.tag == "DIV" && HasClass(e.className, "border-token-border-default") &&
    HasClass(e.className, "flex") && HasClass(e.className, "items-center") &&
    HasClass(e.className, "justify-between")
  }

  predicate IsButton(e: Element) { e.tag == "BUTTON" }

  /** Role `tab` or `option`, or a BUTTON: the elements the fallback walk considers. */
  predicate IsTabCandidate(e: Element) {
    Attr(e, "role") == Some("tab") || Attr(e, "role") == Some("option") || e.tag == "BUTTON"
  }

  /** A version tab and its trimmed label. */
  datatype Tab = Tab(at: Located, name: string)

  /** What `consider` accepts: visible, with a trimmed text of the form "Version N". */
  predicate Qualifies(e: Element) {
    Visible(e) && IsVersionTabLabel(Trim(e.text))
  }

  /** `consider` applied in order to the elements of ls that pass test. */
  function Considered(ls: seq<Located>, test: Element -> bool): seq<Tab>
    decreases |ls|
  {
    if ls == [] then []
    else
      var l := ls[|ls| - 1];
      Considered(ls[..|ls| - 1], test) +
      (if test(l.el) && Qualifies(l.el) then [Tab(l, Trim(l.el.text))] else [])
  }

  /** The header bar: the first matching element of the document, outside shadow trees. */
  function HeaderBar(doc: seq<Element>): Option<Located> {
    FirstWhere(LightElements(doc), IsHeaderBar)
  }

  /** The qualifying buttons inside the header bar. */
  function HeaderTabs(doc: seq<Element>): seq<Tab> {
    match HeaderBar(doc)
    case None => []
    case Some(h) => Considered(Descendants(h), IsButton)
  }

  /** `collectVersionTabs(document)`: the header bar's tabs if it has any, otherwise the
      qualifying tabs, options and buttons of the whole walk. */
  function VersionTabs(doc: seq<Element>): seq<Tab> {
    var fromHeader := HeaderTabs(doc);
    if fromHeader != [] then fromHeader else Considered(Walk(doc), IsTabCandidate)
  }

  /** Tabs in strictly increasing document order. */
  predicate TabsSorted(ts: seq<Tab>) {
    forall i, j :: 0 <= i < j < |ts| ==> Before(ts[i].at.path, ts[j].at.path)
  }

  /** `for (const el of ls)`, skipping elements that fail test and passing the others
      to `consider`, which pushes the qualifying ones onto `tabs`. */
  method ConsiderEach(ls: seq<Located>, test: Element -> bool) returns (tabs: seq<Tab>)
    ensures tabs == Considered(ls, test)
  {
    tabs := [];
    var i := 0;
    while i < |ls|
      invariant 0 <= i <= |ls|
      invariant tabs == Considered(ls[..i], test)
    {
      var el := ls[i];
      ConsideredStep(ls, i, test);
      if test(el.el) && Visible(el.el) {
        var caption := Trim(el.el.text);
        if IsVersionTabLabel(caption) {
          tabs := tabs + [Tab(el, caption)];
        }
      }
      i := i + 1;
    }
    assert ls[..|ls|] == ls;
  }

  lemma ConsideredStep(ls: seq<Located>, i: nat, test: Element -> bool)
    requires i < |ls|
    ensures Considered(ls[..i + 1], test) == Considered(ls[..i], test) +
      (if test(ls[i].el) && Qualifies(ls[i].el) then [Tab(ls[i], Trim(ls[i].el.text))] else [])
  {
    assert ls[..i + 1][..i] == ls[..i];
  }

  /** `collectVersionTabs(document)`, with its early return after the header bar. */
  method CollectVersionTabs(doc: seq<Element>) returns (tabs: seq<Tab>)
    ensures tabs == VersionTabs(doc)
  {
    var header := HeaderBar(doc);
    if header.Some? {
      tabs := ConsiderEach(Descendants(header.value), IsButton);
      if tabs != [] {
        return;
      }
    }
    var all := WalkTree(doc);
    tabs := ConsiderEach(all, IsTabCandidate);
  }

  /** What `consider` keeps is a qualifying element of ls that passes the test, labelled
      by its trimmed text. */
  lemma {:induction false} ConsideredSound(ls: seq<Located>, test: Element -> bool)
    ensures forall t :: t in Considered(ls, test) ==>
      t.at in ls && test(t.at.el) && Qualifies(t.at.el) && t.name == Trim(t.at.el.text)
    decreases |ls|
  {
    if ls != [] {
      var init := ls[..|ls| - 1];
      ConsideredSound(init, test);
      assert forall x :: x in init ==> x in ls;
    }
  }

  /** `consider` keeps every qualifying element of ls that passes the test. */
  lemma {:induction false} ConsideredComplete(ls: seq<Located>, test: Element -> bool)
    ensures forall l :: l in ls && test(l.el) && Qualifies(l.el) ==>
      Tab(l, Trim(l.el.text)) in Considered(ls, test)
    decreases |ls|
  {
    if ls != [] {
      var init := ls[..|ls| - 1];
      ConsideredComplete(init, test);
      assert ls == init + [ls[|ls| - 1]];
      assert forall x :: x in ls ==> x in init || x == ls[|ls| - 1];
    }
  }

  /** `consider` keeps nothing from a list without a qualifying element that passes test. */
  lemma {:induction false} ConsideredNone(ls: seq<Located>, test: Element -> bool)
    requires forall l :: l in ls ==> !(test(l.el) && Qualifies(l.el))
    ensures Considered(ls, test) == []
    decreases |ls|
  {
    if ls != [] {
      assert forall x :: x in ls[..|ls| - 1] ==> x in ls;
      ConsideredNone(ls[..|ls| - 1], test);
    }
  }

  /** `consider` keeps the order of ls. */
  lemma {:induction false} ConsideredSorted(ls: seq<Located>, test: Element -> bool)
    requires Sorted(ls)
    ensures TabsSorted(Considered(ls, test))
    decreases |ls|
  {
    if ls != [] {
      var init := ls[..|ls| - 1];
      var l := ls[|ls| - 1];
      assert Sorted(init) by {
        forall i, j | 0 <= i < j < |init| ensures Before(init[i].path, init[j].path) {
          assert init[i] == ls[i] && init[j] == ls[j];
        }
      }
      ConsideredSorted(init, test);
      ConsideredSound(init, test);
      var ts := Considered(ls, test);
      var head := Considered(init, test);
      forall i, j | 0 <= i < j < |ts| ensures Before(ts[i].at.path, ts[j].at.path) {
        if j >= |head| {
          assert ts[j].at == l;
          assert ts[i] == head[i] && ts[i] in head;
          var k :| 0 <= k < |init| && init[k] == ts[i].at;
          assert ls[k] == ts[i].at;
        } else {
          assert ts[i] == head[i] && ts[j] == head[j];
        }
      }
    }
  }

  /** Every version tab is a visible element of the document, at its own address,
      labelled by its trimmed text of the form "Version N"; the tabs follow document
      order (not the numbers of the labels) and none is repeated. */
  lemma VersionTabsSpec(doc: seq<Element>)
    ensures forall t :: t in VersionTabs(doc) ==>
      At(doc, t.at.path) == Some(t.at.el) && Visible(t.at.el) &&
      t.name == Trim(t.at.el.text) && IsVersionTabLabel(t.name)
    ensures TabsSorted(VersionTabs(doc))
  {
    if HeaderTabs(doc) != [] {
      var h := HeaderBar(doc).value;
      HeaderTabsAt(doc, h);
      DescendantsSpec(h);
      ConsideredSound(Descendants(h), IsButton);
      ConsideredSorted(Descendants(h), IsButton);
    } else {
      WalkSpec(doc);
      ConsideredSound(Walk(doc), IsTabCandidate);
      ConsideredSorted(Walk(doc), IsTabCandidate);
    }
  }

  /** The buttons below the header bar are at their own addresses in the document. */
  lemma HeaderTabsAt(doc: seq<Element>, h: Located)
    requires HeaderBar(doc) == Some(h)
    ensures forall d :: d in Descendants(h) ==>
      |d.path| > |h.path| && d.path[..|h.path|] == h.path && At(doc, d.path) == Some(d.el)
  {
    WalkListSound(doc, [], 0, true, false);
    assert h in LightElements(doc);
    assert h.path[0..] == h.path;
    assert At(doc, h.path) == Some(h.el);
    DescendantsSpec(h);
    forall d | d in Descendants(h)
      ensures At(doc, d.path) == Some(d.el)
    {
      var r := d.path[|h.path|..];
      assert d.path == h.path + r;
      AtSplit(doc, h.path, r);
    }
  }

  /** When the header bar holds a qualifying button, the result is exactly the header's
      qualifying buttons, all of them below the header bar. */
  lemma VersionTabsFromHeader(doc: seq<Element>, h: Located)
    requires HeaderBar(doc) == Some(h)
    requires exists l :: l in Descendants(h) && IsButton(l.el) && Qualifies(l.el)
    ensures forall t :: t in VersionTabs(doc) ==>
      IsButton(t.at.el) && |t.at.path| > |h.path| && t.at.path[..|h.path|] == h.path
    ensures forall l :: l in Descendants(h) && IsButton(l.el) && Qualifies(l.el) ==>
      Tab(l, Trim(l.el.text)) in VersionTabs(doc)
  {
    ConsideredSound(Descendants(h), IsButton);
    ConsideredComplete(Descendants(h), IsButton);
    HeaderTabsAt(doc, h);
    var l :| l in Descendants(h) && IsButton(l.el) && Qualifies(l.el);
    assert Tab(l, Trim(l.el.text)) in HeaderTabs(doc);
  }

  /** Otherwise the result is exactly the qualifying elements of the whole document,
      shadow trees included, that have role tab or option or are buttons. */
  lemma VersionTabsFromWalk(doc: seq<Element>)
    requires forall h :: HeaderBar(doc) == Some(h) ==>
      forall l :: l in Descendants(h) ==> !(IsButton(l.el) && Qualifies(l.el))
    ensures forall t :: t in VersionTabs(doc) ==> IsTabCandidate(t.at.el)
    ensures forall q :: At(doc, q).Some? && IsTabCandidate(At(doc, q).value) && Qualifies(At(doc, q).value) ==>
      Tab(Located(At(doc, q).value, q), Trim(At(doc, q).value.text)) in VersionTabs(doc)
  {
    assert HeaderTabs(doc) == [] by {
      if HeaderBar(doc).Some? {
        ConsideredNone(Descendants(HeaderBar(doc).value), IsButton);
      }
    }
    WalkSpec(doc);
    ConsideredSound(Walk(doc), IsTabCandidate);
    ConsideredComplete(Walk(doc), IsTabCandidate);
  }

  // ---------------------------------------------------------------------------
  // findSectionByHeadings

  /** A tag name containing H1 to H5. */
  predicate IsHeadingTag(tag: string) {
    Contains(tag, "H1") || Contains(tag, "H2") || Contains(tag, "H3") ||
    Contains(tag, "H4") || Contains(tag, "H5")
  }

  predicate IsHeading(e: Element) {
    IsHeadingTag(e.tag) || Attr(e, "role") == Some("heading")
  }

  /** The alternatives of the pattern; no labels give the empty alternative `(?:)`. */
  function Alternatives(labels: seq<string>): (alts: seq<string>)
    ensures alts != []
  {
    if labels == [] then [""] else labels
  }

  /** `^\s*(?:l1|l2|…)\s*$`, case-insensitive, with every label taken literally. */
  predicate MatchesLabel(text: string, labels: seq<string>) {
    exists k, i, j :: 0 <= k < |Alternatives(labels)| && 0 <= i <= j <= |text| &&
      AllSpace(text[..i]) && AllSpace(text[j..]) && EqCI(text[i..j], Alternatives(labels)[k])
  }

  /** For a trimmed text and non-empty trimmed labels, the pattern is case-insensitive
      equality with one of the labels. */
  lemma MatchesLabelExactly(text: string, labels: seq<string>)
    requires IsTrimmed(text)
    requires labels != [] && forall k :: 0 <= k < |labels| ==> labels[k] != []
    ensures MatchesLabel(text, labels) <==> exists k :: 0 <= k < |labels| && EqCI(text, labels[k])
  {
    assert Alternatives(labels) == labels;
    if MatchesLabel(text, labels) {
      var k, i, j :| 0 <= k < |labels| && 0 <= i <= j <= |text| &&
        AllSpace(text[..i]) && AllSpace(text[j..]) && EqCI(text[i..j], labels[k]);
      TrimmedEnds(text, i, j);
      assert text[0..|text|] == text;
    }
    if exists k :: 0 <= k < |labels| && EqCI(text, labels[k]) {
      var k :| 0 <= k < |labels| && EqCI(text, labels[k]);
      assert text[..0] == [] && text[|text|..] == [] && text[0..|text|] == text;
      assert 0 <= k < |Alternatives(labels)| && AllSpace(text[..0]) && AllSpace(text[|text|..]) &&
        EqCI(text[0..|text|], Alternatives(labels)[k]);
    }
  }

  /** In a trimmed text, whitespace around a non-empty middle can only be empty. */
  lemma TrimmedEnds(text: string, i: nat, j: nat)
    requires IsTrimmed(text) && i < j <= |text|
    requires AllSpace(text[..i]) && AllSpace(text[j..])
    ensures i == 0 && j == |text|
  {
  }

  /** A heading the loop stops at: visible, a heading, with a matching trimmed text. */
  predicate IsSectionHeading(e: Element, labels: seq<string>) {
    Visible(e) && IsHeading(e) && MatchesLabel(Trim(e.text), labels)
  }

  /** The test of the walk loop, for given labels. */
  function HeadingTest(labels: seq<string>): Element -> bool {
    e => IsSectionHeading(e, labels)
  }

  /** The element list that holds the element at q: the document's children, a light
      child list or a shadow root's children. */
  function SiblingList(doc: seq<Element>, q: Path): seq<Element> {
    if q == [] then []
    else if |q| == 1 then (if q[0].Child? then doc else [])
    else match At(doc, q[..|q| - 1])
      case None => []
      case Some(parent) => Kids(parent, q[|q| - 1].Child?)
  }

  /** The visible siblings after index j of the list, in order: `nextElementSibling`
      followed while the element is not visible. */
  function NextVisibleFrom(sibs: seq<Element>, parent: Path, light: bool, j: nat): (r: Option<Located>)
    ensures r.Some? ==>
      exists m :: j <= m < |sibs| && r.value == Located(sibs[m], parent + [StepIn(light, m)]) &&
        Visible(sibs[m]) && forall n :: j <= n < m ==> !Visible(sibs[n])
    ensures r.None? <==> forall n :: j <= n < |sibs| ==> !Visible(sibs[n])
    decreases |sibs| - j
  {
    if j >= |sibs| then None
    else if Visible(sibs[j]) then Some(Located(sibs[j], parent + [StepIn(light, j)]))
    else NextVisibleFrom(sibs, parent, light, j + 1)
  }

  function NextVisibleSibling(doc: seq<Element>, q: Path): Option<Located> {
    if q == [] then None
    else NextVisibleFrom(SiblingList(doc, q), q[..|q| - 1], q[|q| - 1].Child?, q[|q| - 1].i + 1)
  }

  /** `parentElement`: None for a child of the document or of a shadow root. */
  function ParentElement(doc: seq<Element>, q: Path): Option<Located> {
    if |q| >= 2 && q[|q| - 1].Child? then
      match At(doc, q[..|q| - 1])
      case None => None
      case Some(parent) => Some(Located(parent, q[..|q| - 1]))
    else None
  }

  /** What follows a heading: its next visible sibling, else its parent element. */
  function SectionAfter(doc: seq<Element>, heading: Option<Located>): Option<Located> {
    match heading
    case None => None
    case Some(h) =>
      match NextVisibleSibling(doc, h.path)
      case Some(s) => Some(s)
      case None => ParentElement(doc, h.path)
  }

  /** `findSectionByHeadings(labels, document)` */
  function SectionByHeadings(doc: seq<Element>, labels: seq<string>): Option<Located> {
    SectionAfter(doc, FirstWhere(Walk(doc), HeadingTest(labels)))
  }

  /** The labels of the Diffs and the Report section. */
  const DiffsHeadings: seq<string> := ["Diffs", "Changes", "Diff Logs", "Patch"]
  const ReportHeadings: seq<string> := ["Report", "Summary", "Run Report", "Task Report"]

  /** For the Diffs and the Report section, whose labels are non-empty and trimmed, a
      heading matches exactly when its trimmed text equals one of the section's labels up
      to ASCII case. */
  lemma SectionLabelsExact(text: string, labels: seq<string>)
    requires labels == DiffsHeadings || labels == ReportHeadings
    ensures MatchesLabel(Trim(text), labels) <==>
      exists k :: 0 <= k < |labels| && EqCI(Trim(text), labels[k])
  {
    assert labels != [] && forall k :: 0 <= k < |labels| ==> labels[k] != [] by {
      assert |labels| == 4;
      assert labels[0] != [] && labels[1] != [] && labels[2] != [] && labels[3] != [];
    }
    MatchesLabelExactly(Trim(text), labels);
  }

  /** The walk loop of `findSectionByHeadings`, which stops at the first section heading. */
  method FindHeading(all: seq<Located>, labels: seq<string>) returns (heading: Option<Located>)
    ensures heading == FirstWhere(all, HeadingTest(labels))
  {
    heading := None;
    var i := 0;
    while i < |all|
      invariant 0 <= i <= |all|
      invariant forall j :: 0 <= j < i ==> !IsSectionHeading(all[j].el, labels)
    {
      var el := all[i];
      if Visible(el.el) && IsHeading(el.el) {
        var text := Trim(el.el.text);
        if MatchesLabel(text, labels) {
          heading := Some(el);
          FirstWhereAt(all, HeadingTest(labels), i);
          return;
        }
      }
      i := i + 1;
    }
    assert forall l :: l in all ==> !HeadingTest(labels)(l.el);
  }

  /** An element that passes the test after none that does is the first match. */
  lemma FirstWhereAt(ls: seq<Located>, test: Element -> bool, k: nat)
    requires k < |ls| && test(ls[k].el)
    requires forall j :: 0 <= j < k ==> !test(ls[j].el)
    ensures FirstWhere(ls, test) == Some(ls[k])
  {
    var r := FirstWhere(ls, test);
    var k' :| 0 <= k' < |ls| && ls[k'] == r.value && test(r.value.el) &&
      forall j :: 0 <= j < k' ==> !test(ls[j].el);
    assert k' == k;
  }

  /** `cur = cur.nextElementSibling` while `cur` is not visible, from index j of sibs. */
  method NextVisible(sibs: seq<Element>, parent: Path, light: bool, j0: nat) returns (r: Option<Located>)
    ensures r == NextVisibleFrom(sibs, parent, light, j0)
  {
    var j := j0;
    while j < |sibs| && !Visible(sibs[j])
      invariant j0 <= j
      invariant NextVisibleFrom(sibs, parent, light, j) == NextVisibleFrom(sibs, parent, light, j0)
      decreases |sibs| - j
    {
      j := j + 1;
    }
    if j < |sibs| {
      r := Some(Located(sibs[j], parent + [StepIn(light, j)]));
    } else {
      r := None;
    }
  }

  /** After the walk loop: `heading.nextElementSibling` followed past hidden elements,
      else `heading.parentElement`. */
  method Follow(doc: seq<Element>, heading: Option<Located>) returns (r: Option<Located>)
    ensures r == SectionAfter(doc, heading)
  {
    if heading.None? {
      return None;
    }
    var q := heading.value.path;
    var next := None;
    if q != [] {
      next := NextVisible(SiblingList(doc, q), q[..|q| - 1], q[|q| - 1].Child?, q[|q| - 1].i + 1);
    }
    if next.Some? {
      r := next;
    } else {
      r := ParentElement(doc, q);
    }
  }

  /** `findSectionByHeadings(labels, document)` */
  method FindSectionByHeadings(doc: seq<Element>, labels: seq<string>) returns (r: Option<Located>)
    ensures r == SectionByHeadings(doc, labels)
  {
    var all := WalkTree(doc);
    var heading := FindHeading(all, labels);
    r := Follow(doc, heading);
  }

  /** s is a sibling of q, under the same node and of the same kind, after q. */
  predicate LaterSibling(q: Path, s: Path) {
    |q| == |s| > 0 && q[..|q| - 1] == s[..|s| - 1] &&
    q[|q| - 1].Child? == s[|s| - 1].Child? && q[|q| - 1].i < s[|s| - 1].i
  }

  /** The siblings of the element at q are the elements at its parent's path extended
      by one step of the same kind. */
  lemma SiblingAt(doc: seq<Element>, q: Path, j: nat)
    requires At(doc, q).Some?
    ensures q != []
    ensures At(doc, q[..|q| - 1] + [StepIn(q[|q| - 1].Child?, j)]) ==
      (if j < |SiblingList(doc, q)| then Some(SiblingList(doc, q)[j]) else None)
  {
    var parent := q[..|q| - 1];
    var s := StepIn(q[|q| - 1].Child?, j);
    if |q| == 1 {
      assert parent + [s] == [s];
      assert q[0].Child? && s == Child(j);
      assert At(doc, [s]) == AtList(doc, true, [s]);
      if j < |doc| {
        assert [s][1..] == [];
        assert AtFrom(doc[j], []) == Some(doc[j]);
      }
    } else {
      assert q == parent + [q[|q| - 1]];
      AtSplit(doc, parent, [q[|q| - 1]]);
      AtSplit(doc, parent, [s]);
      var par := At(doc, parent).value;
      var kids := Kids(par, s.Child?);
      assert SiblingList(doc, q) == kids;
      assert AtFrom(par, [s]) == AtList(kids, s.Child?, [s]);
      if j < |kids| {
        assert [s][1..] == [];
        assert AtFrom(kids[j], []) == Some(kids[j]);
      }
    }
  }

  /** `findSectionByHeadings` gives null when no visible heading of the document,
      shadow trees included, has one of the labels as its trimmed text. */
  lemma SectionNotFound(doc: seq<Element>, labels: seq<string>)
    requires forall q :: At(doc, q).Some? ==> !IsSectionHeading(At(doc, q).value, labels)
    ensures SectionByHeadings(doc, labels) == None
  {
    WalkSpec(doc);
    assert forall l :: l in Walk(doc) ==> !HeadingTest(labels)(l.el);
  }

  /** Otherwise the loop stops at the first visible heading with a matching text in
      document order, shadow trees included. */
  lemma SectionHeadingFirst(doc: seq<Element>, labels: seq<string>, h: Located)
    requires FirstWhere(Walk(doc), HeadingTest(labels)) == Some(h)
    ensures At(doc, h.path) == Some(h.el) && IsSectionHeading(h.el, labels)
    ensures forall l :: l in Walk(doc) && Before(l.path, h.path) ==> !IsSectionHeading(l.el, labels)
  {
    WalkSpec(doc);
    var W := Walk(doc);
    var k :| 0 <= k < |W| && W[k] == h && HeadingTest(labels)(h.el) &&
      forall j :: 0 <= j < k ==> !HeadingTest(labels)(W[j].el);
    forall l | l in W && Before(l.path, h.path)
      ensures !IsSectionHeading(l.el, labels)
    {
      var j :| 0 <= j < |W| && W[j] == l;
      if j > k {
        BeforeAsymmetric(h.path, l.path);
      } else if j == k {
        BeforeIrreflexive(h.path);
      }
      assert j < k;
      assert !HeadingTest(labels)(W[j].el);
    }
  }

  /** A later sibling of q is q's parent path extended by a step of q's kind. */
  lemma LaterSiblingShape(q: Path, t: Path)
    requires LaterSibling(q, t)
    ensures t == q[..|q| - 1] + [StepIn(q[|q| - 1].Child?, t[|t| - 1].i)]
  {
    assert t == t[..|t| - 1] + [t[|t| - 1]];
  }

  /** When a later sibling of the element at q is visible, `nextElementSibling` followed
      past hidden elements reaches a visible later sibling. */
  lemma NextVisibleSiblingFound(doc: seq<Element>, q: Path, s: Path)
    requires At(doc, q).Some?
    requires LaterSibling(q, s) && At(doc, s).Some? && Visible(At(doc, s).value)
    ensures var next := NextVisibleSibling(doc, q);
      next.Some? && LaterSibling(q, next.value.path) && At(doc, next.value.path) == Some(next.value.el) &&
      Visible(next.value.el)
  {
    SiblingAt(doc, q, 0);
    var sibs := SiblingList(doc, q);
    var parent := q[..|q| - 1];
    var light := q[|q| - 1].Child?;
    var j0 := q[|q| - 1].i + 1;
    var next := NextVisibleSibling(doc, q);
    assert next == NextVisibleFrom(sibs, parent, light, j0);
    LaterSiblingShape(q, s);
    SiblingAt(doc, q, s[|s| - 1].i);
    assert next.Some?;
    var m :| j0 <= m < |sibs| && next.value == Located(sibs[m], parent + [StepIn(light, m)]) && Visible(sibs[m]);
    SiblingAt(doc, q, m);
  }

  /** Every sibling between the element at q and its next visible sibling is hidden. */
  lemma NextVisibleSiblingFirst(doc: seq<Element>, q: Path)
    requires At(doc, q).Some? && NextVisibleSibling(doc, q).Some?
    ensures var next := NextVisibleSibling(doc, q);
      forall t :: LaterSibling(q, t) && LaterSibling(t, next.value.path) && At(doc, t).Some? ==>
        !Visible(At(doc, t).value)
  {
    SiblingAt(doc, q, 0);
    var sibs := SiblingList(doc, q);
    var parent := q[..|q| - 1];
    var light := q[|q| - 1].Child?;
    var j0 := q[|q| - 1].i + 1;
    var next := NextVisibleSibling(doc, q);
    assert next == NextVisibleFrom(sibs, parent, light, j0);
    var m :| j0 <= m < |sibs| && next.value == Located(sibs[m], parent + [StepIn(light, m)]) &&
      Visible(sibs[m]) && forall n :: j0 <= n < m ==> !Visible(sibs[n]);
    forall t: Path | LaterSibling(q, t) && LaterSibling(t, next.value.path) && At(doc, t).Some?
      ensures !Visible(At(doc, t).value)
    {
      LaterSiblingShape(q, t);
      SiblingAt(doc, q, t[|t| - 1].i);
    }
  }

  /** When every later sibling of the element at q is hidden, there is no next visible
      sibling. */
  lemma NextVisibleSiblingNone(doc: seq<Element>, q: Path)
    requires At(doc, q).Some?
    requires forall s :: LaterSibling(q, s) && At(doc, s).Some? ==> !Visible(At(doc, s).value)
    ensures NextVisibleSibling(doc, q) == None
  {
    SiblingAt(doc, q, 0);
    var sibs := SiblingList(doc, q);
    var parent := q[..|q| - 1];
    var light := q[|q| - 1].Child?;
    forall n | q[|q| - 1].i + 1 <= n < |sibs|
      ensures !Visible(sibs[n])
    {
      SiblingAt(doc, q, n);
      assert LaterSibling(q, parent + [StepIn(light, n)]);
    }
  }

  /** `parentElement` of the element at q: the element above it, unless q is a child of
      the document or of a shadow root. */
  lemma ParentElementSpec(doc: seq<Element>, q: Path)
    requires At(doc, q).Some?
    ensures var p := ParentElement(doc, q);
      if |q| >= 2 && q[|q| - 1].Child? then
        p.Some? && p.value.path == q[..|q| - 1] && At(doc, p.value.path) == Some(p.value.el)
      else
        p == None
  {
    if |q| >= 2 && q[|q| - 1].Child? {
      var parent := q[..|q| - 1];
      assert q == parent + [q[|q| - 1]];
      AtSplit(doc, parent, [q[|q| - 1]]);
    }
  }

  /** From that heading h: when a later sibling of h is visible, the result is the first
      visible one, and every sibling between the two is hidden. */
  lemma SectionIsNextSibling(doc: seq<Element>, labels: seq<string>, h: Located, s: Path)
    requires FirstWhere(Walk(doc), HeadingTest(labels)) == Some(h)
    requires LaterSibling(h.path, s) && At(doc, s).Some? && Visible(At(doc, s).value)
    ensures var r := SectionByHeadings(doc, labels);
      r.Some? && LaterSibling(h.path, r.value.path) && At(doc, r.value.path) == Some(r.value.el) &&
      Visible(r.value.el) &&
      forall t :: LaterSibling(h.path, t) && LaterSibling(t, r.value.path) && At(doc, t).Some? ==>
        !Visible(At(doc, t).value)
  {
    assert At(doc, h.path) == Some(h.el) by {
      SectionHeadingFirst(doc, labels, h);
    }
    NextVisibleSiblingFound(doc, h.path, s);
    NextVisibleSiblingFirst(doc, h.path);
  }

  /** When every later sibling of h is hidden, the result is h's parent element, which
      is null when h is a child of the document or of a shadow root. */
  lemma SectionIsParent(doc: seq<Element>, labels: seq<string>, h: Located)
    requires FirstWhere(Walk(doc), HeadingTest(labels)) == Some(h)
    requires forall s :: LaterSibling(h.path, s) && At(doc, s).Some? ==> !Visible(At(doc, s).value)
    ensures var r := SectionByHeadings(doc, labels);
      if |h.path| >= 2 && h.path[|h.path| - 1].Child? then
        r.Some? && r.value.path == h.path[..|h.path| - 1] && At(doc, r.value.path) == Some(r.value.el)
      else
        r == None
  {
    assert At(doc, h.path) == Some(h.el) by {
      SectionHeadingFirst(doc, labels, h);
    }
    NextVisibleSiblingNone(doc, h.path);
    ParentElementSpec(doc, h.path);
  }

  // ---------------------------------------------------------------------------
  // versionLocator

  /** `[aria-selected="true"][role="tab"], [aria-current="true"][role="option"]` */
  predicate IsActiveTab(e: Element) {
    (Attr(e, "aria-selected") == Some("true") && Attr(e, "role") == Some("tab")) ||
    (Attr(e, "aria-current") == Some("true") && Attr(e, "role") == Some("option"))
  }

  /** `/text-token-text-primary/` found in the class name. */
  predicate IsHighlighted(t: Tab) {
    Contains(t.at.el.className, "text-token-text-primary")
  }

  /** `tabs.find(...)`: the first highlighted tab. */
  function FirstHighlighted(tabs: seq<Tab>): (r: Option<Tab>)
    ensures r.None? ==> forall t :: t in tabs ==> !IsHighlighted(t)
    ensures r.Some? ==>
      exists k :: 0 <= k < |tabs| && tabs[k] == r.value && IsHighlighted(r.value) &&
        forall j :: 0 <= j < k ==> !IsHighlighted(tabs[j])
  {
    if tabs == [] then None
    else if IsHighlighted(tabs[0]) then Some(tabs[0])
    else
      var r := FirstHighlighted(tabs[1..]);
      assert forall t :: t in tabs ==> t == tabs[0] || t in tabs[1..];
      if r.Some? then
        ghost var k :| 0 <= k < |tabs[1..]| && tabs[1..][k] == r.value && IsHighlighted(r.value) &&
          forall j :: 0 <= j < k ==> !IsHighlighted(tabs[1..][j]);
        assert tabs[k + 1] == r.value;
        assert forall j :: 0 < j < k + 1 ==> tabs[j] == tabs[1..][j - 1];
        r
      else r
  }

  /** `RULES.versionLocator(document)` */
  function VersionLocator(doc: seq<Element>): string {
    match FirstWhere(LightElements(doc), IsActiveTab)
    case Some(active) => Trim(active.el.text)
    case None =>
      var tabs := VersionTabs(doc);
      if tabs == [] then ""
      else match FirstHighlighted(tabs)
        case Some(t) => t.name
        case None => tabs[0].name
  }

  /** A selected tab or current option wins with its trimmed text: the first one in
      document order. Otherwise the result is empty exactly when there are no version
      tabs, and else it is the label of the first highlighted tab, or of the first tab
      when none is highlighted; that label has the form "Version N". */
  lemma VersionLocatorSpec(doc: seq<Element>)
    ensures var ls := LightElements(doc);
      (exists l :: l in ls && IsActiveTab(l.el)) ==>
        exists k :: 0 <= k < |ls| && IsActiveTab(ls[k].el) && VersionLocator(doc) == Trim(ls[k].el.text) &&
          forall j :: 0 <= j < k ==> !IsActiveTab(ls[j].el)
    ensures var tabs := VersionTabs(doc);
      (forall l :: l in LightElements(doc) ==> !IsActiveTab(l.el)) ==>
        (VersionLocator(doc) == "" <==> tabs == []) &&
        (tabs != [] ==>
          IsVersionTabLabel(VersionLocator(doc)) &&
          exists k :: 0 <= k < |tabs| && tabs[k].name == VersionLocator(doc) &&
            ((IsHighlighted(tabs[k]) && forall j :: 0 <= j < k ==> !IsHighlighted(tabs[j])) ||
             (k == 0 && forall t :: t in tabs ==> !IsHighlighted(t))))
  {
    var tabs := VersionTabs(doc);
    if FirstWhere(LightElements(doc), IsActiveTab).None? && tabs != [] {
      VersionTabsSpec(doc);
      var r := VersionLocator(doc);
      match FirstHighlighted(tabs)
      case Some(t) =>
        assert t in tabs;
      case None =>
        assert tabs[0] in tabs;
    }
  }

  // ---------------------------------------------------------------------------
  // taskIdFromUrl

  /** `/task_[a-z0-9_]+/i` can start a match at index i. */
  predicate TaskIdAt(s: string, i: int) {
    OccursCIAt(s, "task_", i) && i + 5 < |s| && IsWordChar(s[i + 5])
  }

  /** The end of the run of `[a-z0-9_]` (case-insensitive) that starts at j. */
  function WordRunEnd(s: string, j: nat): (k: nat)
    requires j <= |s|
    ensures j <= k <= |s| && (k == |s| || !IsWordChar(s[k]))
    ensures forall m :: j <= m < k ==> IsWordChar(s[m])
    decreases |s| - j
  {
    if j < |s| && IsWordChar(s[j]) then WordRunEnd(s, j + 1) else j
  }

  /** The leftmost index from i on where a match starts. */
  function FirstTaskIdFrom(s: string, i: nat): (r: Option<nat>)
    ensures r.Some? ==> i <= r.value && TaskIdAt(s, r.value) && forall m :: i <= m < r.value ==> !TaskIdAt(s, m)
    ensures r.None? ==> forall m :: i <= m ==> !TaskIdAt(s, m)
    decreases |s| - i
  {
    if i >= |s| then None
    else if TaskIdAt(s, i) then Some(i)
    else FirstTaskIdFrom(s, i + 1)
  }

  /** `RULES.taskIdFromUrl(href)`: the leftmost, longest match of `task_[a-z0-9_]+`
      (case-insensitive), or "task" when there is none. */
  function TaskIdFromUrl(href: string): (r: string)
    ensures (forall i :: 0 <= i ==> !TaskIdAt(href, i)) ==> r == "task"
    ensures (exists i :: 0 <= i && TaskIdAt(href, i)) ==>
      exists i, k :: 0 <= i && TaskIdAt(href, i) && (forall m :: 0 <= m < i ==> !TaskIdAt(href, m)) &&
        i + 6 <= k <= |href| && r == href[i..k] && (k == |href| || !IsWordChar(href[k])) &&
        StartsWithCI(r, "task_") && forall m :: 5 <= m < |r| ==> IsWordChar(r[m])
  {
    match FirstTaskIdFrom(href, 0)
    case None => "task"
    case Some(i) =>
      var k := WordRunEnd(href, i + 5);
      assert href[i..k][..5] == href[i..i + 5];
      href[i..k]
  }
}
