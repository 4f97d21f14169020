/** `extractLogsRaw` (content-script.js): the text of the logs view, narrowed to the
    children of its inner container after the first three when that tail is long enough.
    The inner container is searched breadth-first through visible elements. */
module LogsExtract {
  import opened Text
  import opened Dom
  import LogSplit

  /** `textOf(el)`: innerText when the element has it, else textContent. */
  function TextOf(e: Element): string {
    if e.innerText.Some? then e.innerText.value else e.text
  }

  /** `Array.from(els).filter(__isVisible)` */
  function VisibleOf(es: seq<Element>): (r: seq<Element>)
    ensures |r| <= |es|
    ensures forall x :: x in r ==> x in es && Visible(x)
    ensures forall x :: x in es && Visible(x) ==> x in r
  {
    if es == [] then [] else (if Visible(es[0]) then [es[0]] else []) + VisibleOf(es[1..])
  }

  function VisibleKids(e: Element): seq<Element> {
    VisibleOf(e.children)
  }

  /** `els.map(textOf)` */
  function Texts(es: seq<Element>): (r: seq<string>)
    ensures |r| == |es|
  {
    if es == [] then [] else [TextOf(es[0])] + Texts(es[1..])
  }

  // ---------------------------------------------------------------------------
  // looksLikeHeaderBlock

  /** `^(ask|code|…|view pr)\b`, case-insensitive. */
  predicate StartsWithCrumbWord(t: string) {
    exists k :: 0 <= k < |LogSplit.CrumbWords| && StartsWithWordCI(t, LogSplit.CrumbWords[k])
  }

  /** The trimmed text is non-empty and starts like the page's task header, is a
      `Version N` tab, is the environment setup heading, or carries a setup-log marker. */
  predicate LooksLikeHeaderBlock(s: string) {
    var t := Trim(s);
    t != [] &&
    (StartsWithWordCI(t, "implement") || StartsWithCrumbWord(t) || LogSplit.IsVersionLabel(t) ||
     EqCI(t, "environment setup") || ContainsCI(t, "[setup]") ||
     ContainsCI(t, "Configuring language runtimes"))
  }

  /** The test of `bfsPickContainer`: at least three visible children, the texts of the
      first three of which, joined by newlines, look like the header block. */
  predicate IsHeaderContainer(e: Element) {
    var kids := VisibleKids(e);
    |kids| >= 3 && LooksLikeHeaderBlock(Join(Texts(kids[..3]), "\n"))
  }

  /** The test of the fallback loop: at least four visible children. */
  predicate IsStackedBlock(e: Element) {
    |VisibleKids(e)| >= 4
  }

  // ---------------------------------------------------------------------------
  // The breadth-first order.

  /** The number of elements in e's light tree. */
  function Size(e: Element): nat
    decreases e, 1
  {
    1 + KidsSize(e.children, 0)
  }

  function KidsSize(es: seq<Element>, i: nat): nat
    decreases es, |es| - i
  {
    if i >= |es| then 0 else Size(es[i]) + KidsSize(es, i + 1)
  }

  /** The number of elements in the light trees of a queue. */
  function Sum(q: seq<Element>): nat {
    if q == [] then 0 else Size(q[0]) + Sum(q[1..])
  }

  lemma {:induction false} SumAppend(a: seq<Element>, b: seq<Element>)
    ensures Sum(a + b) == Sum(a) + Sum(b)
  {
    if a != [] {
      assert (a + b)[1..] == a[1..] + b;
      SumAppend(a[1..], b);
    } else {
      assert a + b == b;
    }
  }

  lemma {:induction false} KidsSizeSum(es: seq<Element>, i: nat)
    requires i <= |es|
    ensures KidsSize(es, i) == Sum(es[i..])
    decreases |es| - i
  {
    if i < |es| {
      KidsSizeSum(es, i + 1);
      assert es[i..][1..] == es[i + 1..];
    }
  }

  lemma {:induction false} SumVisible(es: seq<Element>)
    ensures Sum(VisibleOf(es)) <= Sum(es)
  {
    if es != [] {
      SumVisible(es[1..]);
      SumAppend(if Visible(es[0]) then [es[0]] else [], VisibleOf(es[1..]));
    }
  }

  /** Dequeuing a visible element and enqueuing its visible children shrinks the queue. */
  lemma BfsStep(q: seq<Element>)
    requires q != []
    ensures Sum(q[1..] + VisibleKids(q[0])) < Sum(q)
  {
    SumAppend(q[1..], VisibleKids(q[0]));
    SumVisible(q[0].children);
    KidsSizeSum(q[0].children, 0);
    assert q[0].children[0..] == q[0].children;
  }

  /** The visible elements dequeued from the queue q, in order: a visible element is
      followed later by its visible children; hidden ones are skipped with their trees. */
  function Bfs(q: seq<Element>): seq<Element>
    decreases Sum(q)
  {
    if q == [] then []
    else if !Visible(q[0]) then Bfs(q[1..])
    else
      BfsStep(q);
      [q[0]] + Bfs(q[1..] + VisibleKids(q[0]))
  }

  /** The first element of ls that passes the test. */
  function FirstElem(ls: seq<Element>, test: Element -> bool): (r: Option<Element>)
    ensures r.None? <==> forall x :: x in ls ==> !test(x)
    ensures r.Some? ==>
      exists k :: 0 <= k < |ls| && ls[k] == r.value && test(r.value) &&
        forall j :: 0 <= j < k ==> !test(ls[j])
  {
    if ls == [] then None
    else if test(ls[0]) then Some(ls[0])
    else
      var r := FirstElem(ls[1..], test);
      assert forall x :: x in ls ==> x == ls[0] || x in ls[1..];
      if r.Some? then
        ghost var k :| 0 <= k < |ls[1..]| && ls[1..][k] == r.value && test(r.value) &&
          forall j :: 0 <= j < k ==> !test(ls[1..][j]);
        assert ls[k + 1] == r.value;
        assert forall j :: 0 < j < k + 1 ==> ls[j] == ls[1..][j - 1];
        r
      else r
  }

  /** The two breadth-first loops of `extractLogsRaw`: dequeue, skip a hidden element,
      stop at one that passes the test, else enqueue its visible children. */
  method PickContainer(root: Element, test: Element -> bool) returns (found: Option<Element>)
    ensures found == FirstElem(Bfs([root]), test)
  {
    var q := [root];
    while q != []
      invariant FirstElem(Bfs(q), test) == FirstElem(Bfs([root]), test)
      decreases Sum(q)
    {
      var el := q[0];
      BfsStep(q);
      ghost var before := q;
      q := q[1..];
      if !Visible(el) {
        continue;
      }
      var kids := VisibleKids(el);
      if test(el) {
        return Some(el);
      }
      q := q + kids;
      assert Bfs(before) == [el] + Bfs(q);
    }
    return None;
  }

  // ---------------------------------------------------------------------------
  // extractLogsRaw

  /** The container whose children hold the log: the first header container in
      breadth-first order, else the first stacked block. */
  function Inner(root: Element): Option<Element> {
    match FirstElem(Bfs([root]), IsHeaderContainer)
    case Some(c) => Some(c)
    case None => FirstElem(Bfs([root]), IsStackedBlock)
  }

  /** `extractLogsRaw(root)` */
  function LogsRaw(root: Option<Element>): string {
    match root
    case None => ""
    case Some(r) =>
      var raw := TextOf(r);
      match Inner(r)
      case None => raw
      case Some(c) =>
        var kids := VisibleKids(c);
        if |kids| >= 3 then
          var kept := Join(Texts(kids[3..]), "\n");
          if |kept| > 200 then kept else raw
        else raw
  }

  /** `extractLogsRaw(root)`: `raw` starts as the root's text and is replaced by the
      inner container's tail when that is long enough. */
  method ExtractLogsRaw(root: Option<Element>) returns (raw: string)
    ensures raw == LogsRaw(root)
  {
    if root.None? {
      return "";
    }
    raw := TextOf(root.value);
    var inner := PickContainer(root.value, IsHeaderContainer);
    if inner.None? {
      inner := PickContainer(root.value, IsStackedBlock);
    }
    if inner.Some? {
      var kids := VisibleKids(inner.value);
      if |kids| >= 3 {
        var kept := Join(Texts(kids[3..]), "\n");
        if |kept| > 200 {
          raw := kept;
        }
      }
    }
  }

  // ---------------------------------------------------------------------------
  // Properties.

  /** An element reached from r through light children only. */
  ghost predicate LightBelow(r: Element, x: Element) {
    exists p: Path :: (forall k :: 0 <= k < |p| ==> p[k].Child?) && AtFrom(r, p) == Some(x)
  }

  lemma LightChild(r: Element, el: Element, kid: Element)
    requires LightBelow(r, el) && kid in el.children
    ensures LightBelow(r, kid)
  {
    var p: Path :| (forall k :: 0 <= k < |p| ==> p[k].Child?) && AtFrom(r, p) == Some(el);
    var i :| 0 <= i < |el.children| && el.children[i] == kid;
    AtFromSplit(r, p, [Child(i)]);
    assert Kids(el, true) == el.children;
    assert AtFrom(el, [Child(i)]) == AtList(el.children, true, [Child(i)]);
    assert [Child(i)][1..] == [];
    assert AtList(el.children, true, [Child(i)]) == AtFrom(kid, []) == Some(kid);
    var p' := p + [Child(i)];
    assert AtFrom(r, p') == Some(kid);
    assert forall k :: 0 <= k < |p'| ==> p'[k].Child? by {
      forall k | 0 <= k < |p'| ensures p'[k].Child? {
        if k < |p| { assert p'[k] == p[k]; }
      }
    }
  }

  /** Every element the search dequeues from a queue of elements below r is visible and
      below r. */
  lemma {:induction false} BfsBelow(r: Element, q: seq<Element>)
    requires forall x :: x in q ==> LightBelow(r, x)
    ensures forall x :: x in Bfs(q) ==> Visible(x) && LightBelow(r, x)
    decreases Sum(q)
  {
    if q != [] {
      assert forall x :: x in q[1..] ==> x in q;
      BfsStep(q);
      if !Visible(q[0]) {
        BfsBelow(r, q[1..]);
      } else {
        var next := q[1..] + VisibleKids(q[0]);
        forall x | x in next ensures LightBelow(r, x) {
          if x !in q[1..] {
            LightChild(r, q[0], x);
          }
        }
        BfsBelow(r, next);
      }
    }
  }

  /** A null root gives the empty string. Otherwise the result is the root's own text,
      or the newline-join of the texts of a container's visible children after the first
      three, and then it is longer than 200 characters. That container is visible and lies
      below the root; it is the first container in breadth-first order whose first three
      visible children look like the header block, or, when there is none, the first one
      with at least four visible children. */
  lemma LogsRawSpec(root: Option<Element>)
    ensures root.None? ==> LogsRaw(root) == ""
    ensures root.Some? ==>
      LogsRaw(root) == TextOf(root.value) ||
      (|LogsRaw(root)| > 200 &&
       exists c :: Inner(root.value) == Some(c) && Visible(c) && LightBelow(root.value, c) &&
         |VisibleKids(c)| >= 3 && LogsRaw(root) == Join(Texts(VisibleKids(c)[3..]), "\n"))
    ensures forall c :: root.Some? && Inner(root.value) == Some(c) ==>
      (|VisibleKids(c)| >= 3 && |Join(Texts(VisibleKids(c)[3..]), "\n")| > 200 ==>
         LogsRaw(root) == Join(Texts(VisibleKids(c)[3..]), "\n")) &&
      (!(|VisibleKids(c)| >= 3 && |Join(Texts(VisibleKids(c)[3..]), "\n")| > 200) ==>
         LogsRaw(root) == TextOf(root.value))
    ensures root.Some? && Inner(root.value).None? ==> LogsRaw(root) == TextOf(root.value)
    ensures root.Some? ==>
      match Inner(root.value)
      case None =>
        forall x :: x in Bfs([root.value]) ==> !IsHeaderContainer(x) && !IsStackedBlock(x)
      case Some(c) =>
        c in Bfs([root.value]) &&
        if exists x :: x in Bfs([root.value]) && IsHeaderContainer(x) then IsHeaderContainer(c)
        else IsStackedBlock(c)
  {
    if root.Some? {
      var r := root.value;
      assert LightBelow(r, r) by {
        assert AtFrom(r, []) == Some(r);
      }
      BfsBelow(r, [r]);
    }
  }
}
