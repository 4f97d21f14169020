/** The page as a finite tree of elements, and `walk` (rules.js): the explicit-stack
    traversal that visits every element, shadow trees included, in document order. */
module Dom {
  import opened Text

  /** An element. `children` are its element children (`node.children`); `shadow` is
      its open shadow root, if it has one. `rendered` stands for the
      computed-style test (`visibility`, `display`) and the `offsetParent`/`position:
      fixed` test of the visibility check, `text` for `textContent` and
      `innerText` for the rendered text of an HTML element (None for other elements). */
  datatype Element = Element(
    tag: string,
    attrs: map<string, string>,
    className: string,
    text: string,
    innerText: Option<string>,
    rendered: bool,
    children: seq<Element>,
    shadow: Shadow)

  /** The shadow root an element hosts, given by its element children. */
  datatype Shadow = NoShadowRoot | ShadowRoot(kids: seq<Element>)

  /** `getAttribute(name)`, with None for null. */
  function Attr(e: Element, name: string): Option<string> {
    if name in e.attrs then Some(e.attrs[name]) else None
  }

  /** `visible(el)` of rules.js and `__isVisible(el)` of content-script.js: no `hidden`
      attribute, not `aria-hidden="true"`, and rendered. */
  predicate Visible(e: Element) {
    "hidden" !in e.attrs && Attr(e, "aria-hidden") != Some("true") && e.rendered
  }

  /** One step down: to the i-th light child, or to the i-th child of the shadow root. */
  datatype Step = Child(i: nat) | ShadowChild(i: nat)

  /** Elements are addressed by their path from the document, whose children are the
      first step. A path is the identity of the element it leads to. */
  type Path = seq<Step>

  /** An element together with its address. */
  datatype Located = Located(el: Element, path: Path)

  function StepIn(light: bool, i: nat): Step {
    if light then Child(i) else ShadowChild(i)
  }

  /** The list of elements a step of the given kind chooses from, below e. */
  function Kids(e: Element, light: bool): seq<Element> {
    if light then e.children else if e.shadow.ShadowRoot? then e.shadow.kids else []
  }

  /** The element at relative path r below e (r == [] is e itself). */
  function AtFrom(e: Element, r: Path): Option<Element>
    decreases |r|
  {
    if r == [] then Some(e) else AtList(Kids(e, r[0].Child?), r[0].Child?, r)
  }

  /** The element at path r when r's first step picks from the list es of the given kind. */
  function AtList(es: seq<Element>, light: bool, r: Path): Option<Element>
    decreases |r|, 0
  {
    if r == [] || r[0].Child? != light || r[0].i >= |es| then None
    else AtFrom(es[r[0].i], r[1..])
  }

  /** The element at path p of the document whose children are doc. */
  function At(doc: seq<Element>, p: Path): Option<Element> {
    AtList(doc, true, p)
  }

  /** Following a path in two parts: first to the element at p, then on from there. */
  lemma {:induction false} AtFromSplit(e: Element, p: Path, r: Path)
    ensures AtFrom(e, p + r) == (match AtFrom(e, p) case Some(x) => AtFrom(x, r) case None => None)
    decreases |p|, 1
  {
    if p != [] {
      assert (p + r)[0] == p[0];
      AtListSplit(Kids(e, p[0].Child?), p[0].Child?, p, r);
    } else {
      assert p + r == r;
    }
  }

  lemma {:induction false} AtListSplit(es: seq<Element>, light: bool, p: Path, r: Path)
    requires p != []
    ensures AtList(es, light, p + r) == (match AtList(es, light, p) case Some(x) => AtFrom(x, r) case None => None)
    decreases |p|, 0
  {
    assert (p + r)[0] == p[0];
    if p[0].Child? == light && p[0].i < |es| {
      assert (p + r)[1..] == p[1..] + r;
      AtFromSplit(es[p[0].i], p[1..], r);
    }
  }

  /** The element at p + r is the one at r below the element at p. */
  lemma AtSplit(doc: seq<Element>, p: Path, r: Path)
    requires p != []
    ensures At(doc, p + r) == (match At(doc, p) case Some(x) => AtFrom(x, r) case None => None)
  {
    AtListSplit(doc, true, p, r);
  }

  // ---------------------------------------------------------------------------
  // Document order.

  /** Siblings in index order; every light child comes before every shadow child. */
  predicate StepBefore(s: Step, t: Step) {
    (s.Child? && t.ShadowChild?) || (s.Child? == t.Child? && s.i < t.i)
  }

  /** p comes strictly before q in document order: p is a proper prefix of q (an ancestor
      comes before its descendants), or the two part at a step where p's comes first. */
  predicate Before(p: Path, q: Path) {
    (|p| < |q| && q[..|p|] == p) ||
    exists k :: 0 <= k < |p| && k < |q| && p[..k] == q[..k] && StepBefore(p[k], q[k])
  }

  /** Strictly increasing in document order, so in particular without repetition. */
  predicate Sorted(ls: seq<Located>) {
    forall i, j :: 0 <= i < j < |ls| ==> Before(ls[i].path, ls[j].path)
  }

  // ---------------------------------------------------------------------------
  // The traversal as a function: pre-order, light children left to right, then the
  // shadow root's children. With deep false it stays out of shadow trees, which is the
  // order and the scope of `querySelector` and `querySelectorAll`.

  function WalkEl(e: Element, p: Path, deep: bool): seq<Located>
    decreases e, 1
  {
    [Located(e, p)] + WalkList(e.children, p, 0, true, deep) +
    (if deep && e.shadow.ShadowRoot? then WalkList(e.shadow.kids, p, 0, false, deep) else [])
  }

  function WalkList(es: seq<Element>, p: Path, i: nat, light: bool, deep: bool): seq<Located>
    decreases es, |es| - i
  {
    if i >= |es| then []
    else WalkEl(es[i], p + [StepIn(light, i)], deep) + WalkList(es, p, i + 1, light, deep)
  }

  /** `walk(document)`: every element of the document, shadow trees included. */
  function Walk(doc: seq<Element>): seq<Located> {
    WalkList(doc, [], 0, true, true)
  }

  /** The elements below e (not e itself) that `e.querySelectorAll` sees, in order. */
  function Descendants(l: Located): seq<Located> {
    WalkList(l.el.children, l.path, 0, true, false)
  }

  /** The elements of the document that `document.querySelectorAll` sees, in order. */
  function LightElements(doc: seq<Element>): seq<Located> {
    WalkList(doc, [], 0, true, false)
  }

  // ---------------------------------------------------------------------------
  // What the traversal returns: exactly the elements, each at its own path.

  /** q lies under p, below a step of the given kind whose index is at least i. */
  predicate Under(q: Path, p: Path, light: bool, i: nat) {
    |q| > |p| && q[..|p|] == p && q[|p|].Child? == light && q[|p|].i >= i
  }

  lemma {:induction false} WalkElSound(e: Element, p: Path, deep: bool)
    ensures forall l :: l in WalkEl(e, p, deep) ==>
      |l.path| >= |p| && l.path[..|p|] == p && AtFrom(e, l.path[|p|..]) == Some(l.el)
    decreases e, 1
  {
    WalkListSound(e.children, p, 0, true, deep);
    if deep && e.shadow.ShadowRoot? {
      WalkListSound(e.shadow.kids, p, 0, false, deep);
    }
    forall l | l in WalkEl(e, p, deep)
      ensures |l.path| >= |p| && l.path[..|p|] == p && AtFrom(e, l.path[|p|..]) == Some(l.el)
    {
      if l.path != p {
        var r := l.path[|p|..];
        assert r != [] && r[0] == l.path[|p|];
      }
    }
  }

  lemma {:induction false} WalkListSound(es: seq<Element>, p: Path, i: nat, light: bool, deep: bool)
    ensures forall l :: l in WalkList(es, p, i, light, deep) ==>
      Under(l.path, p, light, i) && AtList(es, light, l.path[|p|..]) == Some(l.el)
    decreases es, |es| - i
  {
    if i < |es| {
      var q := p + [StepIn(light, i)];
      WalkElSound(es[i], q, deep);
      WalkListSound(es, p, i + 1, light, deep);
      forall l | l in WalkEl(es[i], q, deep)
        ensures Under(l.path, p, light, i) && AtList(es, light, l.path[|p|..]) == Some(l.el)
      {
        assert l.path[..|q|] == q;
        assert l.path[..|p|] == q[..|p|] == p;
        var r := l.path[|p|..];
        assert r[0] == StepIn(light, i);
        assert r[1..] == l.path[|q|..];
      }
    }
  }

  lemma {:induction false} WalkElComplete(e: Element, p: Path, deep: bool, r: Path)
    requires AtFrom(e, r).Some?
    requires deep || forall k :: 0 <= k < |r| ==> r[k].Child?
    ensures Located(AtFrom(e, r).value, p + r) in WalkEl(e, p, deep)
    decreases e, 1
  {
    if r != [] {
      var light := r[0].Child?;
      if light {
        WalkListComplete(e.children, p, 0, light, deep, r);
      } else {
        WalkListComplete(e.shadow.kids, p, 0, light, deep, r);
      }
    } else {
      assert p + r == p;
    }
  }

  lemma {:induction false} WalkListComplete(es: seq<Element>, p: Path, i: nat, light: bool, deep: bool, r: Path)
    requires AtList(es, light, r).Some? && r[0].i >= i
    requires deep || forall k :: 0 <= k < |r| ==> r[k].Child?
    ensures Located(AtList(es, light, r).value, p + r) in WalkList(es, p, i, light, deep)
    decreases es, |es| - i
  {
    var q := p + [StepIn(light, i)];
    if r[0].i == i {
      assert r[0] == StepIn(light, i);
      var rest := r[1..];
      assert deep || forall k :: 0 <= k < |rest| ==> rest[k].Child? by {
        if !deep {
          forall k | 0 <= k < |rest| ensures rest[k].Child? {
            assert rest[k] == r[k + 1];
          }
        }
      }
      WalkElComplete(es[i], q, deep, rest);
      assert q + rest == p + r;
    } else {
      WalkListComplete(es, p, i + 1, light, deep, r);
    }
  }

  // ---------------------------------------------------------------------------
  // The traversal is in document order.

  lemma SortedConcat(a: seq<Located>, b: seq<Located>)
    requires Sorted(a) && Sorted(b)
    requires forall x, y :: x in a && y in b ==> Before(x.path, y.path)
    ensures Sorted(a + b)
  {
    forall i, j | 0 <= i < j < |a + b|
      ensures Before((a + b)[i].path, (a + b)[j].path)
    {
      if j < |a| {
      } else if i >= |a| {
        assert (a + b)[i] == b[i - |a|] && (a + b)[j] == b[j - |a|];
      } else {
        assert (a + b)[i] in a && (a + b)[j] in b;
      }
    }
  }

  /** No path comes before itself. */
  lemma BeforeIrreflexive(p: Path)
    ensures !Before(p, p)
  {
  }

  /** Two paths are never before each other both ways. */
  lemma BeforeAsymmetric(p: Path, q: Path)
    requires Before(p, q)
    ensures !Before(q, p)
  {
  }

  /** Paths that part at index |p| are ordered by their steps there. */
  lemma BeforeAt(p: Path, x: Path, y: Path)
    requires |x| > |p| && |y| > |p| && x[..|p|] == p && y[..|p|] == p
    requires StepBefore(x[|p|], y[|p|])
    ensures Before(x, y)
  {
    assert x[..|p|] == y[..|p|];
  }

  /** The paths WalkEl emits extend p. */
  lemma WalkElPrefix(e: Element, p: Path, deep: bool)
    ensures forall l :: l in WalkEl(e, p, deep) ==> |l.path| >= |p| && l.path[..|p|] == p
  {
    WalkElSound(e, p, deep);
  }

  /** The paths WalkList emits lie under p. */
  lemma WalkListUnder(es: seq<Element>, p: Path, i: nat, light: bool, deep: bool)
    ensures forall l :: l in WalkList(es, p, i, light, deep) ==> Under(l.path, p, light, i)
  {
    WalkListSound(es, p, i, light, deep);
  }

  /** An element, then its light subtree, then its shadow subtree, is in order. */
  lemma SortedParts(x: Located, light: seq<Located>, dark: seq<Located>)
    requires Sorted(light) && Sorted(dark)
    requires forall l :: l in light ==> Under(l.path, x.path, true, 0)
    requires forall l :: l in dark ==> Under(l.path, x.path, false, 0)
    ensures Sorted([x] + (light + dark))
  {
    var p := x.path;
    forall a, b | a in light && b in dark
      ensures Before(a.path, b.path)
    {
      BeforeAt(p, a.path, b.path);
    }
    SortedConcat(light, dark);
    forall y | y in light + dark
      ensures Before(p, y.path)
    {
    }
    SortedConcat([x], light + dark);
  }

  lemma {:induction false} WalkElSorted(e: Element, p: Path, deep: bool)
    ensures Sorted(WalkEl(e, p, deep))
    decreases e, 1
  {
    var light := WalkList(e.children, p, 0, true, deep);
    var dark := if deep && e.shadow.ShadowRoot? then WalkList(e.shadow.kids, p, 0, false, deep) else [];
    WalkListSorted(e.children, p, 0, true, deep);
    WalkListUnder(e.children, p, 0, true, deep);
    if deep && e.shadow.ShadowRoot? {
      WalkListSorted(e.shadow.kids, p, 0, false, deep);
      WalkListUnder(e.shadow.kids, p, 0, false, deep);
    }
    SortedParts(Located(e, p), light, dark);
    assert WalkEl(e, p, deep) == [Located(e, p)] + (light + dark);
  }

  /** The subtree of the i-th child comes before those of the later children. */
  lemma SortedSiblings(p: Path, q: Path, light: bool, i: nat, first: seq<Located>, rest: seq<Located>)
    requires q == p + [StepIn(light, i)]
    requires Sorted(first) && Sorted(rest)
    requires forall l :: l in first ==> |l.path| >= |q| && l.path[..|q|] == q
    requires forall l :: l in rest ==> Under(l.path, p, light, i + 1)
    ensures Sorted(first + rest)
  {
    forall x, y | x in first && y in rest
      ensures Before(x.path, y.path)
    {
      assert x.path[..|q|] == q;
      assert x.path[..|p|] == p && x.path[|p|] == q[|p|];
      BeforeAt(p, x.path, y.path);
    }
    SortedConcat(first, rest);
  }

  lemma {:induction false} WalkListSorted(es: seq<Element>, p: Path, i: nat, light: bool, deep: bool)
    ensures Sorted(WalkList(es, p, i, light, deep))
    decreases es, |es| - i
  {
    if i < |es| {
      var q := p + [StepIn(light, i)];
      WalkElSorted(es[i], q, deep);
      WalkListSorted(es, p, i + 1, light, deep);
      WalkElPrefix(es[i], q, deep);
      WalkListUnder(es, p, i + 1, light, deep);
      SortedSiblings(p, q, light, i, WalkEl(es[i], q, deep), WalkList(es, p, i + 1, light, deep));
    }
  }

  /** `walk(document)` returns every element of the document exactly once, each at its
      own address, and in document order: an element before its descendants, light
      children left to right, a shadow root's children after all light children. */
  lemma WalkSpec(doc: seq<Element>)
    ensures forall l :: l in Walk(doc) ==> At(doc, l.path) == Some(l.el)
    ensures forall q :: At(doc, q).Some? ==> Located(At(doc, q).value, q) in Walk(doc)
    ensures Sorted(Walk(doc))
  {
    WalkListSound(doc, [], 0, true, true);
    forall l | l in Walk(doc)
      ensures At(doc, l.path) == Some(l.el)
    {
      assert l.path[0..] == l.path;
    }
    forall q | At(doc, q).Some?
      ensures Located(At(doc, q).value, q) in Walk(doc)
    {
      WalkListComplete(doc, [], 0, true, true, q);
      assert [] + q == q;
    }
    WalkListSorted(doc, [], 0, true, true);
  }

  /** The light traversal below an element: its descendants outside shadow trees, in
      document order, each at its address below the element. */
  lemma DescendantsSpec(l: Located)
    ensures forall d :: d in Descendants(l) ==>
      |d.path| > |l.path| && d.path[..|l.path|] == l.path && d.path[|l.path|].Child? &&
      AtFrom(l.el, d.path[|l.path|..]) == Some(d.el)
    ensures Sorted(Descendants(l))
  {
    WalkListSound(l.el.children, l.path, 0, true, false);
    WalkListSorted(l.el.children, l.path, 0, true, false);
    forall d | d in Descendants(l)
      ensures AtFrom(l.el, d.path[|l.path|..]) == Some(d.el)
    {
      var r := d.path[|l.path|..];
      assert r != [] && r[0].Child?;
    }
  }

  // ---------------------------------------------------------------------------
  // `walk` itself: a stack of pending nodes. The document and a shadow root are not
  // elements, so they are never emitted; they only push their children.

  /** A stack entry: an element at its path, or a fragment (the document or a shadow
      root) given by its children, the path of its host and the kind of step below it. */
  datatype Frame = Elem(e: Element, p: Path) | Fragment(es: seq<Element>, host: Path, light: bool)

  /** What a frame emits once popped. */
  function Emits(f: Frame): seq<Located> {
    match f
    case Elem(e, p) => WalkEl(e, p, true)
    case Fragment(es, host, light) => WalkList(es, host, 0, light, true)
  }

  /** What the stack still emits: the top (the end of the sequence) first. */
  function Pending(st: seq<Frame>): seq<Located>
    decreases |st|
  {
    if st == [] then [] else Emits(st[|st| - 1]) + Pending(st[..|st| - 1])
  }

  function Fragments(st: seq<Frame>): nat
    decreases |st|
  {
    if st == [] then 0 else (if st[|st| - 1].Fragment? then 1 else 0) + Fragments(st[..|st| - 1])
  }

  /** The children of a node from the last to the i-th, as `for (i = n - 1; i >= 0; i--)`
      pushes them, so that the i-th is on top. */
  function Reversed(es: seq<Element>, host: Path, light: bool, i: nat): seq<Frame>
    decreases |es| - i
  {
    if i >= |es| then [] else Reversed(es, host, light, i + 1) + [Elem(es[i], host + [StepIn(light, i)])]
  }

  lemma {:induction false} PendingPush(st: seq<Frame>, f: Frame)
    ensures Pending(st + [f]) == Emits(f) + Pending(st)
    ensures Fragments(st + [f]) == (if f.Fragment? then 1 else 0) + Fragments(st)
  {
    assert (st + [f])[..|st|] == st;
  }

  lemma {:induction false} PendingReversed(st: seq<Frame>, es: seq<Element>, host: Path, light: bool, i: nat)
    ensures Pending(st + Reversed(es, host, light, i)) == WalkList(es, host, i, light, true) + Pending(st)
    ensures Fragments(st + Reversed(es, host, light, i)) == Fragments(st)
    decreases |es| - i
  {
    if i < |es| {
      var f := Elem(es[i], host + [StepIn(light, i)]);
      var r := Reversed(es, host, light, i + 1);
      var below := st + r;
      assert Reversed(es, host, light, i) == r + [f];
      SnocAssoc(st, r, f);
      PendingPush(below, f);
      PendingReversed(st, es, host, light, i + 1);
      RegroupEmits(Emits(f), WalkList(es, host, i + 1, light, true), Pending(st), []);
    } else {
      assert st + [] == st;
    }
  }

  lemma SnocAssoc(st: seq<Frame>, r: seq<Frame>, f: Frame)
    ensures st + (r + [f]) == (st + r) + [f]
  {
  }

  /** The inner `for` loop: push the children from the last to the first. */
  method PushChildren(st: seq<Frame>, es: seq<Element>, host: Path, light: bool)
    returns (st': seq<Frame>)
    ensures st' == st + Reversed(es, host, light, 0)
  {
    st' := st;
    var i := |es|;
    while i > 0
      invariant 0 <= i <= |es|
      invariant st' == st + Reversed(es, host, light, i)
    {
      i := i - 1;
      st' := st' + [Elem(es[i], host + [StepIn(light, i)])];
    }
  }

  /** Popping an element emits it, then what its shadow root and children emit. */
  lemma ElemPopped(rest: seq<Frame>, e: Element, p: Path, pushed: seq<Frame>)
    requires pushed == rest + (if e.shadow.ShadowRoot? then [Fragment(e.shadow.kids, p, false)] else [])
    ensures [Located(e, p)] + Pending(pushed + Reversed(e.children, p, true, 0)) == Pending(rest + [Elem(e, p)])
  {
    var light := WalkList(e.children, p, 0, true, true);
    var dark := if e.shadow.ShadowRoot? then WalkList(e.shadow.kids, p, 0, false, true) else [];
    var tail := Pending(rest);
    assert Pending(pushed) == dark + tail by {
      if e.shadow.ShadowRoot? {
        PendingPush(rest, Fragment(e.shadow.kids, p, false));
      } else {
        assert pushed == rest;
      }
    }
    assert Pending(pushed + Reversed(e.children, p, true, 0)) == light + (dark + tail) by {
      PendingReversed(pushed, e.children, p, true, 0);
    }
    assert Pending(rest + [Elem(e, p)]) == WalkEl(e, p, true) + tail by {
      PendingPush(rest, Elem(e, p));
    }
    assert WalkEl(e, p, true) == [Located(e, p)] + light + dark;
    RegroupEmits([Located(e, p)], light, dark, tail);
  }

  lemma RegroupEmits(head: seq<Located>, light: seq<Located>, dark: seq<Located>, tail: seq<Located>)
    ensures head + (light + (dark + tail)) == (head + light + dark) + tail
    ensures head + (light + dark) == (head + light) + dark
  {
  }

  /** Popping a fragment emits nothing itself and leaves one fragment fewer. */
  lemma FragmentPopped(rest: seq<Frame>, es: seq<Element>, host: Path, light: bool)
    ensures Pending(rest + Reversed(es, host, light, 0)) == Pending(rest + [Fragment(es, host, light)])
    ensures Fragments(rest + Reversed(es, host, light, 0)) < Fragments(rest + [Fragment(es, host, light)])
  {
    PendingPush(rest, Fragment(es, host, light));
    PendingReversed(rest, es, host, light, 0);
  }

  /** `walk(document)`: pop a node, emit it if it is an element, push its shadow root,
      then push its children from the last to the first. */
  method WalkTree(doc: seq<Element>) returns (out: seq<Located>)
    ensures out == Walk(doc)
  {
    var stack := [Fragment(doc, [], true)];
    out := [];
    PendingPush([], Fragment(doc, [], true));
    assert [] + [Fragment(doc, [], true)] == stack;
    while stack != []
      invariant out + Pending(stack) == Walk(doc)
      decreases |Walk(doc)| - |out|, Fragments(stack)
    {
      var top := stack[|stack| - 1];
      var rest := stack[..|stack| - 1];
      assert stack == rest + [top];
      if top.Elem? {
        var e, p := top.e, top.p;
        var pushed := rest;
        if e.shadow.ShadowRoot? {
          pushed := rest + [Fragment(e.shadow.kids, p, false)];
        }
        ghost var before := out;
        stack := PushChildren(pushed, e.children, p, true);
        ElemPopped(rest, e, p, pushed);
        out := out + [Located(e, p)];
        assert out + Pending(stack) == before + ([Located(e, p)] + Pending(stack));
      } else {
        stack := PushChildren(rest, top.es, top.host, top.light);
        FragmentPopped(rest, top.es, top.host, top.light);
      }
    }
    assert out + [] == out;
  }
}
