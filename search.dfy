/**
 * The ordered first-match searches of server.js: `clickFirstVisible` over a
 * list of locators and `findEditorTargets` over the main page and its frames.
 * The browser is replaced by an oracle: for each locator whether it is visible
 * and whether its click goes through, and for each page or frame the set of
 * selectors that match a visible element there.
 */
module Search {
  import opened Wrappers

  /** The position of the first element of `s` that satisfies `p`. */
  function FirstIndex<T>(s: seq<T>, p: T -> bool): (r: Option<nat>)
    ensures r.None? <==> forall i | 0 <= i < |s| :: !p(s[i])
    ensures r.Some? ==> r.value < |s| && p(s[r.value])
    ensures r.Some? ==> forall i | 0 <= i < r.value :: !p(s[i])
  {
    if s == [] then None
    else if p(s[0]) then Some(0)
    else match FirstIndex(s[1..], p)
      case None => None
      case Some(i) => Some(i + 1)
  }

  /** A qualifying position with none qualifying before it is the first one. */
  lemma FirstIndexAt<T>(s: seq<T>, p: T -> bool, i: nat)
    requires i < |s| && p(s[i])
    requires forall j | 0 <= j < i :: !p(s[j])
    ensures FirstIndex(s, p) == Some(i)
  {
    var r := FirstIndex(s, p);
    assert !(r.value < i) && !(i < r.value);
  }

  // ---- clickFirstVisible ----

  /** The oracle for one locator: `isVisible()` (false when it throws) and whether `click()` returns without throwing. */
  datatype Probe = Probe(visible: bool, clickOk: bool)

  predicate Clickable(p: Probe) { p.visible && p.clickOk }

  /** The positions of the visible locators among the first `n`, in order. */
  function VisibleUpTo(locators: seq<Probe>, n: nat): (r: seq<nat>)
    requires n <= |locators|
    ensures forall k | 0 <= k < |r| :: r[k] < n && locators[r[k]].visible
    ensures forall k, m | 0 <= k < m < |r| :: r[k] < r[m]
    ensures forall j | 0 <= j < n && locators[j].visible :: j in r
  {
    if n == 0 then []
    else VisibleUpTo(locators, n - 1) + (if locators[n - 1].visible then [n - 1] else [])
  }

  /**
   * The specification of the clicks `clickFirstVisible` makes: every visible
   * locator up to and including the first clickable one (all visible ones when
   * none is clickable). Only the last of them can have gone through.
   */
  function ClickAttempts(locators: seq<Probe>): (r: seq<nat>)
    ensures forall k | 0 <= k < |r| :: r[k] < |locators| && locators[r[k]].visible
    ensures FirstIndex(locators, Clickable).Some? ==>
      r != [] && r[|r| - 1] == FirstIndex(locators, Clickable).value
    ensures forall k | 0 <= k < |r| - 1 :: !locators[r[k]].clickOk
    ensures FirstIndex(locators, Clickable).None? ==> forall k | 0 <= k < |r| :: !locators[r[k]].clickOk
    ensures forall j | 0 <= j < |locators| && locators[j].visible &&
      (FirstIndex(locators, Clickable).None? || j <= FirstIndex(locators, Clickable).value) :: j in r
    ensures forall k, m | 0 <= k < m < |r| :: r[k] < r[m]
  {
    match FirstIndex(locators, Clickable)
    case Some(i) =>
      assert VisibleUpTo(locators, i + 1) == VisibleUpTo(locators, i) + [i];
      VisibleUpTo(locators, i + 1)
    case None => VisibleUpTo(locators, |locators|)
  }

  /**
   * `clickFirstVisible`: tries the locators in order; a visible one is clicked,
   * and a click that throws is swallowed and the search goes on. Returns whether
   * a click went through, and the positions of the locators it clicked.
   */
  method ClickFirstVisible(locators: seq<Probe>) returns (clicked: bool, attempts: seq<nat>)
    ensures clicked <==> exists i | 0 <= i < |locators| :: Clickable(locators[i])
    ensures clicked <==> FirstIndex(locators, Clickable).Some?
    ensures attempts == ClickAttempts(locators)
  {
    attempts := [];
    var i := 0;
    while i < |locators|
      invariant 0 <= i <= |locators|
      invariant forall j | 0 <= j < i :: !Clickable(locators[j])
      invariant attempts == VisibleUpTo(locators, i)
    {
      if locators[i].visible {
        attempts := attempts + [i];
        if locators[i].clickOk {
          assert Clickable(locators[i]);
          FirstIndexAt(locators, Clickable, i);
          return true, attempts;
        }
      }
      i := i + 1;
    }
    return false, attempts;
  }

  // ---- findEditorTargets ----

  type Selector = string

  const TitleSelectors: seq<Selector> := [
    "[data-testid=\"post-title-input\"]",
    "textarea[aria-label=\"Title\"]",
    "input[placeholder*=\"Title\"]",
    "[contenteditable=\"true\"]",
    "div[role=\"textbox\"][data-slate-editor=\"true\"]"
  ]

  const BodySelectors: seq<Selector> := [
    "[data-testid=\"post-body-editor\"]",
    "div[role=\"textbox\"][contenteditable=\"true\"]",
    "textarea[aria-label*=\"Write\"]",
    "div[contenteditable=\"true\"]",
    "div[role=\"textbox\"][data-slate-editor=\"true\"]"
  ]

  /** The two ordered selector lists the editor search tries. */
  datatype EditorSelectors = EditorSelectors(titles: seq<Selector>, bodies: seq<Selector>)

  const Selectors := EditorSelectors(TitleSelectors, BodySelectors)

  /** A page or frame, seen through the selectors whose first match is visible there. */
  datatype Frame = Frame(visible: set<Selector>)

  /** A located element: the context it was found in (0 is the main page, `k + 1` the k-th frame) and its selector. */
  datatype Locator = Locator(context: nat, selector: Selector)

  datatype Editor = Editor(title: Option<Locator>, body: Option<Locator>)

  /** The first of `selectors` that is visible in `f`. */
  function FirstVisible(f: Frame, selectors: seq<Selector>): (r: Option<nat>)
    ensures r.None? <==> forall i | 0 <= i < |selectors| :: selectors[i] !in f.visible
    ensures r.Some? ==> r.value < |selectors| && selectors[r.value] in f.visible
    ensures r.Some? ==> forall i | 0 <= i < r.value :: selectors[i] !in f.visible
  {
    FirstIndex(selectors, (sel: Selector) => sel in f.visible)
  }

  predicate HasTitle(f: Frame, sel: EditorSelectors)
  {
    FirstVisible(f, sel.titles).Some?
  }

  /** The editor one context yields: its first visible title selector and first visible body selector. */
  function EditorIn(f: Frame, ctx: nat, sel: EditorSelectors): (r: Editor)
    requires HasTitle(f, sel)
    ensures r.title == Some(Locator(ctx, sel.titles[FirstVisible(f, sel.titles).value]))
    ensures r.body.None? <==> FirstVisible(f, sel.bodies).None?
    ensures r.body.Some? ==> r.body.value == Locator(ctx, sel.bodies[FirstVisible(f, sel.bodies).value])
  {
    var t := Locator(ctx, sel.titles[FirstVisible(f, sel.titles).value]);
    match FirstVisible(f, sel.bodies)
    case Some(b) => Editor(Some(t), Some(Locator(ctx, sel.bodies[b])))
    case None => Editor(Some(t), None)
  }

  /**
   * The specification of the search over `contexts` (the main page, then the
   * frames in order): the first context that has a visible title selector
   * supplies both targets; when there is none, neither target is found.
   */
  function LocateEditor(contexts: seq<Frame>, sel: EditorSelectors): (r: Editor)
    ensures r.title.None? <==> forall i | 0 <= i < |contexts| :: !HasTitle(contexts[i], sel)
    ensures r.title.None? ==> r.body.None?
    ensures r.title.Some? ==>
      && r.title.value.context < |contexts|
      && HasTitle(contexts[r.title.value.context], sel)
      && (forall j | 0 <= j < r.title.value.context :: !HasTitle(contexts[j], sel))
      && r == EditorIn(contexts[r.title.value.context], r.title.value.context, sel)
  {
    match FirstIndex(contexts, (f: Frame) => HasTitle(f, sel))
    case Some(i) => EditorIn(contexts[i], i, sel)
    case None => Editor(None, None)
  }

  /** The search settles on the first context with a title, whatever follows it. */
  lemma LocatedAt(contexts: seq<Frame>, sel: EditorSelectors, i: nat)
    requires i < |contexts| && HasTitle(contexts[i], sel)
    requires forall j | 0 <= j < i :: !HasTitle(contexts[j], sel)
    ensures LocateEditor(contexts, sel) == EditorIn(contexts[i], i, sel)
  {
    var c := LocateEditor(contexts, sel).title.value.context;
    assert !(c < i) && !(i < c);
  }

  /** The inner loops of `findEditorTargets` for one context: `None` when no title selector is visible there. */
  method SearchContext(f: Frame, ctx: nat, sel: EditorSelectors) returns (r: Option<Editor>)
    ensures r.None? <==> !HasTitle(f, sel)
    ensures r.Some? ==> HasTitle(f, sel) && r.value == EditorIn(f, ctx, sel)
  {
    var ti := 0;
    while ti < |sel.titles|
      invariant 0 <= ti <= |sel.titles|
      invariant forall i | 0 <= i < ti :: sel.titles[i] !in f.visible
    {
      if sel.titles[ti] in f.visible {
        var title := Locator(ctx, sel.titles[ti]);
        var bi := 0;
        while bi < |sel.bodies|
          invariant 0 <= bi <= |sel.bodies|
          invariant forall i | 0 <= i < bi :: sel.bodies[i] !in f.visible
        {
          if sel.bodies[bi] in f.visible {
            return Some(Editor(Some(title), Some(Locator(ctx, sel.bodies[bi]))));
          }
          bi := bi + 1;
        }
        return Some(Editor(Some(title), None));
      }
      ti := ti + 1;
    }
    return None;
  }

  /**
   * `findEditorTargets`: the main page first, then each frame in order. The
   * source fixes the selector lists; `Selectors` holds them and is what the
   * posting attempt passes.
   */
  method FindEditorTargets(main: Frame, frames: seq<Frame>, sel: EditorSelectors) returns (e: Editor)
    ensures e == LocateEditor([main] + frames, sel)
  {
    ghost var contexts := [main] + frames;
    var found := SearchContext(main, 0, sel);
    if found.Some? {
      LocatedAt(contexts, sel, 0);
      return found.value;
    }
    var k := 0;
    while k < |frames|
      invariant 0 <= k <= |frames|
      invariant forall j | 0 <= j < k + 1 :: !HasTitle(contexts[j], sel)
    {
      found := SearchContext(frames[k], k + 1, sel);
      assert contexts[k + 1] == frames[k];
      if found.Some? {
        LocatedAt(contexts, sel, k + 1);
        return found.value;
      }
      k := k + 1;
    }
    return Editor(None, None);
  }
}
