/**
 * One posting attempt, `tryCreatePostOnce` (server.js): reach the composer
 * (the Create button, else the composer URLs in order), find the editor, type,
 * pick the Publish or Post button, and wait for the post URL. The browser is
 * a `Page` oracle that says, for one fresh browser session, how each
 * Playwright call behaves; the attempt is the order in which the source
 * consults it and the first error it raises.
 */
module Attempt {
  import opened Wrappers
  import opened Text
  import opened Search

  const ComposerUrls: seq<string> := [
    "https://www.patreon.com/posts/new?type=text",
    "https://www.patreon.com/posts/new"
  ]

  /** The text of the `/patreon\.com\/posts\//` pattern `waitForURL` waits for. */
  const PostUrlPattern: string := "patreon.com/posts/"

  /** The main-page selector typed into when the editor search found no body. */
  const FallbackBodySelector: Selector := "div[contenteditable=\"true\"]"

  /** How one awaited browser step ends: it returns, or it throws with a message. */
  datatype Step = Done | Threw(message: string)

  /** A JSON value of the request body, as far as the handler looks at it. */
  datatype JsonValue = Absent | Null | Bool(b: bool) | Number(n: int) | Str(s: string) | Structured

  /** The arguments of one attempt. */
  datatype PostInput = PostInput(title: JsonValue, content: JsonValue, visibility: JsonValue)

  /** The oracle for one fresh browser session. */
  datatype Page = Page(
    session: Step,             // launching the browser, the context, adding the session cookies, opening
                               // the page, the home page, the optional login form, reopening home
    create: seq<Probe>,        // the four "Create" locators, in order
    loads: set<string>,        // the composer URLs whose navigation does not throw
    main: Frame,               // the composer page
    frames: seq<Frame>,        // its frames, in `page.frames()` order
    typing: Step,              // clicking the editor fields, typing, and the visibility clicks
    visibilityButton: bool,    // the visibility button is visible
    publicOption: bool,        // the "public" option is visible once that button is clicked
    publishVisible: bool,      // a "Publish" button is visible
    postVisible: bool,         // a "Post" button is visible
    submit: Step,              // clicking the chosen button and waiting for the load
    addresses: seq<string>,    // the addresses the page goes through after submitting, within the timeout
    timeout: string            // what `waitForURL` throws when none of them matches
  )

  datatype Route = ViaCreate(locator: nat) | ViaUrl(url: string)

  datatype Button = Publish | Post

  datatype AttemptError = ComposerUnreachable | EditorNotFound | SubmitNotFound | Failed(message: string)

  /** The `message` of the error an attempt throws. */
  function Message(e: AttemptError): string
  {
    match e
    case ComposerUnreachable => "Could not navigate to composer."
    case EditorNotFound => "Editor not found"
    case SubmitNotFound => "Publish/Post button not found."
    case Failed(m) => m
  }

  /** What a successful attempt did: where it ended, how it got there and where it typed. */
  datatype Published = Published(
    url: string,
    route: Route,
    titleAt: Locator,
    contentAt: Option<Locator>,
    madePublic: bool,
    button: Button)

  // ---- reaching the composer ----

  predicate Loads(loads: set<string>, url: string) { url in loads }

  /**
   * The specification of the composer step: the first clickable Create locator,
   * otherwise the first of `urls` whose navigation does not throw, otherwise
   * `ComposerUnreachable`.
   */
  function ComposerRoute(create: seq<Probe>, urls: seq<string>, loads: set<string>): (r: Result<Route, AttemptError>)
    ensures r.Ok? && r.value.ViaCreate? <==> exists i | 0 <= i < |create| :: Clickable(create[i])
    ensures r.Ok? && r.value.ViaCreate? ==> r.value.locator == FirstIndex(create, Clickable).value
    ensures r.Ok? && r.value.ViaUrl? ==>
      && (forall i | 0 <= i < |create| :: !Clickable(create[i]))
      && r.value.url in urls && r.value.url in loads
      && r.value.url == urls[FirstIndex(urls, u => Loads(loads, u)).value]
    ensures r.Err? <==>
      (forall i | 0 <= i < |create| :: !Clickable(create[i])) && (forall k | 0 <= k < |urls| :: urls[k] !in loads)
    ensures r.Err? ==> r.error == ComposerUnreachable
  {
    match FirstIndex(create, Clickable)
    case Some(i) => Ok(ViaCreate(i))
    case None =>
      match FirstIndex(urls, u => Loads(loads, u))
      case Some(k) => Ok(ViaUrl(urls[k]))
      case None => Err(ComposerUnreachable)
  }

  /** The Create click, and when it fails the loop over the composer URLs with its `ok` flag. */
  method OpenComposer(create: seq<Probe>, urls: seq<string>, loads: set<string>) returns (r: Result<Route, AttemptError>)
    ensures r == ComposerRoute(create, urls, loads)
  {
    var clickedCreate, clicks := ClickFirstVisible(create);
    if clickedCreate {
      return Ok(ViaCreate(clicks[|clicks| - 1]));
    }
    var ok := false;
    var landed := "";
    var k := 0;
    while k < |urls|
      invariant 0 <= k <= |urls|
      invariant !ok
      invariant forall j | 0 <= j < k :: urls[j] !in loads
    {
      if urls[k] in loads {
        ok := true;
        landed := urls[k];
        break;
      }
      k := k + 1;
    }
    if !ok {
      return Err(ComposerUnreachable);
    }
    return Ok(ViaUrl(landed));
  }

  // ---- submitting ----

  /** The Publish button when it is visible, else the Post button, else `SubmitNotFound`. */
  function ChooseSubmit(publishVisible: bool, postVisible: bool): (r: Result<Button, AttemptError>)
    ensures r == Ok(Publish) <==> publishVisible
    ensures r == Ok(Post) <==> !publishVisible && postVisible
    ensures r.Err? <==> !publishVisible && !postVisible
    ensures r.Err? ==> r.error == SubmitNotFound
  {
    if publishVisible then Ok(Publish)
    else if postVisible then Ok(Post)
    else Err(SubmitNotFound)
  }

  /** The address matches `/patreon\.com\/posts\//`, the pattern the source waits for. */
  predicate IsPostUrl(url: string)
  {
    Contains(url, PostUrlPattern)
  }

  /** The path segment at the start of `s`: everything before the first `/`, `?` or `#`. */
  function PathSegment(s: string): (r: string)
    ensures r <= s
    ensures '/' !in r && '?' !in r && '#' !in r
    ensures |r| < |s| ==> s[|r|] == '/' || s[|r|] == '?' || s[|r|] == '#'
  {
    if s == [] || s[0] == '/' || s[0] == '?' || s[0] == '#' then []
    else [s[0]] + PathSegment(s[1..])
  }

  /**
   * A composer address: some match of the post-URL pattern is followed by an
   * empty path segment or by the segment `new` (`/posts/`, `/posts/new`,
   * `/posts/new?type=text`, `/posts/new/` and so on).
   */
  predicate IsComposerUrl(url: string)
  {
    exists i | 0 <= i <= |url| - |PostUrlPattern| ::
      OccursAt(url, PostUrlPattern, i) && PathSegment(url[i + |PostUrlPattern|..]) in {"", "new"}
  }

  /** A published post's address: it matches the pattern and is not a composer address. */
  predicate IsPublishedUrl(url: string)
  {
    IsPostUrl(url) && !IsComposerUrl(url)
  }

  /**
   * `waitForURL(/patreon\.com\/posts\//)` followed by `page.url()`, as written:
   * the first address that matches the pattern, or the timeout error.
   */
  function WaitForPatternMatch(addresses: seq<string>, timeout: string): (r: Result<string, AttemptError>)
    ensures r.Ok? ==> exists i | 0 <= i < |addresses| ::
      r.value == addresses[i] && IsPostUrl(addresses[i]) && forall j | 0 <= j < i :: !IsPostUrl(addresses[j])
    ensures r.Ok? <==> exists i | 0 <= i < |addresses| :: IsPostUrl(addresses[i])
    ensures r.Err? ==> r.error == Failed(timeout)
  {
    match FirstIndex(addresses, IsPostUrl)
    case Some(i) => Ok(addresses[i])
    case None => Err(Failed(timeout))
  }

  /** The wait for the post URL, corrected: the first address of a published post, or the timeout error. */
  function WaitForPostUrl(addresses: seq<string>, timeout: string): (r: Result<string, AttemptError>)
    ensures r.Ok? ==> exists i | 0 <= i < |addresses| ::
      r.value == addresses[i] && IsPublishedUrl(addresses[i]) && forall j | 0 <= j < i :: !IsPublishedUrl(addresses[j])
    ensures r.Ok? <==> exists i | 0 <= i < |addresses| :: IsPublishedUrl(addresses[i])
    ensures r.Ok? ==> IsPostUrl(r.value) && !IsComposerUrl(r.value)
    ensures r.Err? ==> r.error == Failed(timeout)
  {
    match FirstIndex(addresses, IsPublishedUrl)
    case Some(i) => Ok(addresses[i])
    case None => Err(Failed(timeout))
  }

  /**
   * Both composer URLs the source navigates to match the post-URL pattern and
   * are composer addresses, so a submit that leaves the page in the composer
   * passes the wait as written, with the composer's own address as the "post"
   * URL; the corrected wait times out instead.
   */
  lemma ComposerAddressPasses(timeout: string)
    ensures IsPostUrl(ComposerUrls[0]) && IsPostUrl(ComposerUrls[1])
    ensures IsComposerUrl(ComposerUrls[0]) && IsComposerUrl(ComposerUrls[1])
    ensures WaitForPatternMatch([ComposerUrls[0]], timeout) == Ok(ComposerUrls[0])
    ensures WaitForPostUrl([ComposerUrls[0]], timeout) == Err(Failed(timeout))
  {
    ComposerUrlsShape();
    NewComposerShape("https://www.", "?type=text");
    NewComposerShape("https://www.", "");
    assert FirstIndex([ComposerUrls[0]], IsPostUrl) == Some(0);
  }

  lemma ComposerUrlsShape()
    ensures ComposerUrls[0] == "https://www." + PostUrlPattern + "new" + "?type=text"
    ensures ComposerUrls[1] == "https://www." + PostUrlPattern + "new" + ""
  {
    assert ComposerUrls[0] == "https://www." + PostUrlPattern + "new?type=text";
    assert "new?type=text" == "new" + "?type=text";
    assert ComposerUrls[1] == "https://www." + PostUrlPattern + "new";
    assert "new" == "new" + "";
  }

  /** An address with `patreon.com/posts/new` followed by nothing or a query is a composer address. */
  lemma NewComposerShape(host: string, query: string)
    requires query == [] || query[0] == '?'
    ensures IsPostUrl(host + PostUrlPattern + "new" + query)
    ensures IsComposerUrl(host + PostUrlPattern + "new" + query)
  {
    var url := host + PostUrlPattern + "new" + query;
    var n := |host| + |PostUrlPattern|;
    assert url[|host|..n] == PostUrlPattern;
    assert OccursAt(url, PostUrlPattern, |host|);
    var rest := url[n..];
    assert rest == "new" + query;
    assert rest[1..] == "ew" + query;
    assert rest[1..][1..] == "w" + query;
    assert rest[1..][1..][1..] == query;
    assert PathSegment(query) == [];
    assert PathSegment(rest[1..][1..]) == "w";
    assert PathSegment(rest) == "new";
  }

  /** Where the page never shows a composer address, the corrected wait and the wait as written agree. */
  lemma WaitsAgree(addresses: seq<string>, timeout: string)
    requires forall i | 0 <= i < |addresses| :: !IsComposerUrl(addresses[i])
    ensures WaitForPostUrl(addresses, timeout) == WaitForPatternMatch(addresses, timeout)
  {
    var w, m := WaitForPostUrl(addresses, timeout), WaitForPatternMatch(addresses, timeout);
    if w.Ok? {
      var i :| 0 <= i < |addresses| && w.value == addresses[i] && IsPublishedUrl(addresses[i])
        && forall j | 0 <= j < i :: !IsPublishedUrl(addresses[j]);
      var k :| 0 <= k < |addresses| && m.value == addresses[k] && IsPostUrl(addresses[k])
        && forall j | 0 <= j < k :: !IsPostUrl(addresses[j]);
      assert IsPublishedUrl(addresses[k]) && IsPostUrl(addresses[i]);
      assert i == k;
    } else {
      assert forall i | 0 <= i < |addresses| :: !IsPublishedUrl(addresses[i]);
    }
  }

  // ---- the whole attempt ----

  /** The field the content is typed into: the editor's body, else the fallback selector on the main page if visible. */
  function ContentTarget(editor: Editor, main: Frame): (r: Option<Locator>)
    ensures editor.body.Some? ==> r == editor.body
    ensures editor.body.None? ==> (r.Some? <==> FallbackBodySelector in main.visible)
    ensures r.Some? && editor.body.None? ==> r.value == Locator(0, FallbackBodySelector)
  {
    if editor.body.Some? then editor.body
    else if FallbackBodySelector in main.visible then Some(Locator(0, FallbackBodySelector))
    else None
  }

  /**
   * The stages after the editor was found: typing (with the best-effort
   * visibility toggle), the submit button, the submit itself and the wait for
   * the post URL.
   */
  function FillAndSubmit(input: PostInput, p: Page, route: Route, titleAt: Locator, contentAt: Option<Locator>): (r: Result<Published, AttemptError>)
    ensures r.Ok? <==>
      && p.typing == Done && (p.publishVisible || p.postVisible) && p.submit == Done
      && exists i | 0 <= i < |p.addresses| :: IsPostUrl(p.addresses[i])
    ensures r.Ok? ==> Ok(r.value.url) == WaitForPatternMatch(p.addresses, p.timeout)
    ensures r.Ok? ==> r.value.route == route && r.value.titleAt == titleAt && r.value.contentAt == contentAt
    ensures r.Ok? ==> Ok(r.value.button) == ChooseSubmit(p.publishVisible, p.postVisible)
    ensures r.Ok? ==> (r.value.madePublic <==>
      input.visibility == Str("public") && p.visibilityButton && p.publicOption)
    ensures p.typing.Threw? ==> r == Err(Failed(p.typing.message))
    ensures r == Err(SubmitNotFound) <==> p.typing == Done && !p.publishVisible && !p.postVisible
    ensures p.typing == Done && (p.publishVisible || p.postVisible) && p.submit.Threw? ==>
      r == Err(Failed(p.submit.message))
    ensures p.typing == Done && (p.publishVisible || p.postVisible) && p.submit == Done && r.Err? ==>
      r == Err(Failed(p.timeout))
    ensures r != Err(ComposerUnreachable) && r != Err(EditorNotFound)
  {
    if p.typing.Threw? then Err(Failed(p.typing.message))
    else
      var madePublic := input.visibility == Str("public") && p.visibilityButton && p.publicOption;
      match ChooseSubmit(p.publishVisible, p.postVisible)
      case Err(e) => Err(e)
      case Ok(button) =>
        if p.submit.Threw? then Err(Failed(p.submit.message))
        else match WaitForPatternMatch(p.addresses, p.timeout)
          case Err(e) => Err(e)
          case Ok(url) => Ok(Published(url, route, titleAt, contentAt, madePublic, button))
  }

  /**
   * `tryCreatePostOnce`: the stages in source order; the first that fails decides
   * the error. A success ends on an address that matches the post-URL pattern,
   * after the preferred submit button was clicked.
   */
  function TryCreatePostOnce(input: PostInput, p: Page): (r: Result<Published, AttemptError>)
    ensures r.Ok? ==> IsPostUrl(r.value.url) && Ok(r.value.url) == WaitForPatternMatch(p.addresses, p.timeout)
    ensures r.Ok? ==> p.session == Done && p.typing == Done && p.submit == Done
    ensures r.Ok? ==> Ok(r.value.route) == ComposerRoute(p.create, ComposerUrls, p.loads)
    ensures r.Ok? ==> Some(r.value.titleAt) == LocateEditor([p.main] + p.frames, Selectors).title
    ensures r.Ok? ==> r.value.contentAt == ContentTarget(LocateEditor([p.main] + p.frames, Selectors), p.main)
    ensures r.Ok? ==> Ok(r.value.button) == ChooseSubmit(p.publishVisible, p.postVisible)
    ensures r.Ok? ==> (r.value.madePublic <==>
      input.visibility == Str("public") && p.visibilityButton && p.publicOption)
    ensures p.session.Threw? ==> r == Err(Failed(p.session.message))
    ensures r == Err(ComposerUnreachable) <==>
      p.session == Done && ComposerRoute(p.create, ComposerUrls, p.loads).Err?
    ensures r == Err(EditorNotFound) <==>
      && p.session == Done && ComposerRoute(p.create, ComposerUrls, p.loads).Ok?
      && LocateEditor([p.main] + p.frames, Selectors).title.None?
    ensures (&& p.session == Done && ComposerRoute(p.create, ComposerUrls, p.loads).Ok?
             && LocateEditor([p.main] + p.frames, Selectors).title.Some?) ==>
      r == FillAndSubmit(input, p, ComposerRoute(p.create, ComposerUrls, p.loads).value,
        LocateEditor([p.main] + p.frames, Selectors).title.value,
        ContentTarget(LocateEditor([p.main] + p.frames, Selectors), p.main))
    ensures r == Err(SubmitNotFound) <==>
      && p.session == Done && ComposerRoute(p.create, ComposerUrls, p.loads).Ok?
      && LocateEditor([p.main] + p.frames, Selectors).title.Some?
      && p.typing == Done && !p.publishVisible && !p.postVisible
  {
    if p.session.Threw? then Err(Failed(p.session.message))
    else match ComposerRoute(p.create, ComposerUrls, p.loads)
    case Err(e) => Err(e)
    case Ok(route) =>
      var editor := LocateEditor([p.main] + p.frames, Selectors);
      if editor.title.None? && editor.body.None? then Err(EditorNotFound)
      else FillAndSubmit(input, p, route, editor.title.value, ContentTarget(editor, p.main))
  }

  /**
   * The attempt with the corrected wait: the same stages, but a success waits
   * for the first published post's address rather than the first address that
   * matches the pattern.
   */
  function TryCreatePostOnceCorrected(input: PostInput, p: Page): (r: Result<Published, AttemptError>)
    ensures r.Ok? <==>
      TryCreatePostOnce(input, p).Ok? && exists i | 0 <= i < |p.addresses| :: IsPublishedUrl(p.addresses[i])
    ensures r.Ok? ==> Ok(r.value.url) == WaitForPostUrl(p.addresses, p.timeout)
    ensures r.Ok? ==> r.value == TryCreatePostOnce(input, p).value.(url := r.value.url)
    ensures TryCreatePostOnce(input, p).Err? ==> r == TryCreatePostOnce(input, p)
    ensures TryCreatePostOnce(input, p).Ok? && r.Err? ==> r == Err(Failed(p.timeout))
  {
    match TryCreatePostOnce(input, p)
    case Err(e) => Err(e)
    case Ok(out) =>
      match WaitForPostUrl(p.addresses, p.timeout)
      case Err(e) => Err(e)
      case Ok(url) => Ok(out.(url := url))
  }

  /** Where the page never shows a composer address, the corrected attempt and the attempt as written agree. */
  lemma AttemptsAgree(input: PostInput, p: Page)
    requires forall i | 0 <= i < |p.addresses| :: !IsComposerUrl(p.addresses[i])
    ensures TryCreatePostOnceCorrected(input, p) == TryCreatePostOnce(input, p)
  {
    WaitsAgree(p.addresses, p.timeout);
  }

  /**
   * A page on which every stage goes through but the submit leaves the page in
   * the composer, at its first fallback address.
   */
  function StuckInComposer(timeout: string): (p: Page)
    ensures p.addresses == [ComposerUrls[0]]
  {
    Page(Done, [Probe(true, true)], {}, Frame({Selectors.titles[0]}), [], Done,
         false, false, true, false, Done, [ComposerUrls[0]], timeout)
  }

  /**
   * On that page the attempt as written succeeds with the composer's own
   * address, and the corrected attempt times out.
   */
  lemma StuckInComposerPublishes(input: PostInput, timeout: string)
    ensures TryCreatePostOnce(input, StuckInComposer(timeout)).Ok?
    ensures TryCreatePostOnce(input, StuckInComposer(timeout)).value.url == ComposerUrls[0]
    ensures TryCreatePostOnceCorrected(input, StuckInComposer(timeout)) == Err(Failed(timeout))
  {
    var p := StuckInComposer(timeout);
    ComposerAddressPasses(timeout);
    assert Clickable(p.create[0]);
    assert HasTitle(([p.main] + p.frames)[0], Selectors);
  }
}
