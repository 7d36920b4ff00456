# patreon-poster: the decision logic of the posting service, in Dafny

`server.js` is a small HTTP service. Given `{title, content, visibility}`, it drives
a headless browser through Patreon's post composer and returns the URL of the new
post. Almost all of it is browser automation. This project models the parts of it
that make decisions, and proves what they guarantee:

- **Session-cookie parsing** (`addSessionCookies`), in `cookies.dfy`, on top of
  `text.dfy`. The configured cookie string is split on `;`, each piece is trimmed,
  empty pieces are dropped, and each pair is split at its first `=` with both halves
  trimmed. Pairs with no `=` or with an empty name are dropped. Every cookie gets
  domain `.patreon.com` and path `/`. The JavaScript `trim`, `indexOf` and `split`
  that the parser relies on are modelled in `text.dfy`, along with `join` (the
  inverse of `split`). The parser is a chain of pure functions. Lemmas prove:
  - every cookie it produces is well formed;
  - it is the same as a segment-by-segment reading of the string;
  - it keeps input order (`a;b` yields the cookies of `a`, then those of `b`);
  - it adds nothing exactly when no segment holds a valid pair;
  - it recovers the cookies from a Cookie header built from them (a round trip).
- **First-match searches**, in `search.dfy`. These are `clickFirstVisible` and
  `findEditorTargets`. Both are methods with loops. They are proved against
  specification functions built on one generic "first index satisfying P" function.
  The browser is replaced by an oracle: for each locator, whether it is visible and
  whether its click goes through; for each page or frame, the set of selectors
  visible there.
- **One posting attempt** (`tryCreatePostOnce`), in `attempt.dfy`. The model covers
  the choices the attempt makes:
  - it reaches the composer through the Create button, or else through the composer
    URLs in order (the method `OpenComposer`);
  - it locates the editor;
  - it picks the field the content is typed into;
  - it prefers the Publish button to the Post button;
  - it waits for the post URL.
  Each browser step that can throw is a `Step` of a `Page` oracle. The attempt's
  result is the first error in source order, or a `Published` record.
- **The route handler** (`POST /create-patreon-post`), in `handler.dfy`. This is a
  class `PostServer` with the module-level `busy` flag as its field. One method
  models one invocation: a 429 while busy, a 400 for a missing field, then at most
  two attempts and the 200/500 mapping. The method's contract shows that `busy` is
  false on every way out once it was set. A client method shows that requests
  served one after another are never turned away as busy.

## Model

| member | source | states |
|---|---|---|
| `Text.Trim` | server.js:31 | the result has no white space at either end; it is empty exactly when the input is all white space; its characters come from the input |
| `Text.TrimRemovesEnds` | server.js:31 | the input is white space, then the trimmed result, then white space: nothing but white space at the ends is removed |
| `Text.TrimIsUnique` | server.js:31 | any split of a string into white space, a middle with no white space at its ends, and white space has the trimmed string as its middle |
| `Text.IndexOf` | server.js:36 | `None` exactly when the character is absent; otherwise the position of its first occurrence |
| `Text.Split` | server.js:31 | there is always at least one segment, and no segment contains the separator |
| `Text.JoinSplit` | server.js:31 | joining the segments of a split with the separator gives back the string |
| `Text.SplitJoin` | server.js:31 | splitting a join of separator-free segments gives back the segments |
| `Text.SplitAppend` | server.js:31 | the segments of `a;b` are those of `a` followed by those of `b` |
| `Text.SplitLength` | server.js:31 | the number of segments is the number of separators plus one |
| `Cookies.ParsePair` | server.js:36-41 | no cookie exactly when the pair has no `=` or its trimmed name is empty; otherwise the cookie is well formed (non-empty name without `=`, both halves trimmed, domain `.patreon.com`, path `/`) |
| `Cookies.ParsePairParts` | server.js:36-39 | the name is the trimmed text before the first `=`; the value is the trimmed text after it, which may contain `=` or be empty |
| `Cookies.TrimmedPairs` | server.js:31 | every pair left is non-empty and trimmed, and there are no more pairs than segments |
| `Cookies.PairsToCookies` | server.js:34-43 | every cookie is well formed, and there are no more cookies than pairs |
| `Cookies.ParseCookies` | server.js:28-45 | every cookie added is well formed; there are at most as many as non-empty segments, and at most one more than the number of `;` |
| `Cookies.SegmentCookies` | server.js:35-42 | a segment gives at most one cookie |
| `Cookies.SegmentSilent` | server.js:31-42 | a segment gives no cookie exactly when it is blank or its trimmed pair does not parse, and otherwise gives that pair's cookie |
| `Cookies.ChainIsSegmentwise` | server.js:31-43 | trimming and filtering, then parsing and filtering, equals taking each segment's contribution in order |
| `Cookies.GuardsOnlySkip` | server.js:29-32 | the early returns for an empty string and for no non-empty pair give the same result as the full chain |
| `Cookies.ParseCookiesAppend` | server.js:31-43 | order is kept: the cookies of `a;b` are those of `a` followed by those of `b` |
| `Cookies.SingleSegment` | server.js:35-42 | one `;`-free segment gives at most one cookie, and none when it is blank or has no `=` |
| `Cookies.NothingAdded` | server.js:29-44 | nothing is added exactly when every segment is blank or holds no valid pair |
| `Cookies.ParseHeader` | server.js:28-45 | parsing the `name=value; name=value` header of well-formed, `;`-free cookies gives back exactly those cookies |
| `Search.FirstIndex` | server.js:59-67 | `None` exactly when no element qualifies; otherwise a qualifying position with no qualifying position before it |
| `Search.VisibleUpTo` | server.js:59-61 | the positions of the visible locators among the first `n`, in increasing order, all of them |
| `Search.ClickAttempts` | server.js:58-68 | the clicks are made in list order, on visible locators only, and on every visible locator up to the first clickable one (on all visible ones when none is clickable); when some locator is clickable the last click is on the first such one; every click before the last threw |
| `Search.ClickFirstVisible` | server.js:58-68 | returns true exactly when some locator is visible and its click goes through, and the clicks it makes are exactly those specified |
| `Search.FirstVisible` | server.js:86-91 | the first selector of the list visible in the context, or `None` when none is |
| `Search.EditorIn` | server.js:86-94 | in a context with a visible title selector: the title is the first visible title selector; the body is the first visible body selector in the same context, or none |
| `Search.LocateEditor` | server.js:85-109 | the title comes from the first context (main page, then frames) that has a visible title selector, and the body from that same context; when no context has one, neither is found |
| `Search.LocatedAt` | server.js:85-109 | the search settles on the first context with a title, whatever comes after it |
| `Search.SearchContext` | server.js:86-94 | the inner loops for one context find nothing exactly when no title selector is visible there, and otherwise find that context's editor |
| `Search.FindEditorTargets` | server.js:69-110 | searching the main page, then each frame in order, gives exactly the specified editor |
| `Attempt.ComposerRoute` | server.js:173-194 | the composer is reached through the first clickable Create locator; failing that, through the first composer URL that loads; failing both, the error is "Could not navigate to composer" |
| `Attempt.OpenComposer` | server.js:173-194 | the Create click, then the URL loop with its `ok` flag, give the specified route or error |
| `Attempt.ChooseSubmit` | server.js:230-238 | Publish exactly when it is visible; Post exactly when only Post is visible; "Publish/Post button not found." exactly when neither is |
| `Attempt.WaitForPatternMatch` | server.js:240-241 | the wait as written: a success is the first address the page goes through that matches `/patreon\.com\/posts\//`; there is one exactly when some address matches; otherwise the timeout error |
| `Attempt.WaitForPostUrl` | server.js:240-241 | the corrected wait: a success is the first address that matches the pattern and is not a composer address (the pattern followed by an empty path segment or by `new`); there is one exactly when some address is such; otherwise the timeout error |
| `Attempt.ComposerAddressPasses` | server.js:181-241 | both fallback composer URLs match the post-URL pattern and are composer addresses, so a page left in the composer passes the wait as written with the composer's address, while the corrected wait times out |
| `Attempt.NewComposerShape` | server.js:181-182 | an address with `patreon.com/posts/new` followed by nothing or by a query matches the post-URL pattern and is a composer address |
| `Attempt.WaitsAgree` | server.js:240-241 | when the page never shows a composer address, the corrected wait and the wait as written give the same result |
| `Attempt.ContentTarget` | server.js:211-214 | the content goes into the editor's body when one was found; otherwise into the main page's fallback field if it is visible; otherwise it is not typed |
| `Attempt.FillAndSubmit` | server.js:210-241 | success exactly when typing and submitting went through, a Publish or Post button was visible and some address matches the post-URL pattern; the URL is the first such address; the preferred button was used, and the visibility was switched only for a `"public"` request whose controls were visible; a failed typing step or submit carries that step's message, a wait that finds nothing the timeout's, and a missing button "Publish/Post button not found." exactly when typing went through |
| `Attempt.TryCreatePostOnce` | server.js:145-245 | errors come in stage order: a session failure with its message first, then "Could not navigate to composer" exactly when no route exists, then "Editor not found" exactly when no context has a title, then "Publish/Post button not found." exactly when every earlier stage passed and neither button is visible; once the editor is found the result is exactly that of the later stages on the specified route, title field and content field (the content field is the body when found, else the fallback); a success ends on the first address that matches the post-URL pattern |
| `Attempt.TryCreatePostOnceCorrected` | server.js:145-245 | the attempt with the corrected wait: it succeeds exactly when the attempt as written does and some address is a published post's; its URL is the first such address and everything else is the attempt's; every failure of the attempt as written is kept, and a success that reached only composer addresses becomes the timeout error |
| `Attempt.AttemptsAgree` | server.js:145-245 | when the page never shows a composer address, the corrected attempt and the attempt as written give the same result |
| `Attempt.StuckInComposerPublishes` | server.js:145-245 | on a page where every stage goes through but the page stays at the first fallback composer URL, the attempt as written succeeds with that URL and the corrected attempt gives the timeout error |
| `Handler.VisibilityOf` | server.js:252 | an absent `visibility` becomes `"patrons"`; any value present, `null` included, is kept |
| `Handler.ErrorText` | server.js:275 | the error text is never empty, and it is the error's message whenever that is non-empty |
| `Handler.Respond` | server.js:263-275 | 200 with the post URL exactly for a successful attempt; 500 with the error text exactly for a failed one |
| `Handler.IdleResponse` | server.js:252-276 | 400 exactly when title or content is falsy; a successful first attempt gives 200 with that attempt's URL; after a failed first attempt the response is the second attempt's, 200 with its URL or 500 with its error text; 200 exactly when one of the two succeeds; never 429 |
| `Handler.ComposerAddressAnswered` | server.js:240-264 | a request whose first attempt leaves the page at the first fallback composer URL is answered 200 with that URL as the post URL |
| `Handler.AttemptsMade` | server.js:253-271 | no attempt for a missing field; at most two; a second only after the first failed; both get the same input |
| `Handler.PostServer.constructor` | server.js:142 | the flag starts out false |
| `Handler.PostServer.CreatePatreonPost` | server.js:248-277 | a busy server answers 429 and leaves the flag set; otherwise the flag is false on return, and the response and attempts are those of an idle server |
| `Handler.ServeInSequence` | server.js:142-277 | requests served one after another on a fresh server each get one response, and none is answered 429 |

## Left out

- Playwright calls are not modelled as code: launching the browser, contexts, pages,
  `goto`, `fill`, `keyboard.type`, `waitForNavigation`, `waitForLoadState` and
  `browser.close`. Each becomes an oracle value. A `Step` says whether a step returns
  or throws; a `Probe` and a `Frame` say what is visible; a set of URLs says which
  navigations succeed; the sequence of addresses after submitting stands in for
  `waitForURL`.
- Closing the browser in `finally` (server.js:242-244) is I/O. Its errors are
  swallowed, so it cannot change an attempt's outcome.
- Cookies are scoped to `.patreon.com` only, as server.js:41 does.
- Strings are sequences of Unicode code points, not UTF-16 code units. `trim` and
  splitting on `;` and `=` give the same result either way.
- The login form (server.js:157-168) and the two visits to the home page are folded
  into one `session` step. Cookie-banner dismissal (server.js:46-57) swallows its own
  errors and is left out.
- The "Text" post-type click after a successful Create click (server.js:196-200) is
  left out. Its result is ignored and `clickFirstVisible` never throws. The click can
  change the page, and with it the editor fields the search finds; the `main` and
  `frames` of the `Page` oracle describe the page after that click.
- Handler.ErrorText: for an error whose message is empty the source answers the
  error's name, which is `"Error"` only for a plain `Error` (a Playwright timeout
  gives `"TimeoutError"`). Errors carry no name in the model, so it answers `"Error"`.
- Timeouts and delays are left out (server.js:204, 260, 268, and the per-call
  timeouts). A timeout shows up only as a step that throws.
- `Attempt.Message` keeps only the fixed text of the three errors the attempt raises.
  The current address and page title appended to two of them (server.js:193, 207)
  come from the browser and are left out.
- `Search.FindEditorTargets` takes the selector lists as a parameter. The source's
  fixed lists are the constant `Search.Selectors`, which `Attempt.TryCreatePostOnce`
  passes. The frame list is taken as given. Playwright's `page.frames()` also lists
  the main frame, so the main page is looked at again. With a stable oracle this
  cannot change the result.
- Visibility is read once per locator, so each locator has one stable answer. The
  source's repeated `isVisible` checks (for instance server.js:212) always agree in
  the model.
- Express setup, JSON body parsing, `app.listen`, `/warmup`, `/debug-auth`,
  environment-variable loading and logging are HTTP plumbing or I/O
  (server.js:5-12, 112-139, 279-280). A JSON number is modelled as an integer. For
  truthiness this means `NaN` and non-integer numbers are not represented.
- Concurrent requests interleaving on `busy` are not modelled. One invocation is one
  sequential step, so a 429 arises only when the method is called on a server whose
  flag is already set.

## Findings

| source | as written | input that shows it | evidently intended | confidence | as-written member | corrected member |
|---|---|---|---|---|---|---|
| server.js:240-241 | success is the first address matching `/patreon\.com\/posts\//`, and both fallback composer URLs (server.js:181-182) match it | a request whose submit leaves the page at `https://www.patreon.com/posts/new?type=text` is answered 200 with the composer's own address as the post URL | success only once the page leaves the composer: the first matching address whose path after `/posts/` is neither empty nor `new` | medium, not executed | `Attempt.TryCreatePostOnce`, `Attempt.StuckInComposerPublishes`, `Handler.ComposerAddressAnswered` | `Attempt.TryCreatePostOnceCorrected`, `Attempt.WaitForPostUrl`, `Attempt.AttemptsAgree` |

The attempt and the handler model the code as written. The corrected attempt differs only
in its wait, and it agrees with the attempt as written whenever the page never shows a
composer address (`Attempt.AttemptsAgree`). Other composer-like addresses, such as an edit
page of a draft, are not recognised as composer addresses.
