/**
 * The `POST /create-patreon-post` route of server.js: the single-flight `busy`
 * flag, the field check, and the second attempt after a failed first one,
 * mapped to the HTTP status and JSON body. One invocation is modelled as one
 * sequential step; each attempt runs in its own fresh browser session, given
 * here as its own `Page` oracle.
 */
module Handler {
  import opened Wrappers
  import opened Attempt

  const BusyMessage: string := "Busy, try again in a few seconds."
  const MissingFieldsMessage: string := "title and content required"

  /** The fields of `req.body`; a missing body reads as all fields absent. */
  datatype RequestBody = RequestBody(title: JsonValue, content: JsonValue, visibility: JsonValue)

  datatype ResponseBody = PostUrl(patreonUrl: string) | ErrorBody(error: string)

  datatype Response = Response(status: nat, body: ResponseBody)

  /** JavaScript truthiness of a JSON value. */
  predicate Truthy(v: JsonValue)
  {
    match v
    case Absent => false
    case Null => false
    case Bool(b) => b
    case Number(n) => n != 0
    case Str(s) => s != ""
    case Structured => true
  }

  /** The destructuring default `visibility = "patrons"`: it applies to an absent field only. */
  function VisibilityOf(v: JsonValue): (r: JsonValue)
    ensures v.Absent? ==> r == Str("patrons")
    ensures !v.Absent? ==> r == v
  {
    if v.Absent? then Str("patrons") else v
  }

  /** The arguments the handler passes to each attempt. */
  function InputOf(body: RequestBody): PostInput
  {
    PostInput(body.title, body.content, VisibilityOf(body.visibility))
  }

  /**
   * `String(err?.message || err)`: the message when it is non-empty; otherwise
   * the error's string form, which is its name. Errors carry no name in this
   * model, so the name of a plain `Error` is used.
   */
  function ErrorText(e: AttemptError): (text: string)
    ensures text != ""
    ensures Message(e) != "" ==> text == Message(e)
  {
    if Message(e) != "" then Message(e) else "Error"
  }

  /** An attempt's result as a response: 200 with the post URL, or 500 with the error text. */
  function Respond(r: Result<Published, AttemptError>): (resp: Response)
    ensures resp.status == 200 <==> r.Ok?
    ensures resp.status == 500 <==> r.Err?
    ensures r.Ok? ==> resp.body == PostUrl(r.value.url)
    ensures r.Err? ==> resp.body == ErrorBody(ErrorText(r.error))
  {
    match r
    case Ok(out) => Response(200, PostUrl(out.url))
    case Err(e) => Response(500, ErrorBody(ErrorText(e)))
  }

  /**
   * The response an idle server gives: 400 for a missing field, else the first
   * attempt's success, else whatever the second attempt gives.
   */
  function IdleResponse(body: RequestBody, first: Page, second: Page): (resp: Response)
    ensures resp.status == 400 <==> !(Truthy(body.title) && Truthy(body.content))
    ensures resp.status == 400 ==> resp.body == ErrorBody(MissingFieldsMessage)
    ensures resp.status != 429
    ensures resp.status == 200 <==>
      && Truthy(body.title) && Truthy(body.content)
      && (TryCreatePostOnce(InputOf(body), first).Ok? || TryCreatePostOnce(InputOf(body), second).Ok?)
    ensures resp.status == 500 ==>
      && TryCreatePostOnce(InputOf(body), first).Err?
      && resp.body == ErrorBody(ErrorText(TryCreatePostOnce(InputOf(body), second).error))
    ensures Truthy(body.title) && Truthy(body.content) && TryCreatePostOnce(InputOf(body), first).Ok? ==>
      resp == Response(200, PostUrl(TryCreatePostOnce(InputOf(body), first).value.url))
    ensures Truthy(body.title) && Truthy(body.content) && TryCreatePostOnce(InputOf(body), first).Err? ==>
      resp == Respond(TryCreatePostOnce(InputOf(body), second))
  {
    if !(Truthy(body.title) && Truthy(body.content)) then Response(400, ErrorBody(MissingFieldsMessage))
    else
      var input := InputOf(body);
      var out := TryCreatePostOnce(input, first);
      if out.Ok? then Respond(out) else Respond(TryCreatePostOnce(input, second))
  }

  /** The attempts an idle server makes: none for a missing field, a second only after a failed first. */
  function AttemptsMade(body: RequestBody, first: Page): (calls: seq<PostInput>)
    ensures |calls| <= 2
    ensures calls == [] <==> !(Truthy(body.title) && Truthy(body.content))
    ensures |calls| == 2 <==> calls != [] && TryCreatePostOnce(InputOf(body), first).Err?
    ensures forall k | 0 <= k < |calls| :: calls[k] == InputOf(body)
  {
    if !(Truthy(body.title) && Truthy(body.content)) then []
    else if TryCreatePostOnce(InputOf(body), first).Ok? then [InputOf(body)]
    else [InputOf(body), InputOf(body)]
  }

  /**
   * A request whose first attempt leaves the page in the composer is answered
   * 200, with the composer's own address as the post URL.
   */
  lemma ComposerAddressAnswered(body: RequestBody, timeout: string, second: Page)
    requires Truthy(body.title) && Truthy(body.content)
    ensures IdleResponse(body, StuckInComposer(timeout), second) == Response(200, PostUrl(ComposerUrls[0]))
  {
    StuckInComposerPublishes(InputOf(body), timeout);
  }

  class PostServer {
    /** Whether a publish is in progress; module state that starts out false. */
    var busy: bool

    constructor ()
      ensures !busy
    {
      busy := false;
    }

    /**
     * One invocation of the route. A busy server answers 429 and leaves the flag
     * alone; otherwise the flag is set for the duration and is false again on
     * every way out.
     */
    method CreatePatreonPost(body: RequestBody, first: Page, second: Page) returns (resp: Response, calls: seq<PostInput>)
      modifies this
      ensures old(busy) ==> resp == Response(429, ErrorBody(BusyMessage)) && busy && calls == []
      ensures !old(busy) ==> !busy
      ensures !old(busy) ==> resp == IdleResponse(body, first, second)
      ensures !old(busy) ==> calls == AttemptsMade(body, first)
    {
      if busy {
        return Response(429, ErrorBody(BusyMessage)), [];
      }
      busy := true;

      var input := InputOf(body);
      if !(Truthy(input.title) && Truthy(input.content)) {
        busy := false;
        return Response(400, ErrorBody(MissingFieldsMessage)), [];
      }

      calls := [input];
      var out := TryCreatePostOnce(input, first);
      if out.Ok? {
        busy := false;
        return Respond(out), calls;
      }
      calls := calls + [input];
      var out2 := TryCreatePostOnce(input, second);
      if out2.Ok? {
        busy := false;
        return Respond(out2), calls;
      }
      busy := false;
      return Respond(out2), calls;
    }
  }

  /**
   * Requests served one after another by a fresh server: the flag is false
   * between requests, so none is turned away as busy.
   */
  method ServeInSequence(requests: seq<RequestBody>, firsts: seq<Page>, seconds: seq<Page>) returns (responses: seq<Response>)
    requires |firsts| == |requests| && |seconds| == |requests|
    ensures |responses| == |requests|
    ensures forall k | 0 <= k < |responses| :: responses[k].status != 429
  {
    var server := new PostServer();
    responses := [];
    var k := 0;
    while k < |requests|
      invariant 0 <= k <= |requests|
      invariant !server.busy
      invariant |responses| == k
      invariant forall j | 0 <= j < k :: responses[j].status != 429
    {
      var resp, _ := server.CreatePatreonPost(requests[k], firsts[k], seconds[k]);
      responses := responses + [resp];
      k := k + 1;
    }
  }
}
