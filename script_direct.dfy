/** The client functions of tests/script.direct.js: the scheme prefix, the error display, the
    callback-driven submit, and the frame that displays the rewritten page. */
module ScriptDirect {
  import opened Strings
  import opened Client

  // ---------------------------------------------------------------------------------------
  // addProtocolToUrl

  /** A falsy url is returned as it is; a url without an `http://`, `https://` or `ftp://`
      prefix gets `http://` in front. */
  function AddProtocolToUrl(url: Value): (r: Value)
    ensures !Truthy(url) ==> r == url
  {
    if !Truthy(url) then url
    else if !HasScheme(url.s) then Str("http://" + url.s)
    else url
  }

  /** The prefix is added exactly when the url is non-empty and lacks one of the three schemes. */
  lemma AddProtocolWhen(url: Value)
    ensures AddProtocolToUrl(url) != url <==> Truthy(url) && !HasScheme(url.s)
    ensures Truthy(url) && !HasScheme(url.s) ==> AddProtocolToUrl(url) == Str("http://" + url.s)
  {
    if Truthy(url) && !HasScheme(url.s) {
      assert |AddProtocolToUrl(url).s| > |url.s|;
    }
  }

  /** A non-empty url comes back with a scheme, ending with the url as given. */
  lemma AddProtocolResult(url: Value)
    requires Truthy(url)
    ensures AddProtocolToUrl(url).Str? && HasScheme(AddProtocolToUrl(url).s)
    ensures exists p | p in ["", "http://"] :: AddProtocolToUrl(url).s == p + url.s
  {
    if !HasScheme(url.s) {
      StartsWithConcat("http://", url.s);
      assert AddProtocolToUrl(url).s == "http://" + url.s;
    } else {
      assert AddProtocolToUrl(url).s == "" + url.s;
    }
  }

  /** Adding the prefix twice is adding it once. */
  lemma AddProtocolIdempotent(url: Value)
    ensures AddProtocolToUrl(AddProtocolToUrl(url)) == AddProtocolToUrl(url)
  {
    if Truthy(url) {
      AddProtocolResult(url);
    }
  }

  // ---------------------------------------------------------------------------------------
  // showError

  /** Without an element nothing happens; with one, it shows the message. */
  method ShowError(message: string, errorElement: Box?)
    modifies errorElement
    ensures errorElement != null ==> errorElement.text == message && !errorElement.hidden
  {
    if errorElement != null {
      errorElement.text := message;
      errorElement.hidden := false;
    }
  }

  // ---------------------------------------------------------------------------------------
  // handleFormSubmit

  /** Which of the optional callbacks the caller passed. */
  datatype Hooks = Hooks(
    onSuccess: bool, onError: bool,
    showLoading: bool, hideLoading: bool, hideResult: bool, hideError: bool)

  /** A call the handler makes, in the order it makes them. */
  datatype Event =
    | ShowLoading | HideResult | HideError
    | Fetch(url: string)
    | Succeeded(data: Data, url: string)
    | Failed(message: string)
    | HideLoading

  /** The outcome of the request as the handler reads it: a rejection, the body of a failed
      response (or the rejection of reading it), or the body of a successful one. */
  function DirectResult(reply: FetchReply): ClientResult {
    match reply
    case Rejected(m) => Failure(m)
    case Answered(ok, json) =>
      match json
      case Unparsable(m) => Failure(m)
      case Parsed(d) => if ok then Shown(d) else Failure(ErrorText(d))
  }

  function Optional(present: bool, e: Event): seq<Event> {
    if present then [e] else []
  }

  /** The loading calls made before the request. */
  function Preparation(hooks: Hooks): seq<Event> {
    Optional(hooks.showLoading, ShowLoading) + Optional(hooks.hideResult, HideResult) +
    Optional(hooks.hideError, HideError)
  }

  /** The callback that reports the outcome, if the caller passed it. */
  function Report(hooks: Hooks, result: ClientResult, url: string): seq<Event> {
    match result
    case Shown(d) => Optional(hooks.onSuccess, Succeeded(d, url))
    case Failure(m) => Optional(hooks.onError, Failed(m))
  }

  /** The calls `handleFormSubmit` makes for a url, the callbacks passed and the reply. */
  function SubmitTrace(url: Value, hooks: Hooks, reply: FetchReply): seq<Event> {
    if !Truthy(url) then Optional(hooks.onError, Failed("Please enter a valid URL"))
    else
      var processed := AddProtocolToUrl(url).s;
      Preparation(hooks) + [Fetch(processed)] + Report(hooks, DirectResult(reply), processed) +
      Optional(hooks.hideLoading, HideLoading)
  }

  /** The `try` block's reading of the response: a rejection, or the body's error when the
      response is not ok, or the body. */
  method ReadResponse(reply: FetchReply) returns (result: ClientResult)
    ensures result == DirectResult(reply)
    ensures result.Failure? <==> reply.Rejected? || !reply.ok || reply.json.Unparsable?
  {
    match reply {
      case Rejected(m) =>
        result := Failure(m);
      case Answered(ok, json) =>
        if !ok {
          match json {
            case Unparsable(m) => result := Failure(m);
            case Parsed(d) => result := Failure(ErrorText(d));
          }
        } else {
          match json {
            case Unparsable(m) => result := Failure(m);
            case Parsed(d) => result := Shown(d);
          }
        }
    }
  }

  /** `handleFormSubmit`, one call at a time. */
  method HandleFormSubmit(url: Value, hooks: Hooks, reply: FetchReply) returns (trace: seq<Event>)
    ensures trace == SubmitTrace(url, hooks, reply)
  {
    trace := [];
    if !Truthy(url) {
      if hooks.onError {
        trace := trace + [Failed("Please enter a valid URL")];
      }
      return;
    }
    var processedUrl := AddProtocolToUrl(url).s;
    if hooks.showLoading {
      trace := trace + [ShowLoading];
    }
    if hooks.hideResult {
      trace := trace + [HideResult];
    }
    if hooks.hideError {
      trace := trace + [HideError];
    }
    assert trace == Preparation(hooks);
    trace := trace + [Fetch(processedUrl)];
    ghost var sent := trace;
    var result := ReadResponse(reply);
    match result {
      case Shown(d) =>
        if hooks.onSuccess {
          trace := trace + [Succeeded(d, processedUrl)];
        }
      case Failure(m) =>
        if hooks.onError {
          trace := trace + [Failed(m)];
        }
    }
    assert trace == sent + Report(hooks, result, processedUrl);
    if hooks.hideLoading {
      trace := trace + [HideLoading];
    }
  }

  /** An empty url only reports "Please enter a valid URL": no request and no loading calls. */
  lemma EmptyUrlOnlyReports(url: Value, hooks: Hooks, reply: FetchReply)
    requires !Truthy(url)
    ensures SubmitTrace(url, hooks, reply) == if hooks.onError then [Failed("Please enter a valid URL")] else []
    ensures forall e | e in SubmitTrace(url, hooks, reply) :: !e.Fetch?
  {
  }

  /** A non-empty url is fetched exactly once, with the scheme added, after the loading calls
      in the order showLoading, hideResult, hideError. */
  lemma FetchesOnce(url: Value, hooks: Hooks, reply: FetchReply)
    requires Truthy(url)
    ensures var t := SubmitTrace(url, hooks, reply);
      exists k | 0 <= k < |t| ::
        t[k] == Fetch(AddProtocolToUrl(url).s) && t[..k] == Preparation(hooks) &&
        forall m | 0 <= m < |t| && m != k :: !t[m].Fetch?
  {
    var t := SubmitTrace(url, hooks, reply);
    var processed := AddProtocolToUrl(url).s;
    var pre := Preparation(hooks);
    var post := Report(hooks, DirectResult(reply), processed) + Optional(hooks.hideLoading, HideLoading);
    assert t == pre + [Fetch(processed)] + post;
    NoFetchBeforeOrAfter(hooks, DirectResult(reply), processed);
    SingleFetch(pre, Fetch(processed), post);
    assert t[|pre|] == Fetch(processed) && t[..|pre|] == pre;
  }

  /** A trace with one fetch between fetch-free parts holds no other fetch. */
  lemma SingleFetch(pre: seq<Event>, f: Event, post: seq<Event>)
    requires forall m | 0 <= m < |pre| :: !pre[m].Fetch?
    requires forall m | 0 <= m < |post| :: !post[m].Fetch?
    ensures var t := pre + [f] + post;
      t[|pre|] == f && t[..|pre|] == pre && forall m | 0 <= m < |t| && m != |pre| :: !t[m].Fetch?
  {
    var t := pre + [f] + post;
    forall m | 0 <= m < |t| && m != |pre| ensures !t[m].Fetch? {
      if m < |pre| {
        assert t[m] == pre[m];
      } else {
        assert t[m] == post[m - |pre| - 1];
      }
    }
    assert t[..|pre|] == pre;
  }

  /** Neither the loading calls nor the calls after the request are fetches. */
  lemma NoFetchBeforeOrAfter(hooks: Hooks, result: ClientResult, url: string)
    ensures forall m | 0 <= m < |Preparation(hooks)| :: !Preparation(hooks)[m].Fetch?
    ensures var post := Report(hooks, result, url) + Optional(hooks.hideLoading, HideLoading);
      forall m | 0 <= m < |post| :: !post[m].Fetch?
  {
  }

  /** The outcome callbacks are called only from the report after the request. */
  lemma OutcomesReported(url: Value, hooks: Hooks, reply: FetchReply)
    requires Truthy(url)
    ensures var t := SubmitTrace(url, hooks, reply);
      forall e | e in t && (e.Succeeded? || e.Failed?) ::
        e in Report(hooks, DirectResult(reply), AddProtocolToUrl(url).s)
  {
    var processed := AddProtocolToUrl(url).s;
    var rep := Report(hooks, DirectResult(reply), processed);
    var t := SubmitTrace(url, hooks, reply);
    assert t == Preparation(hooks) + [Fetch(processed)] + rep + Optional(hooks.hideLoading, HideLoading);
  }

  /** Success is reported exactly when the response is ok and its body parses, with the
      processed url; otherwise the error is reported with its message, and never both. */
  lemma ReportsOneOutcome(url: Value, hooks: Hooks, reply: FetchReply)
    requires Truthy(url)
    ensures var t := SubmitTrace(url, hooks, reply);
      (exists e | e in t :: e.Succeeded?) <==>
        hooks.onSuccess && reply.Answered? && reply.ok && reply.json.Parsed?
    ensures var t := SubmitTrace(url, hooks, reply);
      forall e | e in t && e.Succeeded? :: e == Succeeded(reply.json.data, AddProtocolToUrl(url).s)
    ensures var t := SubmitTrace(url, hooks, reply);
      forall e | e in t && e.Failed? ::
        DirectResult(reply).Failure? && e.message == DirectResult(reply).message
    ensures var t := SubmitTrace(url, hooks, reply);
      !((exists e | e in t :: e.Succeeded?) && (exists e | e in t :: e.Failed?))
  {
    var processed := AddProtocolToUrl(url).s;
    var rep := Report(hooks, DirectResult(reply), processed);
    OutcomesReported(url, hooks, reply);
    if hooks.onSuccess && reply.Answered? && reply.ok && reply.json.Parsed? {
      assert rep == [Succeeded(reply.json.data, processed)];
      assert Succeeded(reply.json.data, processed) in SubmitTrace(url, hooks, reply);
    }
  }

  /** After a non-empty url, the loading indicator is hidden exactly once, as the last call. */
  lemma HidesLoadingLast(url: Value, hooks: Hooks, reply: FetchReply)
    requires Truthy(url) && hooks.hideLoading
    ensures var t := SubmitTrace(url, hooks, reply);
      t[|t| - 1] == HideLoading && multiset(t)[HideLoading] == 1
  {
  }

  // ---------------------------------------------------------------------------------------
  // displayContent

  /** Without a container the result is `null`; otherwise the container's children are replaced
      by a new sandboxed frame into which the content is written. */
  method DisplayContent(content: string, container: Container?) returns (frame: Frame?)
    modifies container
    ensures container == null ==> frame == null
    ensures container != null ==>
      frame != null && fresh(frame) && container.children == [frame] &&
      frame.sandbox == Sandbox && frame.written == content
  {
    if container == null {
      return null;
    }
    frame := new Frame(content);
    container.children := [];
    container.children := container.children + [frame];
  }
}
