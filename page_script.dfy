/** The submit handler of public/script.js: it reads the url field, validates and prefixes it,
    toggles the loading, result and error elements, posts the url to `/fetch`, and shows the
    rewritten page in a sandboxed frame or the error message. */
module PageScript {
  import opened Strings
  import opened Client
  import opened ScriptDirect

  // ---------------------------------------------------------------------------------------
  // `String.prototype.trim`

  /** The characters `trim` removes: ECMAScript white space and line terminators. */
  predicate IsSpace(c: char) {
    c == '\t' || c == '\n' || c == '\U{000B}' || c == '\U{000C}' || c == '\r' || c == ' ' ||
    c == '\U{00A0}' || c == '\U{1680}' || ('\U{2000}' <= c <= '\U{200A}') ||
    c == '\U{2028}' || c == '\U{2029}' || c == '\U{202F}' || c == '\U{205F}' || c == '\U{3000}' ||
    c == '\U{FEFF}'
  }

  /** The number of leading spaces. */
  function LeadingSpaces(s: string): (n: nat)
    ensures n <= |s|
    ensures forall k | 0 <= k < n :: IsSpace(s[k])
    ensures n < |s| ==> !IsSpace(s[n])
  {
    if s == [] || !IsSpace(s[0]) then 0 else 1 + LeadingSpaces(s[1..])
  }

  /** The number of trailing spaces. */
  function TrailingSpaces(s: string): (n: nat)
    ensures n <= |s|
    ensures forall k | |s| - n <= k < |s| :: IsSpace(s[k])
    ensures n < |s| ==> !IsSpace(s[|s| - n - 1])
  {
    if s == [] || !IsSpace(s[|s| - 1]) then 0 else 1 + TrailingSpaces(s[..|s| - 1])
  }

  function Trim(s: string): string {
    var a := LeadingSpaces(s);
    s[a..|s| - TrailingSpaces(s[a..])]
  }

  /** `trim` cuts a window out of the string: everything cut is space, and the window neither
      starts nor ends with a space. */
  lemma TrimMeaning(s: string)
    ensures exists a, b | 0 <= a <= b <= |s| ::
      Trim(s) == s[a..b] &&
      (forall k | 0 <= k < a :: IsSpace(s[k])) && (forall k | b <= k < |s| :: IsSpace(s[k]))
    ensures Trim(s) != [] ==> !IsSpace(Trim(s)[0]) && !IsSpace(Trim(s)[|Trim(s)| - 1])
  {
    var a := LeadingSpaces(s);
    var t := s[a..];
    var n := TrailingSpaces(t);
    var b := |s| - n;
    assert Trim(s) == s[a..b];
    forall k | b <= k < |s| ensures IsSpace(s[k]) {
      assert s[k] == t[k - a];
    }
    if a < b {
      assert Trim(s)[0] == s[a];
      assert Trim(s)[b - a - 1] == t[|t| - n - 1];
    }
  }

  /** The trimmed string is empty exactly when the string holds nothing but spaces. */
  lemma TrimEmpty(s: string)
    ensures Trim(s) == [] <==> forall k | 0 <= k < |s| :: IsSpace(s[k])
  {
    TrimMeaning(s);
    if forall k | 0 <= k < |s| :: IsSpace(s[k]) {
      assert LeadingSpaces(s) == |s|;
    }
  }

  /** Trimming twice is trimming once. */
  lemma TrimIdempotent(s: string)
    ensures Trim(Trim(s)) == Trim(s)
  {
    TrimMeaning(s);
    var t := Trim(s);
    if t != [] {
      assert LeadingSpaces(t) == 0;
      assert TrailingSpaces(t) == 0;
      assert t[0..|t|] == t;
    }
  }

  // ---------------------------------------------------------------------------------------
  // The submit handler

  /** The url the handler posts for the field's value, or `None` when it reports an empty url. */
  function RequestUrl(input: string): Option<string> {
    var url := Trim(input);
    if url == "" then None
    else if !HasScheme(url) then Some("http://" + url)
    else Some(url)
  }

  /** The field is rejected exactly when it holds only spaces; otherwise the posted url is the
      trimmed field with a scheme, as `addProtocolToUrl` gives it. */
  lemma RequestUrlMeaning(input: string)
    ensures RequestUrl(input).None? <==> forall k | 0 <= k < |input| :: IsSpace(input[k])
    ensures RequestUrl(input).Some? ==>
      RequestUrl(input).value == AddProtocolToUrl(Str(Trim(input))).s &&
      HasScheme(RequestUrl(input).value)
  {
    TrimEmpty(input);
    if Trim(input) != "" {
      AddProtocolResult(Str(Trim(input)));
    }
  }

  /** `data.title || 'No title'`: the fallback means the title shown is never blank. */
  function ShownTitle(d: Data): (t: string)
    ensures t != ""
  {
    if Truthy(d.title) then d.title.s else "No title"
  }

  /** The listener's reading of the reply: a rejection, or the parsed body, and then the
      body's error when the response is not ok. It reads the body before it looks at `ok`,
      where `handleFormSubmit` looks at `ok` first; both read a failed response's body for its
      error, so the outcome is the same. */
  method ReadReply(reply: FetchReply) returns (result: ClientResult)
    ensures result == DirectResult(reply)
    ensures result.Shown? <==> reply.Answered? && reply.ok && reply.json.Parsed?
  {
    match reply {
      case Rejected(m) =>
        result := Failure(m);
      case Answered(ok, json) =>
        match json {
          case Unparsable(m) =>
            result := Failure(m);
          case Parsed(d) =>
            if !ok {
              result := Failure(ErrorText(d));
            } else {
              result := Shown(d);
            }
        }
    }
  }

  /** The page's elements as the handler sees them. */
  class Page {
    var input: string
    var loadingHidden: bool
    var resultHidden: bool
    var errorHidden: bool
    var errorText: string
    var originalUrlText: string
    var originalUrlHref: string
    var pageTitle: string
    /** The children of the content display. */
    var display: seq<Frame>
    /** The urls posted to `/fetch`, in order. */
    var requests: seq<string>

    constructor (input: string, loadingHidden: bool, resultHidden: bool, errorHidden: bool)
      ensures this.input == input && this.loadingHidden == loadingHidden &&
        this.resultHidden == resultHidden && this.errorHidden == errorHidden
      ensures errorText == "" && originalUrlText == "" && originalUrlHref == "" && pageTitle == ""
      ensures display == [] && requests == []
    {
      this.input := input;
      this.loadingHidden := loadingHidden;
      this.resultHidden := resultHidden;
      this.errorHidden := errorHidden;
      errorText := "";
      originalUrlText := "";
      originalUrlHref := "";
      pageTitle := "";
      display := [];
      requests := [];
    }

    /** `showError(message)`. */
    method ShowError(message: string)
      modifies this
      ensures errorText == message && !errorHidden
      ensures input == old(input) && loadingHidden == old(loadingHidden) && resultHidden == old(resultHidden)
      ensures originalUrlText == old(originalUrlText) && originalUrlHref == old(originalUrlHref)
      ensures pageTitle == old(pageTitle) && display == old(display) && requests == old(requests)
    {
      errorText := message;
      errorHidden := false;
    }

    /** The submit listener, for the reply the request gets. */
    method Submit(reply: FetchReply)
      modifies this
      ensures input == old(input)
      ensures RequestUrl(old(input)).None? ==>
        errorText == "Please enter a valid URL" && !errorHidden &&
        loadingHidden == old(loadingHidden) && resultHidden == old(resultHidden) &&
        requests == old(requests) && display == old(display) && pageTitle == old(pageTitle) &&
        originalUrlText == old(originalUrlText) && originalUrlHref == old(originalUrlHref)
      ensures RequestUrl(old(input)).Some? ==>
        requests == old(requests) + [RequestUrl(old(input)).value] && loadingHidden
      ensures RequestUrl(old(input)).Some? && DirectResult(reply).Shown? ==>
        var u := RequestUrl(old(input)).value;
        var d := DirectResult(reply).data;
        originalUrlText == u && originalUrlHref == u && pageTitle == ShownTitle(d) &&
        !resultHidden && errorHidden && errorText == old(errorText) &&
        |display| == 1 && fresh(display[0]) && display[0].written == d.content && display[0].sandbox == Sandbox
      ensures RequestUrl(old(input)).Some? && DirectResult(reply).Failure? ==>
        errorText == DirectResult(reply).message && !errorHidden && resultHidden &&
        display == old(display) && pageTitle == old(pageTitle) &&
        originalUrlText == old(originalUrlText) && originalUrlHref == old(originalUrlHref)
    {
      var url := Trim(input);
      if url == "" {
        ShowError("Please enter a valid URL");
        return;
      } else if !HasScheme(url) {
        url := "http://" + url;
      }
      assert url == RequestUrl(input).value;
      loadingHidden := false;
      resultHidden := true;
      errorHidden := true;
      Load(url, reply);
    }

    /** The `try`/`catch`/`finally` of the listener: post `url`, then show the page and its
        title, or the error; the loading indicator is hidden either way. The request is sent
        while the indicator shows and the result and the error are hidden. */
    method Load(url: string, reply: FetchReply)
      requires !loadingHidden && resultHidden && errorHidden
      modifies this
      ensures input == old(input) && requests == old(requests) + [url] && loadingHidden
      ensures DirectResult(reply).Shown? ==>
        var d := DirectResult(reply).data;
        originalUrlText == url && originalUrlHref == url && pageTitle == ShownTitle(d) &&
        !resultHidden && errorHidden && errorText == old(errorText) &&
        |display| == 1 && fresh(display[0]) && display[0].written == d.content && display[0].sandbox == Sandbox
      ensures DirectResult(reply).Failure? ==>
        errorText == DirectResult(reply).message && !errorHidden && resultHidden &&
        display == old(display) && pageTitle == old(pageTitle) &&
        originalUrlText == old(originalUrlText) && originalUrlHref == old(originalUrlHref)
    {
      requests := requests + [url];
      var result := ReadReply(reply);
      match result {
        case Shown(d) =>
          originalUrlText := url;
          originalUrlHref := url;
          pageTitle := ShownTitle(d);
          var frame := new Frame(d.content);
          display := [frame];
          resultHidden := false;
        case Failure(m) =>
          ShowError(m);
      }
      loadingHidden := true;
    }
  }
}
