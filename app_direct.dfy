/** The `POST /fetch` route of `createApp` in tests/app.direct.js: a decision over the posted
    url and the outcome of the injected fetcher, answered with `processHtml` of the page. */
module AppDirect {
  import opened Strings
  import opened Substitution
  import opened HtmlText

  /** What awaiting `options.fetchHtml(url)` gives: the page text, or a thrown error's message. */
  datatype FetchOutcome = Fetched(html: string) | Threw(message: string)

  /** The JSON body of a reply: the success envelope `{success: true, content, title,
      originalUrl}` or `{error}`. */
  datatype Body = Success(content: string, title: string, originalUrl: string) | Failure(error: string)

  datatype Reply = Reply(status: nat, body: Body)

  /** The page used when no fetcher is configured. */
  const DefaultHtml: string :=
    "<html><head>" + "<title>" + "Yale University" + "</title>" + "</head><body><p>Yale University</p></body></html>"

  const UrlRequired: string := "URL is required"
  const FetchFailedPrefix: string := "Failed to fetch content: "

  /** The fetch outcome the handler consults for a present url. */
  function Outcome(fetcher: Option<FetchOutcome>): FetchOutcome {
    if fetcher.Some? then fetcher.value else Fetched(DefaultHtml)
  }

  /** The route handler. `fetcher` is `None` when `options.fetchHtml` is not set; otherwise it
      holds what the fetcher produced for this url. */
  function HandleFetch(url: Value, fetcher: Option<FetchOutcome>): (r: Reply)
    ensures r.status in {200, 400, 500}
    ensures r.status == 200 <==> r.body.Success?
  {
    if !Truthy(url) then Reply(400, Failure(UrlRequired))
    else
      match Outcome(fetcher)
      case Threw(m) => Reply(500, Failure(FetchFailedPrefix + m))
      case Fetched(html) =>
        var p := ProcessHtml(html);
        Reply(200, Success(p.content, p.title, url.s))
  }

  /** A missing or empty url is rejected with 400, whatever the fetcher would have produced: the
      reply does not depend on the fetcher, so no fetch is needed to give it. */
  lemma RejectsMissingUrl(url: Value, f1: Option<FetchOutcome>, f2: Option<FetchOutcome>)
    ensures HandleFetch(url, f1).status == 400 <==> !Truthy(url)
    ensures !Truthy(url) ==>
      HandleFetch(url, f1) == HandleFetch(url, f2) &&
      HandleFetch(url, f1).body == Failure("URL is required")
  {
  }

  /** A thrown fetch error becomes a 500 whose message is the fixed prefix followed by the
      original message, and only a thrown error does. */
  lemma ReportsFetchError(url: Value, fetcher: Option<FetchOutcome>)
    ensures HandleFetch(url, fetcher).status == 500 <==> Truthy(url) && Outcome(fetcher).Threw?
    ensures HandleFetch(url, fetcher).status == 500 ==>
      HandleFetch(url, fetcher).body.error == "Failed to fetch content: " + Outcome(fetcher).message
  {
  }

  /** A successful reply echoes the url and carries the processed page: its content has the
      page's length and brackets, and its title is the three-variant rule applied to the page's
      first title element, or `"No Title"`. */
  lemma SuccessEnvelope(url: Value, fetcher: Option<FetchOutcome>)
    ensures HandleFetch(url, fetcher).status == 200 <==> Truthy(url) && Outcome(fetcher).Fetched?
    ensures HandleFetch(url, fetcher).status == 200 ==>
      var html := Outcome(fetcher).html;
      var b := HandleFetch(url, fetcher).body;
      b.originalUrl == url.s &&
      b.content == Retag(TextRewritten(html)) &&
      SameBrackets(b.content, html) &&
      (FirstTitle(html, 0).None? ==> b.title == "No Title") &&
      (FirstTitle(html, 0).Some? ==> b.title == ThreeVariantReplace(TitleText(html, FirstTitle(html, 0).value)))
  {
    if Truthy(url) && Outcome(fetcher).Fetched? {
      ProcessHtmlContent(Outcome(fetcher).html);
      ProcessHtmlTitle(Outcome(fetcher).html);
    }
  }

  /** A page without `yale` in any casing is passed through untouched. */
  lemma PassesThroughPlainPage(url: Value, html: string)
    requires Truthy(url) && !Occurs(html, "yale", true)
    ensures HandleFetch(url, Some(Fetched(html))).body.content == html
  {
    ProcessHtmlWithoutCiYale(html);
  }

  /** A title element right after a prefix `a`: its text is `t`, which holds no `<`. */
  lemma TitleAfterPrefix(h: string, a: string, t: string, b: string)
    requires h == a + "<title>" + t + "</title>" + b
    requires forall m :: 0 <= m < |t| ==> t[m] != '<'
    ensures TitleAt(h, |a|) && TitleText(h, |a|) == t
  {
    var p := |a| + 7 + |t|;
    forall j | 0 <= j < 7 ensures CharMatch(h[|a| + j], "<title>"[j], true) {
      assert h[|a| + j] == "<title>"[j];
    }
    forall m | |a| + 7 <= m < p ensures h[m] != '<' {
      assert h[m] == t[m - |a| - 7];
    }
    assert h[p] == '<';
    assert RunEnd(h, |a| + 7) == p;
    forall j | 0 <= j < 8 ensures CharMatch(h[p + j], "</title>"[j], true) {
      assert h[p + j] == "</title>"[j];
    }
    assert h[|a| + 7..p] == t;
  }

  /** A title element starts with `<` followed by `t` in either case. */
  lemma NoTitleTagAt(h: string, i: nat)
    requires i + 1 < |h| && (h[i] != '<' || h[i + 1] == 'h')
    ensures !TitleAt(h, i)
  {
    if h[i] != '<' {
      assert !CharMatch(h[i + 0], "<title>"[0], true);
    } else {
      assert !CharMatch(h[i + 1], "<title>"[1], true);
    }
  }

  /** The first title element of the default page holds "Yale University". */
  lemma DefaultPageFirstTitle(h: string)
    requires h == DefaultHtml
    ensures FirstTitle(h, 0) == Some(12) && TitleText(h, 12) == "Yale University"
  {
    var a := "<html><head>";
    TitleAfterPrefix(h, a, "Yale University", "</head><body><p>Yale University</p></body></html>");
    NoTitleInPrefix(h, a);
  }

  /** No title element starts inside the default page's leading `<html><head>`. */
  lemma NoTitleInPrefix(h: string, a: string)
    requires a == "<html><head>" && |h| > 13 && h[..12] == a && h[12] == '<'
    ensures forall i: nat | i < 12 :: !TitleAt(h, i)
  {
    forall i: nat | i < 12 ensures !TitleAt(h, i) {
      assert h[i] == a[i];
      if i < 11 {
        assert h[i + 1] == a[i + 1];
      }
      NoTitleTagAt(h, i);
    }
  }

  /** The three-variant rule turns "Yale University" into "Fale University". */
  lemma DefaultTitleRewritten(s: string)
    requires s == "Yale University"
    ensures ThreeVariantReplace(s) == "Fale University"
  {
    forall k | 0 <= k < |s| ensures ThreeVariantReplace(s)[k] == "Fale University"[k] {
      ThreeVariantReplaceAt(s, k);
      if 0 < k < 12 {
        assert s[k] != 'Y' && s[k] != 'y';
      }
    }
  }

  /** A successful reply's title, from the first title element of the fetched page. */
  lemma FetchedTitle(url: Value, fetcher: Option<FetchOutcome>, i: nat, t: string)
    requires Truthy(url) && Outcome(fetcher).Fetched?
    requires FirstTitle(Outcome(fetcher).html, 0) == Some(i)
    requires TitleText(Outcome(fetcher).html, i) == t
    ensures HandleFetch(url, fetcher).body.title == ThreeVariantReplace(t)
  {
    SuccessEnvelope(url, fetcher);
  }

  /** Without a configured fetcher, any present url gets the default page back with the title
      "Fale University". */
  lemma DefaultPageReply(u: string)
    requires u != ""
    ensures HandleFetch(Str(u), None).status == 200
    ensures HandleFetch(Str(u), None).body.title == "Fale University"
    ensures HandleFetch(Str(u), None).body.originalUrl == u
  {
    DefaultPageFirstTitle(Outcome(None).html);
    DefaultTitleRewritten("Yale University");
    FetchedTitle(Str(u), None, 12, "Yale University");
  }
}
