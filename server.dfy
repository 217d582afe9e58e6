/** The `POST /fetch` route of `createTestApp` in tests/server.test.js: validate the url, fetch
    and parse the page, rewrite the text under `body *`, rewrite the title, and answer with the
    success envelope or an error. */
module Server {
  import opened Strings
  import opened Substitution
  import opened Dom
  import opened Passes

  /** What fetching and parsing the url gave: the parsed page, or the message of the error
      thrown on the way. */
  datatype PageOutcome = Loaded(page: seq<Node>) | Failed(message: string)

  /** The JSON body of a reply; `content` is the rewritten document that `$.html()` serialises. */
  datatype Body = Success(content: seq<Node>, title: string, originalUrl: string) | Failure(error: string)

  datatype Reply = Reply(status: nat, body: Body)

  /** The reply the route gives. */
  function ExpectedReply(url: Value, outcome: PageOutcome): Reply {
    if !Truthy(url) then Reply(400, Failure("URL is required"))
    else
      match outcome
      case Failed(m) => Reply(500, Failure("Failed to fetch content: " + m))
      case Loaded(page) =>
        var rewritten := BodyTextRewritten(page);
        var title := ThreeVariantReplace(TitleSource(rewritten));
        Reply(200, Success(TitlesWritten(rewritten, title), title, url.s))
  }

  /** The route handler, step by step on a document. The page is taken as the parser gives it
      (raw-text shaped, in document order), with inert text wherever the text pass writes. */
  method HandleFetch(url: Value, outcome: PageOutcome) returns (r: Reply)
    requires outcome.Loaded? ==>
      RawTextShaped(outcome.page) && PreOrder(outcome.page) && BodyTextInert(outcome.page)
    ensures r == ExpectedReply(url, outcome)
  {
    if !Truthy(url) {
      return Reply(400, Failure("URL is required"));
    }
    match outcome
    case Failed(m) =>
      r := Reply(500, Failure("Failed to fetch content: " + m));
    case Loaded(page) =>
      var doc := new Document(page);
      doc.RewriteBodyText();
      BodyTextRewrittenMeaning(page);
      SameShapeKeeps(page, doc.nodes);
      var text := doc.ReadTitle();
      var title := ThreeVariantReplace(text);
      doc.WriteTitle(title);
      r := Reply(200, Success(doc.nodes, title, url.s));
  }

  /** A missing or empty url is answered with 400 whatever the fetch would have given, so no
      fetch is needed; a failed fetch is answered with 500 and its message; everything else
      with the success envelope. */
  lemma ReplyStatus(url: Value, outcome: PageOutcome, other: PageOutcome)
    ensures ExpectedReply(url, outcome).status == 400 <==> !Truthy(url)
    ensures !Truthy(url) ==>
      ExpectedReply(url, outcome) == ExpectedReply(url, other) &&
      ExpectedReply(url, outcome).body == Failure("URL is required")
    ensures ExpectedReply(url, outcome).status == 500 <==> Truthy(url) && outcome.Failed?
    ensures ExpectedReply(url, outcome).status == 500 ==>
      ExpectedReply(url, outcome).body.error == "Failed to fetch content: " + outcome.message
    ensures ExpectedReply(url, outcome).status == 200 <==> ExpectedReply(url, outcome).body.Success?
    ensures ExpectedReply(url, outcome).status == 200 ==> ExpectedReply(url, outcome).body.originalUrl == url.s
  {
  }

  /** The returned title is the rule applied to the page's title text as fetched, so it holds
      no variant: the text pass having already rewritten a title inside `body` does not change it. */
  lemma ReplyTitle(url: Value, outcome: PageOutcome)
    requires Truthy(url) && outcome.Loaded? && PreOrder(outcome.page) && BodyTextInert(outcome.page)
    ensures ExpectedReply(url, outcome).body.title == Substituted(TitleSource(outcome.page))
    ensures !HasVariant(ExpectedReply(url, outcome).body.title)
  {
    var page := outcome.page;
    TitleAfterBodyText(page);
    ThreeVariantReplaceMeaning(TitleSource(page));
    NoVariantRemains(TitleSource(page));
  }

  /** A page without title elements gets the empty title and only the text pass. */
  lemma ReplyWithoutTitle(url: Value, outcome: PageOutcome)
    requires Truthy(url) && outcome.Loaded? && BodyTextInert(outcome.page)
    requires forall j | 0 <= j < |outcome.page| :: !IsElementAt(outcome.page, j, "title")
    ensures ExpectedReply(url, outcome).body.title == ""
    ensures ExpectedReply(url, outcome).body.content == BodyTextRewritten(outcome.page)
  {
    var page := outcome.page;
    var rewritten := BodyTextRewritten(page);
    BodyTextRewrittenMeaning(page);
    assert forall j | 0 <= j < |rewritten| :: !IsElementAt(rewritten, j, "title") by {
      forall j | 0 <= j < |rewritten| ensures !IsElementAt(rewritten, j, "title") {
        assert SameKind(page[j], rewritten[j]) && !IsElementAt(page, j, "title");
      }
    }
    NoTitleSource(rewritten, |rewritten|);
    ThreeVariantReplaceMeaning("");
    var e := EditedChildText(rewritten, "title", SetTo(""), |rewritten|);
    assert e == rewritten;
    NoTitleAdded(rewritten, "", |rewritten|);
  }

  /** The content keeps every element with its attributes, every comment and every text node
      outside `body *` and the titles; text under `body *` holds the rule applied to it; and each
      title element ends up with exactly one text child holding the returned title. */
  lemma ReplyContent(url: Value, outcome: PageOutcome)
    requires Truthy(url) && outcome.Loaded? && RawTextShaped(outcome.page) && BodyTextInert(outcome.page)
    ensures var c := ExpectedReply(url, outcome).body.content;
      var page := outcome.page;
      |c| >= |page| &&
      (forall i | 0 <= i < |page| && !InBodyText(page, i) && !IsTitleText(page, i) :: c[i] == page[i]) &&
      (forall i | 0 <= i < |page| && InBodyText(page, i) && !IsTitleText(page, i) ::
        c[i] == Text(page[i].parent, Substituted(page[i].data)))
    ensures var r := ExpectedReply(url, outcome).body;
      forall j: nat | IsElementAt(outcome.page, j, "title") ::
        exists k | 0 <= k < |r.content| ::
          r.content[k] == Text(j, r.title) &&
          forall d | 0 <= d < |r.content| && r.content[d].parent == j :: d == k
  {
    var page := outcome.page;
    var rewritten := BodyTextRewritten(page);
    var title := ThreeVariantReplace(TitleSource(rewritten));
    BodyTextRewrittenMeaning(page);
    SameShapeKeeps(page, rewritten);
    TitlesWrittenFrame(rewritten, title);
    forall j: nat | IsElementAt(page, j, "title")
      ensures exists k | 0 <= k < |TitlesWritten(rewritten, title)| ::
        TitlesWritten(rewritten, title)[k] == Text(j, title) &&
        forall d | 0 <= d < |TitlesWritten(rewritten, title)| && TitlesWritten(rewritten, title)[d].parent == j :: d == k
    {
      assert SameKind(page[j], rewritten[j]);
      TitlesWrittenMeaning(rewritten, title, j);
    }
  }

  /** When every mention of the name in the page lies in text under `body *` or in the title,
      the reply mentions it nowhere. */
  lemma ReplyClearsMentions(url: Value, outcome: PageOutcome)
    requires Truthy(url) && outcome.Loaded? && RawTextShaped(outcome.page) && BodyTextInert(outcome.page)
    requires forall i | 0 <= i < |outcome.page| && Mentions(outcome.page[i]) ::
      InBodyText(outcome.page, i) || IsTitleText(outcome.page, i)
    ensures var c := ExpectedReply(url, outcome).body.content;
      forall i | 0 <= i < |c| :: !Mentions(c[i])
  {
    var page := outcome.page;
    var rewritten := BodyTextRewritten(page);
    var title := ThreeVariantReplace(TitleSource(rewritten));
    BodyTextRewrittenMeaning(page);
    BodyTextLeavesNoVariant(page);
    SameShapeKeeps(page, rewritten);
    TitlesWrittenFrame(rewritten, title);
    NoVariantRemains(TitleSource(rewritten));
    var c := TitlesWritten(rewritten, title);
    forall i | 0 <= i < |c| ensures !Mentions(c[i]) {
      if i < |page| && !IsTitleText(page, i) {
        assert c[i] == rewritten[i];
      }
    }
  }
}
