# faleproxy: the Yale-to-Fale rewriting proxy, modelled in Dafny

faleproxy fetches a web page for a url posted to `POST /fetch`. It replaces the name "Yale"
with "Fale" in the page's text and title, and answers with the rewritten page, the rewritten
title and the original url. A browser page posts the url and shows the answer in a sandboxed
iframe. This project models the core of that pipeline and proves what each part does.

- **The brand substitution** (module `Substitution`, `substitution.dfy`). This is
  `replaceYaleWithFale` and the same chain of three global `.replace` calls written inline
  elsewhere: `Yale`→`Fale`, `yale`→`fale`, `YALE`→`FALE`.
  - A literal global replacement is modelled as JavaScript performs it: leftmost match first,
    matches never overlap.
  - The chain is proved equal to a one-pass reference definition, `Substituted`. It rewrites the
    first letter of every exact variant and nothing else.
  - Also proved: no variant survives the chain, and the chain is idempotent.
  - The style-sheet rule `/yale/gi → 'fale'` is modelled too. After it, no `yale` in any
    casing remains.
- **`processHtml`** (module `HtmlText`, `html_text.dfy`). The HTML is a plain string rewritten by
  two regular-expression passes, then searched for its first title.
  - The text pass `/>([^<]*Yale[^<]*)</gi` is proved equal to a reference definition. That
    definition applies the rule to exactly the characters lying strictly between a `>` and the
    next `<`.
  - On the text pass's output, the title pass only writes the title tags in lower case.
  - The returned title is the rule applied to the text of the input's first title element, or
    `"No Title"`.
- **The `/fetch` handler of `createApp`** (module `AppDirect`, `app_direct.dfy`). It has three
  outcomes:
  - a missing url gives 400 `URL is required`;
  - a thrown fetch error gives 500 `Failed to fetch content: <message>`;
  - otherwise it gives the success envelope. Without a configured fetcher the handler uses its
    default page, whose title comes back as "Fale University".
- **The cheerio passes** (modules `Dom` and `Passes`, `dom.dfy` and `passes.dfy`). The parsed
  document is a flat arena of nodes. Each node names its parent by index, and the children of
  a node are the nodes naming it, in index order.
  - As the parser emits it, index order is document order (`Dom.PreOrder`). The title write is
    the one step that appends nodes: one text child for each title element that had none.
  - `replaceWith` parses the new text of the text pass as HTML. The model stores that text as
    it is, which matches the parse on inert text: no `<`, `&`, carriage return or NUL
    (`Passes.InertText`).
  - Each pass is a method of the class `Document` that updates `nodes` in place. It is proved
    equal to a function of the document before it, and lemmas state what that function does.
  - The passes are: the text nodes under `body *`, reading and writing `$('title').text()`, the
    `script` and `style` bodies, comments inside elements, `meta[content]`, and the `data-*`
    attributes of `[data-university], [data-info]`.
- **The `/fetch` handler of `createTestApp`** (module `Server`, `server.dfy`). It runs the text
  pass, then reads the title, applies the rule to it and writes it back. Proved:
  - the returned title is the rule applied to the title as fetched;
  - every title element ends up with exactly one text child holding that title;
  - nothing outside the selections changes.
- **The client** (modules `Client`, `ScriptDirect` and `PageScript`).
  - `addProtocolToUrl`, `showError`, `handleFormSubmit` and `displayContent` of
    tests/script.direct.js are modelled. The calls `handleFormSubmit` makes are recorded as a
    trace of events.
  - The submit listener of public/script.js is the class `Page`, whose methods update the page's
    elements.
  - The iframe's `onload` handler is `Client.Frame.OnLoad`.

Where the code and a description of its intent differ, the model follows the code:

- The title pass of `processHtml` is not a no-op. A title whose text holds `yale` in a casing
  that is not one of the three variants keeps its text, but its tags are written in lower case:
  `<TITLE>yAle</TITLE>` becomes `<title>yAle</title>` (`HtmlText.TitleTagsLowerCased`).
- The style rule lower-cases every occurrence. In the comment `/* Yale University colors */` of
  tests/replacement-edge-cases.test.js:69, it produces `fale`, while the expectation at line 89
  asks for `Fale` (`Substitution.StyleLowersCapital`).
- The text pass of the cheerio handler selects `body *`. A text node directly under `body` is
  therefore not rewritten (`Passes.DirectBodyTextKept`).
- The missing-title value differs by path:
  - `processHtml` answers `"No Title"`;
  - the cheerio handler answers `""`, the text of no title elements (`Server.ReplyWithoutTitle`);
  - the page shows `"No title"`.
- public/script.js reads the response body before it looks at `ok`, whereas `handleFormSubmit`
  looks at `ok` first. Both read a failed response's body for its error, so the outcome is the
  same (`PageScript.ReadReply`, `ScriptDirect.ReadResponse`).

## Model

| member | source | states |
|---|---|---|
| Substitution.ReplaceAllMatched | tests/app.direct.js:13-15 | a global literal replace with a pattern that cannot overlap itself writes the replacement over every occurrence, character by character |
| Substitution.ReplaceAllUncovered | tests/app.direct.js:13-15 | a global literal replace keeps every character that lies in no occurrence of the pattern |
| Substitution.FirstLetterSwap | tests/app.direct.js:13-15 | replacing a pattern by one that differs only in its first letter changes exactly the first letters of the occurrences |
| Substitution.ThreeVariantReplaceMeaning | tests/app.direct.js:12-15 | the three chained replacements equal the one-pass case-preserving substitution `Substituted` |
| Substitution.ThreeVariantReplaceAt | tests/app.direct.js:12-15 | the chain's output at each index is the substitution's character there |
| Substitution.ChangedExactlyAtVariants | tests/app.direct.js:12-15 | length is kept; a character changes if and only if an exact variant starts there, and then `Y` becomes `F` and `y` becomes `f` |
| Substitution.EachVariantReplaced | tests/app.direct.js:13-15 | every `Yale`, `yale` and `YALE` in the input reads `Fale`, `fale` and `FALE` at the same place in the output |
| Substitution.VariantRewritten | tests/app.direct.js:13-15 | at a variant the first letter is rewritten and the other three are kept |
| Substitution.NoVariantRemains | tests/app.direct.js:12-15 | no `Yale`, `yale` or `YALE` survives the chain |
| Substitution.UnchangedWithoutVariant | tests/app.direct.js:12-15 | text without an exact variant, irregular casings such as `YaLe` included, comes back unchanged |
| Substitution.Idempotent | tests/app.direct.js:12-15 | applying the rule twice is applying it once |
| Substitution.ReplaceYaleWithFale | tests/app.direct.js:10-16 | a falsy text is returned as it is; a string becomes the case-preserving substitution of it |
| Substitution.SubstitutedAbsorbsPartial | tests/server.test.js:43-55 | applying the rule to some occurrences first does not change the final substitution |
| Substitution.PartiallySubstitutedConcat | tests/server.test.js:55 | partial applications of the rule to pieces make a partial application to their concatenation |
| Substitution.StyleReplaceMeaning | tests/replacement-edge-cases.test.js:79-83 | after the style rule no `yale` in any casing remains; each case-insensitive occurrence reads `fale`; every other character is kept |
| Substitution.StyleLowersCapital | tests/replacement-edge-cases.test.js:81-89 | the style rule turns `Yale` into `fale`, where the three-variant rule gives `Fale` |
| HtmlText.RunEnd | tests/app.direct.js:25 | `[^<]*` starting at an index stops at the first `<` after it, or at the end |
| HtmlText.TextPassMeaning | tests/app.direct.js:25-27 | the scanning text pass applies the rule exactly to the characters strictly between a `>` and the next `<` |
| HtmlText.TextPassChanges | tests/app.direct.js:25-27 | the text pass keeps the length and every `<` and `>`; it changes only characters between tags, and only the first letters of variants |
| HtmlText.TextPassRunsClean | tests/app.direct.js:25-27 | after the text pass no variant is left between tags |
| HtmlText.TextPassWithoutVariant | tests/app.direct.js:25-27 | HTML without an exact variant comes through the text pass unchanged |
| HtmlText.TextPassTitleText | tests/app.direct.js:25-27 | the text pass keeps every title element and rewrites its text with the rule |
| HtmlText.TitleText | tests/app.direct.js:35-36 | the captured title text holds no `<` |
| HtmlText.TitlePassOnClean | tests/app.direct.js:30-32 | where no variant is left between tags, the title pass only writes the title tags in lower case |
| HtmlText.RetagLower | tests/app.direct.js:30-32 | rewriting the title tags changes the case of letters only |
| HtmlText.FirstTitle | tests/app.direct.js:35 | the index found holds a title element and none starts before it; no result means there is none |
| HtmlText.TagFirstTitle | tests/app.direct.js:35 | strings that differ only in case and in `f`/`y` have their first title element at the same place |
| HtmlText.ProcessHtmlContent | tests/app.direct.js:22-32 | the content is the text pass's reference definition with the title tags lower-cased; its brackets stand where the input's do |
| HtmlText.ProcessHtmlTitle | tests/app.direct.js:30-36 | the title is the rule applied to the text of the input's first title element, or `"No Title"` when there is none |
| HtmlText.ProcessHtmlWithoutVariant | tests/app.direct.js:25-32 | without an exact variant only title tags change, and only in case |
| HtmlText.ProcessHtmlWithoutCiYale | tests/app.direct.js:25-32 | HTML without `yale` in any casing comes back unchanged |
| HtmlText.TitleTagsLowerCased | tests/app.direct.js:30-32 | `<TITLE>yAle</TITLE>` comes out of `processHtml` as `<title>yAle</title>` |
| AppDirect.HandleFetch | tests/app.direct.js:60-93 | the status is 200, 400 or 500, and it is 200 exactly when the body is the success envelope |
| AppDirect.RejectsMissingUrl | tests/app.direct.js:64-66 | the status is 400 exactly for a falsy url, with `URL is required`, whatever the fetcher would give |
| AppDirect.ReportsFetchError | tests/app.direct.js:70-92 | the status is 500 exactly when the fetch throws, with the prefixed message |
| AppDirect.SuccessEnvelope | tests/app.direct.js:79-86 | a 200 reply echoes the url and carries the processed content and the rewritten first title, or `"No Title"` |
| AppDirect.PassesThroughPlainPage | tests/app.direct.js:79-86 | a page without `yale` in any casing is returned unchanged |
| AppDirect.DefaultPageFirstTitle | tests/app.direct.js:75 | the default page's first title element holds "Yale University" |
| AppDirect.DefaultTitleRewritten | tests/app.direct.js:75 | the rule turns "Yale University" into "Fale University" |
| AppDirect.FetchedTitle | tests/app.direct.js:79-84 | a 200 reply's title is the rule applied to the fetched page's first title text |
| AppDirect.DefaultPageReply | tests/app.direct.js:73-86 | without a fetcher, a present url gets 200, the title "Fale University" and its own url back |
| Dom.FirstChild | tests/server.test.js:56 | the index found is a child of the node and no child comes before it; no result means the node has no child |
| Dom.SameShapeKeeps | tests/server.test.js:43-45 | a rewrite that keeps every node's kind, parent and tag keeps the tree well formed, in document order and in the raw-text shape, and keeps every selection |
| Passes.Document.constructor | tests/server.test.js:40 | the document holds the nodes the parser produced |
| Passes.Document.RewriteBodyText | tests/server.test.js:43-52 | on a document whose rewritten texts are inert, after the in-place loop the document is the text pass of the document before it |
| Passes.BodyTextInertAfter | tests/server.test.js:43-52 | after the text pass every selected text is inert, so the pass can run again on its own output |
| Passes.BodyTextRewrittenMeaning | tests/server.test.js:43-52 | the text pass keeps the tree's shape; it rewrites exactly the text nodes under `body *`, each into the substitution of its text |
| Passes.BodyTextLeavesNoVariant | tests/server.test.js:43-52 | after the text pass no selected text node holds a variant |
| Passes.BodyTextIdempotent | tests/server.test.js:43-52 | a second text pass changes nothing |
| Passes.DirectBodyTextKept | tests/server.test.js:43 | a text node directly under a top-level `body` is not selected by `body *` and is kept |
| Passes.BodyTextClearsNestedMentions | tests/replacement-edge-cases.test.js:19-28 | when every mention lies in nested text under `body *`, none is left anywhere |
| Passes.Document.ReadTitle | tests/server.test.js:55 | on a document in document order, the text read is the concatenated direct text children of every title element, in that order; under the parser's raw-text shape (`Dom.RawTextShaped`) these are all of a title's text, so this is `$('title').text()` |
| Passes.TitleSourceAfterBodyText | tests/server.test.js:43-55 | the title read after the text pass is a partial application of the rule to the title as fetched |
| Passes.TitleAfterBodyText | tests/server.test.js:43-55 | applying the rule to the title read after the text pass gives the same title as applying it to the title as fetched |
| Passes.NoTitleSource | tests/server.test.js:55 | without title elements the title text is empty |
| Passes.Document.WriteTitle | tests/server.test.js:56 | after the loop the document is the title write of the document before it |
| Passes.TitlesWrittenMeaning | tests/server.test.js:56 | after the title write every title element has exactly one child, a text node holding the title |
| Passes.TitlesWrittenFrame | tests/server.test.js:56 | the title write keeps every node that is not title text and only appends text nodes under title elements |
| Passes.TitlesWrittenParents | tests/server.test.js:56 | the title write keeps every node's parent; the appended nodes are exactly the added title texts |
| Passes.Document.RewriteRawText | tests/replacement-edge-cases.test.js:50-54 | after the loop the text child of every element with the tag holds the rule applied to its old text |
| Passes.Document.RewriteScripts | tests/replacement-edge-cases.test.js:50-54 | the script pass is the raw-text edit of `script` with the three-variant rule |
| Passes.Document.RewriteStyles | tests/replacement-edge-cases.test.js:79-83 | the style pass is the raw-text edit of `style` with the case-insensitive rule |
| Passes.RawTextRewrittenMeaning | tests/replacement-edge-cases.test.js:50-54 | the raw-text edit keeps the tree's shape and every node that is not the text of such an element |
| Passes.ScriptsLeaveNoVariant | tests/replacement-edge-cases.test.js:50-54 | after the script pass no script text holds a variant |
| Passes.StylesLeaveNoName | tests/replacement-edge-cases.test.js:79-83 | after the style pass no style text holds `yale` in any casing, and each former occurrence reads `fale` |
| Passes.Document.RewriteComments | tests/replacement-edge-cases.test.js:106-112 | after the loop the document is the comment pass of the document before it |
| Passes.CommentsRewrittenMeaning | tests/replacement-edge-cases.test.js:106-112 | only comments that are children of elements change, each into the substitution of its text, and none holds a variant |
| Passes.Document.RewriteMetaContent | tests/replacement-edge-cases.test.js:134-140 | after the loop the document is the meta pass of the document before it |
| Passes.MetaRewrittenMeaning | tests/replacement-edge-cases.test.js:134-140 | only a present, non-empty `content` of a `meta` element changes, into its substitution; every other attribute and node is kept |
| Passes.Document.RewriteDataAttributes | tests/replacement-edge-cases.test.js:161-170 | after the loop the document is the data-attribute pass of the document before it |
| Passes.Document.RewriteDataAttrsOf | tests/replacement-edge-cases.test.js:162-169 | after the key-by-key loop, only the marked element at the index changes: its `data-` attributes are rewritten |
| Passes.DataAttrsStep | tests/replacement-edge-cases.test.js:163-168 | visiting one more key rewrites it when it starts with `data-` and keeps the map otherwise |
| Passes.DataRewrittenMeaning | tests/replacement-edge-cases.test.js:161-170 | on a marked element every `data-` attribute becomes its substitution and holds no variant, and every other attribute is kept; other nodes are untouched |
| Server.HandleFetch | tests/server.test.js:27-70 | on a parsed page in document order whose rewritten texts are inert, the step-by-step handler gives exactly the reply function's answer |
| Server.ReplyStatus | tests/server.test.js:31-69 | 400 exactly for a falsy url, whatever the fetch gives; 500 exactly for a failed fetch, with the prefixed message; otherwise 200 with the url echoed |
| Server.ReplyTitle | tests/server.test.js:43-61 | on such a page, the returned title is the substitution of the title as fetched and holds no variant |
| Server.ReplyWithoutTitle | tests/server.test.js:43-61 | on such a page, a page without title elements gets the empty title and only the text pass |
| Server.ReplyContent | tests/server.test.js:43-60 | on such a page, the content keeps every node outside the selections; text under `body *` holds its substitution; each title element has exactly one child, holding the returned title |
| Server.ReplyClearsMentions | tests/server.test.js:43-60 | on such a page, when every mention lies in text under `body *` or in the title, the reply mentions the name nowhere |
| Client.Frame.constructor | tests/script.direct.js:97-115 | a new frame carries the sandbox `allow-same-origin allow-scripts` and the written content |
| Client.Frame.OnLoad | tests/script.direct.js:118-134 | the height becomes the document's scroll height in pixels; every link opens in a new tab without an opener, with its href kept |
| Client.Decimal | tests/script.direct.js:121 | the numeral is non-empty, all digits, with no leading zero |
| Client.DecimalRoundTrip | tests/script.direct.js:121 | reading the numeral back gives the number |
| Client.ErrorText | tests/script.direct.js:54 | the error message shown for a failed response is never blank: a missing or empty `error` falls back to `Failed to fetch content` |
| ScriptDirect.AddProtocolToUrl | tests/script.direct.js:6-12 | a falsy url is returned as it is |
| ScriptDirect.AddProtocolWhen | tests/script.direct.js:6-12 | the url changes exactly when it is non-empty and lacks `http://`, `https://` or `ftp://`, and then `http://` is put in front |
| ScriptDirect.AddProtocolResult | tests/script.direct.js:7-11 | a non-empty url comes back with a scheme, as itself or with `http://` in front |
| ScriptDirect.AddProtocolIdempotent | tests/script.direct.js:6-12 | adding the scheme twice is adding it once |
| ScriptDirect.ShowError | tests/script.direct.js:15-20 | with an element, its text is the message and it is shown |
| ScriptDirect.ReadResponse | tests/script.direct.js:50-57 | the outcome read is a failure exactly when the request is rejected, the response is not ok or the body does not parse |
| ScriptDirect.HandleFormSubmit | tests/script.direct.js:23-68 | the calls made are exactly the trace of the url, the callbacks passed and the reply |
| ScriptDirect.EmptyUrlOnlyReports | tests/script.direct.js:35-38 | an empty url only reports `Please enter a valid URL`, with no request and no loading calls |
| ScriptDirect.FetchesOnce | tests/script.direct.js:41-50 | a non-empty url is fetched exactly once, with the scheme added, right after the loading calls in their order |
| ScriptDirect.OutcomesReported | tests/script.direct.js:59-63 | the outcome callbacks are called only from the report after the request |
| ScriptDirect.ReportsOneOutcome | tests/script.direct.js:52-63 | success is reported exactly when the response is ok and parses, with the data and the processed url; otherwise the error is reported with its message; never both |
| ScriptDirect.HidesLoadingLast | tests/script.direct.js:64-67 | the loading indicator is hidden once, as the last call |
| ScriptDirect.DisplayContent | tests/script.direct.js:71-115 | without a container the result is null; otherwise the container's only child is a new sandboxed frame holding the content |
| PageScript.LeadingSpaces | public/script.js:16 | the count covers only white space and stops before the first other character |
| PageScript.TrimMeaning | public/script.js:16 | `trim` cuts out a window: everything cut is white space, and the window neither starts nor ends with white space |
| PageScript.TrimEmpty | public/script.js:16-21 | the trimmed field is empty exactly when it holds only white space |
| PageScript.TrimIdempotent | public/script.js:16 | trimming twice is trimming once |
| PageScript.RequestUrlMeaning | public/script.js:16-26 | the field is rejected exactly when it is only white space; otherwise the posted url is the trimmed field with a scheme, as `addProtocolToUrl` gives it |
| PageScript.ShownTitle | public/script.js:51 | the title shown is never blank: a missing or empty `title` falls back to `No title` |
| PageScript.ReadReply | public/script.js:42-46 | the outcome equals the one `handleFormSubmit` reads, and is shown exactly when the response is ok and parses |
| PageScript.Page.constructor | public/script.js:4-11 | the page starts with the given field and visibility, and no request or frame |
| PageScript.Page.ShowError | public/script.js:87-90 | the message is shown; nothing else changes |
| PageScript.Page.Submit | public/script.js:13-85 | an empty field only shows `Please enter a valid URL`; otherwise the loading indicator is shown and the result and the error are hidden before the url is posted once (the precondition of `Load`), then the result or the error is shown and loading is hidden |
| PageScript.Page.Load | public/script.js:29-84 | called with loading shown and the result and the error hidden, the url is posted; a good reply sets the url link, the title and one new sandboxed frame holding the content, then shows the result; a failure shows its message; loading is hidden either way |

## Left out

- The HTML parser and serialiser (`cheerio.load`, `$.html()`) are not modelled. The cheerio
  handler works on the parsed node arena, and its reply carries the rewritten nodes rather than
  their serialisation.
- `Dom.RawTextShaped` is an assumption, not a consequence of parsing. It says that `title`,
  `script` and `style` elements have at most one, non-empty text child. The HTML parser gives
  this for HTML elements, but not for `title`, `script` or `style` elements inside SVG or MathML
  content, which `$('title')` and the other selectors also match. Pages with such elements are
  outside the model.
- `Dom.PreOrder` is likewise an assumption about the parsed page: nodes are numbered in document
  order. `Passes.Document.ReadTitle` reads the titles in index order.
- Passes.Document.RewriteBodyText: `replaceWith` parses the new text as an HTML fragment. Markup
  in it would become elements, and a character reference would be decoded, possibly into a new
  `Yale`. The model stores the new text as one text node, so it requires every text that the
  pass rewrites to be inert (`Passes.BodyTextInert`). Pages whose rewritten text contains `<`,
  `&`, a carriage return or NUL are outside the model.
- Server.HandleFetch, Server.ReplyTitle, Server.ReplyWithoutTitle, Server.ReplyContent and
  Server.ReplyClearsMentions: these hold only for pages that meet the same inert-text condition
  (and, for the title, are in document order), for the reason given in the previous line.
- The network (`axios.get`, `fetch`), Express routing, JSON encoding, `async` scheduling and
  `console.log` are outside the model. What a fetch produces is a parameter of each handler:
  the page, or the message of the error thrown.
- `Server.HandleFetch` and `AppDirect.HandleFetch` take a url that is absent, `null` or a string.
  Other JSON values in the request body (numbers, objects) are not modelled.
- The reply fields the client reads (`error`, `title`) are absent, `null` or strings, and
  `content` is a string. A callback that throws is not modelled.
- `handleFormSubmit` without a `fetchFn` is not modelled: the call would throw a `TypeError`
  that is reported as an error.
- The mock-iframe branch of `displayContent` (tests/script.direct.js:79-94) is not modelled. It
  only runs under a test runner. The fallback to `contentWindow.document` is not modelled either,
  because the frame's document is always present in the model.
- The `DOMContentLoaded` wiring and `index.html` are not part of this model. The page's initial
  field value and visibility are parameters of `PageScript.Page.constructor`.
- Case-insensitive matching folds ASCII letters only. This is what the `i` flag does for the
  ASCII patterns used here.
- The `GET /` route, static files and server start-up are left out, because they do no rewriting.
