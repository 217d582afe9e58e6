/** The cheerio passes of tests/server.test.js and tests/replacement-edge-cases.test.js: each
    selects nodes of the parsed document and rewrites them in place with the three-variant rule
    (or, for style sheets, the case-insensitive rule). Each pass is a method of `Document`
    specified by a function of the document before it, and the lemmas state what those
    functions do. */
module Passes {
  import opened Strings
  import opened Substitution
  import opened Dom

  // ---------------------------------------------------------------------------------------
  // Text nodes under `body *`

  function BodyTextNode(nodes: seq<Node>, i: int): Node
    requires 0 <= i < |nodes|
  {
    if InBodyText(nodes, i) then Text(nodes[i].parent, ThreeVariantReplace(nodes[i].data)) else nodes[i]
  }

  /** The text pass: every text node whose parent lies inside `body` holds the rule applied to
      its text. */
  function BodyTextRewritten(nodes: seq<Node>): (r: seq<Node>)
    ensures |r| == |nodes|
  {
    seq(|nodes|, i requires 0 <= i < |nodes| => BodyTextNode(nodes, i))
  }

  /** Text that an HTML fragment parse gives back as one text node holding the same characters:
      no markup, no character reference, and no carriage return or NUL for the parser to
      normalise. The rule neither creates nor removes such characters. */
  predicate InertText(s: string) {
    forall k | 0 <= k < |s| :: s[k] != '<' && s[k] != '&' && s[k] != '\r' && s[k] != '\0'
  }

  /** Every selected text node that the rule changes is inert, so writing its new text back
      with `replaceWith` gives one text node holding exactly that text. */
  predicate BodyTextInert(nodes: seq<Node>) {
    forall i | 0 <= i < |nodes| && InBodyText(nodes, i) && HasVariant(nodes[i].data) :: InertText(nodes[i].data)
  }

  /** After the text pass no selected text node needs rewriting, so a second pass never writes
      text that the parser would read differently. */
  lemma BodyTextInertAfter(x: seq<Node>)
    ensures BodyTextInert(BodyTextRewritten(x))
  {
    var y := BodyTextRewritten(x);
    BodyTextRewrittenMeaning(x);
    SameShapeKeeps(x, y);
    BodyTextLeavesNoVariant(x);
  }

  /** Only the selected text nodes change, each into the rule's reference definition of its
      text; elements keep their attributes, and the tree keeps its shape. */
  lemma BodyTextRewrittenMeaning(x: seq<Node>)
    ensures SameShape(x, BodyTextRewritten(x))
    ensures forall i | 0 <= i < |x| && !InBodyText(x, i) :: BodyTextRewritten(x)[i] == x[i]
    ensures forall i | 0 <= i < |x| && InBodyText(x, i) ::
      BodyTextRewritten(x)[i] == Text(x[i].parent, Substituted(x[i].data))
  {
    var y := BodyTextRewritten(x);
    forall i | 0 <= i < |x| ensures SameKind(x[i], y[i]) && (InBodyText(x, i) ==> y[i] == Text(x[i].parent, Substituted(x[i].data))) {
      if x[i].Text? {
        ThreeVariantReplaceMeaning(x[i].data);
      }
    }
  }

  /** After the text pass no selected text node holds a variant. */
  lemma BodyTextLeavesNoVariant(x: seq<Node>)
    ensures forall i | 0 <= i < |x| && InBodyText(x, i) :: !HasVariant(BodyTextRewritten(x)[i].data)
  {
    forall i | 0 <= i < |x| && InBodyText(x, i) ensures !HasVariant(BodyTextRewritten(x)[i].data) {
      NoVariantRemains(x[i].data);
    }
  }

  /** When every mention of the name lies in text under `body *`, the text pass leaves no
      mention anywhere in the document. */
  lemma BodyTextClearsNestedMentions(x: seq<Node>)
    requires forall i | 0 <= i < |x| && Mentions(x[i]) :: InBodyText(x, i)
    ensures forall i | 0 <= i < |x| :: !Mentions(BodyTextRewritten(x)[i])
  {
    BodyTextLeavesNoVariant(x);
  }

  /** A second text pass changes nothing. */
  lemma BodyTextIdempotent(x: seq<Node>)
    ensures BodyTextRewritten(BodyTextRewritten(x)) == BodyTextRewritten(x)
  {
    var y := BodyTextRewritten(x);
    BodyTextRewrittenMeaning(x);
    SameShapeKeeps(x, y);
    forall i | 0 <= i < |y| ensures BodyTextNode(y, i) == y[i] {
      if InBodyText(y, i) {
        Idempotent(x[i].data);
      }
    }
  }

  /** A text node directly under `body` is not selected by `body *` (unless that `body` sits
      inside another one). */
  lemma DirectBodyTextKept(x: seq<Node>, i: int)
    requires 0 <= i < |x| && x[i].Text? && IsElementAt(x, x[i].parent, "body")
    requires !InsideBody(x, x[i].parent)
    ensures BodyTextRewritten(x)[i] == x[i]
  {
  }

  // ---------------------------------------------------------------------------------------
  // Text children of raw-text elements: script and style bodies, title text

  datatype Rule = ThreeVariant | AnyCase

  function Apply(rule: Rule, s: string): (r: string)
    ensures |r| == |s|
  {
    match rule
    case ThreeVariant => ThreeVariantReplace(s)
    case AnyCase => StyleReplace(s)
  }

  /** What happens to the text of a raw-text element: a rule applied to it, or new text. */
  datatype Edit = Rewrite(rule: Rule) | SetTo(text: string)

  function EditText(e: Edit, s: string): string {
    match e
    case Rewrite(rule) => Apply(rule, s)
    case SetTo(t) => t
  }

  function EditedNode(nodes: seq<Node>, tag: string, e: Edit, bound: int, i: int): Node
    requires 0 <= i < |nodes|
  {
    if ChildTextOf(nodes, i, tag, bound) then Text(nodes[i].parent, EditText(e, nodes[i].data)) else nodes[i]
  }

  /** The text children of the elements `tag` with index below `bound` edited. */
  function EditedChildText(nodes: seq<Node>, tag: string, e: Edit, bound: int): (r: seq<Node>)
    ensures |r| == |nodes|
  {
    seq(|nodes|, i requires 0 <= i < |nodes| => EditedNode(nodes, tag, e, bound, i))
  }

  /** Extending the bound past element `j` edits the children of `j`: under the parser's
      raw-text shape that is its one text child, if it has one. */
  lemma EditedChildTextStep(x: seq<Node>, tag: string, e: Edit, j: nat)
    requires RawTextShaped(x) && IsRawTextTag(tag) && j < |x|
    ensures IsElementAt(x, j, tag) && FirstChild(x, j, 0).Some? ==>
      var c := FirstChild(x, j, 0).value;
      x[c].Text? && EditedChildText(x, tag, e, j)[c] == x[c] &&
      EditedChildText(x, tag, e, j + 1) == EditedChildText(x, tag, e, j)[c := Text(j, EditText(e, x[c].data))]
    ensures !(IsElementAt(x, j, tag) && FirstChild(x, j, 0).Some?) ==>
      EditedChildText(x, tag, e, j + 1) == EditedChildText(x, tag, e, j)
  {
    var a := EditedChildText(x, tag, e, j);
    var b := EditedChildText(x, tag, e, j + 1);
    if IsElementAt(x, j, tag) && FirstChild(x, j, 0).Some? {
      var c := FirstChild(x, j, 0).value;
      EditedNodeStep(x, tag, e, j, c);
      forall i | 0 <= i < |x| ensures b[i] == a[c := Text(j, EditText(e, x[c].data))][i] {
        EditedNodeStep(x, tag, e, j, i);
      }
    } else {
      forall i | 0 <= i < |x| ensures b[i] == a[i] {
        EditedNodeStep(x, tag, e, j, i);
      }
    }
  }

  /** Extending the bound past element `j` changes node `i` only when it is the one child of
      an element `j` named `tag`. */
  lemma EditedNodeStep(x: seq<Node>, tag: string, e: Edit, j: nat, i: nat)
    requires RawTextShaped(x) && IsRawTextTag(tag) && j < |x| && i < |x|
    ensures IsElementAt(x, j, tag) && FirstChild(x, j, 0) == Some(i) ==>
      x[i].Text? && EditedNode(x, tag, e, j, i) == x[i] &&
      EditedNode(x, tag, e, j + 1, i) == Text(j, EditText(e, x[i].data))
    ensures !(IsElementAt(x, j, tag) && FirstChild(x, j, 0) == Some(i)) ==>
      EditedNode(x, tag, e, j + 1, i) == EditedNode(x, tag, e, j, i)
  {
    if x[i].parent == j && IsElementAt(x, j, tag) {
      var c := FirstChild(x, j, 0);
      assert c.Some?;
      assert x[c.value].parent == j;
      assert x[i].Text? && forall k | 0 <= k < |x| && k != i :: x[k].parent != x[i].parent;
    }
  }

  /** Rewriting the text of raw-text elements keeps the shape of the tree and touches nothing
      but those texts; afterwards each of them is the rule applied to its old text. */
  lemma RawTextRewrittenMeaning(x: seq<Node>, tag: string, rule: Rule)
    ensures SameShape(x, EditedChildText(x, tag, Rewrite(rule), |x|))
    ensures forall i | 0 <= i < |x| :: !ChildTextOf(x, i, tag, |x|) ==> EditedChildText(x, tag, Rewrite(rule), |x|)[i] == x[i]
  {
  }

  /** After the script pass no script text holds a variant. */
  lemma ScriptsLeaveNoVariant(x: seq<Node>)
    ensures forall i | 0 <= i < |x| && ChildTextOf(x, i, "script", |x|) ::
      !HasVariant(EditedChildText(x, "script", Rewrite(ThreeVariant), |x|)[i].data)
  {
    forall i | 0 <= i < |x| && ChildTextOf(x, i, "script", |x|)
      ensures !HasVariant(EditedChildText(x, "script", Rewrite(ThreeVariant), |x|)[i].data)
    {
      NoVariantRemains(x[i].data);
    }
  }

  /** After the style pass no style text holds `yale` in any casing: every such occurrence of
      the old text became lower-case `fale`. */
  lemma StylesLeaveNoName(x: seq<Node>)
    ensures forall i | 0 <= i < |x| && ChildTextOf(x, i, "style", |x|) ::
      var s := x[i].data;
      var r := EditedChildText(x, "style", Rewrite(AnyCase), |x|)[i].data;
      !Occurs(r, "yale", true) &&
      forall m: nat | MatchAt(s, "yale", m, true) :: MatchAt(r, "fale", m, false)
  {
    forall i | 0 <= i < |x| && ChildTextOf(x, i, "style", |x|)
      ensures var s := x[i].data;
        var r := EditedChildText(x, "style", Rewrite(AnyCase), |x|)[i].data;
        !Occurs(r, "yale", true) &&
        forall m: nat | MatchAt(s, "yale", m, true) :: MatchAt(r, "fale", m, false)
    {
      StyleReplaceMeaning(x[i].data);
    }
  }

  // ---------------------------------------------------------------------------------------
  // The title: `$('title').text()` and `$('title').text(title)`

  predicate IsTitleText(nodes: seq<Node>, i: int) {
    ChildTextOf(nodes, i, "title", |nodes|)
  }

  /** The text of the title elements among the first `n` nodes, in document order. */
  function TitleSourceUpTo(nodes: seq<Node>, n: nat): string
    requires n <= |nodes|
  {
    if n == 0 then ""
    else TitleSourceUpTo(nodes, n - 1) + (if IsTitleText(nodes, n - 1) then nodes[n - 1].data else "")
  }

  /** `$('title').text()`: the concatenated text of every title element. */
  function TitleSource(nodes: seq<Node>): string {
    TitleSourceUpTo(nodes, |nodes|)
  }

  /** The text pass keeps which nodes are title text, and rewrites such a node, if at all, by
      the rule. */
  lemma BodyTextTitleAt(x: seq<Node>, i: nat)
    requires i < |x|
    ensures IsTitleText(BodyTextRewritten(x), i) <==> IsTitleText(x, i)
    ensures IsTitleText(x, i) ==>
      PartiallySubstituted(BodyTextRewritten(x)[i].data, x[i].data)
  {
    var y := BodyTextRewritten(x);
    BodyTextRewrittenMeaning(x);
    SameShapeKeeps(x, y);
    if IsTitleText(x, i) {
      SubstitutedIsPartial(x[i].data);
      assert y[i] == x[i] || y[i].data == Substituted(x[i].data);
    }
  }

  /** The text pass applies the rule to some pieces of the title text, and only the rule. */
  lemma {:induction false} TitleSourceAfterBodyText(x: seq<Node>, n: nat)
    requires n <= |x|
    ensures PartiallySubstituted(TitleSourceUpTo(BodyTextRewritten(x), n), TitleSourceUpTo(x, n))
  {
    var y := BodyTextRewritten(x);
    if n == 0 {
      SubstitutedIsPartial("");
    } else {
      TitleSourceAfterBodyText(x, n - 1);
      var i := n - 1;
      BodyTextTitleAt(x, i);
      if IsTitleText(x, i) {
        PartiallySubstitutedConcat(TitleSourceUpTo(y, i), TitleSourceUpTo(x, i), y[i].data, x[i].data);
      } else {
        assert TitleSourceUpTo(y, n) == TitleSourceUpTo(y, i) + "";
        assert TitleSourceUpTo(x, n) == TitleSourceUpTo(x, i) + "";
      }
    }
  }

  /** The rule applied to the title read after the text pass gives the same title as applied
      to the title of the page as fetched: a title element inside `body` is not substituted
      twice over. */
  lemma TitleAfterBodyText(x: seq<Node>)
    ensures ThreeVariantReplace(TitleSource(BodyTextRewritten(x))) == ThreeVariantReplace(TitleSource(x))
  {
    var y := BodyTextRewritten(x);
    TitleSourceAfterBodyText(x, |x|);
    SubstitutedAbsorbsPartial(TitleSource(y), TitleSource(x));
    ThreeVariantReplaceMeaning(TitleSource(y));
    ThreeVariantReplaceMeaning(TitleSource(x));
  }

  /** Without title elements the title text is empty. */
  lemma {:induction false} NoTitleSource(x: seq<Node>, n: nat)
    requires n <= |x|
    requires forall j | 0 <= j < |x| :: !IsElementAt(x, j, "title")
    ensures TitleSourceUpTo(x, n) == ""
  {
    if n > 0 {
      NoTitleSource(x, n - 1);
    }
  }

  /** One new text child for each title element among the first `n` that has no child. */
  function AddedTitles(nodes: seq<Node>, t: string, n: nat): seq<Node>
    requires n <= |nodes|
  {
    if n == 0 then []
    else
      var added := if IsElementAt(nodes, n - 1, "title") && FirstChild(nodes, n - 1, 0).None? then [Text(n - 1, t)] else [];
      AddedTitles(nodes, t, n - 1) + added
  }

  /** `$('title').text(t)`: every title element ends up with one text child holding `t`. */
  function TitlesWritten(nodes: seq<Node>, t: string): seq<Node> {
    EditedChildText(nodes, "title", SetTo(t), |nodes|) + AddedTitles(nodes, t, |nodes|)
  }

  /** The nodes added for childless titles hang under those titles. */
  lemma {:induction false} AddedTitlesParents(x: seq<Node>, t: string, n: nat)
    requires n <= |x|
    ensures forall k | 0 <= k < |AddedTitles(x, t, n)| ::
      var a := AddedTitles(x, t, n)[k];
      a.Text? && a.data == t && 0 <= a.parent < n && IsElementAt(x, a.parent, "title") &&
      FirstChild(x, a.parent, 0).None?
    ensures forall k, m | 0 <= k < m < |AddedTitles(x, t, n)| ::
      AddedTitles(x, t, n)[k].parent < AddedTitles(x, t, n)[m].parent
  {
    if n > 0 {
      AddedTitlesParents(x, t, n - 1);
    }
  }

  /** Without title elements nothing is added. */
  lemma {:induction false} NoTitleAdded(x: seq<Node>, t: string, n: nat)
    requires n <= |x|
    requires forall j | 0 <= j < |x| :: !IsElementAt(x, j, "title")
    ensures AddedTitles(x, t, n) == []
  {
    if n > 0 {
      NoTitleAdded(x, t, n - 1);
    }
  }

  /** A childless title among the first `n` nodes has its text child added. */
  lemma {:induction false} AddedTitlesCover(x: seq<Node>, t: string, n: nat, j: nat)
    requires j < n <= |x| && IsElementAt(x, j, "title") && FirstChild(x, j, 0).None?
    ensures exists k | 0 <= k < |AddedTitles(x, t, n)| :: AddedTitles(x, t, n)[k] == Text(j, t)
  {
    if j < n - 1 {
      AddedTitlesCover(x, t, n - 1, j);
      var k :| 0 <= k < |AddedTitles(x, t, n - 1)| && AddedTitles(x, t, n - 1)[k] == Text(j, t);
      assert AddedTitles(x, t, n)[k] == Text(j, t);
    } else {
      assert AddedTitles(x, t, n)[|AddedTitles(x, t, n)| - 1] == Text(j, t);
    }
  }

  /** The write keeps every node's parent, and appends only children of childless titles. */
  lemma TitlesWrittenParents(x: seq<Node>, t: string)
    ensures var y := TitlesWritten(x, t);
      |y| == |x| + |AddedTitles(x, t, |x|)| &&
      (forall d | 0 <= d < |x| :: y[d].parent == x[d].parent) &&
      (forall d | |x| <= d < |y| :: y[d] == AddedTitles(x, t, |x|)[d - |x|])
  {
  }

  /** A title with a child: that child now holds `t`, and it stays the only child. */
  lemma TitleWrittenInto(x: seq<Node>, t: string, j: nat, c: nat)
    requires RawTextShaped(x) && IsElementAt(x, j, "title") && FirstChild(x, j, 0) == Some(c)
    ensures var y := TitlesWritten(x, t);
      c < |y| && y[c] == Text(j, t) && forall d | 0 <= d < |y| && y[d].parent == j :: d == c
  {
    var added := AddedTitles(x, t, |x|);
    var y := TitlesWritten(x, t);
    TitlesWrittenParents(x, t);
    AddedTitlesParents(x, t, |x|);
    assert x[c].parent == j;
    assert ChildTextOf(x, c, "title", |x|);
    assert y[c] == Text(j, t);
    assert forall k | 0 <= k < |x| && k != c :: x[k].parent != x[c].parent;
    assert forall k | 0 <= k < |added| :: added[k].parent != j;
  }

  /** A childless title: the one child appended for it holds `t`. */
  lemma TitleWrittenAdded(x: seq<Node>, t: string, j: nat)
    requires IsElementAt(x, j, "title") && FirstChild(x, j, 0).None?
    ensures var y := TitlesWritten(x, t);
      exists c | 0 <= c < |y| :: y[c] == Text(j, t) && forall d | 0 <= d < |y| && y[d].parent == j :: d == c
  {
    var added := AddedTitles(x, t, |x|);
    var y := TitlesWritten(x, t);
    TitlesWrittenParents(x, t);
    AddedTitlesParents(x, t, |x|);
    AddedTitlesCover(x, t, |x|, j);
    var k :| 0 <= k < |added| && added[k] == Text(j, t);
    assert y[|x| + k] == Text(j, t);
    forall m | 0 <= m < |added| && m != k ensures added[m].parent != j {
      if m < k {
        assert added[m].parent < added[k].parent;
      } else {
        assert added[k].parent < added[m].parent;
      }
    }
    assert forall d | 0 <= d < |y| && y[d].parent == j :: d == |x| + k;
  }

  /** After the title write every title element has exactly one child, a text node holding
      `t`. */
  lemma TitlesWrittenMeaning(x: seq<Node>, t: string, j: nat)
    requires RawTextShaped(x) && IsElementAt(x, j, "title")
    ensures var y := TitlesWritten(x, t);
      exists c | 0 <= c < |y| :: y[c] == Text(j, t) && forall d | 0 <= d < |y| && y[d].parent == j :: d == c
  {
    match FirstChild(x, j, 0)
    case Some(c) =>
      TitleWrittenInto(x, t, j, c);
    case None =>
      TitleWrittenAdded(x, t, j);
  }

  /** The title write leaves every node that is not the text of a title as it was, and only
      appends text nodes under title elements. */
  lemma TitlesWrittenFrame(x: seq<Node>, t: string)
    ensures |TitlesWritten(x, t)| >= |x|
    ensures forall i | 0 <= i < |x| && !IsTitleText(x, i) :: TitlesWritten(x, t)[i] == x[i]
    ensures forall i | |x| <= i < |TitlesWritten(x, t)| ::
      TitlesWritten(x, t)[i] == Text(TitlesWritten(x, t)[i].parent, t) && IsElementAt(x, TitlesWritten(x, t)[i].parent, "title")
  {
    AddedTitlesParents(x, t, |x|);
  }

  // ---------------------------------------------------------------------------------------
  // Comments that are children of elements

  function CommentNode(nodes: seq<Node>, i: int): Node
    requires 0 <= i < |nodes|
  {
    if InElementComment(nodes, i) then Comment(nodes[i].parent, ThreeVariantReplace(nodes[i].data)) else nodes[i]
  }

  function CommentsRewritten(nodes: seq<Node>): (r: seq<Node>)
    ensures |r| == |nodes|
  {
    seq(|nodes|, i requires 0 <= i < |nodes| => CommentNode(nodes, i))
  }

  /** The comment pass rewrites the comments inside elements and nothing else: a comment at
      the top level of the document is kept, and no rewritten comment holds a variant. */
  lemma CommentsRewrittenMeaning(x: seq<Node>)
    ensures SameShape(x, CommentsRewritten(x))
    ensures forall i | 0 <= i < |x| && !InElementComment(x, i) :: CommentsRewritten(x)[i] == x[i]
    ensures forall i | 0 <= i < |x| && InElementComment(x, i) ::
      CommentsRewritten(x)[i].Comment? && CommentsRewritten(x)[i].data == Substituted(x[i].data) &&
      !HasVariant(CommentsRewritten(x)[i].data)
  {
    forall i | 0 <= i < |x| && InElementComment(x, i)
      ensures CommentsRewritten(x)[i].data == Substituted(x[i].data) && !HasVariant(CommentsRewritten(x)[i].data)
    {
      ThreeVariantReplaceMeaning(x[i].data);
      NoVariantRemains(x[i].data);
    }
  }

  // ---------------------------------------------------------------------------------------
  // `meta` elements with a `content` attribute

  /** `$(this).attr('content')` is present and not empty. */
  predicate MetaWithContent(n: Node) {
    n.Element? && n.tag == "meta" && "content" in n.attrs && n.attrs["content"] != ""
  }

  function MetaNode(n: Node): Node {
    if MetaWithContent(n) then n.(attrs := n.attrs["content" := ThreeVariantReplace(n.attrs["content"])]) else n
  }

  function MetaRewritten(nodes: seq<Node>): (r: seq<Node>)
    ensures |r| == |nodes|
  {
    seq(|nodes|, i requires 0 <= i < |nodes| => MetaNode(nodes[i]))
  }

  /** The meta pass changes only the `content` attribute of `meta` elements that carry a
      non-empty one, which afterwards holds no variant; every other attribute and node is kept. */
  lemma MetaRewrittenMeaning(x: seq<Node>)
    ensures SameShape(x, MetaRewritten(x))
    ensures forall i | 0 <= i < |x| && !MetaWithContent(x[i]) :: MetaRewritten(x)[i] == x[i]
    ensures forall i | 0 <= i < |x| && MetaWithContent(x[i]) ::
      var a := MetaRewritten(x)[i].attrs;
      a.Keys == x[i].attrs.Keys &&
      (forall k | k in a && k != "content" :: a[k] == x[i].attrs[k]) &&
      a["content"] == Substituted(x[i].attrs["content"]) && !HasVariant(a["content"])
  {
    forall i | 0 <= i < |x| && MetaWithContent(x[i])
      ensures MetaRewritten(x)[i].attrs["content"] == Substituted(x[i].attrs["content"]) &&
        !HasVariant(MetaRewritten(x)[i].attrs["content"])
    {
      ThreeVariantReplaceMeaning(x[i].attrs["content"]);
      NoVariantRemains(x[i].attrs["content"]);
    }
  }

  // ---------------------------------------------------------------------------------------
  // `data-*` attributes of elements matched by `[data-university], [data-info]`

  predicate CarriesDataMarker(n: Node) {
    n.Element? && ("data-university" in n.attrs || "data-info" in n.attrs)
  }

  /** The attributes with the rule applied to the `data-` attributes among `done`. */
  function DataAttrsRewritten(attrs: map<string, string>, done: set<string>): (r: map<string, string>)
    ensures r.Keys == attrs.Keys
  {
    map k | k in attrs :: if k in done && StartsWith(k, "data-") then ThreeVariantReplace(attrs[k]) else attrs[k]
  }

  function DataNode(n: Node): Node {
    if CarriesDataMarker(n) then n.(attrs := DataAttrsRewritten(n.attrs, n.attrs.Keys)) else n
  }

  function DataRewritten(nodes: seq<Node>): (r: seq<Node>)
    ensures |r| == |nodes|
  {
    seq(|nodes|, i requires 0 <= i < |nodes| => DataNode(nodes[i]))
  }

  /** On a marked element every `data-` attribute is rewritten and holds no variant afterwards,
      and every other attribute is kept; unmarked elements and other nodes are untouched. */
  lemma DataRewrittenMeaning(x: seq<Node>)
    ensures SameShape(x, DataRewritten(x))
    ensures forall i | 0 <= i < |x| && !CarriesDataMarker(x[i]) :: DataRewritten(x)[i] == x[i]
    ensures forall i | 0 <= i < |x| && CarriesDataMarker(x[i]) ::
      var a := DataRewritten(x)[i].attrs;
      a.Keys == x[i].attrs.Keys &&
      forall k | k in a ::
        (StartsWith(k, "data-") ==> a[k] == Substituted(x[i].attrs[k]) && !HasVariant(a[k])) &&
        (!StartsWith(k, "data-") ==> a[k] == x[i].attrs[k])
  {
    forall i, k | 0 <= i < |x| && CarriesDataMarker(x[i]) && k in x[i].attrs && StartsWith(k, "data-")
      ensures DataRewritten(x)[i].attrs[k] == Substituted(x[i].attrs[k]) && !HasVariant(DataRewritten(x)[i].attrs[k])
    {
      ThreeVariantReplaceMeaning(x[i].attrs[k]);
      NoVariantRemains(x[i].attrs[k]);
    }
  }

  /** Rewriting one more key of a marked element's attributes. */
  lemma DataAttrsStep(attrs: map<string, string>, done: set<string>, key: string)
    requires key in attrs && key !in done
    ensures StartsWith(key, "data-") ==>
      DataAttrsRewritten(attrs, done + {key}) == DataAttrsRewritten(attrs, done)[key := ThreeVariantReplace(attrs[key])]
    ensures !StartsWith(key, "data-") ==> DataAttrsRewritten(attrs, done + {key}) == DataAttrsRewritten(attrs, done)
  {
  }

  // ---------------------------------------------------------------------------------------
  // The document the passes work on

  /** The title elements' children written up to element `n`, and the children added so far. */
  function TitlesWrittenUpTo(x: seq<Node>, t: string, n: nat): seq<Node>
    requires n <= |x|
  {
    EditedChildText(x, "title", SetTo(t), n) + AddedTitles(x, t, n)
  }

  /** Writing one more element: its text child is overwritten, or a child is appended when it
      has none, or nothing changes when it is not a title. */
  lemma TitlesWrittenStep(x: seq<Node>, t: string, j: nat)
    requires RawTextShaped(x) && j < |x|
    ensures IsElementAt(x, j, "title") && FirstChild(x, j, 0).Some? ==>
      FirstChild(x, j, 0).value < |TitlesWrittenUpTo(x, t, j)| &&
      TitlesWrittenUpTo(x, t, j + 1) == TitlesWrittenUpTo(x, t, j)[FirstChild(x, j, 0).value := Text(j, t)]
    ensures IsElementAt(x, j, "title") && FirstChild(x, j, 0).None? ==>
      TitlesWrittenUpTo(x, t, j + 1) == TitlesWrittenUpTo(x, t, j) + [Text(j, t)]
    ensures !IsElementAt(x, j, "title") ==> TitlesWrittenUpTo(x, t, j + 1) == TitlesWrittenUpTo(x, t, j)
  {
    var e := EditedChildText(x, "title", SetTo(t), j);
    var a := AddedTitles(x, t, j);
    EditedChildTextStep(x, "title", SetTo(t), j);
    if IsElementAt(x, j, "title") && FirstChild(x, j, 0).Some? {
      var c := FirstChild(x, j, 0).value;
      assert AddedTitles(x, t, j + 1) == a + [];
      UpdateInPrefix(e, a, c, Text(j, t));
    } else if IsElementAt(x, j, "title") {
      assert AddedTitles(x, t, j + 1) == a + [Text(j, t)];
    } else {
      assert AddedTitles(x, t, j + 1) == a + [];
    }
  }

  lemma TitleRewrittenStep(x: seq<Node>, t: string, j: nat, cur: seq<Node>, c: nat)
    requires RawTextShaped(x) && j < |x| && cur == TitlesWrittenUpTo(x, t, j)
    requires IsElementAt(x, j, "title") && FirstChild(x, j, 0) == Some(c)
    ensures c < |cur| && TitlesWrittenUpTo(x, t, j + 1) == cur[c := Text(j, t)]
  {
    TitlesWrittenStep(x, t, j);
  }

  lemma TitleAddedStep(x: seq<Node>, t: string, j: nat, cur: seq<Node>)
    requires RawTextShaped(x) && j < |x| && cur == TitlesWrittenUpTo(x, t, j)
    requires IsElementAt(x, j, "title") && FirstChild(x, j, 0).None?
    ensures TitlesWrittenUpTo(x, t, j + 1) == cur + [Text(j, t)]
  {
    TitlesWrittenStep(x, t, j);
  }

  lemma TitleSkippedStep(x: seq<Node>, t: string, j: nat, cur: seq<Node>)
    requires RawTextShaped(x) && j < |x| && cur == TitlesWrittenUpTo(x, t, j)
    requires !IsElementAt(x, j, "title")
    ensures TitlesWrittenUpTo(x, t, j + 1) == cur
  {
    TitlesWrittenStep(x, t, j);
  }

  lemma UpdateInPrefix<T>(a: seq<T>, b: seq<T>, c: nat, v: T)
    requires c < |a|
    ensures (a + b)[c := v] == a[c := v] + b
  {
  }

  class Document {
    var nodes: seq<Node>

    /** `cheerio.load(html)`: the parser itself is not modelled; the document starts from the
        nodes it produced. */
    constructor (parsed: seq<Node>)
      ensures nodes == parsed
    {
      nodes := parsed;
    }

    /** The text pass: the selection is taken first, then each selected text node whose text
        the rule changes is replaced by the new text. `replaceWith` parses that text as HTML;
        on inert text the parse gives back one text node holding it, which is what is stored. */
    method RewriteBodyText()
      requires BodyTextInert(nodes)
      modifies this
      ensures nodes == BodyTextRewritten(old(nodes))
    {
      var selection := nodes;
      var i := 0;
      while i < |selection|
        invariant 0 <= i <= |selection| && |nodes| == |selection|
        invariant forall k | 0 <= k < |selection| ::
          nodes[k] == if k < i then BodyTextNode(selection, k) else selection[k]
      {
        if InBodyText(selection, i) {
          var text := nodes[i].data;
          var newText := ThreeVariantReplace(text);
          if text != newText {
            nodes := nodes[i := Text(nodes[i].parent, newText)];
          }
        }
        i := i + 1;
      }
      assert forall k | 0 <= k < |selection| :: nodes[k] == BodyTextRewritten(selection)[k];
    }

    /** `$('title').text()`: the title texts in document order, which is index order. */
    method ReadTitle() returns (t: string)
      requires PreOrder(nodes)
      ensures t == TitleSource(nodes)
    {
      t := "";
      var i := 0;
      while i < |nodes|
        invariant 0 <= i <= |nodes|
        invariant t == TitleSourceUpTo(nodes, i)
      {
        if IsTitleText(nodes, i) {
          t := t + nodes[i].data;
        }
        i := i + 1;
      }
    }

    /** `$('title').text(t)`: the title elements' children are replaced by one text node
        holding `t`; an element without a child gets a new one. */
    method WriteTitle(t: string)
      requires RawTextShaped(nodes)
      modifies this
      ensures nodes == TitlesWritten(old(nodes), t)
    {
      var selection := nodes;
      var j := 0;
      while j < |selection|
        invariant 0 <= j <= |selection|
        invariant nodes == TitlesWrittenUpTo(selection, t, j)
      {
        if IsElementAt(selection, j, "title") {
          var child := FirstChild(selection, j, 0);
          if child.Some? {
            TitleRewrittenStep(selection, t, j, nodes, child.value);
            nodes := nodes[child.value := Text(j, t)];
          } else {
            TitleAddedStep(selection, t, j, nodes);
            nodes := nodes + [Text(j, t)];
          }
        } else {
          TitleSkippedStep(selection, t, j, nodes);
        }
        j := j + 1;
      }
    }

    /** The script pass (`rule` the three-variant rule) and the style pass (`rule` the
        case-insensitive one): each element's raw text is read, rewritten and written back. */
    method RewriteRawText(tag: string, rule: Rule)
      requires IsRawTextTag(tag) && RawTextShaped(nodes)
      modifies this
      ensures nodes == EditedChildText(old(nodes), tag, Rewrite(rule), |old(nodes)|)
    {
      var selection := nodes;
      var j := 0;
      while j < |selection|
        invariant 0 <= j <= |selection|
        invariant nodes == EditedChildText(selection, tag, Rewrite(rule), j)
      {
        EditedChildTextStep(selection, tag, Rewrite(rule), j);
        if selection[j].Element? && selection[j].tag == tag {
          match FirstChild(selection, j, 0)
          case Some(c) =>
            var content := nodes[c].data;
            nodes := nodes[c := Text(j, Apply(rule, content))];
          case None =>
        }
        j := j + 1;
      }
    }

    method RewriteScripts()
      requires RawTextShaped(nodes)
      modifies this
      ensures nodes == EditedChildText(old(nodes), "script", Rewrite(ThreeVariant), |old(nodes)|)
    {
      RewriteRawText("script", ThreeVariant);
    }

    method RewriteStyles()
      requires RawTextShaped(nodes)
      modifies this
      ensures nodes == EditedChildText(old(nodes), "style", Rewrite(AnyCase), |old(nodes)|)
    {
      RewriteRawText("style", AnyCase);
    }

    /** The comment pass: `this.data` of each selected comment is reassigned. */
    method RewriteComments()
      modifies this
      ensures nodes == CommentsRewritten(old(nodes))
    {
      var selection := nodes;
      var i := 0;
      while i < |selection|
        invariant 0 <= i <= |selection| && |nodes| == |selection|
        invariant forall k | 0 <= k < |selection| ::
          nodes[k] == if k < i then CommentNode(selection, k) else selection[k]
      {
        if InElementComment(selection, i) {
          var comment := nodes[i].data;
          nodes := nodes[i := Comment(nodes[i].parent, ThreeVariantReplace(comment))];
        }
        i := i + 1;
      }
      assert forall k | 0 <= k < |selection| :: nodes[k] == CommentsRewritten(selection)[k];
    }

    /** The meta pass: a present, non-empty `content` attribute is rewritten in place. */
    method RewriteMetaContent()
      modifies this
      ensures nodes == MetaRewritten(old(nodes))
    {
      var selection := nodes;
      var i := 0;
      while i < |selection|
        invariant 0 <= i <= |selection| && |nodes| == |selection|
        invariant forall k | 0 <= k < |selection| ::
          nodes[k] == if k < i then MetaNode(selection[k]) else selection[k]
      {
        if selection[i].Element? && selection[i].tag == "meta" {
          var attrs := nodes[i].attrs;
          if "content" in attrs && attrs["content"] != "" {
            var newContent := ThreeVariantReplace(attrs["content"]);
            nodes := nodes[i := nodes[i].(attrs := attrs["content" := newContent])];
          }
        }
        i := i + 1;
      }
      assert forall k | 0 <= k < |selection| :: nodes[k] == MetaRewritten(selection)[k];
    }

    /** The data-attribute pass: on each marked element, every attribute whose name starts with
        `data-` is rewritten, one key at a time. */
    method RewriteDataAttributes()
      modifies this
      ensures nodes == DataRewritten(old(nodes))
    {
      var selection := nodes;
      var i := 0;
      while i < |selection|
        invariant 0 <= i <= |selection|
        invariant |nodes| == |selection|
        invariant forall k | 0 <= k < |selection| :: nodes[k] == if k < i then DataNode(selection[k]) else selection[k]
      {
        if CarriesDataMarker(selection[i]) {
          RewriteDataAttrsOf(i);
        }
        i := i + 1;
      }
    }

    /** `Object.keys(attrs).forEach(...)` on the marked element at `i`. */
    method RewriteDataAttrsOf(i: nat)
      requires i < |nodes| && CarriesDataMarker(nodes[i])
      modifies this
      ensures nodes == old(nodes)[i := DataNode(old(nodes)[i])]
    {
      var attrs := nodes[i].attrs;
      var keys := attrs.Keys;
      var done: set<string> := {};
      assert DataAttrsRewritten(attrs, done) == attrs;
      while keys != {}
        invariant keys + done == attrs.Keys && keys !! done
        invariant nodes == old(nodes)[i := old(nodes)[i].(attrs := DataAttrsRewritten(attrs, done))]
        decreases keys
      {
        var key :| key in keys;
        DataAttrsStep(attrs, done, key);
        if StartsWith(key, "data-") {
          var value := attrs[key];
          var newValue := ThreeVariantReplace(value);
          nodes := nodes[i := nodes[i].(attrs := nodes[i].attrs[key := newValue])];
        }
        keys := keys - {key};
        done := done + {key};
      }
    }
  }
}
