/** The parsed document that the cheerio passes of tests/server.test.js and
    tests/replacement-edge-cases.test.js walk, as a flat arena of nodes in document order. A node
    names its parent by index (`-1` for the document itself); the children of a node are the
    nodes naming it, in index order. */
module Dom {
  import opened Strings
  import opened Substitution

  datatype Node =
    | Text(parent: int, data: string)
    | Comment(parent: int, data: string)
    | Element(parent: int, tag: string, attrs: map<string, string>)

  /** Every parent comes before its children and is an element. */
  predicate WellFormed(nodes: seq<Node>) {
    forall i | 0 <= i < |nodes| ::
      -1 <= nodes[i].parent < i && (nodes[i].parent >= 0 ==> nodes[nodes[i].parent].Element?)
  }

  predicate IsElementAt(nodes: seq<Node>, j: int, tag: string) {
    0 <= j < |nodes| && nodes[j].Element? && nodes[j].tag == tag
  }

  /** Elements whose content the HTML parser reads as raw text. */
  predicate IsRawTextTag(tag: string) {
    tag == "title" || tag == "script" || tag == "style"
  }

  /** What the HTML parser guarantees for `title`, `script` and `style`: such an element has
      at most one child, and that child is a non-empty text node. */
  predicate RawTextShaped(nodes: seq<Node>) {
    forall i | 0 <= i < |nodes| && 0 <= nodes[i].parent < |nodes| &&
        nodes[nodes[i].parent].Element? && IsRawTextTag(nodes[nodes[i].parent].tag) ::
      nodes[i].Text? && nodes[i].data != "" &&
      forall k | 0 <= k < |nodes| && k != i :: nodes[k].parent != nodes[i].parent
  }

  /** Node `a` is a proper ancestor of node `j`. */
  predicate AncestorOf(nodes: seq<Node>, a: int, j: int)
    requires 0 <= j < |nodes|
    decreases j
  {
    var p := nodes[j].parent;
    0 <= p < j && (p == a || AncestorOf(nodes, a, p))
  }

  /** Index order is document order, as the parser emits nodes: each node hangs under the
      document, under the node just before it, or under an ancestor of that node. */
  predicate PreOrder(nodes: seq<Node>) {
    forall i | 0 <= i < |nodes| ::
      nodes[i].parent == -1 || nodes[i].parent == i - 1 ||
      (0 < i && AncestorOf(nodes, nodes[i].parent, i - 1))
  }

  // ---------------------------------------------------------------------------------------
  // Selections

  /** Element `j` lies strictly inside a `body` element: it is matched by the selector `body *`. */
  predicate InsideBody(nodes: seq<Node>, j: int)
    requires 0 <= j < |nodes|
    decreases j
  {
    var p := nodes[j].parent;
    0 <= p < j && nodes[p].Element? && (nodes[p].tag == "body" || InsideBody(nodes, p))
  }

  /** `$('body *').contents().filter(nodeType === 3)`: a text node whose parent is an element
      strictly inside `body`. */
  predicate InBodyText(nodes: seq<Node>, i: int) {
    0 <= i < |nodes| && nodes[i].Text? &&
    0 <= nodes[i].parent < |nodes| && nodes[nodes[i].parent].Element? &&
    InsideBody(nodes, nodes[i].parent)
  }

  /** The text child of an element `tag` whose index is below `bound`. */
  predicate ChildTextOf(nodes: seq<Node>, i: int, tag: string, bound: int) {
    0 <= i < |nodes| && nodes[i].Text? && nodes[i].parent < bound && IsElementAt(nodes, nodes[i].parent, tag)
  }

  /** `$('*').contents().filter(type === 'comment')`: a comment whose parent is an element. */
  predicate InElementComment(nodes: seq<Node>, i: int) {
    0 <= i < |nodes| && nodes[i].Comment? &&
    0 <= nodes[i].parent < |nodes| && nodes[nodes[i].parent].Element?
  }

  /** The first child of node `j` at or after index `from`. */
  function FirstChild(nodes: seq<Node>, j: int, from: nat): (r: Option<nat>)
    requires from <= |nodes|
    ensures r.Some? ==> from <= r.value < |nodes| && nodes[r.value].parent == j
    ensures r.None? ==> forall k | from <= k < |nodes| :: nodes[k].parent != j
    decreases |nodes| - from
  {
    if from == |nodes| then None
    else if nodes[from].parent == j then Some(from)
    else FirstChild(nodes, j, from + 1)
  }

  // ---------------------------------------------------------------------------------------
  // Rewrites that keep the shape of the tree

  /** Two nodes of the same kind, under the same parent, with the same tag, and text of the
      same length. */
  predicate SameKind(a: Node, b: Node) {
    a.parent == b.parent &&
    (a.Text? <==> b.Text?) && (a.Comment? <==> b.Comment?) && (a.Element? <==> b.Element?) &&
    (a.Element? ==> a.tag == b.tag) &&
    (a.Text? ==> |a.data| == |b.data|)
  }

  predicate SameShape(x: seq<Node>, y: seq<Node>) {
    |x| == |y| && forall i | 0 <= i < |x| :: SameKind(x[i], y[i])
  }

  lemma {:induction false} SameShapeInsideBody(x: seq<Node>, y: seq<Node>, j: int)
    requires SameShape(x, y) && 0 <= j < |x|
    ensures InsideBody(x, j) <==> InsideBody(y, j)
    decreases j
  {
    assert SameKind(x[j], y[j]);
    var p := x[j].parent;
    if 0 <= p < j {
      assert SameKind(x[p], y[p]);
      SameShapeInsideBody(x, y, p);
    }
  }

  lemma {:induction false} SameShapeAncestor(x: seq<Node>, y: seq<Node>, a: int, j: int)
    requires SameShape(x, y) && 0 <= j < |x|
    ensures AncestorOf(x, a, j) <==> AncestorOf(y, a, j)
    decreases j
  {
    assert SameKind(x[j], y[j]);
    var p := x[j].parent;
    if 0 <= p < j {
      SameShapeAncestor(x, y, a, p);
    }
  }

  lemma SameShapePreOrder(x: seq<Node>, y: seq<Node>)
    requires SameShape(x, y)
    ensures PreOrder(x) ==> PreOrder(y)
  {
    if PreOrder(x) {
      forall i | 0 <= i < |y|
        ensures y[i].parent == -1 || y[i].parent == i - 1 || (0 < i && AncestorOf(y, y[i].parent, i - 1))
      {
        assert SameKind(x[i], y[i]);
        if 0 < i {
          SameShapeAncestor(x, y, x[i].parent, i - 1);
        }
      }
    }
  }

  /** A rewrite that keeps the shape keeps the tree well formed, in document order, in the
      raw-text shape, and keeps every selection. */
  lemma SameShapeKeeps(x: seq<Node>, y: seq<Node>)
    requires SameShape(x, y)
    ensures WellFormed(x) ==> WellFormed(y)
    ensures RawTextShaped(x) ==> RawTextShaped(y)
    ensures PreOrder(x) ==> PreOrder(y)
    ensures forall i :: InBodyText(x, i) <==> InBodyText(y, i)
    ensures forall i, tag, b :: ChildTextOf(x, i, tag, b) <==> ChildTextOf(y, i, tag, b)
    ensures forall i :: InElementComment(x, i) <==> InElementComment(y, i)
  {
    forall i | 0 <= i < |x| ensures InBodyText(x, i) <==> InBodyText(y, i) {
      assert SameKind(x[i], y[i]);
      var p := x[i].parent;
      if 0 <= p < |x| {
        assert SameKind(x[p], y[p]);
        SameShapeInsideBody(x, y, p);
      }
    }
    forall i, tag, b | 0 <= i < |x| ensures ChildTextOf(x, i, tag, b) <==> ChildTextOf(y, i, tag, b) {
      assert SameKind(x[i], y[i]);
      var p := x[i].parent;
      if 0 <= p < |x| {
        assert SameKind(x[p], y[p]);
      }
    }
    forall i | 0 <= i < |x| ensures InElementComment(x, i) <==> InElementComment(y, i) {
      assert SameKind(x[i], y[i]);
      var p := x[i].parent;
      if 0 <= p < |x| {
        assert SameKind(x[p], y[p]);
      }
    }
    if WellFormed(x) {
      forall i | 0 <= i < |y|
        ensures -1 <= y[i].parent < i && (y[i].parent >= 0 ==> y[y[i].parent].Element?)
      {
        assert SameKind(x[i], y[i]);
        if x[i].parent >= 0 {
          assert SameKind(x[x[i].parent], y[x[i].parent]);
        }
      }
    }
    SameShapePreOrder(x, y);
    if RawTextShaped(x) {
      forall i | 0 <= i < |y| && 0 <= y[i].parent < |y| &&
          y[y[i].parent].Element? && IsRawTextTag(y[y[i].parent].tag)
        ensures y[i].Text? && y[i].data != "" &&
          forall k | 0 <= k < |y| && k != i :: y[k].parent != y[i].parent
      {
        assert SameKind(x[i], y[i]);
        assert SameKind(x[y[i].parent], y[y[i].parent]);
        forall k | 0 <= k < |y| && k != i ensures y[k].parent != y[i].parent {
          assert SameKind(x[k], y[k]);
        }
      }
    }
  }

  // ---------------------------------------------------------------------------------------
  // What a node says about the brand

  /** A node mentions an exact variant of the name in its text, its comment or one of its
      attribute values. */
  predicate Mentions(n: Node) {
    match n
    case Text(_, data) => HasVariant(data)
    case Comment(_, data) => HasVariant(data)
    case Element(_, _, attrs) => exists k | k in attrs :: HasVariant(attrs[k])
  }
}
