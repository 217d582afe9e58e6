/** What the client scripts (public/script.js and tests/script.direct.js) share: the browser
    objects they update in place, the reply of `POST /fetch` as the client sees it, and the
    scheme test of the url field. */
module Client {
  import opened Strings

  // ---------------------------------------------------------------------------------------
  // Browser objects

  /** An element shown or hidden through its `hidden` class, with a text content. */
  class Box {
    var text: string
    var hidden: bool

    constructor (text: string, hidden: bool)
      ensures this.text == text && this.hidden == hidden
    {
      this.text := text;
      this.hidden := hidden;
    }
  }

  /** An `<a>` element of the document written into the frame. */
  class Link {
    var href: string
    var target: string
    var rel: string

    constructor (href: string, target: string, rel: string)
      ensures this.href == href && this.target == target && this.rel == rel
    {
      this.href := href;
      this.target := target;
      this.rel := rel;
    }
  }

  const Sandbox: string := "allow-same-origin allow-scripts"

  /** A sandboxed iframe: the page written into its document, and its CSS height. */
  class Frame {
    var sandbox: string
    var written: string
    var height: string

    /** `createElement('iframe')`, the sandbox set, and `open`/`write(content)`/`close` on
        its document. */
    constructor (content: string)
      ensures sandbox == Sandbox && written == content && height == ""
    {
      sandbox := Sandbox;
      written := content;
      height := "";
    }

    /** The `onload` handler: the height follows the document's `scrollHeight`, and every link
        of the document (`links`, what `querySelectorAll('a')` returns) opens in a new tab
        without an opener; nothing else about the links changes. */
    method OnLoad(scrollHeight: nat, links: seq<Link>)
      modifies this, set l | l in links
      ensures height == Decimal(scrollHeight) + "px"
      ensures sandbox == old(sandbox) && written == old(written)
      ensures forall l | l in links ::
        l.target == "_blank" && l.rel == "noopener noreferrer" && l.href == old(l.href)
    {
      height := Decimal(scrollHeight) + "px";
      var i := 0;
      while i < |links|
        invariant 0 <= i <= |links|
        invariant height == Decimal(scrollHeight) + "px"
        invariant sandbox == old(sandbox) && written == old(written)
        invariant forall k | 0 <= k < i :: links[k].target == "_blank" && links[k].rel == "noopener noreferrer"
        invariant forall l | l in links :: l.href == old(l.href)
      {
        links[i].target := "_blank";
        links[i].rel := "noopener noreferrer";
        i := i + 1;
      }
    }
  }

  /** An element whose children are replaced by one frame (`innerHTML = ''`, then `appendChild`). */
  class Container {
    var children: seq<Frame>

    constructor ()
      ensures children == []
    {
      children := [];
    }
  }

  // ---------------------------------------------------------------------------------------
  // Numbers written in decimal (`scrollHeight + 'px'`)

  function DigitChar(d: nat): char
    requires d < 10
  {
    "0123456789"[d]
  }

  function DigitValue(c: char): nat {
    if '0' <= c <= '9' then c as nat - '0' as nat else 0
  }

  /** The decimal numeral of `n`, as JavaScript converts a non-negative integer to a string. */
  function Decimal(n: nat): (s: string)
    ensures s != []
    ensures forall k | 0 <= k < |s| :: '0' <= s[k] <= '9'
    ensures |s| > 1 ==> s[0] != '0'
  {
    if n < 10 then [DigitChar(n)] else Decimal(n / 10) + [DigitChar(n % 10)]
  }

  /** The value of a string of decimal digits. */
  function NumeralValue(s: string): nat {
    if s == [] then 0 else NumeralValue(s[..|s| - 1]) * 10 + DigitValue(s[|s| - 1])
  }

  /** Reading the numeral back gives the number. */
  lemma {:induction false} DecimalRoundTrip(n: nat)
    ensures NumeralValue(Decimal(n)) == n
  {
    var s := Decimal(n);
    if n < 10 {
      assert s[..0] == [];
    } else {
      DecimalRoundTrip(n / 10);
      assert s[..|s| - 1] == Decimal(n / 10);
    }
  }

  // ---------------------------------------------------------------------------------------
  // The reply of `POST /fetch` as the client sees it

  /** The parsed JSON body: the fields the client reads. */
  datatype Data = Data(error: Value, title: Value, content: string)

  /** What `response.json()` gives: the parsed body, or the message of its rejection. */
  datatype Json = Parsed(data: Data) | Unparsable(message: string)

  /** What awaiting the request gives: the rejection message, or a response with its `ok` flag
      and its body. */
  datatype FetchReply = Rejected(message: string) | Answered(ok: bool, json: Json)

  /** What the client makes of the reply: content to show, or an error message. */
  datatype ClientResult = Shown(data: Data) | Failure(message: string)

  /** `data.error || 'Failed to fetch content'`: the fallback means the message shown for a
      failed response is never blank. */
  function ErrorText(d: Data): (m: string)
    ensures m != ""
  {
    if Truthy(d.error) then d.error.s else "Failed to fetch content"
  }

  // ---------------------------------------------------------------------------------------
  // The scheme test `/^(https?|ftp):\/\//`

  /** The url begins, in exactly this case, with `http://`, `https://` or `ftp://`. */
  predicate HasScheme(s: string) {
    StartsWith(s, "http://") || StartsWith(s, "https://") || StartsWith(s, "ftp://")
  }

  /** A prefix stays a prefix when more text follows. */
  lemma StartsWithConcat(p: string, s: string)
    ensures StartsWith(p + s, p)
  {
    assert (p + s)[..|p|] == p;
  }
}
