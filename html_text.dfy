/** `processHtml` of tests/app.direct.js: the HTML is a plain string, rewritten by two global
    regular-expression replacements and searched once for its title. */
module HtmlText {
  import opened Strings
  import opened Substitution

  // ---------------------------------------------------------------------------------------
  // Runs of text between tags

  /** The index of the first `<` at or after `a`, or `|h|` when there is none: where a run of
      `[^<]*` that starts at `a` has to stop. */
  function RunEnd(h: string, a: nat): (j: nat)
    requires a <= |h|
    ensures a <= j <= |h|
    ensures j < |h| ==> h[j] == '<'
    ensures forall m :: a <= m < j ==> h[m] != '<'
  {
    var d := IndexOf(h[a..], '<');
    assert forall m :: a <= m < a + d ==> h[m] == h[a..][m - a];
    a + d
  }

  /** `h[i]` is a `>` and no `<` stands in `h(i..k]`. */
  predicate OpensRunAt(h: string, i: nat, k: nat) {
    i < k < |h| && h[i] == '>' && forall m :: i < m <= k ==> h[m] != '<'
  }

  /** Index `k` lies strictly between a `>` and the next `<`. */
  predicate InTextRun(h: string, k: nat) {
    (exists i: nat | i < k :: OpensRunAt(h, i, k)) && (exists j: nat | k < j < |h| :: h[j] == '<')
  }

  // ---------------------------------------------------------------------------------------
  // The text pass `/>([^<]*Yale[^<]*)</gi`

  /** The text pattern matches at the start of `h`: a `>`, then a run without `<` that contains
      `yale` in any casing, then a `<`. Since `[^<]*` cannot pass a `<`, the run is exactly the
      characters up to the first `<`. */
  predicate TextMatchAtStart(h: string) {
    h != [] && h[0] == '>' && RunEnd(h, 1) < |h| && Occurs(h[1..RunEnd(h, 1)], "yale", true)
  }

  /** The global replacement scans left to right; after a match it resumes behind the closing
      `<`, otherwise one character further on. The callback applies the three-variant rule to the
      run and puts the brackets back. */
  function TextPass(h: string): (r: string)
    ensures |r| == |h|
    decreases |h|
  {
    if h == [] then []
    else if TextMatchAtStart(h) then
      var j := RunEnd(h, 1);
      ">" + ThreeVariantReplace(h[1..j]) + "<" + TextPass(h[j + 1..])
    else [h[0]] + TextPass(h[1..])
  }

  /** Reference definition of the text pass, one character at a time: the three-variant rule
      applies at the characters lying strictly between a `>` and the next `<`, and nowhere else. */
  function TextRewritten(h: string): (r: string)
    ensures |r| == |h|
  {
    seq(|h|, k requires 0 <= k < |h| => if InTextRun(h, k) then SubstChar(h, k) else h[k])
  }

  /** Dropping a prefix that holds no `>` opening the run of `k` does not change whether `k`
      lies in a run. */
  lemma RunShift(h: string, d: nat, k: nat)
    requires 0 < d <= k < |h|
    requires forall i :: 0 <= i < d ==> !OpensRunAt(h, i, k)
    ensures InTextRun(h, k) <==> InTextRun(h[d..], k - d)
  {
    var t := h[d..];
    if InTextRun(h, k) {
      var i: nat :| i < k && OpensRunAt(h, i, k);
      var j: nat :| k < j < |h| && h[j] == '<';
      assert OpensRunAt(t, i - d, k - d);
      assert t[j - d] == '<';
    }
    if InTextRun(t, k - d) {
      var i: nat :| i < k - d && OpensRunAt(t, i, k - d);
      var j: nat :| k - d < j < |t| && t[j] == '<';
      assert OpensRunAt(h, i + d, k);
      assert h[j + d] == '<';
    }
  }

  /** Inside a window that ends at a `<` or at the end of the string, the rule makes the same
      decision as on the whole string: a variant cannot reach past a `<`. */
  lemma SubstCharWindow(h: string, a: nat, b: nat, k: nat)
    requires a <= b <= |h| && a + k < b
    requires b == |h| || h[b] == '<'
    ensures SubstChar(h[a..b], k) == SubstChar(h, a + k)
  {
    var w := h[a..b];
    SubstCharChanges(w, k);
    SubstCharChanges(h, a + k);
    assert w[k] == h[a + k];
    if a + k + 4 <= b {
      assert w[k + 1] == h[a + k + 1] && w[k + 2] == h[a + k + 2] && w[k + 3] == h[a + k + 3];
    }
  }

  /** Every exact variant is also a case-insensitive `yale`. */
  lemma VariantIsCiYale(s: string, k: nat)
    ensures VariantAt(s, k) ==> MatchAt(s, "yale", k, true)
  {
    MatchAtCi4(s, "yale", k);
  }

  lemma TextPassMatchUnfold(h: string)
    requires TextMatchAtStart(h)
    ensures TextPass(h) == ">" + ThreeVariantReplace(h[1..RunEnd(h, 1)]) + "<" + TextPass(h[RunEnd(h, 1) + 1..])
  {
  }

  /** An index behind a prefix reads the rest. */
  lemma IndexBehind(a: string, b: string, k: nat)
    requires |a| <= k < |a| + |b|
    ensures (a + b)[k] == b[k - |a|]
  {
  }

  /** Where the indices of `h` stand relative to a run that opens at `h[0]` and closes at `h[j]`. */
  lemma RunAtStart(h: string, j: nat, k: nat)
    requires |h| > 0 && h[0] == '>' && j == RunEnd(h, 1) < |h| && k < |h|
    ensures k == 0 || k == j ==> !InTextRun(h, k)
    ensures 0 < k < j ==> InTextRun(h, k) && SubstChar(h[1..j], k - 1) == SubstChar(h, k)
    ensures j < k ==> (InTextRun(h, k) <==> InTextRun(h[j + 1..], k - j - 1))
    ensures j < k ==> SubstChar(h[j + 1..], k - j - 1) == SubstChar(h, k)
  {
    if 0 < k < j {
      assert OpensRunAt(h, 0, k);
      SubstCharWindow(h, 1, j, k - 1);
    }
    if j < k {
      forall i | 0 <= i < j + 1 ensures !OpensRunAt(h, i, k) {
        if i < j {
          assert h[j] == '<';
        }
      }
      RunShift(h, j + 1, k);
      SubstCharWindow(h, j + 1, |h|, k - j - 1);
    }
  }

  /** Outside a run that opens at `h[0]`, dropping `h[0]` changes nothing. */
  lemma RunAfterStart(h: string, k: nat)
    requires 0 < k < |h|
    requires h[0] == '>' ==> RunEnd(h, 1) <= k || RunEnd(h, 1) == |h|
    ensures InTextRun(h, k) <==> InTextRun(h[1..], k - 1)
    ensures SubstChar(h[1..], k - 1) == SubstChar(h, k)
  {
    SubstCharWindow(h, 1, |h|, k - 1);
    var j := RunEnd(h, 1);
    if h[0] == '>' && j < |h| {
      assert h[j] == '<';
    }
    if h[0] == '>' && j == |h| {
      // no `<` after the `>`: no index lies in a run
      assert forall m: nat | k < m < |h| :: h[m] != '<';
      assert forall m: nat | k - 1 < m < |h| - 1 :: h[1..][m] != '<';
    } else {
      RunShift(h, 1, k);
    }
  }

  /** Inside a run without `yale` in any casing, the rule changes nothing. */
  lemma QuietRun(h: string, k: nat)
    requires |h| > 0 && h[0] == '>' && 0 < k < RunEnd(h, 1) < |h|
    requires !Occurs(h[1..RunEnd(h, 1)], "yale", true)
    ensures SubstChar(h, k) == h[k] && SubstChar(h[1..], k - 1) == h[k]
  {
    var j := RunEnd(h, 1);
    var run := h[1..j];
    VariantIsCiYale(run, k - 1);
    SubstCharWindow(h, 1, j, k - 1);
    SubstCharWindow(h, 1, |h|, k - 1);
    SubstCharChanges(run, k - 1);
  }

  /** Within a run that opens at `h[0]` and closes at `h[j]`, the reference definition keeps the
      brackets and applies the rule to the run alone. */
  lemma TextRewrittenInFirstRun(h: string, j: nat, k: nat)
    requires |h| > 0 && h[0] == '>' && j == RunEnd(h, 1) < |h| && k <= j
    ensures TextRewritten(h)[k] ==
      if k == 0 then '>' else if k < j then SubstChar(h[1..j], k - 1) else '<'
  {
    RunAtStart(h, j, k);
    if k == 0 || k == j {
      assert TextRewritten(h)[k] == h[k];
    } else {
      assert TextRewritten(h)[k] == SubstChar(h, k);
    }
  }

  /** Behind a run that opens at `h[0]` and closes at `h[j]`, the reference definition is that of
      the rest of the string. */
  lemma TextRewrittenAfterRun(h: string, j: nat, k: nat)
    requires |h| > 0 && h[0] == '>' && j == RunEnd(h, 1) < k < |h|
    ensures TextRewritten(h)[k] == TextRewritten(h[j + 1..])[k - j - 1]
  {
    RunAtStart(h, j, k);
    var rest := h[j + 1..];
    assert rest[k - j - 1] == h[k];
    assert TextRewritten(h)[k] == if InTextRun(h, k) then SubstChar(h, k) else h[k];
    assert TextRewritten(rest)[k - j - 1] ==
      if InTextRun(rest, k - j - 1) then SubstChar(rest, k - j - 1) else rest[k - j - 1];
  }

  /** `TextRewritten` at one index of `h` and of `h[1..]`. */
  lemma TextRewrittenShift(h: string, k: nat)
    requires 0 < k < |h|
    ensures TextRewritten(h)[k] == if InTextRun(h, k) then SubstChar(h, k) else h[k]
    ensures TextRewritten(h[1..])[k - 1] ==
      if InTextRun(h[1..], k - 1) then SubstChar(h[1..], k - 1) else h[k]
  {
  }

  /** The reference definition at one index of `h` when the pattern does not match at its
      start: the first character is kept, and the rest is rewritten as `h[1..]` is. */
  lemma TextRewrittenNoMatchAt(h: string, k: nat)
    requires h != [] && !TextMatchAtStart(h) && 0 < k < |h|
    ensures TextRewritten(h)[k] == TextRewritten(h[1..])[k - 1]
  {
    TextRewrittenShift(h, k);
    var j := RunEnd(h, 1);
    if h[0] == '>' && j < |h| && k < j {
      assert !Occurs(h[1..j], "yale", true);
      QuietRun(h, k);
    } else {
      RunAfterStart(h, k);
    }
  }

  /** The reference definition, one step of the scan when the pattern does not match. */
  lemma TextRewrittenNoMatch(h: string)
    requires h != [] && !TextMatchAtStart(h)
    ensures TextRewritten(h) == [h[0]] + TextRewritten(h[1..])
  {
    var r := TextRewritten(h);
    var t := [h[0]] + TextRewritten(h[1..]);
    forall k | 0 <= k < |h| ensures r[k] == t[k] {
      if k == 0 {
        assert !InTextRun(h, 0);
        assert r[k] == h[k];
      } else {
        TextRewrittenNoMatchAt(h, k);
      }
    }
  }

  /** The reference definition at one index of the run the pattern matches at the start of `h`. */
  lemma TextRewrittenMatchAt(h: string, k: nat)
    requires TextMatchAtStart(h) && k < |h|
    ensures var j := RunEnd(h, 1);
      TextRewritten(h)[k] ==
        (">" + ThreeVariantReplace(h[1..j]) + "<" + TextRewritten(h[j + 1..]))[k]
  {
    var j := RunEnd(h, 1);
    var pre := ">" + ThreeVariantReplace(h[1..j]) + "<";
    assert |pre| == j + 1;
    if k <= j {
      TextRewrittenInFirstRun(h, j, k);
      if 0 < k < j {
        ThreeVariantReplaceAt(h[1..j], k - 1);
      }
    } else {
      TextRewrittenAfterRun(h, j, k);
      IndexBehind(pre, TextRewritten(h[j + 1..]), k);
    }
  }

  /** The reference definition, one step of the scan when the pattern matches. */
  lemma TextRewrittenMatch(h: string)
    requires TextMatchAtStart(h)
    ensures var j := RunEnd(h, 1);
      TextRewritten(h) == ">" + ThreeVariantReplace(h[1..j]) + "<" + TextRewritten(h[j + 1..])
  {
    var j := RunEnd(h, 1);
    forall k | 0 <= k < |h|
      ensures TextRewritten(h)[k] == (">" + ThreeVariantReplace(h[1..j]) + "<" + TextRewritten(h[j + 1..]))[k]
    {
      TextRewrittenMatchAt(h, k);
    }
  }

  /** The scanning text pass computes the reference definition. */
  lemma {:induction false} TextPassMeaning(h: string)
    ensures TextPass(h) == TextRewritten(h)
    decreases |h|
  {
    if h == [] {
      return;
    }
    if TextMatchAtStart(h) {
      TextPassMeaning(h[RunEnd(h, 1) + 1..]);
      TextPassMatchUnfold(h);
      TextRewrittenMatch(h);
    } else {
      TextPassMeaning(h[1..]);
      TextRewrittenNoMatch(h);
    }
  }

  /** The text pass at one index inside a run. */
  lemma TextPassInRun(h: string, k: nat)
    requires k < |h| && InTextRun(h, k)
    ensures TextPass(h)[k] == SubstChar(h, k)
  {
    TextPassMeaning(h);
    assert TextRewritten(h)[k] == SubstChar(h, k);
  }

  // ---------------------------------------------------------------------------------------
  // What the text pass changes

  /** `x` and `y` have their `<` and `>` at the same places. */
  predicate SameBrackets(x: string, y: string) {
    |x| == |y| && forall k :: 0 <= k < |x| ==> (x[k] == '<' <==> y[k] == '<') && (x[k] == '>' <==> y[k] == '>')
  }

  /** Whether an index lies in a run depends on the brackets alone. */
  lemma SameBracketsRuns(x: string, y: string, k: nat)
    requires SameBrackets(x, y)
    ensures InTextRun(x, k) <==> InTextRun(y, k)
  {
    if InTextRun(x, k) {
      var i: nat :| i < k && OpensRunAt(x, i, k);
      var j: nat :| k < j < |x| && x[j] == '<';
      assert OpensRunAt(y, i, k) && y[j] == '<';
    }
    if InTextRun(y, k) {
      var i: nat :| i < k && OpensRunAt(y, i, k);
      var j: nat :| k < j < |y| && y[j] == '<';
      assert OpensRunAt(x, i, k) && x[j] == '<';
    }
  }

  /** The text pass keeps the length and every `<` and `>` where it was; it changes a character
      only strictly between a `>` and the next `<`, and only at the first letter of a variant,
      `Y` into `F` and `y` into `f`. */
  lemma TextPassChanges(h: string)
    ensures |TextPass(h)| == |h| && SameBrackets(TextPass(h), h)
    ensures forall k :: 0 <= k < |h| && TextPass(h)[k] != h[k] ==>
      InTextRun(h, k) && VariantAt(h, k) && TextPass(h)[k] == (if h[k] == 'y' then 'f' else 'F')
  {
    TextPassMeaning(h);
    forall k | 0 <= k < |h| ensures (TextPass(h)[k] == '<' <==> h[k] == '<') && (TextPass(h)[k] == '>' <==> h[k] == '>') &&
      (TextPass(h)[k] != h[k] ==> InTextRun(h, k) && VariantAt(h, k) && TextPass(h)[k] == (if h[k] == 'y' then 'f' else 'F'))
    {
      SubstCharChanges(h, k);
    }
  }

  /** Inside the runs of the text pass's output no variant is left. */
  lemma TextPassNoVariantAt(h: string, k: nat)
    ensures InTextRun(TextPass(h), k) ==> !VariantAt(TextPass(h), k)
  {
    var o := TextPass(h);
    if InTextRun(o, k) && k < |h| {
      TextPassChanges(h);
      SameBracketsRuns(o, h, k);
      TextPassInRun(h, k);
    }
  }

  /** No variant starts in a run of `x`. */
  predicate RunsClean(x: string) {
    forall k: nat | k < |x| :: InTextRun(x, k) ==> !VariantAt(x, k)
  }

  /** Between tags, the output of the text pass holds no `Yale`, `yale` or `YALE`. */
  lemma TextPassRunsClean(h: string)
    ensures RunsClean(TextPass(h))
  {
    forall k: nat | k < |h| ensures InTextRun(TextPass(h), k) ==> !VariantAt(TextPass(h), k) {
      TextPassNoVariantAt(h, k);
    }
  }

  /** HTML without an exact variant comes through the text pass unchanged. */
  lemma TextPassWithoutVariant(h: string)
    ensures !HasVariant(h) ==> TextPass(h) == h
  {
    TextPassChanges(h);
  }

  // ---------------------------------------------------------------------------------------
  // Title matches `<title>([^<]*)<\/title>`, case-insensitive

  /** A title element starts at `i`: `<title>` in any casing, a run without `<`, then
      `</title>` in any casing. */
  predicate TitleAt(h: string, i: nat) {
    MatchAt(h, "<title>", i, true) && MatchAt(h, "</title>", RunEnd(h, i + 7), true)
  }

  /** The text a title match at `i` captures. */
  function TitleText(h: string, i: nat): (t: string)
    requires TitleAt(h, i)
    ensures forall m :: 0 <= m < |t| ==> t[m] != '<'
  {
    h[i + 7..RunEnd(h, i + 7)]
  }

  /** The title pattern of the title pass matches at the start of `h`: the captured text holds
      `yale` in any casing. */
  predicate TitleMatchAtStart(h: string) {
    TitleAt(h, 0) && Occurs(TitleText(h, 0), "yale", true)
  }

  /** The title pass: each match becomes `<title>`, the three-variant rule applied to the
      captured text, and `</title>`, with the tags written in lower case whatever their casing was. */
  function TitlePass(h: string): (r: string)
    ensures |r| == |h|
    decreases |h|
  {
    if h == [] then []
    else if TitleMatchAtStart(h) then
      var j := RunEnd(h, 7);
      "<title>" + ThreeVariantReplace(h[7..j]) + "</title>" + TitlePass(h[j + 8..])
    else [h[0]] + TitlePass(h[1..])
  }

  /** The title pass with the captured text left as it is: only the tags of the matches are
      rewritten, into lower case. */
  function Retag(h: string): (r: string)
    ensures |r| == |h|
    decreases |h|
  {
    if h == [] then []
    else if TitleMatchAtStart(h) then
      var j := RunEnd(h, 7);
      "<title>" + h[7..j] + "</title>" + Retag(h[j + 8..])
    else [h[0]] + Retag(h[1..])
  }

  lemma LowerConcat(a: string, b: string)
    ensures Lower(a + b) == Lower(a) + Lower(b)
  {
  }

  /** A case-insensitive match of a lower-case pattern reads as the pattern once lower-cased. */
  lemma LowerOfMatch(h: string, p: string, i: nat)
    requires MatchAt(h, p, i, true) && Lower(p) == p
    ensures Lower(h[i..i + |p|]) == p
  {
    forall m | 0 <= m < |p| ensures Lower(h[i..i + |p|])[m] == p[m] {
      assert CharMatch(h[i + m], p[m], true);
    }
  }

  /** The two tags of a title match, with the end of its text given as `e`. */
  lemma TitleAtParts(h: string, i: nat, e: nat)
    requires TitleAt(h, i) && e == RunEnd(h, i + 7)
    ensures MatchAt(h, "<title>", i, true) && MatchAt(h, "</title>", e, true)
  {
  }

  lemma LowerConcat4(a: string, b: string, c: string, d: string)
    ensures Lower(a + b + c + d) == Lower(a) + Lower(b) + Lower(c) + Lower(d)
  {
    LowerConcat(a + b + c, d);
    LowerConcat(a + b, c);
    LowerConcat(a, b);
  }

  /** Writing the tags of a title match in lower case keeps the lower-cased string. */
  lemma LowerRetagged(h: string, j: nat, tail: string)
    requires TitleAt(h, 0) && j == RunEnd(h, 7)
    requires Lower(tail) == Lower(h[j + 8..])
    ensures Lower("<title>" + h[7..j] + "</title>" + tail) == Lower(h)
  {
    var mid := h[7..j];
    var rest := h[j + 8..];
    TitleAtParts(h, 0, j);
    LowerOfMatch(h, "<title>", 0);
    LowerOfMatch(h, "</title>", j);
    assert Lower("<title>") == "<title>" && Lower("</title>") == "</title>";
    assert h == h[0..7] + mid + h[j..j + 8] + rest;
    LowerConcat4(h[0..7], mid, h[j..j + 8], rest);
    assert Lower(h) == "<title>" + Lower(mid) + "</title>" + Lower(rest);
    LowerConcat4("<title>", mid, "</title>", tail);
  }

  lemma RetagUnfold(h: string)
    requires TitleMatchAtStart(h)
    ensures Retag(h) == "<title>" + h[7..RunEnd(h, 7)] + "</title>" + Retag(h[RunEnd(h, 7) + 8..])
  {
  }

  /** Retagging changes letters' case only. */
  lemma {:induction false} RetagLower(h: string)
    ensures Lower(Retag(h)) == Lower(h)
    decreases |h|
  {
    if h == [] {
    } else if TitleMatchAtStart(h) {
      var j := RunEnd(h, 7);
      RetagLower(h[j + 8..]);
      RetagUnfold(h);
      LowerRetagged(h, j, Retag(h[j + 8..]));
    } else {
      RetagLower(h[1..]);
      LowerConcat([h[0]], Retag(h[1..]));
      LowerConcat([h[0]], h[1..]);
      assert h == [h[0]] + h[1..];
    }
  }

  /** A run of a suffix is a run of the whole string. */
  lemma RunDropInto(x: string, d: nat, k: nat)
    requires d <= |x|
    ensures InTextRun(x[d..], k) ==> InTextRun(x, k + d)
  {
    var t := x[d..];
    if InTextRun(t, k) {
      var i: nat :| i < k && OpensRunAt(t, i, k);
      var j: nat :| k < j < |t| && t[j] == '<';
      assert OpensRunAt(x, i + d, k + d);
      assert x[j + d] == '<';
    }
  }

  lemma RunsCleanDrop(x: string, d: nat)
    requires d <= |x| && RunsClean(x)
    ensures RunsClean(x[d..])
  {
    forall k: nat | k < |x| - d && InTextRun(x[d..], k) ensures !VariantAt(x[d..], k) {
      RunDropInto(x, d, k);
    }
  }

  /** The text of a title element lies in a run: the `>` of `<title>` opens it, the `<` of
      `</title>` closes it. */
  lemma TitleTextInRun(x: string, i: nat, k: nat)
    requires TitleAt(x, i) && i + 7 <= k < RunEnd(x, i + 7)
    ensures InTextRun(x, k)
  {
    assert CharMatch(x[i + 6], "<title>"[6], true);
    assert OpensRunAt(x, i + 6, k);
    assert x[RunEnd(x, i + 7)] == '<';
  }

  /** In a string whose runs are clean, a title's text holds no variant. */
  lemma TitleTextClean(x: string)
    requires TitleAt(x, 0) && RunsClean(x)
    ensures !HasVariant(TitleText(x, 0))
  {
    var t := TitleText(x, 0);
    forall k: nat | k < |t| ensures !VariantAt(t, k) {
      TitleTextInRun(x, 0, k + 7);
      if k + 4 <= |t| {
        assert t[k] == x[k + 7] && t[k + 1] == x[k + 8] && t[k + 2] == x[k + 9] && t[k + 3] == x[k + 10];
      }
    }
  }

  lemma TitlePassUnfold(h: string)
    requires TitleMatchAtStart(h)
    ensures TitlePass(h) ==
      "<title>" + ThreeVariantReplace(h[7..RunEnd(h, 7)]) + "</title>" + TitlePass(h[RunEnd(h, 7) + 8..])
  {
  }

  /** Where the runs hold no variant, the title pass only writes the title tags in lower case. */
  lemma {:induction false} TitlePassOnClean(x: string)
    requires RunsClean(x)
    ensures TitlePass(x) == Retag(x)
    decreases |x|
  {
    if x == [] {
    } else if TitleMatchAtStart(x) {
      var j := RunEnd(x, 7);
      RunsCleanDrop(x, j + 8);
      TitlePassOnClean(x[j + 8..]);
      TitleTextClean(x);
      UnchangedWithoutVariant(x[7..j]);
      TitlePassUnfold(x);
      RetagUnfold(x);
    } else {
      RunsCleanDrop(x, 1);
      TitlePassOnClean(x[1..]);
    }
  }

  // ---------------------------------------------------------------------------------------
  // Title extraction `processedHtml.match(/<title>([^<]*)<\/title>/i)`

  /** Where title elements start, index by index. */
  function TitleMarks(h: string): (m: seq<bool>)
    ensures |m| == |h| && forall i | 0 <= i < |h| :: m[i] == TitleAt(h, i)
  {
    seq(|h|, i requires 0 <= i < |h| => TitleAt(h, i))
  }

  /** The first marked index at or after `from`, if any. */
  function FirstMark(m: seq<bool>, from: nat): (r: Option<nat>)
    requires from <= |m|
    ensures r.Some? ==> from <= r.value < |m| && m[r.value]
    ensures forall i | from <= i < |m| && (r.None? || i < r.value) :: !m[i]
    decreases |m| - from
  {
    if from == |m| then None
    else if m[from] then Some(from)
    else FirstMark(m, from + 1)
  }

  /** No title element starts where fewer than seven characters are left. */
  lemma NoTitleBeyond(h: string)
    ensures forall i: nat | |h| <= i :: !TitleAt(h, i)
  {
  }

  /** The first index at or after `from` where a title element starts, if any. */
  function FirstTitle(h: string, from: nat): (r: Option<nat>)
    requires from <= |h|
    ensures r.Some? ==> from <= r.value < |h| && TitleAt(h, r.value)
    ensures forall i: nat :: from <= i && (r.None? || i < r.value) ==> !TitleAt(h, i)
  {
    NoTitleBeyond(h);
    FirstMark(TitleMarks(h), from)
  }

  /** Case and the letters `f`/`y` folded together: the title patterns contain neither `f` nor
      `y`, so they cannot tell apart strings that agree after this folding. */
  function TagFold(c: char): char {
    if LowerAscii(c) == 'f' then 'y' else LowerAscii(c)
  }

  predicate TagEquivalent(x: string, y: string) {
    |x| == |y| && forall k :: 0 <= k < |x| ==> TagFold(x[k]) == TagFold(y[k])
  }

  /** `p` is written in lower case and holds neither `f` nor `y`. */
  predicate TagPlain(p: string) {
    forall j :: 0 <= j < |p| ==> LowerAscii(p[j]) == p[j] && p[j] != 'f' && p[j] != 'y'
  }

  lemma TitleTagsPlain()
    ensures TagPlain("<title>") && TagPlain("</title>")
  {
  }

  /** Tag-equivalent strings match such a pattern at the same places (`i` in `x`, `j` == `i`
      in `y`). */
  lemma TagMatchAt(x: string, y: string, p: string, i: nat, j: nat)
    requires TagEquivalent(x, y) && TagPlain(p) && i == j
    ensures MatchAt(x, p, i, true) <==> MatchAt(y, p, j, true)
  {
    if MatchAt(x, p, i, true) {
      forall m | 0 <= m < |p| ensures CharMatch(y[i + m], p[m], true) {
        assert CharMatch(x[i + m], p[m], true);
      }
    }
    if MatchAt(y, p, i, true) {
      forall m | 0 <= m < |p| ensures CharMatch(x[i + m], p[m], true) {
        assert CharMatch(y[i + m], p[m], true);
      }
    }
  }

  lemma TagRunEnd(x: string, y: string, a: nat)
    requires TagEquivalent(x, y) && a <= |x|
    ensures RunEnd(x, a) == RunEnd(y, a)
  {
    assert forall k :: 0 <= k < |x| ==> (x[k] == '<' <==> y[k] == '<') by {
      forall k | 0 <= k < |x| ensures x[k] == '<' <==> y[k] == '<' {
        assert TagFold(x[k]) == TagFold(y[k]);
      }
    }
  }

  lemma TagTitleAt(x: string, y: string, i: nat)
    requires TagEquivalent(x, y)
    ensures TitleAt(x, i) <==> TitleAt(y, i)
  {
    TitleTagsPlain();
    TagMatchAt(x, y, "<title>", i, i);
    if i + 7 <= |x| {
      TagRunEnd(x, y, i + 7);
      TagMatchAt(x, y, "</title>", RunEnd(x, i + 7), RunEnd(y, i + 7));
    }
  }

  /** Title elements are found at the same places in tag-equivalent strings. */
  lemma TagFirstTitle(x: string, y: string)
    requires TagEquivalent(x, y)
    ensures FirstTitle(x, 0) == FirstTitle(y, 0)
  {
    forall i | 0 <= i < |x| ensures TitleMarks(x)[i] == TitleMarks(y)[i] {
      TagTitleAt(x, y, i);
    }
    assert TitleMarks(x) == TitleMarks(y);
  }

  lemma LowerTagEquivalent(x: string, y: string)
    requires Lower(x) == Lower(y)
    ensures TagEquivalent(x, y)
  {
    forall k | 0 <= k < |x| ensures TagFold(x[k]) == TagFold(y[k]) {
      assert Lower(x)[k] == Lower(y)[k];
    }
  }

  lemma TextPassTagEquivalent(h: string)
    ensures TagEquivalent(TextPass(h), h)
  {
    TextPassChanges(h);
  }

  // ---------------------------------------------------------------------------------------
  // The retagging keeps the text of the first title

  lemma RunEndDrop(x: string, d: nat, a: nat)
    requires d + a <= |x|
    ensures RunEnd(x[d..], a) + d == RunEnd(x, a + d)
  {
    var t := x[d..];
    assert forall m :: 0 <= m < |t| ==> t[m] == x[m + d];
  }

  lemma TitleAtDrop(x: string, d: nat, i: nat)
    requires d <= |x|
    ensures TitleAt(x[d..], i) <==> TitleAt(x, i + d)
  {
    MatchAtDrop(x, d, "<title>", i, true);
    if i + 7 + d <= |x| {
      TitleCloseDrop(x, d, i);
    }
  }

  /** The closing tag after the text of a title starting at `i` of a suffix. */
  lemma TitleCloseDrop(x: string, d: nat, i: nat)
    requires i + 7 + d <= |x|
    ensures MatchAt(x[d..], "</title>", RunEnd(x[d..], i + 7), true) <==>
      MatchAt(x, "</title>", RunEnd(x, i + d + 7), true)
  {
    var e := RunEnd(x[d..], i + 7);
    RunEndDrop(x, d, i + 7);
    MatchAtDropTo(x, d, "</title>", e, RunEnd(x, i + d + 7), true);
  }

  /** A title element starts with `<`, and no other `<` stands before its closing tag. */
  lemma TitleAtBrackets(x: string, i: nat)
    requires TitleAt(x, i)
    ensures x[i] == '<'
    ensures forall m :: i < m < RunEnd(x, i + 7) ==> x[m] != '<'
  {
    assert CharMatch(x[i + 0], "<title>"[0], true);
    forall m | i < m < i + 7 ensures x[m] != '<' {
      assert CharMatch(x[i + (m - i)], "<title>"[m - i], true);
    }
  }

  /** Dropping the first character keeps a title-free prefix title-free. */
  lemma NoTitleAfterDrop(x: string, n: nat)
    requires 0 < n <= |x|
    requires forall i :: 0 <= i < n ==> !TitleAt(x, i)
    ensures forall i :: 0 <= i < n - 1 ==> !TitleAt(x[1..], i)
  {
    forall i | 0 <= i < n - 1 ensures !TitleAt(x[1..], i) {
      TitleAtDrop(x, 1, i);
    }
  }

  /** Before the first title element, retagging changes nothing. */
  lemma {:induction false} RetagPrefix(x: string, n: nat)
    requires n <= |x|
    requires forall i :: 0 <= i < n ==> !TitleAt(x, i)
    ensures Retag(x) == x[..n] + Retag(x[n..])
  {
    if n > 0 {
      var tail := x[1..];
      NoTitleAfterDrop(x, n);
      RetagPrefix(tail, n - 1);
      assert tail[n - 1..] == x[n..];
      assert !TitleAt(x, 0);
      RetagNoMatchUnfold(x);
      ConsPrefix(x, n, Retag(tail), Retag(x[n..]));
    }
  }

  /** Putting the first character back in front of a kept prefix. */
  lemma ConsPrefix(x: string, n: nat, rt: string, rest: string)
    requires 0 < n <= |x| && rt == x[1..][..n - 1] + rest
    ensures [x[0]] + rt == x[..n] + rest
  {
    assert x[..n] == [x[0]] + x[1..][..n - 1];
  }

  /** No title element starts inside the opening tag or the text of another. */
  lemma NoTitleInsideTitle(y: string, i: nat)
    requires TitleAt(y, 0) && 0 < i < RunEnd(y, 7)
    ensures !TitleAt(y, i)
  {
    TitleAtBrackets(y, 0);
    if TitleAt(y, i) {
      TitleAtBrackets(y, i);
    }
  }

  lemma RetagNoMatchUnfold(y: string)
    requires y != [] && !TitleMatchAtStart(y)
    ensures Retag(y) == [y[0]] + Retag(y[1..])
  {
  }

  lemma NoTitleAfterStart(y: string)
    requires TitleAt(y, 0)
    ensures forall i :: 0 <= i < RunEnd(y, 7) - 1 ==> !TitleAt(y[1..], i)
  {
    forall i | 0 <= i < RunEnd(y, 7) - 1 ensures !TitleAt(y[1..], i) {
      TitleAtDrop(y, 1, i);
      NoTitleInsideTitle(y, i + 1);
    }
  }

  lemma RetagKeepsMatchedTitle(y: string)
    requires TitleMatchAtStart(y)
    ensures Retag(y)[7..RunEnd(y, 7)] == TitleText(y, 0)
  {
    var j := RunEnd(y, 7);
    RetagUnfold(y);
    var r := Retag(y);
    assert r == "<title>" + y[7..j] + "</title>" + Retag(y[j + 8..]);
    assert r[7..j] == y[7..j];
  }

  /** A window inside a kept prefix is kept. */
  lemma SliceOfKeptPrefix(r: string, y: string, t: string, c: char, n: nat, a: nat, b: nat)
    requires 1 <= a <= b <= n + 1 <= |y| && r == [c] + (y[1..][..n] + t)
    ensures r[a..b] == y[a..b]
  {
    assert forall k :: a <= k < b ==> r[k] == y[k];
  }

  lemma RetagKeepsUnmatchedTitle(y: string)
    requires TitleAt(y, 0) && Retag(y) == [y[0]] + Retag(y[1..])
    ensures Retag(y)[7..RunEnd(y, 7)] == TitleText(y, 0)
  {
    var j := RunEnd(y, 7);
    NoTitleAfterStart(y);
    RetagPrefix(y[1..], j - 1);
    SliceOfKeptPrefix(Retag(y), y, Retag(y[1..][j - 1..]), y[0], j - 1, 7, j);
  }

  /** Retagging keeps the text of a title element that starts the string. */
  lemma RetagKeepsLeadingTitle(y: string)
    requires TitleAt(y, 0)
    ensures Retag(y)[7..RunEnd(y, 7)] == TitleText(y, 0)
  {
    if TitleMatchAtStart(y) {
      RetagKeepsMatchedTitle(y);
    } else {
      RetagNoMatchUnfold(y);
      RetagKeepsUnmatchedTitle(y);
    }
  }

  /** A window behind a prefix that is kept, inside a part that keeps it, is kept. */
  lemma SliceAfterPrefix(r: string, ry: string, x: string, i: nat, a: nat, b: nat)
    requires i <= a <= b <= |x| && r == x[..i] + ry && |ry| == |x| - i
    requires ry[a - i..b - i] == x[i..][a - i..b - i]
    ensures r[a..b] == x[a..b]
  {
    forall k | a <= k < b ensures r[k] == x[k] {
      assert r[k] == ry[k - i] == ry[a - i..b - i][k - a];
      assert x[i..][a - i..b - i][k - a] == x[k];
    }
  }

  /** The title element at `i` is the leading title of `x[i..]`. */
  lemma TitleAtShift(x: string, i: nat)
    requires TitleAt(x, i)
    ensures TitleAt(x[i..], 0) && RunEnd(x[i..], 7) + i == RunEnd(x, i + 7)
  {
    TitleAtDrop(x, i, 0);
    RunEndDrop(x, i, 7);
  }

  /** When the string up to a title element is kept, so is the title's text. */
  lemma RetagKeepsTitleBehindPrefix(x: string, i: nat, r: string)
    requires TitleAt(x, i) && r == x[..i] + Retag(x[i..])
    ensures r[i + 7..RunEnd(x, i + 7)] == TitleText(x, i)
  {
    var y := x[i..];
    TitleAtShift(x, i);
    RetagKeepsLeadingTitle(y);
    SliceAfterPrefix(r, Retag(y), x, i, i + 7, RunEnd(x, i + 7));
  }

  /** Retagging keeps the text of the first title element. */
  lemma RetagKeepsFirstTitle(x: string, i: nat)
    requires TitleAt(x, i) && forall i' :: 0 <= i' < i ==> !TitleAt(x, i')
    ensures Retag(x)[i + 7..RunEnd(x, i + 7)] == TitleText(x, i)
  {
    RetagPrefix(x, i);
    RetagKeepsTitleBehindPrefix(x, i, Retag(x));
  }

  lemma TextPassTitleAt(h: string, i: nat)
    ensures TitleAt(TextPass(h), i) <==> TitleAt(h, i)
    ensures i + 7 <= |h| ==> RunEnd(TextPass(h), i + 7) == RunEnd(h, i + 7)
  {
    TextPassTagEquivalent(h);
    TagTitleAt(TextPass(h), h, i);
    if i + 7 <= |h| {
      TagRunEnd(TextPass(h), h, i + 7);
    }
  }

  lemma TextPassInTitle(h: string, i: nat, m: nat)
    requires TitleAt(h, i) && m < |TitleText(h, i)|
    ensures TextPass(h)[i + 7 + m] == ThreeVariantReplace(TitleText(h, i))[m]
  {
    var t := TitleText(h, i);
    var j := RunEnd(h, i + 7);
    TitleTextInRun(h, i, i + 7 + m);
    TextPassInRun(h, i + 7 + m);
    assert t == h[i + 7..j];
    SubstCharWindow(h, i + 7, j, m);
    ThreeVariantReplaceAt(t, m);
  }

  /** The text pass rewrites the text of every title element with the three-variant rule. */
  lemma TextPassTitleText(h: string, i: nat)
    requires TitleAt(h, i)
    ensures TitleAt(TextPass(h), i)
    ensures TitleText(TextPass(h), i) == ThreeVariantReplace(TitleText(h, i))
  {
    TextPassTitleAt(h, i);
    var t := TitleText(h, i);
    var u := TitleText(TextPass(h), i);
    assert |u| == |t|;
    forall m | 0 <= m < |t| ensures u[m] == ThreeVariantReplace(t)[m] {
      TextPassInTitle(h, i, m);
    }
  }

  // ---------------------------------------------------------------------------------------
  // processHtml

  datatype Processed = Processed(content: string, title: string)

  /** `processHtml(html)`: the text pass, the title pass, then the first title's text or
      `"No Title"`. */
  function ProcessHtml(html: string): (r: Processed)
    ensures |r.content| == |html|
  {
    var content := TitlePass(TextPass(html));
    match FirstTitle(content, 0)
    case Some(i) => Processed(content, TitleText(content, i))
    case None => Processed(content, "No Title")
  }

  /** The content is the text pass followed by a retagging of the title elements: every `<` and
      `>` keeps its place, and apart from the case of tag letters only the first letters of
      variants between tags change. */
  lemma ProcessHtmlContent(h: string)
    ensures ProcessHtml(h).content == Retag(TextRewritten(h))
    ensures Lower(ProcessHtml(h).content) == Lower(TextRewritten(h))
    ensures SameBrackets(ProcessHtml(h).content, h)
  {
    var o := TextPass(h);
    TextPassMeaning(h);
    TextPassRunsClean(h);
    TitlePassOnClean(o);
    RetagLower(o);
    TextPassChanges(h);
    var c := ProcessHtml(h).content;
    forall k | 0 <= k < |h| ensures (c[k] == '<' <==> h[k] == '<') && (c[k] == '>' <==> h[k] == '>') {
      assert Lower(c)[k] == Lower(o)[k];
    }
  }

  /** The title is the three-variant rule applied to the text of the input's first title
      element (tags matched in any casing), or `"No Title"` when there is none. */
  lemma ProcessHtmlTitle(h: string)
    ensures FirstTitle(h, 0).None? ==> ProcessHtml(h).title == "No Title"
    ensures FirstTitle(h, 0).Some? ==>
      ProcessHtml(h).title == ThreeVariantReplace(TitleText(h, FirstTitle(h, 0).value))
  {
    var o := TextPass(h);
    var c := TitlePass(o);
    ContentTagEquivalent(h);
    TagFirstTitle(c, o);
    TextPassTagEquivalent(h);
    TagFirstTitle(o, h);
    if FirstTitle(h, 0).Some? {
      ProcessHtmlTitleAt(h, FirstTitle(h, 0).value);
    }
  }

  /** The title pass on the text pass's output only retags it. */
  lemma ContentTagEquivalent(h: string)
    ensures TitlePass(TextPass(h)) == Retag(TextPass(h))
    ensures TagEquivalent(TitlePass(TextPass(h)), TextPass(h))
  {
    var o := TextPass(h);
    TextPassRunsClean(h);
    TitlePassOnClean(o);
    RetagLower(o);
    LowerTagEquivalent(Retag(o), o);
  }

  /** The first title of the processed page holds the rule applied to the first title of `h`. */
  lemma ProcessHtmlTitleAt(h: string, i: nat)
    requires FirstTitle(h, 0) == Some(i)
    requires FirstTitle(TitlePass(TextPass(h)), 0) == Some(i) && FirstTitle(TextPass(h), 0) == Some(i)
    ensures ProcessHtml(h).title == ThreeVariantReplace(TitleText(h, i))
  {
    var o := TextPass(h);
    var c := TitlePass(o);
    assert ProcessHtml(h).title == TitleText(c, i);
    ContentTagEquivalent(h);
    TagRunEnd(c, o, i + 7);
    assert TitleText(c, i) == Retag(o)[i + 7..RunEnd(o, i + 7)];
    RetagKeepsFirstTitle(o, i);
    TextPassTitleText(h, i);
  }


  /** A match of `yale` in a window is a match in the whole string. */
  lemma OccursInSlice(x: string, a: nat, b: nat)
    requires a <= b <= |x|
    ensures Occurs(x[a..b], "yale", true) ==> Occurs(x, "yale", true)
  {
    if Occurs(x[a..b], "yale", true) {
      var k: nat :| k <= b - a && MatchAt(x[a..b], "yale", k, true);
      MatchAtSlice(x, a, b, "yale", k, true);
    }
  }

  lemma NoTitleMatchWithoutCiYale(x: string)
    ensures TitleMatchAtStart(x) ==> Occurs(x, "yale", true)
  {
    if TitleAt(x, 0) {
      OccursInSlice(x, 7, RunEnd(x, 7));
    }
  }

  /** Without `yale` in any casing, no title element is retagged. */
  lemma {:induction false} RetagWithoutCiYale(x: string)
    requires !Occurs(x, "yale", true)
    ensures Retag(x) == x
    decreases |x|
  {
    if x != [] {
      NoTitleMatchWithoutCiYale(x);
      RetagNoMatchUnfold(x);
      OccursInSlice(x, 1, |x|);
      assert x[1..|x|] == x[1..];
      RetagWithoutCiYale(x[1..]);
      assert x == [x[0]] + x[1..];
    }
  }

  /** HTML without an exact variant only has the tags of its title elements rewritten in lower case,
      and only those whose text holds `yale` in another casing. */
  lemma ProcessHtmlWithoutVariant(h: string)
    ensures !HasVariant(h) ==> ProcessHtml(h).content == Retag(h) && Lower(ProcessHtml(h).content) == Lower(h)
  {
    if !HasVariant(h) {
      TextPassWithoutVariant(h);
      TextPassRunsClean(h);
      TitlePassOnClean(h);
      RetagLower(h);
    }
  }

  /** HTML without `yale` in any casing comes back unchanged. */
  lemma ProcessHtmlWithoutCiYale(h: string)
    ensures !Occurs(h, "yale", true) ==> ProcessHtml(h).content == h
  {
    forall k: nat | k < |h| ensures VariantAt(h, k) ==> Occurs(h, "yale", true) {
      VariantIsCiYale(h, k);
    }
    ProcessHtmlWithoutVariant(h);
    if !Occurs(h, "yale", true) {
      RetagWithoutCiYale(h);
    }
  }

  lemma ExampleWithoutVariant(h: string)
    requires h == "<TITLE>yAle</TITLE>"
    ensures !HasVariant(h)
  {
    forall k: nat | k < |h| ensures !VariantAt(h, k) {
      assert h[k] == 'y' ==> k == 7;
      assert h[k] != 'Y';
    }
  }

  lemma ExampleTitleMatch(h: string)
    requires h == "<TITLE>yAle</TITLE>"
    ensures RunEnd(h, 7) == 11 && TitleMatchAtStart(h)
  {
    ExampleOpenTag(h);
    ExampleCloseTag(h);
    ExampleNameInTitle(h);
  }

  lemma ExampleOpenTag(h: string)
    requires h == "<TITLE>yAle</TITLE>"
    ensures MatchAt(h, "<title>", 0, true)
  {
    forall j | 0 <= j < 7 ensures CharMatch(h[0 + j], "<title>"[j], true) {
      if j == 0 {} else if j == 1 {} else if j == 2 {} else if j == 3 {} else if j == 4 {} else if j == 5 {} else {}
    }
  }

  lemma ExampleCloseTag(h: string)
    requires h == "<TITLE>yAle</TITLE>"
    ensures RunEnd(h, 7) == 11 && MatchAt(h, "</title>", 11, true)
  {
    assert h[11] == '<';
    forall j | 0 <= j < 8 ensures CharMatch(h[11 + j], "</title>"[j], true) {
      if j == 0 {} else if j == 1 {} else if j == 2 {} else if j == 3 {} else if j == 4 {} else if j == 5 {} else if j == 6 {} else {}
    }
  }

  lemma ExampleNameInTitle(h: string)
    requires h == "<TITLE>yAle</TITLE>"
    ensures MatchAt(h[7..11], "yale", 0, true)
  {
    forall j | 0 <= j < 4 ensures CharMatch(h[7..11][0 + j], "yale"[j], true) {
      if j == 0 {} else if j == 1 {} else if j == 2 {} else {}
    }
  }

  lemma ExampleRetag(h: string)
    requires h == "<TITLE>yAle</TITLE>"
    ensures Retag(h) == "<title>yAle</title>"
  {
    ExampleTitleMatch(h);
    RetagUnfold(h);
    assert h[7..11] == "yAle";
    assert h[19..] == [];
  }

  /** The title pass is not a no-op on every output of the text pass: a title whose text holds
      `yale` in a casing that is not a variant gets its tags lower-cased. */
  lemma TitleTagsLowerCased(h: string)
    requires h == "<TITLE>yAle</TITLE>"
    ensures ProcessHtml(h).content == "<title>yAle</title>"
  {
    ExampleWithoutVariant(h);
    ProcessHtmlWithoutVariant(h);
    ExampleRetag(h);
  }
}
