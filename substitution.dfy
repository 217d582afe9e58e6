/** The brand substitution: `replaceYaleWithFale` (tests/app.direct.js), the same chain of three
    `.replace` calls written inline in the `/fetch` handler and the rewrite passes, and the
    case-insensitive rule of the style pass. */
module Substitution {
  import opened Strings

  /** `s.replace(/p/g, r)` for a literal non-empty pattern (with the `i` flag when `ci`): the
      leftmost match is replaced, and the search resumes after it, so matches never overlap. */
  function ReplaceAll(s: string, p: string, r: string, ci: bool): (out: string)
    requires p != []
    ensures |r| == |p| ==> |out| == |s|
    decreases |s|
  {
    if s == [] then []
    else if MatchAt(s, p, 0, ci) then r + ReplaceAll(s[|p|..], p, r, ci)
    else [s[0]] + ReplaceAll(s[1..], p, r, ci)
  }

  /** No proper suffix of `p` can start a new match of `p`, because `p`'s first character
      appears nowhere else in it. Then matches in any string never overlap. */
  predicate NoSelfOverlap(p: string, ci: bool) {
    p != [] && forall j :: 0 < j < |p| ==> !CharMatch(p[j], p[0], ci)
  }

  /** Index `k` lies inside some match of `p` in `s`. */
  predicate Covered(s: string, p: string, k: nat, ci: bool) {
    exists m: nat | m <= k :: k < m + |p| && MatchAt(s, p, m, ci)
  }

  /** Two matches of `p` less than `|p|` apart force `p`'s first character to match a later one. */
  lemma OverlapForcesRepeat(s: string, p: string, m: nat, ci: bool)
    ensures MatchAt(s, p, 0, ci) && 0 < m < |p| && MatchAt(s, p, m, ci) ==> CharMatch(p[m], p[0], ci)
  {
    if MatchAt(s, p, 0, ci) && 0 < m < |p| && MatchAt(s, p, m, ci) {
      assert CharMatch(s[0 + m], p[m], ci) && CharMatch(s[m + 0], p[0], ci);
    }
  }

  /** Every occurrence of a non-overlapping pattern is replaced, character by character, by `r`. */
  lemma {:induction false} ReplaceAllMatched(s: string, p: string, r: string, ci: bool)
    requires NoSelfOverlap(p, ci) && |r| == |p|
    ensures forall m: nat, k | MatchAt(s, p, m, ci) && m <= k < m + |p| ::
      ReplaceAll(s, p, r, ci)[k] == r[k - m]
    decreases |s|
  {
    if s == [] {
    } else if MatchAt(s, p, 0, ci) {
      ReplaceAllMatched(s[|p|..], p, r, ci);
      forall m: nat, k | MatchAt(s, p, m, ci) && m <= k < m + |p| ensures ReplaceAll(s, p, r, ci)[k] == r[k - m] {
        MatchedAfterMatch(s, p, r, ci, m, k);
      }
    } else {
      ReplaceAllMatched(s[1..], p, r, ci);
      forall m: nat, k | MatchAt(s, p, m, ci) && m <= k < m + |p| ensures ReplaceAll(s, p, r, ci)[k] == r[k - m] {
        MatchedAfterSkip(s, p, r, ci, m, k);
      }
    }
  }

  /** One character of a match when the scan replaces a match at the start, given the matches
      of the rest. */
  lemma MatchedAfterMatch(s: string, p: string, r: string, ci: bool, m: nat, k: nat)
    requires NoSelfOverlap(p, ci) && |r| == |p| && MatchAt(s, p, 0, ci)
    requires MatchAt(s, p, m, ci) && m <= k < m + |p|
    requires forall m': nat, k' | MatchAt(s[|p|..], p, m', ci) && m' <= k' < m' + |p| ::
      ReplaceAll(s[|p|..], p, r, ci)[k'] == r[k' - m']
    ensures ReplaceAll(s, p, r, ci)[k] == r[k - m]
  {
    if m >= |p| {
      ReplaceAllAtMatch(s, p, r, ci, k);
      MatchAtDrop(s, |p|, p, m - |p|, ci);
      assert ReplaceAll(s[|p|..], p, r, ci)[k - |p|] == r[k - |p| - (m - |p|)];
    } else {
      MatchedInFirst(s, p, r, ci, m, k);
    }
  }

  /** A match that starts inside the first match is the first match itself. */
  lemma MatchedInFirst(s: string, p: string, r: string, ci: bool, m: nat, k: nat)
    requires NoSelfOverlap(p, ci) && |r| == |p| && MatchAt(s, p, 0, ci)
    requires MatchAt(s, p, m, ci) && m <= k < m + |p| && m < |p|
    ensures ReplaceAll(s, p, r, ci)[k] == r[k - m]
  {
    OverlapForcesRepeat(s, p, m, ci);
    ReplaceAllAtMatch(s, p, r, ci, k);
  }

  /** The scan replacing a match at the start, at one index. */
  lemma ReplaceAllAtMatch(s: string, p: string, r: string, ci: bool, k: nat)
    requires p != [] && |r| == |p| && MatchAt(s, p, 0, ci) && k < |s|
    ensures k < |p| ==> ReplaceAll(s, p, r, ci)[k] == r[k]
    ensures |p| <= k ==> ReplaceAll(s, p, r, ci)[k] == ReplaceAll(s[|p|..], p, r, ci)[k - |p|]
  {
    assert ReplaceAll(s, p, r, ci) == r + ReplaceAll(s[|p|..], p, r, ci);
  }

  /** One character of a match when the scan keeps the first character, given the matches of
      the rest. */
  lemma MatchedAfterSkip(s: string, p: string, r: string, ci: bool, m: nat, k: nat)
    requires p != [] && |r| == |p| && s != [] && !MatchAt(s, p, 0, ci)
    requires MatchAt(s, p, m, ci) && m <= k < m + |p|
    requires forall m': nat, k' | MatchAt(s[1..], p, m', ci) && m' <= k' < m' + |p| ::
      ReplaceAll(s[1..], p, r, ci)[k'] == r[k' - m']
    ensures ReplaceAll(s, p, r, ci)[k] == r[k - m]
  {
    var rest := ReplaceAll(s[1..], p, r, ci);
    assert ReplaceAll(s, p, r, ci) == [s[0]] + rest;
    MatchAtDrop(s, 1, p, m - 1, ci);
    assert rest[k - 1] == r[k - 1 - (m - 1)];
  }

  /** Every character outside all occurrences of `p` is kept. */
  lemma {:induction false} ReplaceAllUncovered(s: string, p: string, r: string, ci: bool)
    requires p != [] && |r| == |p|
    ensures forall k :: 0 <= k < |s| && !Covered(s, p, k, ci) ==>
      ReplaceAll(s, p, r, ci)[k] == s[k]
    decreases |s|
  {
    if s == [] {
    } else if MatchAt(s, p, 0, ci) {
      ReplaceAllUncovered(s[|p|..], p, r, ci);
      forall k | 0 <= k < |s| && !Covered(s, p, k, ci) ensures ReplaceAll(s, p, r, ci)[k] == s[k] {
        UncoveredAfterMatch(s, p, r, ci, k);
      }
    } else {
      ReplaceAllUncovered(s[1..], p, r, ci);
      forall k | 0 <= k < |s| && !Covered(s, p, k, ci) ensures ReplaceAll(s, p, r, ci)[k] == s[k] {
        UncoveredAfterSkip(s, p, r, ci, k);
      }
    }
  }

  /** A match in a suffix is a match in the whole string. */
  lemma CoveredDrop(s: string, p: string, ci: bool, d: nat, k: nat)
    requires d <= k < |s|
    ensures Covered(s[d..], p, k - d, ci) ==> Covered(s, p, k, ci)
  {
    if Covered(s[d..], p, k - d, ci) {
      var m: nat :| m <= k - d && k - d < m + |p| && MatchAt(s[d..], p, m, ci);
      MatchAtDrop(s, d, p, m, ci);
      assert m + d <= k && k < m + d + |p|;
    }
  }

  /** One uncovered character when the scan replaces a match at the start, given the
      uncovered characters of the rest. */
  lemma UncoveredAfterMatch(s: string, p: string, r: string, ci: bool, k: nat)
    requires p != [] && |r| == |p| && MatchAt(s, p, 0, ci)
    requires k < |s| && !Covered(s, p, k, ci)
    requires forall k' | 0 <= k' < |s[|p|..]| && !Covered(s[|p|..], p, k', ci) ::
      ReplaceAll(s[|p|..], p, r, ci)[k'] == s[|p|..][k']
    ensures ReplaceAll(s, p, r, ci)[k] == s[k]
  {
    assert k < |p| ==> Covered(s, p, k, ci);
    CoveredDrop(s, p, ci, |p|, k);
    ReplaceAllAtMatch(s, p, r, ci, k);
    assert s[|p|..][k - |p|] == s[k];
  }

  /** One uncovered character when the scan keeps the first character, given the uncovered
      characters of the rest. */
  lemma UncoveredAfterSkip(s: string, p: string, r: string, ci: bool, k: nat)
    requires p != [] && |r| == |p| && s != [] && !MatchAt(s, p, 0, ci)
    requires k < |s| && !Covered(s, p, k, ci)
    requires forall k' | 0 <= k' < |s[1..]| && !Covered(s[1..], p, k', ci) ::
      ReplaceAll(s[1..], p, r, ci)[k'] == s[1..][k']
    ensures ReplaceAll(s, p, r, ci)[k] == s[k]
  {
    var rest := ReplaceAll(s[1..], p, r, ci);
    assert ReplaceAll(s, p, r, ci) == [s[0]] + rest;
    if k > 0 {
      CoveredDrop(s, p, ci, 1, k);
      assert rest[k - 1] == s[1..][k - 1];
    }
  }

  /** For an exact pattern and a replacement that differs from it only in its first character
      (`Yale` to `Fale`), the replacement rewrites exactly the first character of each occurrence. */
  lemma FirstLetterSwap(s: string, p: string, r: string)
    requires NoSelfOverlap(p, false) && |r| == |p| && r[1..] == p[1..]
    ensures forall k :: 0 <= k < |s| ==>
      ReplaceAll(s, p, r, false)[k] == if MatchAt(s, p, k, false) then r[0] else s[k]
  {
    forall k | 0 <= k < |s| ensures ReplaceAll(s, p, r, false)[k] == if MatchAt(s, p, k, false) then r[0] else s[k] {
      FirstLetterSwapAt(s, p, r, k);
    }
  }

  lemma FirstLetterSwapAt(s: string, p: string, r: string, k: nat)
    requires NoSelfOverlap(p, false) && |r| == |p| && r[1..] == p[1..] && k < |s|
    ensures ReplaceAll(s, p, r, false)[k] == if MatchAt(s, p, k, false) then r[0] else s[k]
  {
    var out := ReplaceAll(s, p, r, false);
    if MatchAt(s, p, k, false) {
      ReplaceAllMatched(s, p, r, false);
      assert out[k] == r[k - k];
    } else if Covered(s, p, k, false) {
      var m: nat :| m <= k && k < m + |p| && MatchAt(s, p, m, false);
      ReplaceAllMatched(s, p, r, false);
      assert out[k] == r[k - m];
      assert r[k - m] == r[1..][k - m - 1] == p[k - m];
      assert CharMatch(s[m + (k - m)], p[k - m], false);
    } else {
      ReplaceAllUncovered(s, p, r, false);
    }
  }

  // ---------------------------------------------------------------------------------------
  // The three-variant rule

  /** The chain `.replace(/Yale/g, 'Fale').replace(/yale/g, 'fale').replace(/YALE/g, 'FALE')`. */
  function ThreeVariantReplace(s: string): (r: string)
    ensures |r| == |s|
  {
    ReplaceAll(ReplaceAll(ReplaceAll(s, "Yale", "Fale", false), "yale", "fale", false), "YALE", "FALE", false)
  }

  /** One of the three exact variants `Yale`, `yale`, `YALE` starts at index `k`. */
  predicate VariantAt(s: string, k: nat) {
    k + 4 <= |s| &&
    ((s[k] == 'Y' && s[k + 1] == 'a' && s[k + 2] == 'l' && s[k + 3] == 'e') ||
     (s[k] == 'y' && s[k + 1] == 'a' && s[k + 2] == 'l' && s[k + 3] == 'e') ||
     (s[k] == 'Y' && s[k + 1] == 'A' && s[k + 2] == 'L' && s[k + 3] == 'E'))
  }

  predicate HasVariant(s: string) {
    exists k: nat | k < |s| :: VariantAt(s, k)
  }

  /** The character the case-preserving rule puts at index `k`: the first letter of a variant
      becomes the first letter of the matching replacement, everything else is kept. */
  function SubstChar(s: string, k: nat): char
    requires k < |s|
  {
    if VariantAt(s, k) then (if s[k] == 'y' then 'f' else 'F') else s[k]
  }

  /** Reference definition of the case-preserving substitution, one character at a time. */
  function Substituted(s: string): (r: string)
    ensures |r| == |s|
  {
    seq(|s|, k requires 0 <= k < |s| => SubstChar(s, k))
  }

  lemma VariantsDoNotOverlap()
    ensures NoSelfOverlap("Yale", false) && NoSelfOverlap("yale", false) && NoSelfOverlap("YALE", false)
  {
  }

  /** An exact match of a four-letter pattern, spelled out. */
  lemma MatchAt4(s: string, p: string, k: nat)
    requires |p| == 4
    ensures MatchAt(s, p, k, false) <==>
      k + 4 <= |s| && s[k] == p[0] && s[k + 1] == p[1] && s[k + 2] == p[2] && s[k + 3] == p[3]
  {
    if k + 4 <= |s| && s[k] == p[0] && s[k + 1] == p[1] && s[k + 2] == p[2] && s[k + 3] == p[3] {
      forall j | 0 <= j < 4 ensures s[k + j] == p[j] {
        if j == 0 {} else if j == 1 {} else if j == 2 {} else {}
      }
    }
    if MatchAt(s, p, k, false) {
      assert s[k + 0] == p[0] && s[k + 1] == p[1] && s[k + 2] == p[2] && s[k + 3] == p[3];
    }
  }

  /** Replacing the first letter of every `p` by `c` keeps the matches of another four-letter
      variant `q` at index `k` when neither `p`'s first letter nor `c` can stand inside `q`. */
  lemma SwapKeepsMatchAt(s: string, t: string, p: string, c: char, q: string, k: nat)
    requires |p| == 4 && |q| == 4 && |t| == |s| && p != q
    requires forall i :: 0 <= i < |s| ==> t[i] == if MatchAt(s, p, i, false) then c else s[i]
    requires p[0] != q[1] && p[0] != q[2] && p[0] != q[3]
    requires c != q[0] && c != q[1] && c != q[2] && c != q[3]
    ensures MatchAt(t, q, k, false) == MatchAt(s, q, k, false)
  {
    MatchAt4(s, q, k);
    MatchAt4(t, q, k);
    if k + 4 <= |s| {
      MatchAt4(s, p, k);
      MatchAt4(s, p, k + 1);
      MatchAt4(s, p, k + 2);
      MatchAt4(s, p, k + 3);
      assert t[k] == if MatchAt(s, p, k, false) then c else s[k];
      assert t[k + 1] == if MatchAt(s, p, k + 1, false) then c else s[k + 1];
      assert t[k + 2] == if MatchAt(s, p, k + 2, false) then c else s[k + 2];
      assert t[k + 3] == if MatchAt(s, p, k + 3, false) then c else s[k + 3];
      if s[k] == q[0] && s[k + 1] == q[1] && s[k + 2] == q[2] && s[k + 3] == q[3] {
        assert p != q ==> exists j :: 0 <= j < 4 && p[j] != q[j];
      }
    }
  }

  lemma SwapKeepsOtherMatches(s: string, t: string, p: string, c: char, q: string)
    requires |p| == 4 && |q| == 4 && |t| == |s| && p != q
    requires forall k :: 0 <= k < |s| ==> t[k] == if MatchAt(s, p, k, false) then c else s[k]
    requires p[0] != q[1] && p[0] != q[2] && p[0] != q[3]
    requires c != q[0] && c != q[1] && c != q[2] && c != q[3]
    ensures forall k: nat :: MatchAt(t, q, k, false) == MatchAt(s, q, k, false)
  {
    forall k: nat ensures MatchAt(t, q, k, false) == MatchAt(s, q, k, false) {
      SwapKeepsMatchAt(s, t, p, c, q, k);
    }
  }

  /** The three sequential replacements compute the one-pass reference definition. */
  lemma ThreeVariantReplaceMeaning(s: string)
    ensures ThreeVariantReplace(s) == Substituted(s)
  {
    var s1 := ReplaceAll(s, "Yale", "Fale", false);
    var s2 := ReplaceAll(s1, "yale", "fale", false);
    var s3 := ReplaceAll(s2, "YALE", "FALE", false);
    VariantsDoNotOverlap();
    FirstLetterSwap(s, "Yale", "Fale");
    FirstLetterSwap(s1, "yale", "fale");
    FirstLetterSwap(s2, "YALE", "FALE");
    SwapKeepsOtherMatches(s, s1, "Yale", 'F', "yale");
    SwapKeepsOtherMatches(s, s1, "Yale", 'F', "YALE");
    SwapKeepsOtherMatches(s1, s2, "yale", 'f', "YALE");
    forall k | 0 <= k < |s| ensures s3[k] == SubstChar(s, k) {
      assert s3[k] == if MatchAt(s2, "YALE", k, false) then 'F' else s2[k];
      assert s2[k] == if MatchAt(s1, "yale", k, false) then 'f' else s1[k];
      VariantAtMatches(s, k);
      MatchAt4(s, "yale", k);
    }
  }

  /** The rule at one index, as the reference definition gives it. */
  lemma ThreeVariantReplaceAt(s: string, k: nat)
    requires k < |s|
    ensures ThreeVariantReplace(s)[k] == SubstChar(s, k)
  {
    ThreeVariantReplaceMeaning(s);
  }

  /** `VariantAt` is a match of one of the three literal patterns. */
  lemma VariantAtMatches(s: string, k: nat)
    ensures VariantAt(s, k) <==>
      (MatchAt(s, "Yale", k, false) || MatchAt(s, "yale", k, false) || MatchAt(s, "YALE", k, false))
  {
    MatchAt4(s, "Yale", k);
    MatchAt4(s, "yale", k);
    MatchAt4(s, "YALE", k);
  }

  /** The rule changes a character exactly where a variant starts, and only into `F` or `f`. */
  lemma SubstCharChanges(s: string, k: nat)
    requires k < |s|
    ensures SubstChar(s, k) != s[k] <==> VariantAt(s, k)
    ensures SubstChar(s, k) == s[k] || SubstChar(s, k) == 'F' || SubstChar(s, k) == 'f'
    ensures VariantAt(s, k) ==> SubstChar(s, k) == if s[k] == 'y' then 'f' else 'F'
  {
    MatchAt4(s, "yale", k);
  }

  lemma NoVariantAtAfter(s: string, k: nat)
    ensures !VariantAt(Substituted(s), k)
  {
    var o := Substituted(s);
    if k + 4 <= |s| {
      SubstCharChanges(s, k);
      SubstCharChanges(s, k + 1);
      SubstCharChanges(s, k + 2);
      SubstCharChanges(s, k + 3);
    }
  }

  /** No `Yale`, `yale` or `YALE` survives the rule: no later replacement can recreate an
      earlier pattern, and `Fale`, `fale`, `FALE` cannot be part of a new occurrence. */
  lemma NoVariantRemains(s: string)
    ensures !HasVariant(ThreeVariantReplace(s))
  {
    ThreeVariantReplaceMeaning(s);
    forall k: nat ensures !VariantAt(Substituted(s), k) {
      NoVariantAtAfter(s, k);
    }
  }

  /** The output differs from the input exactly at the first letter of each occurrence of an exact
      variant, where `Y` becomes `F` and `y` becomes `f`; so there are as many changed characters as
      occurrences, and the length is unchanged. */
  lemma ChangedExactlyAtVariants(s: string)
    ensures |ThreeVariantReplace(s)| == |s|
    ensures forall k :: 0 <= k < |s| ==> (ThreeVariantReplace(s)[k] != s[k] <==> VariantAt(s, k))
    ensures forall k :: 0 <= k < |s| && VariantAt(s, k) ==>
      ThreeVariantReplace(s)[k] == (if s[k] == 'y' then 'f' else 'F')
  {
    ThreeVariantReplaceMeaning(s);
    forall k | 0 <= k < |s| ensures (Substituted(s)[k] != s[k] <==> VariantAt(s, k)) &&
      (VariantAt(s, k) ==> Substituted(s)[k] == (if s[k] == 'y' then 'f' else 'F'))
    {
      SubstCharChanges(s, k);
    }
  }

  /** Each occurrence becomes the matching replacement: `Yale` to `Fale`, `yale` to `fale`,
      `YALE` to `FALE`, wherever it stands and whatever surrounds it. */
  lemma EachVariantReplaced(s: string, k: nat)
    ensures MatchAt(s, "Yale", k, false) ==> MatchAt(ThreeVariantReplace(s), "Fale", k, false)
    ensures MatchAt(s, "yale", k, false) ==> MatchAt(ThreeVariantReplace(s), "fale", k, false)
    ensures MatchAt(s, "YALE", k, false) ==> MatchAt(ThreeVariantReplace(s), "FALE", k, false)
  {
    var o := ThreeVariantReplace(s);
    VariantAtMatches(s, k);
    if VariantAt(s, k) {
      VariantRewritten(s, k);
      MatchAt4(s, "Yale", k);
      MatchAt4(s, "yale", k);
      MatchAt4(s, "YALE", k);
      MatchAt4(o, "Fale", k);
      MatchAt4(o, "fale", k);
      MatchAt4(o, "FALE", k);
    }
  }

  /** At a variant the rule rewrites the first letter and keeps the other three. */
  lemma VariantRewritten(s: string, k: nat)
    requires VariantAt(s, k)
    ensures var o := ThreeVariantReplace(s);
      o[k] == (if s[k] == 'y' then 'f' else 'F') &&
      o[k + 1] == s[k + 1] && o[k + 2] == s[k + 2] && o[k + 3] == s[k + 3]
  {
    ThreeVariantReplaceAt(s, k);
    ThreeVariantReplaceAt(s, k + 1);
    ThreeVariantReplaceAt(s, k + 2);
    ThreeVariantReplaceAt(s, k + 3);
    SubstCharChanges(s, k);
    SubstCharChanges(s, k + 1);
    SubstCharChanges(s, k + 2);
    SubstCharChanges(s, k + 3);
  }

  /** Text without an exact variant comes back unchanged; irregular casings such as `YaLe` are
      not variants, so they are left alone. */
  lemma UnchangedWithoutVariant(s: string)
    ensures !HasVariant(s) ==> ThreeVariantReplace(s) == s
  {
    ThreeVariantReplaceMeaning(s);
    if !HasVariant(s) {
      forall k | 0 <= k < |s| ensures Substituted(s)[k] == s[k] {
        SubstCharChanges(s, k);
      }
    }
  }

  /** Applying the rule twice is the same as applying it once. */
  lemma Idempotent(s: string)
    ensures ThreeVariantReplace(ThreeVariantReplace(s)) == ThreeVariantReplace(s)
  {
    NoVariantRemains(s);
    UnchangedWithoutVariant(ThreeVariantReplace(s));
  }

  // ---------------------------------------------------------------------------------------
  // Wrapper with the null guard of `replaceYaleWithFale`

  /** `replaceYaleWithFale(text)`: a falsy `text` (`undefined`, `null`, `""`) is returned as it is;
      any other string goes through the three-variant chain. */
  function ReplaceYaleWithFale(text: Value): (r: Value)
    ensures !Truthy(text) ==> r == text
    ensures text.Str? ==> r.Str? && r.s == Substituted(text.s)
  {
    if !Truthy(text) then text
    else (ThreeVariantReplaceMeaning(text.s); Str(ThreeVariantReplace(text.s)))
  }

  // ---------------------------------------------------------------------------------------
  // Applying the rule to pieces and to the whole

  /** `y` is `x` with the rule applied at some (possibly none, possibly all) of the variant
      occurrences of `x`. */
  predicate PartiallySubstituted(y: string, x: string) {
    |y| == |x| && forall k :: 0 <= k < |x| ==> y[k] == x[k] || y[k] == SubstChar(x, k)
  }

  lemma SubstitutedIsPartial(x: string)
    ensures PartiallySubstituted(x, x) && PartiallySubstituted(Substituted(x), x)
  {
  }

  /** In a partial application, only a `Y` or `y` of the input can have become an `F` or `f`. */
  lemma PartialKeeps(y: string, x: string, i: nat)
    requires PartiallySubstituted(y, x) && i < |x|
    ensures (y[i] != 'F' && y[i] != 'f') || (x[i] != 'Y' && x[i] != 'y') ==> y[i] == x[i]
  {
    SubstCharChanges(x, i);
    assert y[i] == x[i] || y[i] == SubstChar(x, i);
  }

  lemma SubstCharAbsorbs(y: string, x: string, k: nat)
    requires PartiallySubstituted(y, x) && k < |x|
    ensures SubstChar(y, k) == SubstChar(x, k)
  {
    SubstCharChanges(x, k);
    SubstCharChanges(y, k);
    if k + 4 <= |x| {
      PartialKeeps(y, x, k + 1);
      PartialKeeps(y, x, k + 2);
      PartialKeeps(y, x, k + 3);
    }
  }

  /** Applying the rule to some occurrences first does not change the final result: the rule
      absorbs an earlier partial application. */
  lemma SubstitutedAbsorbsPartial(y: string, x: string)
    requires PartiallySubstituted(y, x)
    ensures Substituted(y) == Substituted(x)
  {
    forall k | 0 <= k < |x| ensures SubstChar(y, k) == SubstChar(x, k) {
      SubstCharAbsorbs(y, x, k);
    }
  }

  /** Partial applications on two pieces make a partial application on their concatenation. */
  lemma {:induction false} PartiallySubstitutedConcat(y1: string, x1: string, y2: string, x2: string)
    requires PartiallySubstituted(y1, x1) && PartiallySubstituted(y2, x2)
    ensures PartiallySubstituted(y1 + y2, x1 + x2)
  {
    var x := x1 + x2;
    var y := y1 + y2;
    forall k | 0 <= k < |x| ensures y[k] == x[k] || y[k] == SubstChar(x, k) {
      SubstCharChanges(x, k);
      if k < |x1| {
        SubstCharChanges(x1, k);
      } else {
        SubstCharChanges(x2, k - |x1|);
      }
    }
  }

  // ---------------------------------------------------------------------------------------
  // The style-sheet rule `content.replace(/yale/gi, 'fale')`

  /** Every case-insensitive `yale` becomes lower-case `fale`; the case of the original is lost. */
  function StyleReplace(s: string): (r: string)
    ensures |r| == |s|
  {
    ReplaceAll(s, "yale", "fale", true)
  }

  lemma MatchAtCi4(s: string, p: string, k: nat)
    requires |p| == 4
    ensures MatchAt(s, p, k, true) <==> (k + 4 <= |s| &&
      LowerAscii(s[k]) == LowerAscii(p[0]) && LowerAscii(s[k + 1]) == LowerAscii(p[1]) &&
      LowerAscii(s[k + 2]) == LowerAscii(p[2]) && LowerAscii(s[k + 3]) == LowerAscii(p[3]))
  {
    if MatchAt(s, p, k, true) {
      assert CharMatch(s[k + 0], p[0], true) && CharMatch(s[k + 1], p[1], true);
      assert CharMatch(s[k + 2], p[2], true) && CharMatch(s[k + 3], p[3], true);
    }
    if k + 4 <= |s| && LowerAscii(s[k]) == LowerAscii(p[0]) && LowerAscii(s[k + 1]) == LowerAscii(p[1]) &&
      LowerAscii(s[k + 2]) == LowerAscii(p[2]) && LowerAscii(s[k + 3]) == LowerAscii(p[3])
    {
      forall j | 0 <= j < 4 ensures CharMatch(s[k + j], p[j], true) {
        if j == 0 {} else if j == 1 {} else if j == 2 {} else {}
      }
    }
  }

  lemma YaleNoSelfOverlap()
    ensures NoSelfOverlap("yale", true)
  {
    assert !CharMatch('a', 'y', true) && !CharMatch('l', 'y', true) && !CharMatch('e', 'y', true);
  }

  /** A character of the style rule's output outside every case-insensitive `yale` is the
      input's. */
  lemma StyleUncovered(s: string, i: nat)
    requires i < |s| && !Covered(s, "yale", i, true)
    ensures StyleReplace(s)[i] == s[i]
  {
    YaleNoSelfOverlap();
    ReplaceAllUncovered(s, "yale", "fale", true);
  }

  /** A character inside such an occurrence is a letter of `fale`, so never a `y` or `Y`. */
  lemma StyleCovered(s: string, i: nat, m: nat)
    requires m <= i < m + 4 && MatchAt(s, "yale", m, true)
    ensures LowerAscii(StyleReplace(s)[i]) != 'y'
  {
    YaleNoSelfOverlap();
    ReplaceAllMatched(s, "yale", "fale", true);
    var c := StyleReplace(s)[i];
    assert c == "fale"[i - m];
    assert c == 'f' || c == 'a' || c == 'l' || c == 'e';
  }

  /** A character that reads as a `y` or `Y` after the style rule lies outside every occurrence
      and is the input's. */
  lemma StyleAt(s: string, i: nat)
    requires i < |s|
    ensures LowerAscii(StyleReplace(s)[i]) == 'y' ==> !Covered(s, "yale", i, true) && StyleReplace(s)[i] == s[i]
  {
    if Covered(s, "yale", i, true) {
      var m: nat :| m <= i && i < m + 4 && MatchAt(s, "yale", m, true);
      StyleCovered(s, i, m);
    } else {
      StyleUncovered(s, i);
    }
  }

  /** The first covered character after an uncovered one starts an occurrence, and the style
      rule writes an `f` there. */
  lemma StyleNext(s: string, i: nat)
    requires i + 1 < |s|
    ensures !Covered(s, "yale", i, true) && Covered(s, "yale", i + 1, true) ==>
      StyleReplace(s)[i + 1] == 'f'
  {
    if !Covered(s, "yale", i, true) && Covered(s, "yale", i + 1, true) {
      var m: nat :| m <= i + 1 && i + 1 < m + 4 && MatchAt(s, "yale", m, true);
      assert m <= i ==> Covered(s, "yale", i, true);
      YaleNoSelfOverlap();
      ReplaceAllMatched(s, "yale", "fale", true);
      assert StyleReplace(s)[m + 0] == "fale"[0];
    }
  }

  lemma StyleNoMatchAt(s: string, k: nat)
    ensures !MatchAt(StyleReplace(s), "yale", k, true)
  {
    var o := StyleReplace(s);
    MatchAtCi4(o, "yale", k);
    MatchAtCi4(s, "yale", k);
    if k + 4 <= |s| {
      StyleAt(s, k);
      if !Covered(s, "yale", k + 1, true) {
        StyleUncovered(s, k + 1);
      }
      if !Covered(s, "yale", k + 2, true) {
        StyleUncovered(s, k + 2);
      }
      if !Covered(s, "yale", k + 3, true) {
        StyleUncovered(s, k + 3);
      }
      StyleNext(s, k);
      StyleNext(s, k + 1);
      StyleNext(s, k + 2);
      assert MatchAt(s, "yale", k, true) ==> Covered(s, "yale", k, true);
    }
  }

  /** After the style rule no `yale` in any casing remains (so no `yale-` class name survives),
      each case-insensitive occurrence reads `fale`, and characters outside occurrences are kept. */
  lemma StyleReplaceMeaning(s: string)
    ensures !Occurs(StyleReplace(s), "yale", true)
    ensures forall m: nat :: MatchAt(s, "yale", m, true) ==> MatchAt(StyleReplace(s), "fale", m, false)
    ensures forall k :: 0 <= k < |s| && !Covered(s, "yale", k, true) ==> StyleReplace(s)[k] == s[k]
  {
    var o := StyleReplace(s);
    YaleNoSelfOverlap();
    ReplaceAllMatched(s, "yale", "fale", true);
    ReplaceAllUncovered(s, "yale", "fale", true);
    forall k: nat ensures !MatchAt(o, "yale", k, true) {
      StyleNoMatchAt(s, k);
    }
    forall m: nat | MatchAt(s, "yale", m, true) ensures MatchAt(o, "fale", m, false) {
      forall j | 0 <= j < 4 ensures o[m + j] == "fale"[j] {
      }
    }
  }

  /** The style rule does not keep the case of a capitalised name: `Yale` becomes `fale`, where
      the three-variant rule gives `Fale`. */
  lemma StyleLowersCapital(s: string)
    requires s == "Yale"
    ensures StyleReplace(s) == "fale"
    ensures ThreeVariantReplace(s) == "Fale"
  {
    MatchAtCi4(s, "yale", 0);
    YaleNoSelfOverlap();
    ReplaceAllMatched(s, "yale", "fale", true);
    assert StyleReplace(s)[0] == 'f';
    VariantRewritten(s, 0);
  }
}
