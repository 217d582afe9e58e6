/** JavaScript values and string helpers shared by the server and the client models. */
module Strings {

  /** A value the source reads from a request body or passes around as "a string or nothing":
      `undefined`, `null` or a string. Other JSON types are not part of this model. */
  datatype Value = Undefined | Null | Str(s: string)

  /** JavaScript truthiness restricted to `Value`: only non-empty strings are truthy. */
  predicate Truthy(v: Value) {
    v.Str? && v.s != ""
  }

  datatype Option<T> = None | Some(value: T)

  /** ASCII lower-casing. For patterns made of ASCII characters this is exactly the folding
      that a JavaScript regular expression with the `i` flag (and no `u` flag) applies. */
  function LowerAscii(c: char): (r: char)
    ensures 'A' <= c <= 'Z' ==> 'a' <= r <= 'z'
    ensures !('A' <= c <= 'Z') ==> r == c
  {
    if 'A' <= c <= 'Z' then (c as int + 32) as char else c
  }

  function Lower(s: string): (r: string)
    ensures |r| == |s|
    ensures forall k :: 0 <= k < |s| ==> r[k] == LowerAscii(s[k])
  {
    seq(|s|, k requires 0 <= k < |s| => LowerAscii(s[k]))
  }

  /** Character comparison of a regular expression: exact, or ASCII case-insensitive. */
  predicate CharMatch(a: char, b: char, ci: bool) {
    if ci then LowerAscii(a) == LowerAscii(b) else a == b
  }

  /** The literal pattern `p` occurs in `s` at index `k`. */
  predicate MatchAt(s: string, p: string, k: nat, ci: bool) {
    k + |p| <= |s| && forall j :: 0 <= j < |p| ==> CharMatch(s[k + j], p[j], ci)
  }

  predicate Occurs(s: string, p: string, ci: bool) {
    exists k: nat | k <= |s| :: MatchAt(s, p, k, ci)
  }

  predicate StartsWith(s: string, prefix: string) {
    |prefix| <= |s| && s[..|prefix|] == prefix
  }

  /** Matches inside a suffix are matches of the whole string, shifted. */
  lemma MatchAtDrop(s: string, d: nat, p: string, m: nat, ci: bool)
    requires d <= |s|
    ensures MatchAt(s[d..], p, m, ci) <==> MatchAt(s, p, m + d, ci)
  {
    if MatchAt(s, p, m + d, ci) {
      forall j | 0 <= j < |p| ensures CharMatch(s[d..][m + j], p[j], ci) {
        assert s[d..][m + j] == s[m + d + j];
      }
    }
  }

  /** The same, with the shifted position given. */
  lemma MatchAtDropTo(s: string, d: nat, p: string, m: nat, n: nat, ci: bool)
    requires d <= |s| && n == m + d
    ensures MatchAt(s[d..], p, m, ci) <==> MatchAt(s, p, n, ci)
  {
    MatchAtDrop(s, d, p, m, ci);
  }

  /** Matches inside a window `s[a..b]` are matches of the whole string, shifted. */
  lemma MatchAtSlice(s: string, a: nat, b: nat, p: string, m: nat, ci: bool)
    requires a <= b <= |s|
    ensures MatchAt(s[a..b], p, m, ci) ==> MatchAt(s, p, m + a, ci)
    ensures MatchAt(s, p, m + a, ci) && m + a + |p| <= b ==> MatchAt(s[a..b], p, m, ci)
  {
    if MatchAt(s, p, m + a, ci) && m + a + |p| <= b {
      forall j | 0 <= j < |p| ensures CharMatch(s[a..b][m + j], p[j], ci) {
        assert s[a..b][m + j] == s[m + a + j];
      }
    }
  }

  /** The index of the first `c` in `s`, or `|s|` when there is none (`indexOf` with `-1` read as `|s|`). */
  function IndexOf(s: string, c: char): (r: nat)
    ensures r <= |s|
    ensures r < |s| ==> s[r] == c
    ensures forall j :: 0 <= j < r ==> s[j] != c
  {
    if s == [] then 0
    else if s[0] == c then 0
    else 1 + IndexOf(s[1..], c)
  }
}
