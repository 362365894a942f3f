/**
 * The fixed regular expressions of the hover code, written out as scanners:
 * `/\send\s*;/`, `/(\sproof|;)/`, `/;/` for `search`, and `/def\s+\d+/`,
 * `/sch\s+\d+/` for `test`. `\s` is JavaScript's set of white-space and
 * line-terminator characters, `\d` the ASCII digits.
 */
module Patterns {
  import opened JsStrings

  /** A character that JavaScript's `\s` matches. */
  predicate IsWhitespace(c: char)
  {
    c == ' ' || c == '\t' || c == '\n' || c == '\r' || c == '\U{000B}' || c == '\U{000C}'
    || c == '\U{00A0}' || c == '\U{1680}' || ('\U{2000}' <= c <= '\U{200A}')
    || c == '\U{2028}' || c == '\U{2029}' || c == '\U{202F}' || c == '\U{205F}'
    || c == '\U{3000}' || c == '\U{FEFF}'
  }

  predicate IsDigit(c: char)
  {
    '0' <= c <= '9'
  }

  /** Where a greedy `\s*` that starts at `k` stops: the first non-white-space index at or after `k`, or `|s|`. */
  function SkipWhitespace(s: string, k: nat): (r: nat)
    requires k <= |s|
    ensures k <= r <= |s|
    ensures forall j :: k <= j < r ==> IsWhitespace(s[j])
    ensures r < |s| ==> !IsWhitespace(s[r])
    decreases |s| - k
  {
    if k < |s| && IsWhitespace(s[k]) then SkipWhitespace(s, k + 1) else k
  }

  /** The patterns handed to `String.prototype.search`. */
  datatype Pattern =
    | EndSemicolon      // /\send\s*;/
    | ProofOrSemicolon  // /(\sproof|;)/
    | Semicolon         // /;/

  /**
   * A match of `pat` starts at `i`. For `\send\s*;` the greedy `\s*` can only
   * be followed by `;` at the first non-white-space character, so no other
   * way of matching exists.
   */
  predicate MatchesAt(s: string, pat: Pattern, i: nat)
  {
    match pat
    case EndSemicolon =>
      i + 4 <= |s| && IsWhitespace(s[i]) && s[i + 1..i + 4] == "end"
      && var k := SkipWhitespace(s, i + 4); k < |s| && s[k] == ';'
    case ProofOrSemicolon =>
      i < |s| && (s[i] == ';' || (i + 6 <= |s| && IsWhitespace(s[i]) && s[i + 1..i + 6] == "proof"))
    case Semicolon =>
      i < |s| && s[i] == ';'
  }

  /** The first index at or after `k` where a match of `pat` starts, or -1. */
  function FirstMatchFrom(s: string, pat: Pattern, k: nat): (r: int)
    ensures r == -1 || (k <= r < |s| && MatchesAt(s, pat, r))
    ensures forall j: nat :: k <= j && (r == -1 || j < r) ==> !MatchesAt(s, pat, j)
    decreases |s| - k
  {
    if k >= |s| then -1
    else if MatchesAt(s, pat, k) then k
    else FirstMatchFrom(s, pat, k + 1)
  }

  /** `s.search(pat)`: the index of the leftmost match, or -1. */
  function Search(s: string, pat: Pattern): (r: int)
    ensures r == -1 || (0 <= r < |s| && MatchesAt(s, pat, r))
    ensures forall j: nat :: r == -1 || j < r ==> !MatchesAt(s, pat, j)
  {
    FirstMatchFrom(s, pat, 0)
  }

  lemma {:induction false} SkipWhitespaceSuffix(s: string, k: nat, j: nat)
    requires k + j <= |s|
    ensures SkipWhitespace(s[k..], j) == SkipWhitespace(s, k + j) - k
    decreases |s| - k - j
  {
    if k + j < |s| && IsWhitespace(s[k + j]) {
      SkipWhitespaceSuffix(s, k, j + 1);
    }
  }

  /** Matching is unaffected by dropping a prefix of the text: a match in `s[k..]` at `i` is a match in `s` at `k + i`. */
  lemma MatchesAtSuffix(s: string, pat: Pattern, k: nat, i: nat)
    requires k <= |s|
    ensures MatchesAt(s[k..], pat, i) <==> MatchesAt(s, pat, k + i)
  {
    if pat == EndSemicolon && k + i + 4 <= |s| {
      SkipWhitespaceSuffix(s, k, i + 4);
      assert s[k..][i + 1..i + 4] == s[k + i + 1..k + i + 4];
    } else if pat == ProofOrSemicolon && k + i + 6 <= |s| {
      assert s[k..][i + 1..i + 6] == s[k + i + 1..k + i + 6];
    }
  }

  lemma {:induction false} FirstMatchSuffix(s: string, pat: Pattern, k: nat, j: nat)
    requires k + j <= |s|
    ensures FirstMatchFrom(s[k..], pat, j) == (var m := FirstMatchFrom(s, pat, k + j); if m < 0 then -1 else m - k)
    decreases |s| - k - j
  {
    if k + j < |s| {
      MatchesAtSuffix(s, pat, k, j);
      if !MatchesAt(s, pat, k + j) {
        FirstMatchSuffix(s, pat, k, j + 1);
      }
    }
  }

  /**
   * `s.slice(k).search(pat)`, the idiom of the hover code, finds the first
   * match in `s` at or after `k`, as an offset from `k`; -1 when there is none.
   */
  lemma SearchFromSlice(s: string, pat: Pattern, k: nat)
    requires k <= |s|
    ensures var m := FirstMatchFrom(s, pat, k);
      Search(SliceFrom(s, k), pat) == if m < 0 then -1 else m - k
  {
    FirstMatchSuffix(s, pat, k, 0);
  }

  /** A match of `kw\s+\d+` starts at `i` of `w`. */
  predicate KeywordNumberAt(w: string, kw: string, i: nat)
  {
    i + |kw| < |w| && w[i..i + |kw|] == kw && IsWhitespace(w[i + |kw|])
    && var k := SkipWhitespace(w, i + |kw|); k < |w| && IsDigit(w[k])
  }

  /** `/kw\s+\d+/.test(w)`. */
  predicate TestKeywordNumber(w: string, kw: string)
  {
    exists i: nat :: i < |w| && KeywordNumberAt(w, kw, i)
  }
}
