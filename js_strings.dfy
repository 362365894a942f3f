/**
 * The JavaScript string operations the hover code relies on, over Dafny
 * strings (one position per Unicode scalar value, not per UTF-16 code unit):
 * `indexOf`, `lastIndexOf`, `slice`, `split` and ASCII
 * `toLowerCase`, with JavaScript's -1 results and index clamping.
 */
module JsStrings {
  import opened Wrappers

  /** `p` occurs in `s` starting at index `i`. */
  predicate OccursAt(s: string, p: string, i: int)
  {
    0 <= i && i + |p| <= |s| && s[i..i + |p|] == p
  }

  ghost predicate Contains(s: string, p: string)
  {
    exists i :: OccursAt(s, p, i)
  }

  /** `p` occurs in `s` starting at some index in `[0, k]`. */
  ghost predicate OccursAtOrBefore(s: string, p: string, k: int)
  {
    exists i :: 0 <= i <= k && OccursAt(s, p, i)
  }

  /** `s.indexOf(p)`: the first index at which `p` occurs, or -1. */
  function IndexOf(s: string, p: string): (r: int)
    ensures r == -1 || OccursAt(s, p, r)
    ensures forall i :: 0 <= i < r ==> !OccursAt(s, p, i)
    ensures r == -1 <==> !Contains(s, p)
  {
    IndexOfFrom(s, p, 0)
  }

  /** The first index at or after `k` at which `p` occurs, or -1. */
  function IndexOfFrom(s: string, p: string, k: nat): (r: int)
    ensures r == -1 || (k <= r && OccursAt(s, p, r))
    ensures forall i :: k <= i && (r == -1 || i < r) ==> !OccursAt(s, p, i)
    decreases |s| - k
  {
    if k + |p| > |s| then -1
    else if s[k..k + |p|] == p then k
    else IndexOfFrom(s, p, k + 1)
  }

  /** How `lastIndexOf` and `slice` normalise a position that is not negative-relative: into `[0, len]`. */
  function Clamp(position: int, len: nat): (r: nat)
    ensures r <= len
    ensures 0 <= position <= len ==> r == position
  {
    if position < 0 then 0 else if position > len then len else position
  }

  /** `s.lastIndexOf(p, from)`: the last index at or before `from` (clamped into `[0, |s|]`) at which `p` occurs, or -1. */
  function LastIndexOf(s: string, p: string, from: int): (r: int)
    ensures r == -1 || (r <= Clamp(from, |s|) && OccursAt(s, p, r))
    ensures forall i :: r < i <= Clamp(from, |s|) ==> !OccursAt(s, p, i)
    ensures r == -1 <==> !OccursAtOrBefore(s, p, if from < 0 then 0 else from)
  {
    LastIndexOfAtOrBefore(s, p, Clamp(from, |s|))
  }

  /** `s.lastIndexOf(p, -1)`: the position is clamped to 0, so only index 0 is looked at. */
  lemma LastIndexOfBeforeStart(s: string, p: string)
    ensures LastIndexOf(s, p, -1) == if OccursAt(s, p, 0) then 0 else -1
  {
    if OccursAt(s, p, 0) {
      assert OccursAtOrBefore(s, p, 0);
    }
  }

  /** The scan behind `lastIndexOf`: the last index in `[0, k]` at which `p` occurs, or -1. */
  function LastIndexOfAtOrBefore(s: string, p: string, k: int): (r: int)
    ensures r == -1 || (0 <= r <= k && OccursAt(s, p, r))
    ensures forall i :: r < i <= k ==> !OccursAt(s, p, i)
    decreases k + 1
  {
    if k < 0 then -1
    else if OccursAt(s, p, k) then k
    else LastIndexOfAtOrBefore(s, p, k - 1)
  }

  /** How `slice` normalises an index: a negative one counts back from the end; both are clamped into `[0, len]`. */
  function RelativeIndex(i: int, len: nat): (r: nat)
    ensures r <= len
    ensures 0 <= i <= len ==> r == i
  {
    if i < 0 then (if len + i < 0 then 0 else len + i) else Clamp(i, len)
  }

  /** `s.slice(start, end)`. */
  function Slice(s: string, start: int, end: int): (r: string)
    ensures |r| <= |s|
    ensures 0 <= start <= end <= |s| ==> r == s[start..end]
    ensures 0 <= end <= start ==> r == []
    ensures -|s| <= start < 0 && |s| <= end ==> r == s[|s| + start..]
  {
    var from, to := RelativeIndex(start, |s|), RelativeIndex(end, |s|);
    if from < to then s[from..to] else []
  }

  /** A negative end counts back from the end: `s.slice(start, -k)` drops the last `k` characters. */
  lemma SliceNegativeEnd(s: string, start: nat, k: nat)
    requires 0 < k && start + k <= |s|
    ensures Slice(s, start, -(k as int)) == s[start..|s| - k]
  {
  }

  /** `s.slice(start)`. */
  function SliceFrom(s: string, start: int): (r: string)
    ensures 0 <= start <= |s| ==> r == s[start..]
  {
    Slice(s, start, |s|)
  }

  /** `s.slice(-1)`: the last character, or nothing in an empty string. */
  lemma SliceFromLast(s: string)
    ensures SliceFrom(s, -1) == if |s| == 0 then [] else s[|s| - 1..]
  {
  }

  /** `c.toLowerCase()` for ASCII letters; every other character is kept. */
  function LowerAscii(c: char): char
  {
    if 'A' <= c <= 'Z' then (c as int + 32) as char else c
  }

  function ToLowerCase(s: string): (r: string)
    ensures |r| == |s|
    ensures forall i :: 0 <= i < |s| ==> r[i] == LowerAscii(s[i])
  {
    if s == [] then [] else [LowerAscii(s[0])] + ToLowerCase(s[1..])
  }

  lemma OccursAtSingle(s: string, c: char, i: int)
    ensures OccursAt(s, [c], i) <==> 0 <= i < |s| && s[i] == c
  {
    if 0 <= i < |s| {
      assert s[i..i + 1] == [s[i]];
    }
  }

  /** `s.split(sep)[0]`: the text before the first `sep`, or all of `s`. */
  function SplitHead(s: string, sep: char): (r: string)
    ensures sep !in r
    ensures r <= s
    ensures r == s || s[|r|] == sep
  {
    var i := IndexOf(s, [sep]);
    if i < 0 then
      assert forall j :: 0 <= j < |s| ==> s[j] != sep by {
        forall j | 0 <= j < |s| ensures s[j] != sep { OccursAtSingle(s, sep, j); }
      }
      s
    else
      OccursAtSingle(s, sep, i);
      assert forall j :: 0 <= j < i ==> s[j] != sep by {
        forall j | 0 <= j < i ensures s[j] != sep { OccursAtSingle(s, sep, j); }
      }
      s[..i]
  }

  /** `s.split(sep)[1]`: the text between the first and the second `sep`; `undefined` (None) when `sep` does not occur. */
  function SplitSecond(s: string, sep: char): (r: Option<string>)
    ensures r.None? <==> sep !in s
    ensures r.Some? ==> sep !in r.value && |SplitHead(s, sep)| + 1 + |r.value| <= |s|
    ensures r.Some? ==> var end := |SplitHead(s, sep)| + 1 + |r.value|; end == |s| || s[end] == sep
    ensures r.Some? ==> s[..|SplitHead(s, sep)| + 1 + |r.value|] == SplitHead(s, sep) + [sep] + r.value
  {
    var head := SplitHead(s, sep);
    if head == s then None
    else
      var rest := SplitHead(s[|head| + 1..], sep);
      assert s[..|head| + 1 + |rest|] == head + [sep] + rest by {
        assert s[..|head| + 1] == head + [sep];
        assert s[|head| + 1..][..|rest|] == rest;
      }
      Some(rest)
  }
}
