/**
 * `returnHover`: resolving a word hovered in the open Mizar document to the
 * definition block, theorem statement or labelled step it refers to, in the
 * same document. The document is its text; the hovered word and the offset
 * of its first character are inputs (the host computes them from the range).
 */
module LocalHover {
  import opened Wrappers
  import opened HoverTypes
  import opened JsStrings
  import opened Patterns

  /** `":" + w + ":"`: how a definition names its defining clause. */
  function DefinitionPattern(w: string): string
  {
    ":" + w + ":"
  }

  /** `"theorem " + w + ":"`: a labelled theorem. */
  function TheoremPattern(w: string): string
  {
    "theorem " + w + ":"
  }

  /** `w + ":"`: a labelled step. */
  function LabelPattern(w: string): string
  {
    w + ":"
  }

  /** Where `lastIndexOf(labelPattern, wordStart - 1)` searches back from: the character before the word, clamped at 0. */
  function LabelSearchLimit(wordStart: nat): nat
  {
    if wordStart == 0 then 0 else wordStart - 1
  }

  /**
   * The branch `returnHover` takes and the `[start, end)` it computes: the
   * definition pattern is tried first, then the theorem pattern, then the
   * label pattern searched backwards from just before the word.
   */
  function Resolve(text: string, w: string, wordStart: nat): Option<Span>
  {
    var d := IndexOf(text, DefinitionPattern(w));
    if d > -1 then Some(DefinitionSpan(text, d))
    else
      var t := IndexOf(text, TheoremPattern(w));
      if t > -1 then Some(TheoremSpan(text, t))
      else
        var l := LastIndexOf(text, LabelPattern(w), wordStart - 1);
        if l > -1 then Some(LabelSpan(text, l)) else None
  }

  /** From the last `definition` at or before `d` to the first `\send\s*;` after it plus `"\nend;".length`. */
  function DefinitionSpan(text: string, d: nat): Span
  {
    var start := LastIndexOf(text, "definition", d);
    Span(Definition, start, start + Search(SliceFrom(text, start), EndSemicolon) + |"\nend;"|)
  }

  /** From `t` to the first `;` or white-space-before-`proof` after it plus `"\n".length`. */
  function TheoremSpan(text: string, t: nat): Span
  {
    Span(Theorem, t, t + Search(SliceFrom(text, t), ProofOrSemicolon) + |"\n"|)
  }

  /** From `l` to the first `;` after it plus `";".length`. */
  function LabelSpan(text: string, l: nat): Span
  {
    Span(Label, l, l + Search(SliceFrom(text, l), Semicolon) + |";"|)
  }

  /**
   * `returnHover(document, wordRange)`: nothing when no pattern matches;
   * otherwise `text.slice(start, end)` shown over the hovered word's range.
   */
  function ReturnHover(text: string, w: string, wordStart: nat, wordRange: Range): (h: Hover)
    ensures h == Nothing <==> Resolve(text, w, wordStart).None?
    ensures h != Nothing ==> h.range == Some(wordRange) && |h.contents| == 1 && h.contents[0].language == Language
  {
    match Resolve(text, w, wordStart)
    case None => Nothing
    case Some(span) => Shown(Slice(text, span.start, span.end), wordRange)
  }

  /**
   * The order of the tests: a definition whenever `:w:` occurs; a theorem
   * when only `theorem w:` does; a label when neither does and `w:` occurs
   * at or before the character preceding the word; otherwise nothing.
   */
  lemma ResolvePriority(text: string, w: string, wordStart: nat)
    ensures var r := Resolve(text, w, wordStart);
      && (r.Some? && r.value.kind == Definition <==> Contains(text, DefinitionPattern(w)))
      && (r.Some? && r.value.kind == Theorem
          <==> !Contains(text, DefinitionPattern(w)) && Contains(text, TheoremPattern(w)))
      && (r.Some? && r.value.kind == Label
          <==> !Contains(text, DefinitionPattern(w)) && !Contains(text, TheoremPattern(w))
               && OccursAtOrBefore(text, LabelPattern(w), LabelSearchLimit(wordStart)))
  {
  }

  /** No hover is shown exactly when none of the three patterns matches. */
  lemma NothingIffNoPattern(text: string, w: string, wordStart: nat, wordRange: Range)
    ensures ReturnHover(text, w, wordStart, wordRange) == Nothing
      <==> !Contains(text, DefinitionPattern(w)) && !Contains(text, TheoremPattern(w))
           && !OccursAtOrBefore(text, LabelPattern(w), LabelSearchLimit(wordStart))
  {
    ResolvePriority(text, w, wordStart);
  }

  /**
   * The bounds of a definition reference: `start` is the last `definition`
   * at or before the first `:w:` (or -1), `m` the first `\send\s*;` match at
   * or after `start` (or -1), and the end is `start + search + 5`.
   */
  lemma DefinitionBounds(text: string, w: string, wordStart: nat) returns (d: nat, start: int, m: int)
    requires Contains(text, DefinitionPattern(w))
    ensures OccursAt(text, DefinitionPattern(w), d)
    ensures forall i :: 0 <= i < d ==> !OccursAt(text, DefinitionPattern(w), i)
    ensures start == -1 || (start <= d && OccursAt(text, "definition", start))
    ensures forall i :: start < i <= d ==> !OccursAt(text, "definition", i)
    ensures m == -1 || (0 <= start <= m && MatchesAt(text, EndSemicolon, m))
    ensures start >= 0 ==> forall j: nat :: start <= j && (m == -1 || j < m) ==> !MatchesAt(text, EndSemicolon, j)
    ensures Resolve(text, w, wordStart) == Some(Span(Definition, start, if m == -1 then start + 4 else m + 5))
  {
    d, start := DefinitionAnchors(text, w);
    assert Resolve(text, w, wordStart) == Some(DefinitionSpan(text, d));
    m := DefinitionEnd(text, start);
  }

  /** The first `:w:` and the last `definition` at or before it. */
  lemma DefinitionAnchors(text: string, w: string) returns (d: nat, start: int)
    requires Contains(text, DefinitionPattern(w))
    ensures d == IndexOf(text, DefinitionPattern(w)) && start == LastIndexOf(text, "definition", d)
    ensures OccursAt(text, DefinitionPattern(w), d)
    ensures forall i :: 0 <= i < d ==> !OccursAt(text, DefinitionPattern(w), i)
    ensures start == -1 || (start <= d && OccursAt(text, "definition", start))
    ensures forall i :: start < i <= d ==> !OccursAt(text, "definition", i)
  {
    d := IndexOf(text, DefinitionPattern(w));
    start := LastIndexOf(text, "definition", d);
  }

  /**
   * Where the search for `\send\s*;` from a `definition` lands: `m` is the
   * first match at or after `start`, or -1. With no `definition` (`start`
   * is -1) only the last character is searched, which is too short to match.
   */
  lemma DefinitionEnd(text: string, start: int) returns (m: int)
    requires start == -1 || (0 <= start && OccursAt(text, "definition", start))
    ensures m == -1 || (0 <= start <= m && MatchesAt(text, EndSemicolon, m))
    ensures start >= 0 ==> forall j: nat :: start <= j && (m == -1 || j < m) ==> !MatchesAt(text, EndSemicolon, j)
    ensures start + Search(SliceFrom(text, start), EndSemicolon) + |"\nend;"| == if m == -1 then start + 4 else m + 5
  {
    if start >= 0 {
      m := FirstMatchFrom(text, EndSemicolon, start);
      SearchFromSlice(text, EndSemicolon, start);
    } else {
      m := -1;
      assert |SliceFrom(text, start)| <= 1;
    }
  }

  /**
   * A definition reference: the hover starts at the last `definition` at or
   * before the first `:w:` and runs to the first `\send\s*;` after it, plus
   * five characters, which is exactly `end;` when nothing separates `end`
   * from `;`. Without an `end;` after it the -1 of `search` leaves the first
   * four characters `defi`; without a `definition` before it the search runs
   * over the last character only and at most that character is shown.
   */
  lemma DefinitionHover(text: string, w: string, wordStart: nat, wordRange: Range) returns (start: int, m: int)
    requires Contains(text, DefinitionPattern(w))
    ensures start == -1 || (start <= IndexOf(text, DefinitionPattern(w)) && OccursAt(text, "definition", start))
    ensures forall i :: start < i <= IndexOf(text, DefinitionPattern(w)) ==> !OccursAt(text, "definition", i)
    ensures m == -1 || (0 <= start <= m && MatchesAt(text, EndSemicolon, m))
    ensures start >= 0 ==> forall j: nat :: start <= j && (m == -1 || j < m) ==> !MatchesAt(text, EndSemicolon, j)
    ensures start >= 0 && m >= 0 ==> ReturnHover(text, w, wordStart, wordRange) == Shown(text[start..m + 5], wordRange)
    ensures start >= 0 && m >= 0 && text[m + 4] == ';'
      ==> ReturnHover(text, w, wordStart, wordRange) == Shown(text[start..m + 1] + "end;", wordRange)
    ensures start >= 0 && m == -1 ==> ReturnHover(text, w, wordStart, wordRange) == Shown("defi", wordRange)
    ensures start == -1
      ==> ReturnHover(text, w, wordStart, wordRange) == Shown(if |text| <= 3 then text[|text| - 1..] else "", wordRange)
  {
    var d;
    d, start, m := DefinitionBounds(text, w, wordStart);
    assert ReturnHover(text, w, wordStart, wordRange)
        == Shown(Slice(text, start, if m == -1 then start + 4 else m + 5), wordRange);
    DefinitionText(text, start, m);
  }

  /** The text that `slice` cuts out of the bounds `DefinitionBounds` describes. */
  lemma DefinitionText(text: string, start: int, m: int)
    requires |text| >= 2
    requires start == -1 || OccursAt(text, "definition", start)
    requires m == -1 || (0 <= start <= m && MatchesAt(text, EndSemicolon, m))
    ensures var v := Slice(text, start, if m == -1 then start + 4 else m + 5);
      && (start >= 0 && m >= 0 ==> v == text[start..m + 5])
      && (start >= 0 && m >= 0 && text[m + 4] == ';' ==> v == text[start..m + 1] + "end;")
      && (start >= 0 && m == -1 ==> v == "defi")
      && (start == -1 ==> v == if |text| <= 3 then text[|text| - 1..] else "")
  {
    if start >= 0 && m >= 0 {
      EndSemicolonText(text, start, m);
    } else if start >= 0 {
      assert text[start..start + 10] == "definition";
      assert text[start..start + 4] == text[start..start + 10][..4];
      assert "definition"[..4] == "defi";
    }
  }

  lemma EndSemicolonText(text: string, start: nat, m: nat)
    requires start <= m && MatchesAt(text, EndSemicolon, m)
    ensures m + 5 <= |text|
    ensures text[m + 4] == ';' ==> text[start..m + 5] == text[start..m + 1] + "end;"
  {
    var k := SkipWhitespace(text, m + 4);
    assert m + 4 <= k < |text|;
    if text[m + 4] == ';' {
      assert text[m + 1..m + 4] == "end";
      assert text[start..m + 5] == text[start..m + 1] + text[m + 1..m + 4] + [text[m + 4]];
    }
  }

  /**
   * The bounds of a theorem reference: `t` is the first `theorem w:`, `m` the
   * first `;` or white-space-before-`proof` at or after it (or -1), and the
   * end is `t + search + 1`.
   */
  lemma TheoremBounds(text: string, w: string, wordStart: nat) returns (t: nat, m: int)
    requires !Contains(text, DefinitionPattern(w)) && Contains(text, TheoremPattern(w))
    ensures OccursAt(text, TheoremPattern(w), t)
    ensures forall i :: 0 <= i < t ==> !OccursAt(text, TheoremPattern(w), i)
    ensures m == -1 || (t <= m < |text| && MatchesAt(text, ProofOrSemicolon, m))
    ensures forall j: nat :: t <= j && (m == -1 || j < m) ==> !MatchesAt(text, ProofOrSemicolon, j)
    ensures Resolve(text, w, wordStart) == Some(Span(Theorem, t, if m == -1 then t else m + 1))
  {
    assert IndexOf(text, DefinitionPattern(w)) == -1;
    t := IndexOf(text, TheoremPattern(w));
    assert Resolve(text, w, wordStart) == Some(TheoremSpan(text, t));
    m := FirstMatchFrom(text, ProofOrSemicolon, t);
    SearchFromSlice(text, ProofOrSemicolon, t);
  }

  /**
   * A theorem reference: the hover starts at the first `theorem w:` and ends
   * one character after the first `;` or white-space-before-`proof` that
   * follows, so it keeps the `;`, or the single white-space character before
   * `proof`. With neither after it, it is empty.
   */
  lemma TheoremHover(text: string, w: string, wordStart: nat, wordRange: Range) returns (t: nat, m: int)
    requires !Contains(text, DefinitionPattern(w)) && Contains(text, TheoremPattern(w))
    ensures OccursAt(text, TheoremPattern(w), t)
    ensures forall i :: 0 <= i < t ==> !OccursAt(text, TheoremPattern(w), i)
    ensures m == -1 || (t <= m < |text| && MatchesAt(text, ProofOrSemicolon, m))
    ensures forall j: nat :: t <= j && (m == -1 || j < m) ==> !MatchesAt(text, ProofOrSemicolon, j)
    ensures m >= 0 ==> text[m] == ';' || (IsWhitespace(text[m]) && OccursAt(text, "proof", m + 1))
    ensures ReturnHover(text, w, wordStart, wordRange) == Shown(if m == -1 then "" else text[t..m + 1], wordRange)
  {
    t, m := TheoremBounds(text, w, wordStart);
    assert ReturnHover(text, w, wordStart, wordRange) == Shown(Slice(text, t, if m == -1 then t else m + 1), wordRange);
  }

  /**
   * The bounds of a label reference: `l` is the nearest `w:` at or before the
   * character preceding the word, `m` the first `;` at or after it (or -1),
   * and the end is `l + search + 1`.
   */
  lemma LabelBounds(text: string, w: string, wordStart: nat) returns (l: nat, m: int)
    requires !Contains(text, DefinitionPattern(w)) && !Contains(text, TheoremPattern(w))
    requires OccursAtOrBefore(text, LabelPattern(w), LabelSearchLimit(wordStart))
    ensures OccursAt(text, LabelPattern(w), l) && l <= LabelSearchLimit(wordStart)
    ensures forall i :: l < i <= LabelSearchLimit(wordStart) ==> !OccursAt(text, LabelPattern(w), i)
    ensures m == -1 || (l <= m < |text| && text[m] == ';')
    ensures forall j :: l <= j < |text| && (m == -1 || j < m) ==> text[j] != ';'
    ensures Resolve(text, w, wordStart) == Some(Span(Label, l, if m == -1 then l else m + 1))
  {
    assert IndexOf(text, DefinitionPattern(w)) == -1 && IndexOf(text, TheoremPattern(w)) == -1;
    l := LastIndexOf(text, LabelPattern(w), wordStart - 1);
    assert Resolve(text, w, wordStart) == Some(LabelSpan(text, l));
    m := FirstMatchFrom(text, Semicolon, l);
    SearchFromSlice(text, Semicolon, l);
    forall j | l <= j < |text| && (m == -1 || j < m) ensures text[j] != ';' {
      assert !MatchesAt(text, Semicolon, j);
    }
  }

  /**
   * A label reference: among the occurrences of `w:` that start at or before
   * the character preceding the word, the hover starts at the nearest one,
   * never at the word itself unless the word opens the document, and runs to
   * the next `;`, included. With no `;` after it, it is empty.
   */
  lemma LabelHover(text: string, w: string, wordStart: nat, wordRange: Range) returns (l: nat, m: int)
    requires !Contains(text, DefinitionPattern(w)) && !Contains(text, TheoremPattern(w))
    requires OccursAtOrBefore(text, LabelPattern(w), LabelSearchLimit(wordStart))
    ensures OccursAt(text, LabelPattern(w), l) && l <= LabelSearchLimit(wordStart)
    ensures forall i :: l < i <= LabelSearchLimit(wordStart) ==> !OccursAt(text, LabelPattern(w), i)
    ensures 0 < wordStart ==> l < wordStart
    ensures m == -1 || (l <= m < |text| && text[m] == ';')
    ensures forall j :: l <= j < |text| && (m == -1 || j < m) ==> text[j] != ';'
    ensures ReturnHover(text, w, wordStart, wordRange) == Shown(if m == -1 then "" else text[l..m + 1], wordRange)
  {
    l, m := LabelBounds(text, w, wordStart);
    assert ReturnHover(text, w, wordStart, wordRange) == Shown(Slice(text, l, if m == -1 then l else m + 1), wordRange);
  }
}
