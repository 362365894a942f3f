/**
 * `getWordRange`: finding the cited token under the cursor in the
 * justification clause (`by A1, A2` or `from S(A1, A2)`) of the cursor's
 * line. The first match of the clause pattern on the line is an input, as
 * is the sequence of matches the caller's global token pattern yields over
 * the clause text, left to right.
 */
module WordRange {
  import opened Wrappers
  import opened HoverTypes

  /** The first match of the clause pattern on the line: its column and its text. */
  datatype ClauseMatch = ClauseMatch(index: nat, text: string)

  /** One match of the token pattern: `[start, end)` relative to the clause text (`match.index`, `lastIndex`). */
  datatype TokenSpan = TokenSpan(start: nat, end: nat)

  /** What a fresh global pattern that never matches the empty string yields: non-empty matches inside the clause, left to right, not overlapping. */
  predicate WellFormedTokens(tokens: seq<TokenSpan>, clauseLength: nat)
  {
    && (forall k :: 0 <= k < |tokens| ==> tokens[k].start < tokens[k].end <= clauseLength)
    && (forall k :: 0 < k < |tokens| ==> tokens[k - 1].end <= tokens[k].start)
  }

  /** The first token, from `from` on, that ends past the cursor column: `character < index + end`. */
  function FirstEndingAfter(tokens: seq<TokenSpan>, index: nat, character: nat, from: nat): (r: Option<nat>)
    requires from <= |tokens|
    ensures r.Some? ==> from <= r.value < |tokens| && character < index + tokens[r.value].end
    ensures forall j :: from <= j < |tokens| && (r.None? || j < r.value) ==> index + tokens[j].end <= character
    decreases |tokens| - from
  {
    if from == |tokens| then None
    else if character < index + tokens[from].end then Some(from)
    else FirstEndingAfter(tokens, index, character, from + 1)
  }

  /** The range of a token on the cursor's line, in line columns. */
  function TokenRange(line: nat, index: nat, token: TokenSpan): Range
  {
    Range(Position(line, index + token.start), Position(line, index + token.end))
  }

  /** The range `getWordRange` returns: none without a clause, else the first token ending past the cursor. */
  function WordRangeOf(position: Position, clause: Option<ClauseMatch>, tokens: seq<TokenSpan>): (r: Option<Range>)
    ensures clause.None? ==> r.None?
    ensures r.Some? ==> r.value.start.line == position.line && r.value.end.line == position.line
    ensures r.Some? ==> position.character < r.value.end.character
  {
    match clause
    case None => None
    case Some(c) =>
      match FirstEndingAfter(tokens, c.index, position.character, 0)
      case None => None
      case Some(k) => Some(TokenRange(position.line, c.index, tokens[k]))
  }

  /** `getWordRange(document, position, regex)`: the `do ... while` loop over `regex.exec` on the clause text. */
  method GetWordRange(position: Position, clause: Option<ClauseMatch>, tokens: seq<TokenSpan>) returns (r: Option<Range>)
    ensures r == WordRangeOf(position, clause, tokens)
  {
    if clause.None? {
      return None;
    }
    var index := clause.value.index;
    var i := 0;
    while i < |tokens|
      invariant i <= |tokens|
      invariant forall j :: 0 <= j < i ==> index + tokens[j].end <= position.character
    {
      var token := tokens[i];
      if position.character < index + token.end {
        return Some(Range(Position(position.line, index + token.start), Position(position.line, index + token.end)));
      }
      i := i + 1;
    }
    return None;
  }

  /** Well-formed tokens end further right the later they come. */
  lemma {:induction false} EndsIncrease(tokens: seq<TokenSpan>, clauseLength: nat, j: nat, k: nat)
    requires WellFormedTokens(tokens, clauseLength)
    requires j < k < |tokens|
    ensures tokens[j].end < tokens[k].end
    decreases k - j
  {
    if j + 1 < k {
      EndsIncrease(tokens, clauseLength, j + 1, k);
    }
    assert tokens[j].end <= tokens[j + 1].start < tokens[j + 1].end;
  }

  /**
   * Only the trailing edge is tested: token `k` is chosen exactly when the
   * cursor lies before its end and not before the end of the token ahead of
   * it, so a cursor in the gap before a token chooses that token.
   */
  lemma ChosenTokenIff(tokens: seq<TokenSpan>, clauseLength: nat, index: nat, character: nat, k: nat)
    requires WellFormedTokens(tokens, clauseLength)
    requires k < |tokens|
    ensures FirstEndingAfter(tokens, index, character, 0) == Some(k)
      <==> character < index + tokens[k].end && (k == 0 || index + tokens[k - 1].end <= character)
  {
    if character < index + tokens[k].end && (k == 0 || index + tokens[k - 1].end <= character) {
      forall j | 0 <= j < k ensures index + tokens[j].end <= character {
        if j < k - 1 {
          EndsIncrease(tokens, clauseLength, j, k - 1);
        }
      }
    }
  }

  /** A cursor inside a cited token gets exactly that token's range. */
  lemma CursorInsideToken(position: Position, clause: ClauseMatch, tokens: seq<TokenSpan>, k: nat)
    requires WellFormedTokens(tokens, |clause.text|)
    requires k < |tokens|
    requires clause.index + tokens[k].start <= position.character < clause.index + tokens[k].end
    ensures WordRangeOf(position, Some(clause), tokens) == Some(TokenRange(position.line, clause.index, tokens[k]))
  {
    ChosenTokenIff(tokens, |clause.text|, clause.index, position.character, k);
  }

  /** A cursor left of the clause gets the clause's first token; one right of the last token gets nothing. */
  lemma CursorOutsideClause(position: Position, clause: ClauseMatch, tokens: seq<TokenSpan>)
    requires WellFormedTokens(tokens, |clause.text|)
    requires tokens != []
    ensures position.character < clause.index
      ==> WordRangeOf(position, Some(clause), tokens) == Some(TokenRange(position.line, clause.index, tokens[0]))
    ensures clause.index + tokens[|tokens| - 1].end <= position.character
      ==> WordRangeOf(position, Some(clause), tokens) == None
  {
    if clause.index + tokens[|tokens| - 1].end <= position.character {
      forall j | 0 <= j < |tokens| - 1 ensures clause.index + tokens[j].end <= position.character {
        EndsIncrease(tokens, |clause.text|, j, |tokens| - 1);
      }
    }
  }

  /** On `by A1, A2;` with the cursor on `A2`, the range is that of `A2`, not `A1` nor the `;`. */
  lemma ByClauseExample(line: nat)
    ensures var clause := ClauseMatch(3, "by A1, A2");
      var tokens := [TokenSpan(0, 2), TokenSpan(3, 5), TokenSpan(7, 9)];
      WordRangeOf(Position(line, 11), Some(clause), tokens) == Some(Range(Position(line, 10), Position(line, 12)))
  {
    var tokens := [TokenSpan(0, 2), TokenSpan(3, 5), TokenSpan(7, 9)];
    CursorInsideToken(Position(line, 11), ClauseMatch(3, "by A1, A2"), tokens, 2);
  }
}
