/** The values exchanged with the language-server host, reduced to what the hover code reads and builds. */
module HoverTypes {
  import opened Wrappers

  /** Zero-based line and UTF-16 column, as in the Language Server Protocol. */
  datatype Position = Position(line: nat, character: nat)

  datatype Range = Range(start: Position, end: Position)

  /** A code block shown in the hover: a language tag and the text to highlight. */
  datatype MarkedString = MarkedString(language: string, value: string)

  /** `contents` is empty and `range` absent when nothing is shown. */
  datatype Hover = Hover(contents: seq<MarkedString>, range: Option<Range>)

  /** What a hovered reference denotes. */
  datatype ReferenceKind = Definition | Theorem | Label | Scheme

  /** The `[start, end)` pair of JavaScript numbers that a resolver hands to `slice`, with the branch that produced it. */
  datatype Span = Span(kind: ReferenceKind, start: int, end: int)

  /** The language tag of every hover the resolvers produce. */
  const Language: string := "Mizar"

  /** The hover that shows `value` over the hovered word's range. */
  function Shown(value: string, wordRange: Range): Hover
  {
    Hover([MarkedString(Language, value)], Some(wordRange))
  }

  /** The hover with nothing to show. */
  const Nothing: Hover := Hover([], None)
}
