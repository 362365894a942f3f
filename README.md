# Hover reference resolution for Mizar proof text

This project models the hover logic of a Mizar language server
(`server/src/hover.ts`) and proves properties of the model in Dafny.
The hover logic has three parts:

- **Local resolver** (`returnHover`). It resolves a word hovered in the open
  document to the text of a definition block, a theorem statement or a
  labelled step in the same document.
- **Library resolver** (`returnMMLHover`). It resolves a reference such as
  `XBOOLE_0:def 1` to a definition, scheme or theorem in the Mizar
  Mathematical Library. The abstract file it reads is
  `<MIZFILES>/abstr/xboole_0.abs`.
- **Justification tokenizer** (`getWordRange`). It finds the cited token
  under the cursor in the `by …` or `from …(…)` clause of the cursor's line.

The resolvers work only with string-index arithmetic. The model keeps that
arithmetic as written, including JavaScript's conventions:

- `indexOf`, `lastIndexOf` and `search` return -1 when nothing is found, and
  that -1 flows into the sums that compute the span's end.
- `lastIndexOf` clamps its start position into `[0, length]`.
- `slice` counts a negative index back from the end and clamps both indices.
- `RegExp.prototype.test(undefined)` tests the string `"undefined"`.

Files and modules:

- `wrappers.dfy`: `Wrappers`, the `Option` and `Result` types.
- `hover_types.dfy`: `HoverTypes`, the positions, ranges and hover values.
- `js_strings.dfy`: `JsStrings`, the JavaScript string operations as functions.
- `patterns.dfy`: `Patterns`, the fixed regular expressions as hand-written
  scanners. These are `\send\s*;`, `(\sproof|;)`, `;`, `def\s+\d+` and `sch\s+\d+`.
- `local_hover.dfy`: `LocalHover`, the local resolver.
- `library_hover.dfy`: `LibraryHover`, the library resolver. The file system is
  a map from paths to file contents, and the `MIZFILES` root is an `Option`.
- `word_range.dfy`: `WordRange`, the tokenizer. It is a method with a loop, as
  the source is a `do … while` over `regex.exec`.

What the code does at its edges, as the model keeps it:

- A library definition's span ends at the offset of the white space before
  `end` plus `'end;'.length` (4). The span therefore stops right after `end`,
  and the `;` is left out (`LibraryDefinitionHover`).
- A local theorem's span ends one character past the match of `(\sproof|;)`.
  Before `proof` it keeps the one white-space character that precedes it
  (`TheoremHover`).
- A failed search's -1 is not treated as "nothing found": it enters the
  arithmetic of the span's end. A definition without a closing `end;` shows
  `defi` (`DefinitionHover`). A library scheme with no `;` after the reference
  shows text up to one character before the reference (`LibrarySchemeHover`).
  A reference missing from the abstract file searches back from -1, which
  looks at index 0 only, and forward over the last character only
  (`MissingWordHover`).
- The label search starts at the character just before the token. When the
  token starts the document, that position is -1, and `lastIndexOf` clamps it
  to 0. The token itself can then be taken as its own label (`LabelHover`).

## Model

| member | source | states |
|---|---|---|
| `JsStrings.IndexOf` | server/src/hover.ts:41 | `indexOf`: the first index where the pattern occurs; -1 exactly when it does not occur |
| `JsStrings.LastIndexOf` | server/src/hover.ts:54-55 | `lastIndexOf(p, from)`: the last occurrence at or before `from` clamped into `[0, length]`; -1 exactly when there is none at or before `max(from, 0)` |
| `JsStrings.Slice` | server/src/hover.ts:66 | `slice(start, end)`: the substring when both indices are in range; empty when `0 <= end <= start`; a negative start counts back from the end |
| `JsStrings.SliceNegativeEnd` | server/src/hover.ts:136-138 | a negative end counts back from the end: `slice(start, -k)` drops the last `k` characters |
| `JsStrings.SliceFrom` | server/src/hover.ts:44 | `slice(start)` is the suffix from `start` when `start` is in range |
| `JsStrings.ToLowerCase` | server/src/hover.ts:99 | same length; every character is lowered (ASCII letters only) |
| `JsStrings.SplitHead` | server/src/hover.ts:97 | `split(':')[0]` is a prefix free of `:`, followed by `:` or the end of the word |
| `JsStrings.SplitSecond` | server/src/hover.ts:97 | `split(':')[1]` is undefined exactly when there is no `:`; otherwise it is `:`-free and sits right after the first `:`, followed by `:` or the end |
| `Patterns.SkipWhitespace` | server/src/hover.ts:44 | a greedy `\s*` stops at the first non-white-space character, or at the end |
| `Patterns.FirstMatchFrom` | server/src/hover.ts:50 | the first index at or after `k` where the pattern matches, or -1 with no match from `k` on |
| `Patterns.Search` | server/src/hover.ts:58 | `search`: the leftmost match, or -1 when there is none |
| `Patterns.MatchesAt` | server/src/hover.ts:44 | where `\send\s*;`, `(\sproof\|;)` (line 50) and `;` (line 58) match; used by `FirstMatchFrom` and `Search` |
| `Patterns.TestKeywordNumber` | server/src/hover.ts:110 | `def\s+\d+` (and `sch\s+\d+`, line 120) matches somewhere in the word; its consequences are stated by `ClassifyExamples`, `UndefinedHasNoKeyword` and `KeywordNumberLength` |
| `JsStrings.LastIndexOfBeforeStart` | server/src/hover.ts:111-114 | `lastIndexOf(p, -1)` is 0 when `p` opens the string, else -1 |
| `JsStrings.SliceFromLast` | server/src/hover.ts:116 | `slice(-1)` is the last character, or empty |
| `Patterns.SearchFromSlice` | server/src/hover.ts:44 | `s.slice(k).search(p)` is the first match at or after `k` minus `k`, or -1 |
| `Patterns.MatchesAtSuffix` | server/src/hover.ts:50 | a match in `s.slice(k)` at `i` is a match in `s` at `k + i`, and back |
| `LocalHover.DefinitionPattern` | server/src/hover.ts:36 | the text `:w:`; a helper without a contract of its own, stated through `ResolvePriority` and `DefinitionBounds` |
| `LocalHover.TheoremPattern` | server/src/hover.ts:37 | the text `theorem w:`; stated through `ResolvePriority` and `TheoremBounds` |
| `LocalHover.LabelPattern` | server/src/hover.ts:38 | the text `w:`; stated through `ResolvePriority` and `LabelBounds` |
| `LocalHover.Resolve` | server/src/hover.ts:41-64 | the branch taken and its span; its properties are stated by `ResolvePriority` and the `*Bounds` lemmas below |
| `LocalHover.DefinitionSpan` | server/src/hover.ts:42-45 | the definition branch's start and end; stated by `DefinitionBounds` and `DefinitionEnd` |
| `LocalHover.TheoremSpan` | server/src/hover.ts:49-51 | the theorem branch's end; stated by `TheoremBounds` |
| `LocalHover.LabelSpan` | server/src/hover.ts:57-59 | the label branch's end; stated by `LabelBounds` |
| `LocalHover.ResolvePriority` | server/src/hover.ts:41-64 | definition when `:w:` occurs; else theorem when `theorem w:` occurs; else label when `w:` occurs at or before the character before the word; else nothing, each as an if-and-only-if |
| `LocalHover.ReturnHover` | server/src/hover.ts:61-71 | empty contents and no range exactly when nothing is resolved; otherwise one `Mizar` block over the unchanged word range |
| `LocalHover.NothingIffNoPattern` | server/src/hover.ts:41-71 | no hover exactly when none of `:w:`, `theorem w:` and (at or before the character before the word) `w:` occurs |
| `LocalHover.DefinitionBounds` | server/src/hover.ts:41-45 | start is the last `definition` at or before the first `:w:` (or -1); end is start plus the offset of the first `\send\s*;` from start plus 5 |
| `LocalHover.DefinitionEnd` | server/src/hover.ts:43-45 | the end is five past the first `\send\s*;` at or after the `definition`, or four past the start without one; with no `definition` only the last character is searched and nothing matches |
| `LocalHover.DefinitionHover` | server/src/hover.ts:41-45 | the hover is the text from `definition` to 5 past the `\send\s*;` match, ending in `end;` when nothing separates `end` and `;`; `defi` without a closing match; at most the last character without a `definition` |
| `LocalHover.TheoremBounds` | server/src/hover.ts:48-51 | start is the first `theorem w:`; end is one past the first `;` or the white space before `proof` after it, or start when neither follows |
| `LocalHover.TheoremHover` | server/src/hover.ts:48-51 | the hover runs from the first `theorem w:` through the first `;` or the white space before `proof`; it is empty when neither follows |
| `LocalHover.LabelBounds` | server/src/hover.ts:54-59 | start is the last `w:` at or before the character before the word; end is one past the next `;`, or start when none follows |
| `LocalHover.LabelHover` | server/src/hover.ts:54-59 | the hover starts at the nearest `w:` at or before the character before the word (strictly before the word when the word is not at offset 0) and runs through the next `;`; it is empty without a `;` |
| `LibraryHover.FileLabel` | server/src/hover.ts:97 | the first element of `split(':')`; stated by the `JsStrings.SplitHead` row and by `ReadsOnlyTheAbstractFile` |
| `LibraryHover.ReferenceWord` | server/src/hover.ts:97 | the second element of `split(':')`, undefined without a `:`; stated by the `JsStrings.SplitSecond` row |
| `LibraryHover.TestInput` | server/src/hover.ts:110 | what `test` reads: the string `undefined` for an undefined reference; stated through `UndefinedReferenceIsTheorem` |
| `LibraryHover.AbsFilePath` | server/src/hover.ts:93-99 | the path is the root, then `/abstr/`, then as many characters as the file label, then `.abs` |
| `LibraryHover.LibraryBounds` | server/src/hover.ts:107-135 | the bounds for the first occurrence of the word and its kind; stated by `LibraryAnchors`, the `Library*Hover` lemmas and `MissingWordHover` |
| `LibraryHover.KindBounds` | server/src/hover.ts:109-135 | the span has the reference's kind (a theorem for anything else), and its start is -1 or an occurrence of that kind's keyword |
| `LibraryHover.Classify` | server/src/hover.ts:110-128 | a library reference is a definition, scheme or theorem, never a label |
| `LibraryHover.ReturnMMLHover` | server/src/hover.ts:85-103 | no root fails with the `MIZFILES` message; a missing abstract file fails with a read error naming its path; otherwise the extracted hover over the word range |
| `LibraryHover.MissingRootReadsNothing` | server/src/hover.ts:85-92 | without a root the result fails and does not depend on the file system |
| `LibraryHover.ReadsOnlyTheAbstractFile` | server/src/hover.ts:93-100 | the only file consulted is `<root>/abstr/<name>.abs`, where `<name>` is the text before the first `:`, lower-cased, with no `:` and no upper-case letter |
| `LibraryHover.UndefinedReferenceIsTheorem` | server/src/hover.ts:97-128 | a word without `:` has an undefined reference word, which neither test matches: it is taken for a theorem |
| `LibraryHover.UndefinedHasNoKeyword` | server/src/hover.ts:110-120 | neither `def\s+\d+` nor `sch\s+\d+` matches the string `undefined` |
| `LibraryHover.ClassifyExamples` | server/src/hover.ts:110-128 | `def 1` is a definition; `sch 2` is a scheme; `def1` and `12` are theorems |
| `LibraryHover.DefinitionReferenceExample` | server/src/hover.ts:96-110 | `XBOOLE_0:def 1` is read from `<root>/abstr/xboole_0.abs` and classified as a definition |
| `LibraryHover.ExampleSplit` | server/src/hover.ts:97 | `XBOOLE_0:def 1` splits into the file label `XBOOLE_0` and the reference word `def 1` |
| `LibraryHover.LibraryAnchors` | server/src/hover.ts:108-132 | `wordIndex` is the first occurrence of the whole word; start is the nearest keyword of its kind at or before it |
| `LibraryHover.LibraryDefinitionBounds` | server/src/hover.ts:108-118 | a definition reference is longer than five characters; start is the last `definition` at or before the word; end is the first `\send\s*;` at or after the word plus 4, or `wordIndex + 3` without one |
| `LibraryHover.LibraryDefinitionHover` | server/src/hover.ts:108-118 | end is `wordIndex` plus the offset of the first `\send\s*;` plus 4; the hover ends right after `end` and leaves out the `;`; without a `definition` before the reference it is empty |
| `LibraryHover.KeywordNumberLength` | server/src/hover.ts:97-120 | a word whose reference matches `kw\s+\d+` has more than the keyword's length plus 2 characters |
| `LibraryHover.LibrarySchemeHover` | server/src/hover.ts:120-126 | end is `wordIndex` plus the offset of the first `;`; the hover stops before that `;` |
| `LibraryHover.LibraryTheoremHover` | server/src/hover.ts:128-135 | end is `wordIndex` plus the offset of the first `;` plus 1; the hover includes that `;` |
| `LibraryHover.MissingWordBounds` | server/src/hover.ts:107-135 | with `wordIndex` -1, the start is 0 when the file opens with the keyword and -1 otherwise; the end is 2 for a definition, and for a scheme or theorem depends only on whether the last character is `;` |
| `LibraryHover.MissingWordText` | server/src/hover.ts:136-138 | the text shown for a missing reference, per kind: `de` or at most the last character; a file opening with `scheme` minus its last one or two characters; a file opening with `theorem` minus its last character unless that is `;`; else empty |
| `LibraryHover.MissingWordHover` | server/src/hover.ts:107-138 | a reference the abstract file does not contain gets the hover `MissingWordText` gives for its kind |
| `LibraryHover.MissingWordExample` | server/src/hover.ts:107-138 | `A:1` looked up in `theorem X; Y` shows `theorem X; `, the whole file but its last character |
| `LibraryHover.MissingReferenceNumberIsTheorem` | server/src/hover.ts:97-128 | `A:1` has the reference word `1` and is taken for a theorem |
| `LibraryHover.ExtractHover` | server/src/hover.ts:136-139 | the library hover is one `Mizar` block over the unchanged word range |
| `WordRange.FirstEndingAfter` | server/src/hover.ts:172-181 | the chosen token ends past the cursor, and every earlier token ends at or before it; none when no token ends past it |
| `WordRange.WordRangeOf` | server/src/hover.ts:164-181 | none without a clause; a returned range lies on the cursor's line and ends past the cursor |
| `WordRange.GetWordRange` | server/src/hover.ts:152-183 | the loop returns the range of the first token ending past the cursor, on the cursor's line, and undefined without a clause or such a token |
| `WordRange.ChosenTokenIff` | server/src/hover.ts:174 | token `k` is chosen exactly when the cursor is before its end and not before the end of token `k - 1` |
| `WordRange.CursorInsideToken` | server/src/hover.ts:174-179 | a cursor inside a token gets exactly that token's range |
| `WordRange.CursorOutsideClause` | server/src/hover.ts:172-181 | a cursor left of the clause gets the first token; a cursor right of the last token gets undefined |
| `WordRange.ByClauseExample` | server/src/hover.ts:164-179 | in `by A1, A2` with the cursor on `A2`, the range is exactly that of `A2` |

## Left out

- The `vscode-languageserver` types and `TextDocument`. The document is its text.
  The hovered word, the word's start offset (`offsetAt`) and the line's clause
  match are inputs.
- Characters are Dafny characters, not UTF-16 code units. A character outside
  the Basic Multilingual Plane counts as one position, not two.
- `toLowerCase` lowers ASCII letters only.
- `\s` is JavaScript's fixed set of white-space and line-terminator characters.
- `fs.readFile`, the `Promise` and its callback are not modelled. The file
  system is a map from paths to contents, and any read failure is a missing
  path.
- The `showMessage(1, 'error!')` call is left out, since it is a call into the
  host. The missing-root failure carries the text of the rejected `Error`
  (`You have to set environment variable "MIZFILES"`).
- The `process.env.MIZFILES` lookup is left out. The root is a parameter.
- `path.join` is plain concatenation with `/`. Path normalisation is not
  modelled.
- The clause pattern of `getWordRange` (line 164) is not implemented as a
  regular expression. Its first match is an input: a column and a text, or
  none.
- The caller's token pattern is abstracted as the sequence of its matches over
  the clause. The model assumes a fresh global pattern, so `lastIndex` left
  over from an earlier call is not modelled.
- A token pattern that matches the empty string would make the source loop
  forever. The model cannot express it: `WellFormedTokens` states the
  non-empty matches that the lemmas assume.
- The line text extraction (`getText` of one line) is not modelled. The clause
  match is taken as given.
- The caller that chooses between the local and the library resolver is not
  part of this model.
