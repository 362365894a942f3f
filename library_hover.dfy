/**
 * `returnMMLHover`: resolving a reference into the Mizar Mathematical
 * Library, written `FILE:def N`, `FILE:sch N` or `FILE:N`, to the definition,
 * scheme or theorem it names in the abstract file `FILE`. The library root
 * (the `MIZFILES` environment variable) is an optional input; the file system
 * is a map from paths to file contents.
 */
module LibraryHover {
  import opened Wrappers
  import opened HoverTypes
  import opened JsStrings
  import opened Patterns

  /** The library's sub-directory of abstract files. */
  const Abstr: string := "abstr"

  /** The rejection when the library root is not set. */
  const MissingRootMessage: string := "You have to set environment variable \"MIZFILES\""

  datatype LibraryError =
    | MissingConfiguration(message: string)  // no library root
    | ReadError(path: string)                // the abstract file could not be read

  /** The text before the first `:`, the library file's label. */
  function FileLabel(hoveredWord: string): string
  {
    SplitHead(hoveredWord, ':')
  }

  /** The text between the first and the second `:`; `undefined` without a `:`. */
  function ReferenceWord(hoveredWord: string): Option<string>
  {
    SplitSecond(hoveredWord, ':')
  }

  /** What `RegExp.prototype.test` reads: `undefined` is converted to the string "undefined". */
  function TestInput(referenceWord: Option<string>): string
  {
    match referenceWord
    case None => "undefined"
    case Some(s) => s
  }

  /** `def\s+\d+` in the reference word makes a definition, else `sch\s+\d+` a scheme, else a theorem. */
  function Classify(referenceWord: Option<string>): (k: ReferenceKind)
    ensures k != Label
  {
    var tested := TestInput(referenceWord);
    if TestKeywordNumber(tested, "def") then Definition
    else if TestKeywordNumber(tested, "sch") then Scheme
    else Theorem
  }

  /** `path.join(root, "abstr", label.toLowerCase() + ".abs")`, without path normalisation. */
  function AbsFilePath(root: string, hoveredWord: string): (path: string)
    ensures |path| == |root| + 7 + |FileLabel(hoveredWord)| + 4
    ensures path[..|root|] == root && path[|root|..|root| + 7] == "/abstr/" && path[|path| - 4..] == ".abs"
  {
    root + "/" + Abstr + "/" + ToLowerCase(FileLabel(hoveredWord)) + ".abs"
  }

  /** The keyword a construct of kind `k` opens with in an abstract file. */
  function Keyword(k: ReferenceKind): string
  {
    match k
    case Definition => "definition"
    case Scheme => "scheme"
    case _ => "theorem"
  }

  /**
   * The bounds computed once the file is read: `wordIndex` is the first
   * occurrence of the whole hovered word, the start the last keyword of its
   * kind at or before it, the end `wordIndex` plus the offset of the first
   * `\send\s*;` plus 4 (definition), of the first `;` (scheme), or of the first
   * `;` plus 1 (theorem).
   */
  function LibraryBounds(text: string, hoveredWord: string): Span
  {
    KindBounds(text, IndexOf(text, hoveredWord), Classify(ReferenceWord(hoveredWord)))
  }

  /** The bounds for a reference of kind `kind` found at `wordIndex`. */
  function KindBounds(text: string, wordIndex: int, kind: ReferenceKind): (b: Span)
    ensures b.kind == if kind == Label then Theorem else kind
    ensures b.start == -1 || (0 <= b.start && OccursAt(text, Keyword(kind), b.start))
  {
    var start := LastIndexOf(text, Keyword(kind), wordIndex);
    match kind
    case Definition =>
      Span(Definition, start, wordIndex + Search(SliceFrom(text, wordIndex), EndSemicolon) + |"end;"|)
    case Scheme =>
      Span(Scheme, start, wordIndex + Search(SliceFrom(text, wordIndex), Semicolon))
    case _ =>
      Span(Theorem, start, wordIndex + Search(SliceFrom(text, wordIndex), Semicolon) + |";"|)
  }

  /** The hover built from the abstract file's text. */
  function ExtractHover(text: string, hoveredWord: string, wordRange: Range): (h: Hover)
    ensures h.range == Some(wordRange) && |h.contents| == 1 && h.contents[0].language == Language
  {
    var span := LibraryBounds(text, hoveredWord);
    Shown(Slice(text, span.start, span.end), wordRange)
  }

  /**
   * `returnMMLHover(document, wordRange)`: rejected when the root is unset,
   * before any file is looked at; rejected when the abstract file cannot be
   * read; otherwise the hover extracted from that file.
   */
  function ReturnMMLHover(root: Option<string>, files: map<string, string>, hoveredWord: string, wordRange: Range)
    : (r: Result<Hover, LibraryError>)
    ensures root.None? <==> r == Failure(MissingConfiguration(MissingRootMessage))
    ensures root.Some? ==> (r.Failure? <==> AbsFilePath(root.value, hoveredWord) !in files)
    ensures r.Failure? && root.Some? ==> r.error == ReadError(AbsFilePath(root.value, hoveredWord))
    ensures r.Success? ==> r.value.range == Some(wordRange) && |r.value.contents| == 1
    ensures root.Some? && AbsFilePath(root.value, hoveredWord) in files
      ==> r == Success(ExtractHover(files[AbsFilePath(root.value, hoveredWord)], hoveredWord, wordRange))
  {
    match root
    case None => Failure(MissingConfiguration(MissingRootMessage))
    case Some(dir) =>
      var filePath := AbsFilePath(dir, hoveredWord);
      if filePath in files then Success(ExtractHover(files[filePath], hoveredWord, wordRange))
      else Failure(ReadError(filePath))
  }

  /** Without a root the outcome is the same whatever the file system holds: no file is read. */
  lemma MissingRootReadsNothing(files1: map<string, string>, files2: map<string, string>, hoveredWord: string, wordRange: Range)
    ensures ReturnMMLHover(None, files1, hoveredWord, wordRange) == ReturnMMLHover(None, files2, hoveredWord, wordRange)
    ensures ReturnMMLHover(None, files1, hoveredWord, wordRange).Failure?
  {
  }

  /**
   * With a root, only one file matters: `<root>/abstr/<name>.abs`, where
   * `<name>` is the text before the first `:` in lower case, so it holds no
   * `:` and no upper-case ASCII letter.
   */
  lemma ReadsOnlyTheAbstractFile(root: string, files1: map<string, string>, files2: map<string, string>, hoveredWord: string, wordRange: Range)
    returns (name: string)
    requires var p := AbsFilePath(root, hoveredWord); (p in files1 <==> p in files2) && (p in files1 ==> files1[p] == files2[p])
    ensures AbsFilePath(root, hoveredWord) == root + "/abstr/" + name + ".abs"
    ensures |name| == |FileLabel(hoveredWord)|
    ensures forall i :: 0 <= i < |name| ==> name[i] == LowerAscii(hoveredWord[i])
    ensures ':' !in name && forall i :: 0 <= i < |name| ==> !('A' <= name[i] <= 'Z')
    ensures ReturnMMLHover(Some(root), files1, hoveredWord, wordRange) == ReturnMMLHover(Some(root), files2, hoveredWord, wordRange)
  {
    var fileLabel := FileLabel(hoveredWord);
    name := ToLowerCase(fileLabel);
    assert forall i :: 0 <= i < |fileLabel| ==> fileLabel[i] == hoveredWord[i];
    forall i | 0 <= i < |name| ensures name[i] != ':' {
      assert fileLabel[i] != ':';
    }
  }

  /** A reference word that `def\s+\d+` matches is at least five characters long, and so is the hovered word. */
  lemma KeywordNumberLength(hoveredWord: string, kw: string)
    requires ReferenceWord(hoveredWord).Some? && TestKeywordNumber(ReferenceWord(hoveredWord).value, kw)
    ensures |hoveredWord| > |kw| + 2
  {
    var i: nat :| i < |ReferenceWord(hoveredWord).value| && KeywordNumberAt(ReferenceWord(hoveredWord).value, kw, i);
  }

  /** Without a `:` the reference word is `undefined`, which neither test matches: the word is taken for a theorem. */
  lemma UndefinedReferenceIsTheorem()
    ensures Classify(None) == Theorem
  {
    UndefinedHasNoKeyword("def");
    UndefinedHasNoKeyword("sch");
  }

  lemma UndefinedHasNoKeyword(kw: string)
    requires kw == "def" || kw == "sch"
    ensures !TestKeywordNumber("undefined", kw)
  {
    var u := "undefined";
    forall i: nat | i < |u| ensures !KeywordNumberAt(u, kw, i) {
      if i + 3 < |u| && u[i..i + 3] == kw {
        assert u[i..i + 3][0] == u[i];
        assert i == 2 && u[5] == 'i';
      }
    }
  }

  /** The first occurrence of the hovered word and the nearest keyword of its kind at or before it. */
  lemma LibraryAnchors(text: string, hoveredWord: string) returns (wordIndex: nat, start: int)
    requires Contains(text, hoveredWord)
    ensures OccursAt(text, hoveredWord, wordIndex)
    ensures forall i :: 0 <= i < wordIndex ==> !OccursAt(text, hoveredWord, i)
    ensures var kw := Keyword(Classify(ReferenceWord(hoveredWord)));
      && (start == -1 || (start <= wordIndex && OccursAt(text, kw, start)))
      && (forall i :: start < i <= wordIndex ==> !OccursAt(text, kw, i))
    ensures LibraryBounds(text, hoveredWord) == KindBounds(text, wordIndex, Classify(ReferenceWord(hoveredWord)))
    ensures KindBounds(text, wordIndex, Classify(ReferenceWord(hoveredWord))).start == start
  {
    wordIndex := IndexOf(text, hoveredWord);
    start := LastIndexOf(text, Keyword(Classify(ReferenceWord(hoveredWord))), wordIndex);
  }

  /**
   * The bounds of a library definition: `m` is the first `\send\s*;` match at
   * or after the reference (or -1), and the end is `m + 4`, or
   * `wordIndex - 1 + 4` when there is no match.
   */
  lemma LibraryDefinitionBounds(text: string, hoveredWord: string) returns (wordIndex: nat, start: int, m: int)
    requires Classify(ReferenceWord(hoveredWord)) == Definition
    requires Contains(text, hoveredWord)
    ensures |hoveredWord| > 5
    ensures OccursAt(text, hoveredWord, wordIndex)
    ensures forall i :: 0 <= i < wordIndex ==> !OccursAt(text, hoveredWord, i)
    ensures start == -1 || (start <= wordIndex && OccursAt(text, "definition", start))
    ensures forall i :: start < i <= wordIndex ==> !OccursAt(text, "definition", i)
    ensures m == -1 || (wordIndex <= m && MatchesAt(text, EndSemicolon, m))
    ensures forall j: nat :: wordIndex <= j && (m == -1 || j < m) ==> !MatchesAt(text, EndSemicolon, j)
    ensures LibraryBounds(text, hoveredWord) == Span(Definition, start, if m == -1 then wordIndex + 3 else m + 4)
  {
    wordIndex, start := LibraryAnchors(text, hoveredWord);
    m := FirstMatchFrom(text, EndSemicolon, wordIndex);
    SearchFromSlice(text, EndSemicolon, wordIndex);
    if ReferenceWord(hoveredWord).None? {
      UndefinedReferenceIsTheorem();
    }
    KeywordNumberLength(hoveredWord, "def");
  }

  /**
   * A library definition: from the last `definition` at or before the
   * reference to four characters past the first `\send\s*;` after it. Since
   * the match starts at the white space before `end`, the hover stops right
   * after `end` and leaves the `;` out. With no `end;` after the reference it
   * stops three characters into the reference.
   */
  lemma LibraryDefinitionHover(text: string, hoveredWord: string, wordRange: Range) returns (wordIndex: nat, start: int, m: int)
    requires Classify(ReferenceWord(hoveredWord)) == Definition
    requires Contains(text, hoveredWord)
    ensures OccursAt(text, hoveredWord, wordIndex)
    ensures forall i :: 0 <= i < wordIndex ==> !OccursAt(text, hoveredWord, i)
    ensures start == -1 || (start <= wordIndex && OccursAt(text, "definition", start))
    ensures forall i :: start < i <= wordIndex ==> !OccursAt(text, "definition", i)
    ensures m == -1 || (wordIndex <= m && m + 4 < |text| && MatchesAt(text, EndSemicolon, m))
    ensures forall j: nat :: wordIndex <= j && (m == -1 || j < m) ==> !MatchesAt(text, EndSemicolon, j)
    ensures start >= 0 && m >= 0 ==> ExtractHover(text, hoveredWord, wordRange) == Shown(text[start..m + 1] + "end", wordRange)
    ensures start >= 0 && m == -1 ==>
      wordIndex + 3 <= |text| && ExtractHover(text, hoveredWord, wordRange) == Shown(text[start..wordIndex + 3], wordRange)
    ensures start == -1 ==> ExtractHover(text, hoveredWord, wordRange) == Shown("", wordRange)
  {
    wordIndex, start, m := LibraryDefinitionBounds(text, hoveredWord);
    if m >= 0 {
      assert SkipWhitespace(text, m + 4) < |text|;
    }
    LibraryDefinitionText(text, wordIndex, start, m);
  }

  /**
   * The text that `slice` cuts out of the bounds `LibraryDefinitionHover`
   * describes. With no `definition` the slice starts at the last character,
   * which lies past the end: the reference is at least six characters long.
   */
  lemma LibraryDefinitionText(text: string, wordIndex: nat, start: int, m: int)
    requires wordIndex + 6 <= |text|
    requires start == -1 || 0 <= start <= wordIndex
    requires m == -1 || (wordIndex <= m && MatchesAt(text, EndSemicolon, m))
    ensures var v := Slice(text, start, if m == -1 then wordIndex + 3 else m + 4);
      && (start >= 0 && m >= 0 ==> v == text[start..m + 1] + "end")
      && (start >= 0 && m == -1 ==> v == text[start..wordIndex + 3])
      && (start == -1 ==> v == "")
  {
    if m >= 0 {
      assert SkipWhitespace(text, m + 4) < |text|;
      if start >= 0 {
        assert text[m + 1..m + 4] == "end";
        assert text[start..m + 4] == text[start..m + 1] + text[m + 1..m + 4];
      }
    }
  }

  /**
   * A library scheme: from the last `scheme` at or before the reference up
   * to the first `;` after it, which is left out.
   */
  lemma LibrarySchemeHover(text: string, hoveredWord: string, wordRange: Range) returns (wordIndex: nat, start: int, m: int)
    requires Classify(ReferenceWord(hoveredWord)) == Scheme
    requires Contains(text, hoveredWord)
    ensures OccursAt(text, hoveredWord, wordIndex)
    ensures forall i :: 0 <= i < wordIndex ==> !OccursAt(text, hoveredWord, i)
    ensures start == -1 || (start <= wordIndex && OccursAt(text, "scheme", start))
    ensures forall i :: start < i <= wordIndex ==> !OccursAt(text, "scheme", i)
    ensures m == -1 || (wordIndex <= m < |text| && text[m] == ';')
    ensures forall j :: wordIndex <= j < |text| && (m == -1 || j < m) ==> text[j] != ';'
    ensures ExtractHover(text, hoveredWord, wordRange)
         == Shown(Slice(text, start, if m == -1 then wordIndex - 1 else m), wordRange)
    ensures start >= 0 && m >= 0 ==> ExtractHover(text, hoveredWord, wordRange) == Shown(text[start..m], wordRange)
  {
    wordIndex, start := LibraryAnchors(text, hoveredWord);
    m := FirstMatchFrom(text, Semicolon, wordIndex);
    SearchFromSlice(text, Semicolon, wordIndex);
    assert KindBounds(text, wordIndex, Scheme) == Span(Scheme, start, if m == -1 then wordIndex - 1 else m);
    forall j | wordIndex <= j < |text| && (m == -1 || j < m) ensures text[j] != ';' {
      assert !MatchesAt(text, Semicolon, j);
    }
  }

  /**
   * A library theorem: from the last `theorem` at or before the reference to
   * the first `;` after it, which is kept.
   */
  lemma LibraryTheoremHover(text: string, hoveredWord: string, wordRange: Range) returns (wordIndex: nat, start: int, m: int)
    requires Classify(ReferenceWord(hoveredWord)) == Theorem
    requires Contains(text, hoveredWord)
    ensures OccursAt(text, hoveredWord, wordIndex)
    ensures forall i :: 0 <= i < wordIndex ==> !OccursAt(text, hoveredWord, i)
    ensures start == -1 || (start <= wordIndex && OccursAt(text, "theorem", start))
    ensures forall i :: start < i <= wordIndex ==> !OccursAt(text, "theorem", i)
    ensures m == -1 || (wordIndex <= m < |text| && text[m] == ';')
    ensures forall j :: wordIndex <= j < |text| && (m == -1 || j < m) ==> text[j] != ';'
    ensures ExtractHover(text, hoveredWord, wordRange)
         == Shown(Slice(text, start, if m == -1 then wordIndex else m + 1), wordRange)
    ensures start >= 0 && m >= 0 ==> ExtractHover(text, hoveredWord, wordRange) == Shown(text[start..m + 1], wordRange)
  {
    wordIndex, start := LibraryAnchors(text, hoveredWord);
    m := FirstMatchFrom(text, Semicolon, wordIndex);
    SearchFromSlice(text, Semicolon, wordIndex);
    assert KindBounds(text, wordIndex, Theorem) == Span(Theorem, start, if m == -1 then wordIndex else m + 1);
    forall j | wordIndex <= j < |text| && (m == -1 || j < m) ensures text[j] != ';' {
      assert !MatchesAt(text, Semicolon, j);
    }
  }

  /**
   * The bounds when the reference does not occur in the file: `indexOf`
   * gives -1, so `lastIndexOf(keyword, -1)` looks at index 0 only, and the
   * search runs over `text.slice(-1)`, the last character alone, which is
   * too short for `\send\s*;` and matches `;` only when it is that character.
   */
  lemma MissingWordBounds(text: string, kind: ReferenceKind)
    ensures KindBounds(text, -1, kind).start == if OccursAt(text, Keyword(kind), 0) then 0 else -1
    ensures var last := if |text| > 0 && text[|text| - 1] == ';' then 0 else -1;
      && (kind == Definition ==> KindBounds(text, -1, kind).end == 2)
      && (kind == Scheme ==> KindBounds(text, -1, kind).end == last - 1)
      && (kind != Definition && kind != Scheme ==> KindBounds(text, -1, kind).end == last)
  {
    LastIndexOfBeforeStart(text, Keyword(kind));
    SliceFromLast(text);
    var tail := SliceFrom(text, -1);
    assert |tail| <= 1;
    assert Search(tail, EndSemicolon) == -1;
    assert Search(tail, Semicolon) == if |text| > 0 && text[|text| - 1] == ';' then 0 else -1 by {
      if |tail| == 1 {
        assert tail[0] == text[|text| - 1];
      }
    }
  }

  /**
   * What a reference missing from the file shows: `de` when the file opens
   * with `definition`, else at most the last character of a file of one or
   * two characters; for a scheme, all of a file that opens with `scheme` but
   * its last one or two characters; for a theorem, all of a file that opens
   * with `theorem` but its last character, unless that character is `;`.
   */
  lemma MissingWordText(text: string, kind: ReferenceKind)
    ensures var b := KindBounds(text, -1, kind);
      var v := Slice(text, b.start, b.end);
      && (kind == Definition ==> v == if OccursAt(text, "definition", 0) then "de"
                                      else if 1 <= |text| <= 2 then text[|text| - 1..] else "")
      && (kind == Scheme ==> v == if !OccursAt(text, "scheme", 0) then ""
                                  else if text[|text| - 1] == ';' then text[..|text| - 1] else text[..|text| - 2])
      && (kind != Definition && kind != Scheme ==>
            v == if OccursAt(text, "theorem", 0) && text[|text| - 1] != ';' then text[..|text| - 1] else "")
  {
    MissingWordBounds(text, kind);
    if kind == Definition && OccursAt(text, "definition", 0) {
      assert text[0..2] == text[0..10][..2];
    }
  }

  /** A reference the abstract file does not contain: the hover `MissingWordText` describes for its kind. */
  lemma MissingWordHover(text: string, hoveredWord: string, wordRange: Range)
    requires !Contains(text, hoveredWord)
    ensures var kind := Classify(ReferenceWord(hoveredWord));
      var h := ExtractHover(text, hoveredWord, wordRange);
      && (kind == Definition ==> h == Shown(if OccursAt(text, "definition", 0) then "de"
                                            else if 1 <= |text| <= 2 then text[|text| - 1..] else "", wordRange))
      && (kind == Scheme ==> h == Shown(if !OccursAt(text, "scheme", 0) then ""
                                        else if text[|text| - 1] == ';' then text[..|text| - 1] else text[..|text| - 2], wordRange))
      && (kind == Theorem ==>
            h == Shown(if OccursAt(text, "theorem", 0) && text[|text| - 1] != ';' then text[..|text| - 1] else "", wordRange))
  {
    var kind := Classify(ReferenceWord(hoveredWord));
    assert LibraryBounds(text, hoveredWord) == KindBounds(text, -1, kind);
    MissingWordText(text, kind);
  }

  /** `A:1` does not occur in `theorem X; Y`: the hover is the whole file but its last character. */
  lemma MissingWordExample(wordRange: Range)
    ensures ExtractHover("theorem X; Y", "A:1", wordRange) == Shown("theorem X; ", wordRange)
  {
    var text := "theorem X; Y";
    ExampleWordAbsent();
    MissingReferenceNumberIsTheorem();
    MissingWordHover(text, "A:1", wordRange);
    assert OccursAt(text, "theorem", 0);
    assert text[..|text| - 1] == "theorem X; ";
  }

  lemma ExampleWordAbsent()
    ensures !Contains("theorem X; Y", "A:1")
  {
    var text := "theorem X; Y";
    forall i ensures !OccursAt(text, "A:1", i) {
      if 0 <= i && i + 3 <= |text| {
        assert text[i..i + 3][0] == text[i] != 'A';
      }
    }
  }

  /** `A:1` has the reference word `1`, which is neither a definition nor a scheme. */
  lemma MissingReferenceNumberIsTheorem()
    ensures Classify(ReferenceWord("A:1")) == Theorem
  {
    var w := "A:1";
    assert IndexOf(w, [':']) == 1 by {
      assert OccursAt(w, [':'], 1);
      OccursAtSingle(w, ':', 0);
    }
    assert IndexOf(w[2..], [':']) == -1 by {
      forall i ensures !OccursAt(w[2..], [':'], i) { OccursAtSingle(w[2..], ':', i); }
    }
    assert ReferenceWord(w) == Some("1");
  }

  /** `XBOOLE_0:def 1` is looked up as a definition in `<root>/abstr/xboole_0.abs`. */
  lemma DefinitionReferenceExample(root: string)
    ensures AbsFilePath(root, "XBOOLE_0:def 1") == root + "/" + Abstr + "/" + "xboole_0" + ".abs"
    ensures Classify(ReferenceWord("XBOOLE_0:def 1")) == Definition
  {
    ExampleSplit();
    ExampleLower();
    ClassifyExamples();
  }

  lemma ExampleLower()
    ensures ToLowerCase("XBOOLE_0") == "xboole_0"
  {
  }

  lemma ExampleSplit()
    ensures FileLabel("XBOOLE_0:def 1") == "XBOOLE_0"
    ensures ReferenceWord("XBOOLE_0:def 1") == Some("def 1")
  {
    ExampleFirstColon();
    ExampleNoSecondColon();
  }

  lemma ExampleFirstColon()
    ensures IndexOf("XBOOLE_0:def 1", [':']) == 8
  {
    var w := "XBOOLE_0:def 1";
    assert OccursAt(w, [':'], 8);
    forall i | 0 <= i < 8 ensures !OccursAt(w, [':'], i) { OccursAtSingle(w, ':', i); }
  }

  lemma ExampleNoSecondColon()
    ensures IndexOf("def 1", [':']) == -1
  {
    forall i ensures !OccursAt("def 1", [':'], i) { OccursAtSingle("def 1", ':', i); }
  }

  /** A scheme needs `sch`, white space and a digit; `def` glued to its number is no definition. */
  lemma ClassifyExamples()
    ensures Classify(Some("def 1")) == Definition
    ensures Classify(Some("sch 2")) == Scheme
    ensures Classify(Some("def1")) == Theorem
    ensures Classify(Some("12")) == Theorem
  {
    assert KeywordNumberAt("def 1", "def", 0);
    assert KeywordNumberAt("sch 2", "sch", 0);
    assert !TestKeywordNumber("sch 2", "def") by {
      forall i: nat | i < 5 ensures !KeywordNumberAt("sch 2", "def", i) {
        assert "sch 2"[i] != 'd';
      }
    }
    forall i: nat | i < 4 ensures !KeywordNumberAt("def1", "def", i) && !KeywordNumberAt("def1", "sch", i) {
      if i == 0 { assert "def1"[3] == '1'; }
    }
  }
}
