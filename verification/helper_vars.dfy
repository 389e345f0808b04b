/**
 The per-request context (vvHelperVars.ts): language information, the split of
 the document at the cursor, the pruning of prefix and suffix to character
 budgets, and the search for the line below the cursor. The editor document
 and position become plain values: the text, the cursor offset and the cursor
 line and column.
 */
module HelperVars {
  import opened Options
  import opened Text
  import Filters

  /** Language-specific completion behaviour; `useMultiline` receives the pruned
      prefix and suffix. */
  datatype LanguageInfo = LanguageInfo(
    name: string,
    singleLineComment: Option<string>,
    useMultiline: Option<(string, string) -> bool>)

  /** The single-line comment token per editor language id. */
  const CommentMap: map<string, string> := map[
    "javascript" := "//", "typescript" := "//", "javascriptreact" := "//",
    "typescriptreact" := "//", "java" := "//", "c" := "//", "cpp" := "//",
    "csharp" := "//", "go" := "//", "rust" := "//", "swift" := "//",
    "kotlin" := "//", "scala" := "//", "php" := "//",
    "python" := "#", "ruby" := "#", "perl" := "#", "shell" := "#", "bash" := "#",
    "r" := "#", "yaml" := "#", "toml" := "#",
    "lua" := "--", "sql" := "--", "haskell" := "--"]

  /** `getLanguageInfo`: the name is the language id, the comment token comes
      from the table, and no language supplies a `useMultiline` rule. */
  function GetLanguageInfo(languageId: string): (r: LanguageInfo)
    ensures r.name == languageId
    ensures r.useMultiline.None?
    ensures r.singleLineComment.Some? <==> languageId in CommentMap
    ensures r.singleLineComment.Some? ==>
              r.singleLineComment.value == "//" || r.singleLineComment.value == "#"
              || r.singleLineComment.value == "--"
  {
    LanguageInfo(
      languageId,
      if languageId in CommentMap then Some(CommentMap[languageId]) else None,
      None)
  }

  lemma LanguageInfoExamples()
    ensures GetLanguageInfo("typescript").singleLineComment == Some("//")
    ensures GetLanguageInfo("python").singleLineComment == Some("#")
    ensures GetLanguageInfo("sql").singleLineComment == Some("--")
    ensures GetLanguageInfo("markdown").singleLineComment == None
  {
  }

  // ---------------------------------------------------------------------------
  // Pruning
  // ---------------------------------------------------------------------------

  const MaxPrefixChars := 8000
  const MaxSuffixChars := 2000

  /** Prefix pruning keeps the last `MaxPrefixChars` characters, then drops the
      partial first line when its newline lies in the first half of that window. */
  function PrunePrefix(prefix: string): (r: string)
    ensures |r| <= |prefix| && r == prefix[|prefix| - |r|..]
    ensures |r| <= MaxPrefixChars
    ensures |prefix| <= MaxPrefixChars ==> r == prefix
    ensures |prefix| > MaxPrefixChars ==> 2 * |r| >= MaxPrefixChars
    // cut: `r` starts just after the first newline of the window, which lies
    // past the window's first character and in its first half
    ensures |prefix| > MaxPrefixChars && |r| < MaxPrefixChars ==>
              var w0, start := |prefix| - MaxPrefixChars, |prefix| - |r|;
              w0 < start - 1 && 2 * (start - 1 - w0) < MaxPrefixChars
              && prefix[start - 1] == '\n'
              && forall j | w0 <= j < start - 1 :: prefix[j] != '\n'
    // no cut: the window starts with a newline, or its first half has none
    ensures |prefix| > MaxPrefixChars && |r| == MaxPrefixChars ==>
              var w0 := |prefix| - MaxPrefixChars;
              prefix[w0] == '\n'
              || forall j | w0 <= j < w0 + MaxPrefixChars / 2 :: prefix[j] != '\n'
  {
    if |prefix| <= MaxPrefixChars then prefix
    else
      var w0 := |prefix| - MaxPrefixChars;
      var window := prefix[w0..];
      var firstNewline := IndexOfChar(window, '\n');
      IndexOfCharNoneBefore(window, '\n');
      WindowNewline(prefix, w0, firstNewline);
      if firstNewline > 0 && 2 * firstNewline < MaxPrefixChars then
        window[firstNewline + 1..]
      else window
  }

  /** The first newline `f` of the window `prefix[w0..]`, in the indices of
      `prefix`: no newline before `w0 + f`, and what follows it is a suffix. */
  lemma WindowNewline(prefix: string, w0: nat, f: int)
    requires w0 <= |prefix| && -1 <= f < |prefix| - w0
    requires f >= 0 ==> prefix[w0..][f] == '\n'
    requires forall j | 0 <= j < |prefix| - w0 && (f < 0 || j < f) :: prefix[w0..][j] != '\n'
    ensures f >= 0 ==> prefix[w0 + f] == '\n' && prefix[w0..][f + 1..] == prefix[w0 + f + 1..]
    ensures forall j | w0 <= j < |prefix| && (f < 0 || j < w0 + f) :: prefix[j] != '\n'
  {
    forall j | w0 <= j < |prefix| && (f < 0 || j < w0 + f)
      ensures prefix[j] != '\n'
    {
      assert prefix[j] == prefix[w0..][j - w0];
    }
  }

  /** A window that opens with a newline is kept whole: the cut needs a first
      newline past the window's first character. */
  lemma WindowOpeningWithNewlineIsKept(prefix: string)
    requires |prefix| > MaxPrefixChars && prefix[|prefix| - MaxPrefixChars] == '\n'
    ensures PrunePrefix(prefix) == prefix[|prefix| - MaxPrefixChars..]
  {
  }

  /** Suffix pruning keeps the first `MaxSuffixChars` characters, then cuts
      before the last newline when it lies in the second half of that window. */
  function PruneSuffix(suffix: string): (r: string)
    ensures |r| <= |suffix| && r == suffix[..|r|]
    ensures |r| <= MaxSuffixChars
    ensures |suffix| <= MaxSuffixChars ==> r == suffix
    ensures |suffix| > MaxSuffixChars ==> 2 * |r| > MaxSuffixChars
    // cut: `r` ends just before the last newline of the window
    ensures |suffix| > MaxSuffixChars && |r| < MaxSuffixChars ==>
              suffix[|r|] == '\n' && forall j | |r| < j < MaxSuffixChars :: suffix[j] != '\n'
    // no cut: the second half of the window holds no newline
    ensures |suffix| > MaxSuffixChars && |r| == MaxSuffixChars ==>
              forall j | MaxSuffixChars / 2 < j < MaxSuffixChars :: suffix[j] != '\n'
  {
    if |suffix| <= MaxSuffixChars then suffix
    else
      var window := suffix[..MaxSuffixChars];
      var lastNewline := LastIndexOfChar(window, '\n');
      if 2 * lastNewline > MaxSuffixChars then window[..lastNewline] else window
  }

  /** Pruning is idempotent: pruned text is within budget. */
  lemma PruneIdempotent(prefix: string, suffix: string)
    ensures PrunePrefix(PrunePrefix(prefix)) == PrunePrefix(prefix)
    ensures PruneSuffix(PruneSuffix(suffix)) == PruneSuffix(suffix)
  {
  }

  // ---------------------------------------------------------------------------
  // The context record
  // ---------------------------------------------------------------------------

  /** The fields of a `VvHelperVars` instance; `hasSelectedCompletion` records
      whether `selectedCompletionInfo` is present. */
  datatype HelperVars = HelperVars(
    lang: LanguageInfo,
    fileContents: string,
    fileLines: seq<string>,
    fullPrefix: string,
    fullSuffix: string,
    prunedPrefix: string,
    prunedSuffix: string,
    line: nat,
    character: nat,
    hasSelectedCompletion: bool,
    modelName: string)

  /** The constructor: `substring` clamps an offset past the end of the text. */
  function Create(text: string, offset: nat, line: nat, character: nat, languageId: string,
                  hasSelectedCompletion: bool, modelName: string): (h: HelperVars)
    ensures h.fullPrefix + h.fullSuffix == text
    ensures offset <= |text| ==> |h.fullPrefix| == offset
    ensures offset > |text| ==> h.fullPrefix == text && h.fullSuffix == ""
    ensures h.prunedPrefix == PrunePrefix(h.fullPrefix)
    ensures h.prunedSuffix == PruneSuffix(h.fullSuffix)
    ensures JoinLines(h.fileLines) == text && AllNoNewline(h.fileLines)
    ensures h.lang == GetLanguageInfo(languageId)
    ensures h.lang.name == languageId && h.lang.useMultiline.None?
    ensures h.fileContents == text && h.fileLines == SplitLines(text)
    ensures h.line == line && h.character == character
    ensures h.hasSelectedCompletion == hasSelectedCompletion && h.modelName == modelName
  {
    var cut := if offset <= |text| then offset else |text|;
    var fullPrefix := text[..cut];
    var fullSuffix := text[cut..];
    assert fullPrefix + fullSuffix == text;
    SplitLinesJoin(text);
    HelperVars(
      GetLanguageInfo(languageId), text, SplitLines(text), fullPrefix, fullSuffix,
      PrunePrefix(fullPrefix), PruneSuffix(fullSuffix), line, character,
      hasSelectedCompletion, modelName)
  }

  // ---------------------------------------------------------------------------
  // The line below the cursor
  // ---------------------------------------------------------------------------

  /** Every line of `lines` strictly between indices `lo` and `hi` is blank. */
  predicate BlankBetween(lines: seq<string>, lo: nat, hi: nat) {
    forall j | lo < j < hi && j < |lines| :: Filters.IsBlank(lines[j])
  }

  /** A non-blank line found at `j` below `lo` is the first non-blank one. */
  lemma FoundBelow(lines: seq<string>, lo: nat, j: nat, found: string)
    requires lo < j < |lines| && found == lines[j] && BlankBetween(lines, lo, j)
    ensures exists k | lo < k < |lines| :: found == lines[k] && BlankBetween(lines, lo, k)
  {
  }

  /** `getLineBelowCursor`: the first non-blank line strictly below the cursor
      line; failing that the file's last line if any line lies below, else "". */
  method LineBelowCursor(h: HelperVars) returns (lineBelowCursor: string)
    ensures h.line + 1 >= |h.fileLines| ==> lineBelowCursor == ""
    ensures !Filters.IsBlank(lineBelowCursor) ==>
              exists j | h.line < j < |h.fileLines| ::
                lineBelowCursor == h.fileLines[j] && BlankBetween(h.fileLines, h.line, j)
    ensures Filters.IsBlank(lineBelowCursor) ==> BlankBetween(h.fileLines, h.line, |h.fileLines|)
    ensures Filters.IsBlank(lineBelowCursor) && h.line + 1 < |h.fileLines| ==>
              lineBelowCursor == h.fileLines[|h.fileLines| - 1]
  {
    var lines := h.fileLines;
    lineBelowCursor := "";
    var i := 1;
    var blank := true;
    while blank && h.line + i < |lines|
      invariant 1 <= i
      invariant blank == Filters.IsBlank(lineBelowCursor)
      invariant i == 1 ==> lineBelowCursor == ""
      invariant i > 1 ==> h.line + i - 1 < |lines| && lineBelowCursor == lines[h.line + i - 1]
      invariant BlankBetween(lines, h.line, h.line + i - 1)
      invariant blank ==> BlankBetween(lines, h.line, h.line + i)
      decreases |lines| - h.line - i
    {
      lineBelowCursor := lines[h.line + i];
      blank := Filters.IsBlank(lineBelowCursor);
      i := i + 1;
    }
    if !blank {
      FoundBelow(lines, h.line, h.line + i - 1, lineBelowCursor);
    }
  }
}
