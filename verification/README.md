# vv-code inline completion core, in Dafny

A model of the text-processing heart of vv-code's inline code completion for
VS Code, with proofs about it. Each piece of the engine is a pure function over
strings or over finite sequences of lines:

- **Postprocessing filters** (`Filters`, with `Levenshtein` and `Lcs`). These are
  the checks a finished completion must pass before it is shown:
  - blank and whitespace-only rejection;
  - the Levenshtein "line is repeated" rule;
  - rejection of a rewrite of the line above;
  - LCS-based detection of extreme repetition;
  - markdown fence stripping;
  - the leading-space seam fix.
- **Line-stream stages** (`LineStream`). The source writes these as async
  generators that may call `fullStop`. Here each stage is a total function from
  a finite sequence of lines to an `Emission`: the lines emitted, and whether
  `fullStop` was called. The three halting stages share one reference
  definition, `Cut`: emit the longest prefix before the first line that
  triggers the stage's `HaltRule`, and stop exactly when such a line exists.
  Each stage is proved equal to its `Cut`.
- **Context** (`HelperVars`). This covers:
  - the language table;
  - the prefix/suffix split at the cursor;
  - pruning to 8000/2000 characters, aligned to line boundaries;
  - the search for the line below the cursor.
- **Multiline decision** (`Multiline`), **prefilter** (`Prefiltering`), and the
  **single-line reconciler** (`SingleLine`). The reconciler classifies a word
  diff, which it takes as input.
- **Fill-in-the-middle templates** (`Templates`): the seven prompt formats,
  selection by model name, and placeholder substitution.
- **PKCE helpers** (`Pkce`): random strings over the unreserved alphabet of
  RFC 7636 section 4.1, and the base64 to unpadded base64url rewrite of
  RFC 4648 section 5 that RFC 7636 section 4.2 uses for the S256 code challenge.

`Text` models the JavaScript string built-ins the source relies on:
- `trim` and `trimStart`, over the ECMAScript white-space and line-terminator set;
- `split("\n")`, which always yields at least one element;
- `join`, `indexOf`, `lastIndexOf`, `includes`, `startsWith` and `endsWith`;
- `replace` with a string pattern, which replaces the first occurrence only;
- `toLowerCase`, for ASCII letters only.

`Seqs` holds the subsequence relation and chunk concatenation. `Options`
holds `Option`, which stands for `undefined`.

Some notes on how the model relates to the source:
- `lineIsRepeated` appears twice in the source, with identical bodies. It is
  modelled once, as `Filters.LineIsRepeated`, and `LineStream` uses that one.
  This makes "both versions agree" hold by construction.
- Floating-point thresholds are written as integer ratios:
  - `d / len < 0.1` becomes `10 * d < len`;
  - `m * f / len > 0.8` becomes `10 * m * f > 8 * len`;
  - `x < len / 2` becomes `2 * x < len`.
- The template strings are written as their literal pieces around the
  `{prefix}` and `{suffix}` placeholders. Code Llama's stop-token list includes
  an empty string; it is kept as written.
- The reconciler's replacement range runs from `cursorPosition` to
  `cursorPosition + |currentText|`.
- Some source branches cannot be reached:
  - `removeBackticks` has a branch for an empty line array. `split` never
    produces one, so the model has no such case.
  - `avoidEmptyComments` also compares against `token + " "`. A trimmed line
    never ends in a space, so that comparison never matches; see
    `LineStream.TrimmedNeverEndsInSpace`.

## Model

| member | source | states |
|---|---|---|
| Filters.IsBlank | src/hosts/vscode/completion/filters.ts:11-13 | a completion is blank exactly when every character is white space, so trimming leaves nothing |
| Text.TrimShape | src/hosts/vscode/completion/filters.ts:28-29 | the trimmed text is the slice of the input between its leading white-space run and a trailing white-space run |
| Text.SplitLinesJoin | src/hosts/vscode/completion/filters.ts:128-156 | the lines `split("\n")` yields hold no newline, and joining them with newlines gives back the text |
| Text.SplitJoinLines | src/hosts/vscode/completion/filters.ts:128-153 | splitting the newline-join of one or more newline-free lines gives back those lines |
| Filters.IsOnlyWhitespace | src/hosts/vscode/completion/filters.ts:15-17 | holds exactly for non-empty blank completions |
| Filters.LineIsRepeated | src/hosts/vscode/completion/filters.ts:23-32 | a repeat needs both lines longer than 4 characters and a second line that is not blank |
| Filters.LineIsRepeatedSelf | src/hosts/vscode/completion/filters.ts:23-32 | a non-blank line longer than 4 characters counts as a repeat of itself |
| Filters.LineIsRepeatedLengths | src/hosts/vscode/completion/filters.ts:23-32 | the trimmed lengths of repeated lines differ by less than a tenth of the second line's trimmed length |
| Levenshtein.DistanceFacts | src/hosts/vscode/completion/filters.ts:23-32 | the edit distance behind the rule is zero exactly for equal strings, is symmetric, and lies between the length difference and the longer length |
| Filters.LastNonBlankIndex | src/hosts/vscode/completion/filters.ts:34-51 | finds the last non-blank prefix line; every line after it is blank, and -1 means every line is blank |
| Filters.FirstNonBlankIndex | src/hosts/vscode/completion/filters.ts:34-51 | finds the first non-blank completion line; every line before it is blank, and -1 means every line is blank |
| Filters.LinesOfBlankAreBlank | src/hosts/vscode/completion/filters.ts:34-51 | every line of a blank text is blank |
| Filters.BlankIffLinesBlank | src/hosts/vscode/completion/filters.ts:34-51 | a text is blank exactly when every line of its `split("\n")` is blank |
| Filters.RewritesLineAbove | src/hosts/vscode/completion/filters.ts:34-51 | a rewrite of the line above is only ever found when both the prefix and the completion are non-blank, so a blank prefix or a blank completion is never rejected by this test |
| Lcs.LongestCommonSubsequence | src/hosts/vscode/completion/filters.ts:57-91 | the result is a subsequence of both strings, its length is the dynamic-programming value, and no common subsequence is longer |
| Lcs.LongestCommonSubsequenceSelf | src/hosts/vscode/completion/filters.ts:57-91 | the longest common subsequence of a string with itself is the string |
| Lcs.TableDisjoint | src/hosts/vscode/completion/filters.ts:57-91 | strings that share no character have a longest common subsequence of length zero |
| Filters.MatchCountIsCardinality | src/hosts/vscode/completion/filters.ts:104-109 | the loop's count is the number of lines i, i+freq, i+2·freq, … that contain the common subsequence |
| Filters.IsExtremeRepetition | src/hosts/vscode/completion/filters.ts:93-117 | texts of fewer than 6 lines are never extreme; otherwise a text is extreme exactly when period 1 or period 2 shows repetition, the only periods the loop tries |
| Filters.IdenticalLinesAreExtreme | src/hosts/vscode/completion/filters.ts:93-117 | six or more copies of one non-empty line count as extreme repetition |
| Filters.NoSharedCharacterPasses | src/hosts/vscode/completion/filters.ts:93-117 | if the first line shares no character with the second or third line, the text is not extreme repetition |
| Filters.RemoveBackticks | src/hosts/vscode/completion/filters.ts:127-157 | the result is a contiguous run of the input's lines, rejoined; with no opening fence and no closing backtick line, the input is returned unchanged |
| Filters.FencedBlockIsUnwrapped | src/hosts/vscode/completion/filters.ts:127-157 | a fenced block with any language tag gives back exactly its body lines |
| Filters.OpeningFenceIsDropped | src/hosts/vscode/completion/filters.ts:134-156 | an opening fence line with no closing backtick line is the only line removed; the body lines come back unchanged |
| Filters.LinesAfterOpeningFence | src/hosts/vscode/completion/filters.ts:134-156 | on newline-free lines, an opening fence and no closing run keep exactly lines 1 onwards |
| Filters.ClosingRunIsDropped | src/hosts/vscode/completion/filters.ts:134-156 | a last line made only of backticks, with no opening fence, is the only line removed |
| Filters.LinesBeforeClosingRun | src/hosts/vscode/completion/filters.ts:134-156 | on newline-free lines, a closing run and no opening fence keep exactly all lines but the last |
| Filters.RemoveBackticksExample | src/hosts/vscode/completion/filters.ts:127-157 | "```ts\ncode\n```" becomes "code" |
| Filters.MendSeam | src/hosts/vscode/completion/filters.ts:189-192 | exactly one leading space is dropped when the prefix ends in a space and the completion starts with one; otherwise nothing is dropped |
| Filters.PostprocessCompletion | src/hosts/vscode/completion/filters.ts:168-197 | blank completions give undefined; a result exists exactly when the completion passes every rejection check; the result is the seam-mended completion with its fences removed |
| LineStream.Cut | src/hosts/vscode/completion/streamFilters/lineStream.ts:63-82 | the emitted lines are a prefix of the input that holds no halting line; a stop happens exactly when a halting line exists, which is then the first line not emitted; with no stop, everything is emitted |
| LineStream.StreamLines | src/hosts/vscode/completion/streamFilters/lineStream.ts:10-29 | no emitted line holds a newline, and the output is the complete lines of the concatenated chunks, whatever the chunking |
| LineStream.StreamLinesRejoin | src/hosts/vscode/completion/streamFilters/lineStream.ts:10-29 | joining the output with newlines gives back the streamed text, less one trailing newline if it had one |
| LineStream.DrainIsSplit | src/hosts/vscode/completion/streamFilters/lineStream.ts:17-22 | the inner loop yields every line of the buffer except the last, which it keeps as the new buffer |
| Text.SplitLinesAppend | src/hosts/vscode/completion/streamFilters/lineStream.ts:13-22 | appending a chunk keeps the buffer's lines before its last one, and splits that last line followed by the chunk |
| LineStream.StreamLinesFromIsComplete | src/hosts/vscode/completion/streamFilters/lineStream.ts:10-29 | from any newline-free buffer, the stage yields the complete lines of the buffer followed by the remaining chunks |
| LineStream.StreamWithNewLines | src/hosts/vscode/completion/streamFilters/lineStream.ts:34-43 | the fragments concatenate to the lines joined by newlines |
| LineStream.StreamWithNewLinesRoundTrip | src/hosts/vscode/completion/streamFilters/lineStream.ts:10-43 | splitting the re-newlined stream gives back the original lines, when none holds a newline and the last is not empty |
| LineStream.RunLengthThird | src/hosts/vscode/completion/streamFilters/lineStream.ts:63-82 | the stage's repeat counter reaches 3 exactly at a line that ends a run of three lines, each repeating the one before |
| LineStream.StopAtRepeatingLines | src/hosts/vscode/completion/streamFilters/lineStream.ts:63-82 | the stage emits the lines before the third consecutive repeat and stops there; with no such run it emits everything and never stops |
| LineStream.NoDoubleNewLine | src/hosts/vscode/completion/streamFilters/lineStream.ts:87-100 | the output is a subsequence of the input |
| LineStream.NoDoubleNewLineFacts | src/hosts/vscode/completion/streamFilters/lineStream.ts:87-100 | every non-blank line is kept, in order, and no two adjacent output lines are blank |
| LineStream.NoDoubleNewLineIsCollapse | src/hosts/vscode/completion/streamFilters/lineStream.ts:87-100 | a line is dropped exactly when it is blank and the input line before it is blank |
| LineStream.StopAtSimilarLine | src/hosts/vscode/completion/streamFilters/lineStream.ts:106-125 | a blank line below the cursor passes everything through without stopping; otherwise the stage emits up to the first line that repeats the line below the cursor and stops there |
| LineStream.SimilarLineShortcutAgrees | src/hosts/vscode/completion/streamFilters/lineStream.ts:111-115 | the early return for a blank line below the cursor agrees with the general loop |
| LineStream.AvoidEmptyComments | src/hosts/vscode/completion/streamFilters/lineStream.ts:130-148 | the output is a subsequence of the input; with no comment token or an empty one, it is the input; otherwise it is exactly the lines whose trimmed form differs from the token, in order |
| LineStream.TrimmedNeverEndsInSpace | src/hosts/vscode/completion/streamFilters/lineStream.ts:142-143 | a trimmed line never equals the token followed by a space |
| LineStream.StopAtLines | src/hosts/vscode/completion/streamFilters/lineStream.ts:154-185 | the first line is always emitted; the stage stops at the first later line that opens a fence, or that starts with a closing bracket and is indented less than the first line |
| HelperVars.GetLanguageInfo | src/hosts/vscode/completion/vvHelperVars.ts:16-49 | the name is the language id; a comment token exists exactly for ids in the table, and it is "//", "#" or "--"; no multiline hook is set |
| HelperVars.LanguageInfoExamples | src/hosts/vscode/completion/vvHelperVars.ts:17-43 | TypeScript uses "//", Python "#", SQL "--", and Markdown has no token |
| HelperVars.PrunePrefix | src/hosts/vscode/completion/vvHelperVars.ts:116-123 | the result is a suffix of the prefix, at most 8000 characters long and at least half of that when cut; it is unchanged within budget; a cut falls just after the window's first newline, and only when that newline is past the window's first character and in its first half |
| HelperVars.WindowOpeningWithNewlineIsKept | src/hosts/vscode/completion/vvHelperVars.ts:116-122 | when the 8000-character window starts with a newline, the first newline is at index 0, so no cut is made and the whole window is kept |
| HelperVars.PruneSuffix | src/hosts/vscode/completion/vvHelperVars.ts:125-133 | the result is a prefix of the suffix, at most 2000 characters long and more than half of that when cut; it is unchanged within budget; a cut falls at the window's last newline, and only when that newline is in its second half |
| HelperVars.PruneIdempotent | src/hosts/vscode/completion/vvHelperVars.ts:116-133 | pruning an already pruned prefix or suffix changes nothing |
| HelperVars.Create | src/hosts/vscode/completion/vvHelperVars.ts:65-83 | the full prefix and suffix concatenate to the document; the prefix length is the cursor offset, clamped to the document; the file contents are the document and the file lines are its split lines, which rejoin to it; the pruned fields are the pruned prefix and suffix; the language info is the one looked up for the language id; line, character, model name and the selected-completion flag are passed through |
| HelperVars.LineBelowCursor | src/hosts/vscode/completion/vvHelperVars.ts:141-149 | gives "" when no line lies below the cursor; a non-blank result is the first non-blank line below the cursor; a blank result means every line below is blank, and it is then the file's last line |
| Multiline.ShouldCompleteMultiline | src/hosts/vscode/completion/multiline.ts:22-54 | "always" gives true and "never" gives false; under "auto", a selected suggestion or a cursor line that starts with the comment token gives false; otherwise the language's hook decides, and true when there is none |
| Multiline.AutoWithBuiltInLanguages | src/hosts/vscode/completion/multiline.ts:31-53 | with the built-in language table, "auto" gives true exactly when no suggestion is selected and the cursor line is not a comment |
| Prefiltering.ShouldSkipCompletion | src/hosts/vscode/completion/prefiltering.ts:16-35 | a completion is skipped exactly for config.json or settings.json paths, blank untitled documents, and paths ending in .prompt, .continueignore or .gitignore |
| Prefiltering.MatchesAny | src/hosts/vscode/completion/prefiltering.ts:27-33 | the pattern loop succeeds exactly when the path ends with one of the remaining patterns |
| Prefiltering.OrdinaryUntitledNotSkipped | src/hosts/vscode/completion/prefiltering.ts:16-35 | an untitled document with text in it and an ordinary path is not skipped |
| SingleLine.KindOf | src/hosts/vscode/completion/processSingleLineCompletion.ts:24-39 | a segment is "=" exactly when it is neither added nor removed, and "+" exactly when it is added |
| SingleLine.DiffPatternMatches | src/hosts/vscode/completion/processSingleLineCompletion.ts:24-39 | segment lists and patterns of different lengths never match |
| SingleLine.DiffPatternMatchesIsKinds | src/hosts/vscode/completion/processSingleLineCompletion.ts:24-39 | a pattern matches exactly when it is the list of the segments' kinds |
| SingleLine.ProcessSingleLineCompletion | src/hosts/vscode/completion/processSingleLineCompletion.ts:41-107 | [+] and the mid-line patterns give the model line with no range; [+,=] and [+,=,+] give the model line with a range from the cursor spanning the current text; otherwise the first added segment, or the model line; a range exists only for [+,=] and [+,=,+] |
| SingleLine.PureInsertionGivesModelLine | src/hosts/vscode/completion/processSingleLineCompletion.ts:57-65 | when the diff is one insertion, there is no text after the cursor, and accepting yields the model line |
| SingleLine.RepeatedSuffixIsReplaced | src/hosts/vscode/completion/processSingleLineCompletion.ts:67-79 | when the model line repeats the text after the cursor, that text occurs in the model line, and accepting with the range yields the model line and no duplicate |
| SingleLine.MidLineInsertKeepsText | src/hosts/vscode/completion/processSingleLineCompletion.ts:81-90 | mid-line patterns insert the model line in front of the text after the cursor |
| SingleLine.FallbackInsertsModelLineStart | src/hosts/vscode/completion/processSingleLineCompletion.ts:93-99 | in the fallback, the inserted text is the start of the model line, placed before the text after the cursor |
| SingleLine.PureInsertionExample | src/hosts/vscode/completion/processSingleLineCompletion.ts:57-65 | "ole.log()" typed after "cons" with nothing after the cursor is returned as is, with no range |
| SingleLine.RepeatedSuffixExample | src/hosts/vscode/completion/processSingleLineCompletion.ts:67-79 | "x, y)" against ")" at cursor 10 gives the range from 10 to 11 |
| Templates.GetTemplateForModel | src/hosts/vscode/completion/vvAutocompleteTemplate.ts:69-93 | the lower-cased name selects the first family it mentions, in the order deepseek, qwen, granite, codestral, llama, then starcoder or star-coder; a name that mentions none selects Stable Code |
| Templates.CodeLlamaNameRedundant | src/hosts/vscode/completion/vvAutocompleteTemplate.ts:84-86 | every name holding "code-llama" also holds "llama", so the second test never decides |
| Templates.SelectionIgnoresCase | src/hosts/vscode/completion/vvAutocompleteTemplate.ts:69-70 | lower-casing the model name first does not change the selection |
| Templates.DeepSeekQwenExample | src/hosts/vscode/completion/vvAutocompleteTemplate.ts:72-77 | "DeepSeek-Qwen" selects DeepSeek, which has priority over Qwen |
| Templates.CodeLlamaExample | src/hosts/vscode/completion/vvAutocompleteTemplate.ts:84-86 | "codellama-7b" selects Code Llama |
| Templates.UnknownModelExample | src/hosts/vscode/completion/vvAutocompleteTemplate.ts:62-92 | an unknown name selects the generic template, which is the Stable Code template |
| Templates.EveryTemplateHasEachPlaceholderOnce | src/hosts/vscode/completion/vvAutocompleteTemplate.ts:11-59 | every template holds "{prefix}" exactly once and "{suffix}" exactly once |
| Templates.RenderFimPrompt | src/hosts/vscode/completion/vvAutocompleteTemplate.ts:102-104 | for any template: one without placeholders is sent unchanged; one without "{prefix}" changes length only by the suffix taking the place of "{suffix}"; one with both placeholders loses both 8-character placeholders and gains the prefix and suffix, whatever the prefix and suffix contain |
| Templates.PlaceholdersApart | src/hosts/vscode/completion/vvAutocompleteTemplate.ts:102-104 | a "{prefix}" and a "{suffix}" in the same text never overlap |
| Templates.SuffixSurvivesPrefix | src/hosts/vscode/completion/vvAutocompleteTemplate.ts:102-104 | after the first "{prefix}" is replaced, a "{suffix}" of the template is still there for the second replace to find |
| Templates.RenderPrefixFirst | src/hosts/vscode/completion/vvAutocompleteTemplate.ts:102-104 | for prefix-first layouts, rendering puts the prefix and suffix where the placeholders stand, provided the prefix holds no "{suffix}" |
| Templates.RenderSuffixFirst | src/hosts/vscode/completion/vvAutocompleteTemplate.ts:102-104 | for suffix-first layouts, rendering puts the prefix and suffix where the placeholders stand, whatever they contain |
| Templates.RenderCodestral | src/hosts/vscode/completion/vvAutocompleteTemplate.ts:38-41 | Codestral renders to "[SUFFIX]", the suffix, "[PREFIX]", then the prefix |
| Templates.RenderStableCode | src/hosts/vscode/completion/vvAutocompleteTemplate.ts:11-14 | when the prefix holds no "{suffix}", the Stable Code template renders to its three markers around the prefix and suffix |
| Templates.RenderLength | src/hosts/vscode/completion/vvAutocompleteTemplate.ts:102-104 | for every template and any prefix and suffix, the rendered prompt is the template's length less 16, plus the prefix and suffix lengths |
| Templates.SuffixInPrefixIsReplaced | src/hosts/vscode/completion/vvAutocompleteTemplate.ts:102-104 | when the text before "{prefix}" is brace-free and the prefix is "x{suffix}y" with a brace-free x, the suffix is put in place of the prefix's own "{suffix}", and the rest of the template follows unfilled |
| Templates.StableCodeSuffixInPrefix | src/hosts/vscode/completion/vvAutocompleteTemplate.ts:102-104 | with Stable Code, the prefix "x{suffix}y" for a brace-free x is sent as "<fim_prefix>", x, the suffix, y, then "<fim_suffix>{suffix}<fim_middle>" with the placeholder left in |
| Templates.RenderQwenCoder | src/hosts/vscode/completion/vvAutocompleteTemplate.ts:17-18 | when the prefix holds no "{suffix}", Qwen Coder renders to its fim_prefix marker, the prefix, its fim_suffix marker, the suffix, then its fim_middle marker |
| Templates.RenderDeepseek | src/hosts/vscode/completion/vvAutocompleteTemplate.ts:44-45 | when the prefix holds no "{suffix}", DeepSeek renders to its begin marker, the prefix, its hole marker, the suffix, then its end marker |
| Templates.RenderCodeLlama | src/hosts/vscode/completion/vvAutocompleteTemplate.ts:50-51 | when the prefix holds no "{suffix}", Code Llama renders to "<PRE> ", the prefix, " <SUF>", the suffix, then " <MID>" |
| Text.ReplaceFirstAt | src/hosts/vscode/completion/vvAutocompleteTemplate.ts:102-104 | a string-pattern replace substitutes the first occurrence only and keeps the text on both sides of it |
| Pkce.AlphabetIsUnreserved | src/shared/vv-crypto.ts:12 | the alphabet has 66 characters, all of them unreserved in the sense of RFC 7636 section 4.1 |
| Pkce.GenerateRandomString | src/shared/vv-crypto.ts:11-21 | the result has the requested length; character i is the alphabet entry at byte i modulo 66; every character is unreserved |
| Pkce.GenerateCodeVerifier | src/shared/vv-crypto.ts:27-29 | the verifier has 64 characters, a valid code_verifier (43 to 128 unreserved characters) |
| Pkce.GenerateState | src/shared/vv-crypto.ts:48-50 | the state has 32 unreserved characters |
| Pkce.ToBase64Url | src/shared/vv-crypto.ts:41 | the output holds no '+', '/' or '=', and its length is the input's less the number of '=' |
| Pkce.ToBase64UrlIdempotent | src/shared/vv-crypto.ts:41 | rewriting an already rewritten string changes nothing |
| Pkce.ToBase64UrlOfPadded | src/shared/vv-crypto.ts:41 | on a padded base64 encoding, the rewrite keeps one character per data character, with '+' turned into '-' and '/' into '_', and drops the padding |
| Pkce.Base64UrlRoundTrip | src/shared/vv-crypto.ts:38-41 | restoring '+', '/' and the padding gives back any padded base64 encoding |
| Pkce.GenerateCodeChallenge | src/shared/vv-crypto.ts:37-42 | the challenge is the base64url rewrite of the digest: it holds no '+', '/' or '=', and it is one character shorter than the digest per '=' dropped |
| Pkce.S256ChallengeLength | src/shared/vv-crypto.ts:37-42 | the base64 SHA-256 digest, 43 data characters and one '=', becomes a 43-character challenge |

## Left out

- `vvCompletionStreamer.ts` (the network request, cancellation, event listeners
  and logging) is not part of this model. `fullStop` appears only as the
  `stopped` flag of each stage's `Emission`.
- The order in which stages are chained is set by a pipeline that is not part of
  this model. Each stage is modelled and proved on its own.
- The Levenshtein distance of `fast-levenshtein` is defined here directly, by
  the standard recurrence.
- The word tokenisation of `diff.diffWords` is not modelled. The diff segments
  are an input, and the lemmas relate them to the two texts through `IsDiff`.
- `crypto.randomBytes` and `createHash("sha256")` are not modelled: the bytes
  and the base64 digest are inputs.
- VS Code document APIs are not modelled. `HelperVars.Create` takes the text, the
  cursor offset and the line number as independent parameters; `offsetAt` and
  their mutual consistency are not modelled.
- Text.ToLower: lower-cases ASCII letters only, unlike the full Unicode mapping
  of JavaScript's `toLowerCase`. Model names are expected to be ASCII.
- Text.ReplaceFirst: `$` patterns in the replacement text (`$&`, `` $` ``,
  `$'`) are not interpreted. The prompt and suffix are taken literally.
- String lengths count characters, not UTF-16 code units. The 8000/2000 budgets
  and all offsets therefore differ from the source for text outside the Basic
  Multilingual Plane.
- HelperVars.GetLanguageInfo: uses a plain map, so ids such as "constructor" or
  "toString", which the source's object literal inherits from its prototype,
  are not modelled.
- `useMultiline` is modelled as an optional function, but no language sets it.
- Multiline.ShouldCompleteMultiline: the mode is a required parameter; the
  source's default argument `mode = "auto"` is not modelled, so callers pass
  the mode explicitly.
- The `console.log` calls of `processSingleLineCompletion` are not modelled:
  they only write diagnostics and do not affect the result.
- Templates.RenderStableCode: states the layout only for a prefix with no
  "{suffix}". The source's second `replace` finds such a copy inside the
  substituted prefix first, so the suffix lands inside the prefix and the
  template's own placeholder is sent unfilled; `Templates.SuffixInPrefixIsReplaced`
  and `Templates.StableCodeSuffixInPrefix` state what is sent then.
- Templates.RenderQwenCoder: the same condition and the same source behaviour as
  `Templates.RenderStableCode`.
- Templates.RenderDeepseek: the same condition and the same source behaviour as
  `Templates.RenderStableCode`.
- Templates.RenderCodeLlama: the same condition and the same source behaviour as
  `Templates.RenderStableCode`.
- The webview UI components and `vvGetUserConfig.ts` are outside the modelled
  core.

