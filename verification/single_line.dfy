/**
 The single-line reconciler (processSingleLineCompletion.ts): classifies the
 word diff between the text after the cursor and the model's line, and derives
 the text to insert plus an optional replacement range. The diff itself is an
 input (the word-level tokeniser is not modelled).
 */
module SingleLine {
  import opened Options
  import opened Seqs
  import opened Text

  /** A diff segment: `added`, `removed`, or neither (unchanged). */
  datatype DiffSegment = DiffSegment(value: string, added: bool, removed: bool)

  /** The pattern letters "=", "+" and "-". */
  datatype DiffPart = Equal | Added | Removed

  /** Neither flag gives "=", otherwise `added` wins over `removed`. */
  function KindOf(d: DiffSegment): (k: DiffPart)
    ensures k == Equal <==> !d.added && !d.removed
    ensures k == Added <==> d.added
  {
    if !d.added && !d.removed then Equal else if d.added then Added else Removed
  }

  /** The pattern a diff spells, segment by segment. */
  function Kinds(diffs: seq<DiffSegment>): (p: seq<DiffPart>)
    ensures |p| == |diffs| && forall i | 0 <= i < |diffs| :: p[i] == KindOf(diffs[i])
  {
    seq(|diffs|, i requires 0 <= i < |diffs| => KindOf(diffs[i]))
  }

  /** The source's `for` loop over the segments, from index `i`. */
  function MatchesFrom(diffs: seq<DiffSegment>, pattern: seq<DiffPart>, i: nat): bool
    requires |diffs| == |pattern| && i <= |diffs|
    decreases |diffs| - i
  {
    if i == |diffs| then true
    else if KindOf(diffs[i]) != pattern[i] then false
    else MatchesFrom(diffs, pattern, i + 1)
  }

  /** `diffPatternMatches`: false on a length mismatch, then a position-wise
      comparison. */
  function DiffPatternMatches(diffs: seq<DiffSegment>, pattern: seq<DiffPart>): (r: bool)
    ensures |diffs| != |pattern| ==> !r
  {
    if |diffs| != |pattern| then false else MatchesFrom(diffs, pattern, 0)
  }

  lemma {:induction false} MatchesFromIsPointwise(diffs: seq<DiffSegment>, pattern: seq<DiffPart>, i: nat)
    requires |diffs| == |pattern| && i <= |diffs|
    ensures MatchesFrom(diffs, pattern, i) <==> forall j | i <= j < |diffs| :: KindOf(diffs[j]) == pattern[j]
    decreases |diffs| - i
  {
    if i < |diffs| {
      MatchesFromIsPointwise(diffs, pattern, i + 1);
    }
  }

  /** The loop matches exactly when the diff spells the pattern. */
  lemma DiffPatternMatchesIsKinds(diffs: seq<DiffSegment>, pattern: seq<DiffPart>)
    ensures DiffPatternMatches(diffs, pattern) <==> Kinds(diffs) == pattern
  {
    if |diffs| == |pattern| {
      MatchesFromIsPointwise(diffs, pattern, 0);
      if Kinds(diffs) == pattern {
        assert forall j | 0 <= j < |diffs| :: KindOf(diffs[j]) == pattern[j];
      }
    }
  }

  datatype Range = Range(start: int, end: int)

  /** The suggestion: text to insert at the cursor and, optionally, the range of
      existing text it replaces. */
  datatype SingleLineResult = SingleLineResult(completionText: string, range: Option<Range>)

  /** The model repeated the text after the cursor: [+,=] or [+,=,+]. */
  predicate RepeatsSuffix(p: seq<DiffPart>) {
    p == [Added, Equal] || p == [Added, Equal, Added]
  }

  /** Mid-line insertion: [+,-] or [-,+]. */
  predicate InsertsMidLine(p: seq<DiffPart>) {
    p == [Added, Removed] || p == [Removed, Added]
  }

  /** `processSingleLineCompletion`, with the word diff of `currentText` against
      `lastLineOfCompletionText` given as `diffs`. */
  function ProcessSingleLineCompletion(lastLineOfCompletionText: string, currentText: string,
                                       cursorPosition: int, diffs: seq<DiffSegment>): (r: SingleLineResult)
    ensures Kinds(diffs) == [Added] ==> r == SingleLineResult(lastLineOfCompletionText, None)
    ensures RepeatsSuffix(Kinds(diffs)) ==>
              r == SingleLineResult(lastLineOfCompletionText,
                                    Some(Range(cursorPosition, cursorPosition + |currentText|)))
    ensures InsertsMidLine(Kinds(diffs)) ==> r == SingleLineResult(lastLineOfCompletionText, None)
    ensures Kinds(diffs) != [Added] && !RepeatsSuffix(Kinds(diffs)) && !InsertsMidLine(Kinds(diffs)) ==>
              r == SingleLineResult(
                     if |diffs| > 0 && diffs[0].added then diffs[0].value else lastLineOfCompletionText,
                     None)
    ensures r.range.Some? <==> RepeatsSuffix(Kinds(diffs))
    ensures r.range.Some? ==> r.range.value.end - r.range.value.start == |currentText|
  {
    DiffPatternMatchesIsKinds(diffs, [Added]);
    DiffPatternMatchesIsKinds(diffs, [Added, Equal]);
    DiffPatternMatchesIsKinds(diffs, [Added, Equal, Added]);
    DiffPatternMatchesIsKinds(diffs, [Added, Removed]);
    DiffPatternMatchesIsKinds(diffs, [Removed, Added]);
    if DiffPatternMatches(diffs, [Added]) then
      SingleLineResult(lastLineOfCompletionText, None)
    else if DiffPatternMatches(diffs, [Added, Equal]) || DiffPatternMatches(diffs, [Added, Equal, Added]) then
      SingleLineResult(lastLineOfCompletionText,
                       Some(Range(cursorPosition, |currentText| + cursorPosition)))
    else if DiffPatternMatches(diffs, [Added, Removed]) || DiffPatternMatches(diffs, [Removed, Added]) then
      SingleLineResult(lastLineOfCompletionText, None)
    else if |diffs| > 0 && diffs[0].added then
      SingleLineResult(diffs[0].value, None)
    else
      SingleLineResult(lastLineOfCompletionText, None)
  }

  // ---------------------------------------------------------------------------
  // Meaning: the line after the suggestion is accepted
  // ---------------------------------------------------------------------------

  /** The text a diff keeps on its new side (every segment but removals). */
  function NewText(diffs: seq<DiffSegment>): string
    decreases |diffs|
  {
    if |diffs| == 0 then ""
    else (if KindOf(diffs[0]) == Removed then "" else diffs[0].value) + NewText(diffs[1..])
  }

  /** The text a diff keeps on its old side (every segment but additions). */
  function OldText(diffs: seq<DiffSegment>): string
    decreases |diffs|
  {
    if |diffs| == 0 then ""
    else (if KindOf(diffs[0]) == Added then "" else diffs[0].value) + OldText(diffs[1..])
  }

  /** `diffs` is a diff from `oldText` to `newText`. */
  predicate IsDiff(diffs: seq<DiffSegment>, oldText: string, newText: string) {
    OldText(diffs) == oldText && NewText(diffs) == newText
  }

  /** The rest of the line once the suggestion is accepted at the cursor: the
      inserted text, then whatever of `currentText` the range does not cover. */
  function LineAfterAccept(r: SingleLineResult, currentText: string): string {
    var replaced := if r.range.Some? then r.range.value.end - r.range.value.start else 0;
    if 0 <= replaced <= |currentText| then r.completionText + currentText[replaced..]
    else r.completionText
  }

  /** The two sides of a diff shaped [+,=] or [+,=,+]. */
  lemma RepeatsSuffixSides(diffs: seq<DiffSegment>)
    requires |diffs| == 2 || |diffs| == 3
    requires KindOf(diffs[0]) == Added && KindOf(diffs[1]) == Equal
    requires |diffs| == 3 ==> KindOf(diffs[2]) == Added
    ensures OldText(diffs) == diffs[1].value
    ensures NewText(diffs) == diffs[0].value + diffs[1].value + (if |diffs| == 3 then diffs[2].value else "")
  {
    var tail := diffs[2..];
    assert diffs[1..][1..] == tail;
    if |diffs| == 3 {
      assert tail[1..] == [];
      assert OldText(tail) == "" && NewText(tail) == diffs[2].value;
    } else {
      assert tail == [];
    }
    assert OldText(diffs[1..]) == diffs[1].value + OldText(tail);
    assert NewText(diffs[1..]) == diffs[1].value + NewText(tail);
  }

  /** A pure insertion (pattern [+]) happens with nothing after the cursor, and
      accepting it leaves the model's line. */
  lemma PureInsertionGivesModelLine(lastLine: string, currentText: string, cursor: int,
                                    diffs: seq<DiffSegment>)
    requires IsDiff(diffs, currentText, lastLine)
    requires Kinds(diffs) == [Added]
    ensures currentText == ""
    ensures LineAfterAccept(ProcessSingleLineCompletion(lastLine, currentText, cursor, diffs), currentText)
            == lastLine
  {
    assert diffs[1..] == [];
    assert OldText(diffs) == "" + OldText(diffs[1..]);
  }

  /** When the model repeated the text after the cursor, the range replaces that
      text, which reappears inside the model's line: accepting leaves exactly the
      model's line, nothing duplicated and nothing lost. */
  lemma RepeatedSuffixIsReplaced(lastLine: string, currentText: string, cursor: int,
                                 diffs: seq<DiffSegment>)
    requires IsDiff(diffs, currentText, lastLine)
    requires RepeatsSuffix(Kinds(diffs))
    ensures Contains(lastLine, currentText)
    ensures LineAfterAccept(ProcessSingleLineCompletion(lastLine, currentText, cursor, diffs), currentText)
            == lastLine
  {
    assert KindOf(diffs[0]) == Added && KindOf(diffs[1]) == Equal;
    RepeatsSuffixSides(diffs);
    var a := diffs[0].value;
    assert lastLine[|a|..|a| + |currentText|] == currentText;
    assert OccursAt(lastLine, currentText, |a|);
  }

  /** A mid-line insertion puts the model's line in front of the existing text. */
  lemma MidLineInsertKeepsText(lastLine: string, currentText: string, cursor: int,
                               diffs: seq<DiffSegment>)
    requires InsertsMidLine(Kinds(diffs))
    ensures LineAfterAccept(ProcessSingleLineCompletion(lastLine, currentText, cursor, diffs), currentText)
            == lastLine + currentText
  {
  }

  /** In the fallback, the inserted text is the start of the model's line. */
  lemma FallbackInsertsModelLineStart(lastLine: string, currentText: string, cursor: int,
                                      diffs: seq<DiffSegment>)
    requires IsDiff(diffs, currentText, lastLine)
    requires Kinds(diffs) != [Added] && !RepeatsSuffix(Kinds(diffs)) && !InsertsMidLine(Kinds(diffs))
    requires |diffs| > 0 && diffs[0].added
    ensures var r := ProcessSingleLineCompletion(lastLine, currentText, cursor, diffs);
            StartsWith(lastLine, r.completionText)
            && LineAfterAccept(r, currentText) == r.completionText + currentText
  {
    var v := diffs[0].value;
    assert KindOf(diffs[0]) == Added;
    assert NewText(diffs) == v + NewText(diffs[1..]);
    assert lastLine[..|v|] == v;
  }

  /** A pure insertion: "cons" + "ole.log()" with nothing after the cursor. */
  lemma PureInsertionExample()
    ensures ProcessSingleLineCompletion("ole.log()", "", 4, [DiffSegment("ole.log()", true, false)])
            == SingleLineResult("ole.log()", None)
  {
    assert Kinds([DiffSegment("ole.log()", true, false)]) == [Added];
  }

  /** The model repeated ")" after the cursor: the range covers it. */
  lemma RepeatedSuffixExample()
    ensures ProcessSingleLineCompletion("x, y)", ")", 10,
                                        [DiffSegment("x, y", true, false), DiffSegment(")", false, false)])
            == SingleLineResult("x, y)", Some(Range(10, 11)))
  {
    var diffs := [DiffSegment("x, y", true, false), DiffSegment(")", false, false)];
    assert Kinds(diffs) == [Added, Equal];
  }
}
