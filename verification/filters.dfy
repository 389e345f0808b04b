/**
 Whole-completion postprocessing (filters.ts): rejection of blank,
 whitespace-only, line-above-repeating and extremely repetitive completions,
 the leading-space seam fix and markdown fence stripping.
 */
module Filters {
  import opened Options
  import opened Text
  import opened Lcs
  import Levenshtein

  // ---------------------------------------------------------------------------
  // Basic validation
  // ---------------------------------------------------------------------------

  /** `completion.trim().length === 0`: nothing but whitespace. */
  predicate IsBlank(completion: string)
    ensures IsBlank(completion) <==> |Trim(completion)| == 0
  {
    AllWhitespace(completion)
  }

  /** `/^[\s]+$/.test(completion)`: one or more whitespace characters and nothing else. */
  predicate IsOnlyWhitespace(completion: string)
    ensures IsOnlyWhitespace(completion) <==> |completion| > 0 && IsBlank(completion)
  {
    |completion| > 0 && forall i | 0 <= i < |completion| :: IsWhitespace(completion[i])
  }

  // ---------------------------------------------------------------------------
  // Line repetition
  // ---------------------------------------------------------------------------

  /** Two lines are "repeated" when both are longer than four characters and the
      edit distance of their trimmed forms is below a tenth of the trimmed length
      of `b` (`distance / bTrim.length < 0.1`, stated without division). */
  predicate LineIsRepeated(a: string, b: string)
    ensures LineIsRepeated(a, b) ==> |a| > 4 && |b| > 4 && !IsBlank(b)
  {
    if |a| <= 4 || |b| <= 4 then false
    else 10 * Levenshtein.Distance(Trim(a), Trim(b)) < |Trim(b)|
  }

  /** A non-blank line longer than four characters repeats itself. */
  lemma LineIsRepeatedSelf(a: string)
    requires |a| > 4 && !IsBlank(a)
    ensures LineIsRepeated(a, a)
  {
    Levenshtein.DistanceFacts(Trim(a), Trim(a));
  }

  /** Repeated lines have trimmed lengths within a tenth of each other, so a
      blank `b` is never repeated. */
  lemma LineIsRepeatedLengths(a: string, b: string)
    requires LineIsRepeated(a, b)
    ensures 10 * (|Trim(a)| - |Trim(b)|) < |Trim(b)|
    ensures 10 * (|Trim(b)| - |Trim(a)|) < |Trim(b)|
  {
    Levenshtein.DistanceFacts(Trim(a), Trim(b));
  }

  /** Index of the last non-blank line, or -1. */
  function LastNonBlankIndex(lines: seq<string>): (k: int)
    ensures -1 <= k < |lines|
    ensures k >= 0 ==> !IsBlank(lines[k])
    ensures forall j | k < j < |lines| :: IsBlank(lines[j])
  {
    if |lines| == 0 then -1
    else if !IsBlank(lines[|lines| - 1]) then |lines| - 1
    else LastNonBlankIndex(lines[..|lines| - 1])
  }

  /** Index of the first non-blank line, or -1 (`lines.find(nonBlank)`). */
  function FirstNonBlankIndex(lines: seq<string>): (k: int)
    ensures -1 <= k < |lines|
    ensures k >= 0 ==> !IsBlank(lines[k])
    ensures forall j | 0 <= j < |lines| && (k < 0 || j < k) :: IsBlank(lines[j])
  {
    if |lines| == 0 then -1
    else if !IsBlank(lines[0]) then 0
    else
      var k := FirstNonBlankIndex(lines[1..]);
      if k < 0 then -1 else k + 1
  }

  /** Every line of a blank text is blank. */
  lemma {:induction false} LinesOfBlankAreBlank(s: string)
    requires IsBlank(s)
    ensures forall k | 0 <= k < |SplitLines(s)| :: IsBlank(SplitLines(s)[k])
    decreases |s|
  {
    var i := IndexOfChar(s, '\n');
    if i >= 0 {
      var rest := SplitLines(s[i + 1..]);
      assert AllWhitespace(s[i + 1..]);
      LinesOfBlankAreBlank(s[i + 1..]);
      assert AllWhitespace(s[..i]);
      assert SplitLines(s) == [s[..i]] + rest;
    }
  }

  /** A text whose lines are all blank is blank: the newlines joining them are
      white space too. */
  lemma {:induction false} JoinOfBlankIsBlank(parts: seq<string>)
    requires forall k | 0 <= k < |parts| :: IsBlank(parts[k])
    ensures IsBlank(JoinLines(parts))
    decreases |parts|
  {
    if |parts| >= 2 {
      JoinOfBlankIsBlank(parts[1..]);
      JoinLinesCons(parts[0], parts[1..]);
      assert parts == [parts[0]] + parts[1..];
      assert IsBlank(parts[0]);
    }
  }

  /** A text is blank exactly when each of its lines is. */
  lemma BlankIffLinesBlank(s: string)
    ensures IsBlank(s) <==> forall k | 0 <= k < |SplitLines(s)| :: IsBlank(SplitLines(s)[k])
  {
    SplitLinesJoin(s);
    if IsBlank(s) {
      LinesOfBlankAreBlank(s);
    }
    if forall k | 0 <= k < |SplitLines(s)| :: IsBlank(SplitLines(s)[k]) {
      JoinOfBlankIsBlank(SplitLines(s));
    }
  }

  /** `rewritesLineAbove`: the completion's first non-blank line repeats the last
      non-blank line of the prefix. Without a non-blank prefix and a non-blank
      completion there is no line to compare, so nothing is rejected. */
  predicate RewritesLineAbove(completion: string, prefix: string)
    ensures RewritesLineAbove(completion, prefix) ==> !IsBlank(prefix) && !IsBlank(completion)
  {
    var prefixLines := SplitLines(prefix);
    var above := LastNonBlankIndex(prefixLines);
    if above < 0 then false
    else
      NonBlankLine(prefix, above);
      var completionLines := SplitLines(completion);
      var first := FirstNonBlankIndex(completionLines);
      if first < 0 then false
      else
        NonBlankLine(completion, first);
        LineIsRepeated(prefixLines[above], completionLines[first])
  }

  /** A text with a non-blank line is not blank. */
  lemma NonBlankLine(s: string, k: nat)
    requires k < |SplitLines(s)| && !IsBlank(SplitLines(s)[k])
    ensures !IsBlank(s)
  {
    BlankIffLinesBlank(s);
  }

  // ---------------------------------------------------------------------------
  // Extreme repetition
  // ---------------------------------------------------------------------------

  const MaxRepetitionFreqToCheck := 3
  const MinLinesForRepetition := 6

  /** The source's `matchCount` loop: among the lines at indices `i`, `i + freq`,
      `i + 2 * freq`, ... how many contain `lcs`. */
  function MatchCount(lines: seq<string>, lcs: string, freq: nat, i: nat): nat
    requires freq >= 1
    decreases |lines| - i
  {
    if i >= |lines| then 0
    else (if Contains(lines[i], lcs) then 1 else 0) + MatchCount(lines, lcs, freq, i + freq)
  }

  /** The sampled lines containing `lcs`, as a set of indices. */
  function SampledMatches(lines: seq<string>, lcs: string, freq: nat, i: nat): set<nat>
    requires freq >= 1
  {
    set k: nat | i <= k < |lines| && (k - i) % freq == 0 && Contains(lines[k], lcs)
  }

  /** Stepping over one period, for the two periods the source tries. */
  lemma ModStep(d: int, f: int)
    requires f == 1 || f == 2
    requires d > 0 && d % f == 0
    ensures d >= f && (d - f) % f == 0
  {
  }

  /** The counting loop counts exactly the sampled indices whose line holds `lcs`. */
  lemma {:induction false} MatchCountIsCardinality(lines: seq<string>, lcs: string, freq: nat, i: nat)
    requires 1 <= freq < MaxRepetitionFreqToCheck
    ensures MatchCount(lines, lcs, freq, i) == |SampledMatches(lines, lcs, freq, i)|
    decreases |lines| - i
  {
    if i >= |lines| {
      assert SampledMatches(lines, lcs, freq, i) == {};
    } else {
      MatchCountIsCardinality(lines, lcs, freq, i + freq);
      SampledStep(lines, lcs, freq, i);
    }
  }

  /** The sampled indices from `i` are `i` itself, when its line holds `lcs`,
      and the sampled indices from `i + freq`. */
  lemma SampledStep(lines: seq<string>, lcs: string, freq: nat, i: nat)
    requires 1 <= freq < MaxRepetitionFreqToCheck && i < |lines|
    ensures var next := SampledMatches(lines, lcs, freq, i + freq);
            i !in next
            && SampledMatches(lines, lcs, freq, i)
               == (if Contains(lines[i], lcs) then {i} else {}) + next
  {
    var here := SampledMatches(lines, lcs, freq, i);
    var next := SampledMatches(lines, lcs, freq, i + freq);
    forall k | k in here && k != i
      ensures k in next
    {
      ModStep(k - i, freq);
      assert (k - (i + freq)) == (k - i) - freq;
    }
    forall k | k in next
      ensures k in here
    {
      assert (k - i) == (k - (i + freq)) + freq;
    }
  }

  /** The test for one repetition period `freq`. */
  predicate RepeatsWithPeriod(lines: seq<string>, freq: nat)
    requires 1 <= freq < |lines|
  {
    var lcs := LongestCommonSubsequence(lines[0], lines[freq]);
    && (|lcs| > 5 || 2 * |lcs| > |lines[0]|)
    && var matchCount := MatchCount(lines, lcs, freq, 0);
       matchCount * freq > 8 || 10 * (matchCount * freq) > 8 * |lines|
  }

  /** The `for (freq = ...; freq < MAX_REPETITION_FREQ_TO_CHECK; freq++)` loop. */
  predicate RepeatsFromPeriod(lines: seq<string>, freq: nat)
    requires 1 <= freq && MaxRepetitionFreqToCheck <= |lines|
    decreases MaxRepetitionFreqToCheck - freq
  {
    freq < MaxRepetitionFreqToCheck &&
    (RepeatsWithPeriod(lines, freq) || RepeatsFromPeriod(lines, freq + 1))
  }

  /** `isExtremeRepetition`: texts of fewer than six lines never qualify, and
      only periods 1 and 2 are ever tried. */
  predicate IsExtremeRepetition(completion: string)
    ensures IsExtremeRepetition(completion) <==>
              var lines := SplitLines(completion);
              |lines| >= 6 && (RepeatsWithPeriod(lines, 1) || RepeatsWithPeriod(lines, 2))
  {
    var lines := SplitLines(completion);
    |lines| >= MinLinesForRepetition && RepeatsFromPeriod(lines, 1)
  }

  function Repeat(line: string, n: nat): (r: seq<string>)
    ensures |r| == n && forall k | 0 <= k < n :: r[k] == line
  {
    seq(n, _ => line)
  }

  lemma {:induction false} MatchCountOfIdentical(line: string, n: nat, i: nat)
    requires i <= n
    ensures MatchCount(Repeat(line, n), line, 1, i) == n - i
    decreases n - i
  {
    if i < n {
      ContainsSelf(line);
      MatchCountOfIdentical(line, n, i + 1);
    }
  }

  /** Six or more identical non-empty lines are always rejected. */
  lemma IdenticalLinesAreExtreme(line: string, n: nat)
    requires n >= 6 && |line| > 0 && NoNewline(line)
    ensures IsExtremeRepetition(JoinLines(Repeat(line, n)))
  {
    var lines := Repeat(line, n);
    SplitJoinLines(lines);
    LongestCommonSubsequenceSelf(line);
    MatchCountOfIdentical(line, n, 0);
    assert RepeatsWithPeriod(lines, 1);
  }

  /** A first line sharing no character with the next two lines never triggers the
      repetition test, whatever follows. */
  lemma NoSharedCharacterPasses(completion: string)
    requires var lines := SplitLines(completion);
             |lines| >= 3 &&
             forall k | 0 <= k < |lines[0]| :: lines[0][k] !in lines[1] && lines[0][k] !in lines[2]
    ensures !IsExtremeRepetition(completion)
  {
    var lines := SplitLines(completion);
    TableDisjoint(lines[0], lines[1], |lines[0]|, |lines[1]|);
    TableDisjoint(lines[0], lines[2], |lines[0]|, |lines[2]|);
  }

  // ---------------------------------------------------------------------------
  // Markdown fences
  // ---------------------------------------------------------------------------

  /** `/^`+$/` on a non-empty string. */
  predicate IsBacktickRun(s: string) {
    |s| > 0 && forall i | 0 <= i < |s| :: s[i] == '`'
  }

  /** `removeBackticks`: drops a first line whose trimmed form starts with three
      backticks and a last line made only of backticks. (`split` never returns an
      empty array, so the source's `lines.length === 0` branch is unreachable.) */
  function RemoveBackticks(completion: string): (r: string)
    ensures var lines := SplitLines(completion);
            exists s, e | 0 <= s <= e <= |lines| :: r == JoinLines(lines[s..e])
    ensures var lines := SplitLines(completion);
            !StartsWith(Trim(lines[0]), "```") && !IsBacktickRun(Trim(lines[|lines| - 1]))
            ==> r == completion
  {
    var lines := SplitLines(completion);
    var startIdx := if StartsWith(Trim(lines[0]), "```") then 1 else 0;
    var endIdx :=
      if |lines| > startIdx && IsBacktickRun(Trim(lines[|lines| - 1])) then |lines| - 1
      else |lines|;
    SplitLinesJoin(completion);
    assert lines[0..|lines|] == lines;
    if startIdx > 0 || endIdx < |lines| then JoinLines(lines[startIdx..endIdx])
    else completion
  }

  /** Trimming keeps a non-whitespace-bounded prefix. */
  lemma TrimKeepsPrefix(s: string, p: string)
    requires StartsWith(s, p) && |p| > 0
    requires !IsWhitespace(p[0]) && !IsWhitespace(p[|p| - 1])
    ensures StartsWith(Trim(s), p)
  {
    var t := Trim(s);
    var lo :| 0 <= lo <= |s| - |t| && s[lo..lo + |t|] == t
             && AllWhitespace(s[..lo]) && AllWhitespace(s[lo + |t|..]);
    assert lo == 0;
    assert lo + |t| >= |p|;
    assert t[..|p|] == s[..|p|];
  }

  lemma TrimNoOp(s: string)
    requires |s| > 0 && !IsWhitespace(s[0]) && !IsWhitespace(s[|s| - 1])
    ensures Trim(s) == s
  {
    TrimKeepsPrefix(s, s);
  }

  /** A block fenced by a "```tag" line and a closing "```" line is unwrapped to
      its body. */
  lemma FencedBlockIsUnwrapped(tag: string, body: seq<string>)
    requires NoNewline(tag) && AllNoNewline(body)
    ensures RemoveBackticks(JoinLines(["```" + tag] + body + ["```"])) == JoinLines(body)
  {
    var lines := ["```" + tag] + body + ["```"];
    assert NoNewline("```");
    assert AllNoNewline(lines) by {
      forall k | 0 <= k < |lines| ensures NoNewline(lines[k]) {
        if 0 < k < |lines| - 1 {
          assert lines[k] == body[k - 1];
        }
      }
    }
    SplitJoinLines(lines);
    TrimKeepsPrefix("```" + tag, "```");
    TrimNoOp("```");
    assert IsBacktickRun("```");
    assert lines[1..|lines| - 1] == body;
  }

  /** A block with an opening fence line and no closing line loses only the fence. */
  lemma OpeningFenceIsDropped(tag: string, body: seq<string>)
    requires NoNewline(tag) && AllNoNewline(body)
    requires |body| > 0 ==> !IsBacktickRun(Trim(body[|body| - 1]))
    ensures RemoveBackticks(JoinLines(["```" + tag] + body)) == JoinLines(body)
  {
    var lines := ["```" + tag] + body;
    assert AllNoNewline(lines) by {
      forall k | 0 <= k < |lines| ensures NoNewline(lines[k]) {
        if 0 < k {
          assert lines[k] == body[k - 1];
        }
      }
    }
    TrimKeepsPrefix("```" + tag, "```");
    if |body| > 0 {
      assert lines[|lines| - 1] == body[|body| - 1];
    }
    assert lines[1..] == body;
    LinesAfterOpeningFence(lines);
  }

  /** Line-level form: an opening fence and no closing run keeps lines 1 onwards. */
  lemma LinesAfterOpeningFence(lines: seq<string>)
    requires |lines| > 0 && AllNoNewline(lines) && StartsWith(Trim(lines[0]), "```")
    requires |lines| > 1 ==> !IsBacktickRun(Trim(lines[|lines| - 1]))
    ensures RemoveBackticks(JoinLines(lines)) == JoinLines(lines[1..])
  {
    SplitJoinLines(lines);
    assert lines[1..|lines|] == lines[1..];
  }

  /** A block ending in a line of backticks, with no opening fence, loses only
      that line. */
  lemma ClosingRunIsDropped(body: seq<string>, run: string)
    requires |body| > 0 && AllNoNewline(body) && NoNewline(run)
    requires !StartsWith(Trim(body[0]), "```") && IsBacktickRun(Trim(run))
    ensures RemoveBackticks(JoinLines(body + [run])) == JoinLines(body)
  {
    var lines := body + [run];
    assert AllNoNewline(lines) by {
      forall k | 0 <= k < |lines| ensures NoNewline(lines[k]) {
        if k < |body| {
          assert lines[k] == body[k];
        }
      }
    }
    assert lines[0] == body[0];
    assert lines[..|lines| - 1] == body;
    LinesBeforeClosingRun(lines);
  }

  /** Line-level form: a closing run and no opening fence keeps all but the last line. */
  lemma LinesBeforeClosingRun(lines: seq<string>)
    requires |lines| > 1 && AllNoNewline(lines) && !StartsWith(Trim(lines[0]), "```")
    requires IsBacktickRun(Trim(lines[|lines| - 1]))
    ensures RemoveBackticks(JoinLines(lines)) == JoinLines(lines[..|lines| - 1])
  {
    SplitJoinLines(lines);
    assert lines[0..|lines| - 1] == lines[..|lines| - 1];
  }

  /** A fenced block with a language tag: "```ts\ncode\n```" becomes "code". */
  lemma RemoveBackticksExample()
    ensures RemoveBackticks("```ts\ncode\n```") == "code"
  {
    assert JoinLines(["```" + "ts"] + ["code"] + ["```"]) == "```ts\ncode\n```" by {
      assert "```" + "ts" == "```ts";
      assert ["```" + "ts"] + ["code"] + ["```"] == ["```ts", "code", "```"];
      JoinLinesCons("```ts", ["code", "```"]);
      JoinLinesCons("code", ["```"]);
    }
    assert JoinLines(["code"]) == "code";
    FencedBlockIsUnwrapped("ts", ["code"]);
  }

  // ---------------------------------------------------------------------------
  // Postprocessing
  // ---------------------------------------------------------------------------

  /** The seam fix of `postprocessCompletion`: when the prefix already ends in a
      space, one leading space of the completion is dropped. */
  function MendSeam(completion: string, prefix: string): (r: string)
    ensures var doubled := EndsWith(prefix, " ") && StartsWith(completion, " ");
            completion == (if doubled then " " else "") + r
  {
    if EndsWith(prefix, " ") && StartsWith(completion, " ") then completion[1..]
    else completion
  }

  /** `postprocessCompletion`: `None` stands for `undefined`. The suffix is unused
      by the source as well. */
  function PostprocessCompletion(completion: string, prefix: string, suffix: string): (r: Option<string>)
    ensures IsBlank(completion) ==> r == None
    ensures r.Some? <==>
              !IsBlank(completion) && !RewritesLineAbove(completion, prefix)
              && !IsExtremeRepetition(completion)
    ensures r.Some? ==> r.value == RemoveBackticks(MendSeam(completion, prefix))
  {
    if IsBlank(completion) then None
    else if IsOnlyWhitespace(completion) then None
    else if RewritesLineAbove(completion, prefix) then None
    else if IsExtremeRepetition(completion) then None
    else
      Some(RemoveBackticks(MendSeam(completion, prefix)))
  }
}
