/**
 The line-level stream stages (streamFilters/lineStream.ts). Each async
 generator becomes a total function over the finite sequence of lines it
 would receive; a stage that can call `fullStop` returns an `Emission`
 recording the lines it yielded and whether it stopped. The generator's local
 state (`buffer`, `previousLine`, `repeatCount`, `previousWasEmpty`,
 `firstLineIndentation`) becomes explicit recursion parameters.
 */
module LineStream {
  import opened Options
  import opened Seqs
  import opened Text
  import opened Filters

  /** What a stopping stage yielded, and whether it called `fullStop`. */
  datatype Emission = Emission(lines: seq<string>, stopped: bool)

  // ---------------------------------------------------------------------------
  // Reference: cutting a stream at the first halting line
  // ---------------------------------------------------------------------------

  /** The halting rule of each stage that can call `fullStop`. */
  datatype HaltRule =
    | ThirdRepeatRule
    | SimilarToRule(lineBelowCursor: string)
    | EndsBlockRule(firstLineIndentation: nat)

  /** Whether line `k` makes the stage stop without yielding it. */
  predicate Halts(rule: HaltRule, lines: seq<string>, k: nat)
    requires k < |lines|
  {
    match rule
    case ThirdRepeatRule => ThirdRepeat(lines, k)
    case SimilarToRule(below) => LineIsRepeated(lines[k], below)
    case EndsBlockRule(indentation) => 0 < k && EndsBlock(lines[k], indentation)
  }

  /** The first index at or after `i` whose line halts, or `|lines|`. */
  function FirstHalt(rule: HaltRule, lines: seq<string>, i: nat): (k: nat)
    requires i <= |lines|
    ensures i <= k <= |lines|
    ensures k < |lines| ==> Halts(rule, lines, k)
    ensures forall j | i <= j < k :: !Halts(rule, lines, j)
    decreases |lines| - i
  {
    if i == |lines| then i
    else if Halts(rule, lines, i) then i
    else FirstHalt(rule, lines, i + 1)
  }

  /** Reference behaviour of a stopping stage: yield every line before the first
      halting one, and stop iff there is one. */
  function Cut(rule: HaltRule, lines: seq<string>): (r: Emission)
    ensures r.lines <= lines
    ensures r.stopped <==> exists k | 0 <= k < |lines| :: Halts(rule, lines, k)
    ensures r.stopped ==> |r.lines| < |lines| && Halts(rule, lines, |r.lines|)
    ensures forall j | 0 <= j < |r.lines| :: !Halts(rule, lines, j)
    ensures !r.stopped ==> r.lines == lines
  {
    var k := FirstHalt(rule, lines, 0);
    Emission(lines[..k], k < |lines|)
  }

  /** A stage loop that yields line `i` unless it halts agrees with the cut. */
  lemma CutStep(rule: HaltRule, lines: seq<string>, i: nat, rest: Emission)
    requires i < |lines| && !Halts(rule, lines, i)
    requires var k := FirstHalt(rule, lines, i + 1);
             rest == Emission(lines[i + 1..k], k < |lines|)
    ensures var k := FirstHalt(rule, lines, i);
            Emission([lines[i]] + rest.lines, rest.stopped) == Emission(lines[i..k], k < |lines|)
  {
    var k := FirstHalt(rule, lines, i + 1);
    FirstHaltSkips(rule, lines, i);
    SliceCons(lines, i, k);
  }

  /** At the end of the input, or at a halting line, the stage yields nothing more. */
  lemma CutHere(rule: HaltRule, lines: seq<string>, i: nat)
    requires i <= |lines| && (i == |lines| || Halts(rule, lines, i))
    ensures var k := FirstHalt(rule, lines, i);
            Emission([], i < |lines|) == Emission(lines[i..k], k < |lines|)
  {
  }

  /** A line that does not halt is passed over. */
  lemma FirstHaltSkips(rule: HaltRule, lines: seq<string>, i: nat)
    requires i < |lines| && !Halts(rule, lines, i)
    ensures FirstHalt(rule, lines, i) == FirstHalt(rule, lines, i + 1)
  {
  }

  lemma SliceCons<T>(s: seq<T>, i: nat, k: nat)
    requires i < k <= |s|
    ensures s[i..k] == [s[i]] + s[i + 1..k]
  {
  }

  // ---------------------------------------------------------------------------
  // streamLines / streamWithNewLines
  // ---------------------------------------------------------------------------

  /** The inner `while (buffer.includes("\n"))` loop: the complete lines of the
      buffer, and what remains after the last newline. */
  function Drain(buffer: string): (r: (seq<string>, string))
    decreases |buffer|
  {
    var k := IndexOfChar(buffer, '\n');
    if k < 0 then ([], buffer)
    else
      var (lines, rest) := Drain(buffer[k + 1..]);
      ([buffer[..k]] + lines, rest)
  }

  /** Draining yields the split of the buffer, with its last piece held back. */
  lemma {:induction false} DrainIsSplit(buffer: string)
    ensures Drain(buffer).0 + [Drain(buffer).1] == SplitLines(buffer)
    decreases |buffer|
  {
    var k := IndexOfChar(buffer, '\n');
    if k >= 0 {
      var tail := buffer[k + 1..];
      var d := Drain(tail);
      DrainIsSplit(tail);
      SplitLinesAtNewline(buffer, k);
      assert Drain(buffer) == ([buffer[..k]] + d.0, d.1);
      assert [buffer[..k]] + d.0 + [d.1] == [buffer[..k]] + (d.0 + [d.1]);
    } else {
      assert SplitLines(buffer) == [buffer];
    }
  }

  /** The outer `for await` loop, from the given buffer on. */
  function StreamLinesFrom(chunks: seq<string>, buffer: string): seq<string>
    decreases |chunks|
  {
    if |chunks| == 0 then (if |buffer| > 0 then [buffer] else [])
    else
      var (lines, rest) := Drain(buffer + chunks[0]);
      lines + StreamLinesFrom(chunks[1..], rest)
  }

  /** `streamLines`: regroups a character stream into lines. */
  function StreamLines(chunks: seq<string>): (r: seq<string>)
    ensures AllNoNewline(r)
    ensures r == CompleteLines(Concat(chunks))
  {
    StreamLinesFromIsComplete(chunks, "");
    assert "" + Concat(chunks) == Concat(chunks);
    CompleteLinesFacts(Concat(chunks));
    StreamLinesFrom(chunks, "")
  }

  /** The lines of a text, without the empty piece that a trailing newline (or
      the empty text) leaves after the last separator. */
  function CompleteLines(s: string): seq<string> {
    DropTrailingEmpty(SplitLines(s))
  }

  function DropTrailingEmpty(parts: seq<string>): seq<string>
    requires |parts| >= 1
  {
    if parts[|parts| - 1] == "" then parts[..|parts| - 1] else parts
  }

  /** Pieces in front are untouched by dropping a trailing empty piece. */
  lemma DropTrailingEmptyAppend(xs: seq<string>, parts: seq<string>)
    requires |parts| >= 1
    ensures DropTrailingEmpty(xs + parts) == xs + DropTrailingEmpty(parts)
  {
    var ys := xs + parts;
    assert ys[|ys| - 1] == parts[|parts| - 1];
    if parts[|parts| - 1] == "" {
      assert ys[..|ys| - 1] == xs + parts[..|parts| - 1];
    }
  }

  /** The held-back rest of a drain is a single line. */
  lemma DrainRestIsLine(s: string)
    ensures NoNewline(Drain(s).1)
  {
    var parts := SplitLines(s);
    DrainIsSplit(s);
    assert Drain(s).1 == parts[|parts| - 1];
    SplitLinesJoin(s);
  }

  /** Splitting `s + tail` splits off the drained lines of `s` first. */
  lemma DrainAppend(s: string, tail: string)
    ensures SplitLines(s + tail) == Drain(s).0 + SplitLines(Drain(s).1 + tail)
  {
    var parts := SplitLines(s);
    DrainIsSplit(s);
    assert Drain(s).0 == parts[..|parts| - 1];
    assert Drain(s).1 == parts[|parts| - 1];
    SplitLinesAppend(s, tail);
  }

  /** Lines split off in front survive the removal of a trailing empty piece. */
  lemma CompleteLinesSplice(whole: string, lines: seq<string>, rest: string)
    requires SplitLines(whole) == lines + SplitLines(rest)
    ensures CompleteLines(whole) == lines + CompleteLines(rest)
  {
    DropTrailingEmptyAppend(lines, SplitLines(rest));
  }

  /** One outer iteration: draining `buffer + chunk` yields the complete lines
      up to the last newline, and the rest continues into what follows. */
  lemma DrainStep(s: string, tail: string)
    ensures NoNewline(Drain(s).1)
    ensures Drain(s).0 + CompleteLines(Drain(s).1 + tail) == CompleteLines(s + tail)
  {
    DrainRestIsLine(s);
    DrainAppend(s, tail);
    CompleteLinesSplice(s + tail, Drain(s).0, Drain(s).1 + tail);
  }

  lemma {:induction false} StreamLinesFromIsComplete(chunks: seq<string>, buffer: string)
    requires NoNewline(buffer)
    ensures StreamLinesFrom(chunks, buffer) == CompleteLines(buffer + Concat(chunks))
    decreases |chunks|
  {
    if |chunks| == 0 {
      assert buffer + Concat(chunks) == buffer;
      assert IndexOfChar(buffer, '\n') < 0;
      assert SplitLines(buffer) == [buffer];
    } else {
      var s := buffer + chunks[0];
      var tail := Concat(chunks[1..]);
      DrainStep(s, tail);
      StreamLinesFromIsComplete(chunks[1..], Drain(s).1);
      ConcatCons(buffer, chunks);
    }
  }

  lemma CompleteLinesFacts(s: string)
    ensures AllNoNewline(CompleteLines(s))
  {
    SplitLinesJoin(s);
  }

  lemma JoinLinesSnoc(xs: seq<string>, x: string)
    requires |xs| >= 1
    ensures JoinLines(xs + [x]) == JoinLines(xs) + "\n" + x
    decreases |xs|
  {
    var tail := xs[1..] + [x];
    assert xs + [x] == [xs[0]] + tail;
    JoinLinesCons(xs[0], tail);
    if |xs| == 1 {
      assert tail == [x];
    } else {
      JoinLinesSnoc(xs[1..], x);
      JoinLinesCons(xs[0], xs[1..]);
      assert [xs[0]] + xs[1..] == xs;
    }
  }

  /** The text is its complete lines joined, plus a newline if it had a
      trailing one. */
  lemma CompleteLinesRejoin(s: string)
    ensures if |s| > 0 && s[|s| - 1] == '\n' then JoinLines(CompleteLines(s)) + "\n" == s
            else JoinLines(CompleteLines(s)) == s
  {
    SplitLinesJoin(s);
    RejoinParts(s, SplitLines(s));
  }

  /** The same for any newline-free lines whose join is `s`. */
  lemma RejoinParts(s: string, parts: seq<string>)
    requires |parts| >= 1 && AllNoNewline(parts) && JoinLines(parts) == s
    ensures if |s| > 0 && s[|s| - 1] == '\n' then JoinLines(DropTrailingEmpty(parts)) + "\n" == s
            else JoinLines(DropTrailingEmpty(parts)) == s
  {
    var last := parts[|parts| - 1];
    if |parts| == 1 {
      assert s == last;
      if last != "" {
        assert NoNewline(parts[0]);
        assert s[|s| - 1] in last;
      }
    } else {
      var init := parts[..|parts| - 1];
      assert parts == init + [last];
      JoinLinesSnoc(init, last);
      assert s == JoinLines(init) + "\n" + last;
      if last != "" {
        assert NoNewline(parts[|parts| - 1]);
        assert s[|s| - 1] == last[|last| - 1];
      }
    }
  }

  /** Joining the emitted lines gives back the streamed text, less one trailing
      newline if it had one. */
  lemma StreamLinesRejoin(chunks: seq<string>)
    ensures var s := Concat(chunks);
            if EndsWith(s, "\n") then JoinLines(StreamLines(chunks)) + "\n" == s
            else JoinLines(StreamLines(chunks)) == s
  {
    var s := Concat(chunks);
    CompleteLinesRejoin(s);
    assert EndsWith(s, "\n") <==> |s| > 0 && s[|s| - 1] == '\n' by {
      if |s| > 0 {
        assert s[|s| - 1..] == [s[|s| - 1]];
      }
    }
  }

  function WithNewLinesFrom(lines: seq<string>, isFirst: bool): seq<string>
    decreases |lines|
  {
    if |lines| == 0 then []
    else (if isFirst then [] else ["\n"]) + [lines[0]] + WithNewLinesFrom(lines[1..], false)
  }

  /** `streamWithNewLines`: the fragments spell the lines joined by newlines. */
  function StreamWithNewLines(lines: seq<string>): (r: seq<string>)
    ensures Concat(r) == JoinLines(lines)
  {
    WithNewLinesConcat(lines);
    WithNewLinesFrom(lines, true)
  }

  lemma {:induction false} WithNewLinesConcat(lines: seq<string>)
    ensures Concat(WithNewLinesFrom(lines, true)) == JoinLines(lines)
    ensures Concat(WithNewLinesFrom(lines, false)) == (if |lines| == 0 then "" else "\n" + JoinLines(lines))
    decreases |lines|
  {
    if |lines| > 0 {
      var rest := WithNewLinesFrom(lines[1..], false);
      WithNewLinesConcat(lines[1..]);
      ConcatAppend([lines[0]], rest);
      ConcatAppend(["\n"], [lines[0]] + rest);
      assert ["\n"] + [lines[0]] + rest == ["\n"] + ([lines[0]] + rest);
      if |lines| > 1 {
        JoinLinesCons(lines[0], lines[1..]);
        assert [lines[0]] + lines[1..] == lines;
      }
    }
  }

  /** Re-splitting the fragments gives back the lines, provided the last line
      is not empty (an empty last line is indistinguishable from a trailing
      newline). */
  lemma StreamWithNewLinesRoundTrip(lines: seq<string>)
    requires AllNoNewline(lines)
    requires |lines| == 0 || lines[|lines| - 1] != ""
    ensures StreamLines(StreamWithNewLines(lines)) == lines
  {
    var chunks := StreamWithNewLines(lines);
    assert Concat(chunks) == JoinLines(lines);
    CompleteLinesOfJoin(lines);
  }

  /** The complete lines of joined lines are those lines, unless the last is empty. */
  lemma CompleteLinesOfJoin(lines: seq<string>)
    requires AllNoNewline(lines)
    requires |lines| == 0 || lines[|lines| - 1] != ""
    ensures CompleteLines(JoinLines(lines)) == lines
  {
    if |lines| > 0 {
      SplitJoinLines(lines);
    } else {
      assert JoinLines(lines) == "";
      assert SplitLines("") == [""];
    }
  }

  // ---------------------------------------------------------------------------
  // stopAtRepeatingLines
  // ---------------------------------------------------------------------------

  const MaxRepeats := 3

  /** Line `j` repeats the previously yielded line, which is line `j - 1`
      (`previousLine && lineIsRepeated(line, previousLine)`). */
  predicate RepeatsPrevious(lines: seq<string>, j: int)
    requires j < |lines|
  {
    0 < j && |lines[j - 1]| > 0 && LineIsRepeated(lines[j], lines[j - 1])
  }

  /** Line `k` is the third in a row that repeats its predecessor. */
  predicate ThirdRepeat(lines: seq<string>, k: nat)
    requires k < |lines|
  {
    RepeatsPrevious(lines, k) && RepeatsPrevious(lines, k - 1) && RepeatsPrevious(lines, k - 2)
  }

  /** `repeatCount` after line `j`: the length of the run of repeats ending there. */
  function RunLength(lines: seq<string>, j: int): nat
    requires j < |lines|
    decreases j
  {
    if j < 0 || !RepeatsPrevious(lines, j) then 0 else RunLength(lines, j - 1) + 1
  }

  lemma RunLengthThird(lines: seq<string>, k: nat)
    requires k < |lines|
    ensures RunLength(lines, k) >= MaxRepeats <==> ThirdRepeat(lines, k)
  {
    if RepeatsPrevious(lines, k) && RepeatsPrevious(lines, k - 1) {
      assert RunLength(lines, k) == RunLength(lines, k - 2) + 2;
      assert RunLength(lines, k - 2) >= 1 <==> RepeatsPrevious(lines, k - 2);
    } else if RepeatsPrevious(lines, k) {
      assert RunLength(lines, k) == 1;
    }
  }

  function RepeatingFrom(lines: seq<string>, i: nat, repeatCount: nat): Emission
    requires i <= |lines|
    decreases |lines| - i
  {
    if i == |lines| then Emission([], false)
    else
      var count := if RepeatsPrevious(lines, i) then repeatCount + 1 else 0;
      if count >= MaxRepeats then Emission([], true)
      else
        var rest := RepeatingFrom(lines, i + 1, count);
        Emission([lines[i]] + rest.lines, rest.stopped)
  }

  /** `stopAtRepeatingLines`: yields the lines up to the third consecutive line
      that repeats its predecessor, and stops there. */
  function StopAtRepeatingLines(lines: seq<string>): (r: Emission)
    ensures r == Cut(ThirdRepeatRule, lines)
  {
    RepeatingFromIsCut(lines, 0, 0);
    assert lines[0..] == lines;
    RepeatingFrom(lines, 0, 0)
  }

  lemma {:induction false} RepeatingFromIsCut(lines: seq<string>, i: nat, repeatCount: nat)
    requires i <= |lines|
    requires repeatCount == RunLength(lines, i - 1)
    ensures var k := FirstHalt(ThirdRepeatRule, lines, i);
            RepeatingFrom(lines, i, repeatCount) == Emission(lines[i..k], k < |lines|)
    decreases |lines| - i
  {
    if i < |lines| {
      RunLengthThird(lines, i);
      var count := if RepeatsPrevious(lines, i) then repeatCount + 1 else 0;
      assert count == RunLength(lines, i);
      if count < MaxRepeats {
        assert !Halts(ThirdRepeatRule, lines, i);
        RepeatingFromIsCut(lines, i + 1, count);
        CutStep(ThirdRepeatRule, lines, i, RepeatingFrom(lines, i + 1, count));
      } else {
        assert Halts(ThirdRepeatRule, lines, i);
        assert FirstHalt(ThirdRepeatRule, lines, i) == i;
      }
    }
  }

  // ---------------------------------------------------------------------------
  // noDoubleNewLine
  // ---------------------------------------------------------------------------

  function NoDoubleFrom(lines: seq<string>, previousWasEmpty: bool): (r: seq<string>)
    ensures IsSubsequence(r, lines)
    decreases |lines|
  {
    if |lines| == 0 then []
    else
      var isEmpty := IsBlank(lines[0]);
      var rest := lines[1..];
      if isEmpty && previousWasEmpty then
        var r := NoDoubleFrom(rest, previousWasEmpty);
        SubsequenceConsRight(r, rest, lines[0]);
        assert [lines[0]] + rest == lines;
        r
      else
        var r := NoDoubleFrom(rest, isEmpty);
        SubsequenceConsBoth(r, rest, lines[0]);
        assert [lines[0]] + rest == lines;
        [lines[0]] + r
  }

  /** `noDoubleNewLine`: a subsequence of the input. */
  function NoDoubleNewLine(lines: seq<string>): (r: seq<string>)
    ensures IsSubsequence(r, lines)
  {
    NoDoubleFrom(lines, false)
  }

  /** The non-blank lines of a sequence, in order. */
  function NonBlankLines(lines: seq<string>): seq<string>
    decreases |lines|
  {
    if |lines| == 0 then []
    else (if IsBlank(lines[0]) then [] else [lines[0]]) + NonBlankLines(lines[1..])
  }

  predicate NoAdjacentBlanks(lines: seq<string>) {
    forall j | 0 < j < |lines| :: !(IsBlank(lines[j - 1]) && IsBlank(lines[j]))
  }

  lemma NoAdjacentCons(x: string, r: seq<string>)
    requires NoAdjacentBlanks(r)
    requires IsBlank(x) && |r| > 0 ==> !IsBlank(r[0])
    ensures NoAdjacentBlanks([x] + r)
  {
    var out := [x] + r;
    forall j | 1 < j < |out|
      ensures !(IsBlank(out[j - 1]) && IsBlank(out[j]))
    {
      assert out[j - 1] == r[j - 2] && out[j] == r[j - 1];
    }
  }

  lemma {:induction false} NoDoubleFromKeepsNonBlank(lines: seq<string>, previousWasEmpty: bool)
    ensures NonBlankLines(NoDoubleFrom(lines, previousWasEmpty)) == NonBlankLines(lines)
    decreases |lines|
  {
    if |lines| > 0 {
      var isEmpty := IsBlank(lines[0]);
      if isEmpty && previousWasEmpty {
        NoDoubleFromKeepsNonBlank(lines[1..], previousWasEmpty);
      } else {
        var r := NoDoubleFrom(lines[1..], isEmpty);
        NoDoubleFromKeepsNonBlank(lines[1..], isEmpty);
        assert ([lines[0]] + r)[1..] == r;
      }
    }
  }

  lemma {:induction false} NoDoubleFromNoAdjacent(lines: seq<string>, previousWasEmpty: bool)
    ensures NoAdjacentBlanks(NoDoubleFrom(lines, previousWasEmpty))
    ensures var r := NoDoubleFrom(lines, previousWasEmpty);
            previousWasEmpty && |r| > 0 ==> !IsBlank(r[0])
    decreases |lines|
  {
    if |lines| > 0 {
      var isEmpty := IsBlank(lines[0]);
      if isEmpty && previousWasEmpty {
        NoDoubleFromNoAdjacent(lines[1..], previousWasEmpty);
      } else {
        var r := NoDoubleFrom(lines[1..], isEmpty);
        NoDoubleFromNoAdjacent(lines[1..], isEmpty);
        assert NoDoubleFrom(lines, previousWasEmpty) == [lines[0]] + r;
        NoAdjacentCons(lines[0], r);
      }
    }
  }

  /** Every non-blank line survives in order, and no two blank lines end up
      adjacent. */
  lemma NoDoubleNewLineFacts(lines: seq<string>)
    ensures NonBlankLines(NoDoubleNewLine(lines)) == NonBlankLines(lines)
    ensures NoAdjacentBlanks(NoDoubleNewLine(lines))
  {
    NoDoubleFromKeepsNonBlank(lines, false);
    NoDoubleFromNoAdjacent(lines, false);
  }

  /** A blank line is dropped exactly when the input line before it is blank too:
      each run of blank lines collapses to its first line. */
  predicate KeptByNoDouble(lines: seq<string>, j: nat)
    requires j < |lines|
  {
    !(IsBlank(lines[j]) && j > 0 && IsBlank(lines[j - 1]))
  }

  function KeepWhere(lines: seq<string>, i: nat): seq<string>
    requires i <= |lines|
    decreases |lines| - i
  {
    if i == |lines| then []
    else (if KeptByNoDouble(lines, i) then [lines[i]] else []) + KeepWhere(lines, i + 1)
  }

  lemma {:induction false} NoDoubleFromIsKeepWhere(lines: seq<string>, i: nat)
    requires i <= |lines|
    ensures NoDoubleFrom(lines[i..], i > 0 && IsBlank(lines[i - 1])) == KeepWhere(lines, i)
    decreases |lines| - i
  {
    if i < |lines| {
      NoDoubleFromIsKeepWhere(lines, i + 1);
      assert lines[i..][1..] == lines[i + 1..];
    }
  }

  /** `noDoubleNewLine` keeps exactly the lines that are not a blank line
      following a blank line. */
  lemma NoDoubleNewLineIsCollapse(lines: seq<string>)
    ensures NoDoubleNewLine(lines) == KeepWhere(lines, 0)
  {
    NoDoubleFromIsKeepWhere(lines, 0);
    assert lines[0..] == lines;
  }

  // ---------------------------------------------------------------------------
  // stopAtSimilarLine
  // ---------------------------------------------------------------------------

  function SimilarFrom(lines: seq<string>, lineBelowCursor: string, i: nat): Emission
    requires i <= |lines|
    decreases |lines| - i
  {
    if i == |lines| then Emission([], false)
    else if LineIsRepeated(lines[i], lineBelowCursor) then Emission([], true)
    else
      var rest := SimilarFrom(lines, lineBelowCursor, i + 1);
      Emission([lines[i]] + rest.lines, rest.stopped)
  }

  /** `stopAtSimilarLine`: the longest prefix without a line repeating the line
      below the cursor; stops iff such a line exists. */
  function StopAtSimilarLine(lines: seq<string>, lineBelowCursor: string): (r: Emission)
    ensures IsBlank(lineBelowCursor) ==> r == Emission(lines, false)
    ensures r == Cut(SimilarToRule(lineBelowCursor), lines)
  {
    SimilarFromIsCut(lines, lineBelowCursor, 0);
    assert lines[0..] == lines;
    if IsBlank(lineBelowCursor) then Emission(lines, false)
    else SimilarFrom(lines, lineBelowCursor, 0)
  }

  lemma {:induction false} SimilarFromIsCut(lines: seq<string>, below: string, i: nat)
    requires i <= |lines|
    ensures var k := FirstHalt(SimilarToRule(below), lines, i);
            SimilarFrom(lines, below, i) == Emission(lines[i..k], k < |lines|)
    decreases |lines| - i
  {
    if i < |lines| && !LineIsRepeated(lines[i], below) {
      SimilarFromIsCut(lines, below, i + 1);
      CutStep(SimilarToRule(below), lines, i, SimilarFrom(lines, below, i + 1));
    }
  }

  /** The blank-line shortcut agrees with the general loop: no line repeats a
      blank line. */
  lemma SimilarLineShortcutAgrees(lines: seq<string>, lineBelowCursor: string)
    requires IsBlank(lineBelowCursor)
    ensures SimilarFrom(lines, lineBelowCursor, 0) == Emission(lines, false)
  {
    SimilarFromIsCut(lines, lineBelowCursor, 0);
    assert lines[0..] == lines;
  }

  // ---------------------------------------------------------------------------
  // avoidEmptyComments
  // ---------------------------------------------------------------------------

  /** The lines the loop body skips: trimmed, exactly the comment token or the
      token followed by one space. */
  predicate IsEmptyComment(line: string, token: string) {
    var trimmed := Trim(line);
    trimmed == token || trimmed == token + " "
  }

  function DropEmptyComments(lines: seq<string>, token: string): seq<string>
    decreases |lines|
  {
    if |lines| == 0 then []
    else
      (if IsEmptyComment(lines[0], token) then [] else [lines[0]])
      + DropEmptyComments(lines[1..], token)
  }

  /** `avoidEmptyComments`: pass-through for a missing or empty token. */
  function AvoidEmptyComments(lines: seq<string>, singleLineComment: Option<string>): (r: seq<string>)
    ensures IsSubsequence(r, lines)
    ensures singleLineComment == None || singleLineComment == Some("") ==> r == lines
    ensures singleLineComment.Some? && singleLineComment.value != "" ==>
              r == KeepTrimmedOtherThan(lines, singleLineComment.value)
  {
    SubsequenceRefl(lines);
    if singleLineComment.None? || singleLineComment.value == "" then lines
    else
      DropIsKeep(lines, singleLineComment.value);
      KeepIsSubsequence(lines, singleLineComment.value);
      DropEmptyComments(lines, singleLineComment.value)
  }

  /** Reference: the lines whose trimmed form differs from the token, in order. */
  function KeepTrimmedOtherThan(lines: seq<string>, token: string): seq<string>
    decreases |lines|
  {
    if |lines| == 0 then []
    else if Trim(lines[0]) == token then KeepTrimmedOtherThan(lines[1..], token)
    else [lines[0]] + KeepTrimmedOtherThan(lines[1..], token)
  }

  /** A trimmed line never ends in a space, so the second comparison of the loop
      body never succeeds. */
  lemma TrimmedNeverEndsInSpace(line: string, token: string)
    ensures Trim(line) != token + " "
  {
    var t := Trim(line);
    if |t| == |token| + 1 {
      assert (token + " ")[|token|] == ' ';
    }
  }

  lemma {:induction false} DropIsKeep(lines: seq<string>, token: string)
    ensures DropEmptyComments(lines, token) == KeepTrimmedOtherThan(lines, token)
    decreases |lines|
  {
    if |lines| > 0 {
      TrimmedNeverEndsInSpace(lines[0], token);
      DropIsKeep(lines[1..], token);
    }
  }

  lemma {:induction false} KeepIsSubsequence(lines: seq<string>, token: string)
    ensures IsSubsequence(KeepTrimmedOtherThan(lines, token), lines)
    decreases |lines|
  {
    if |lines| > 0 {
      var rest := KeepTrimmedOtherThan(lines[1..], token);
      KeepIsSubsequence(lines[1..], token);
      assert [lines[0]] + lines[1..] == lines;
      if Trim(lines[0]) == token {
        SubsequenceConsRight(rest, lines[1..], lines[0]);
      } else {
        SubsequenceConsBoth(rest, lines[1..], lines[0]);
      }
    }
  }

  // ---------------------------------------------------------------------------
  // stopAtLines
  // ---------------------------------------------------------------------------

  /** `/^[}\])]/`. */
  predicate StartsWithClosingBracket(s: string) {
    |s| > 0 && (s[0] == '}' || s[0] == ']' || s[0] == ')')
  }

  /** A later line ends the block: a markdown fence, or a closing bracket indented
      less than the first line. */
  predicate EndsBlock(line: string, firstLineIndentation: nat) {
    var trimmed := Trim(line);
    StartsWith(trimmed, "```")
    || (LeadingWhitespace(line) < firstLineIndentation && StartsWithClosingBracket(trimmed))
  }

  function StopAtLinesFrom(lines: seq<string>, firstLineIndentation: nat, i: nat): Emission
    requires 1 <= i <= |lines|
    decreases |lines| - i
  {
    if i == |lines| then Emission([], false)
    else if EndsBlock(lines[i], firstLineIndentation) then Emission([], true)
    else
      var rest := StopAtLinesFrom(lines, firstLineIndentation, i + 1);
      Emission([lines[i]] + rest.lines, rest.stopped)
  }

  /** `stopAtLines`: the first line is yielded unconditionally and fixes the
      reference indentation; the stream then ends before the first later line
      that ends the block. */
  function StopAtLines(lines: seq<string>): (r: Emission)
    ensures |lines| > 0 ==> |r.lines| > 0 && r.lines[0] == lines[0]
    ensures |lines| > 0 ==> r == Cut(EndsBlockRule(LeadingWhitespace(lines[0])), lines)
    ensures |lines| == 0 ==> r == Emission([], false)
  {
    if |lines| == 0 then Emission([], false)
    else
      var indentation := LeadingWhitespace(lines[0]);
      var rest := StopAtLinesFrom(lines, indentation, 1);
      StopAtLinesFromIsCut(lines, indentation, 1);
      CutStep(EndsBlockRule(indentation), lines, 0, rest);
      assert lines[0..] == lines;
      Emission([lines[0]] + rest.lines, rest.stopped)
  }

  lemma {:induction false} StopAtLinesFromIsCut(lines: seq<string>, indentation: nat, i: nat)
    requires 1 <= i <= |lines|
    ensures var k := FirstHalt(EndsBlockRule(indentation), lines, i);
            StopAtLinesFrom(lines, indentation, i) == Emission(lines[i..k], k < |lines|)
    decreases |lines| - i
  {
    var rule := EndsBlockRule(indentation);
    if i == |lines| || EndsBlock(lines[i], indentation) {
      CutHere(rule, lines, i);
    } else {
      StopAtLinesFromIsCut(lines, indentation, i + 1);
      CutStep(rule, lines, i, StopAtLinesFrom(lines, indentation, i + 1));
    }
  }
}
