/**
 The JavaScript string primitives the completion engine relies on
 (`trim`, `trimStart`, `split("\n")`, `join("\n")`, `includes`, `indexOf`,
 `lastIndexOf`, `startsWith`, `endsWith`, `toLowerCase`), over `string`
 as a sequence of characters.
 */
module Text {

  /** The characters JavaScript's `trim` removes and `\s` matches:
      WhiteSpace (TAB, VT, FF, ZWNBSP and the space separators) and
      LineTerminator (LF, CR, LS, PS). */
  predicate IsWhitespace(c: char) {
    || c == ' ' || c == '\t' || c == '\n' || c == '\r'
    || c == '\U{000B}' || c == '\U{000C}' || c == '\U{00A0}' || c == '\U{1680}'
    || ('\U{2000}' <= c <= '\U{200A}')
    || c == '\U{2028}' || c == '\U{2029}' || c == '\U{202F}' || c == '\U{205F}'
    || c == '\U{3000}' || c == '\U{FEFF}'
  }

  predicate AllWhitespace(s: string) {
    forall i | 0 <= i < |s| :: IsWhitespace(s[i])
  }

  /** Number of leading whitespace characters: `s.length - s.trimStart().length`. */
  function LeadingWhitespace(s: string): (k: nat)
    ensures k <= |s|
    ensures AllWhitespace(s[..k])
    ensures k < |s| ==> !IsWhitespace(s[k])
  {
    if |s| == 0 || !IsWhitespace(s[0]) then 0
    else
      var k := 1 + LeadingWhitespace(s[1..]);
      assert forall i | 1 <= i < k :: s[i] == s[1..][i - 1];
      k
  }

  /** Index where the trailing run of whitespace starts. */
  function TrailingWhitespaceStart(s: string): (k: nat)
    ensures k <= |s|
    ensures AllWhitespace(s[k..])
    ensures k > 0 ==> !IsWhitespace(s[k - 1])
  {
    if |s| == 0 || !IsWhitespace(s[|s| - 1]) then |s|
    else TrailingWhitespaceStart(s[..|s| - 1])
  }

  /** JavaScript `s.trimStart()`. */
  function TrimStart(s: string): (r: string)
    ensures |r| <= |s| && r == s[|s| - |r|..]
    ensures AllWhitespace(s[..|s| - |r|])
    ensures |r| > 0 ==> !IsWhitespace(r[0])
  {
    s[LeadingWhitespace(s)..]
  }

  /** JavaScript `s.trim()`: the text between the leading and the trailing
      whitespace runs. */
  function Trim(s: string): (r: string)
    ensures |r| <= |s|
    ensures |r| == 0 <==> AllWhitespace(s)
    ensures |r| > 0 ==> !IsWhitespace(r[0]) && !IsWhitespace(r[|r| - 1])
  {
    var lo := LeadingWhitespace(s);
    var hi := lo + TrailingWhitespaceStart(s[lo..]);
    assert s[lo..][hi - lo..] == s[hi..];
    assert hi == lo ==> AllWhitespace(s) by {
      if hi == lo {
        assert lo == |s|;
        assert s[..lo] == s;
      }
    }
    s[lo..hi]
  }

  /** What trimming removes is whitespace on both sides: the trimmed text
      stands right after the leading whitespace, and only whitespace follows. */
  lemma TrimShape(s: string)
    ensures var lo, r := LeadingWhitespace(s), Trim(s);
            lo + |r| <= |s| && s[lo..lo + |r|] == r
            && AllWhitespace(s[..lo]) && AllWhitespace(s[lo + |r|..])
  {
    var lo := LeadingWhitespace(s);
    var n := TrailingWhitespaceStart(s[lo..]);
    WhitespaceTail(s, lo, n, Trim(s));
  }

  /** The slice `r` of `s[lo..]` before its trailing whitespace sits between
      whitespace runs of `s`. */
  lemma WhitespaceTail(s: string, lo: nat, n: nat, r: string)
    requires lo + n <= |s| && r == s[lo..lo + n]
    requires AllWhitespace(s[..lo]) && AllWhitespace(s[lo..][n..])
    ensures lo + |r| <= |s| && s[lo..lo + |r|] == r
    ensures AllWhitespace(s[..lo]) && AllWhitespace(s[lo + |r|..])
  {
    assert s[lo..][n..] == s[lo + n..];
  }

  /** The first index of `c` in `s`, or -1 (JavaScript `indexOf` on one character). */
  function IndexOfChar(s: string, c: char): (k: int)
    ensures -1 <= k < |s|
    ensures k >= 0 ==> s[k] == c
  {
    if |s| == 0 then -1
    else if s[0] == c then 0
    else
      var k := IndexOfChar(s[1..], c);
      if k < 0 then -1 else k + 1
  }

  /** `c` does not occur before the index `IndexOfChar` finds, nor at all when
      it finds none. */
  lemma {:induction false} IndexOfCharNoneBefore(s: string, c: char)
    ensures var k := IndexOfChar(s, c);
            forall j | 0 <= j < |s| && (k < 0 || j < k) :: s[j] != c
    decreases |s|
  {
    if |s| > 0 && s[0] != c {
      IndexOfCharNoneBefore(s[1..], c);
      assert forall j | 1 <= j < |s| :: s[j] == s[1..][j - 1];
    }
  }

  /** The last index of `c` in `s`, or -1 (JavaScript `lastIndexOf`). */
  function LastIndexOfChar(s: string, c: char): (k: int)
    ensures -1 <= k < |s|
    ensures k >= 0 ==> s[k] == c && forall j | k < j < |s| :: s[j] != c
    ensures k == -1 ==> forall j | 0 <= j < |s| :: s[j] != c
  {
    if |s| == 0 then -1
    else if s[|s| - 1] == c then |s| - 1
    else
      var init := s[..|s| - 1];
      var k := LastIndexOfChar(init, c);
      assert forall j | 0 <= j < |s| - 1 :: s[j] == init[j];
      k
  }

  /** JavaScript `parts.join(sep)`. */
  function Join(parts: seq<string>, sep: string): string
  {
    if |parts| == 0 then ""
    else if |parts| == 1 then parts[0]
    else parts[0] + sep + Join(parts[1..], sep)
  }

  /** JavaScript `parts.join("\n")`. */
  function JoinLines(parts: seq<string>): string {
    Join(parts, "\n")
  }

  predicate NoNewline(line: string) {
    '\n' !in line
  }

  predicate AllNoNewline(lines: seq<string>) {
    forall i | 0 <= i < |lines| :: NoNewline(lines[i])
  }

  /** JavaScript `s.split("\n")`: never empty. */
  function SplitLines(s: string): (parts: seq<string>)
    ensures |parts| >= 1
    decreases |s|
  {
    var k := IndexOfChar(s, '\n');
    if k < 0 then [s] else [s[..k]] + SplitLines(s[k + 1..])
  }

  /** No part of a split holds a newline, and joining the parts back gives `s`. */
  lemma {:induction false} SplitLinesJoin(s: string)
    ensures AllNoNewline(SplitLines(s))
    ensures JoinLines(SplitLines(s)) == s
    decreases |s|
  {
    var k := IndexOfChar(s, '\n');
    IndexOfCharNoneBefore(s, '\n');
    if k < 0 {
      assert SplitLines(s) == [s];
      assert NoNewline(s);
    } else {
      var head, tail := s[..k], s[k + 1..];
      var rest := SplitLines(tail);
      SplitLinesAtNewline(s, k);
      SplitLinesJoin(tail);
      assert NoNewline(head);
      AllNoNewlineCons(head, rest);
      JoinLinesCons(head, rest);
      CutAround(s, k);
    }
  }

  lemma AllNoNewlineCons(line: string, rest: seq<string>)
    requires NoNewline(line) && AllNoNewline(rest)
    ensures AllNoNewline([line] + rest)
  {
    var parts := [line] + rest;
    assert forall i | 1 <= i < |parts| :: parts[i] == rest[i - 1];
  }

  /** A text is what stands before and after its newline at `k`. */
  lemma CutAround(s: string, k: nat)
    requires k < |s| && s[k] == '\n'
    ensures s == s[..k] + "\n" + s[k + 1..]
  {
    assert [s[k]] == "\n";
    assert s == s[..k] + [s[k]] + s[k + 1..];
  }

  lemma JoinLinesCons(line: string, rest: seq<string>)
    requires |rest| >= 1
    ensures JoinLines([line] + rest) == line + "\n" + JoinLines(rest)
  {
    assert ([line] + rest)[1..] == rest;
  }

  /** Splitting what was joined gives back the parts (JavaScript `split`
      and `join` are inverse on newline-free parts). */
  lemma {:induction false} SplitJoinLines(parts: seq<string>)
    requires |parts| >= 1 && AllNoNewline(parts)
    ensures SplitLines(JoinLines(parts)) == parts
    decreases |parts|
  {
    if |parts| == 1 {
      assert JoinLines(parts) == parts[0];
    } else {
      var s := JoinLines(parts);
      var p0 := parts[0];
      JoinLinesCons(p0, parts[1..]);
      assert [p0] + parts[1..] == parts;
      assert s == p0 + "\n" + JoinLines(parts[1..]);
      assert s[|p0|] == '\n' && s[..|p0|] == p0;
      assert forall j | 0 <= j < |p0| :: s[j] == p0[j];
      IndexOfCharIsFirst(s, '\n', |p0|);
      assert s[|p0| + 1..] == JoinLines(parts[1..]);
      SplitJoinLines(parts[1..]);
    }
  }

  /** An occurrence of `c` with none before it is the one `IndexOfChar` finds. */
  lemma IndexOfCharIsFirst(s: string, c: char, k: nat)
    requires k < |s| && s[k] == c
    requires forall j | 0 <= j < k :: s[j] != c
    ensures IndexOfChar(s, c) == k
  {
    IndexOfCharNoneBefore(s, c);
  }

  lemma IndexOfCharAppend(x: string, y: string, c: char)
    requires IndexOfChar(x, c) >= 0
    ensures IndexOfChar(x + y, c) == IndexOfChar(x, c)
  {
    var k := IndexOfChar(x, c);
    IndexOfCharNoneBefore(x, c);
    assert (x + y)[k] == c;
    assert forall j | 0 <= j < k :: (x + y)[j] == x[j];
    IndexOfCharIsFirst(x + y, c, k);
  }

  /** Sequence algebra for one step of `SplitLinesAppend`. */
  lemma ConsInitAppend<T>(a: T, s: seq<T>, rest: seq<T>)
    requires |s| > 0
    ensures var t := [a] + s;
            t[..|t| - 1] + rest == [a] + (s[..|s| - 1] + rest) && t[|t| - 1] == s[|s| - 1]
  {
    var t := [a] + s;
    assert t[..|t| - 1] == [a] + s[..|s| - 1];
  }

  /** One step of `SplitLines`: the piece before the first newline comes first. */
  lemma SplitLinesAtNewline(s: string, k: nat)
    requires k < |s| && IndexOfChar(s, '\n') == k
    ensures SplitLines(s) == [s[..k]] + SplitLines(s[k + 1..])
  {
  }

  /** A text without newline splits into itself. */
  lemma SplitLinesNoNewline(s: string)
    requires IndexOfChar(s, '\n') < 0
    ensures SplitLines(s) == [s]
  {
  }

  /** A newline in `x` splits `x + y` at the same place. */
  lemma SplitLinesAppendHead(x: string, y: string, k: nat)
    requires k < |x| && IndexOfChar(x, '\n') == k
    ensures SplitLines(x + y) == [x[..k]] + SplitLines(x[k + 1..] + y)
  {
    IndexOfCharAppend(x, y, '\n');
    assert (x + y)[..k] == x[..k];
    assert (x + y)[k + 1..] == x[k + 1..] + y;
    SplitLinesAtNewline(x + y, k);
  }

  /** Splitting a concatenation: the last piece of `x` continues into `y`. */
  lemma {:induction false} SplitLinesAppend(x: string, y: string)
    ensures var px := SplitLines(x);
            SplitLines(x + y) == px[..|px| - 1] + SplitLines(px[|px| - 1] + y)
    decreases |x|, 1
  {
    var k := IndexOfChar(x, '\n');
    if k < 0 {
      SplitLinesNoNewline(x);
      assert SplitLines(x)[..0] == [];
    } else {
      SplitLinesAppendAt(x, y, k);
    }
  }

  /** `SplitLinesAppend` when `x` has its first newline at `k`. */
  lemma {:induction false} SplitLinesAppendAt(x: string, y: string, k: nat)
    requires k < |x| && IndexOfChar(x, '\n') == k
    ensures var px := SplitLines(x);
            SplitLines(x + y) == px[..|px| - 1] + SplitLines(px[|px| - 1] + y)
    decreases |x|, 0
  {
    var tail := x[k + 1..];
    var pr := SplitLines(tail);
    SplitLinesAtNewline(x, k);
    SplitLinesAppendHead(x, y, k);
    SplitLinesAppend(tail, y);
    ConsInitAppend(x[..k], pr, SplitLines(pr[|pr| - 1] + y));
  }

  /** JavaScript `s.includes(t)`. */
  predicate OccursAt(s: string, t: string, i: int) {
    0 <= i && i + |t| <= |s| && s[i..i + |t|] == t
  }

  predicate Contains(s: string, t: string) {
    exists i | 0 <= i <= |s| - |t| :: OccursAt(s, t, i)
  }

  lemma ContainsSelf(s: string)
    ensures Contains(s, s)
  {
    assert OccursAt(s, s, 0);
  }

  /** A text lacking one of the characters of `t` does not contain `t`. */
  lemma MissingCharNotContained(s: string, t: string, k: nat)
    requires k < |t| && t[k] !in s
    ensures !Contains(s, t)
  {
    forall i | 0 <= i <= |s| - |t|
      ensures !OccursAt(s, t, i)
    {
      assert i + k < |s| && s[i + k] in s;
    }
  }

  /** First occurrence of `t` in `s` at or after `from`, or -1. */
  function IndexOfFrom(s: string, t: string, from: nat): (k: int)
    ensures k == -1 || (from <= k && OccursAt(s, t, k))
    ensures k == -1 ==> forall j | from <= j :: !OccursAt(s, t, j)
    ensures k >= 0 ==> forall j | from <= j < k :: !OccursAt(s, t, j)
    decreases |s| - from
  {
    if from + |t| > |s| then -1
    else if s[from..from + |t|] == t then from
    else IndexOfFrom(s, t, from + 1)
  }

  /** JavaScript `s.indexOf(t)`. */
  function IndexOf(s: string, t: string): (k: int)
    ensures k == -1 <==> !Contains(s, t)
    ensures k >= 0 ==> OccursAt(s, t, k) && forall j | 0 <= j < k :: !OccursAt(s, t, j)
  {
    IndexOfFrom(s, t, 0)
  }

  /** One differing character rules out an occurrence. */
  lemma DiffersAt(s: string, t: string, j: nat, d: nat)
    requires d < |t| && j + d < |s| && s[j + d] != t[d]
    ensures !OccursAt(s, t, j)
  {
    if j + |t| <= |s| {
      assert s[j..j + |t|][d] == s[j + d];
    }
  }

  /** An occurrence with none before it is what `indexOf` finds. */
  lemma IndexOfIsFirst(s: string, t: string, k: nat)
    requires OccursAt(s, t, k)
    requires forall j | 0 <= j < k :: !OccursAt(s, t, j)
    ensures IndexOf(s, t) == k
  {
  }

  /** JavaScript `s.replace(pattern, replacement)` with a string pattern: only
      the first occurrence is replaced. */
  function ReplaceFirst(s: string, pattern: string, replacement: string): (r: string)
    ensures !Contains(s, pattern) ==> r == s
    ensures Contains(s, pattern) ==> |r| == |s| - |pattern| + |replacement|
  {
    var i := IndexOf(s, pattern);
    if i < 0 then s else s[..i] + replacement + s[i + |pattern|..]
  }

  /** Replacing an occurrence that `indexOf` finds. */
  lemma ReplaceFirstAt(x: string, pattern: string, y: string, replacement: string)
    requires IndexOf(x + pattern + y, pattern) == |x|
    ensures ReplaceFirst(x + pattern + y, pattern, replacement) == x + replacement + y
  {
    var s := x + pattern + y;
    assert s[..|x|] == x;
    assert s[|x| + |pattern|..] == y;
  }

  /** JavaScript `s.startsWith(p)`. */
  predicate StartsWith(s: string, p: string) {
    |p| <= |s| && s[..|p|] == p
  }

  /** JavaScript `s.endsWith(p)`. */
  predicate EndsWith(s: string, p: string) {
    |p| <= |s| && s[|s| - |p|..] == p
  }

  function LowerChar(c: char): char {
    if 'A' <= c <= 'Z' then (c as int + 32) as char else c
  }

  /** `s.toLowerCase()` restricted to ASCII letters. */
  function ToLower(s: string): (r: string)
    ensures |r| == |s|
    ensures forall i | 0 <= i < |s| :: r[i] == LowerChar(s[i])
  {
    seq(|s|, i requires 0 <= i < |s| => LowerChar(s[i]))
  }

  /** Lower-casing is idempotent, so matching on lower-cased names is case-insensitive. */
  lemma ToLowerIdempotent(s: string)
    ensures ToLower(ToLower(s)) == ToLower(s)
  {
  }
}
