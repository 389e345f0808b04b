/**
 The longest-common-subsequence routine of the extreme-repetition filter
 (`longestCommonSubsequence` in filters.ts): a dynamic-programming table over
 prefixes, then a walk back from the bottom-right corner that collects the
 matched characters.
 */
module Lcs {
  import opened Seqs

  /** `dp[i][j]` of the source: the table cell for the prefixes `a[..i]` and `b[..j]`. */
  function Table(a: string, b: string, i: nat, j: nat): nat
    requires i <= |a| && j <= |b|
    decreases i + j
  {
    if i == 0 || j == 0 then 0
    else if a[i - 1] == b[j - 1] then Table(a, b, i - 1, j - 1) + 1
    else
      var up, left := Table(a, b, i - 1, j), Table(a, b, i, j - 1);
      if up >= left then up else left
  }

  /** The source's walk back through the table from cell (i, j): a match moves
      diagonally and keeps the character, otherwise it moves up when the cell
      above is strictly larger and left when not. */
  function Walk(a: string, b: string, i: nat, j: nat): (r: string)
    requires i <= |a| && j <= |b|
    decreases i + j
  {
    if i == 0 || j == 0 then ""
    else if a[i - 1] == b[j - 1] then Walk(a, b, i - 1, j - 1) + [a[i - 1]]
    else if Table(a, b, i - 1, j) > Table(a, b, i, j - 1) then Walk(a, b, i - 1, j)
    else Walk(a, b, i, j - 1)
  }

  /** JavaScript `longestCommonSubsequence(a, b)`. */
  function LongestCommonSubsequence(a: string, b: string): (r: string)
    ensures IsSubsequence(r, a) && IsSubsequence(r, b)
    ensures |r| == Table(a, b, |a|, |b|)
    ensures forall x: string | IsSubsequence(x, a) && IsSubsequence(x, b) :: |x| <= |r|
  {
    WalkIsCommonSubsequence(a, b, |a|, |b|);
    WalkLength(a, b, |a|, |b|);
    assert a[..|a|] == a && b[..|b|] == b;
    forall x: string | IsSubsequence(x, a) && IsSubsequence(x, b)
      ensures |x| <= Table(a, b, |a|, |b|)
    {
      TableIsMaximal(a, b, |a|, |b|, x);
    }
    Walk(a, b, |a|, |b|)
  }

  /** The walk collects as many characters as the table value. */
  lemma {:induction false} WalkLength(a: string, b: string, i: nat, j: nat)
    requires i <= |a| && j <= |b|
    ensures |Walk(a, b, i, j)| == Table(a, b, i, j)
    decreases i + j
  {
    if i == 0 || j == 0 {
    } else if a[i - 1] == b[j - 1] {
      WalkLength(a, b, i - 1, j - 1);
    } else if Table(a, b, i - 1, j) > Table(a, b, i, j - 1) {
      WalkLength(a, b, i - 1, j);
    } else {
      WalkLength(a, b, i, j - 1);
    }
  }

  /** Appending the last character of a prefix to a subsequence of the shorter prefix. */
  lemma SnocPrefix(w: string, s: string, i: nat)
    requires 0 < i <= |s| && IsSubsequence(w, s[..i - 1])
    ensures IsSubsequence(w + [s[i - 1]], s[..i])
    ensures IsSubsequence(w, s[..i])
  {
    SubsequenceSnoc(w, s[..i - 1], s[i - 1]);
    assert s[..i - 1] + [s[i - 1]] == s[..i];
  }

  /** The walk yields a common subsequence of the two prefixes. */
  lemma {:induction false} WalkIsCommonSubsequence(a: string, b: string, i: nat, j: nat)
    requires i <= |a| && j <= |b|
    ensures IsSubsequence(Walk(a, b, i, j), a[..i])
    ensures IsSubsequence(Walk(a, b, i, j), b[..j])
    decreases i + j
  {
    if i == 0 || j == 0 {
    } else if a[i - 1] == b[j - 1] {
      WalkIsCommonSubsequence(a, b, i - 1, j - 1);
      SnocPrefix(Walk(a, b, i - 1, j - 1), a, i);
      SnocPrefix(Walk(a, b, i - 1, j - 1), b, j);
    } else if Table(a, b, i - 1, j) > Table(a, b, i, j - 1) {
      WalkIsCommonSubsequence(a, b, i - 1, j);
      SnocPrefix(Walk(a, b, i - 1, j), a, i);
    } else {
      WalkIsCommonSubsequence(a, b, i, j - 1);
      SnocPrefix(Walk(a, b, i, j - 1), b, j);
    }
  }

  /** No common subsequence of the prefixes is longer than the table value. */
  lemma {:induction false} TableIsMaximal(a: string, b: string, i: nat, j: nat, x: string)
    requires i <= |a| && j <= |b|
    requires IsSubsequence(x, a[..i]) && IsSubsequence(x, b[..j])
    ensures |x| <= Table(a, b, i, j)
    decreases i + j
  {
    if |x| == 0 || i == 0 || j == 0 {
      return;
    }
    var c := x[|x| - 1];
    var x' := x[..|x| - 1];
    assert a[..i][..i - 1] == a[..i - 1];
    assert b[..j][..j - 1] == b[..j - 1];
    if a[i - 1] == b[j - 1] {
      if c == a[i - 1] {
        // both last characters are c: dropping c leaves a common subsequence
        // of the shorter prefixes
        DropMatchedLast(x, a[..i]);
        DropMatchedLast(x, b[..j]);
        TableIsMaximal(a, b, i - 1, j - 1, x');
      } else {
        // neither last character is used
        assert IsSubsequence(x, a[..i - 1]) && IsSubsequence(x, b[..j - 1]);
        TableIsMaximal(a, b, i - 1, j - 1, x);
      }
    } else if c != a[i - 1] {
      assert IsSubsequence(x, a[..i - 1]);
      TableIsMaximal(a, b, i - 1, j, x);
    } else {
      assert IsSubsequence(x, b[..j - 1]);
      TableIsMaximal(a, b, i, j - 1, x);
    }
  }

  /** If the last elements agree, a subsequence minus its last element is a
      subsequence of the sequence minus its last element. */
  lemma DropMatchedLast(x: string, y: string)
    requires |x| > 0 && |y| > 0 && x[|x| - 1] == y[|y| - 1]
    requires IsSubsequence(x, y)
    ensures IsSubsequence(x[..|x| - 1], y[..|y| - 1])
  {
    if !IsSubsequence(x[..|x| - 1], y[..|y| - 1]) {
      assert IsSubsequence(x, y[..|y| - 1]);
      SubsequenceDropLast(x, y[..|y| - 1]);
    }
  }

  /** The longest common subsequence of a string with itself is the string. */
  lemma {:induction false} WalkSelf(a: string, i: nat)
    requires i <= |a|
    ensures Walk(a, a, i, i) == a[..i]
  {
    if i > 0 {
      WalkSelf(a, i - 1);
      assert a[..i] == a[..i - 1] + [a[i - 1]];
    }
  }

  lemma LongestCommonSubsequenceSelf(a: string)
    ensures LongestCommonSubsequence(a, a) == a
  {
    WalkSelf(a, |a|);
    assert a[..|a|] == a;
  }

  /** Strings with no character in common have an empty longest common subsequence. */
  lemma {:induction false} TableDisjoint(a: string, b: string, i: nat, j: nat)
    requires i <= |a| && j <= |b|
    requires forall k | 0 <= k < |a| :: a[k] !in b
    ensures Table(a, b, i, j) == 0
    decreases i + j
  {
    if i > 0 && j > 0 {
      assert b[j - 1] in b;
      TableDisjoint(a, b, i - 1, j);
      TableDisjoint(a, b, i, j - 1);
    }
  }
}
