/**
 Facts about finite sequences used by the stream stages and the
 longest-common-subsequence reconstruction.
 */
module Seqs {

  /** `x` can be obtained from `y` by deleting elements: either the last element of
      `y` is matched by the last element of `x`, or it is skipped. */
  predicate IsSubsequence<T(==)>(x: seq<T>, y: seq<T>)
    decreases |y|
  {
    |x| == 0 ||
    (|y| > 0 &&
      ((x[|x| - 1] == y[|y| - 1] && IsSubsequence(x[..|x| - 1], y[..|y| - 1]))
       || IsSubsequence(x, y[..|y| - 1])))
  }

  /** Concatenation of a sequence of strings (JavaScript `chunks.join("")`). */
  function Concat(parts: seq<string>): (r: string)
    ensures |parts| == 0 ==> r == ""
  {
    if |parts| == 0 then "" else parts[0] + Concat(parts[1..])
  }

  lemma AppendAssoc<T>(x: seq<T>, y: seq<T>, z: seq<T>)
    ensures x + (y + z) == (x + y) + z
  {
  }

  /** Prepending text to a concatenation that starts with `chunks[0]`. */
  lemma ConcatCons(buffer: string, chunks: seq<string>)
    requires |chunks| > 0
    ensures buffer + Concat(chunks) == (buffer + chunks[0]) + Concat(chunks[1..])
  {
    var tail := Concat(chunks[1..]);
    assert Concat(chunks) == chunks[0] + tail;
    AppendAssoc(buffer, chunks[0], tail);
  }

  lemma ConcatAppend(xs: seq<string>, ys: seq<string>)
    ensures Concat(xs + ys) == Concat(xs) + Concat(ys)
  {
    if |xs| > 0 {
      assert (xs + ys)[1..] == xs[1..] + ys;
      ConcatAppend(xs[1..], ys);
    } else {
      assert xs + ys == ys;
    }
  }

  lemma {:induction false} SubsequenceRefl<T>(x: seq<T>)
    ensures IsSubsequence(x, x)
    decreases |x|
  {
    if |x| > 0 {
      SubsequenceRefl(x[..|x| - 1]);
    }
  }

  lemma {:induction false} SubsequenceSnoc<T>(x: seq<T>, y: seq<T>, c: T)
    requires IsSubsequence(x, y)
    ensures IsSubsequence(x + [c], y + [c])
    ensures IsSubsequence(x, y + [c])
  {
    assert (x + [c])[..|x + [c]| - 1] == x;
    assert (y + [c])[..|y + [c]| - 1] == y;
  }

  lemma {:induction false} SubsequenceConsRight<T>(x: seq<T>, y: seq<T>, c: T)
    requires IsSubsequence(x, y)
    ensures IsSubsequence(x, [c] + y)
    decreases |y|
  {
    if |x| > 0 {
      var y' := [c] + y;
      assert y'[..|y'| - 1] == [c] + y[..|y| - 1];
      assert y'[|y'| - 1] == y[|y| - 1];
      if x[|x| - 1] == y[|y| - 1] && IsSubsequence(x[..|x| - 1], y[..|y| - 1]) {
        SubsequenceConsRight(x[..|x| - 1], y[..|y| - 1], c);
      } else {
        SubsequenceConsRight(x, y[..|y| - 1], c);
      }
    }
  }

  lemma {:induction false} SubsequenceConsBoth<T>(x: seq<T>, y: seq<T>, c: T)
    requires IsSubsequence(x, y)
    ensures IsSubsequence([c] + x, [c] + y)
    decreases |y|
  {
    var x', y' := [c] + x, [c] + y;
    if |y| == 0 {
      assert |x| == 0;
      assert x'[..|x'| - 1] == [] && y'[..|y'| - 1] == [];
    } else if |x| == 0 {
      assert y'[..|y'| - 1] == [c] + y[..|y| - 1];
      SubsequenceConsBoth(x, y[..|y| - 1], c);
      assert x + [] == x;
    } else {
      assert x'[..|x'| - 1] == [c] + x[..|x| - 1];
      assert y'[..|y'| - 1] == [c] + y[..|y| - 1];
      if x[|x| - 1] == y[|y| - 1] && IsSubsequence(x[..|x| - 1], y[..|y| - 1]) {
        SubsequenceConsBoth(x[..|x| - 1], y[..|y| - 1], c);
      } else {
        SubsequenceConsBoth(x, y[..|y| - 1], c);
      }
    }
  }

  /** Dropping the last element of a subsequence keeps it a subsequence. */
  lemma {:induction false} SubsequenceDropLast<T>(x: seq<T>, y: seq<T>)
    requires |x| > 0 && IsSubsequence(x, y)
    ensures IsSubsequence(x[..|x| - 1], y)
    decreases |y|
  {
    var x0 := x[..|x| - 1];
    if x[|x| - 1] == y[|y| - 1] && IsSubsequence(x0, y[..|y| - 1]) {
      if |x0| > 0 {
        SubsequenceSnocRight(x0, y[..|y| - 1], y[|y| - 1]);
        assert y[..|y| - 1] + [y[|y| - 1]] == y;
      }
    } else {
      SubsequenceDropLast(x, y[..|y| - 1]);
      if |x0| > 0 {
        SubsequenceSnocRight(x0, y[..|y| - 1], y[|y| - 1]);
        assert y[..|y| - 1] + [y[|y| - 1]] == y;
      }
    }
  }

  lemma SubsequenceSnocRight<T>(x: seq<T>, y: seq<T>, c: T)
    requires IsSubsequence(x, y)
    ensures IsSubsequence(x, y + [c])
  {
    SubsequenceSnoc(x, y, c);
  }

  /** A prefix is a subsequence. */
  lemma {:induction false} PrefixIsSubsequence<T>(p: seq<T>, s: seq<T>)
    requires p <= s
    ensures IsSubsequence(p, s)
    decreases |s|
  {
    if |p| == |s| {
      assert p == s;
      SubsequenceRefl(s);
    } else {
      assert p <= s[..|s| - 1];
      PrefixIsSubsequence(p, s[..|s| - 1]);
      SubsequenceSnocRight(p, s[..|s| - 1], s[|s| - 1]);
      assert s[..|s| - 1] + [s[|s| - 1]] == s;
    }
  }
}
