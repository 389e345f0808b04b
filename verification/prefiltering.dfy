/**
 The prefilter (prefiltering.ts): documents for which no completion is requested.
 */
module Prefiltering {
  import opened Text
  import Filters

  /** The path patterns `/\.prompt$/`, `/\.continueignore$/`, `/\.gitignore$/`. */
  predicate HasSkippedExtension(filepath: string) {
    EndsWith(filepath, ".prompt") || EndsWith(filepath, ".continueignore")
    || EndsWith(filepath, ".gitignore")
  }

  /** `shouldSkipCompletion`, over the document's path, whether it is untitled and
      its text. */
  function ShouldSkipCompletion(filepath: string, isUntitled: bool, text: string): (r: bool)
    ensures Contains(filepath, "config.json") || Contains(filepath, "settings.json") ==> r
    ensures isUntitled && Filters.IsBlank(text) ==> r
    ensures HasSkippedExtension(filepath) ==> r
    ensures r ==> Contains(filepath, "config.json") || Contains(filepath, "settings.json")
                  || (isUntitled && Filters.IsBlank(text)) || HasSkippedExtension(filepath)
  {
    if IndexOf(filepath, "config.json") >= 0 || IndexOf(filepath, "settings.json") >= 0 then true
    else if isUntitled && Trim(text) == "" then true
    else
      var skipPatterns := [".prompt", ".continueignore", ".gitignore"];
      MatchesAny(filepath, skipPatterns, 0)
  }

  /** The `for (const pattern of skipPatterns)` loop. */
  function MatchesAny(filepath: string, suffixes: seq<string>, i: nat): (r: bool)
    requires i <= |suffixes|
    ensures r <==> exists k | i <= k < |suffixes| :: EndsWith(filepath, suffixes[k])
    decreases |suffixes| - i
  {
    if i == |suffixes| then false
    else if EndsWith(filepath, suffixes[i]) then true
    else MatchesAny(filepath, suffixes, i + 1)
  }

  /** An untitled document with text and an ordinary path is not skipped. */
  lemma OrdinaryUntitledNotSkipped()
    ensures !ShouldSkipCompletion("/tmp/Untitled-1", true, "let x")
  {
    var p := "/tmp/Untitled-1";
    assert 'j' !in p;
    assert "config.json"[7] == 'j' && "settings.json"[9] == 'j';
    MissingCharNotContained(p, "config.json", 7);
    MissingCharNotContained(p, "settings.json", 9);
    assert p[|p| - 1] == '1';
    assert !HasSkippedExtension(p);
    assert !Filters.IsBlank("let x") by {
      assert !IsWhitespace("let x"[0]);
    }
  }
}
