/**
 The multiline classifier (multiline.ts): decides whether a completion may
 span several lines.
 */
module Multiline {
  import opened Options
  import opened Text
  import opened HelperVars

  datatype MultilineMode = Always | Never | Auto

  /** The cursor line, as far as it lies before the cursor, starts (after
      indentation) with the language's comment token. A missing or empty token
      never matches (`if (helper.lang.singleLineComment)`). */
  predicate OnCommentLine(h: HelperVars) {
    match h.lang.singleLineComment
    case None => false
    case Some(token) =>
      var lines := SplitLines(h.fullPrefix);
      token != "" && StartsWith(TrimStart(lines[|lines| - 1]), token)
  }

  /** `shouldCompleteMultiline`. */
  function ShouldCompleteMultiline(h: HelperVars, mode: MultilineMode): (r: bool)
    ensures mode == Always ==> r
    ensures mode == Never ==> !r
    ensures mode == Auto && (h.hasSelectedCompletion || OnCommentLine(h)) ==> !r
    ensures mode == Auto && !h.hasSelectedCompletion && !OnCommentLine(h) ==>
              r == (h.lang.useMultiline.None?
                    || h.lang.useMultiline.value(h.prunedPrefix, h.prunedSuffix))
  {
    match mode
    case Always => true
    case Never => false
    case Auto =>
      if h.hasSelectedCompletion then false
      else if OnCommentLine(h) then false
      else if h.lang.useMultiline.Some? then
        h.lang.useMultiline.value(h.prunedPrefix, h.prunedSuffix)
      else true
  }

  /** With the built-in language table no language has a `useMultiline` rule,
      so under "auto" a completion is multiline exactly when no completion is
      selected and the cursor is not on a single-line comment. */
  lemma AutoWithBuiltInLanguages(text: string, offset: nat, line: nat, character: nat,
                                 languageId: string, selected: bool, modelName: string)
    ensures var h := Create(text, offset, line, character, languageId, selected, modelName);
            ShouldCompleteMultiline(h, Auto) <==> !selected && !OnCommentLine(h)
  {
  }
}
