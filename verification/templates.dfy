/**
 Fill-in-the-middle prompt templates (vvAutocompleteTemplate.ts): the template
 table, selection by model name, and placeholder substitution.
 */
module Templates {
  import opened Text

  /** A prompt format with `{prefix}` and `{suffix}` placeholders, and the strings
      that end generation. */
  datatype FimTemplate = FimTemplate(template: string, stopTokens: seq<string>)

  /** The placeholders; each template below is written as its literal pieces
      around them. */
  const Prefix := "{prefix}"
  const Suffix := "{suffix}"

  const StableCodeFim := FimTemplate(
    "<fim_prefix>" + Prefix + "<fim_suffix>" + Suffix + "<fim_middle>",
    ["<fim_prefix>", "<fim_suffix>", "<fim_middle>", "<file_sep>", "<|endoftext|>", "</fim_middle>", "</code>"])

  const QwenCoderFim := FimTemplate(
    "<|fim_prefix|>" + Prefix + "<|fim_suffix|>" + Suffix + "<|fim_middle|>",
    ["<|endoftext|>", "<|fim_prefix|>", "<|fim_middle|>", "<|fim_suffix|>", "<|fim_pad|>",
     "<|repo_name|>", "<|file_sep|>", "<|im_start|>", "<|im_end|>"])

  const Granite4Fim := FimTemplate(
    "<|fim_prefix|>" + Prefix + "<|fim_suffix|>" + Suffix + "<|fim_middle|>",
    ["<|end_of_text|>", "<|fim_prefix|>", "<|fim_middle|>", "<|fim_suffix|>", "<|fim_pad|>"])

  const CodestralFim := FimTemplate(
    "[SUFFIX]" + Suffix + "[PREFIX]" + Prefix,
    ["[PREFIX]", "[SUFFIX]"])

  /** DeepSeek Coder's markers use FULLWIDTH VERTICAL LINE (U+FF5C) and
      LOWER ONE EIGHTH BLOCK (U+2581). */
  const DeepseekFim := FimTemplate(
    "<\U{FF5C}fim\U{2581}begin\U{FF5C}>" + Prefix + "<\U{FF5C}fim\U{2581}hole\U{FF5C}>" + Suffix
    + "<\U{FF5C}fim\U{2581}end\U{FF5C}>",
    ["<\U{FF5C}fim\U{2581}begin\U{FF5C}>", "<\U{FF5C}fim\U{2581}hole\U{FF5C}>",
     "<\U{FF5C}fim\U{2581}end\U{FF5C}>", "<\U{FF5C}end\U{2581}of\U{2581}sentence\U{FF5C}>"])

  /** The source lists an empty string among Code Llama's stop tokens; it is
      kept as written. */
  const CodeLlamaFim := FimTemplate(
    "<PRE> " + Prefix + " <SUF>" + Suffix + " <MID>",
    ["<PRE>", "<SUF>", "<MID>", ""])

  const StarCoderFim := FimTemplate(
    "<fim_prefix>" + Prefix + "<fim_suffix>" + Suffix + "<fim_middle>",
    ["<fim_prefix>", "<fim_suffix>", "<fim_middle>", "<|endoftext|>", "<file_sep>"])

  /** The default: the Stable Code format. */
  const GenericFim := StableCodeFim

  // ---------------------------------------------------------------------------
  // Selection
  // ---------------------------------------------------------------------------

  /** `getTemplateForModel`: the first family whose name occurs in the
      lower-cased model name, in the order deepseek, qwen, granite, codestral,
      llama, starcoder; otherwise the generic template. */
  function GetTemplateForModel(modelName: string): (t: FimTemplate)
    ensures var lower := ToLower(modelName);
            Contains(lower, "deepseek") ==> t == DeepseekFim
    ensures var lower := ToLower(modelName);
            (!Contains(lower, "deepseek") && Contains(lower, "qwen")) ==> t == QwenCoderFim
    ensures var lower := ToLower(modelName);
            (!Contains(lower, "deepseek") && !Contains(lower, "qwen") && Contains(lower, "granite"))
            ==> t == Granite4Fim
    ensures var lower := ToLower(modelName);
            (!Contains(lower, "deepseek") && !Contains(lower, "qwen") && !Contains(lower, "granite")
             && Contains(lower, "codestral")) ==> t == CodestralFim
    ensures var lower := ToLower(modelName);
            (!Contains(lower, "deepseek") && !Contains(lower, "qwen") && !Contains(lower, "granite")
             && !Contains(lower, "codestral") && Contains(lower, "llama")) ==> t == CodeLlamaFim
    ensures var lower := ToLower(modelName);
            (!Contains(lower, "deepseek") && !Contains(lower, "qwen") && !Contains(lower, "granite")
             && !Contains(lower, "codestral") && !Contains(lower, "llama")
             && (Contains(lower, "starcoder") || Contains(lower, "star-coder"))) ==> t == StarCoderFim
    ensures var lower := ToLower(modelName);
            (!Contains(lower, "deepseek") && !Contains(lower, "qwen") && !Contains(lower, "granite")
             && !Contains(lower, "codestral") && !Contains(lower, "llama")
             && !Contains(lower, "starcoder") && !Contains(lower, "star-coder")) ==> t == StableCodeFim
  {
    var lowerModel := ToLower(modelName);
    CodeLlamaNameRedundant(lowerModel);
    if Contains(lowerModel, "deepseek") then DeepseekFim
    else if Contains(lowerModel, "qwen") then QwenCoderFim
    else if Contains(lowerModel, "granite") then Granite4Fim
    else if Contains(lowerModel, "codestral") then CodestralFim
    else if Contains(lowerModel, "llama") || Contains(lowerModel, "code-llama") then CodeLlamaFim
    else if Contains(lowerModel, "starcoder") || Contains(lowerModel, "star-coder") then StarCoderFim
    else GenericFim
  }

  /** Every name containing "code-llama" also contains "llama", so the second
      test of the Code Llama branch never decides anything. */
  lemma CodeLlamaNameRedundant(s: string)
    ensures Contains(s, "code-llama") ==> Contains(s, "llama")
  {
    if Contains(s, "code-llama") {
      var i :| 0 <= i <= |s| - 10 && OccursAt(s, "code-llama", i);
      assert s[i + 5..i + 10] == s[i..i + 10][5..10];
      assert OccursAt(s, "llama", i + 5);
    }
  }

  /** Selection ignores letter case. */
  lemma SelectionIgnoresCase(modelName: string)
    ensures GetTemplateForModel(ToLower(modelName)) == GetTemplateForModel(modelName)
  {
    ToLowerIdempotent(modelName);
  }

  /** "DeepSeek-Qwen" names two families; deepseek has priority. */
  lemma DeepSeekQwenExample()
    ensures GetTemplateForModel("DeepSeek-Qwen") == DeepseekFim
  {
    var lower := ToLower("DeepSeek-Qwen");
    assert lower[..8] == "deepseek";
    assert OccursAt(lower, "deepseek", 0);
  }

  /** "codellama-7b" selects Code Llama. */
  lemma CodeLlamaExample()
    ensures GetTemplateForModel("codellama-7b") == CodeLlamaFim
  {
    CodeLlamaNameIsLower();
    CodeLlamaNameFamilies();
  }

  lemma CodeLlamaNameIsLower()
    ensures ToLower("codellama-7b") == "codellama-7b"
  {
  }

  /** "codellama-7b" names only the llama family. */
  lemma CodeLlamaNameFamilies()
    ensures var name := "codellama-7b";
            !Contains(name, "deepseek") && !Contains(name, "qwen") && !Contains(name, "granite")
            && !Contains(name, "codestral") && Contains(name, "llama")
  {
    var name := "codellama-7b";
    assert 'p' !in name && 'q' !in name && 'g' !in name && 's' !in name;
    MissingCharNotContained(name, "deepseek", 3);
    MissingCharNotContained(name, "qwen", 0);
    MissingCharNotContained(name, "granite", 0);
    MissingCharNotContained(name, "codestral", 4);
    assert OccursAt(name, "llama", 4);
  }

  /** A name of no known family gets the generic template, which is the Stable
      Code template. */
  lemma UnknownModelExample()
    ensures GetTemplateForModel("gpt") == StableCodeFim
    ensures GenericFim == StableCodeFim
  {
    var name := "gpt";
    assert ToLower(name) == name;
    MissingCharNotContained(name, "deepseek", 0);
    MissingCharNotContained(name, "qwen", 0);
    MissingCharNotContained(name, "granite", 1);
    MissingCharNotContained(name, "codestral", 0);
    MissingCharNotContained(name, "llama", 0);
    MissingCharNotContained(name, "starcoder", 0);
    MissingCharNotContained(name, "star-coder", 0);
  }

  // ---------------------------------------------------------------------------
  // Placeholders
  // ---------------------------------------------------------------------------

  predicate BraceFree(s: string) {
    '{' !in s
  }

  /** `t` occurs in `s` exactly once. */
  predicate OccursOnce(s: string, t: string) {
    Contains(s, t) && forall i, j | 0 <= i <= |s| && 0 <= j <= |s| && OccursAt(s, t, i) && OccursAt(s, t, j) :: i == j
  }

  /** A template laid out as `a`, first placeholder, `b`, second placeholder,
      `c`, with no brace outside the placeholders. */
  predicate LaidOut(t: string, a: string, first: string, b: string, second: string, c: string) {
    t == a + first + b + second + c && BraceFree(a) && BraceFree(b) && BraceFree(c)
    && ((first == Prefix && second == Suffix) || (first == Suffix && second == Prefix))
  }

  /** In a laid-out template the only braces open the two placeholders. */
  lemma OpeningBraces(t: string, a: string, first: string, b: string, second: string, c: string, i: nat)
    requires LaidOut(t, a, first, b, second, c)
    requires i < |t|
    ensures t[i] == '{' ==> i == |a| || i == |a| + 8 + |b|
  {
    var n1 := |a| + 8;
    var n2 := n1 + |b|;
    if i < |a| {
      assert t[i] == a[i];
    } else if |a| < i < n1 {
      assert t[i] == first[i - |a|];
      assert first[i - |a|] in first[1..];
    } else if n1 <= i < n2 {
      assert t[i] == b[i - n1];
    } else if n2 < i < n2 + 8 {
      assert t[i] == second[i - n2];
      assert second[i - n2] in second[1..];
    } else if n2 + 8 <= i {
      assert t[i] == c[i - n2 - 8];
    }
  }

  /** Each placeholder occurs exactly once in a laid-out template. */
  lemma PlaceholdersOnce(t: string, a: string, first: string, b: string, second: string, c: string)
    requires LaidOut(t, a, first, b, second, c)
    ensures OccursOnce(t, Prefix) && OccursOnce(t, Suffix)
  {
    var n1 := |a|;
    var n2 := |a| + 8 + |b|;
    assert t[n1..n1 + 8] == first;
    assert t[n2..n2 + 8] == second;
    assert OccursAt(t, first, n1) && OccursAt(t, second, n2);
    forall i, p | (p == Prefix || p == Suffix) && OccursAt(t, p, i)
      ensures i == (if p == first then n1 else n2)
    {
      assert t[i] == p[0];
      OpeningBraces(t, a, first, b, second, c, i);
      if i == n1 {
        assert p == t[n1..n1 + 8];
      } else {
        assert p == t[n2..n2 + 8];
      }
    }
  }

  lemma StableCodeLaidOut()
    ensures LaidOut(StableCodeFim.template, "<fim_prefix>", Prefix, "<fim_suffix>", Suffix, "<fim_middle>")
  {
  }

  lemma QwenCoderLaidOut()
    ensures LaidOut(QwenCoderFim.template, "<|fim_prefix|>", Prefix, "<|fim_suffix|>", Suffix, "<|fim_middle|>")
  {
  }

  lemma CodestralLaidOut()
    ensures LaidOut(CodestralFim.template, "[SUFFIX]", Suffix, "[PREFIX]", Prefix, "")
  {
    assert CodestralFim.template == "[SUFFIX]" + Suffix + "[PREFIX]" + Prefix + "";
  }

  lemma DeepseekLaidOut()
    ensures LaidOut(DeepseekFim.template, "<\U{FF5C}fim\U{2581}begin\U{FF5C}>", Prefix,
                    "<\U{FF5C}fim\U{2581}hole\U{FF5C}>", Suffix, "<\U{FF5C}fim\U{2581}end\U{FF5C}>")
  {
  }

  lemma CodeLlamaLaidOut()
    ensures LaidOut(CodeLlamaFim.template, "<PRE> ", Prefix, " <SUF>", Suffix, " <MID>")
  {
  }

  /** The layouts of the seven templates. */
  lemma TemplatesLaidOut()
    ensures LaidOut(StableCodeFim.template, "<fim_prefix>", Prefix, "<fim_suffix>", Suffix, "<fim_middle>")
    ensures LaidOut(QwenCoderFim.template, "<|fim_prefix|>", Prefix, "<|fim_suffix|>", Suffix, "<|fim_middle|>")
    ensures LaidOut(Granite4Fim.template, "<|fim_prefix|>", Prefix, "<|fim_suffix|>", Suffix, "<|fim_middle|>")
    ensures LaidOut(CodestralFim.template, "[SUFFIX]", Suffix, "[PREFIX]", Prefix, "")
    ensures LaidOut(DeepseekFim.template, "<\U{FF5C}fim\U{2581}begin\U{FF5C}>", Prefix,
                    "<\U{FF5C}fim\U{2581}hole\U{FF5C}>", Suffix, "<\U{FF5C}fim\U{2581}end\U{FF5C}>")
    ensures LaidOut(CodeLlamaFim.template, "<PRE> ", Prefix, " <SUF>", Suffix, " <MID>")
    ensures LaidOut(StarCoderFim.template, "<fim_prefix>", Prefix, "<fim_suffix>", Suffix, "<fim_middle>")
  {
    StableCodeLaidOut();
    QwenCoderLaidOut();
    assert Granite4Fim.template == QwenCoderFim.template;
    CodestralLaidOut();
    DeepseekLaidOut();
    CodeLlamaLaidOut();
    assert StarCoderFim.template == StableCodeFim.template;
  }

  /** Every template holds "{prefix}" exactly once and "{suffix}" exactly once. */
  lemma EveryTemplateHasEachPlaceholderOnce(t: FimTemplate)
    requires t == StableCodeFim || t == QwenCoderFim || t == Granite4Fim || t == CodestralFim
             || t == DeepseekFim || t == CodeLlamaFim || t == StarCoderFim
    ensures OccursOnce(t.template, Prefix) && OccursOnce(t.template, Suffix)
  {
    TemplatesLaidOut();
    if t == CodestralFim {
      PlaceholdersOnce(t.template, "[SUFFIX]", Suffix, "[PREFIX]", Prefix, "");
    } else if t == DeepseekFim {
      PlaceholdersOnce(t.template, "<\U{FF5C}fim\U{2581}begin\U{FF5C}>", Prefix,
                       "<\U{FF5C}fim\U{2581}hole\U{FF5C}>", Suffix, "<\U{FF5C}fim\U{2581}end\U{FF5C}>");
    } else if t == CodeLlamaFim {
      PlaceholdersOnce(t.template, "<PRE> ", Prefix, " <SUF>", Suffix, " <MID>");
    } else if t == QwenCoderFim || t == Granite4Fim {
      PlaceholdersOnce(t.template, "<|fim_prefix|>", Prefix, "<|fim_suffix|>", Suffix, "<|fim_middle|>");
    } else {
      PlaceholdersOnce(t.template, "<fim_prefix>", Prefix, "<fim_suffix>", Suffix, "<fim_middle>");
    }
  }

  // ---------------------------------------------------------------------------
  // Rendering
  // ---------------------------------------------------------------------------

  /** `renderFimPrompt`: replace the first "{prefix}", then the first "{suffix}"
      of the result. */
  function RenderFimPrompt(template: FimTemplate, prefix: string, suffix: string): (r: string)
    // a template without placeholders is sent as it stands
    ensures !Contains(template.template, Prefix) && !Contains(template.template, Suffix)
            ==> r == template.template
    // without "{prefix}", only the "{suffix}" placeholder gives way to the suffix
    ensures !Contains(template.template, Prefix) && Contains(template.template, Suffix)
            ==> |r| == |template.template| - |Suffix| + |suffix|
    // with both placeholders, each gives way to its value, whatever the values hold
    ensures Contains(template.template, Prefix) && Contains(template.template, Suffix)
            ==> |r| == |template.template| - |Prefix| - |Suffix| + |prefix| + |suffix|
  {
    var r := ReplaceFirst(ReplaceFirst(template.template, Prefix, prefix), Suffix, suffix);
    if Contains(template.template, Prefix) && Contains(template.template, Suffix) then
      SuffixSurvivesPrefix(template.template, prefix);
      r
    else r
  }

  /** A "{prefix}" and a "{suffix}" in the same text never overlap. */
  lemma PlaceholdersApart(t: string, i: int, j: int)
    requires OccursAt(t, Prefix, i) && OccursAt(t, Suffix, j)
    ensures i + |Prefix| <= j || j + |Suffix| <= i
  {
    forall k | i <= k < i + 8
      ensures t[k] == Prefix[k - i]
    {
      assert t[k] == t[i..i + 8][k - i];
    }
    forall k | j <= k < j + 8
      ensures t[k] == Suffix[k - j]
    {
      assert t[k] == t[j..j + 8][k - j];
    }
    assert forall d | 1 <= d < 8 :: Prefix[d] != '{' && Suffix[d] != '{';
    assert t[i] == '{' && t[j] == '{' && t[i + 1] == 'p' && t[j + 1] == 's';
  }

  /** Substituting the first "{prefix}" leaves a "{suffix}" of the text in place,
      so the second replace always finds one. */
  lemma SuffixSurvivesPrefix(t: string, value: string)
    requires Contains(t, Prefix) && Contains(t, Suffix)
    ensures Contains(ReplaceFirst(t, Prefix, value), Suffix)
  {
    var i := IndexOf(t, Prefix);
    var j :| 0 <= j <= |t| - |Suffix| && OccursAt(t, Suffix, j);
    PlaceholdersApart(t, i, j);
    var t1 := t[..i] + value + t[i + 8..];
    assert ReplaceFirst(t, Prefix, value) == t1;
    if j + 8 <= i {
      assert t1[j..j + 8] == t[j..j + 8];
      assert OccursAt(t1, Suffix, j);
    } else {
      var k := j - 8 + |value|;
      assert t1[k..k + 8] == t[j..j + 8];
      assert OccursAt(t1, Suffix, k);
    }
  }

  /** The first placeholder after a brace-free start is found where it stands. */
  lemma FirstAfterBraceFree(a: string, p: string, rest: string)
    requires BraceFree(a) && |p| > 0 && p[0] == '{'
    ensures IndexOf(a + p + rest, p) == |a|
  {
    var s := a + p + rest;
    assert s[|a|..|a| + |p|] == p;
    forall j | 0 <= j < |a|
      ensures !OccursAt(s, p, j)
    {
      assert s[j] == a[j];
    }
    IndexOfIsFirst(s, p, |a|);
  }

  /** In the suffix-first layout the "{prefix}" placeholder is found where it
      stands, behind the "{suffix}" one. */
  lemma PrefixAfterSuffix(a: string, b: string, c: string)
    requires BraceFree(a) && BraceFree(b)
    ensures IndexOf(a + Suffix + b + Prefix + c, Prefix) == |a| + 8 + |b|
  {
    var t := a + Suffix + b + Prefix + c;
    var k := |a| + 8 + |b|;
    assert t[k..k + 8] == Prefix;
    forall j | 0 <= j < k
      ensures !OccursAt(t, Prefix, j)
    {
      if j < |a| {
        assert t[j] == a[j];
        DiffersAt(t, Prefix, j, 0);
      } else if j == |a| {
        assert t[j + 1] == Suffix[1];
        DiffersAt(t, Prefix, j, 1);
      } else if j < |a| + 8 {
        assert t[j] == Suffix[j - |a|];
        assert Suffix[j - |a|] in Suffix[1..];
        DiffersAt(t, Prefix, j, 0);
      } else {
        assert t[j] == b[j - |a| - 8];
        DiffersAt(t, Prefix, j, 0);
      }
    }
    IndexOfIsFirst(t, Prefix, k);
  }

  /** Substituting a placeholder at a brace-free start. */
  lemma ReplaceAfterBraceFree(a: string, p: string, rest: string, value: string)
    requires BraceFree(a) && |p| > 0 && p[0] == '{'
    ensures ReplaceFirst(a + p + rest, p, value) == a + value + rest
  {
    FirstAfterBraceFree(a, p, rest);
    ReplaceFirstAt(a, p, rest, value);
  }

  /** In the suffix-first layout the "{prefix}" placeholder is substituted where
      it stands. */
  lemma ReplacePrefixAfterSuffix(a: string, b: string, c: string, prefix: string)
    requires BraceFree(a) && BraceFree(b)
    ensures ReplaceFirst(a + Suffix + b + Prefix + c, Prefix, prefix) == a + Suffix + (b + prefix + c)
  {
    PrefixAfterSuffix(a, b, c);
    ReplaceFirstAt(a + Suffix + b, Prefix, c, prefix);
  }

  /** Suffix-first layout (Codestral): rendering substitutes both placeholders
      whatever the prefix and suffix contain. */
  lemma RenderSuffixFirst(a: string, b: string, c: string, prefix: string, suffix: string)
    requires BraceFree(a) && BraceFree(b) && BraceFree(c)
    ensures var t := a + Suffix + b + Prefix + c;
            ReplaceFirst(ReplaceFirst(t, Prefix, prefix), Suffix, suffix) == a + suffix + b + prefix + c
  {
    ReplacePrefixAfterSuffix(a, b, c, prefix);
    ReplaceAfterBraceFree(a, Suffix, b + prefix + c, suffix);
    assert a + suffix + (b + prefix + c) == a + suffix + b + prefix + c;
  }

  /** Codestral places the suffix before the prefix. */
  lemma RenderCodestral(prefix: string, suffix: string)
    ensures RenderFimPrompt(CodestralFim, prefix, suffix) == "[SUFFIX]" + suffix + "[PREFIX]" + prefix
  {
    var a, b := "[SUFFIX]", "[PREFIX]";
    assert BraceFree(a) && BraceFree(b) && BraceFree("");
    assert CodestralFim.template == a + Suffix + b + Prefix + "";
    RenderSuffixFirst(a, b, "", prefix, suffix);
    assert "[SUFFIX]" + suffix + "[PREFIX]" + prefix + "" == "[SUFFIX]" + suffix + "[PREFIX]" + prefix;
  }

  /** After the prefix is substituted, the "{suffix}" placeholder is still the
      first one, provided the prefix holds none and `b` cannot complete one the
      prefix begins. */
  lemma SuffixAfterSubstitutedPrefix(a: string, b: string, c: string, prefix: string)
    requires BraceFree(a) && BraceFree(b)
    requires |b| > 0 && b[0] !in "suffix}"
    requires !Contains(prefix, Suffix)
    ensures IndexOf(a + prefix + b + Suffix + c, Suffix) == |a| + |prefix| + |b|
  {
    var t1 := a + prefix + b + Suffix + c;
    var k := |a| + |prefix| + |b|;
    assert t1[k..k + 8] == Suffix;
    var m := |a| + |prefix|;
    forall j | 0 <= j < k
      ensures !OccursAt(t1, Suffix, j)
    {
      if j < |a| {
        assert t1[j] == a[j];
      } else if j + 8 <= m {
        assert prefix[j - |a|..j - |a| + 8] == t1[j..j + 8];
        assert !OccursAt(prefix, Suffix, j - |a|);
      } else if j < m {
        assert t1[m] == b[0];
        assert Suffix[m - j] in "suffix}";
        assert t1[j..j + 8][m - j] == t1[m];
      } else {
        assert t1[j] == b[j - m];
      }
    }
    IndexOfIsFirst(t1, Suffix, k);
  }

  /** Prefix-first layout: with no "{suffix}" inside the prefix, and a `b` whose
      first character cannot continue a "{suffix}" begun at the end of the
      prefix, both placeholders are substituted where they stand. */
  lemma RenderPrefixFirst(a: string, b: string, c: string, prefix: string, suffix: string)
    requires BraceFree(a) && BraceFree(b) && BraceFree(c)
    requires |b| > 0 && b[0] !in "suffix}"
    requires !Contains(prefix, Suffix)
    ensures var t := a + Prefix + b + Suffix + c;
            ReplaceFirst(ReplaceFirst(t, Prefix, prefix), Suffix, suffix) == a + prefix + b + suffix + c
  {
    FirstAfterBraceFree(a, Prefix, b + Suffix + c);
    assert a + Prefix + b + Suffix + c == a + Prefix + (b + Suffix + c);
    ReplaceFirstAt(a, Prefix, b + Suffix + c, prefix);
    assert a + prefix + (b + Suffix + c) == (a + prefix + b) + Suffix + c;
    SuffixAfterSubstitutedPrefix(a, b, c, prefix);
    ReplaceFirstAt(a + prefix + b, Suffix, c, suffix);
  }

  /** The Stable Code (generic) template renders to its markers around the
      prefix and suffix. */
  lemma RenderStableCode(prefix: string, suffix: string)
    requires !Contains(prefix, Suffix)
    ensures RenderFimPrompt(StableCodeFim, prefix, suffix)
            == "<fim_prefix>" + prefix + "<fim_suffix>" + suffix + "<fim_middle>"
  {
    var a, b, c := "<fim_prefix>", "<fim_suffix>", "<fim_middle>";
    assert BraceFree(a) && BraceFree(b) && BraceFree(c) && b[0] == '<';
    RenderLaidOut(StableCodeFim, a, b, c, prefix, suffix);
  }

  /** A prefix-first template with literal pieces `a`, `b`, `c`: rendering
      substitutes both placeholders where they stand. */
  lemma RenderLaidOut(t: FimTemplate, a: string, b: string, c: string, prefix: string, suffix: string)
    requires t.template == a + Prefix + b + Suffix + c
    requires BraceFree(a) && BraceFree(b) && BraceFree(c)
    requires |b| > 0 && b[0] !in "suffix}"
    requires !Contains(prefix, Suffix)
    ensures RenderFimPrompt(t, prefix, suffix) == a + prefix + b + suffix + c
    ensures |RenderFimPrompt(t, prefix, suffix)| == |t.template| - 16 + |prefix| + |suffix|
  {
    RenderPrefixFirst(a, b, c, prefix, suffix);
  }

  lemma RenderQwenCoder(prefix: string, suffix: string)
    requires !Contains(prefix, Suffix)
    ensures RenderFimPrompt(QwenCoderFim, prefix, suffix)
            == "<|fim_prefix|>" + prefix + "<|fim_suffix|>" + suffix + "<|fim_middle|>"
    ensures |RenderFimPrompt(QwenCoderFim, prefix, suffix)| == |QwenCoderFim.template| - 16 + |prefix| + |suffix|
  {
    var a, b, c := "<|fim_prefix|>", "<|fim_suffix|>", "<|fim_middle|>";
    assert BraceFree(a) && BraceFree(b) && BraceFree(c) && b[0] == '<';
    RenderLaidOut(QwenCoderFim, a, b, c, prefix, suffix);
  }

  lemma RenderDeepseek(prefix: string, suffix: string)
    requires !Contains(prefix, Suffix)
    ensures RenderFimPrompt(DeepseekFim, prefix, suffix) == "<\U{FF5C}fim\U{2581}begin\U{FF5C}>" + prefix + "<\U{FF5C}fim\U{2581}hole\U{FF5C}>"
                                                           + suffix + "<\U{FF5C}fim\U{2581}end\U{FF5C}>"
    ensures |RenderFimPrompt(DeepseekFim, prefix, suffix)| == |DeepseekFim.template| - 16 + |prefix| + |suffix|
  {
    var a, b, c := "<\U{FF5C}fim\U{2581}begin\U{FF5C}>", "<\U{FF5C}fim\U{2581}hole\U{FF5C}>", "<\U{FF5C}fim\U{2581}end\U{FF5C}>";
    assert BraceFree(a) && BraceFree(b) && BraceFree(c) && b[0] == '<';
    RenderLaidOut(DeepseekFim, a, b, c, prefix, suffix);
  }

  lemma RenderCodeLlama(prefix: string, suffix: string)
    requires !Contains(prefix, Suffix)
    ensures RenderFimPrompt(CodeLlamaFim, prefix, suffix) == "<PRE> " + prefix + " <SUF>" + suffix + " <MID>"
    ensures |RenderFimPrompt(CodeLlamaFim, prefix, suffix)| == |CodeLlamaFim.template| - 16 + |prefix| + |suffix|
  {
    var a, b, c := "<PRE> ", " <SUF>", " <MID>";
    assert BraceFree(a) && BraceFree(b) && BraceFree(c) && b[0] == ' ';
    RenderLaidOut(CodeLlamaFim, a, b, c, prefix, suffix);
  }

  /** For every template and any prefix and suffix, rendering removes the two
      8-character placeholders and inserts prefix and suffix. */
  lemma RenderLength(t: FimTemplate, prefix: string, suffix: string)
    requires t == StableCodeFim || t == QwenCoderFim || t == Granite4Fim || t == CodestralFim
             || t == DeepseekFim || t == CodeLlamaFim || t == StarCoderFim
    ensures |RenderFimPrompt(t, prefix, suffix)| == |t.template| - 16 + |prefix| + |suffix|
  {
    EveryTemplateHasEachPlaceholderOnce(t);
  }

  /** A prefix holding "{suffix}" is not kept as typed: the second replace finds
      that copy before the template's own placeholder, so the suffix lands inside
      the prefix and the template's "{suffix}" is sent as it stands. */
  lemma SuffixInPrefixIsReplaced(t: FimTemplate, a: string, rest: string,
                                 x: string, y: string, suffix: string)
    requires t.template == a + Prefix + rest
    requires BraceFree(a) && BraceFree(x)
    ensures RenderFimPrompt(t, x + Suffix + y, suffix) == a + x + suffix + y + rest
  {
    ReplaceSuffixInPrefix(a, rest, x, y, suffix);
  }

  /** The two replaces on a template with a brace-free start, at string level. */
  lemma ReplaceSuffixInPrefix(a: string, rest: string, x: string, y: string, suffix: string)
    requires BraceFree(a) && BraceFree(x)
    ensures ReplaceFirst(ReplaceFirst(a + Prefix + rest, Prefix, x + Suffix + y), Suffix, suffix)
            == a + x + suffix + y + rest
  {
    ReplaceAfterBraceFree(a, Prefix, rest, x + Suffix + y);
    assert a + (x + Suffix + y) + rest == (a + x) + Suffix + (y + rest);
    ReplaceAfterBraceFree(a + x, Suffix, y + rest, suffix);
    assert (a + x) + suffix + (y + rest) == a + x + suffix + y + rest;
  }

  /** The Stable Code case: "x{suffix}y" as the prefix sends the suffix after
      "x" and leaves the template's own placeholder unfilled. */
  lemma StableCodeSuffixInPrefix(x: string, y: string, suffix: string)
    requires BraceFree(x)
    ensures RenderFimPrompt(StableCodeFim, x + Suffix + y, suffix)
            == "<fim_prefix>" + x + suffix + y + "<fim_suffix>{suffix}<fim_middle>"
  {
    var a, rest := "<fim_prefix>", "<fim_suffix>{suffix}<fim_middle>";
    assert BraceFree(a);
    assert StableCodeFim.template == a + Prefix + rest;
    SuffixInPrefixIsReplaced(StableCodeFim, a, rest, x, y, suffix);
  }

}
