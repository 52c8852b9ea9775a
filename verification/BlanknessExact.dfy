/** The static answer about blank renderings is exact outside regexes. */
module BlanknessExact {
  import opened Wrappers
  import opened Text
  import opened Model
  import opened Matching
  import opened Render
  import opened Holes
  import opened Validation
  import opened ValidRules
  import opened Blankness
  import opened SelfLoop

  /** Every token the rule matches renders to blank text, or is refused. */
  ghost predicate AlwaysBlank(re: RegexEngine, rule: Abbr, template: string) {
    forall token :: MatchRule(re, rule, token).Some? ==>
      RendersBlank(rule, template, MatchRule(re, rule, token).value) != Some(false)
  }

  /** Every token the rule matches renders to visible text, or is refused. */
  ghost predicate NeverBlank(re: RegexEngine, rule: Abbr, template: string) {
    forall token :: MatchRule(re, rule, token).Some? ==>
      RendersBlank(rule, template, MatchRule(re, rule, token).value) != Some(true)
  }

  lemma SoundAnswers(re: RegexEngine, rule: Abbr, template: string)
    requires ValidRule(re, rule)
    ensures BlanknessOf(re, rule, template) == Always ==> AlwaysBlank(re, rule, template)
    ensures BlanknessOf(re, rule, template) == Never ==> NeverBlank(re, rule, template)
  {
    hide ValidRule, BlanknessOf, MatchRule, RendersBlank;
    forall token | MatchRule(re, rule, token).Some?
      ensures BlanknessOf(re, rule, template) == Always ==>
        RendersBlank(rule, template, MatchRule(re, rule, token).value) != Some(false)
      ensures BlanknessOf(re, rule, template) == Never ==>
        RendersBlank(rule, template, MatchRule(re, rule, token).value) != Some(true)
    {
      BlanknessIsSound(re, rule, template, token, MatchRule(re, rule, token).value);
    }
  }

  /** One matched token with a rendering settles at most one of the two. */
  lemma OneTokenDecides(re: RegexEngine, rule: Abbr, template: string, token: string, b: Bindings, blank: bool)
    requires MatchRule(re, rule, token) == Some(b) && RendersBlank(rule, template, b) == Some(blank)
    ensures blank ==> !NeverBlank(re, rule, template)
    ensures !blank ==> !AlwaysBlank(re, rule, template)
  {
  }

  // ----- exact and {number} keys -----

  lemma ExactAnswers(re: RegexEngine, rule: Abbr, template: string)
    requires ValidRule(re, rule) && PhaseOf(rule).ExactPhase? && ByteLen(template) <= MAX_EXPAND_BYTES
    ensures BlanknessOf(re, rule, template) == Always <==> AlwaysBlank(re, rule, template)
    ensures BlanknessOf(re, rule, template) == Never <==> NeverBlank(re, rule, template)
  {
    assert MatchRule(re, rule, rule.key) == Some(NO_BINDINGS);
    hide ValidRule, MatchRule, RendersBlank, AlwaysBlank, NeverBlank;
    SoundAnswers(re, rule, template);
    ExactRenders(rule, template);
    var blank := RendersBlank(rule, template, NO_BINDINGS).value;
    OneTokenDecides(re, rule, template, rule.key, NO_BINDINGS, blank);
  }

  lemma ExactRenders(rule: Abbr, template: string)
    requires ByteLen(template) <= MAX_EXPAND_BYTES
    ensures RendersBlank(rule, template, NO_BINDINGS).Some?
  {
    hide FullText, CursorOffset, IsBlank, ByteLen, SubstituteCaptures, SplitAtCursor;
    RenderIsFullTextWithinCap(rule, template, NO_BINDINGS);
    FullTextWithoutCaptures(template, NO_BINDINGS);
    StrippedIsShorter(template);
  }

  lemma {:induction false} StrippedIsShorter(s: string)
    ensures ByteLen(StripCursor(s)) <= ByteLen(s)
  {
    if s != "" {
      if CURSOR_PLACEHOLDER <= s {
        assert s == CURSOR_PLACEHOLDER + s[2..];
        ByteLenConcat(CURSOR_PLACEHOLDER, s[2..]);
      } else {
        StrippedIsShorter(s[1..]);
        assert StripCursor(s)[1..] == StripCursor(s[1..]);
      }
    }
  }

  lemma NumberAnswers(re: RegexEngine, rule: Abbr, template: string)
    requires ValidRule(re, rule) && PhaseOf(rule).NumberPhase?
    requires rule.number.Some? && '{' !in rule.number.value && '}' !in rule.number.value
    requires RendersBlank(rule, template, NO_BINDINGS.(number := Some(1))).Some?
    ensures BlanknessOf(re, rule, template) == Always <==> AlwaysBlank(re, rule, template)
    ensures BlanknessOf(re, rule, template) == Never <==> NeverBlank(re, rule, template)
  {
    hide ValidRule, RendersBlank, AlwaysBlank, NeverBlank, MatchAbbrKey;
    SoundAnswers(re, rule, template);
    var token := OneMatches(re, rule);
    var b := NO_BINDINGS.(number := Some(1));
    OneTokenDecides(re, rule, template, token, b, RendersBlank(rule, template, b).value);
  }

  /** The key with one in place of its placeholder. */
  lemma OneMatches(re: RegexEngine, rule: Abbr) returns (token: string)
    requires ValidRule(re, rule) && PhaseOf(rule).NumberPhase?
    ensures MatchRule(re, rule, token) == Some(NO_BINDINGS.(number := Some(1)))
  {
    hide ValidRule, MatchAbbrKey, SplitOnceNumberPlaceholder, IsCountText, DecimalValue;
    ValidNumberRule(re, rule);
    var (prefix, suffix) := SplitOnceNumberPlaceholder(rule.key).value;
    NumberParts(rule.key);
    token := prefix + "1" + suffix;
    OneIsACount();
    NumberKeyAccepts(prefix, "1", suffix);
  }

  lemma NumberParts(key: string)
    requires SplitOnceNumberPlaceholder(key).Some?
    ensures var (prefix, suffix) := SplitOnceNumberPlaceholder(key).value;
      '{' !in prefix && '{' !in suffix && key == prefix + NUMBER_PLACEHOLDER + suffix
  {
  }

  lemma OneIsACount()
    ensures IsCountText("1") && DecimalValue("1") == 1
  {
    assert "1"[..0] == "" && IsDigit('1');
  }

  // ----- glob keys -----

  /** The rendering of a glob rule for a short capture. */
  lemma ShortCaptureRenders(rule: Abbr, template: string, capture: string)
    requires ByteLen(template) <= MAX_EXPAND_BYTES && ByteLen(capture) <= 3
    ensures RendersBlank(rule, template, NO_BINDINGS.(glob := Some(capture)))
         == Some(IsBlank(FillHoles(RenderParts(template), capture)))
  {
    hide RenderWithCursor, FillHoles, RenderParts, IsBlank, ByteLen;
    GlobRendering(rule, template, capture);
    ShortCaptureFits(template, capture);
  }

  /** Blank text with a visible capture holds no capture at all. */
  lemma {:induction false} BlankFillHasNoHole(parts: seq<Part>, v: string)
    requires IsBlank(FillHoles(parts, "x"))
    ensures FillHoles(parts, v) == FillHoles(parts, "x")
  {
    hide IsBlank;
    if parts != [] {
      BlankConcat(PartText(parts[0], "x"), FillHoles(parts[1..], "x"));
      LetterIsVisible();
      BlankFillHasNoHole(parts[1..], v);
    }
  }

  lemma LetterIsVisible()
    ensures !IsBlank("x") && IsBlank("") && ByteLen("x") == 1 && ByteLen("") == 0
  {
    assert "x"[0] in "x" && "x"[1..] == "";
  }

  lemma NoCaptureRenders(rule: Abbr, template: string)
    requires ByteLen(template) <= MAX_EXPAND_BYTES
    ensures RendersBlank(rule, template, NO_BINDINGS)
         == Some(IsBlank(FillHoles(RenderParts(template), GLOB_CAPTURE_PLACEHOLDER)))
  {
    hide FullText, CursorOffset, IsBlank, ByteLen, SubstituteCaptures, FillHoles, RenderParts, Find;
    ExactRenders(rule, template);
    RenderIsFullTextWithinCap(rule, template, NO_BINDINGS);
    RenderPartsPrintBack(template);
    FullTextWithoutCaptures(template, NO_BINDINGS);
    StripCursorIsSplit(template);
  }

  /** A token a glob key matches, with the capture asked for if it has a `*`. */
  lemma GlobTokenOf(re: RegexEngine, rule: Abbr, capture: string) returns (token: string)
    requires rule.matchKind == Some(Glob) && ('*' !in rule.key ==> capture == "")
    ensures MatchRule(re, rule, token) == Some(NO_BINDINGS.(glob := Some(capture)))
  {
    SplitOnceAtFirst(rule.key, '*');
    match SplitOnce(rule.key, '*')
    case None => token := Instance(rule.key, 'a');
    case Some((head, tail)) =>
      token := Instance(head, 'a') + capture + Instance(tail, 'a');
      InstanceMatches(head, tail, capture, 'a');
  }

  lemma GlobBlankness(re: RegexEngine, rule: Abbr, template: string)
    requires rule.matchKind == Some(Glob)
    ensures BlanknessOf(re, rule, template) ==
      match RendersBlank(rule, template, NO_BINDINGS.(glob := Some("")))
      case Some(false) => Never
      case Some(true) =>
        if '*' !in rule.key || RendersBlank(rule, template, NO_BINDINGS) == Some(true) then Always else DependsOnToken
      case None => DependsOnToken
  {
    hide RendersBlank;
  }

  lemma GlobAnswers(re: RegexEngine, rule: Abbr, template: string)
    requires ValidRule(re, rule) && rule.matchKind == Some(Glob) && ByteLen(template) <= MAX_EXPAND_BYTES
    ensures BlanknessOf(re, rule, template) == Always <==> AlwaysBlank(re, rule, template)
    ensures BlanknessOf(re, rule, template) == Never <==> NeverBlank(re, rule, template)
  {
    hide ValidRule, RendersBlank, AlwaysBlank, NeverBlank, BlanknessOf, MatchRule, IsBlank, FillHoles, RenderParts;
    hide ByteLen;
    SoundAnswers(re, rule, template);
    GlobBlankness(re, rule, template);
    LetterIsVisible();
    ShortCaptureRenders(rule, template, "");
    var token := GlobTokenOf(re, rule, "");
    var none := NO_BINDINGS.(glob := Some(""));
    OneTokenDecides(re, rule, template, token, none, RendersBlank(rule, template, none).value);
    if '*' in rule.key {
      var other := GlobTokenOf(re, rule, "x");
      var one := NO_BINDINGS.(glob := Some("x"));
      ShortCaptureRenders(rule, template, "x");
      OneTokenDecides(re, rule, template, other, one, RendersBlank(rule, template, one).value);
      if RendersBlank(rule, template, one) == Some(true) {
        BlankFillHasNoHole(RenderParts(template), GLOB_CAPTURE_PLACEHOLDER);
        NoCaptureRenders(rule, template);
      }
    }
  }

  /** For a valid rule that is no regex the answer is exact: `Always` when every
      token it matches renders blank or is refused, `Never` when every one
      renders visibly or is refused. A `{number}` rule's unit must be free of
      braces, and its rendering for one repetition must fit. */
  lemma BlanknessIsExact(re: RegexEngine, rule: Abbr, template: string)
    requires ValidRule(re, rule) && rule.matchKind != Some(Regex) && ByteLen(template) <= MAX_EXPAND_BYTES
    requires PhaseOf(rule).NumberPhase? ==>
      && rule.number.Some? && '{' !in rule.number.value && '}' !in rule.number.value
      && RendersBlank(rule, template, NO_BINDINGS.(number := Some(1))).Some?
    ensures BlanknessOf(re, rule, template) == Always <==> AlwaysBlank(re, rule, template)
    ensures BlanknessOf(re, rule, template) == Never <==> NeverBlank(re, rule, template)
  {
    hide ValidRule, BlanknessOf, AlwaysBlank, NeverBlank, RendersBlank, ByteLen;
    match PhaseOf(rule)
    case ExactPhase => ExactAnswers(re, rule, template);
    case NumberPhase => NumberAnswers(re, rule, template);
    case GlobPhase => GlobAnswers(re, rule, template);
  }
}
