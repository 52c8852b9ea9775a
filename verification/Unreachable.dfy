/** The search for rules that an earlier rule always hides. */
module Unreachable {
  import opened Wrappers
  import opened Text
  import opened Model
  import opened Matching
  import opened Render
  import opened Expand
  import opened Validation
  import opened ValidRules
  import opened Blankness
  import opened SelfLoop

  /** In no shell is the rule's rendering of an entry blank or the token itself. */
  predicate AlwaysFiresWhenMatched(re: RegexEngine, rule: Abbr) {
    forall v <- rule.expand.AllValues() :: SurelyFires(re, rule, v)
  }

  predicate SurelyFires(re: RegexEngine, rule: Abbr, template: string) {
    (if rule.matchKind.None? then !RewritesTokenToItself(rule, template) else ' ' in template)
    && BlanknessOf(re, rule, template) == Never
  }

  /** Rules with equal identities match the same tokens. */
  type Identity = (Option<MatchKind>, string)

  function IdentityOf(rule: Abbr): Identity {
    (rule.matchKind, rule.key)
  }

  /** The rule hides the later rules of its identity. */
  predicate Hides(re: RegexEngine, rule: Abbr) {
    rule.whenCommandExists.None? && AlwaysFiresWhenMatched(re, rule)
  }

  /** The first of the first `n` rules that has this identity and hides. */
  function FirstHiding(re: RegexEngine, rules: Config, id: Identity, n: nat): (r: Option<nat>)
    requires n <= |rules|
    ensures r.Some? ==> r.value < n && IdentityOf(rules[r.value]) == id && Hides(re, rules[r.value])
  {
    if n == 0 then None
    else
      var earlier := FirstHiding(re, rules, id, n - 1);
      if earlier.Some? then earlier
      else if IdentityOf(rules[n - 1]) == id && Hides(re, rules[n - 1]) then Some(n - 1)
      else None
  }

  lemma {:induction false} FirstHidingIsFirst(re: RegexEngine, rules: Config, id: Identity, n: nat, j: nat)
    requires j < n <= |rules| && IdentityOf(rules[j]) == id && Hides(re, rules[j])
    ensures FirstHiding(re, rules, id, n).Some? && FirstHiding(re, rules, id, n).value <= j
  {
    hide Hides;
    if j < n - 1 {
      FirstHidingIsFirst(re, rules, id, n - 1, j);
    }
  }

  /** Each rule with an earlier hiding rule of its identity, and the first such rule. */
  function Flagged(re: RegexEngine, rules: Config, n: nat): seq<(nat, nat)>
    requires n <= |rules|
  {
    if n == 0 then []
    else
      var hiding := FirstHiding(re, rules, IdentityOf(rules[n - 1]), n - 1);
      Flagged(re, rules, n - 1) + (if hiding.Some? then [(n - 1, hiding.value)] else [])
  }

  /** The check as the program runs it, with a map from identities to the
      first hiding rule. */
  method CheckUnreachableDuplicates(re: RegexEngine, rules: Config) returns (checks: seq<(nat, nat)>)
    ensures checks == Flagged(re, rules, |rules|)
  {
    hide Hides;
    checks := [];
    var unconditionalKeys: map<Identity, nat> := map[];
    for i := 0 to |rules|
      invariant checks == Flagged(re, rules, i)
      invariant forall id :: id in unconditionalKeys <==> FirstHiding(re, rules, id, i).Some?
      invariant forall id :: id in unconditionalKeys ==>
        FirstHiding(re, rules, id, i) == Some(unconditionalKeys[id])
    {
      var identity := IdentityOf(rules[i]);
      if identity in unconditionalKeys {
        checks := checks + [(i, unconditionalKeys[identity])];
      } else if Hides(re, rules[i]) {
        unconditionalKeys := unconditionalKeys[identity := i];
      }
    }
  }

  // ----- soundness -----

  /** The names of capture groups contain no space. */
  ghost predicate GroupNamesHaveNoSpace(re: RegexEngine) {
    forall key :: re.groupNames(key).Some? ==>
      forall i :: 0 <= i < |re.groupNames(key).value| && re.groupNames(key).value[i].Some? ==>
        ' ' !in re.groupNames(key).value[i].value
  }

  ghost predicate HoleNamesHaveNoSpace(b: Bindings) {
    forall name :: ResolveCapture(name, b).Some? ==> ' ' !in name
  }

  lemma {:induction false} FoundGroupHasName(groups: seq<RegexGroup>, name: string)
    requires FindGroup(groups, name).Some?
    ensures exists i :: 0 <= i < |groups| && groups[i].name == Some(name)
  {
    if groups[0].name != Some(name) {
      FoundGroupHasName(groups[1..], name);
      var i :| 0 <= i < |groups[1..]| && groups[1..][i].name == Some(name);
      assert groups[i + 1].name == Some(name);
    }
  }

  lemma LiteralMatchHasNoCaptures(key: string, token: string, b: Bindings)
    requires MatchAbbrKey(key, token) == Some(b)
    ensures b.glob.None? && b.regex.None?
  {
    hide ParseU32, SplitOnceNumberPlaceholder, StripPrefix, StripSuffix, IsDigit;
  }

  lemma RegexMatchHasItsNames(re: RegexEngine, key: string, token: string, groups: seq<RegexGroup>, i: nat)
    requires MatchRegexKey(re, key, token) == Some(groups) && i < |groups|
    ensures re.groupNames(key).Some? && i < |re.groupNames(key).value|
    ensures groups[i].name == re.groupNames(key).value[i]
  {
  }

  lemma CapturedNamesHaveNoSpace(re: RegexEngine, rule: Abbr, token: string, b: Bindings)
    requires GroupNamesHaveNoSpace(re) && MatchRule(re, rule, token) == Some(b)
    ensures HoleNamesHaveNoSpace(b)
  {
    hide MatchAbbrKey, MatchRegexKey, MatchGlobKey, FindGroup;
    if rule.matchKind.None? {
      LiteralMatchHasNoCaptures(rule.key, token, b);
    }
    forall name | ResolveCapture(name, b).Some? ensures ' ' !in name {
      if name != "*" && RegexGroupNumber(name).None? {
        FoundGroupHasName(b.regex.value, name);
        var i :| 0 <= i < |b.regex.value| && b.regex.value[i].name == Some(name);
        RegexMatchHasItsNames(re, rule.key, token, b.regex.value, i);
      }
    }
  }

  lemma {:induction false} SpaceSurvivesFilling(text: string, b: Bindings)
    requires ' ' in text && HoleNamesHaveNoSpace(b)
    ensures ' ' in Filled(text, b)
    decreases |text|
  {
    hide HoleNamesHaveNoSpace;
    var (part, rest) := FirstPart(text, b);
    FirstPartPrints(text, b);
    FilledStep(text, b);
    if ' ' in rest {
      SpaceSurvivesFilling(rest, b);
    } else {
      HoleHasNoSpace(part, b);
    }
  }

  lemma HoleHasNoSpace(part: Part, b: Bindings)
    requires HoleNamesHaveNoSpace(b) && ' ' in PrintPart(part)
    requires part.Hole? ==> ResolveCapture(part.name, b).Some?
    ensures part == Char(' ')
  {
  }

  lemma SpaceSurvivesRendering(template: string, b: Bindings)
    requires ' ' in template && HoleNamesHaveNoSpace(b)
    ensures ' ' in FullText(template, b)
  {
    hide HoleNamesHaveNoSpace, Filled, Find;
    match SplitAtCursor(template)
    case None => SpaceSurvivesFilling(template, b);
    case Some((before, after)) =>
      assert template == before + CURSOR_PLACEHOLDER + after;
      if ' ' in before {
        SpaceSurvivesFilling(before, b);
      } else {
        assert ' ' !in CURSOR_PLACEHOLDER;
        SpaceSurvivesFilling(after, b);
      }
  }

  /** An entry that surely fires: its rendering is never skipped. */
  lemma SureEntryIsNotSkipped(
    re: RegexEngine, rule: Abbr, template: string, token: string, b: Bindings, text: string, cursor: Option<nat>)
    requires GroupNamesHaveNoSpace(re) && ValidRule(re, rule) && SurelyFires(re, rule, template)
    requires ' ' !in token && MatchRule(re, rule, token) == Some(b)
    requires RenderWithCursor(rule, template, b) == Some((text, cursor))
    ensures !IsExactSelfLoop(rule, template) && !IsBlank(text) && !IsPatternSelfLoop(rule, text, token)
  {
    hide ValidRule, BlanknessOf, GroupNamesHaveNoSpace, IsBlank, RenderWithCursor;
    BlanknessIsSound(re, rule, template, token, b);
    assert RendersBlank(rule, template, b) == Some(IsBlank(text));
    if rule.matchKind.Some? {
      CapturedNamesHaveNoSpace(re, rule, token, b);
      CaptureRuleHasNoNumber(re, rule, token, b);
      SpaceSurvivesRendering(template, b);
      RenderIsFullTextWithinCap(rule, template, b);
    }
  }

  lemma CaptureRuleHasNoNumber(re: RegexEngine, rule: Abbr, token: string, b: Bindings)
    requires rule.matchKind.Some? && MatchRule(re, rule, token) == Some(b)
    ensures b.number.None?
  {
  }

  /** A hiding rule fires on a space-free token exactly when it matches the
      token, has an entry for the shell, and its rendering fits. */
  lemma HidingRuleFiresExactly(q: Lookup, rule: Abbr)
    requires GroupNamesHaveNoSpace(q.re) && ValidRule(q.re, rule) && Hides(q.re, rule)
    requires ' ' !in q.token
    ensures q.Firing(rule).Some? <==>
      && q.RuleMatches(rule)
      && rule.expand.ForShell(q.shell).Some?
      && RenderWithCursor(rule, rule.expand.ForShell(q.shell).value, MatchRule(q.re, rule, q.token).value).Some?
  {
    hide ValidRule, GroupNamesHaveNoSpace, SurelyFires, RenderWithCursor, MatchRule, IsExactSelfLoop, IsPatternSelfLoop;
    hide IsBlank;
    if q.RuleMatches(rule) && rule.expand.ForShell(q.shell).Some? {
      var template := rule.expand.ForShell(q.shell).value;
      rule.expand.ForShellIsAValue(q.shell);
      var b := MatchRule(q.re, rule, q.token).value;
      var rendered := RenderWithCursor(rule, template, b);
      if rendered.Some? {
        SureEntryIsNotSkipped(q.re, rule, template, q.token, b, rendered.value.0, rendered.value.1);
      }
    }
  }

  /** The rendering of a matching rule's entry for the shell, if it has one and
      the rendering fits. */
  predicate RendersFor(q: Lookup, rule: Abbr)
    requires q.RuleMatches(rule)
  {
    && rule.expand.ForShell(q.shell).Some?
    && RenderWithCursor(rule, rule.expand.ForShell(q.shell).value, MatchRule(q.re, rule, q.token).value).Some?
  }

  /** A flagged rule is the one that fires exactly when it would fire on its
      own, comes before every other rule that would, and the rule that hides it
      has no entry for the shell or exceeds the cap. */
  lemma {:induction false} FlaggedRuleFiresExactly(q: Lookup, i: nat)
    requires GroupNamesHaveNoSpace(q.re) && Validated(q.re, q.rules) && ' ' !in q.token
    requires i < |q.rules|
    requires FirstHiding(q.re, q.rules, IdentityOf(q.rules[i]), i).Some?
    ensures var j := FirstHiding(q.re, q.rules, IdentityOf(q.rules[i]), i).value;
      q.Winner() == Some(Entry(i, q.rules[i])) <==>
        && q.Firing(q.rules[i]).Some?
        && (q.RuleMatches(q.rules[j]) ==> !RendersFor(q, q.rules[j]))
        && forall k :: 0 <= k < |q.rules| && k != i && k != j && q.Firing(q.rules[k]).Some? ==>
             Precedes(Entry(i, q.rules[i]), Entry(k, q.rules[k]))
  {
    hide ValidRule, GroupNamesHaveNoSpace, AlwaysFiresWhenMatched, RenderWithCursor, MatchRule, RuleOrder, IssuesFrom;
    hide PhaseOf, Lookup.Firing, Lookup.Winner, Hides;
    var j := FirstHiding(q.re, q.rules, IdentityOf(q.rules[i]), i).value;
    ValidatedMeansValidRules(q.re, q.rules);
    HidingRuleFiresExactly(q, q.rules[j]);
    MatchDependsOnKey(q.re, q.rules[i], q.rules[j], q.token);
    q.OnlyMatchesFire(q.rules[j]);
    assert Precedes(Entry(j, q.rules[j]), Entry(i, q.rules[i]));
    q.WinnerIsLeast();
  }

  /** So a flagged rule is never the one that fires, whatever commands exist,
      in every shell where the rule that hides it has an entry whose rendering
      fits. */
  lemma {:induction false} FlaggedRuleNeverFires(q: Lookup, i: nat)
    requires GroupNamesHaveNoSpace(q.re) && Validated(q.re, q.rules) && ' ' !in q.token
    requires i < |q.rules|
    requires FirstHiding(q.re, q.rules, IdentityOf(q.rules[i]), i).Some?
    requires var hiding := q.rules[FirstHiding(q.re, q.rules, IdentityOf(q.rules[i]), i).value];
      && hiding.expand.ForShell(q.shell).Some?
      && (q.RuleMatches(hiding) ==>
            RenderWithCursor(hiding, hiding.expand.ForShell(q.shell).value,
                             MatchRule(q.re, hiding, q.token).value).Some?)
    ensures q.Winner() != Some(Entry(i, q.rules[i]))
  {
    hide Validated, GroupNamesHaveNoSpace, RenderWithCursor, MatchRule, Lookup.Winner, Lookup.Firing, Hides;
    FlaggedRuleFiresExactly(q, i);
    var j := FirstHiding(q.re, q.rules, IdentityOf(q.rules[i]), i).value;
    MatchDependsOnKey(q.re, q.rules[i], q.rules[j], q.token);
    q.OnlyMatchesFire(q.rules[i]);
  }

  // ----- both conditions on the hiding rule are needed -----

  /** Two rules of one identity, of which the first hides and the second fires
      while the first does not. */
  lemma SecondOfTwoFires(q: Lookup, first: Abbr, second: Abbr)
    requires q.rules == [first, second] && IdentityOf(first) == IdentityOf(second)
    requires Hides(q.re, first) && q.Firing(first).None? && q.Firing(second).Some?
    ensures Flagged(q.re, q.rules, 2) == [(1, 0)] && q.Winner() == Some(Entry(1, second))
  {
    hide Hides, Lookup.Firing, Lookup.Winner;
    var rules, id := q.rules, IdentityOf(first);
    assert FirstHiding(q.re, rules, id, 0).None?;
    assert FirstHiding(q.re, rules, id, 1) == Some(0);
    assert Flagged(q.re, rules, 0) == [];
    assert Flagged(q.re, rules, 1) == [] + [];
    assert rules[0] == first && rules[1] == second;
    q.WinnerIsLeast();
  }

  /** A rule with the same short template wherever it has one. */
  lemma SmallRuleIsValid(re: RegexEngine, rule: Abbr, template: string)
    requires IsPrintable(template) && |template| <= MAX_NUMBER_UNIT_BYTES
    requires rule.expand == All(template) || rule.expand == ByShell(None, None, None, Some(template), None)
    requires rule.whenCommandExists.None? && rule.matchKind.None?
    requires IsPrintable(rule.key) && |rule.key| <= MAX_NUMBER_UNIT_BYTES && ValidNumberUse(rule)
    ensures ValidRule(re, rule)
  {
    hide CheckExpandValue, CheckAbbrKey, ValidNumberUse, IsPrintable;
    PrintableIsValid(template);
    PrintableIsValid(rule.key);
    assert forall i :: 0 <= i < |Labelled(rule.expand)| ==> Labelled(rule.expand)[i].1 == template;
  }

  lemma TwoRulesAreValid(re: RegexEngine, first: Abbr, second: Abbr)
    requires ValidRule(re, first) && ValidRule(re, second)
    ensures Validated(re, [first, second])
  {
    hide ValidRule, Validated;
    ValidatedMeansValidRules(re, [first, second]);
  }

  /** The check does not ask in which shells the hiding rule has an entry: here
      rule 2 is flagged because of rule 1, which has an entry for PowerShell
      only, and rule 2 fires in bash. */
  lemma FlaggedRuleFiresInAnotherShell(re: RegexEngine, commandExists: string -> bool)
    ensures
      var rules := [Abbr("a", ByShell(None, None, None, Some("b"), None), None, None, None),
                    Abbr("a", All("c"), None, None, None)];
      && Validated(re, rules) && Flagged(re, rules, 2) == [(1, 0)]
      && Lookup(re, rules, "a", Bash, commandExists).Winner() == Some(Entry(1, rules[1]))
  {
    hide RenderWithCursor, IsBlank, ValidRule, Validated, Flagged, Lookup.Winner;
    var first := Abbr("a", ByShell(None, None, None, Some("b"), None), None, None, None);
    var second := Abbr("a", All("c"), None, None, None);
    SmallRuleIsValid(re, first, "b");
    SmallRuleIsValid(re, second, "c");
    TwoRulesAreValid(re, first, second);
    OneLetterRendering(first, "b");
    OneLetterRendering(second, "c");
    assert first.expand.AllValues() == ["b"];
    assert RendersBlank(first, "b", NO_BINDINGS) == Some(false);
    assert SurelyFires(re, first, "b");
    SecondOfTwoFires(Lookup(re, [first, second], "a", Bash, commandExists), first, second);
  }

  lemma OneLetterRendering(rule: Abbr, letter: string)
    requires letter == "b" || letter == "c"
    ensures RenderWithCursor(rule, letter, NO_BINDINGS) == Some((letter, None)) && !IsBlank(letter)
  {
    assert Find(letter, CURSOR_PLACEHOLDER).None?;
    NothingToFill(letter, NO_BINDINGS);
    RenderIsFullTextWithinCap(rule, letter, NO_BINDINGS);
    ByteLenAtMostFourTimes(letter);
    assert letter[0] in letter;
  }

  // ----- an over-long repetition -----

  /** Thirty-two bytes, the longest unit. */
  const LONG_UNIT := "xxxxxxxxxxxxxxxxxxxxxxxxxxxxxxxx"
  const TWICE := NUMBER_PLACEHOLDER + NUMBER_PLACEHOLDER
  const COUNTED_KEY := "a" + NUMBER_PLACEHOLDER

  lemma ReplacedTwice(with: string)
    ensures ReplaceAll(TWICE, NUMBER_PLACEHOLDER, with) == with + with
  {
    assert TWICE[|NUMBER_PLACEHOLDER|..] == NUMBER_PLACEHOLDER;
    assert NUMBER_PLACEHOLDER[|NUMBER_PLACEHOLDER|..] == "";
    assert ReplaceAll(NUMBER_PLACEHOLDER, NUMBER_PLACEHOLDER, with) == with + "";
  }

  lemma CountedKeyShape(unit: string, expand: PerShell<string>)
    requires CheckNumberUnit(unit).None?
    ensures IsPrintable(COUNTED_KEY) && |COUNTED_KEY| <= MAX_NUMBER_UNIT_BYTES
    ensures var rule := Abbr(COUNTED_KEY, expand, None, Some(unit), None);
      PhaseOf(rule).NumberPhase? && ValidNumberUse(rule)
  {
    hide CheckNumberUnit;
    assert COUNTED_KEY[1..] == NUMBER_PLACEHOLDER && COUNTED_KEY[0] == 'a' && COUNTED_KEY[1] == '{';
    assert NUMBER_PLACEHOLDER[|NUMBER_PLACEHOLDER|..] == "";
    assert CountOf(NUMBER_PLACEHOLDER, NUMBER_PLACEHOLDER) == 1 + CountOf("", NUMBER_PLACEHOLDER) == 1;
    assert CountOf(COUNTED_KEY, NUMBER_PLACEHOLDER) == 1;
    assert ReplaceAll(NUMBER_PLACEHOLDER, NUMBER_PLACEHOLDER, "") == "" + "";
    assert ReplaceAll(COUNTED_KEY, NUMBER_PLACEHOLDER, "") == "a" + "";
  }

  lemma HighestCount()
    ensures IsCountText("128") && DecimalValue("128") == 128
  {
    var one, twelve := "1", "12";
    assert one[..0] == "" && twelve[..1] == one && "128"[..2] == twelve;
    assert IsDigit('1') && IsDigit('2') && IsDigit('8');
    assert DecimalValue(one) == 1;
    assert DecimalValue(twelve) == 12;
  }

  lemma CountedToken(re: RegexEngine, rule: Abbr)
    requires rule.key == COUNTED_KEY && rule.matchKind.None?
    ensures MatchRule(re, rule, "a128") == Some(NO_BINDINGS.(number := Some(128)))
  {
    hide MatchAbbrKey, DecimalValue, IsCountText;
    HighestCount();
    NumberKeyAccepts("a", "128", "");
    assert "a" + NUMBER_PLACEHOLDER + "" == COUNTED_KEY;
    assert "a" + "128" + "" == "a128";
  }

  lemma OnceRendered(rule: Abbr)
    requires rule.number == Some(LONG_UNIT)
    ensures RenderNumber(rule, TWICE, NO_BINDINGS.(number := Some(1))) == Some(LONG_UNIT + LONG_UNIT)
    ensures ByteLen(LONG_UNIT + LONG_UNIT) == 64
  {
    hide ByteLen, ReplaceAll;
    assert Repeat(LONG_UNIT, 1) == LONG_UNIT + Repeat(LONG_UNIT, 0) == LONG_UNIT;
    hide Repeat;
    PrintableByteLen(LONG_UNIT);
    ReplacedTwice(LONG_UNIT);
    ByteLenConcat(LONG_UNIT, LONG_UNIT);
  }

  lemma LongUnitText()
    ensures var text := LONG_UNIT + LONG_UNIT; text != "" && text[0] == 'x' && '{' !in text
    ensures '{' !in LONG_UNIT && '}' !in LONG_UNIT && COUNTED_KEY[1] == '{'
  {
  }

  /** Two repetitions of the longest unit, once each: visible text. */
  lemma OnceIsVisible(re: RegexEngine, rule: Abbr)
    requires rule.key == COUNTED_KEY && rule.matchKind.None? && rule.number == Some(LONG_UNIT)
    ensures BlanknessOf(re, rule, TWICE) == Never
  {
    hide RenderWithCursor, RenderNumber, FullText, IsBlank, ByteLen;
    var b, text := NO_BINDINGS.(number := Some(1)), LONG_UNIT + LONG_UNIT;
    OnceRendered(rule);
    LongUnitText();
    PlainTextShown(text, b);
    RenderIsFullTextWithinCap(rule, TWICE, b);
    VisibleText(text);
  }

  lemma VisibleText(text: string)
    requires text != "" && text[0] == 'x'
    ensures !IsBlank(text)
  {
    assert text[0] in text && !IsWhitespace('x');
  }

  lemma PlainTextShown(text: string, b: Bindings)
    requires '{' !in text && b.glob.None? && b.regex.None?
    ensures FullText(text, b) == text
  {
    hide Filled, Find;
    NothingToFill(text, b);
    NoBraceNoCursor(text);
  }

  lemma NoBraceNoCursor(text: string)
    ensures SplitAtCursor(text).Some? ==> '{' in text
  {
    if SplitAtCursor(text).Some? {
      assert text[|SplitAtCursor(text).value.0|] == '{';
    }
  }

  /** At the highest count the two repetitions need twice the cap. */
  lemma TooLongAtTheHighestCount(rule: Abbr)
    requires rule.number == Some(LONG_UNIT)
    ensures RenderWithCursor(rule, TWICE, NO_BINDINGS.(number := Some(128))).None?
  {
    hide ByteLen, Repeat, ReplaceAll;
    var repeated := Repeat(LONG_UNIT, 128);
    PrintableByteLen(LONG_UNIT);
    RepeatByteLen(LONG_UNIT, 128);
    ReplacedTwice(repeated);
    ByteLenConcat(repeated, repeated);
  }

  lemma LetterAtTheHighestCount(rule: Abbr)
    requires rule.number == Some("x")
    ensures RenderWithCursor(rule, "c", NO_BINDINGS.(number := Some(128))) == Some(("c", None)) && !IsBlank("c")
  {
    hide Repeat, RenderWithCursor, FullText, IsBlank, ByteLen;
    var b := NO_BINDINGS.(number := Some(128));
    PrintableByteLen("x");
    PrintableByteLen("c");
    RepeatByteLen("x", 128);
    assert "c"[1..] == "" && ReplaceAll("c", NUMBER_PLACEHOLDER, Repeat("x", 128)) == "c" + "" == "c";
    assert ByteLen("x") * 128 == 128;
    assert RenderNumber(rule, "c", b) == Some("c");
    OneLetterRendering(rule, "c");
    PlainTextShown("c", b);
    NoBraceNoCursor("c");
    RenderIsFullTextWithinCap(rule, "c", b);
  }

  /** Nor does the check ask whether every rendering fits: here rule 1 is
      refused for the count 128, in any shell, and rule 2 fires. */
  lemma FlaggedRuleFiresBeyondCap(re: RegexEngine, shell: Shell, commandExists: string -> bool)
    ensures
      var rules := [Abbr(COUNTED_KEY, All(TWICE), None, Some(LONG_UNIT), None),
                    Abbr(COUNTED_KEY, All("c"), None, Some("x"), None)];
      && Validated(re, rules) && Flagged(re, rules, 2) == [(1, 0)]
      && Lookup(re, rules, "a128", shell, commandExists).Winner() == Some(Entry(1, rules[1]))
  {
    hide ValidRule, Validated, Flagged, Lookup.Winner, Lookup.Firing, Hides, ValidNumberUse, CheckNumberUnit;
    hide IsPrintable;
    var first := Abbr(COUNTED_KEY, All(TWICE), None, Some(LONG_UNIT), None);
    var second := Abbr(COUNTED_KEY, All("c"), None, Some("x"), None);
    ShortTexts();
    PrintableIsValid(LONG_UNIT);
    PrintableIsValid("x");
    CountedKeyShape(LONG_UNIT, All(TWICE));
    CountedKeyShape("x", All("c"));
    SmallRuleIsValid(re, first, TWICE);
    SmallRuleIsValid(re, second, "c");
    TwoRulesAreValid(re, first, second);
    var q := Lookup(re, [first, second], "a128", shell, commandExists);
    LongRuleHides(re, first);
    LongRuleIsRefused(q, first);
    ShortRuleFires(q, second);
    SecondOfTwoFires(q, first, second);
  }

  lemma ShortTexts()
    ensures IsPrintable(LONG_UNIT) && IsPrintable("x") && IsPrintable("c") && IsPrintable(TWICE)
    ensures |LONG_UNIT| == MAX_NUMBER_UNIT_BYTES && |TWICE| <= MAX_NUMBER_UNIT_BYTES
  {
  }

  lemma LongRuleHides(re: RegexEngine, rule: Abbr)
    requires rule == Abbr(COUNTED_KEY, All(TWICE), None, Some(LONG_UNIT), None)
    ensures Hides(re, rule)
  {
    hide BlanknessOf;
    OnceIsVisible(re, rule);
    assert rule.expand.AllValues() == [TWICE] && |TWICE| != |COUNTED_KEY|;
  }

  lemma LongRuleIsRefused(q: Lookup, rule: Abbr)
    requires rule == Abbr(COUNTED_KEY, All(TWICE), None, Some(LONG_UNIT), None) && q.token == "a128"
    ensures q.Firing(rule).None?
  {
    hide MatchRule, RenderWithCursor, IsBlank;
    CountedToken(q.re, rule);
    TooLongAtTheHighestCount(rule);
  }

  lemma ShortRuleFires(q: Lookup, rule: Abbr)
    requires rule == Abbr(COUNTED_KEY, All("c"), None, Some("x"), None) && q.token == "a128"
    ensures q.Firing(rule) == Some(Expanded("c", None))
  {
    hide MatchRule, RenderWithCursor, IsBlank;
    CountedToken(q.re, rule);
    LetterAtTheHighestCount(rule);
    assert COUNTED_KEY[1] == '{';
  }
}
