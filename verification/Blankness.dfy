/** Deciding without a token whether a rule's rendering is blank. */
module Blankness {
  import opened Wrappers
  import opened Text
  import opened Model
  import opened Matching
  import opened Render
  import opened Holes
  import opened Validation
  import opened ValidRules

  datatype Blankness = Always | Never | DependsOnToken

  function RendersBlank(rule: Abbr, template: string, b: Bindings): Option<bool> {
    var rendered :- RenderWithCursor(rule, template, b);
    Some(IsBlank(rendered.0))
  }

  function Decided(blank: Option<bool>): Blankness {
    match blank
    case Some(true) => Always
    case Some(false) => Never
    case None => DependsOnToken
  }

  /** Bindings with every capture empty, unless the regex key does not compile. */
  function EmptyCaptures(re: RegexEngine, rule: Abbr): Option<Bindings> {
    if rule.matchKind == Some(Regex) then
      var names :- re.groupNames(rule.key);
      Some(NO_BINDINGS.(regex := Some(seq(|names|, i requires 0 <= i < |names| => RegexGroup(names[i], "")))))
    else Some(NO_BINDINGS.(glob := Some("")))
  }

  function BlanknessOf(re: RegexEngine, rule: Abbr, template: string): Blankness {
    match PhaseOf(rule)
    case ExactPhase => Decided(RendersBlank(rule, template, NO_BINDINGS))
    case NumberPhase =>
      if rule.number.Some? && '{' !in rule.number.value && '}' !in rule.number.value then
        Decided(RendersBlank(rule, template, NO_BINDINGS.(number := Some(1))))
      else DependsOnToken
    case _ =>
      match EmptyCaptures(re, rule)
      case None => DependsOnToken
      case Some(none) =>
        match RendersBlank(rule, template, none)
        case Some(false) => Never
        case Some(true) =>
          if rule.matchKind == Some(Glob) && '*' !in rule.key then Always
          else if RendersBlank(rule, template, NO_BINDINGS) == Some(true) then Always
          else DependsOnToken
        case None => DependsOnToken
  }

  // ----- removing the cursor placeholder -----

  /** The text without its first `{}`. */
  function StripCursor(s: string): string {
    if s == "" then ""
    else if CURSOR_PLACEHOLDER <= s then s[2..]
    else [s[0]] + StripCursor(s[1..])
  }

  lemma SplitStep(s: string)
    requires s != "" && !(CURSOR_PLACEHOLDER <= s)
    ensures SplitAtCursor(s) == match SplitAtCursor(s[1..])
      case None => None
      case Some(around) => Some(([s[0]] + around.0, around.1))
  {
    assert !OccursAt(s, CURSOR_PLACEHOLDER, 0);
    hide Find, OccursAt;
    FindStep(s, CURSOR_PLACEHOLDER);
    FoundFits(s[1..], CURSOR_PLACEHOLDER);
    var pos := Find(s[1..], CURSOR_PLACEHOLDER);
    if pos.Some? {
      assert s[..pos.value + 1] == [s[0]] + s[1..][..pos.value];
      assert s[pos.value + 1 + 2..] == s[1..][pos.value + 2..];
    }
  }

  lemma StripStep(s: string)
    requires s != ""
    ensures StripCursor(s) == if CURSOR_PLACEHOLDER <= s then s[2..] else [s[0]] + StripCursor(s[1..])
  {
  }

  lemma SplitAtStart(s: string)
    requires CURSOR_PLACEHOLDER <= s
    ensures SplitAtCursor(s) == Some(("", s[2..]))
  {
    assert OccursAt(s, CURSOR_PLACEHOLDER, 0);
    assert s[..0] == "";
  }

  /** The text around the first `{}`, put together; the whole text if there is
      none. */
  function WithoutCursor(s: string): string {
    match SplitAtCursor(s) case None => s case Some(around) => around.0 + around.1
  }

  lemma WithoutCursorStep(s: string)
    requires s != ""
    ensures WithoutCursor(s) == if CURSOR_PLACEHOLDER <= s then s[2..] else [s[0]] + WithoutCursor(s[1..])
  {
    hide SplitAtCursor;
    if CURSOR_PLACEHOLDER <= s {
      SplitAtStart(s);
      assert "" + s[2..] == s[2..];
    } else {
      SplitStep(s);
      match SplitAtCursor(s[1..])
      case None => assert s == [s[0]] + s[1..];
      case Some(around) => assert [s[0]] + (around.0 + around.1) == ([s[0]] + around.0) + around.1;
    }
  }

  lemma {:induction false} StripCursorIsSplit(s: string)
    ensures StripCursor(s) == WithoutCursor(s)
  {
    if s != "" {
      hide StripCursor, WithoutCursor;
      StripStep(s);
      WithoutCursorStep(s);
      if !(CURSOR_PLACEHOLDER <= s) {
        StripCursorIsSplit(s[1..]);
      }
    }
  }

  /** Without captures, the full text is the base without its first `{}`. */
  lemma FullTextWithoutCaptures(base: string, b: Bindings)
    requires b.glob.None? && b.regex.None?
    ensures FullText(base, b) == StripCursor(base)
  {
    hide Find;
    StripCursorIsSplit(base);
    match SplitAtCursor(base)
    case None => NothingToFill(base, b);
    case Some((before, after)) =>
      NothingToFill(before, b);
      NothingToFill(after, b);
  }

  lemma {:induction false} StripCursorSkips(plain: string, rest: string)
    requires '{' !in plain
    ensures StripCursor(plain + rest) == plain + StripCursor(rest)
  {
    if plain == "" {
      assert plain + rest == rest;
    } else {
      var text := plain + rest;
      assert plain[0] in plain && text[0] == plain[0];
      assert text[0] != CURSOR_PLACEHOLDER[0];
      assert text[1..] == plain[1..] + rest;
      StripCursorSkips(plain[1..], rest);
      assert plain == [plain[0]] + plain[1..];
    }
  }

  // ----- the {number} phase -----

  /** The parts without the first adjacent `{` and `}`. */
  function StripParts(parts: seq<Part>): seq<Part> {
    if parts == [] then []
    else if |parts| >= 2 && parts[0] == Char('{') && parts[1] == Char('}') then parts[2..]
    else [parts[0]] + StripParts(parts[1..])
  }

  /** A brace-free, non-empty unit neither creates, destroys nor moves the
      first `{}`. */
  lemma {:induction false} BraceFreeUnitKeepsCursor(parts: seq<Part>, v: string)
    requires v != "" && '{' !in v && '}' !in v
    ensures StripCursor(FillHoles(parts, v)) == FillHoles(StripParts(parts), v)
  {
    if parts != [] {
      var rest := FillHoles(parts[1..], v);
      BraceFreeUnitKeepsCursor(parts[1..], v);
      match parts[0]
      case Hole(_) =>
        StripCursorSkips(v, rest);
        assert ([parts[0]] + StripParts(parts[1..]))[1..] == StripParts(parts[1..]);
      case Char(c) =>
        var text := [c] + rest;
        assert text[1..] == rest;
        StartsWithBrace(parts[1..], v);
        if |parts| >= 2 && c == '{' && parts[1] == Char('}') {
          assert rest == ['}'] + FillHoles(parts[2..], v);
          assert text[2..] == FillHoles(parts[2..], v);
        } else {
          assert ([parts[0]] + StripParts(parts[1..]))[1..] == StripParts(parts[1..]);
        }
    }
  }

  lemma StartsWithBrace(parts: seq<Part>, v: string)
    requires v != "" && '}' !in v
    ensures (FillHoles(parts, v) != "" && FillHoles(parts, v)[0] == '}') <==> parts != [] && parts[0] == Char('}')
  {
    assert v[0] in v;
  }

  lemma {:induction false} FillBlankness(parts: seq<Part>, v: string, w: string)
    requires IsBlank(v) == IsBlank(w)
    ensures IsBlank(FillHoles(parts, v)) == IsBlank(FillHoles(parts, w))
  {
    hide IsBlank;
    if parts != [] {
      FillBlankness(parts[1..], v, w);
      BlankConcat(PartText(parts[0], v), FillHoles(parts[1..], v));
      BlankConcat(PartText(parts[0], w), FillHoles(parts[1..], w));
    }
  }

  lemma {:induction false} RepeatBlankness(unit: string, n: nat)
    requires n >= 1 && unit != "" && '{' !in unit && '}' !in unit
    ensures IsBlank(Repeat(unit, n)) == IsBlank(unit)
    ensures Repeat(unit, n) != "" && '{' !in Repeat(unit, n) && '}' !in Repeat(unit, n)
  {
    if n == 1 {
      assert Repeat(unit, 1) == unit + Repeat(unit, 0) == unit;
    } else {
      RepeatBlankness(unit, n - 1);
      BlankConcat(unit, Repeat(unit, n - 1));
    }
  }

  /** More repetitions do not change whether the full text is blank. */
  lemma RepetitionKeepsBlankness(template: string, unit: string, n: nat, b: Bindings)
    requires n >= 1 && unit != "" && '{' !in unit && '}' !in unit
    requires b.glob.None? && b.regex.None?
    ensures IsBlank(FullText(ReplaceAll(template, NUMBER_PLACEHOLDER, Repeat(unit, n)), b))
         == IsBlank(FullText(ReplaceAll(template, NUMBER_PLACEHOLDER, unit), b))
  {
    hide IsBlank, FullText, HoleParts, ReplaceAll;
    var parts := HoleParts(template, NUMBER_PLACEHOLDER);
    RepeatBlankness(unit, n);
    ReplaceIsFill(template, NUMBER_PLACEHOLDER, unit);
    ReplaceIsFill(template, NUMBER_PLACEHOLDER, Repeat(unit, n));
    FullTextWithoutCaptures(FillHoles(parts, unit), b);
    FullTextWithoutCaptures(FillHoles(parts, Repeat(unit, n)), b);
    BraceFreeUnitKeepsCursor(parts, unit);
    BraceFreeUnitKeepsCursor(parts, Repeat(unit, n));
    FillBlankness(StripParts(parts), unit, Repeat(unit, n));
  }

  lemma BlankOf(rule: Abbr, template: string, b: Bindings)
    ensures RendersBlank(rule, template, b).Some? ==>
      RenderNumber(rule, template, b).Some?
      && RendersBlank(rule, template, b).value == IsBlank(FullText(RenderNumber(rule, template, b).value, b))
  {
    hide IsBlank, FullText, SubstituteCaptures;
    if RenderNumber(rule, template, b).Some? {
      RenderIsFullTextWithinCap(rule, template, b);
    }
  }

  lemma NumberBlanknessSound(rule: Abbr, template: string, n: nat)
    requires n >= 1 && rule.number.Some? && rule.number.value != ""
    requires '{' !in rule.number.value && '}' !in rule.number.value
    ensures var once := RendersBlank(rule, template, NO_BINDINGS.(number := Some(1)));
      var more := RendersBlank(rule, template, NO_BINDINGS.(number := Some(n)));
      once.Some? && more.Some? ==> once == more
  {
    hide RendersBlank, IsBlank, FullText;
    var unit := rule.number.value;
    BlankOf(rule, template, NO_BINDINGS.(number := Some(1)));
    BlankOf(rule, template, NO_BINDINGS.(number := Some(n)));
    assert Repeat(unit, 1) == unit + Repeat(unit, 0) == unit;
    RepetitionKeepsBlankness(template, unit, n, NO_BINDINGS.(number := Some(n)));
    RepetitionKeepsBlankness(template, unit, 1, NO_BINDINGS.(number := Some(1)));
    FullTextWithoutCaptures(ReplaceAll(template, NUMBER_PLACEHOLDER, unit), NO_BINDINGS.(number := Some(1)));
    FullTextWithoutCaptures(ReplaceAll(template, NUMBER_PLACEHOLDER, unit), NO_BINDINGS.(number := Some(n)));
  }

  // ----- the glob and regex phases -----

  /** Every capture there is is empty. */
  ghost predicate HolesEmpty(b: Bindings) {
    forall name :: ResolveCapture(name, b).Some? ==> ResolveCapture(name, b).value == ""
  }

  lemma {:induction false} EmptyGroups(groups: seq<RegexGroup>, name: string)
    requires forall i :: 0 <= i < |groups| ==> groups[i].text == ""
    ensures FindGroup(groups, name).Some? ==> FindGroup(groups, name).value == ""
  {
    if groups != [] {
      EmptyGroups(groups[1..], name);
    }
  }

  lemma EmptyCapturesAreEmpty(re: RegexEngine, rule: Abbr, token: string, b: Bindings)
    requires rule.matchKind.Some? && MatchRule(re, rule, token) == Some(b)
    ensures EmptyCaptures(re, rule).Some? ==>
      var none := EmptyCaptures(re, rule).value;
      HolesEmpty(none) && SameShape(none, b) && none.number.None? && b.number.None?
  {
    if EmptyCaptures(re, rule).Some? {
      var none := EmptyCaptures(re, rule).value;
      forall name | ResolveCapture(name, none).Some? ensures ResolveCapture(name, none).value == "" {
        if none.regex.Some? {
          EmptyGroups(none.regex.value, name);
        }
      }
    }
  }

  /** Captures only add text. */
  lemma {:induction false} EmptyHolesFillBlankest(parts: seq<Part>, none: Bindings, b: Bindings)
    requires HolesEmpty(none)
    ensures IsBlank(Fill(parts, b)) ==> IsBlank(Fill(parts, none))
  {
    hide IsBlank, ResolveCapture;
    if parts != [] {
      EmptyHolesFillBlankest(parts[1..], none, b);
      BlankConcat(FillPart(parts[0], none), Fill(parts[1..], none));
      BlankConcat(FillPart(parts[0], b), Fill(parts[1..], b));
      BlankConcat("", "");
      EmptyIsBlank();
    }
  }

  lemma EmptyIsBlank()
    ensures IsBlank("")
  {
  }

  lemma EmptyCapturesBlankest(base: string, none: Bindings, b: Bindings)
    requires HolesEmpty(none) && SameShape(none, b)
    ensures IsBlank(FullText(base, b)) ==> IsBlank(FullText(base, none))
  {
    hide IsBlank, SameShape, HolesEmpty, Find;
    match SplitAtCursor(base)
    case None =>
      ParseDependsOnShape(base, none, b);
      EmptyHolesFillBlankest(Parse(base, b), none, b);
    case Some((before, after)) =>
      ParseDependsOnShape(before, none, b);
      ParseDependsOnShape(after, none, b);
      EmptyHolesFillBlankest(Parse(before, b), none, b);
      EmptyHolesFillBlankest(Parse(after, b), none, b);
      BlankConcat(Filled(before, b), Filled(after, b));
      BlankConcat(Filled(before, none), Filled(after, none));
  }

  lemma BlankTextHasNoHoles(text: string, b: Bindings)
    requires IsBlank(text)
    ensures Filled(text, b) == text
  {
    assert '{' !in text;
    FilledPlainPrefix(text, "", b);
    assert text + "" == text;
  }

  /** A template that is blank as it stands stays blank under any captures. */
  lemma BlankTemplateStaysBlank(base: string, b: Bindings)
    requires IsBlank(FullText(base, NO_BINDINGS))
    ensures IsBlank(FullText(base, b))
  {
    hide IsBlank, Find;
    FullTextWithoutCaptures(base, NO_BINDINGS);
    match SplitAtCursor(base)
    case None =>
      NothingToFill(base, NO_BINDINGS);
      BlankTextHasNoHoles(base, b);
    case Some((before, after)) =>
      NothingToFill(before, NO_BINDINGS);
      NothingToFill(after, NO_BINDINGS);
      BlankConcat(before, after);
      BlankTextHasNoHoles(before, b);
      BlankTextHasNoHoles(after, b);
  }

  lemma CaptureBlanknessSound(re: RegexEngine, rule: Abbr, template: string, token: string, b: Bindings)
    requires rule.matchKind.Some? && MatchRule(re, rule, token) == Some(b)
    ensures BlanknessOf(re, rule, template) == Always ==> RendersBlank(rule, template, b) != Some(false)
    ensures BlanknessOf(re, rule, template) == Never ==> RendersBlank(rule, template, b) != Some(true)
  {
    hide RendersBlank, FullText, IsBlank, HolesEmpty, SameShape;
    var empty := EmptyCaptures(re, rule);
    if empty.Some? {
      var none := empty.value;
      EmptyCapturesAreEmpty(re, rule, token, b);
      BlankOf(rule, template, none);
      BlankOf(rule, template, b);
      BlankOf(rule, template, NO_BINDINGS);
      EmptyCapturesBlankest(template, none, b);
      if RendersBlank(rule, template, NO_BINDINGS) == Some(true) {
        BlankTemplateStaysBlank(template, b);
      }
      StarlessGlobCapturesNothing(re, rule, token, b);
    }
  }

  lemma StarlessGlobCapturesNothing(re: RegexEngine, rule: Abbr, token: string, b: Bindings)
    requires MatchRule(re, rule, token) == Some(b)
    ensures rule.matchKind == Some(Glob) && '*' !in rule.key ==> EmptyCaptures(re, rule) == Some(b)
  {
    SplitOnceAtFirst(rule.key, '*');
  }

  /** What a match in the number phase captures. */
  lemma NumberMatchCapturesCount(key: string, token: string, b: Bindings)
    requires SplitOnceNumberPlaceholder(key).Some? && MatchAbbrKey(key, token) == Some(b)
    ensures b.number.Some? && 1 <= b.number.value <= MAX_NUMERIC_REPEAT && b == NO_BINDINGS.(number := b.number)
  {
    hide ParseU32, Find, StripPrefix, StripSuffix, IsDigit;
    var (prefix, suffix) := SplitOnceNumberPlaceholder(key).value;
    assert key[|prefix|] == '{';
  }

  lemma NumberPhaseBlanknessSound(re: RegexEngine, rule: Abbr, template: string, token: string, b: Bindings)
    requires ValidRule(re, rule) && MatchRule(re, rule, token) == Some(b) && PhaseOf(rule).NumberPhase?
    ensures BlanknessOf(re, rule, template) == Always ==> RendersBlank(rule, template, b) != Some(false)
    ensures BlanknessOf(re, rule, template) == Never ==> RendersBlank(rule, template, b) != Some(true)
  {
    hide RendersBlank, ValidRule, MatchAbbrKey, SplitOnceNumberPlaceholder;
    ValidNumberRule(re, rule);
    NumberMatchCapturesCount(rule.key, token, b);
    if '{' !in rule.number.value && '}' !in rule.number.value {
      NumberBlanknessSound(rule, template, b.number.value);
    }
  }

  /** The static answer holds for every token the rule matches: `Always` means
      the rendering is refused or blank, `Never` that it is refused or visible. */
  lemma BlanknessIsSound(re: RegexEngine, rule: Abbr, template: string, token: string, b: Bindings)
    requires ValidRule(re, rule) && MatchRule(re, rule, token) == Some(b)
    ensures BlanknessOf(re, rule, template) == Always ==> RendersBlank(rule, template, b) != Some(false)
    ensures BlanknessOf(re, rule, template) == Never ==> RendersBlank(rule, template, b) != Some(true)
  {
    hide RendersBlank, ValidRule, EmptyCaptures;
    match PhaseOf(rule)
    case ExactPhase =>
    case NumberPhase => NumberPhaseBlanknessSound(re, rule, template, token, b);
    case _ => CaptureBlanknessSound(re, rule, template, token, b);
  }
}
