/** The baked dispatcher does what the hook does. */
module BakeEquivalence {
  import opened Wrappers
  import opened Text
  import opened Model
  import opened Sanitize
  import opened Wildcard
  import opened Matching
  import opened Render
  import opened Expand
  import opened Validation
  import opened ValidRules
  import opened Cursor
  import opened Hook
  import opened BashText
  import opened BakeTables
  import opened BakedRules
  import Dispatcher

  /** A cursor of `chars` characters into `text` is the byte offset `bytes`. */
  predicate SameCursor(text: string, bytes: Option<nat>, chars: Option<nat>) {
    && bytes.Some? == chars.Some?
    && (chars.Some? ==> chars.value <= |text| && bytes.value == ByteLen(text[..chars.value]))
  }

  /** Both fire with the same text and cursor, or neither fires. */
  predicate SameOutcome(fired: Option<ExpandResult>, hit: Option<Dispatcher.Hit>) {
    && fired.Some? == hit.Some?
    && (hit.Some? ==>
          && fired.value.Expanded? && fired.value.text == hit.value.out
          && SameCursor(hit.value.out, fired.value.cursorOffset, hit.value.cursorOff))
  }

  // ----- one rule -----

  /** What is left of an attempt once the rule's conditions hold. */
  function Rendered(rule: Abbr, template: string, token: string, b: Bindings): Option<ExpandResult> {
    var (text, cursorOffset) :- RenderWithCursor(rule, template, b);
    if IsBlank(text) || IsPatternSelfLoop(rule, text, token) then None else Some(Expanded(text, cursorOffset))
  }

  lemma TryExpandIs(rule: Abbr, token: string, commandExists: string -> bool, b: Bindings)
    ensures TryExpandRule(rule, token, Bash, commandExists, b) ==
      match rule.expand.ForShell(Bash)
      case None => None
      case Some(template) =>
        if IsExactSelfLoop(rule, template) || Conditions(rule, Bash).None? then None
        else if exists c <- Conditions(rule, Bash).value :: !commandExists(c) then None
        else Rendered(rule, template, token, b)
  {
    hide RenderWithCursor, IsBlank;
  }

  /** The joined conditions ask for the same commands. */
  lemma ConditionsAgree(rule: Abbr, commandExists: string -> bool)
    requires Bakeable(rule) && Conditions(rule, Bash).Some?
    ensures Dispatcher.CondsHold(BashConditions(rule).value, commandExists)
       <==> !exists c <- Conditions(rule, Bash).value :: !commandExists(c)
  {
    hide SplitColons, Join, Conditions;
    JoinedNamesSplit(Conditions(rule, Bash).value);
  }

  lemma NoCapturesFilled(base: string, b: Bindings)
    requires b.glob.None? && b.regex.None?
    ensures match SplitAtCursor(base)
      case None => FullText(base, b) == base && CursorOffset(base, b) == None
      case Some((before, after)) =>
        FullText(base, b) == before + after && CursorOffset(base, b) == Some(ByteLen(before))
  {
    hide Filled, Find;
    match SplitAtCursor(base)
    case None => NothingToFill(base, b);
    case Some((before, after)) =>
      NothingToFill(before, b);
      NothingToFill(after, b);
  }

  lemma WithoutCursorNoLonger(base: string)
    ensures SplitAtCursor(base).Some? ==>
      ByteLen(SplitAtCursor(base).value.0 + SplitAtCursor(base).value.1) <= ByteLen(base)
  {
    hide Find, ByteLen;
    if SplitAtCursor(base).Some? {
      var (before, after) := SplitAtCursor(base).value;
      ByteLenConcat(before, after);
      ByteLenConcat(before + CURSOR_PLACEHOLDER, after);
      ByteLenConcat(before, CURSOR_PLACEHOLDER);
    }
  }

  /** Without captures, rendering within the cap is removing the first `{}`. */
  lemma ShownIsRendered(rule: Abbr, template: string, base: string, token: string, b: Bindings)
    requires b.glob.None? && b.regex.None? && rule.matchKind.None?
    requires RenderNumber(rule, template, b) == Some(base) && ByteLen(base) <= MAX_RENDERED_EXPAND_BYTES
    ensures SameOutcome(Rendered(rule, template, token, b), Dispatcher.Shown(base))
  {
    hide RenderWithCursor, RenderNumber, IsBlank, ByteLen, FullText, CursorOffset, SplitAtCursor;
    RenderIsFullTextWithinCap(rule, template, b);
    NoCapturesFilled(base, b);
    WithoutCursorNoLonger(base);
    match SplitAtCursor(base)
    case None =>
    case Some((before, after)) =>
      assert (before + after)[..|before|] == before;
  }

  lemma ExactEntryAgrees(q: Lookup, rule: Abbr)
    requires q.shell == Bash && Bakeable(rule) && PhaseOf(rule).ExactPhase?
    ensures match Row(ExactTable, rule)
      case None => q.Firing(rule).None?
      case Some(row) =>
        SameOutcome(q.Firing(rule), Dispatcher.TryExact(row[0], row[1], row[2], q.token, q.commandExists))
  {
    hide Rendered, Conditions, Dispatcher.CondsHold, Dispatcher.Shown, ByteLen, Join, TryExpandRule;
    hide SplitOnceNumberPlaceholder, RenderWithCursor, IsBlank;
    TryExpandIs(rule, q.token, q.commandExists, NO_BINDINGS);
    if Row(ExactTable, rule).Some? {
      ConditionsAgree(rule, q.commandExists);
      var template := rule.expand.ForShell(Bash).value;
      ShownIsRendered(rule, template, template, q.token, NO_BINDINGS);
    }
  }

  lemma {:induction false} NumberKeyCounts(rule: Abbr, token: string)
    requires PhaseOf(rule).NumberPhase? && IsNumberKey(rule.key)
    ensures var (prefix, suffix) := SplitOnceNumberPlaceholder(rule.key).value;
      MatchAbbrKey(rule.key, token) ==
        match Dispatcher.CountBetween(prefix, suffix, token)
        case None => None
        case Some(n) => Some(NO_BINDINGS.(number := Some(n)))
  {
    hide MatchCount, DecimalValue, IsCountText, SplitOnceNumberPlaceholder;
    var (prefix, suffix) := SplitOnceNumberPlaceholder(rule.key).value;
    var afterPrefix := StripPrefix(token, prefix);
    if afterPrefix.Some? {
      var rest := StripSuffix(afterPrefix.value, suffix);
      if rest.Some? {
        MatchCountAccepts(rest.value);
      }
    }
  }

  lemma PatternTextIsRenderNumber(rule: Abbr, template: string, n: nat)
    requires rule.number.Some?
    ensures RenderNumber(rule, template, NO_BINDINGS.(number := Some(n)))
         == Dispatcher.PatternText(template, rule.number.value, n)
    ensures Dispatcher.PatternText(template, rule.number.value, n).Some? ==>
      ByteLen(Dispatcher.PatternText(template, rule.number.value, n).value) <= MAX_RENDERED_EXPAND_BYTES
  {
    hide ReplaceAll, ByteLen, Repeat;
    RepeatByteLen(rule.number.value, n);
  }

  /** What a rule of the number phase does with the count it captured. */
  lemma PatternFiring(q: Lookup, rule: Abbr)
    requires PhaseOf(rule).NumberPhase? && IsNumberKey(rule.key)
    ensures var (prefix, suffix) := SplitOnceNumberPlaceholder(rule.key).value;
      q.Firing(rule) ==
        match Dispatcher.CountBetween(prefix, suffix, q.token)
        case None => None
        case Some(n) =>
          TryExpandRule(rule, q.token, q.shell, q.commandExists, NO_BINDINGS.(number := Some(n)))
  {
    hide SplitOnceNumberPlaceholder, Dispatcher.CountBetween, TryExpandRule;
    NumberKeyCounts(rule, q.token);
  }

  lemma PatternEntryAgrees(q: Lookup, rule: Abbr)
    requires q.shell == Bash && Bakeable(rule) && PhaseOf(rule).NumberPhase?
    ensures match Row(PatternTable, rule)
      case None => q.Firing(rule).None?
      case Some(row) => SameOutcome(q.Firing(rule), Dispatcher.TryPattern(row, q.token, q.commandExists))
  {
    hide Rendered, Conditions, Dispatcher.CondsHold, Dispatcher.Shown, Join, TryExpandRule, Lookup.Firing;
    hide Dispatcher.PatternText, Dispatcher.CountBetween, SplitOnceNumberPlaceholder, Row;
    PatternFiring(q, rule);
    PatternRow(rule);
    var (prefix, suffix) := SplitOnceNumberPlaceholder(rule.key).value;
    var n := Dispatcher.CountBetween(prefix, suffix, q.token);
    if n.Some? {
      TryExpandIs(rule, q.token, q.commandExists, NO_BINDINGS.(number := n));
      if Row(PatternTable, rule).Some? {
        ConditionsAgree(rule, q.commandExists);
        PatternRenderingAgrees(rule, q.token, n.value);
      }
    }
  }

  lemma PatternRenderingAgrees(rule: Abbr, token: string, n: nat)
    requires rule.number.Some? && rule.matchKind.None? && rule.expand.ForShell(Bash).Some?
    ensures var template := rule.expand.ForShell(Bash).value;
      var rendered := Dispatcher.PatternText(template, rule.number.value, n);
      SameOutcome(
        Rendered(rule, template, token, NO_BINDINGS.(number := Some(n))),
        if rendered.None? then None else Dispatcher.Shown(rendered.value))
  {
    hide Dispatcher.PatternText, RenderNumber, Dispatcher.Shown, ByteLen;
    var template, b := rule.expand.ForShell(Bash).value, NO_BINDINGS.(number := Some(n));
    PatternTextIsRenderNumber(rule, template, n);
    var base := RenderNumber(rule, template, b);
    if base.Some? {
      ShownIsRendered(rule, template, base.value, token, b);
    }
  }

  /** Removing head and tail as patterns leaves the capture. */
  lemma StrippedIsCapture(key: string, token: string)
    requires AtMostOneStar(key) && MatchGlobKey(key, token).Some?
    ensures Dispatcher.StrippedBetween(HeadAndTail(key).0, HeadAndTail(key).1, token) == MatchGlobKey(key, token).value
  {
    hide Matches, RemoveShortestPrefix, RemoveShortestSuffix, GlobFixedPartMatches;
    StarParts(key);
    var (head, tail) := HeadAndTail(key);
    NoStarInPattern(head);
    NoStarInPattern(tail);
    assert token[..|token|] == token;
    assert GlobFixedPartMatches(head, token[..|head|]) by {
      WholeKeyIsAsLong(key, token);
    }
    GlobFixedPartIsPattern(head, token[..|head|]);
    RemoveFixedPrefix(token, FromGlob(head));
    var rest := token[|head|..];
    assert Matches(FromGlob(tail), rest[|rest| - |tail|..]) by {
      if SplitOnce(key, '*').None? {
        EmptyPattern();
        assert rest[|rest|..] == "" && FromGlob(tail) == [];
      } else {
        assert rest[|rest| - |tail|..] == token[|token| - |tail|..];
        GlobFixedPartIsPattern(tail, token[|token| - |tail|..]);
      }
    }
    RemoveFixedSuffix(rest, FromGlob(tail));
    assert rest[..|rest| - |tail|] == token[|head|..|token| - |tail|];
    CaptureBetween(key, token);
  }

  lemma CaptureBetween(key: string, token: string)
    requires MatchGlobKey(key, token).Some?
    ensures var (head, tail) := HeadAndTail(key);
      |head| + |tail| <= |token| && MatchGlobKey(key, token).value == token[|head|..|token| - |tail|]
  {
  }

  lemma EmptyPattern()
    ensures Matches([], "")
  {
  }

  lemma WholeKeyIsAsLong(key: string, token: string)
    requires MatchGlobKey(key, token).Some?
    ensures SplitOnce(key, '*').None? ==> |token| == |key|
    ensures |HeadAndTail(key).0| + |HeadAndTail(key).1| <= |token|
  {
  }

  lemma GlobRenderingAgrees(rule: Abbr, template: string, token: string, capture: string)
    requires PhaseOf(rule).GlobPhase?
    ensures var hit := Dispatcher.GlobText(template, capture);
      SameOutcome(
        Rendered(rule, template, token, NO_BINDINGS.(glob := Some(capture))),
        if ByteLen(hit.out) > MAX_RENDERED_EXPAND_BYTES || IsBlank(hit.out) || hit.out == token then None
        else Some(hit))
  {
    hide RenderWithCursor, IsBlank, ByteLen, ReplaceAll, Filled, Find;
    var b := NO_BINDINGS.(glob := Some(capture));
    RenderIsFullTextWithinCap(rule, template, b);
    match SplitAtCursor(template)
    case None => GlobFillIsReplace(template, capture);
    case Some((before, after)) =>
      GlobFillIsReplace(before, capture);
      GlobFillIsReplace(after, capture);
      var left := Filled(before, b);
      assert (left + Filled(after, b))[..|left|] == left;
  }

  lemma GlobEntryAgrees(q: Lookup, rule: Abbr)
    requires q.shell == Bash && Bakeable(rule) && PhaseOf(rule).GlobPhase?
    ensures match Row(GlobTable, rule)
      case None => q.Firing(rule).None?
      case Some(row) => SameOutcome(q.Firing(rule), Dispatcher.TryGlob(row, q.token, q.commandExists))
  {
    hide Rendered, Conditions, Dispatcher.CondsHold, Dispatcher.GlobText, ByteLen, Join, TryExpandRule, MatchGlobKey;
    hide RenderWithCursor, IsBlank, HeadAndTail, Dispatcher.StrippedBetween, Matches, AtMostOneStar;
    GlobKeyRefinesWildcard(rule.key, q.token);
    var captured := MatchGlobKey(rule.key, q.token);
    if captured.Some? {
      StrippedIsCapture(rule.key, q.token);
      var b := NO_BINDINGS.(glob := captured);
      TryExpandIs(rule, q.token, q.commandExists, b);
      if Row(GlobTable, rule).Some? {
        ConditionsAgree(rule, q.commandExists);
        GlobRenderingAgrees(rule, rule.expand.ForShell(Bash).value, q.token, captured.value);
      }
    }
  }

  // ----- one table -----

  function TableOf(phase: Phase): Table
    requires !phase.RegexPhase?
  {
    match phase
    case ExactPhase => ExactTable
    case NumberPhase => PatternTable
    case GlobPhase => GlobTable
  }

  lemma EntryIsItsRow(t: Table, rule: Abbr, token: string, commandExists: string -> bool)
    requires Row(t, rule).Some? && KeptAll(Row(t, rule).value) == Row(t, rule).value
    ensures var row := Row(t, rule).value;
      Dispatcher.TryEntry(t, EntryOf(row), token, commandExists) ==
        match t
        case ExactTable => Dispatcher.TryExact(row[0], row[1], row[2], token, commandExists)
        case PatternTable => Dispatcher.TryPattern(row, token, commandExists)
        case GlobTable => Dispatcher.TryGlob(row, token, commandExists)
  {
    hide Row, ReadFields, Dispatcher.TryExact, Dispatcher.TryPattern, Dispatcher.TryGlob, EntryOf, KeptAll;
    EntryReadsBack(Row(t, rule).value);
  }

  /** An entry of the phase's table does what its rule does; a rule without an
      entry never fires on bash. */
  lemma RuleAgrees(q: Lookup, rule: Abbr)
    requires q.shell == Bash && Bakeable(rule) && !PhaseOf(rule).RegexPhase?
    requires Row(TableOf(PhaseOf(rule)), rule).Some? ==>
      KeptAll(Row(TableOf(PhaseOf(rule)), rule).value) == Row(TableOf(PhaseOf(rule)), rule).value
    ensures match Row(TableOf(PhaseOf(rule)), rule)
      case None => q.Firing(rule).None?
      case Some(row) =>
        SameOutcome(q.Firing(rule), Dispatcher.TryEntry(TableOf(PhaseOf(rule)), EntryOf(row), q.token, q.commandExists))
  {
    hide Row, Bakeable, SameOutcome, Dispatcher.TryEntry, EntryOf, KeptAll;
    hide Dispatcher.TryExact, Dispatcher.TryPattern, Dispatcher.TryGlob;
    if Row(TableOf(PhaseOf(rule)), rule).Some? {
      EntryIsItsRow(TableOf(PhaseOf(rule)), rule, q.token, q.commandExists);
    }
    match PhaseOf(rule)
    case ExactPhase => ExactEntryAgrees(q, rule);
    case NumberPhase => PatternEntryAgrees(q, rule);
    case GlobPhase => GlobEntryAgrees(q, rule);
  }

  /** A rule has no entry in the table of another phase. */
  lemma OtherPhaseHasNoRow(rule: Abbr, t: Table)
    requires Bakeable(rule) && Row(t, rule).Some?
    ensures !PhaseOf(rule).RegexPhase? && TableOf(PhaseOf(rule)) == t
  {
    hide Find, BashConditions, HeadAndTail;
  }

  function FiringIn(q: Lookup, order: seq<Entry>): Option<ExpandResult> {
    match q.FirstFiring(order)
    case None => None
    case Some(entry) => q.Firing(entry.rule)
  }

  lemma FirstHitCons(t: Table, row: seq<string>, later: seq<seq<string>>, token: string, commandExists: string -> bool)
    ensures var hit := Dispatcher.TryEntry(t, EntryOf(row), token, commandExists);
      Dispatcher.FirstHit(t, EntriesOf([row] + later), token, commandExists) ==
        if hit.Some? then hit else Dispatcher.FirstHit(t, EntriesOf(later), token, commandExists)
  {
    hide EntryOf, Dispatcher.TryEntry;
    assert ([row] + later)[1..] == later;
    assert EntriesOf([row] + later)[1..] == EntriesOf(later);
  }

  lemma FiringCons(q: Lookup, entry: Entry, later: seq<Entry>)
    ensures FiringIn(q, [entry] + later) ==
      if q.Firing(entry.rule).Some? then q.Firing(entry.rule) else FiringIn(q, later)
  {
    hide Lookup.Firing;
    assert ([entry] + later)[1..] == later;
  }

  /** The first hit among the rows of the rules from place `from` on. */
  function HitFrom(q: Lookup, t: Table, from: nat): Option<Dispatcher.Hit>
    requires from <= |q.rules|
  {
    Dispatcher.FirstHit(t, EntriesOf(Rows(t, q.rules[from..])), q.token, q.commandExists)
  }

  lemma HitFromStep(q: Lookup, t: Table, from: nat)
    requires from < |q.rules|
    ensures match Row(t, q.rules[from])
      case None => HitFrom(q, t, from) == HitFrom(q, t, from + 1)
      case Some(row) =>
        var hit := Dispatcher.TryEntry(t, EntryOf(row), q.token, q.commandExists);
        HitFrom(q, t, from) == if hit.Some? then hit else HitFrom(q, t, from + 1)
  {
    hide Row, Rows, Dispatcher.TryEntry, EntryOf, Dispatcher.FirstHit, EntriesOf;
    RowsAt(t, q.rules, from);
    var later := Rows(t, q.rules[from + 1..]);
    match Row(t, q.rules[from])
    case None => assert [] + later == later;
    case Some(row) => FirstHitCons(t, row, later, q.token, q.commandExists);
  }

  lemma FiringFromStep(q: Lookup, phase: Phase, from: nat)
    requires from < |q.rules|
    ensures var rule, later := q.rules[from], FiringIn(q, InPhase(q.rules, phase, from + 1));
      FiringIn(q, InPhase(q.rules, phase, from)) ==
        if PhaseOf(rule) == phase && q.Firing(rule).Some? then q.Firing(rule) else later
  {
    hide PhaseOf, Lookup.Firing, FiringIn;
    var later := InPhase(q.rules, phase, from + 1);
    if PhaseOf(q.rules[from]) == phase {
      FiringCons(q, Entry(from, q.rules[from]), later);
    } else {
      assert [] + later == later;
    }
  }

  /** Every row reads back unchanged. */
  predicate RowsKept(t: Table, rules: Config) {
    forall rule <- rules :: Row(t, rule).Some? ==> KeptAll(Row(t, rule).value) == Row(t, rule).value
  }

  /** The scan of a table agrees with the scan of its phase. */
  lemma {:induction false} TableAgrees(q: Lookup, phase: Phase, from: nat)
    requires from <= |q.rules| && q.shell == Bash && !phase.RegexPhase?
    requires (forall rule <- q.rules :: Bakeable(rule)) && RowsKept(TableOf(phase), q.rules)
    ensures SameOutcome(FiringIn(q, InPhase(q.rules, phase, from)), HitFrom(q, TableOf(phase), from))
    decreases |q.rules| - from
  {
    hide Bakeable, Row, Dispatcher.TryEntry, EntryOf, KeptAll, PhaseOf, Lookup.Firing, SameCursor, HitFrom, FiringIn;
    if from < |q.rules| {
      hide InPhase;
      var t, rule := TableOf(phase), q.rules[from];
      assert rule in q.rules;
      TableAgrees(q, phase, from + 1);
      HitFromStep(q, t, from);
      FiringFromStep(q, phase, from);
      if Row(t, rule).Some? {
        OtherPhaseHasNoRow(rule, t);
        SamePhaseSameTable(PhaseOf(rule), phase);
      }
      if PhaseOf(rule) == phase {
        RuleAgrees(q, rule);
      }
    } else {
      NothingLeft(q, phase);
    }
  }

  lemma SamePhaseSameTable(a: Phase, b: Phase)
    requires !a.RegexPhase? && !b.RegexPhase?
    ensures TableOf(a) == TableOf(b) <==> a == b
  {
  }

  lemma NothingLeft(q: Lookup, phase: Phase)
    requires !phase.RegexPhase?
    ensures FiringIn(q, InPhase(q.rules, phase, |q.rules|)) == None && HitFrom(q, TableOf(phase), |q.rules|) == None
  {
  }

  // ----- the whole lookup -----

  lemma {:induction false} FiringAppend(q: Lookup, first: seq<Entry>, second: seq<Entry>)
    ensures FiringIn(q, first + second) ==
      if FiringIn(q, first).Some? then FiringIn(q, first) else FiringIn(q, second)
  {
    hide Lookup.Firing;
    if first == [] {
      assert first + second == second;
    } else {
      assert (first + second)[1..] == first[1..] + second;
      FiringAppend(q, first[1..], second);
    }
  }

  lemma {:induction false} NoRegexPhase(rules: Config, from: nat)
    requires from <= |rules| && forall rule <- rules :: rule.matchKind != Some(Regex)
    ensures InPhase(rules, RegexPhase, from) == []
    decreases |rules| - from
  {
    if from < |rules| {
      assert rules[from] in rules;
      NoRegexPhase(rules, from + 1);
    }
  }

  lemma PhasesInTurn(q: Lookup)
    requires forall rule <- q.rules :: rule.matchKind != Some(Regex)
    ensures var exact := FiringIn(q, InPhase(q.rules, ExactPhase, 0));
      var number := FiringIn(q, InPhase(q.rules, NumberPhase, 0));
      FiringIn(q, RuleOrder(q.rules)) ==
        if exact.Some? then exact else if number.Some? then number else FiringIn(q, InPhase(q.rules, GlobPhase, 0))
  {
    hide InPhase, FiringIn;
    NoRegexPhase(q.rules, 0);
    var e, n, g := InPhase(q.rules, ExactPhase, 0), InPhase(q.rules, NumberPhase, 0), InPhase(q.rules, GlobPhase, 0);
    assert FromPhase(q.rules, 3) == [] by {
      assert PHASES[3] == RegexPhase && FromPhase(q.rules, 4) == [];
    }
    assert FromPhase(q.rules, 2) == g;
    assert FromPhase(q.rules, 1) == n + g;
    assert RuleOrder(q.rules) == e + (n + g);
    FiringAppend(q, e, n + g);
    FiringAppend(q, n, g);
  }

  /** The array elements of a configuration. */
  function TablesOf(rules: Config): Dispatcher.Tables {
    Dispatcher.Tables(
      EntriesOf(Rows(ExactTable, rules)), EntriesOf(Rows(PatternTable, rules)), EntriesOf(Rows(GlobTable, rules)))
  }

  /** The tables find what the engine finds. */
  lemma LookupAgrees(q: Lookup)
    requires q.shell == Bash
    requires forall rule <- q.rules :: Bakeable(rule) && rule.matchKind != Some(Regex)
    requires RowsKept(ExactTable, q.rules) && RowsKept(PatternTable, q.rules) && RowsKept(GlobTable, q.rules)
    ensures SameOutcome(
      FiringIn(q, RuleOrder(q.rules)), Dispatcher.FindHit(TablesOf(q.rules), q.token, q.commandExists))
  {
    hide Bakeable, FiringIn, InPhase, RuleOrder, Dispatcher.FirstHit, SameCursor, EntriesOf, Rows, RowsKept;
    assert q.rules[0..] == q.rules;
    TableAgrees(q, ExactPhase, 0);
    TableAgrees(q, NumberPhase, 0);
    TableAgrees(q, GlobPhase, 0);
    PhasesInTurn(q);
  }

  lemma ExpansionIsFiring(q: Lookup)
    ensures q.Expansion() == FiringIn(q, RuleOrder(q.rules)).GetOr(PassThrough(q.token))
  {
    hide Lookup.Firing, RuleOrder, Lookup.FirstFiring;
  }

  // ----- the whole key press -----

  lemma ByteOfPrefix(line: string, k: nat)
    requires k <= |line|
    ensures ByteCursorToChar(line, ByteLen(line[..k])) == k
  {
    hide ByteCursorToChar, ByteLen;
    CharCursorRoundTrip(line, k);
    assert line[..|line|] == line;
  }

  /** The key press on tables and on the engine, with the cursor in characters. */
  lemma PressAgrees(re: RegexEngine, rules: Config, line: string, point: nat, commandExists: string -> bool)
    requires forall rule <- rules :: Bakeable(rule) && rule.matchKind != Some(Regex)
    requires RowsKept(ExactTable, rules) && RowsKept(PatternTable, rules) && RowsKept(GlobTable, rules)
    ensures var action := HookAt(re, rules, Bash, line, Min(point, |line|), commandExists);
      var (newLine, newPoint) := Dispatcher.BakeResult(TablesOf(rules), line, point, commandExists);
      var cursor := ByteToShellCursor(Bash, action.line, action.cursor);
      newLine == action.line
      && (action.Replace? ==> newPoint == cursor)
      && (action.InsertSpace? ==> newPoint == point + 1 && cursor == Min(point, |line|) + 1)
  {
    hide Bakeable, RowsKept, Candidate, TablesOf, Dispatcher.FindHit, ByteCursorToChar, ByteLen;
    hide Lookup.Expansion, FiringIn, RuleOrder;
    var i := Min(point, |line|);
    SpaceCursor(line, i);
    var start := Candidate(line, i);
    if start.Some? {
      var q := Lookup(re, rules, line[start.value..i], Bash, commandExists);
      LookupAgrees(q);
      ExpansionIsFiring(q);
      var hit := Dispatcher.FindHit(TablesOf(rules), q.token, commandExists);
      if hit.Some? {
        ReplaceCursor(line[..start.value], hit.value.out, line[i..], hit.value.cursorOff);
      }
    }
  }

  lemma SpaceCursor(line: string, i: nat)
    requires i <= |line|
    ensures ByteCursorToChar(line[..i] + " " + line[i..], ByteLen(line[..i]) + 1) == i + 1
  {
    hide ByteCursorToChar, ByteLen;
    var spaced := line[..i] + " " + line[i..];
    ByteOfPrefix(spaced, i + 1);
    assert spaced[..i + 1] == line[..i] + " ";
    ByteLenConcat(line[..i], " ");
    OneSpace();
  }

  lemma {:induction false} PlacedCursor(prefix: string, text: string, right: string, k: nat)
    requires k <= |text|
    ensures ByteCursorToChar(prefix + text + right, ByteLen(prefix) + ByteLen(text[..k])) == |prefix| + k
  {
    hide ByteCursorToChar, ByteLen;
    var line := prefix + text + right;
    ByteOfPrefix(line, |prefix| + k);
    assert line[..|prefix| + k] == prefix + text[..k];
    ByteLenConcat(prefix, text[..k]);
  }

  lemma {:induction false} ReplaceCursor(prefix: string, text: string, right: string, off: Option<nat>)
    requires off.Some? ==> off.value <= |text|
    ensures off.Some? ==>
      ByteCursorToChar(prefix + text + right, ByteLen(prefix) + ByteLen(text[..off.value])) == |prefix| + off.value
    ensures off.None? ==>
      ByteCursorToChar(prefix + text + " " + right, ByteLen(prefix) + ByteLen(text) + 1) == |prefix| + |text| + 1
  {
    hide ByteCursorToChar, ByteLen;
    match off
    case Some(k) => PlacedCursor(prefix, text, right, k);
    case None =>
      SpaceCursor(prefix + text + right, |prefix + text|);
      ByteLenConcat(prefix, text);
      assert (prefix + text + right)[..|prefix + text|] == prefix + text;
      assert (prefix + text + right)[|prefix + text|..] == right;
  }

  // ----- from the text of the tables -----

  /** The arrays that bash builds from the generated text. */
  function Sourced(rules: Config): Option<Dispatcher.Tables> {
    var exact :- ReadWords(Block(TableText(ExactTable, rules)), Between, "");
    var patterns :- ReadWords(Block(TableText(PatternTable, rules)), Between, "");
    var globs :- ReadWords(Block(TableText(GlobTable, rules)), Between, "");
    Some(Dispatcher.Tables(exact, patterns, globs))
  }

  lemma KeptTwice(s: string)
    ensures Kept(Kept(s)) == Kept(s)
  {
    hide Kept;
    KeptIsSafe(s);
    KeptIsAll(Kept(s));
  }

  lemma {:induction false} KeptAllTwice(fields: seq<string>)
    ensures KeptAll(KeptAll(fields)) == KeptAll(fields)
  {
    hide Kept;
    if fields != [] {
      KeptTwice(fields[0]);
      KeptAllTwice(fields[1..]);
      assert KeptAll(fields)[1..] == KeptAll(fields[1..]);
    }
  }

  lemma {:induction false} KeptEachSameEntries(rows: seq<seq<string>>)
    ensures EntriesOf(KeptEach(rows)) == EntriesOf(rows)
  {
    hide KeptAll;
    if rows != [] {
      KeptAllTwice(rows[0]);
      KeptEachSameEntries(rows[1..]);
      assert KeptEach(rows)[1..] == KeptEach(rows[1..]);
    }
  }

  /** The generated text gives the arrays of the baked configuration. */
  lemma SourcedTables(re: RegexEngine, rules: Config)
    requires forall i :: 0 <= i < |rules| ==> ValidRule(re, rules[i])
    ensures Sourced(rules) == Some(TablesOf(BakedConfig(rules)))
  {
    hide ValidRule, ReadWords, Block, TableText, Rows, EntriesOf, KeptEach, BakedConfig;
    forall t
      ensures ReadWords(Block(TableText(t, rules)), Between, "") == Some(EntriesOf(Rows(t, BakedConfig(rules))))
    {
      TableReadsBack(t, rules);
      KeptRows(re, t, rules);
      KeptEachSameEntries(Rows(t, rules));
    }
  }

  lemma {:induction false} BakedRowsKept(re: RegexEngine, t: Table, rules: Config)
    requires forall i :: 0 <= i < |rules| ==> ValidRule(re, rules[i])
    ensures RowsKept(t, BakedConfig(rules))
  {
    hide ValidRule, Row, KeptAll, KeptRule;
    if rules != [] {
      var first, rest := rules[0], rules[1..];
      assert forall i :: 0 <= i < |rest| ==> rest[i] == rules[i + 1];
      BakedRowsKept(re, t, rest);
      KeptRow(re, t, first);
      if Row(t, first).Some? {
        KeptAllTwice(Row(t, first).value);
      }
    }
  }

  // ----- the result -----

  /** The hook on a cursor in characters, as bash sends it. */
  function HookForBash(re: RegexEngine, rules: Config, line: string, point: nat, commandExists: string -> bool)
    : HookAction
  {
    ShellCursorIsBoundary(Bash, line, point);
    var cursor := ClampByte(line, ShellCursorToByte(Bash, line, point));
    HookAt(re, rules, Bash, line, CharIndexAt(line, cursor), commandExists)
  }

  lemma SentCursor(line: string, point: nat)
    ensures var b := ShellCursorToByte(Bash, line, point);
      IsBoundary(line, ClampByte(line, b)) && CharIndexAt(line, ClampByte(line, b)) == Min(point, |line|)
  {
    hide ByteLen, IsBoundary, CharIndexAt;
    ShellCursorIsBoundary(Bash, line, point);
    BoundaryAtChar(line, Min(point, |line|));
    assert line[..|line|] == line;
  }

  /** For every validated configuration, line, cursor and set of commands, the
      tables read from the generated text give the line that the hook gives for
      the baked configuration. The cursors agree exactly when the cursor sent
      lay within the line or an abbreviation was expanded: the program does not
      clamp a cursor that it only moves on by one. */
  lemma BakeAgreesWithHook(re: RegexEngine, rules: Config, line: string, point: nat, commandExists: string -> bool)
    requires Validated(re, rules)
    ensures Sourced(rules).Some?
    ensures var (newLine, newPoint) := Dispatcher.BakeResult(Sourced(rules).value, line, point, commandExists);
      var action := HookForBash(re, BakedConfig(rules), line, point, commandExists);
      && newLine == action.line
      && (newPoint == ByteToShellCursor(Bash, action.line, action.cursor) <==> point <= |line| || action.Replace?)
  {
    hide Validated, ValidRule, Bakeable, RowsKept, Sourced, BakedConfig, TablesOf, Dispatcher.BakeResult, HookAt;
    hide ByteToShellCursor, CharIndexAt, ShellCursorToByte, ClampByte;
    ValidatedMeansValidRules(re, rules);
    SourcedTables(re, rules);
    BakedConfigIsBakeable(re, rules);
    BakedRowsKept(re, ExactTable, rules);
    BakedRowsKept(re, PatternTable, rules);
    BakedRowsKept(re, GlobTable, rules);
    SentCursor(line, point);
    PressAgrees(re, BakedConfig(rules), line, point, commandExists);
  }

  // ----- rules that bash cannot tell apart -----

  lemma SameRendering(a: Abbr, b: Abbr, template: string, matched: Bindings)
    requires a.number == b.number
    ensures RenderWithCursor(a, template, matched) == RenderWithCursor(b, template, matched)
  {
    hide ByteLen, ReplaceAll, SubstituteCaptures, SplitAtCursor;
  }

  lemma SameFiring(q: Lookup, p: Lookup, a: Abbr, b: Abbr)
    requires q.re == p.re && q.token == p.token && q.commandExists == p.commandExists
    requires q.shell == Bash && p.shell == Bash && SameOnBash(a, b)
    ensures q.Firing(a) == p.Firing(b) && PhaseOf(a) == PhaseOf(b)
  {
    hide MatchRule, RenderWithCursor, IsBlank, Conditions;
    MatchDependsOnKey(q.re, a, b, q.token);
    var template := a.expand.ForShell(Bash);
    var matched := MatchRule(q.re, a, q.token);
    if template.Some? && matched.Some? {
      SameRendering(a, b, template.value, matched.value);
    }
  }

  lemma {:induction false} SamePhase(q: Lookup, p: Lookup, phase: Phase, from: nat)
    requires q.re == p.re && q.token == p.token && q.commandExists == p.commandExists
    requires q.shell == Bash && p.shell == Bash && SameConfigOnBash(q.rules, p.rules)
    requires from <= |q.rules| && |q.rules| == |p.rules|
    ensures FiringIn(q, InPhase(q.rules, phase, from)) == FiringIn(p, InPhase(p.rules, phase, from))
    decreases |q.rules| - from
  {
    hide PhaseOf, Lookup.Firing, FiringIn, SameOnBash;
    SameConfigAt(q.rules, p.rules, from);
    if from < |q.rules| {
      hide InPhase, SameConfigOnBash;
      SamePhase(q, p, phase, from + 1);
      FiringFromStep(q, phase, from);
      FiringFromStep(p, phase, from);
      SameFiring(q, p, q.rules[from], p.rules[from]);
    } else {
      NoneFires(q);
      NoneFires(p);
    }
  }

  lemma NoneFires(q: Lookup)
    ensures FiringIn(q, []) == None
  {
  }

  lemma SameExpansion(q: Lookup, p: Lookup)
    requires q.re == p.re && q.token == p.token && q.commandExists == p.commandExists
    requires q.shell == Bash && p.shell == Bash && SameConfigOnBash(q.rules, p.rules)
    requires forall rule <- q.rules :: rule.matchKind != Some(Regex)
    ensures q.Expansion() == p.Expansion()
  {
    hide FiringIn, InPhase, RuleOrder, Lookup.Expansion, SameConfigOnBash;
    SameConfigAt(q.rules, p.rules, 0);
    forall rule <- p.rules ensures rule.matchKind != Some(Regex) {
      var i :| 0 <= i < |p.rules| && p.rules[i] == rule;
      SameConfigAt(q.rules, p.rules, i);
      assert q.rules[i] in q.rules;
    }
    SamePhase(q, p, ExactPhase, 0);
    SamePhase(q, p, NumberPhase, 0);
    SamePhase(q, p, GlobPhase, 0);
    PhasesInTurn(q);
    PhasesInTurn(p);
    ExpansionIsFiring(q);
    ExpansionIsFiring(p);
  }

  /** The hook does the same for configurations that bash cannot tell apart. */
  lemma SameHook(re: RegexEngine, a: Config, b: Config, line: string, point: nat, commandExists: string -> bool)
    requires SameConfigOnBash(a, b) && forall rule <- a :: rule.matchKind != Some(Regex)
    ensures HookForBash(re, a, line, point, commandExists) == HookForBash(re, b, line, point, commandExists)
  {
    hide SameConfigOnBash, Lookup.Expansion, Candidate, CharIndexAt, ShellCursorToByte, ClampByte;
    SentCursor(line, point);
    var i := Min(point, |line|);
    var start := Candidate(line, i);
    if start.Some? {
      var token := line[start.value..i];
      SameExpansion(Lookup(re, a, token, Bash, commandExists), Lookup(re, b, token, Bash, commandExists));
    }
  }

  /** Without line separators in what bash reads of the rules, the hook's own
      configuration is the given one less its regex rules. */
  lemma BakePreservesMeaning(re: RegexEngine, rules: Config, line: string, point: nat, commandExists: string -> bool)
    requires Validated(re, rules) && point <= |line|
    requires forall rule <- WithoutRegex(rules) :: NoLineSeparator(rule)
    ensures Sourced(rules).Some?
    ensures var action := HookForBash(re, WithoutRegex(rules), line, point, commandExists);
      Dispatcher.BakeResult(Sourced(rules).value, line, point, commandExists)
        == (action.line, ByteToShellCursor(Bash, action.line, action.cursor))
  {
    hide ValidRule, Validated, Sourced, WithoutRegex, NoLineSeparator, HookForBash, ByteToShellCursor, Bakeable;
    hide Dispatcher.BakeResult, SameConfigOnBash, BakedConfig;
    ValidatedMeansValidRules(re, rules);
    BakedConfigIsExact(re, rules);
    BakedConfigIsBakeable(re, rules);
    BakeAgreesWithHook(re, rules, line, point, commandExists);
    SameHook(re, BakedConfig(rules), WithoutRegex(rules), line, point, commandExists);
  }

  /** The two halves together: generate the tables, let bash read them, and run
      the program on one key press. */
  method BakedKeyPress(
    ghost re: RegexEngine, rules: Config, line: string, point: nat, commandExists: string -> bool, nocasematch: bool)
    returns (newLine: string, newPoint: nat)
    requires Validated(re, rules)
    ensures var action := HookForBash(re, BakedConfig(rules), line, point, commandExists);
      && newLine == action.line
      && (newPoint == ByteToShellCursor(Bash, action.line, action.cursor) <==> point <= |line| || action.Replace?)
  {
    hide Validated, ReadWords, Block, TableText, HookForBash, ByteToShellCursor, BakedConfig, Dispatcher.BakeResult;
    BakeAgreesWithHook(re, rules, line, point, commandExists);
    var exact := ExactTableLines(rules);
    var patterns := PatternTableLines(rules);
    var globs := GlobTableLines(rules);
    var tables := Dispatcher.Tables(
      ReadWords(Block(exact), Between, "").value, ReadWords(Block(patterns), Between, "").value,
      ReadWords(Block(globs), Between, "").value);
    var program := new Dispatcher.Program(tables, commandExists, line, point, nocasematch);
    program.Expand();
    newLine, newPoint := program.line, program.point;
  }

  // ----- what a line separator costs -----

  function PlainRule(key: string, template: string): Abbr {
    Abbr(key, All(template), None, None, None)
  }

  /** What a rule with a plain key and template does with a token. */
  lemma {:induction false} PlainFiring(q: Lookup, key: string, template: string)
    requires q.shell == Bash && '{' !in key && '{' !in template && ByteLen(template) <= MAX_EXPAND_BYTES
    ensures q.Firing(PlainRule(key, template)) ==
      if key != q.token || template == key || IsBlank(template) then None else Some(Expanded(template, None))
  {
    hide RenderWithCursor, IsBlank, ByteLen, SplitOnceNumberPlaceholder, Rendered, TryExpandRule;
    var rule := PlainRule(key, template);
    TryExpandIs(rule, q.token, q.commandExists, NO_BINDINGS);
    ShownIsRendered(rule, template, template, q.token, NO_BINDINGS);
    CursorHasBrace(template);
  }

  lemma CursorHasBrace(s: string)
    ensures SplitAtCursor(s).Some? ==> '{' in s
  {
    if SplitAtCursor(s).Some? {
      assert s[|SplitAtCursor(s).value.0|] == '{';
    }
  }

  lemma LastIndexIsInside(s: string, c: char)
    ensures LastIndexOf(s, c).Some? ==> c in s
  {
    if LastIndexOf(s, c).Some? {
      assert s[LastIndexOf(s, c).value] in s;
    }
  }

  lemma WholeLineIsCandidate(line: string)
    requires line != "" && ' ' !in line
    ensures Candidate(line, |line|) == Some(0)
  {
    assert line[..|line|] == line;
    LastIndexIsInside(line, ' ');
    assert line[..0] == "" && IsCommandPosition("");
  }

  /** A line that is one token, under a configuration of one plain rule. */
  lemma PlainHook(re: RegexEngine, key: string, template: string, line: string, commandExists: string -> bool)
    requires line != "" && ' ' !in line
    requires '{' !in key && '{' !in template && ByteLen(template) <= MAX_EXPAND_BYTES
    ensures HookForBash(re, [PlainRule(key, template)], line, |line|, commandExists).line ==
      (if key != line || template == key || IsBlank(template) then line else template) + " "
  {
    hide Candidate, IsBlank, ByteLen, Lookup.Firing, Lookup.Winner, Lookup.Expansion, ShellCursorToByte, ClampByte;
    hide CharIndexAt;
    var rules := [PlainRule(key, template)];
    SentCursor(line, |line|);
    WholeLineIsCandidate(line);
    assert line[0..|line|] == line && line[..|line|] == line && line[|line|..] == "" && line[..0] == "";
    var q := Lookup(re, rules, line, Bash, commandExists);
    PlainFiring(q, key, template);
    q.WinnerIsLeast();
    assert rules[0] == PlainRule(key, template);
  }

  lemma SpacedAlike(a: string, b: string)
    ensures a + " " == b + " " <==> a == b
  {
    if a + " " == b + " " {
      assert a == (a + " ")[..|a|] == (b + " ")[..|b|] == b;
    }
  }

  /** For a configuration of one plain rule, typing its key gives the same line
      on both paths exactly when neither key nor template has a line separator. */
  lemma PlainRuleBakesExactly(re: RegexEngine, key: string, template: string, commandExists: string -> bool)
    requires Validated(re, [PlainRule(key, template)])
    requires '{' !in key && ' ' !in key && '{' !in template && template != key
    ensures Sourced([PlainRule(key, template)]).Some?
    ensures Dispatcher.BakeResult(Sourced([PlainRule(key, template)]).value, key, |key|, commandExists).0
         == HookForBash(re, [PlainRule(key, template)], key, |key|, commandExists).line
       <==> !HasLineSeparator(key) && !HasLineSeparator(template)
  {
    hide Validated, Sourced, Kept, HasLineSeparator, HookForBash, Dispatcher.BakeResult, IsBlank, ByteLen;
    hide HasControl, HasDeceptive, IsUnsafeForDisplay;
    var rule := PlainRule(key, template);
    ValidatedMeansValidRules(re, [rule]);
    assert ValidRule(re, [rule][0]);
    assert Labelled(rule.expand)[0].1 == template;
    BakeAgreesWithHook(re, [rule], key, |key|, commandExists);
    assert BakedConfig([rule]) == [PlainRule(Kept(key), Kept(template))];
    CleanTextKept(key);
    CleanTextKept(template);
    KeptBytes(template);
    KeptHas(key, '{');
    KeptHas(template, '{');
    PlainHook(re, key, template, key, commandExists);
    PlainHook(re, Kept(key), Kept(template), key, commandExists);
    SpacedAlike(key, template);
    SpacedAlike(Kept(template), template);
  }

  /** A valid key in which quoting drops a character: U+0085 is neither control
      nor deceptive for the checks of a key. */
  const SPLIT_KEY: string := ['a', 0x85 as char]

  lemma SplitKeyIsValid(re: RegexEngine)
    ensures Validated(re, [PlainRule(SPLIT_KEY, "c")]) && HasLineSeparator(SPLIT_KEY)
  {
    assert SPLIT_KEY[1] in SPLIT_KEY && SPLIT_KEY[0] in SPLIT_KEY;
    ByteLenAtMostFourTimes(SPLIT_KEY);
    assert CheckAbbrKey(SPLIT_KEY).None?;
    hide CheckAbbrKey, CheckExpandValue, Validated, IsPrintable;
    assert IsPrintable("c") by { LetterIsPrintable(); }
    PrintableIsValid("c");
    var rule := PlainRule(SPLIT_KEY, "c");
    ValidatedMeansValidRules(re, [rule]);
  }

  lemma LetterIsPrintable()
    ensures IsPrintable("c")
  {
  }

  /** Typing that key expands it through the hook and not in the baked shell. */
  lemma SeparatorChangesTheLine(re: RegexEngine, commandExists: string -> bool)
    ensures var rules := [PlainRule(SPLIT_KEY, "c")];
      && Validated(re, rules) && Sourced(rules).Some?
      && Dispatcher.BakeResult(Sourced(rules).value, SPLIT_KEY, |SPLIT_KEY|, commandExists).0
           != HookForBash(re, rules, SPLIT_KEY, |SPLIT_KEY|, commandExists).line
  {
    hide Validated, Sourced, HasLineSeparator, HookForBash, Dispatcher.BakeResult;
    SplitKeyIsValid(re);
    assert |SPLIT_KEY| == 2 && SPLIT_KEY[0] == 'a' && SPLIT_KEY[1] == 0x85 as char;
    PlainRuleBakesExactly(re, SPLIT_KEY, "c", commandExists);
  }
}
