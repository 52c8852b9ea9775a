/** Expanding a token: the rules are tried phase by phase, in config order
    within a phase, and the first one that fires wins. */
module Expand {
  import opened Wrappers
  import opened Text
  import opened Model
  import opened Matching
  import opened Render

  /** An exact rule whose expansion is its own key. */
  predicate IsExactSelfLoop(rule: Abbr, template: string) {
    PhaseOf(rule).ExactPhase? && rule.key == template
  }

  /** A glob or regex rule whose rendered text is the token. */
  predicate IsPatternSelfLoop(rule: Abbr, text: string, token: string) {
    (PhaseOf(rule).GlobPhase? || PhaseOf(rule).RegexPhase?) && text == token
  }

  /** The commands a rule asks for in `shell`: none if it is unconditional, no
      list at all if its table has no entry for the shell. */
  function Conditions(rule: Abbr, shell: Shell): Option<seq<string>> {
    match rule.whenCommandExists
    case None => Some([])
    case Some(perShell) => perShell.ForShell(shell)
  }

  function TryExpandRule(rule: Abbr, token: string, shell: Shell, commandExists: string -> bool, b: Bindings)
    : Option<ExpandResult>
  {
    var template :- rule.expand.ForShell(shell);
    if IsExactSelfLoop(rule, template) then None
    else
      var list :- Conditions(rule, shell);
      if exists c <- list :: !commandExists(c) then None
      else
        var (text, cursorOffset) :- RenderWithCursor(rule, template, b);
        if IsBlank(text) || IsPatternSelfLoop(rule, text, token) then None
        else Some(Expanded(text, cursorOffset))
  }

  /** Every expansion that fires is visible text within the byte cap, with its
      cursor between two characters of it; a glob or regex rule never fires to
      the token itself. */
  lemma FiredExpansionIsSound(
    rule: Abbr, token: string, shell: Shell, commandExists: string -> bool, b: Bindings, r: ExpandResult)
    requires TryExpandRule(rule, token, shell, commandExists, b) == Some(r)
    ensures r.Expanded? && !IsBlank(r.text) && ByteLen(r.text) <= MAX_RENDERED_EXPAND_BYTES
    ensures r.cursorOffset.Some? ==>
      IsBoundary(r.text, r.cursorOffset.value) && r.cursorOffset.value <= ByteLen(r.text)
    ensures rule.matchKind.Some? ==> r.text != token
  {
    hide RenderWithCursor, IsBlank, ByteLen, IsBoundary;
    var template := rule.expand.ForShell(shell).value;
    var rendered := RenderWithCursor(rule, template, b);
    assert rendered == Some((r.text, r.cursorOffset));
    if r.cursorOffset.Some? {
      BoundaryWithin(r.text, r.cursorOffset.value);
    }
  }

  // ----- why a rule did not fire -----

  datatype SkipReason =
    | SelfLoop
    | ConditionFailed(found: seq<string>, missing: seq<string>)
    | NoShellEntry
    | BlankExpansion

  datatype WhichOutcome = Hit(expansion: string, satisfied: seq<string>) | Skip(reason: SkipReason)

  datatype WhichResult =
    | WhichExpanded(key: string, expansion: string, ruleIndex: nat, satisfied: seq<string>,
                    skipped: seq<(nat, SkipReason)>)
    | AllSkipped(token: string, skipped: seq<(nat, SkipReason)>)
    | NoMatch(token: string)

  /** The commands of a list that are present, or that are absent. */
  function Having(list: seq<string>, commandExists: string -> bool, present: bool): seq<string> {
    if list == [] then []
    else (if commandExists(list[0]) == present then [list[0]] else []) + Having(list[1..], commandExists, present)
  }

  /** The cursor placeholder put back into rendered text. */
  function WithCursorMarker(text: string, cursor: Option<nat>): string
    requires cursor.Some? ==> IsBoundary(text, cursor.value)
  {
    match cursor
    case None => text
    case Some(pos) =>
      var i := CharIndexAt(text, pos);
      text[..i] + CURSOR_PLACEHOLDER + text[i..]
  }

  function TryWhichRule(rule: Abbr, token: string, shell: Shell, commandExists: string -> bool, b: Bindings)
    : WhichOutcome
  {
    match rule.expand.ForShell(shell)
    case None => Skip(NoShellEntry)
    case Some(template) =>
      if IsExactSelfLoop(rule, template) then Skip(SelfLoop)
      else
        match Conditions(rule, shell)
        case None => Skip(NoShellEntry)
        case Some(list) =>
          var missing := Having(list, commandExists, false);
          if missing != [] then Skip(ConditionFailed(Having(list, commandExists, true), missing))
          else
            match RenderWithCursor(rule, template, b)
            case None => Skip(SelfLoop)
            case Some(rendered) =>
              if IsBlank(rendered.0) then Skip(BlankExpansion)
              else if IsPatternSelfLoop(rule, rendered.0, token) then Skip(SelfLoop)
              else Hit(WithCursorMarker(rendered.0, rendered.1), list)
  }

  // ----- the order of the rules -----

  /** A rule with its place in the config. */
  datatype Entry = Entry(index: nat, rule: Abbr)

  /** The rules of one phase at or after place `from`, in config order. */
  function InPhase(rules: Config, phase: Phase, from: nat): seq<Entry>
    requires from <= |rules|
    decreases |rules| - from
  {
    if from == |rules| then []
    else
      (if PhaseOf(rules[from]) == phase then [Entry(from, rules[from])] else [])
      + InPhase(rules, phase, from + 1)
  }

  /** The rules of the phases from the `p`-th on, phase by phase. */
  function FromPhase(rules: Config, p: nat): seq<Entry>
    requires p <= |PHASES|
    decreases |PHASES| - p
  {
    if p == |PHASES| then [] else InPhase(rules, PHASES[p], 0) + FromPhase(rules, p + 1)
  }

  /** All rules, in the order in which they are tried. */
  function RuleOrder(rules: Config): seq<Entry> {
    FromPhase(rules, 0)
  }

  function Rank(phase: Phase): nat {
    match phase
    case ExactPhase => 0
    case NumberPhase => 1
    case GlobPhase => 2
    case RegexPhase => 3
  }

  /** `a` is tried before `b`: an earlier phase, or the same phase and an
      earlier place in the config. */
  predicate Precedes(a: Entry, b: Entry) {
    var ra, rb := Rank(PhaseOf(a.rule)), Rank(PhaseOf(b.rule));
    ra < rb || (ra == rb && a.index < b.index)
  }

  predicate Sorted(order: seq<Entry>) {
    forall i, j :: 0 <= i < j < |order| ==> Precedes(order[i], order[j])
  }

  predicate IsEntryOf(entry: Entry, rules: Config) {
    entry.index < |rules| && rules[entry.index] == entry.rule
  }

  lemma {:induction false} InPhaseSorted(rules: Config, phase: Phase, from: nat)
    requires from <= |rules|
    ensures var order := InPhase(rules, phase, from);
      && Sorted(order)
      && forall k :: 0 <= k < |order| ==>
           IsEntryOf(order[k], rules) && from <= order[k].index && PhaseOf(order[k].rule) == phase
    decreases |rules| - from
  {
    if from < |rules| {
      InPhaseSorted(rules, phase, from + 1);
    }
  }

  lemma {:induction false} InPhaseComplete(rules: Config, phase: Phase, from: nat, i: nat)
    requires from <= i < |rules| && PhaseOf(rules[i]) == phase
    ensures Entry(i, rules[i]) in InPhase(rules, phase, from)
    decreases |rules| - from
  {
    if from < i {
      InPhaseComplete(rules, phase, from + 1, i);
    }
  }

  lemma {:induction false} FromPhaseSorted(rules: Config, p: nat)
    requires p <= |PHASES|
    ensures var order := FromPhase(rules, p);
      && Sorted(order)
      && forall k :: 0 <= k < |order| ==> IsEntryOf(order[k], rules) && p <= Rank(PhaseOf(order[k].rule))
    decreases |PHASES| - p
  {
    hide InPhase;
    if p < |PHASES| {
      InPhaseSorted(rules, PHASES[p], 0);
      FromPhaseSorted(rules, p + 1);
      assert Rank(PHASES[p]) == p;
      SortedAppend(InPhase(rules, PHASES[p], 0), FromPhase(rules, p + 1), p);
    }
  }

  lemma SortedAppend(xs: seq<Entry>, ys: seq<Entry>, p: nat)
    requires Sorted(xs) && Sorted(ys)
    requires forall i :: 0 <= i < |xs| ==> Rank(PhaseOf(xs[i].rule)) == p
    requires forall i :: 0 <= i < |ys| ==> p < Rank(PhaseOf(ys[i].rule))
    ensures Sorted(xs + ys)
  {
    hide PhaseOf, Rank;
    forall i, j | 0 <= i < j < |xs + ys| ensures Precedes((xs + ys)[i], (xs + ys)[j]) {
      if j < |xs| {
      } else if i >= |xs| {
        assert Precedes(ys[i - |xs|], ys[j - |xs|]);
      } else {
      }
    }
  }

  lemma {:induction false} FromPhaseComplete(rules: Config, p: nat, i: nat)
    requires p <= |PHASES| && i < |rules| && p <= Rank(PhaseOf(rules[i]))
    ensures Entry(i, rules[i]) in FromPhase(rules, p)
    decreases |PHASES| - p
  {
    if PHASES[p] == PhaseOf(rules[i]) {
      InPhaseComplete(rules, PHASES[p], 0, i);
    } else {
      FromPhaseComplete(rules, p + 1, i);
    }
  }

  // ----- one lookup -----

  /** Everything a lookup depends on. `commandExists` is a pure oracle. */
  datatype Lookup = Lookup(
    re: RegexEngine, rules: Config, token: string, shell: Shell, commandExists: string -> bool)
  {
    predicate RuleMatches(rule: Abbr) {
      MatchRule(re, rule, token).Some?
    }

    /** What `rule` expands the token to, if it fires. */
    function Firing(rule: Abbr): Option<ExpandResult> {
      var b :- MatchRule(re, rule, token);
      TryExpandRule(rule, token, shell, commandExists, b)
    }

    function FirstFiring(order: seq<Entry>): Option<Entry> {
      if order == [] then None
      else if Firing(order[0].rule).Some? then Some(order[0])
      else FirstFiring(order[1..])
    }

    function Winner(): Option<Entry> {
      FirstFiring(RuleOrder(rules))
    }

    function ResultOf(order: seq<Entry>): ExpandResult {
      match FirstFiring(order)
      case None => PassThrough(token)
      case Some(entry) => Firing(entry.rule).GetOr(PassThrough(token))
    }

    function Expansion(): ExpandResult {
      ResultOf(RuleOrder(rules))
    }

    /** The scan as the program runs it: a loop over phases around a loop over
        the rules of the phase. */
    method Expand() returns (r: ExpandResult)
      ensures r == Expansion()
    {
      hide PhaseOf, MatchRule, TryExpandRule;
      for p := 0 to |PHASES|
        invariant Expansion() == ResultOf(FromPhase(rules, p))
      {
        for i := 0 to |rules|
          invariant Expansion() == ResultOf(InPhase(rules, PHASES[p], i) + FromPhase(rules, p + 1))
        {
          InPhaseUnfolds(rules, PHASES[p], i, FromPhase(rules, p + 1));
          if PhaseOf(rules[i]) == PHASES[p] {
            var b := MatchRule(re, rules[i], token);
            if b.Some? {
              var result := TryExpandRule(rules[i], token, shell, commandExists, b.value);
              if result.Some? {
                return result.value;
              }
            }
          }
        }
        assert [] + FromPhase(rules, p + 1) == FromPhase(rules, p + 1);
      }
      r := PassThrough(token);
    }

    /** Where the first firing rule stands in the order. */
    lemma {:induction false} FirstFiringPosition(order: seq<Entry>) returns (k: nat)
      ensures k <= |order|
      ensures forall m :: 0 <= m < k ==> Firing(order[m].rule).None?
      ensures FirstFiring(order) == if k < |order| then Some(order[k]) else None
      ensures k < |order| ==> Firing(order[k].rule).Some?
    {
      hide Firing;
      if order == [] {
        k := 0;
      } else if Firing(order[0].rule).Some? {
        k := 0;
      } else {
        var rest := order[1..];
        var j := FirstFiringPosition(rest);
        k := j + 1;
        forall m | 1 <= m < k ensures Firing(order[m].rule).None? {
          assert order[m] == rest[m - 1];
        }
        assert k < |order| ==> order[k] == rest[j];
      }
    }

    /** The rule that fires is the least by phase, then by place in the
        config, among all the rules that would fire; if none would, the token
        passes through. */
    lemma WinnerIsLeast()
      ensures match Winner()
        case Some(w) =>
          && IsEntryOf(w, rules) && Some(Expansion()) == Firing(w.rule)
          && forall i :: 0 <= i < |rules| && Firing(rules[i]).Some? ==>
               i == w.index || Precedes(w, Entry(i, rules[i]))
        case None => Expansion() == PassThrough(token) && forall i :: 0 <= i < |rules| ==> Firing(rules[i]).None?
    {
      var order := RuleOrder(rules);
      FromPhaseSorted(rules, 0);
      var k := FirstFiringPosition(order);
      forall i | 0 <= i < |rules| && Firing(rules[i]).Some?
        ensures k < |order| && (i == order[k].index || Precedes(order[k], Entry(i, rules[i])))
      {
        FromPhaseComplete(rules, 0, i);
        var m :| 0 <= m < |order| && order[m] == Entry(i, rules[i]);
      }
    }

    // ----- the same lookup with its reasons -----

    function Outcome(rule: Abbr): WhichOutcome
      requires RuleMatches(rule)
    {
      TryWhichRule(rule, token, shell, commandExists, MatchRule(re, rule, token).value)
    }

    /** The entry a rule adds to the trace when it matches but is skipped. */
    function SkipOf(entry: Entry): seq<(nat, SkipReason)> {
      if RuleMatches(entry.rule) && Outcome(entry.rule).Skip? then [(entry.index, Outcome(entry.rule).reason)] else []
    }

    function Skips(order: seq<Entry>): seq<(nat, SkipReason)> {
      if order == [] then [] else SkipOf(order[0]) + Skips(order[1..])
    }

    predicate AnyMatches(order: seq<Entry>) {
      exists k :: 0 <= k < |order| && RuleMatches(order[k].rule)
    }

    /** The traced scan: `skipped` collects the matching rules passed over. */
    function Trace(order: seq<Entry>, skipped: seq<(nat, SkipReason)>, anyMatched: bool): WhichResult {
      if order == [] then
        if anyMatched then AllSkipped(token, skipped) else NoMatch(token)
      else
        var rule := order[0].rule;
        if !RuleMatches(rule) then Trace(order[1..], skipped, anyMatched)
        else
          match Outcome(rule)
          case Hit(expansion, satisfied) =>
            WhichExpanded(rule.key, expansion, order[0].index, satisfied, skipped)
          case Skip(reason) => Trace(order[1..], skipped + [(order[0].index, reason)], true)
    }

    function Which(): WhichResult {
      Trace(RuleOrder(rules), [], false)
    }

    method WhichAbbr() returns (r: WhichResult)
      ensures r == Which()
    {
      hide PhaseOf, MatchRule, TryWhichRule;
      var skipped: seq<(nat, SkipReason)> := [];
      var anyKeyMatched := false;
      for p := 0 to |PHASES|
        invariant Which() == Trace(FromPhase(rules, p), skipped, anyKeyMatched)
      {
        for i := 0 to |rules|
          invariant Which() == Trace(InPhase(rules, PHASES[p], i) + FromPhase(rules, p + 1), skipped, anyKeyMatched)
        {
          InPhaseUnfolds(rules, PHASES[p], i, FromPhase(rules, p + 1));
          if PhaseOf(rules[i]) == PHASES[p] {
            var b := MatchRule(re, rules[i], token);
            if b.Some? {
              anyKeyMatched := true;
              match TryWhichRule(rules[i], token, shell, commandExists, b.value) {
                case Hit(expansion, satisfied) =>
                  return WhichExpanded(rules[i].key, expansion, i, satisfied, skipped);
                case Skip(reason) =>
                  skipped := skipped + [(i, reason)];
              }
            }
          }
        }
        assert [] + FromPhase(rules, p + 1) == FromPhase(rules, p + 1);
      }
      r := if anyKeyMatched then AllSkipped(token, skipped) else NoMatch(token);
    }

    /** The traced attempt hits exactly when the plain one fires, and then
        shows the same text with the cursor placeholder put back. */
    lemma OutcomeAgrees(rule: Abbr)
      requires RuleMatches(rule)
      ensures match Firing(rule)
        case None => Outcome(rule).Skip?
        case Some(result) =>
          && result.Expanded?
          && (result.cursorOffset.Some? ==> IsBoundary(result.text, result.cursorOffset.value))
          && Conditions(rule, shell).Some?
          && Outcome(rule) == Hit(WithCursorMarker(result.text, result.cursorOffset), Conditions(rule, shell).value)
    {
      var conditions := Conditions(rule, shell);
      if conditions.Some? {
        HavingMissing(conditions.value, commandExists);
      }
    }

    /** What `which` shows for an exact rule is the rule's own template. */
    lemma ExactRuleShowsItsTemplate(rule: Abbr)
      requires PhaseOf(rule).ExactPhase? && RuleMatches(rule) && Outcome(rule).Hit?
      ensures Some(Outcome(rule).expansion) == rule.expand.ForShell(shell)
    {
      hide Find, ByteLen, Filled;
      var template := rule.expand.ForShell(shell).value;
      RenderIsFullTextWithinCap(rule, template, NO_BINDINGS);
      match SplitAtCursor(template)
      case None => NothingToFill(template, NO_BINDINGS);
      case Some((before, after)) =>
        NothingToFill(before, NO_BINDINGS);
        NothingToFill(after, NO_BINDINGS);
        BoundaryAfter(before, after);
    }

    lemma OnlyMatchesFire(rule: Abbr)
      ensures Firing(rule).Some? ==> RuleMatches(rule)
    {
    }

    /** The traced scan and the plain scan pick the same rule, and the trace
        lists exactly the matching rules before it, in order. */
    lemma {:induction false} TraceFollowsScan(order: seq<Entry>, skipped: seq<(nat, SkipReason)>, anyMatched: bool)
      returns (k: nat)
      ensures k <= |order|
      ensures FirstFiring(order) == if k < |order| then Some(order[k]) else None
      ensures match Trace(order, skipped, anyMatched)
        case WhichExpanded(key, expansion, index, satisfied, listed) =>
          && k < |order| && index == order[k].index && key == order[k].rule.key
          && RuleMatches(order[k].rule) && Outcome(order[k].rule) == Hit(expansion, satisfied)
          && listed == skipped + Skips(order[..k])
        case AllSkipped(t, listed) =>
          k == |order| && t == token && (anyMatched || AnyMatches(order)) && listed == skipped + Skips(order)
        case NoMatch(t) => k == |order| && t == token && !anyMatched && !AnyMatches(order)
    {
      hide Firing, Outcome, RuleMatches;
      if order == [] {
        k := 0;
      } else {
        var rule := order[0].rule;
        if RuleMatches(rule) {
          OutcomeAgrees(rule);
        }
        OnlyMatchesFire(rule);
        if Firing(rule).Some? {
          k := 0;
        } else {
          var added := SkipOf(order[0]);
          var rest := order[1..];
          var j := TraceFollowsScan(rest, skipped + added, anyMatched || RuleMatches(rule));
          k := j + 1;
          assert k < |order| ==> order[k] == rest[j];
          assert skipped + [] == skipped;
          SkipsCons(order, skipped, k);
          SkipsCons(order, skipped, |order|);
          assert order[..|order|] == order && rest[..|rest|] == rest;
          AnyMatchesCons(order);
        }
      }
    }

    lemma SkipsCons(order: seq<Entry>, skipped: seq<(nat, SkipReason)>, k: nat)
      requires 1 <= k <= |order|
      ensures skipped + Skips(order[..k]) == (skipped + SkipOf(order[0])) + Skips(order[1..][..k - 1])
    {
      assert order[..k][1..] == order[1..][..k - 1];
    }

    lemma AnyMatchesCons(order: seq<Entry>)
      requires order != []
      ensures AnyMatches(order) <==> RuleMatches(order[0].rule) || AnyMatches(order[1..])
    {
      if AnyMatches(order[1..]) {
        var k :| 0 <= k < |order[1..]| && RuleMatches(order[1..][k].rule);
        assert RuleMatches(order[k + 1].rule);
      }
      if AnyMatches(order) && !RuleMatches(order[0].rule) {
        var k :| 0 <= k < |order| && RuleMatches(order[k].rule);
        assert order[1..][k - 1] == order[k];
      }
    }

    /** `which` and `expand` agree: one reports an expansion exactly when the
        other expands, by the same rule and to the same text with the cursor
        placeholder put back, after skipping exactly the matching rules that
        come before it. */
    lemma {:induction false} WhichAgreesWithExpand() returns (k: nat)
      ensures k <= |RuleOrder(rules)|
      ensures match Which()
        case WhichExpanded(key, expansion, index, satisfied, skipped) =>
          && k < |RuleOrder(rules)| && Winner() == Some(RuleOrder(rules)[k]) && index == RuleOrder(rules)[k].index
          && key == RuleOrder(rules)[k].rule.key
          && Some(satisfied) == Conditions(RuleOrder(rules)[k].rule, shell)
          && skipped == Skips(RuleOrder(rules)[..k])
          && Expansion().Expanded?
          && (Expansion().cursorOffset.Some? ==> IsBoundary(Expansion().text, Expansion().cursorOffset.value))
          && expansion == WithCursorMarker(Expansion().text, Expansion().cursorOffset)
        case AllSkipped(t, skipped) =>
          t == token && Expansion() == PassThrough(token) && AnyMatches(RuleOrder(rules))
          && skipped == Skips(RuleOrder(rules))
        case NoMatch(t) => t == token && Expansion() == PassThrough(token) && !AnyMatches(RuleOrder(rules))
    {
      var order := RuleOrder(rules);
      k := TraceFollowsScan(order, [], false);
      if k < |order| {
        OutcomeAgrees(order[k].rule);
      }
    }
  }

  lemma InPhaseUnfolds(rules: Config, phase: Phase, i: nat, rest: seq<Entry>)
    requires i < |rules|
    ensures InPhase(rules, phase, i) + rest ==
      if PhaseOf(rules[i]) == phase then [Entry(i, rules[i])] + (InPhase(rules, phase, i + 1) + rest)
      else InPhase(rules, phase, i + 1) + rest
  {
    var later := InPhase(rules, phase, i + 1);
    var head := if PhaseOf(rules[i]) == phase then [Entry(i, rules[i])] else [];
    assert InPhase(rules, phase, i) == head + later;
    assert (head + later) + rest == head + (later + rest);
    assert [] + (later + rest) == later + rest;
  }

  lemma {:induction false} HavingMissing(list: seq<string>, commandExists: string -> bool)
    ensures Having(list, commandExists, false) == [] <==> forall c <- list :: commandExists(c)
  {
    if list != [] {
      HavingMissing(list[1..], commandExists);
    }
  }
}
