/** When `which` gives each of its reasons for passing a rule over. */
module WhichReasons {
  import opened Wrappers
  import opened Text
  import opened Model
  import opened Matching
  import opened Render
  import opened Expand

  /** `a` and `b` are what is left of `list` when it is dealt out in order. */
  predicate DealtOut(list: seq<string>, a: seq<string>, b: seq<string>) {
    if list == [] then a == [] && b == []
    else
      || (a != [] && a[0] == list[0] && DealtOut(list[1..], a[1..], b))
      || (b != [] && b[0] == list[0] && DealtOut(list[1..], a, b[1..]))
  }

  /** The list is split, in order, into the commands that are there and those
      that are not. */
  predicate IsSplit(list: seq<string>, found: seq<string>, missing: seq<string>, commandExists: string -> bool) {
    && DealtOut(list, found, missing)
    && (forall c <- found :: commandExists(c)) && (forall c <- missing :: !commandExists(c))
  }

  lemma HavingStep(list: seq<string>, commandExists: string -> bool)
    requires list != []
    ensures var found, missing := Having(list[1..], commandExists, true), Having(list[1..], commandExists, false);
      && Having(list, commandExists, true) == (if commandExists(list[0]) then [list[0]] + found else found)
      && Having(list, commandExists, false) == (if commandExists(list[0]) then missing else [list[0]] + missing)
  {
  }

  lemma SplitCons(
    first: string, rest: seq<string>, found: seq<string>, missing: seq<string>, commandExists: string -> bool)
    requires IsSplit(rest, found, missing, commandExists)
    ensures commandExists(first) ==> IsSplit([first] + rest, [first] + found, missing, commandExists)
    ensures !commandExists(first) ==> IsSplit([first] + rest, found, [first] + missing, commandExists)
  {
    assert ([first] + rest)[1..] == rest && ([first] + found)[1..] == found && ([first] + missing)[1..] == missing;
  }

  lemma {:induction false} HavingSplits(list: seq<string>, commandExists: string -> bool)
    ensures IsSplit(list, Having(list, commandExists, true), Having(list, commandExists, false), commandExists)
  {
    if list != [] {
      hide Having, IsSplit;
      var rest := list[1..];
      HavingSplits(rest, commandExists);
      HavingStep(list, commandExists);
      assert list == [list[0]] + rest;
      SplitCons(
        list[0], rest, Having(rest, commandExists, true), Having(rest, commandExists, false), commandExists);
    }
  }

  lemma {:induction false} SplitIsHaving(
    list: seq<string>, found: seq<string>, missing: seq<string>, commandExists: string -> bool)
    requires IsSplit(list, found, missing, commandExists)
    ensures found == Having(list, commandExists, true) && missing == Having(list, commandExists, false)
  {
    if list != [] {
      var rest := list[1..];
      if found != [] && found[0] == list[0] && DealtOut(rest, found[1..], missing) {
        assert found[0] in found && forall c <- found[1..] :: c in found;
        SplitIsHaving(rest, found[1..], missing, commandExists);
        assert found == [list[0]] + found[1..];
      } else {
        assert missing[0] in missing && forall c <- missing[1..] :: c in missing;
        SplitIsHaving(rest, found, missing[1..], commandExists);
        assert missing == [list[0]] + missing[1..];
      }
    }
  }

  lemma {:induction false} SplitHasMissing(
    list: seq<string>, found: seq<string>, missing: seq<string>, commandExists: string -> bool)
    requires IsSplit(list, found, missing, commandExists)
    ensures missing == [] <==> forall c <- list :: commandExists(c)
  {
    if list != [] {
      var rest := list[1..];
      assert list == [list[0]] + rest;
      if found != [] && found[0] == list[0] && DealtOut(rest, found[1..], missing) {
        assert found[0] in found && forall c <- found[1..] :: c in found;
        SplitHasMissing(rest, found[1..], missing, commandExists);
      } else {
        assert missing[0] in missing && list[0] in list;
      }
    }
  }

  // ----- the reasons -----

  /** An exact rule whose entry for the shell is its own key. */
  predicate WritesItself(q: Lookup, rule: Abbr) {
    rule.matchKind.None? && '{' !in rule.key && rule.expand.ForShell(q.shell) == Some(rule.key)
  }

  /** The commands asked for in the shell, if its table has an entry for it. */
  predicate AsksFor(q: Lookup, rule: Abbr, list: seq<string>) {
    match rule.whenCommandExists
    case None => list == []
    case Some(table) => table.ForShell(q.shell) == Some(list)
  }

  ghost predicate AllThere(q: Lookup, rule: Abbr) {
    exists list :: AsksFor(q, rule, list) && forall c <- list :: q.commandExists(c)
  }

  function RenderedFor(q: Lookup, rule: Abbr): Option<(string, Option<nat>)>
    requires q.RuleMatches(rule) && rule.expand.ForShell(q.shell).Some?
  {
    RenderWithCursor(rule, rule.expand.ForShell(q.shell).value, MatchRule(q.re, rule, q.token).value)
  }

  /** The reason is the right one for passing the matching rule over. */
  ghost predicate IsReason(q: Lookup, rule: Abbr, reason: SkipReason)
    requires q.RuleMatches(rule)
  {
    match reason
    case NoShellEntry =>
      rule.expand.ForShell(q.shell).None? || (!WritesItself(q, rule) && forall list :: !AsksFor(q, rule, list))
    case ConditionFailed(found, missing) =>
      && rule.expand.ForShell(q.shell).Some? && !WritesItself(q, rule)
      && missing != [] && exists list :: AsksFor(q, rule, list) && IsSplit(list, found, missing, q.commandExists)
    case BlankExpansion =>
      && rule.expand.ForShell(q.shell).Some? && !WritesItself(q, rule) && AllThere(q, rule)
      && RenderedFor(q, rule).Some? && IsBlank(RenderedFor(q, rule).value.0)
    case SelfLoop =>
      && rule.expand.ForShell(q.shell).Some?
      && (WritesItself(q, rule)
          || (&& AllThere(q, rule)
              && (|| RenderedFor(q, rule).None?
                  || (!IsBlank(RenderedFor(q, rule).value.0) && rule.matchKind.Some?
                      && RenderedFor(q, rule).value.0 == q.token))))
  }

  lemma AskedIsConditions(q: Lookup, rule: Abbr, list: seq<string>)
    ensures AsksFor(q, rule, list) <==> Conditions(rule, q.shell) == Some(list)
  {
  }

  lemma AllThereIs(q: Lookup, rule: Abbr)
    ensures AllThere(q, rule) <==>
      Conditions(rule, q.shell).Some? && Having(Conditions(rule, q.shell).value, q.commandExists, false) == []
  {
    hide Conditions, AsksFor, Having;
    forall list ensures AsksFor(q, rule, list) <==> Conditions(rule, q.shell) == Some(list) {
      AskedIsConditions(q, rule, list);
    }
    if Conditions(rule, q.shell).Some? {
      var list := Conditions(rule, q.shell).value;
      HavingSplits(list, q.commandExists);
      SplitHasMissing(
        list, Having(list, q.commandExists, true), Having(list, q.commandExists, false), q.commandExists);
    }
  }

  lemma FailedIs(q: Lookup, rule: Abbr, found: seq<string>, missing: seq<string>)
    ensures (exists list :: AsksFor(q, rule, list) && IsSplit(list, found, missing, q.commandExists)) <==>
      && Conditions(rule, q.shell).Some?
      && found == Having(Conditions(rule, q.shell).value, q.commandExists, true)
      && missing == Having(Conditions(rule, q.shell).value, q.commandExists, false)
  {
    hide Conditions, AsksFor, Having, IsSplit;
    forall list ensures AsksFor(q, rule, list) <==> Conditions(rule, q.shell) == Some(list) {
      AskedIsConditions(q, rule, list);
    }
    if Conditions(rule, q.shell).Some? {
      var list := Conditions(rule, q.shell).value;
      HavingSplits(list, q.commandExists);
      if IsSplit(list, found, missing, q.commandExists) {
        SplitIsHaving(list, found, missing, q.commandExists);
      }
    }
  }

  /** The traced attempt passes a rule over for exactly the right reason. */
  lemma SkippedForItsReason(q: Lookup, rule: Abbr, reason: SkipReason)
    requires q.RuleMatches(rule)
    ensures q.Outcome(rule) == Skip(reason) <==> IsReason(q, rule, reason)
  {
    hide MatchRule, RenderWithCursor, IsBlank, Having, Conditions, AsksFor, IsSplit;
    AllThereIs(q, rule);
    forall list ensures AsksFor(q, rule, list) <==> Conditions(rule, q.shell) == Some(list) {
      AskedIsConditions(q, rule, list);
    }
    if reason.ConditionFailed? {
      FailedIs(q, rule, reason.found, reason.missing);
    }
  }

  // ----- the list -----

  function Listed(r: WhichResult): seq<(nat, SkipReason)> {
    match r
    case WhichExpanded(_, _, _, _, skipped) => skipped
    case AllSkipped(_, skipped) => skipped
    case NoMatch(_) => []
  }

  lemma {:induction false} SkipsHold(q: Lookup, order: seq<Entry>, i: nat, reason: SkipReason)
    ensures (i, reason) in q.Skips(order) <==> exists m :: 0 <= m < |order| && (i, reason) in q.SkipOf(order[m])
  {
    hide Lookup.SkipOf;
    if order != [] {
      var rest := order[1..];
      SkipsHold(q, rest, i, reason);
      assert forall m :: 0 <= m < |rest| ==> rest[m] == order[m + 1];
      if exists m :: 0 <= m < |order| && (i, reason) in q.SkipOf(order[m]) {
        var m :| 0 <= m < |order| && (i, reason) in q.SkipOf(order[m]);
        if m > 0 {
          assert (i, reason) in q.SkipOf(rest[m - 1]);
        }
      }
      if (i, reason) in q.Skips(rest) {
        var m :| 0 <= m < |rest| && (i, reason) in q.SkipOf(rest[m]);
        assert (i, reason) in q.SkipOf(order[m + 1]);
      }
    }
  }

  /** Rule `i` is tried and matches before any rule fires. */
  ghost predicate PassedOver(q: Lookup, i: nat) {
    && i < |q.rules| && q.RuleMatches(q.rules[i]) && q.Firing(q.rules[i]).None?
    && forall k :: 0 <= k < |q.rules| && q.Firing(q.rules[k]).Some? ==>
         Precedes(Entry(i, q.rules[i]), Entry(k, q.rules[k]))
  }

  /** What is skipped among the first `k` entries of the order. */
  lemma ListedBefore(q: Lookup, k: nat, i: nat, reason: SkipReason)
    requires k <= |RuleOrder(q.rules)|
    ensures (i, reason) in q.Skips(RuleOrder(q.rules)[..k]) <==>
      && i < |q.rules| && q.RuleMatches(q.rules[i]) && IsReason(q, q.rules[i], reason)
      && (k < |RuleOrder(q.rules)| ==> Precedes(Entry(i, q.rules[i]), RuleOrder(q.rules)[k]))
  {
    hide Lookup.Outcome, Lookup.RuleMatches, IsReason, RuleOrder, Precedes;
    var order := RuleOrder(q.rules);
    var part := order[..k];
    OrderIsSorted(q.rules);
    SkipsHold(q, part, i, reason);
    if i < |q.rules| && q.RuleMatches(q.rules[i]) {
      SkippedForItsReason(q, q.rules[i], reason);
      OrderHas(q.rules, i);
      var m :| 0 <= m < |order| && order[m] == Entry(i, q.rules[i]);
      if k < |order| {
        BeforeInOrder(order, m, k);
      }
      assert m < k ==> part[m] == order[m];
    }
    if exists m :: 0 <= m < |part| && (i, reason) in q.SkipOf(part[m]) {
      var m :| 0 <= m < |part| && (i, reason) in q.SkipOf(part[m]);
      assert part[m] == order[m] && IsEntryOf(order[m], q.rules);
      if k < |order| {
        BeforeInOrder(order, m, k);
      }
    }
  }

  lemma OrderIsSorted(rules: Config)
    ensures Sorted(RuleOrder(rules))
    ensures forall m :: 0 <= m < |RuleOrder(rules)| ==> IsEntryOf(RuleOrder(rules)[m], rules)
  {
    FromPhaseSorted(rules, 0);
  }

  lemma OrderHas(rules: Config, i: nat)
    requires i < |rules|
    ensures Entry(i, rules[i]) in RuleOrder(rules)
  {
    FromPhaseComplete(rules, 0, i);
  }

  /** In a sorted order, coming first and preceding are the same. */
  lemma BeforeInOrder(order: seq<Entry>, m: nat, k: nat)
    requires Sorted(order) && m < |order| && k < |order|
    ensures Precedes(order[m], order[k]) <==> m < k
  {
    hide PhaseOf;
  }

  lemma FiresToText(q: Lookup, rule: Abbr)
    ensures q.Firing(rule).Some? ==> q.Firing(rule).value.Expanded? && q.RuleMatches(rule)
  {
    hide MatchRule, RenderWithCursor, IsBlank, Conditions;
  }

  lemma WinnerExpands(q: Lookup)
    ensures q.Winner().Some? <==> q.Expansion().Expanded?
  {
    hide Lookup.Firing, Lookup.Winner, Lookup.Expansion;
    q.WinnerIsLeast();
    if q.Winner().Some? {
      FiresToText(q, q.Winner().value.rule);
    }
  }

  /** A rule is passed over exactly when it does not fire and no winner comes
      before it. */
  lemma PassedOverByWinner(q: Lookup, i: nat)
    ensures PassedOver(q, i) <==>
      && i < |q.rules| && q.RuleMatches(q.rules[i]) && q.Firing(q.rules[i]).None?
      && (q.Winner().Some? ==> Precedes(Entry(i, q.rules[i]), q.Winner().value))
  {
    hide Lookup.Firing, Lookup.RuleMatches, Lookup.Winner, Lookup.Expansion, Precedes;
    q.WinnerIsLeast();
    PrecedesIsTransitive(q);
    if q.Winner().Some? {
      var w := q.Winner().value;
      assert w == Entry(w.index, q.rules[w.index]);
    }
  }

  /** The list names exactly the matching rules that are tried before the one
      that fires, or all of them if none fires, each with its reason. */
  lemma WhichGivesReasons(q: Lookup, i: nat, reason: SkipReason)
    ensures (i, reason) in Listed(q.Which()) <==> PassedOver(q, i) && IsReason(q, q.rules[i], reason)
  {
    hide Lookup.Which, Lookup.Firing, Lookup.RuleMatches, Lookup.Winner, Lookup.Expansion, RuleOrder, Precedes;
    hide IsReason, Lookup.Skips, PassedOver;
    var order := RuleOrder(q.rules);
    var k := q.WhichAgreesWithExpand();
    WinnerExpands(q);
    PassedOverByWinner(q, i);
    NoReasonIfItFires(q, i, reason);
    assert order[..|order|] == order;
    match q.Which()
    case WhichExpanded(_, _, _, _, _) => ListedBefore(q, k, i, reason);
    case AllSkipped(_, _) => ListedBefore(q, |order|, i, reason);
    case NoMatch(_) => NoMatchNoRule(q, i);
  }

  lemma NoReasonIfItFires(q: Lookup, i: nat, reason: SkipReason)
    ensures i < |q.rules| && q.RuleMatches(q.rules[i]) && q.Firing(q.rules[i]).Some? ==>
      !IsReason(q, q.rules[i], reason)
  {
    hide Lookup.Firing, Lookup.Outcome, Lookup.RuleMatches, IsReason;
    if i < |q.rules| && q.RuleMatches(q.rules[i]) {
      q.OutcomeAgrees(q.rules[i]);
      SkippedForItsReason(q, q.rules[i], reason);
    }
  }

  lemma NoMatchNoRule(q: Lookup, i: nat)
    requires !q.AnyMatches(RuleOrder(q.rules))
    ensures i < |q.rules| ==> !q.RuleMatches(q.rules[i])
  {
    hide RuleOrder, Lookup.RuleMatches;
    if i < |q.rules| {
      OrderHas(q.rules, i);
    }
  }

  lemma PrecedesIsTransitive(q: Lookup)
    ensures forall a, b, c :: Precedes(a, b) && Precedes(b, c) ==> Precedes(a, c)
  {
    hide PhaseOf;
  }
}
