/** Validation of a configuration: the checks, the visitor that reports them,
    and what a configuration without issues guarantees. */
module Validation {
  import opened Wrappers
  import opened Text
  import opened Model
  import opened Sanitize
  import opened Matching

  const MAX_ABBR_RULES: nat := 10_000
  const MAX_KEY_BYTES: nat := 1_024
  const MAX_EXPAND_BYTES: nat := 4_096
  const MAX_CMD_BYTES: nat := 255
  const MAX_CMD_LIST_LEN: nat := 64
  const MAX_NUMBER_UNIT_BYTES: nat := 32

  datatype Reason =
    | TooManyRules
    | KeyEmpty | KeyWhitespaceOnly | KeyTooLong | KeyContainsNul | KeyContainsControlChar
    | KeyContainsDeceptiveUnicode
    | ExpandEmpty | ExpandWhitespaceOnly | ExpandTooLong | ExpandContainsNul | ExpandContainsControlChar
    | ExpandContainsDeceptiveUnicode
    | TooManyCmds
    | CmdEmpty | CmdWhitespaceOnly | CmdTooLong | CmdContainsNul | CmdContainsControlChar
    | CmdContainsDeceptiveUnicode | CmdContainsPathSeparator | CmdContainsMetacharacter
    | KeyHasUnknownPlaceholder | KeyHasMultipleNumberPlaceholders | KeyHasNumberWithoutUnit
    | NumberFieldWithoutKeyPlaceholder
    | NumberEmpty | NumberUnitTooLong | NumberContainsNul | NumberContainsControlChar
    | NumberContainsDeceptiveUnicode
    | GlobKeyWithoutWildcard | GlobKeyHasMultipleStars | GlobKeyHasUnsupportedChar
    | RegexKeyInvalid(engineText: string) | RegexExpandGroupOutOfRange

  datatype Label = Fallback | BashLabel | ZshLabel | PwshLabel | NuLabel

  datatype FieldPath =
    | KeyField
    | NumberField
    | ExpandField(tag: Option<Label>)
    | CommandsField(tag: Option<Label>)
    | CommandEntry(tag: Option<Label>, position: nat)

  datatype Issue =
    | ConfigIssue(reason: Reason)
    | RuleIssue(ruleIndex: nat, path: FieldPath, reason: Reason)

  /** The error of a failed load: the reason and the number of the rule. */
  datatype ConfigError = ConfigError(reason: Reason, ruleIndex: nat)

  function ToConfigError(issue: Issue): ConfigError {
    match issue
    case ConfigIssue(reason) => ConfigError(reason, 0)
    case RuleIssue(ruleIndex, _, reason) => ConfigError(reason, ruleIndex)
  }

  // ----- single fields -----

  predicate HasControl(s: string) { exists c <- s :: IsAsciiControl(c) }

  predicate HasDeceptive(s: string) { exists c <- s :: IsDeceptiveUnicode(c) }

  function CheckAbbrKey(key: string): Option<Reason> {
    if key == "" then Some(KeyEmpty)
    else if IsBlank(key) then Some(KeyWhitespaceOnly)
    else if ByteLen(key) > MAX_KEY_BYTES then Some(KeyTooLong)
    else if '\0' in key then Some(KeyContainsNul)
    else if HasControl(key) then Some(KeyContainsControlChar)
    else if HasDeceptive(key) then Some(KeyContainsDeceptiveUnicode)
    else None
  }

  function CheckExpandValue(expand: string): Option<Reason> {
    if expand == "" then Some(ExpandEmpty)
    else if IsBlank(expand) then Some(ExpandWhitespaceOnly)
    else if ByteLen(expand) > MAX_EXPAND_BYTES then Some(ExpandTooLong)
    else if '\0' in expand then Some(ExpandContainsNul)
    else if HasControl(expand) then Some(ExpandContainsControlChar)
    else if HasDeceptive(expand) then Some(ExpandContainsDeceptiveUnicode)
    else None
  }

  predicate IsPathSeparator(c: char) {
    c == '/' || c == '\\' || c == ':'
  }

  const METACHARS := "&|;<>`$(){}'\"%^ \t*?[],=!#~"

  function CheckCmdEntry(cmd: string): Option<Reason> {
    if cmd == "" then Some(CmdEmpty)
    else if IsBlank(cmd) then Some(CmdWhitespaceOnly)
    else if ByteLen(cmd) > MAX_CMD_BYTES then Some(CmdTooLong)
    else if '\0' in cmd then Some(CmdContainsNul)
    else if HasControl(cmd) then Some(CmdContainsControlChar)
    else if HasDeceptive(cmd) then Some(CmdContainsDeceptiveUnicode)
    else if exists c <- cmd :: IsPathSeparator(c) then Some(CmdContainsPathSeparator)
    else if exists c <- cmd :: c in METACHARS then Some(CmdContainsMetacharacter)
    else None
  }

  function CheckNumberUnit(unit: string): Option<Reason> {
    if unit == "" then Some(NumberEmpty)
    else if ByteLen(unit) > MAX_NUMBER_UNIT_BYTES then Some(NumberUnitTooLong)
    else if '\0' in unit then Some(NumberContainsNul)
    else if HasControl(unit) then Some(NumberContainsControlChar)
    else if HasDeceptive(unit) then Some(NumberContainsDeceptiveUnicode)
    else None
  }

  // ----- the issues of a rule, in the order they are reported -----

  /** Every value with the label of its field, in field order. */
  function Labelled<T>(perShell: PerShell<T>): seq<(Option<Label>, T)> {
    match perShell
    case All(v) => [(None, v)]
    case ByShell(fallback, bash, zsh, pwsh, nu) =>
      WithLabel(fallback, Fallback) + WithLabel(bash, BashLabel) + WithLabel(zsh, ZshLabel)
      + WithLabel(pwsh, PwshLabel) + WithLabel(nu, NuLabel)
  }

  function WithLabel<T>(value: Option<T>, tag: Label): seq<(Option<Label>, T)> {
    if value.Some? then [(Some(tag), value.value)] else []
  }

  function IssueIf(n: nat, path: FieldPath, reason: Option<Reason>): seq<Issue> {
    if reason.Some? then [RuleIssue(n, path, reason.value)] else []
  }

  function When(holds: bool, reason: Reason): Option<Reason> {
    if holds then Some(reason) else None
  }

  function ExpandIssues(values: seq<(Option<Label>, string)>, n: nat): seq<Issue> {
    if values == [] then []
    else IssueIf(n, ExpandField(values[0].0), CheckExpandValue(values[0].1)) + ExpandIssues(values[1..], n)
  }

  function EntryIssues(tag: Option<Label>, list: seq<string>, from: nat, n: nat): seq<Issue>
    requires from <= |list|
    decreases |list| - from
  {
    if from == |list| then []
    else IssueIf(n, CommandEntry(tag, from + 1), CheckCmdEntry(list[from])) + EntryIssues(tag, list, from + 1, n)
  }

  function CommandListIssues(tag: Option<Label>, list: seq<string>, n: nat): seq<Issue> {
    if |list| > MAX_CMD_LIST_LEN then [RuleIssue(n, CommandsField(tag), TooManyCmds)]
    else EntryIssues(tag, list, 0, n)
  }

  function CommandIssues(lists: seq<(Option<Label>, seq<string>)>, n: nat): seq<Issue> {
    if lists == [] then []
    else CommandListIssues(lists[0].0, lists[0].1, n) + CommandIssues(lists[1..], n)
  }

  const GLOB_KEY_FORBIDDEN_CHARS := "[]{}()\\"

  function CountChar(s: string, c: char): nat {
    if s == "" then 0 else (if s[0] == c then 1 else 0) + CountChar(s[1..], c)
  }

  function GlobKeyIssues(rule: Abbr, n: nat): seq<Issue> {
    if rule.matchKind != Some(Glob) then []
    else
      IssueIf(n, KeyField, When(exists c <- rule.key :: c in GLOB_KEY_FORBIDDEN_CHARS, GlobKeyHasUnsupportedChar))
      + (IssueIf(n, KeyField, When(CountChar(rule.key, '*') > 1, GlobKeyHasMultipleStars))
      + IssueIf(n, KeyField, When('*' !in rule.key && '?' !in rule.key, GlobKeyWithoutWildcard)))
  }

  function DigitChar(n: nat): char
    requires n <= 9
  {
    ('0' as int + n) as char
  }

  /** The template contains a `{N}` above the number of groups. */
  predicate RefersToMissingGroup(template: string, groupCount: nat) {
    exists n | groupCount + 1 <= n <= 9 :: Contains(template, ['{', DigitChar(n), '}'])
  }

  function MissingGroupIssues(values: seq<(Option<Label>, string)>, groupCount: nat, n: nat): seq<Issue> {
    if values == [] then []
    else
      var reason := When(RefersToMissingGroup(values[0].1, groupCount), RegexExpandGroupOutOfRange);
      IssueIf(n, ExpandField(values[0].0), reason) + MissingGroupIssues(values[1..], groupCount, n)
  }

  function SanitizeForDisplay(s: string): string {
    if s == "" then ""
    else (if IsUnsafeForDisplay(s[0]) then "" else [s[0]]) + SanitizeForDisplay(s[1..])
  }

  function RegexKeyIssues(re: RegexEngine, rule: Abbr, n: nat): seq<Issue> {
    if rule.matchKind != Some(Regex) then []
    else
      match re.groupCount(rule.key)
      case Failure(error) => [RuleIssue(n, KeyField, RegexKeyInvalid(SanitizeForDisplay(error)))]
      case Success(groupCount) => MissingGroupIssues(Labelled(rule.expand), groupCount, n)
  }

  predicate HasPlaceholderBrace(rule: Abbr) {
    rule.matchKind != Some(Regex) && '{' in rule.key
  }

  function NumberCount(rule: Abbr): nat {
    if HasPlaceholderBrace(rule) then CountOf(rule.key, NUMBER_PLACEHOLDER) else 0
  }

  predicate HasUnknownPlaceholder(rule: Abbr) {
    HasPlaceholderBrace(rule) && '{' in ReplaceAll(rule.key, NUMBER_PLACEHOLDER, "")
  }

  function NumberPlaceholderIssues(rule: Abbr, n: nat): seq<Issue> {
    IssueIf(n, KeyField, When(HasUnknownPlaceholder(rule), KeyHasUnknownPlaceholder))
    + (IssueIf(n, KeyField, When(NumberCount(rule) > 1, KeyHasMultipleNumberPlaceholders))
    + (IssueIf(n, KeyField, When(NumberCount(rule) >= 1 && rule.number.None?, KeyHasNumberWithoutUnit))
    + (IssueIf(n, NumberField, When(rule.number.Some? && NumberCount(rule) == 0, NumberFieldWithoutKeyPlaceholder))
    + IssueIf(n, NumberField, if rule.number.Some? then CheckNumberUnit(rule.number.value) else None))))
  }

  function ConditionIssues(rule: Abbr, n: nat): seq<Issue> {
    if rule.whenCommandExists.Some? then CommandIssues(Labelled(rule.whenCommandExists.value), n) else []
  }

  function RuleIssues(re: RegexEngine, rule: Abbr, n: nat): seq<Issue> {
    IssueIf(n, KeyField, CheckAbbrKey(rule.key))
    + (ExpandIssues(Labelled(rule.expand), n)
    + (ConditionIssues(rule, n)
    + (GlobKeyIssues(rule, n)
    + (RegexKeyIssues(re, rule, n)
    + NumberPlaceholderIssues(rule, n)))))
  }

  function IssuesFrom(re: RegexEngine, rules: Config, from: nat): seq<Issue>
    requires from <= |rules|
    decreases |rules| - from
  {
    if from == |rules| then [] else RuleIssues(re, rules[from], from + 1) + IssuesFrom(re, rules, from + 1)
  }

  /** Every issue of a configuration, in the order a load checks them. */
  function AllIssues(re: RegexEngine, rules: Config): seq<Issue> {
    if |rules| > MAX_ABBR_RULES then [ConfigIssue(TooManyRules)] else IssuesFrom(re, rules, 0)
  }

  predicate Validated(re: RegexEngine, rules: Config) {
    AllIssues(re, rules) == []
  }

  // ----- the visitor -----

  /** A visit of `pending` after `before` was delivered: what has been delivered
      then, and whether the visit broke off. A visit that stops at the first
      issue delivers no more than the head of the list. */
  function Visit(stopAtFirst: bool, before: seq<Issue>, pending: seq<Issue>): (seq<Issue>, bool) {
    if stopAtFirst && pending != [] then (before + [pending[0]], true) else (before + pending, false)
  }

  lemma VisitNothing(stop: bool, before: seq<Issue>)
    ensures Visit(stop, before, []) == (before, false)
  {
    assert before + [] == before;
  }

  /** A visit of two lists goes on to the second unless the first broke it off. */
  lemma VisitThen(stop: bool, before: seq<Issue>, here: seq<Issue>, later: seq<Issue>)
    ensures Visit(stop, before, here + later) ==
      if Visit(stop, before, here).1 then Visit(stop, before, here)
      else Visit(stop, Visit(stop, before, here).0, later)
  {
    if !Visit(stop, before, here).1 {
      assert before + (here + later) == (before + here) + later;
      assert here == [] ==> here + later == later && before + here == before;
    }
  }

  /** The callback of a visit with the state it captures: it either collects
      every issue, or keeps the first one and breaks off. */
  class Visitor {
    const stopAtFirst: bool
    var issues: seq<Issue>

    constructor (stopAtFirst: bool)
      ensures this.stopAtFirst == stopAtFirst && issues == []
    {
      this.stopAtFirst := stopAtFirst;
      issues := [];
    }

    method Report(issue: Issue) returns (stopped: bool)
      modifies this
      ensures (issues, stopped) == Visit(stopAtFirst, old(issues), [issue])
    {
      issues := issues + [issue];
      stopped := stopAtFirst;
    }

    /** Report the issue of one check, if it found one. */
    method ReportIf(n: nat, path: FieldPath, reason: Option<Reason>) returns (stopped: bool)
      modifies this
      ensures (issues, stopped) == Visit(stopAtFirst, old(issues), IssueIf(n, path, reason))
    {
      stopped := false;
      if reason.Some? {
        stopped := Report(RuleIssue(n, path, reason.value));
      } else {
        VisitNothing(stopAtFirst, issues);
      }
    }

    method WalkExpandIssues(expand: PerShell<string>, n: nat) returns (stopped: bool)
      modifies this
      ensures (issues, stopped) == Visit(stopAtFirst, old(issues), ExpandIssues(Labelled(expand), n))
    {
      hide Visit, IssueIf, CheckExpandValue;
      var values := Labelled(expand);
      ghost var visit := Visit(stopAtFirst, issues, ExpandIssues(values, n));
      for i := 0 to |values|
        invariant visit == Visit(stopAtFirst, issues, ExpandIssues(values[i..], n))
      {
        var reason := CheckExpandValue(values[i].1);
        var path := ExpandField(values[i].0);
        assert values[i..][1..] == values[i + 1..];
        VisitThen(stopAtFirst, issues, IssueIf(n, path, reason), ExpandIssues(values[i + 1..], n));
        stopped := ReportIf(n, path, reason);
        if stopped {
          return;
        }
      }
      VisitNothing(stopAtFirst, issues);
      stopped := false;
    }

    method WalkCmdsIssues(cmds: PerShell<seq<string>>, n: nat) returns (stopped: bool)
      modifies this
      ensures (issues, stopped) == Visit(stopAtFirst, old(issues), CommandIssues(Labelled(cmds), n))
    {
      hide Visit, CommandListIssues, EntryIssues;
      var lists := Labelled(cmds);
      ghost var visit := Visit(stopAtFirst, issues, CommandIssues(lists, n));
      for i := 0 to |lists|
        invariant visit == Visit(stopAtFirst, issues, CommandIssues(lists[i..], n))
      {
        var (tag, list) := lists[i];
        assert lists[i..][1..] == lists[i + 1..];
        VisitThen(stopAtFirst, issues, CommandListIssues(tag, list, n), CommandIssues(lists[i + 1..], n));
        ListIssuesBySize(tag, list, n);
        if |list| > MAX_CMD_LIST_LEN {
          stopped := Report(RuleIssue(n, CommandsField(tag), TooManyCmds));
          if stopped {
            return;
          }
          continue;
        }
        stopped := WalkEntries(tag, list, n);
        if stopped {
          return;
        }
      }
      VisitNothing(stopAtFirst, issues);
      stopped := false;
    }

    method WalkEntries(tag: Option<Label>, list: seq<string>, n: nat) returns (stopped: bool)
      modifies this
      ensures (issues, stopped) == Visit(stopAtFirst, old(issues), EntryIssues(tag, list, 0, n))
    {
      hide Visit, IssueIf, CheckCmdEntry;
      ghost var visit := Visit(stopAtFirst, issues, EntryIssues(tag, list, 0, n));
      for j := 0 to |list|
        invariant visit == Visit(stopAtFirst, issues, EntryIssues(tag, list, j, n))
      {
        var reason := CheckCmdEntry(list[j]);
        var path := CommandEntry(tag, j + 1);
        VisitThen(stopAtFirst, issues, IssueIf(n, path, reason), EntryIssues(tag, list, j + 1, n));
        stopped := ReportIf(n, path, reason);
        if stopped {
          return;
        }
      }
      VisitNothing(stopAtFirst, issues);
      stopped := false;
    }

    method WalkGlobKeyIssues(rule: Abbr, n: nat) returns (stopped: bool)
      modifies this
      ensures (issues, stopped) == Visit(stopAtFirst, old(issues), GlobKeyIssues(rule, n))
    {
      hide Visit, IssueIf;
      if rule.matchKind != Some(Glob) {
        VisitNothing(stopAtFirst, issues);
        return false;
      }
      var unsupported := When(exists c <- rule.key :: c in GLOB_KEY_FORBIDDEN_CHARS, GlobKeyHasUnsupportedChar);
      var stars := When(CountChar(rule.key, '*') > 1, GlobKeyHasMultipleStars);
      var plain := When('*' !in rule.key && '?' !in rule.key, GlobKeyWithoutWildcard);
      ghost var last := IssueIf(n, KeyField, plain);
      ghost var later := IssueIf(n, KeyField, stars) + last;
      VisitThen(stopAtFirst, issues, IssueIf(n, KeyField, unsupported), later);
      stopped := ReportIf(n, KeyField, unsupported);
      if stopped {
        return;
      }
      VisitThen(stopAtFirst, issues, IssueIf(n, KeyField, stars), last);
      stopped := ReportIf(n, KeyField, stars);
      if stopped {
        return;
      }
      stopped := ReportIf(n, KeyField, plain);
    }

    method WalkRegexKeyIssues(re: RegexEngine, rule: Abbr, n: nat) returns (stopped: bool)
      modifies this
      ensures (issues, stopped) == Visit(stopAtFirst, old(issues), RegexKeyIssues(re, rule, n))
    {
      hide Visit, IssueIf, RefersToMissingGroup, SanitizeForDisplay;
      if rule.matchKind != Some(Regex) {
        VisitNothing(stopAtFirst, issues);
        return false;
      }
      match re.groupCount(rule.key) {
        case Failure(error) =>
          stopped := Report(RuleIssue(n, KeyField, RegexKeyInvalid(SanitizeForDisplay(error))));
        case Success(groupCount) =>
          var values := Labelled(rule.expand);
          ghost var visit := Visit(stopAtFirst, issues, MissingGroupIssues(values, groupCount, n));
          for i := 0 to |values|
            invariant visit == Visit(stopAtFirst, issues, MissingGroupIssues(values[i..], groupCount, n))
          {
            var reason := When(RefersToMissingGroup(values[i].1, groupCount), RegexExpandGroupOutOfRange);
            var path := ExpandField(values[i].0);
            assert values[i..][1..] == values[i + 1..];
            ghost var later := MissingGroupIssues(values[i + 1..], groupCount, n);
            VisitThen(stopAtFirst, issues, IssueIf(n, path, reason), later);
            stopped := ReportIf(n, path, reason);
            if stopped {
              return;
            }
          }
          VisitNothing(stopAtFirst, issues);
          stopped := false;
      }
    }

    method WalkNumberPlaceholderIssues(rule: Abbr, n: nat) returns (stopped: bool)
      modifies this
      ensures (issues, stopped) == Visit(stopAtFirst, old(issues), NumberPlaceholderIssues(rule, n))
    {
      hide Visit, IssueIf, CheckNumberUnit, HasUnknownPlaceholder, NumberCount;
      var unknown := When(HasUnknownPlaceholder(rule), KeyHasUnknownPlaceholder);
      var multiple := When(NumberCount(rule) > 1, KeyHasMultipleNumberPlaceholders);
      var unitless := When(NumberCount(rule) >= 1 && rule.number.None?, KeyHasNumberWithoutUnit);
      var stray := When(rule.number.Some? && NumberCount(rule) == 0, NumberFieldWithoutKeyPlaceholder);
      var content := if rule.number.Some? then CheckNumberUnit(rule.number.value) else None;
      ghost var after4 := IssueIf(n, NumberField, content);
      ghost var after3 := IssueIf(n, NumberField, stray) + after4;
      ghost var after2 := IssueIf(n, KeyField, unitless) + after3;
      ghost var after1 := IssueIf(n, KeyField, multiple) + after2;
      VisitThen(stopAtFirst, issues, IssueIf(n, KeyField, unknown), after1);
      stopped := ReportIf(n, KeyField, unknown);
      if stopped {
        return;
      }
      VisitThen(stopAtFirst, issues, IssueIf(n, KeyField, multiple), after2);
      stopped := ReportIf(n, KeyField, multiple);
      if stopped {
        return;
      }
      VisitThen(stopAtFirst, issues, IssueIf(n, KeyField, unitless), after3);
      stopped := ReportIf(n, KeyField, unitless);
      if stopped {
        return;
      }
      VisitThen(stopAtFirst, issues, IssueIf(n, NumberField, stray), after4);
      stopped := ReportIf(n, NumberField, stray);
      if stopped {
        return;
      }
      stopped := ReportIf(n, NumberField, content);
    }

    method VisitRule(re: RegexEngine, rule: Abbr, n: nat) returns (stopped: bool)
      modifies this
      ensures (issues, stopped) == Visit(stopAtFirst, old(issues), RuleIssues(re, rule, n))
    {
      hide Visit, IssueIf, CheckAbbrKey, ExpandIssues, CommandIssues;
      hide GlobKeyIssues, RegexKeyIssues, NumberPlaceholderIssues;
      ghost var after5 := NumberPlaceholderIssues(rule, n);
      ghost var after4 := RegexKeyIssues(re, rule, n) + after5;
      ghost var after3 := GlobKeyIssues(rule, n) + after4;
      ghost var after2 := ConditionIssues(rule, n) + after3;
      ghost var after1 := ExpandIssues(Labelled(rule.expand), n) + after2;
      VisitThen(stopAtFirst, issues, IssueIf(n, KeyField, CheckAbbrKey(rule.key)), after1);
      stopped := ReportIf(n, KeyField, CheckAbbrKey(rule.key));
      if stopped {
        return;
      }
      VisitThen(stopAtFirst, issues, ExpandIssues(Labelled(rule.expand), n), after2);
      stopped := WalkExpandIssues(rule.expand, n);
      if stopped {
        return;
      }
      VisitThen(stopAtFirst, issues, ConditionIssues(rule, n), after3);
      VisitNothing(stopAtFirst, issues);
      if rule.whenCommandExists.Some? {
        stopped := WalkCmdsIssues(rule.whenCommandExists.value, n);
        if stopped {
          return;
        }
      }
      VisitThen(stopAtFirst, issues, GlobKeyIssues(rule, n), after4);
      stopped := WalkGlobKeyIssues(rule, n);
      if stopped {
        return;
      }
      VisitThen(stopAtFirst, issues, RegexKeyIssues(re, rule, n), after5);
      stopped := WalkRegexKeyIssues(re, rule, n);
      if stopped {
        return;
      }
      stopped := WalkNumberPlaceholderIssues(rule, n);
    }

    method VisitValidationIssues(re: RegexEngine, rules: Config)
      modifies this
      ensures issues == Visit(stopAtFirst, old(issues), AllIssues(re, rules)).0
    {
      hide Visit, RuleIssues;
      if |rules| > MAX_ABBR_RULES {
        var _ := Report(ConfigIssue(TooManyRules));
        return;
      }
      ghost var visit := Visit(stopAtFirst, issues, AllIssues(re, rules));
      for i := 0 to |rules|
        invariant visit == Visit(stopAtFirst, issues, IssuesFrom(re, rules, i))
      {
        VisitThen(stopAtFirst, issues, RuleIssues(re, rules[i], i + 1), IssuesFrom(re, rules, i + 1));
        var stopped := VisitRule(re, rules[i], i + 1);
        if stopped {
          return;
        }
      }
      VisitNothing(stopAtFirst, issues);
    }
  }

  lemma ListIssuesBySize(tag: Option<Label>, list: seq<string>, n: nat)
    ensures CommandListIssues(tag, list, n) ==
      if |list| > MAX_CMD_LIST_LEN then [RuleIssue(n, CommandsField(tag), TooManyCmds)]
      else EntryIssues(tag, list, 0, n)
  {
  }

  /** What `doctor` lists. */
  method CollectValidationIssues(re: RegexEngine, rules: Config) returns (issues: seq<Issue>)
    ensures issues == AllIssues(re, rules)
  {
    var visitor := new Visitor(false);
    visitor.VisitValidationIssues(re, rules);
    issues := visitor.issues;
  }

  /** What a load fails with: the head of the full list, converted, and
      nothing when the list is empty. */
  method FirstValidationError(re: RegexEngine, rules: Config) returns (first: Option<ConfigError>)
    ensures first == if AllIssues(re, rules) == [] then None else Some(ToConfigError(AllIssues(re, rules)[0]))
  {
    var visitor := new Visitor(true);
    visitor.VisitValidationIssues(re, rules);
    first := if visitor.issues == [] then None else Some(ToConfigError(visitor.issues[0]));
  }
}
