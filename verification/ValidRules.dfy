/** What a rule without validation issues looks like. */
module ValidRules {
  import opened Wrappers
  import opened Text
  import opened Model
  import opened Sanitize
  import opened Matching
  import opened Validation

  predicate ValidExpand(expand: PerShell<string>) {
    var values := Labelled(expand);
    forall i :: 0 <= i < |values| ==> CheckExpandValue(values[i].1).None?
  }

  predicate ValidCommandList(list: seq<string>) {
    |list| <= MAX_CMD_LIST_LEN && forall i :: 0 <= i < |list| ==> CheckCmdEntry(list[i]).None?
  }

  predicate ValidCommands(commands: PerShell<seq<string>>) {
    var lists := Labelled(commands);
    forall i :: 0 <= i < |lists| ==> ValidCommandList(lists[i].1)
  }

  predicate ValidGlobKey(key: string) {
    && (forall c <- key :: c !in GLOB_KEY_FORBIDDEN_CHARS)
    && AtMostOneStar(key)
    && ('*' in key || '?' in key)
  }

  predicate ValidRegexRule(re: RegexEngine, rule: Abbr) {
    var values := Labelled(rule.expand);
    && re.groupCount(rule.key).Success?
    && forall i :: 0 <= i < |values| ==> !RefersToMissingGroup(values[i].1, re.groupCount(rule.key).value)
  }

  predicate ValidNumberUse(rule: Abbr) {
    && !HasUnknownPlaceholder(rule)
    && NumberCount(rule) <= 1
    && (rule.number.Some? <==> NumberCount(rule) == 1)
    && (rule.number.Some? ==> CheckNumberUnit(rule.number.value).None?)
  }

  predicate ValidRule(re: RegexEngine, rule: Abbr) {
    && CheckAbbrKey(rule.key).None?
    && ValidExpand(rule.expand)
    && (rule.whenCommandExists.Some? ==> ValidCommands(rule.whenCommandExists.value))
    && (rule.matchKind == Some(Glob) ==> ValidGlobKey(rule.key))
    && (rule.matchKind == Some(Regex) ==> ValidRegexRule(re, rule))
    && ValidNumberUse(rule)
  }

  lemma {:induction false} NoExpandIssues(values: seq<(Option<Label>, string)>, n: nat)
    ensures ExpandIssues(values, n) == [] <==> forall i :: 0 <= i < |values| ==> CheckExpandValue(values[i].1).None?
  {
    hide CheckExpandValue;
    if values != [] {
      NoExpandIssues(values[1..], n);
      assert forall i :: 1 <= i < |values| ==> values[i] == values[1..][i - 1];
    }
  }

  lemma EntryIssuesCons(tag: Option<Label>, list: seq<string>, from: nat, n: nat)
    requires from < |list|
    ensures EntryIssues(tag, list, from, n) == [] <==>
      CheckCmdEntry(list[from]).None? && EntryIssues(tag, list, from + 1, n) == []
  {
    hide CheckCmdEntry;
  }

  lemma {:induction false} NoEntryIssues(tag: Option<Label>, list: seq<string>, from: nat, n: nat)
    requires from <= |list|
    ensures EntryIssues(tag, list, from, n) == [] <==> forall i :: from <= i < |list| ==> CheckCmdEntry(list[i]).None?
    decreases |list| - from
  {
    hide CheckCmdEntry, EntryIssues;
    if from == |list| {
      NoEntriesLeft(tag, list, n);
    } else {
      EntryIssuesCons(tag, list, from, n);
      NoEntryIssues(tag, list, from + 1, n);
    }
  }

  lemma NoEntriesLeft(tag: Option<Label>, list: seq<string>, n: nat)
    ensures EntryIssues(tag, list, |list|, n) == []
  {
  }

  lemma NoCommandListIssues(tag: Option<Label>, list: seq<string>, n: nat)
    ensures CommandListIssues(tag, list, n) == [] <==> ValidCommandList(list)
  {
    hide CheckCmdEntry, EntryIssues;
    NoEntryIssues(tag, list, 0, n);
  }

  lemma {:induction false} NoCommandIssues(lists: seq<(Option<Label>, seq<string>)>, n: nat)
    ensures CommandIssues(lists, n) == [] <==> forall i :: 0 <= i < |lists| ==> ValidCommandList(lists[i].1)
  {
    hide CommandListIssues, ValidCommandList;
    if lists != [] {
      var rest := lists[1..];
      NoCommandIssues(rest, n);
      NoCommandListIssues(lists[0].0, lists[0].1, n);
      assert forall i :: 1 <= i < |lists| ==> lists[i] == rest[i - 1];
      hide CommandIssues;
    }
  }

  lemma {:induction false} NoMissingGroupIssues(values: seq<(Option<Label>, string)>, groupCount: nat, n: nat)
    ensures MissingGroupIssues(values, groupCount, n) == [] <==>
      forall i :: 0 <= i < |values| ==> !RefersToMissingGroup(values[i].1, groupCount)
  {
    hide RefersToMissingGroup;
    if values != [] {
      NoMissingGroupIssues(values[1..], groupCount, n);
      assert forall i :: 1 <= i < |values| ==> values[i] == values[1..][i - 1];
    }
  }

  lemma {:induction false} CountCharZero(s: string, c: char)
    ensures CountChar(s, c) == 0 <==> c !in s
  {
    if s != "" {
      CountCharZero(s[1..], c);
    }
  }

  lemma {:induction false} AtMostOneStarCounts(key: string)
    ensures CountChar(key, '*') <= 1 <==> AtMostOneStar(key)
  {
    if key != "" {
      var rest := key[1..];
      AtMostOneStarCounts(rest);
      CountCharZero(rest, '*');
      assert forall i :: 1 <= i < |key| ==> key[i] == rest[i - 1];
      if key[0] == '*' && '*' in rest {
        var k :| 0 <= k < |rest| && rest[k] == '*';
        assert key[k + 1] == '*';
      }
      if key[0] != '*' && AtMostOneStar(rest) {
        forall i, j | 0 <= i < j < |key| ensures !(key[i] == '*' && key[j] == '*') {
          if i > 0 {
            assert !(rest[i - 1] == '*' && rest[j - 1] == '*');
          }
        }
      }
      if AtMostOneStar(key) {
        forall i, j | 0 <= i < j < |rest| ensures !(rest[i] == '*' && rest[j] == '*') {
          assert !(key[i + 1] == '*' && key[j + 1] == '*');
        }
      }
    }
  }

  lemma NoGlobKeyIssues(rule: Abbr, n: nat)
    ensures GlobKeyIssues(rule, n) == [] <==> rule.matchKind == Some(Glob) ==> ValidGlobKey(rule.key)
  {
    hide CountChar;
    AtMostOneStarCounts(rule.key);
  }

  lemma NoNumberIssues(rule: Abbr, n: nat)
    ensures NumberPlaceholderIssues(rule, n) == [] <==> ValidNumberUse(rule)
  {
    hide HasUnknownPlaceholder, NumberCount, CheckNumberUnit;
  }

  /** A rule is reported nothing exactly when every one of its fields is valid. */
  lemma NoRuleIssues(re: RegexEngine, rule: Abbr, n: nat)
    ensures RuleIssues(re, rule, n) == [] <==> ValidRule(re, rule)
  {
    hide CheckAbbrKey, ExpandIssues, CommandIssues, GlobKeyIssues, NumberPlaceholderIssues, MissingGroupIssues;
    hide ValidNumberUse, ValidGlobKey, RefersToMissingGroup, CheckExpandValue, ValidCommandList, Labelled;
    NoExpandIssues(Labelled(rule.expand), n);
    if rule.whenCommandExists.Some? {
      NoCommandIssues(Labelled(rule.whenCommandExists.value), n);
    }
    NoGlobKeyIssues(rule, n);
    if rule.matchKind == Some(Regex) && re.groupCount(rule.key).Success? {
      NoMissingGroupIssues(Labelled(rule.expand), re.groupCount(rule.key).value, n);
    }
    NoNumberIssues(rule, n);
  }

  lemma {:induction false} NoIssuesFrom(re: RegexEngine, rules: Config, from: nat)
    requires from <= |rules|
    ensures IssuesFrom(re, rules, from) == [] <==> forall i :: from <= i < |rules| ==> ValidRule(re, rules[i])
    decreases |rules| - from
  {
    hide RuleIssues, ValidRule;
    if from < |rules| {
      NoIssuesFrom(re, rules, from + 1);
      NoRuleIssues(re, rules[from], from + 1);
    }
  }

  /** A configuration loads exactly when it is not too long and each of its
      rules is valid. */
  lemma ValidatedMeansValidRules(re: RegexEngine, rules: Config)
    ensures Validated(re, rules) <==>
      |rules| <= MAX_ABBR_RULES && forall i :: 0 <= i < |rules| ==> ValidRule(re, rules[i])
  {
    hide ValidRule, IssuesFrom;
    NoIssuesFrom(re, rules, 0);
  }

  // ----- consequences -----

  lemma ForShellIsLabelled<T>(perShell: PerShell<T>, shell: Shell) returns (i: nat)
    requires perShell.ForShell(shell).Some?
    ensures i < |Labelled(perShell)| && Labelled(perShell)[i].1 == perShell.ForShell(shell).value
  {
    var v := perShell.ForShell(shell).value;
    match perShell
    case All(_) => i := 0;
    case ByShell(fallback, bash, zsh, pwsh, nu) =>
      var before := match shell
        case Bash => if bash.Some? then WithLabel(fallback, Fallback) else []
        case Zsh => if zsh.Some? then WithLabel(fallback, Fallback) + WithLabel(bash, BashLabel) else []
        case Pwsh =>
          if pwsh.Some? then WithLabel(fallback, Fallback) + WithLabel(bash, BashLabel) + WithLabel(zsh, ZshLabel)
          else []
        case Nu =>
          if nu.Some? then
            WithLabel(fallback, Fallback) + WithLabel(bash, BashLabel) + WithLabel(zsh, ZshLabel)
            + WithLabel(pwsh, PwshLabel)
          else []
        case Clink => [];
      i := |before|;
  }

  lemma ValidTemplate(re: RegexEngine, rule: Abbr, shell: Shell)
    requires ValidRule(re, rule) && rule.expand.ForShell(shell).Some?
    ensures CheckExpandValue(rule.expand.ForShell(shell).value).None?
  {
    hide CheckExpandValue, CheckAbbrKey, ValidNumberUse;
    var i := ForShellIsLabelled(rule.expand, shell);
  }

  lemma ValidConditions(re: RegexEngine, rule: Abbr, shell: Shell)
    requires ValidRule(re, rule) && rule.whenCommandExists.Some?
    requires rule.whenCommandExists.value.ForShell(shell).Some?
    ensures ValidCommandList(rule.whenCommandExists.value.ForShell(shell).value)
  {
    hide CheckExpandValue, CheckAbbrKey, ValidNumberUse, ValidCommandList;
    var i := ForShellIsLabelled(rule.whenCommandExists.value, shell);
  }

  lemma {:induction false} NothingToReplace(s: string, pat: string, with: string)
    requires pat != "" && CountOf(s, pat) == 0
    ensures ReplaceAll(s, pat, with) == s
  {
    if s != "" {
      NothingToReplace(s[1..], pat, with);
      assert s == [s[0]] + s[1..];
    }
  }

  lemma {:induction false} CountedMeansFound(s: string, pat: string)
    requires pat != ""
    ensures CountOf(s, pat) >= 1 <==> Find(s, pat).Some?
    decreases |s|
  {
    if s != "" {
      assert pat <= s <==> OccursAt(s, pat, 0);
      if !(pat <= s) {
        CountedMeansFound(s[1..], pat);
      }
    }
  }

  lemma OccursAtStartOf(s: string, pat: string, i: nat)
    requires i <= |s|
    ensures pat <= s[i..] <==> OccursAt(s, pat, i)
  {
    if i + |pat| <= |s| {
      assert s[i..][..|pat|] == s[i..i + |pat|];
    }
  }

  lemma ScanOne(s: string, pat: string, with: string)
    requires pat != "" && s != "" && !(pat <= s)
    ensures CountOf(s, pat) == CountOf(s[1..], pat)
    ensures ReplaceAll(s, pat, with) == [s[0]] + ReplaceAll(s[1..], pat, with)
  {
  }

  lemma {:induction false} ScanSkips(s: string, pat: string, with: string, k: nat)
    requires pat != "" && k <= |s| && forall j: nat :: j < k ==> !OccursAt(s, pat, j)
    ensures CountOf(s, pat) == CountOf(s[k..], pat)
    ensures ReplaceAll(s, pat, with) == s[..k] + ReplaceAll(s[k..], pat, with)
  {
    hide ReplaceAll, CountOf;
    if k == 0 {
      assert s[0..] == s && s[..0] == "";
    } else {
      ScanSkips(s, pat, with, k - 1);
      var rest := s[k - 1..];
      assert rest[1..] == s[k..] && rest[0] == s[k - 1];
      OccursAtStartOf(s, pat, k - 1);
      ScanOne(rest, pat, with);
      var later := ReplaceAll(s[k..], pat, with);
      assert s[..k] == s[..k - 1] + [s[k - 1]];
      assert s[..k - 1] + ([s[k - 1]] + later) == (s[..k - 1] + [s[k - 1]]) + later;
    }
  }

  /** One step of both scans at an occurrence. */
  lemma ScanAtOccurrence(s: string, pat: string, with: string)
    requires pat != "" && pat <= s
    ensures CountOf(s, pat) == 1 + CountOf(s[|pat|..], pat)
    ensures ReplaceAll(s, pat, with) == with + ReplaceAll(s[|pat|..], pat, with)
  {
  }

  lemma ReplaceAtFirst(s: string, pat: string, with: string, pos: nat)
    requires pat != "" && Find(s, pat) == Some(pos)
    ensures CountOf(s, pat) == 1 + CountOf(s[pos + |pat|..], pat)
    ensures ReplaceAll(s, pat, with) == s[..pos] + (with + ReplaceAll(s[pos + |pat|..], pat, with))
  {
    hide Find, ReplaceAll, CountOf;
    FoundFits(s, pat);
    OccursAtStartOf(s, pat, pos);
    hide OccursAt;
    forall j: nat | j < pos ensures !OccursAt(s, pat, j) {
      if OccursAt(s, pat, j) {
        FindIsFirst(s, pat, j);
      }
    }
    ScanSkips(s, pat, with, pos);
    ScanAtOccurrence(s[pos..], pat, with);
    assert s[pos..][|pat|..] == s[pos + |pat|..];
  }

  lemma NothingReplacedIfNotCounted(key: string)
    ensures CountOf(key, NUMBER_PLACEHOLDER) == 0 ==> ReplaceAll(key, NUMBER_PLACEHOLDER, "") == key
  {
    hide ReplaceAll, CountOf;
    if CountOf(key, NUMBER_PLACEHOLDER) == 0 {
      NothingToReplace(key, NUMBER_PLACEHOLDER, "");
    }
  }

  /** A key with a brace, which becomes brace-free when its only `{number}` is
      taken out. */
  lemma NumberKeyShape(key: string)
    requires '{' in key && '{' !in ReplaceAll(key, NUMBER_PLACEHOLDER, "") && CountOf(key, NUMBER_PLACEHOLDER) <= 1
    ensures CountOf(key, NUMBER_PLACEHOLDER) == 1 && SplitOnceNumberPlaceholder(key).Some?
    ensures Find(key, NUMBER_PLACEHOLDER) == Some(|SplitOnceNumberPlaceholder(key).value.0|)
  {
    hide Find, ReplaceAll, CountOf;
    NothingReplacedIfNotCounted(key);
    CountedMeansFound(key, NUMBER_PLACEHOLDER);
    var pos := Find(key, NUMBER_PLACEHOLDER).value;
    ReplaceAtFirst(key, NUMBER_PLACEHOLDER, "", pos);
    var prefix, suffix := key[..pos], key[pos + |NUMBER_PLACEHOLDER|..];
    NothingToReplace(suffix, NUMBER_PLACEHOLDER, "");
    BraceFreeParts(prefix, suffix);
  }

  lemma BraceFreeParts(prefix: string, suffix: string)
    requires '{' !in prefix + ("" + suffix)
    ensures '{' !in prefix && '{' !in suffix
  {
    assert forall c <- prefix :: c in prefix + ("" + suffix);
    assert forall c <- suffix :: c in prefix + ("" + suffix);
  }

  /** A valid rule of the number phase has a key of the form prefix,
      `{number}`, suffix with no other brace, and a valid unit. */
  lemma ValidNumberRule(re: RegexEngine, rule: Abbr)
    requires ValidRule(re, rule) && PhaseOf(rule).NumberPhase?
    ensures SplitOnceNumberPlaceholder(rule.key).Some?
    ensures Find(rule.key, NUMBER_PLACEHOLDER) == Some(|SplitOnceNumberPlaceholder(rule.key).value.0|)
    ensures rule.number.Some? && CheckNumberUnit(rule.number.value).None?
  {
    hide CheckExpandValue, CheckAbbrKey, CheckNumberUnit, ValidExpand, ValidCommands, Find, ReplaceAll, CountOf;
    hide SplitOnceNumberPlaceholder;
    NumberKeyShape(rule.key);
  }

  /** Outside the number phase a valid rule has no unit. */
  lemma ValidPlainRule(re: RegexEngine, rule: Abbr)
    requires ValidRule(re, rule) && !PhaseOf(rule).NumberPhase?
    ensures rule.number.None?
  {
    hide CheckExpandValue, CheckAbbrKey, CheckNumberUnit, ValidExpand, ValidCommands;
    if rule.matchKind == Some(Glob) {
      assert '{' in GLOB_KEY_FORBIDDEN_CHARS by {
        assert GLOB_KEY_FORBIDDEN_CHARS[2] == '{';
      }
    }
  }

  // ----- short printable texts -----

  /** Visible ASCII characters only. */
  predicate IsPrintable(s: string) {
    s != "" && forall i :: 0 <= i < |s| ==> '!' <= s[i] <= '~'
  }

  lemma PrintableChar(c: char)
    requires '!' <= c <= '~'
    ensures !IsWhitespace(c) && c != '\0' && !IsAsciiControl(c) && !IsDeceptiveUnicode(c) && Utf8Len(c) == 1
  {
  }

  lemma {:induction false} PrintableByteLen(s: string)
    requires forall i :: 0 <= i < |s| ==> '!' <= s[i] <= '~'
    ensures ByteLen(s) == |s|
  {
    if s != "" {
      PrintableChar(s[0]);
      PrintableByteLen(s[1..]);
    }
  }

  /** A short printable text passes the check of every field. */
  lemma PrintableIsValid(s: string)
    requires IsPrintable(s) && |s| <= MAX_NUMBER_UNIT_BYTES
    ensures CheckAbbrKey(s).None? && CheckExpandValue(s).None? && CheckNumberUnit(s).None?
  {
    hide IsWhitespace, IsAsciiControl, IsDeceptiveUnicode;
    PrintableByteLen(s);
    forall c <- s ensures !IsWhitespace(c) && c != '\0' && !IsAsciiControl(c) && !IsDeceptiveUnicode(c) {
      PrintableChar(c);
    }
    assert s[0] in s;
  }
}
