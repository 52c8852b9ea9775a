/** What the error of a failed load says: which rule, and what is wrong with it. */
module LoadErrors {
  import opened Wrappers
  import opened Text
  import opened Model
  import opened Sanitize
  import opened Matching
  import opened Validation
  import opened ValidRules

  predicate SomeControl(s: string) {
    exists c <- s :: c as int < 0x20 || c as int == 0x7F
  }

  /** The invisible and the directional characters, block by block. */
  predicate IsInvisible(c: char) {
    var code := c as int;
    if code < 0x0700 then code == 0xAD || code == 0x34F || code == 0x61C
    else if code < 0x1900 then
      code in {0x115F, 0x1160, 0x17B4, 0x17B5, 0x180B, 0x180C, 0x180D, 0x180F}
    else if code < 0x3000 then
      code in {0x200B, 0x200C, 0x200D, 0x200E, 0x200F, 0x202A, 0x202B, 0x202C, 0x202D, 0x202E}
      || 0x2060 <= code < 0x2070
    else if code < 0x1_0000 then
      code in {0x3164, 0xFEFF, 0xFFA0, 0xFFF9, 0xFFFA, 0xFFFB} || 0xFE00 <= code < 0xFE10
    else 0xE_0000 <= code < 0xE_0080
  }

  lemma InvisibleIsDeceptive(c: char)
    ensures IsDeceptiveUnicode(c) <==> IsInvisible(c)
  {
  }

  predicate SomeDeceptive(s: string) {
    exists c <- s :: IsInvisible(c)
  }

  predicate OnlyWhitespace(s: string) {
    s != "" && forall c <- s :: IsWhitespace(c)
  }

  /** A value written anywhere in the table. */
  predicate Written<T(==)>(values: PerShell<T>, v: T) {
    exists k :: 0 <= k < |Labelled(values)| && Labelled(values)[k].1 == v
  }

  /** A command written in some list that is not too long. */
  ghost predicate CommandWritten(rule: Abbr, c: string) {
    && rule.whenCommandExists.Some?
    && exists list: seq<string> :: Written(rule.whenCommandExists.value, list) && |list| <= 64 && c in list
  }

  predicate SeveralStars(key: string) {
    exists i, j :: 0 <= i < j < |key| && key[i] == '*' && key[j] == '*'
  }

  predicate IsUnsupportedInGlob(c: char) {
    c == '[' || c == ']' || c == '{' || c == '}' || c == '(' || c == ')' || c == '\\'
  }

  predicate IsMetacharacter(c: char) {
    || c == '&' || c == '|' || c == ';' || c == '<' || c == '>' || c == '`' || c == '$' || c == '(' || c == ')'
    || c == '{' || c == '}' || c == '\'' || c == '"' || c == '%' || c == '^' || c == ' ' || c == '\t' || c == '*'
    || c == '?' || c == '[' || c == ']' || c == ',' || c == '=' || c == '!' || c == '#' || c == '~'
  }

  /** The text has `{n}` for a group number that the key does not have. */
  predicate NamesMissingGroup(v: string, groupCount: nat) {
    exists i :: 0 <= i < |v| - 2 && v[i] == '{' && '1' <= v[i + 1] <= '9' && v[i + 2] == '}'
      && groupCount < v[i + 1] as int - '0' as int
  }

  /** The order in which the checks of one text, or of one key, are made. */
  function Place(reason: Reason): nat {
    match reason
    case KeyEmpty => 0
    case KeyWhitespaceOnly => 1
    case KeyTooLong => 2
    case KeyContainsNul => 3
    case KeyContainsControlChar => 4
    case KeyContainsDeceptiveUnicode => 5
    case ExpandEmpty => 0
    case ExpandWhitespaceOnly => 1
    case ExpandTooLong => 2
    case ExpandContainsNul => 3
    case ExpandContainsControlChar => 4
    case ExpandContainsDeceptiveUnicode => 5
    case CmdEmpty => 0
    case CmdWhitespaceOnly => 1
    case CmdTooLong => 2
    case CmdContainsNul => 3
    case CmdContainsControlChar => 4
    case CmdContainsDeceptiveUnicode => 5
    case CmdContainsPathSeparator => 6
    case CmdContainsMetacharacter => 7
    case GlobKeyHasUnsupportedChar => 0
    case GlobKeyHasMultipleStars => 1
    case GlobKeyWithoutWildcard => 2
    case KeyHasUnknownPlaceholder => 0
    case KeyHasMultipleNumberPlaceholders => 1
    case KeyHasNumberWithoutUnit => 2
    case NumberFieldWithoutKeyPlaceholder => 3
    case NumberEmpty => 4
    case NumberUnitTooLong => 5
    case NumberContainsNul => 6
    case NumberContainsControlChar => 7
    case NumberContainsDeceptiveUnicode => 8
    case TooManyCmds => 0
    case RegexKeyInvalid(_) => 0
    case RegexExpandGroupOutOfRange => 0
    case TooManyRules => 0
  }

  /** What the key, as it stands, can be blamed for. */
  predicate KeyFault(rule: Abbr, reason: Reason) {
    var key := rule.key;
    match reason
    case KeyEmpty => key == ""
    case KeyWhitespaceOnly => OnlyWhitespace(key)
    case KeyTooLong => ByteLen(key) > 1024
    case KeyContainsNul => '\0' in key
    case KeyContainsControlChar => SomeControl(key)
    case KeyContainsDeceptiveUnicode => SomeDeceptive(key)
    case _ => false
  }

  predicate ExpandValueFault(v: string, reason: Reason) {
    match reason
    case ExpandEmpty => v == ""
    case ExpandWhitespaceOnly => OnlyWhitespace(v)
    case ExpandTooLong => ByteLen(v) > 4096
    case ExpandContainsNul => '\0' in v
    case ExpandContainsControlChar => SomeControl(v)
    case ExpandContainsDeceptiveUnicode => SomeDeceptive(v)
    case _ => false
  }

  ghost predicate ExpandFault(rule: Abbr, reason: Reason) {
    exists v :: Written(rule.expand, v) && ExpandValueFault(v, reason)
  }

  predicate CommandTextFault(c: string, reason: Reason) {
    match reason
    case CmdEmpty => c == ""
    case CmdWhitespaceOnly => OnlyWhitespace(c)
    case CmdTooLong => ByteLen(c) > 255
    case CmdContainsNul => '\0' in c
    case CmdContainsControlChar => SomeControl(c)
    case CmdContainsDeceptiveUnicode => SomeDeceptive(c)
    case CmdContainsPathSeparator => '/' in c || '\\' in c || ':' in c
    case CmdContainsMetacharacter => exists x <- c :: IsMetacharacter(x)
    case _ => false
  }

  ghost predicate CommandFault(rule: Abbr, reason: Reason) {
    if reason.TooManyCmds? then
      && rule.whenCommandExists.Some?
      && exists list: seq<string> :: Written(rule.whenCommandExists.value, list) && |list| > 64
    else exists c :: CommandWritten(rule, c) && CommandTextFault(c, reason)
  }

  predicate GlobFault(rule: Abbr, reason: Reason) {
    && rule.matchKind == Some(Glob)
    && match reason
       case GlobKeyWithoutWildcard => '*' !in rule.key && '?' !in rule.key
       case GlobKeyHasMultipleStars => SeveralStars(rule.key)
       case GlobKeyHasUnsupportedChar => exists c <- rule.key :: IsUnsupportedInGlob(c)
       case _ => false
  }

  ghost predicate RegexFault(re: RegexEngine, rule: Abbr, reason: Reason) {
    && rule.matchKind == Some(Regex)
    && match reason
       case RegexKeyInvalid(text) =>
         re.groupCount(rule.key).Failure? && text == SanitizeForDisplay(re.groupCount(rule.key).error)
       case RegexExpandGroupOutOfRange =>
         && re.groupCount(rule.key).Success?
         && exists v :: Written(rule.expand, v) && NamesMissingGroup(v, re.groupCount(rule.key).value)
       case _ => false
  }

  predicate NumberFault(rule: Abbr, reason: Reason) {
    var literal, count := rule.matchKind != Some(Regex), CountOf(rule.key, "{number}");
    match reason
    case KeyHasUnknownPlaceholder => literal && '{' in ReplaceAll(rule.key, "{number}", "")
    case KeyHasMultipleNumberPlaceholders => literal && count > 1
    case KeyHasNumberWithoutUnit => literal && count >= 1 && rule.number.None?
    case NumberFieldWithoutKeyPlaceholder => rule.number.Some? && !(literal && count >= 1)
    case _ => rule.number.Some? && UnitFault(rule.number.value, reason)
  }

  /** The six groups of faults, in the order in which they are looked for. */
  ghost predicate Fault(re: RegexEngine, rule: Abbr, group: nat, reason: Reason) {
    match group
    case 0 => KeyFault(rule, reason)
    case 1 => ExpandFault(rule, reason)
    case 2 => CommandFault(rule, reason)
    case 3 => GlobFault(rule, reason)
    case 4 => RegexFault(re, rule, reason)
    case 5 => NumberFault(rule, reason)
    case _ => false
  }

  /** No group before this one has a fault. */
  ghost predicate NothingBefore(re: RegexEngine, rule: Abbr, group: nat) {
    forall earlier: nat, reason :: earlier < group ==> !Fault(re, rule, earlier, reason)
  }

  /** The issues are of the group's faults, of this rule, and there are none
      only if the rule has no such fault. */
  ghost predicate Reports(re: RegexEngine, rule: Abbr, n: nat, group: nat, issues: seq<Issue>) {
    Sound(re, rule, n, group, issues) && (issues == [] ==> forall reason :: !Fault(re, rule, group, reason))
  }

  ghost predicate Sound(re: RegexEngine, rule: Abbr, n: nat, group: nat, issues: seq<Issue>) {
    forall issue <- issues :: issue.RuleIssue? && issue.ruleIndex == n && Fault(re, rule, group, issue.reason)
  }

  lemma SoundBoth(re: RegexEngine, rule: Abbr, n: nat, group: nat, a: seq<Issue>, b: seq<Issue>)
    requires Sound(re, rule, n, group, a) && Sound(re, rule, n, group, b)
    ensures Sound(re, rule, n, group, a + b)
  {
    hide Fault;
  }

  lemma SoundOne(re: RegexEngine, rule: Abbr, n: nat, group: nat, path: FieldPath, found: Option<Reason>)
    requires found.Some? ==> Fault(re, rule, group, found.value)
    ensures Sound(re, rule, n, group, IssueIf(n, path, found)) && (IssueIf(n, path, found) == [] <==> found.None?)
  {
    hide Fault;
  }

  lemma SameControl(s: string)
    ensures HasControl(s) == SomeControl(s) && HasDeceptive(s) == SomeDeceptive(s)
    ensures s != "" ==> IsBlank(s) == OnlyWhitespace(s)
    ensures OnlyWhitespace("") == false
  {
    hide IsInvisible, IsDeceptiveUnicode;
    forall c ensures IsDeceptiveUnicode(c) <==> IsInvisible(c) {
      InvisibleIsDeceptive(c);
    }
  }

  lemma EmptyTextIsClean()
    ensures ByteLen("") == 0 && !SomeControl("") && !SomeDeceptive("") && '\0' !in ""
  {
  }

  lemma KeyReports(re: RegexEngine, rule: Abbr, n: nat)
    ensures Reports(re, rule, n, 0, IssueIf(n, KeyField, CheckAbbrKey(rule.key)))
  {
    hide IsBlank, ByteLen, HasControl, HasDeceptive, SomeControl, SomeDeceptive, OnlyWhitespace;
    SameControl(rule.key);
  }

  /** Of several faults of the key the first in the order of the checks is
      reported; likewise below for other texts. */
  lemma FirstKeyFault(rule: Abbr)
    ensures CheckAbbrKey(rule.key).Some? ==>
      forall reason :: KeyFault(rule, reason) ==> Place(CheckAbbrKey(rule.key).value) <= Place(reason)
  {
    hide IsBlank, ByteLen, HasControl, HasDeceptive, SomeControl, SomeDeceptive, OnlyWhitespace;
    SameControl(rule.key);
  }

  lemma FirstExpandFault(v: string)
    ensures CheckExpandValue(v).Some? ==>
      forall reason :: ExpandValueFault(v, reason) ==> Place(CheckExpandValue(v).value) <= Place(reason)
  {
    hide IsBlank, ByteLen, HasControl, HasDeceptive, SomeControl, SomeDeceptive, OnlyWhitespace;
    SameControl(v);
  }

  lemma FirstCommandFault(c: string)
    ensures CheckCmdEntry(c).Some? ==>
      forall reason :: CommandTextFault(c, reason) ==> Place(CheckCmdEntry(c).value) <= Place(reason)
  {
    hide IsBlank, ByteLen, HasControl, HasDeceptive, SomeControl, SomeDeceptive, OnlyWhitespace, IsPathSeparator;
    hide IsMetacharacter;
    SameControl(c);
    SeparatorIn(c);
    MetacharacterIn(c);
  }

  lemma FirstUnitFault(unit: string)
    ensures CheckNumberUnit(unit).Some? ==>
      forall reason :: UnitFault(unit, reason) ==> Place(CheckNumberUnit(unit).value) <= Place(reason)
  {
    hide ByteLen, HasControl, HasDeceptive, SomeControl, SomeDeceptive;
    SameControl(unit);
  }

  lemma MetacharacterIn(c: string)
    ensures (exists x <- c :: x in METACHARS) <==> exists x <- c :: IsMetacharacter(x)
  {
    hide IsMetacharacter;
    forall x ensures x in METACHARS <==> IsMetacharacter(x) {
      MetacharactersAre(x);
    }
  }

  lemma MetacharactersAre(x: char)
    ensures x in METACHARS <==> IsMetacharacter(x)
  {
    var m := METACHARS;
    assert |m| == 26;
    assert m[0] == '&' && m[1] == '|' && m[2] == ';' && m[3] == '<' && m[4] == '>' && m[5] == '`' && m[6] == '$';
    assert m[7] == '(' && m[8] == ')' && m[9] == '{' && m[10] == '}' && m[11] == '\'' && m[12] == '"';
    assert m[13] == '%' && m[14] == '^' && m[15] == ' ' && m[16] == '\t' && m[17] == '*' && m[18] == '?';
    assert m[19] == '[' && m[20] == ']';
    assert m[21] == ',' && m[22] == '=' && m[23] == '!' && m[24] == '#' && m[25] == '~';
  }

  lemma ExpandCheck(v: string)
    ensures CheckExpandValue(v).Some? ==> ExpandValueFault(v, CheckExpandValue(v).value)
    ensures CheckExpandValue(v).None? ==> forall reason :: !ExpandValueFault(v, reason)
  {
    hide IsBlank, ByteLen, HasControl, HasDeceptive, SomeControl, SomeDeceptive, OnlyWhitespace;
    SameControl(v);
  }

  lemma {:induction false} ExpandIssuesAre(values: seq<(Option<Label>, string)>, n: nat, issue: Issue)
    requires issue in ExpandIssues(values, n)
    ensures issue.RuleIssue? && issue.ruleIndex == n
    ensures exists k :: 0 <= k < |values| && CheckExpandValue(values[k].1) == Some(issue.reason)
  {
    hide CheckExpandValue;
    if CheckExpandValue(values[0].1).Some? && issue.RuleIssue? && issue.ruleIndex == n
       && CheckExpandValue(values[0].1) == Some(issue.reason) {
    } else {
      ExpandIssuesAre(values[1..], n, issue);
      var k :| 0 <= k < |values[1..]| && CheckExpandValue(values[1..][k].1) == Some(issue.reason);
      assert values[k + 1] == values[1..][k];
    }
  }

  lemma ExpandReports(re: RegexEngine, rule: Abbr, n: nat)
    ensures Reports(re, rule, n, 1, ExpandIssues(Labelled(rule.expand), n))
  {
    hide CheckExpandValue, ExpandValueFault, ExpandIssues, Labelled;
    var values := Labelled(rule.expand);
    var issues := ExpandIssues(values, n);
    forall issue <- issues
      ensures issue.RuleIssue? && issue.ruleIndex == n && ExpandFault(rule, issue.reason)
    {
      ExpandIssuesAre(values, n, issue);
      var k :| 0 <= k < |values| && CheckExpandValue(values[k].1) == Some(issue.reason);
      ExpandCheck(values[k].1);
      assert Written(rule.expand, values[k].1);
    }
    NoExpandIssues(values, n);
    if issues == [] {
      forall v | Written(rule.expand, v) ensures forall reason :: !ExpandValueFault(v, reason) {
        var k :| 0 <= k < |values| && values[k].1 == v;
        ExpandCheck(v);
      }
    }
  }

  lemma SeparatorIn(c: string)
    ensures (exists x <- c :: IsPathSeparator(x)) <==> '/' in c || '\\' in c || ':' in c
  {
  }

  lemma CommandCheck(c: string)
    ensures CheckCmdEntry(c).Some? ==>
      CommandTextFault(c, CheckCmdEntry(c).value) && !CheckCmdEntry(c).value.TooManyCmds?
    ensures CheckCmdEntry(c).None? ==> forall reason :: !CommandTextFault(c, reason)
  {
    hide IsBlank, ByteLen, HasControl, HasDeceptive, SomeControl, SomeDeceptive, OnlyWhitespace, IsPathSeparator;
    hide IsMetacharacter;
    SameControl(c);
    SeparatorIn(c);
    MetacharacterIn(c);
  }

  lemma {:induction false} EntryIssuesAre(
    tag: Option<Label>, list: seq<string>, from: nat, n: nat, issue: Issue)
    requires from <= |list| && issue in EntryIssues(tag, list, from, n)
    ensures issue.RuleIssue? && issue.ruleIndex == n
    ensures exists k :: from <= k < |list| && CheckCmdEntry(list[k]) == Some(issue.reason)
    decreases |list| - from
  {
    hide CheckCmdEntry;
    if CheckCmdEntry(list[from]).Some? && issue.RuleIssue? && issue.ruleIndex == n
       && CheckCmdEntry(list[from]) == Some(issue.reason) {
    } else {
      EntryIssuesAre(tag, list, from + 1, n, issue);
    }
  }

  predicate Blames(list: seq<string>, reason: Reason) {
    if |list| > MAX_CMD_LIST_LEN then reason == TooManyCmds
    else exists c <- list :: CheckCmdEntry(c) == Some(reason)
  }

  /** A list that is too long is reported as such and not looked into. */
  lemma {:induction false} CommandIssuesAre(lists: seq<(Option<Label>, seq<string>)>, n: nat, issue: Issue)
    requires issue in CommandIssues(lists, n)
    ensures issue.RuleIssue? && issue.ruleIndex == n
    ensures exists k :: 0 <= k < |lists| && Blames(lists[k].1, issue.reason)
  {
    hide CheckCmdEntry, EntryIssues;
    var (tag, list) := lists[0];
    if issue in CommandListIssues(tag, list, n) {
      if |list| <= MAX_CMD_LIST_LEN {
        EntryIssuesAre(tag, list, 0, n, issue);
        var k :| 0 <= k < |list| && CheckCmdEntry(list[k]) == Some(issue.reason);
        assert list[k] in list;
      }
      assert Blames(lists[0].1, issue.reason);
    } else {
      hide CommandListIssues;
      CommandIssuesAre(lists[1..], n, issue);
      var k :| 0 <= k < |lists[1..]| && Blames(lists[1..][k].1, issue.reason);
      assert lists[k + 1] == lists[1..][k];
    }
  }

  lemma CommandIssueIsFault(rule: Abbr, n: nat, issue: Issue)
    requires issue in ConditionIssues(rule, n)
    ensures issue.RuleIssue? && issue.ruleIndex == n && CommandFault(rule, issue.reason)
  {
    hide CheckCmdEntry, CommandTextFault, CommandIssues, Labelled;
    var lists := Labelled(rule.whenCommandExists.value);
    CommandIssuesAre(lists, n, issue);
    var k :| 0 <= k < |lists| && Blames(lists[k].1, issue.reason);
    var list := lists[k].1;
    assert Written(rule.whenCommandExists.value, list);
    if |list| <= MAX_CMD_LIST_LEN {
      var c :| c in list && CheckCmdEntry(c) == Some(issue.reason);
      CommandCheck(c);
      assert CommandWritten(rule, c);
    }
  }

  lemma NoCommandFaults(rule: Abbr, n: nat, reason: Reason)
    requires ConditionIssues(rule, n) == []
    ensures !CommandFault(rule, reason)
  {
    hide CheckCmdEntry, CommandTextFault, CommandIssues, Labelled;
    if rule.whenCommandExists.Some? {
      var lists := Labelled(rule.whenCommandExists.value);
      NoCommandIssues(lists, n);
      forall list: seq<string> | Written(rule.whenCommandExists.value, list) ensures ValidCommandList(list) {
        var k :| 0 <= k < |lists| && lists[k].1 == list;
      }
      forall c | CommandWritten(rule, c) ensures !CommandTextFault(c, reason) {
        var list: seq<string> :| Written(rule.whenCommandExists.value, list) && |list| <= 64 && c in list;
        var k :| 0 <= k < |list| && list[k] == c;
        CommandCheck(c);
      }
    }
  }

  lemma CommandReports(re: RegexEngine, rule: Abbr, n: nat)
    ensures Reports(re, rule, n, 2, ConditionIssues(rule, n))
  {
    hide CommandFault, ConditionIssues;
    forall issue <- ConditionIssues(rule, n)
      ensures issue.RuleIssue? && issue.ruleIndex == n && CommandFault(rule, issue.reason)
    {
      CommandIssueIsFault(rule, n, issue);
    }
    if ConditionIssues(rule, n) == [] {
      forall reason ensures !CommandFault(rule, reason) {
        NoCommandFaults(rule, n, reason);
      }
    }
  }

  lemma UnsupportedIn(key: string)
    ensures (exists c <- key :: c in GLOB_KEY_FORBIDDEN_CHARS) <==> exists c <- key :: IsUnsupportedInGlob(c)
  {
    forall c ensures c in GLOB_KEY_FORBIDDEN_CHARS <==> IsUnsupportedInGlob(c) {
      var f := GLOB_KEY_FORBIDDEN_CHARS;
      assert f[0] == '[' && f[1] == ']' && f[2] == '{' && f[3] == '}' && f[4] == '(' && f[5] == ')' && f[6] == '\\';
      assert |f| == 7;
    }
  }

  lemma StarsCounted(key: string)
    ensures CountChar(key, '*') > 1 <==> SeveralStars(key)
  {
    hide CountChar;
    AtMostOneStarCounts(key);
  }

  lemma GlobFaultIs(re: RegexEngine, rule: Abbr, reason: Reason)
    ensures Fault(re, rule, 3, reason) <==>
      && rule.matchKind == Some(Glob)
      && (|| (reason == GlobKeyWithoutWildcard && '*' !in rule.key && '?' !in rule.key)
          || (reason == GlobKeyHasMultipleStars && SeveralStars(rule.key))
          || (reason == GlobKeyHasUnsupportedChar && exists c <- rule.key :: IsUnsupportedInGlob(c)))
  {
    hide SeveralStars, IsUnsupportedInGlob;
  }

  lemma GlobReports(re: RegexEngine, rule: Abbr, n: nat)
    ensures Reports(re, rule, n, 3, GlobKeyIssues(rule, n))
  {
    hide CountChar, IsUnsupportedInGlob, SeveralStars, IssueIf, Sound, Fault;
    StarsCounted(rule.key);
    UnsupportedIn(rule.key);
    forall reason ensures Fault(re, rule, 3, reason) <==>
      && rule.matchKind == Some(Glob)
      && (|| (reason == GlobKeyWithoutWildcard && '*' !in rule.key && '?' !in rule.key)
          || (reason == GlobKeyHasMultipleStars && SeveralStars(rule.key))
          || (reason == GlobKeyHasUnsupportedChar && exists c <- rule.key :: IsUnsupportedInGlob(c)))
    {
      GlobFaultIs(re, rule, reason);
    }
    if rule.matchKind == Some(Glob) {
      var unsupported := When(exists c <- rule.key :: c in GLOB_KEY_FORBIDDEN_CHARS, GlobKeyHasUnsupportedChar);
      var stars := When(CountChar(rule.key, '*') > 1, GlobKeyHasMultipleStars);
      var plain := When('*' !in rule.key && '?' !in rule.key, GlobKeyWithoutWildcard);
      SoundThree(re, rule, n, 3, KeyField, unsupported, stars, plain);
    } else {
      SoundNone(re, rule, n, 3);
    }
  }

  lemma SoundThree(
    re: RegexEngine, rule: Abbr, n: nat, group: nat, path: FieldPath,
    a: Option<Reason>, b: Option<Reason>, c: Option<Reason>)
    requires forall found <- [a, b, c] :: found.Some? ==> Fault(re, rule, group, found.value)
    ensures var issues := IssueIf(n, path, a) + (IssueIf(n, path, b) + IssueIf(n, path, c));
      Sound(re, rule, n, group, issues) && (issues == [] <==> a.None? && b.None? && c.None?)
  {
    hide Fault, IssueIf, Sound;
    SoundOne(re, rule, n, group, path, a);
    SoundOne(re, rule, n, group, path, b);
    SoundOne(re, rule, n, group, path, c);
    SoundBoth(re, rule, n, group, IssueIf(n, path, b), IssueIf(n, path, c));
    SoundBoth(re, rule, n, group, IssueIf(n, path, a), IssueIf(n, path, b) + IssueIf(n, path, c));
  }

  lemma SoundNone(re: RegexEngine, rule: Abbr, n: nat, group: nat)
    ensures Sound(re, rule, n, group, [])
  {
  }

  lemma {:induction false} MissingGroupsAre(
    values: seq<(Option<Label>, string)>, groupCount: nat, n: nat, issue: Issue)
    requires issue in MissingGroupIssues(values, groupCount, n)
    ensures issue.RuleIssue? && issue.ruleIndex == n && issue.reason == RegexExpandGroupOutOfRange
    ensures exists k :: 0 <= k < |values| && RefersToMissingGroup(values[k].1, groupCount)
  {
    hide RefersToMissingGroup;
    if !RefersToMissingGroup(values[0].1, groupCount) || issue in MissingGroupIssues(values[1..], groupCount, n) {
      MissingGroupsAre(values[1..], groupCount, n, issue);
      var k :| 0 <= k < |values[1..]| && RefersToMissingGroup(values[1..][k].1, groupCount);
      assert values[k + 1] == values[1..][k];
    }
  }

  lemma OccursIsNamed(v: string, n: nat, i: nat)
    requires 1 <= n <= 9
    ensures OccursAt(v, ['{', DigitChar(n), '}'], i) <==>
      i + 3 <= |v| && v[i] == '{' && v[i + 1] as int == '0' as int + n && v[i + 2] == '}'
  {
    if i + 3 <= |v| {
      assert v[i..i + 3] == [v[i], v[i + 1], v[i + 2]];
    }
  }

  lemma ContainsNamed(v: string, n: nat)
    requires 1 <= n <= 9
    ensures Contains(v, ['{', DigitChar(n), '}']) <==>
      exists i :: 0 <= i < |v| - 2 && v[i] == '{' && v[i + 1] as int == '0' as int + n && v[i + 2] == '}'
  {
    hide Find, OccursAt;
    var pat := ['{', DigitChar(n), '}'];
    FoundFits(v, pat);
    if Contains(v, pat) {
      OccursIsNamed(v, n, Find(v, pat).value);
    }
    forall i: nat | i < |v| - 2 && v[i] == '{' && v[i + 1] as int == '0' as int + n && v[i + 2] == '}'
      ensures Contains(v, pat)
    {
      OccursIsNamed(v, n, i);
      FindIsFirst(v, pat, i);
    }
  }

  lemma MissingGroupNamed(v: string, groupCount: nat)
    ensures RefersToMissingGroup(v, groupCount) <==> NamesMissingGroup(v, groupCount)
  {
    hide Contains;
    forall n | 1 <= n <= 9
      ensures Contains(v, ['{', DigitChar(n), '}']) <==>
        exists i :: 0 <= i < |v| - 2 && v[i] == '{' && v[i + 1] as int == '0' as int + n && v[i + 2] == '}'
    {
      ContainsNamed(v, n);
    }
    if NamesMissingGroup(v, groupCount) {
      var i :| 0 <= i < |v| - 2 && v[i] == '{' && '1' <= v[i + 1] <= '9' && v[i + 2] == '}'
        && groupCount < v[i + 1] as int - '0' as int;
      var n := v[i + 1] as int - '0' as int;
      assert Contains(v, ['{', DigitChar(n), '}']);
    }
  }

  /** The engine's own text in an issue keeps all that is safe to show, in
      order, and nothing else. */
  lemma {:induction false} SanitizedKeepsSafe(a: string, c: char, b: string)
    ensures SanitizeForDisplay(a + [c] + b) ==
      SanitizeForDisplay(a) + (if IsUnsafeForDisplay(c) then "" else [c]) + SanitizeForDisplay(b)
  {
    hide IsUnsafeForDisplay;
    if a == "" {
      assert a + [c] + b == [c] + b && ([c] + b)[1..] == b;
    } else {
      assert (a + [c] + b)[1..] == a[1..] + [c] + b;
      SanitizedKeepsSafe(a[1..], c, b);
    }
  }

  lemma RegexReports(re: RegexEngine, rule: Abbr, n: nat)
    ensures Reports(re, rule, n, 4, RegexKeyIssues(re, rule, n))
  {
    hide RefersToMissingGroup, NamesMissingGroup, MissingGroupIssues, Labelled, SanitizeForDisplay;
    forall v, groupCount ensures RefersToMissingGroup(v, groupCount) <==> NamesMissingGroup(v, groupCount) {
      MissingGroupNamed(v, groupCount);
    }
    if rule.matchKind == Some(Regex) && re.groupCount(rule.key).Success? {
      var values, groupCount := Labelled(rule.expand), re.groupCount(rule.key).value;
      forall issue <- MissingGroupIssues(values, groupCount, n)
        ensures issue.RuleIssue? && issue.ruleIndex == n && RegexFault(re, rule, issue.reason)
      {
        MissingGroupsAre(values, groupCount, n, issue);
        var k :| 0 <= k < |values| && RefersToMissingGroup(values[k].1, groupCount);
        assert Written(rule.expand, values[k].1);
      }
      NoMissingGroupIssues(values, groupCount, n);
    }
  }

  /** The faults of the unit itself. */
  predicate UnitFault(unit: string, reason: Reason) {
    match reason
    case NumberEmpty => unit == ""
    case NumberUnitTooLong => ByteLen(unit) > 32
    case NumberContainsNul => '\0' in unit
    case NumberContainsControlChar => SomeControl(unit)
    case NumberContainsDeceptiveUnicode => SomeDeceptive(unit)
    case _ => false
  }

  lemma UnitCheck(unit: string)
    ensures CheckNumberUnit(unit).Some? ==> UnitFault(unit, CheckNumberUnit(unit).value)
    ensures CheckNumberUnit(unit).None? ==> forall reason :: !UnitFault(unit, reason)
  {
    hide ByteLen, HasControl, HasDeceptive, SomeControl, SomeDeceptive;
    SameControl(unit);
  }

  /** Without a brace there is no placeholder to count or to take out. */
  lemma {:induction false} NoBraceNoNumber(key: string)
    requires '{' !in key
    ensures CountOf(key, "{number}") == 0 && ReplaceAll(key, "{number}", "") == key
  {
    if key != "" {
      assert key[0] in key && "{number}"[0] == '{';
      NoBraceNoNumber(key[1..]);
      assert key == [key[0]] + key[1..];
    }
  }

  lemma PlaceholderCounts(rule: Abbr)
    ensures NumberCount(rule) == (if rule.matchKind != Some(Regex) then CountOf(rule.key, "{number}") else 0)
    ensures HasUnknownPlaceholder(rule) <==>
      rule.matchKind != Some(Regex) && '{' in ReplaceAll(rule.key, "{number}", "")
  {
    hide CountOf, ReplaceAll;
    if '{' !in rule.key {
      NoBraceNoNumber(rule.key);
    }
  }

  lemma NumberFaultIs(re: RegexEngine, rule: Abbr, reason: Reason)
    ensures Fault(re, rule, 5, reason) <==>
      || (reason == KeyHasUnknownPlaceholder && HasUnknownPlaceholder(rule))
      || (reason == KeyHasMultipleNumberPlaceholders && NumberCount(rule) > 1)
      || (reason == KeyHasNumberWithoutUnit && NumberCount(rule) >= 1 && rule.number.None?)
      || (reason == NumberFieldWithoutKeyPlaceholder && rule.number.Some? && NumberCount(rule) == 0)
      || (rule.number.Some? && UnitFault(rule.number.value, reason))
  {
    hide CountOf, ReplaceAll, NumberCount, HasUnknownPlaceholder, ByteLen, SomeControl, SomeDeceptive;
    PlaceholderCounts(rule);
  }

  lemma NumberSound(re: RegexEngine, rule: Abbr, n: nat)
    ensures Sound(re, rule, n, 5, NumberPlaceholderIssues(rule, n))
  {
    hide NumberCount, HasUnknownPlaceholder, CheckNumberUnit, UnitFault, IssueIf, Sound, Fault;
    var unknown := When(HasUnknownPlaceholder(rule), KeyHasUnknownPlaceholder);
    var multiple := When(NumberCount(rule) > 1, KeyHasMultipleNumberPlaceholders);
    var unitless := When(NumberCount(rule) >= 1 && rule.number.None?, KeyHasNumberWithoutUnit);
    var stray := When(rule.number.Some? && NumberCount(rule) == 0, NumberFieldWithoutKeyPlaceholder);
    var unit := if rule.number.Some? then CheckNumberUnit(rule.number.value) else None;
    NumberFaultIs(re, rule, KeyHasUnknownPlaceholder);
    NumberFaultIs(re, rule, KeyHasMultipleNumberPlaceholders);
    NumberFaultIs(re, rule, KeyHasNumberWithoutUnit);
    NumberFaultIs(re, rule, NumberFieldWithoutKeyPlaceholder);
    if unit.Some? {
      UnitCheck(rule.number.value);
      NumberFaultIs(re, rule, unit.value);
    }
    SoundOne(re, rule, n, 5, NumberField, stray);
    SoundOne(re, rule, n, 5, NumberField, unit);
    SoundOne(re, rule, n, 5, KeyField, unknown);
    SoundOne(re, rule, n, 5, KeyField, multiple);
    SoundOne(re, rule, n, 5, KeyField, unitless);
    var a, b, c := IssueIf(n, KeyField, unknown), IssueIf(n, KeyField, multiple), IssueIf(n, KeyField, unitless);
    var d, e := IssueIf(n, NumberField, stray), IssueIf(n, NumberField, unit);
    SoundBoth(re, rule, n, 5, d, e);
    SoundBoth(re, rule, n, 5, c, d + e);
    SoundBoth(re, rule, n, 5, b, c + (d + e));
    SoundBoth(re, rule, n, 5, a, b + (c + (d + e)));
  }

  lemma NoNumberFaults(re: RegexEngine, rule: Abbr, n: nat, reason: Reason)
    requires NumberPlaceholderIssues(rule, n) == []
    ensures !Fault(re, rule, 5, reason)
  {
    hide NumberCount, HasUnknownPlaceholder, CheckNumberUnit, UnitFault, NumberPlaceholderIssues, Fault;
    NoNumberIssues(rule, n);
    NumberFaultIs(re, rule, reason);
    if rule.number.Some? {
      UnitCheck(rule.number.value);
    }
  }

  lemma NumberReports(re: RegexEngine, rule: Abbr, n: nat)
    ensures Reports(re, rule, n, 5, NumberPlaceholderIssues(rule, n))
  {
    hide NumberPlaceholderIssues, Fault, Sound;
    NumberSound(re, rule, n);
    if NumberPlaceholderIssues(rule, n) == [] {
      forall reason ensures !Fault(re, rule, 5, reason) {
        NoNumberFaults(re, rule, n, reason);
      }
    }
  }

  // ----- a rule, and the configuration -----

  /** A rule is valid exactly when nothing is wrong with it. */
  lemma ValidWithoutFaults(re: RegexEngine, rule: Abbr)
    ensures ValidRule(re, rule) <==> forall group: nat, reason :: !Fault(re, rule, group, reason)
  {
    hide ValidRule, Fault, CheckAbbrKey, ExpandIssues, ConditionIssues, GlobKeyIssues, RegexKeyIssues;
    hide NumberPlaceholderIssues, IssueIf;
    NoRuleIssues(re, rule, 1);
    KeyReports(re, rule, 1);
    ExpandReports(re, rule, 1);
    CommandReports(re, rule, 1);
    GlobReports(re, rule, 1);
    RegexReports(re, rule, 1);
    NumberReports(re, rule, 1);
    if RuleIssues(re, rule, 1) != [] {
      var group := FirstGroup(re, rule, 1);
    }
    forall group: nat, reason: Reason | group > 5 ensures !Fault(re, rule, group, reason) {
      NoSuchGroup(re, rule, group);
    }
  }

  lemma NoSuchGroup(re: RegexEngine, rule: Abbr, group: nat)
    requires group > 5
    ensures forall reason :: !Fault(re, rule, group, reason)
  {
  }

  /** The first issue of a rule is a fault of it, and no fault of an earlier
      group is there. */
  lemma FirstGroup(re: RegexEngine, rule: Abbr, n: nat) returns (group: nat)
    requires RuleIssues(re, rule, n) != []
    ensures var issue := RuleIssues(re, rule, n)[0];
      && issue.RuleIssue? && issue.ruleIndex == n && Fault(re, rule, group, issue.reason)
      && NothingBefore(re, rule, group)
  {
    hide Fault, CheckAbbrKey, ExpandIssues, ConditionIssues, GlobKeyIssues, RegexKeyIssues, NumberPlaceholderIssues;
    hide IssueIf;
    KeyReports(re, rule, n);
    ExpandReports(re, rule, n);
    CommandReports(re, rule, n);
    GlobReports(re, rule, n);
    RegexReports(re, rule, n);
    NumberReports(re, rule, n);
    group :=
      if IssueIf(n, KeyField, CheckAbbrKey(rule.key)) != [] then 0
      else if ExpandIssues(Labelled(rule.expand), n) != [] then 1
      else if ConditionIssues(rule, n) != [] then 2
      else if GlobKeyIssues(rule, n) != [] then 3
      else if RegexKeyIssues(re, rule, n) != [] then 4
      else 5;
  }

  lemma {:induction false} FirstIssueFrom(re: RegexEngine, rules: Config, from: nat) returns (i: nat)
    requires from <= |rules| && IssuesFrom(re, rules, from) != []
    ensures from <= i < |rules| && forall k :: from <= k < i ==> ValidRule(re, rules[k])
    ensures RuleIssues(re, rules[i], i + 1) != []
    ensures IssuesFrom(re, rules, from)[0] == RuleIssues(re, rules[i], i + 1)[0]
    decreases |rules| - from
  {
    hide ValidRule, RuleIssues;
    if RuleIssues(re, rules[from], from + 1) != [] {
      i := from;
    } else {
      NoRuleIssues(re, rules[from], from + 1);
      i := FirstIssueFrom(re, rules, from + 1);
    }
  }

  /** The error of a failed load names the first rule that is not valid,
      counted from one, and something that is wrong with it, of the first group
      in which anything is; or it says that there are too many rules. */
  lemma LoadErrorNamesTheFault(re: RegexEngine, rules: Config) returns (group: nat)
    requires AllIssues(re, rules) != []
    ensures var error := ToConfigError(AllIssues(re, rules)[0]);
      if |rules| > 10_000 then error == ConfigError(TooManyRules, 0)
      else
        && 1 <= error.ruleIndex <= |rules|
        && !ValidRule(re, rules[error.ruleIndex - 1])
        && (forall k :: 0 <= k < error.ruleIndex - 1 ==> ValidRule(re, rules[k]))
        && Fault(re, rules[error.ruleIndex - 1], group, error.reason)
        && NothingBefore(re, rules[error.ruleIndex - 1], group)
  {
    hide ValidRule, RuleIssues, IssuesFrom, Fault;
    if |rules| <= 10_000 {
      var i := FirstIssueFrom(re, rules, 0);
      group := FirstGroup(re, rules[i], i + 1);
      ValidWithoutFaults(re, rules[i]);
    } else {
      group := 0;
    }
  }

  // ----- each issue names its field -----

  /** An entry of the expand table is reported under its own label, for its
      first fault, and nothing else is reported under that label. */
  lemma {:induction false} ExpandIssueAt(
    values: seq<(Option<Label>, string)>, n: nat, tag: Option<Label>, reason: Reason)
    ensures RuleIssue(n, ExpandField(tag), reason) in ExpandIssues(values, n) <==>
      exists k :: 0 <= k < |values| && values[k].0 == tag && CheckExpandValue(values[k].1) == Some(reason)
  {
    hide CheckExpandValue;
    if values != [] {
      var rest := values[1..];
      ExpandIssueAt(rest, n, tag, reason);
      assert forall k :: 0 <= k < |rest| ==> rest[k] == values[k + 1];
      assert values[0].0 == tag && CheckExpandValue(values[0].1) == Some(reason) ==>
        RuleIssue(n, ExpandField(tag), reason) in ExpandIssues(values, n);
      if exists k :: 0 <= k < |rest| && rest[k].0 == tag && CheckExpandValue(rest[k].1) == Some(reason) {
        var k :| 0 <= k < |rest| && rest[k].0 == tag && CheckExpandValue(rest[k].1) == Some(reason);
        assert values[k + 1].0 == tag;
      }
      if k: nat :| k < |values| && values[k].0 == tag && CheckExpandValue(values[k].1) == Some(reason) {
        if k > 0 {
          assert rest[k - 1].0 == tag;
        }
      }
    }
  }

  lemma OneIssueAt(
    n: nat, tag: Option<Label>, here: nat, found: Option<Reason>, own: Option<Label>, place: nat, reason: Reason)
    ensures RuleIssue(n, CommandEntry(own, place), reason) in IssueIf(n, CommandEntry(tag, here), found) <==>
      own == tag && place == here && found == Some(reason)
  {
  }

  /** A command is reported at its place in its list, counted from one. */
  lemma {:induction false} EntryIssueAt(
    tag: Option<Label>, list: seq<string>, from: nat, n: nat, own: Option<Label>, place: nat, reason: Reason)
    requires from <= |list|
    ensures RuleIssue(n, CommandEntry(own, place), reason) in EntryIssues(tag, list, from, n) <==>
      own == tag && from < place <= |list| && CheckCmdEntry(list[place - 1]) == Some(reason)
    decreases |list| - from
  {
    hide CheckCmdEntry, IssueIf;
    if from < |list| {
      OneIssueAt(n, tag, from + 1, CheckCmdEntry(list[from]), own, place, reason);
      EntryIssueAt(tag, list, from + 1, n, own, place, reason);
    }
  }

  /** And a list of commands under its own label, either as too long or command
      by command. */
  lemma {:induction false} CommandIssueAt(
    lists: seq<(Option<Label>, seq<string>)>, n: nat, tag: Option<Label>, place: nat, reason: Reason)
    ensures RuleIssue(n, CommandEntry(tag, place), reason) in CommandIssues(lists, n) <==>
      exists k :: 0 <= k < |lists| && CommandAt(lists[k], tag, place, reason)
    ensures RuleIssue(n, CommandsField(tag), reason) in CommandIssues(lists, n) <==>
      exists k :: 0 <= k < |lists| && lists[k].0 == tag && |lists[k].1| > 64 && reason == TooManyCmds
  {
    hide CommandAt, CommandListIssues;
    if lists != [] {
      var rest := lists[1..];
      CommandIssueAt(rest, n, tag, place, reason);
      ListIssueAt(lists[0].0, lists[0].1, n, tag, place, reason);
      assert forall k :: 0 <= k < |rest| ==> rest[k] == lists[k + 1];
      assert forall k :: 1 <= k < |lists| ==> lists[k] == rest[k - 1];
      assert lists[0] == (lists[0].0, lists[0].1);
    }
  }

  predicate CommandAt(labelled: (Option<Label>, seq<string>), tag: Option<Label>, place: nat, reason: Reason) {
    && labelled.0 == tag && |labelled.1| <= 64
    && 1 <= place <= |labelled.1| && CheckCmdEntry(labelled.1[place - 1]) == Some(reason)
  }

  lemma ListIssueAt(
    own: Option<Label>, list: seq<string>, n: nat, tag: Option<Label>, place: nat, reason: Reason)
    ensures RuleIssue(n, CommandEntry(tag, place), reason) in CommandListIssues(own, list, n) <==>
      CommandAt((own, list), tag, place, reason)
    ensures RuleIssue(n, CommandsField(tag), reason) in CommandListIssues(own, list, n) <==>
      own == tag && |list| > 64 && reason == TooManyCmds
  {
    hide CheckCmdEntry, EntryIssues;
    if |list| <= 64 {
      EntryIssueAt(own, list, 0, n, tag, place, reason);
      NoListIssueInside(own, list, 0, n, tag, reason);
    }
  }

  lemma {:induction false} NoListIssueInside(
    own: Option<Label>, list: seq<string>, from: nat, n: nat, tag: Option<Label>, reason: Reason)
    requires from <= |list|
    ensures RuleIssue(n, CommandsField(tag), reason) !in EntryIssues(own, list, from, n)
    decreases |list| - from
  {
    hide CheckCmdEntry;
    if from < |list| {
      NoListIssueInside(own, list, from + 1, n, tag, reason);
    }
  }
}
