/** The configuration that the baked tables stand for: no regex rules, and no
    characters that quoting drops. */
module BakedRules {
  import opened Wrappers
  import opened Text
  import opened Model
  import opened Sanitize
  import opened Matching
  import opened Expand
  import opened Validation
  import opened ValidRules
  import opened BashText
  import opened BakeTables

  /** The same change made to the value for every shell. */
  function MapEach<T>(values: PerShell<T>, f: T -> T): PerShell<T> {
    match values
    case All(v) => All(f(v))
    case ByShell(fallback, bash, zsh, pwsh, nu) =>
      ByShell(MapOption(fallback, f), MapOption(bash, f), MapOption(zsh, f), MapOption(pwsh, f), MapOption(nu, f))
  }

  function MapOption<T>(value: Option<T>, f: T -> T): Option<T> {
    if value.Some? then Some(f(value.value)) else None
  }

  /** The rule without the characters that quoting drops. */
  function KeptRule(rule: Abbr): Abbr {
    Abbr(
      Kept(rule.key), MapEach(rule.expand, Kept),
      if rule.whenCommandExists.Some? then Some(MapEach(rule.whenCommandExists.value, KeptAll)) else None,
      MapOption(rule.number, Kept), rule.matchKind)
  }

  function BakedConfig(rules: Config): Config {
    if rules == [] then []
    else (if rules[0].matchKind == Some(Regex) then [] else [KeptRule(rules[0])]) + BakedConfig(rules[1..])
  }

  // ----- dropping characters and the shape of a text -----

  function KeptChar(c: char): string {
    if IsUnsafeForDisplay(c) then "" else [c]
  }

  lemma KeptEmpty()
    ensures Kept("") == ""
  {
  }

  lemma KeptCons(c: char, rest: string)
    ensures Kept([c] + rest) == KeptChar(c) + Kept(rest)
  {
    hide IsUnsafeForDisplay;
    assert ([c] + rest)[1..] == rest;
  }

  lemma {:induction false} KeptConcat(a: string, b: string)
    ensures Kept(a + b) == Kept(a) + Kept(b)
  {
    hide Kept;
    if a == "" {
      KeptEmpty();
      assert a + b == b && "" + Kept(b) == Kept(b);
    } else {
      var rest := a[1..];
      assert a == [a[0]] + rest && a + b == [a[0]] + (rest + b);
      KeptCons(a[0], rest + b);
      KeptCons(a[0], rest);
      KeptConcat(rest, b);
      var first := KeptChar(a[0]);
      assert first + (Kept(rest) + Kept(b)) == (first + Kept(rest)) + Kept(b);
    }
  }

  lemma {:induction false} KeptHas(s: string, c: char)
    ensures c in Kept(s) <==> c in s && !IsUnsafeForDisplay(c)
  {
    hide IsUnsafeForDisplay;
    if s != "" {
      KeptHas(s[1..], c);
    }
  }

  lemma {:induction false} KeptBytes(s: string)
    ensures ByteLen(Kept(s)) <= ByteLen(s)
  {
    hide IsUnsafeForDisplay;
    if s != "" {
      KeptBytes(s[1..]);
      if IsUnsafeForDisplay(s[0]) {
        assert Kept(s) == Kept(s[1..]);
      } else {
        assert Kept(s)[1..] == Kept(s[1..]);
      }
    }
  }

  lemma PrintableIsSafe(c: char)
    requires ' ' <= c <= '~'
    ensures !IsUnsafeForDisplay(c)
  {
  }

  lemma {:induction false} PrintableIsKept(s: string)
    requires forall i :: 0 <= i < |s| ==> ' ' <= s[i] <= '~'
    ensures Kept(s) == s
  {
    hide IsUnsafeForDisplay, Kept;
    forall i | 0 <= i < |s| ensures !IsUnsafeForDisplay(s[i]) {
      PrintableIsSafe(s[i]);
    }
    KeptIsAll(s);
  }

  lemma KeptPlaceholder()
    ensures Kept(NUMBER_PLACEHOLDER) == NUMBER_PLACEHOLDER
    ensures Kept(":") == ":" && Kept("*") == "*"
  {
    hide Kept;
    PrintableIsKept(NUMBER_PLACEHOLDER);
    PrintableIsKept(":");
    PrintableIsKept("*");
  }

  lemma BracesAreKept()
    ensures !IsUnsafeForDisplay('{') && !IsUnsafeForDisplay('*') && !IsUnsafeForDisplay(':')
  {
  }

  /** A text that is not blank, without control or deceptive characters, does
      not become empty: the line separators it loses are white space. */
  lemma {:induction false} KeptNotEmpty(s: string)
    requires !IsBlank(s) && !HasControl(s) && !HasDeceptive(s)
    ensures Kept(s) != ""
  {
    var c :| c in s && !IsWhitespace(c);
    assert !IsAsciiControl(c) && !IsDeceptiveUnicode(c);
    assert !IsUnicodeLineSeparator(c);
    KeptHas(s, c);
  }

  lemma {:induction false} KeptJoin(names: seq<string>)
    ensures Kept(Join(names, ":")) == Join(KeptAll(names), ":")
  {
    hide Kept;
    if |names| == 1 {
      assert KeptAll(names) == [Kept(names[0])];
    } else if |names| > 1 {
      var first, rest := names[0], names[1..];
      KeptJoin(rest);
      KeptPlaceholder();
      KeptConcat(first + ":", Join(rest, ":"));
      KeptConcat(first, ":");
      JoinCons(Kept(first), KeptAll(rest), ":");
    } else {
      KeptIsAll("");
    }
  }

  lemma KeptForShell(rule: Abbr)
    ensures KeptRule(rule).expand.ForShell(Bash) == MapOption(rule.expand.ForShell(Bash), Kept)
    ensures Conditions(KeptRule(rule), Bash) == MapOption(Conditions(rule, Bash), KeptAll)
  {
    hide Kept, KeptAll;
    assert KeptAll([]) == [] by {
      assert |KeptAll([])| == 0;
    }
  }

  lemma KeptConditions(rule: Abbr)
    ensures BashConditions(KeptRule(rule)) == MapOption(BashConditions(rule), Kept)
  {
    hide Kept, KeptAll, Join, KeptRule, Conditions;
    KeptForShell(rule);
    if Conditions(rule, Bash).Some? {
      KeptJoin(Conditions(rule, Bash).value);
    }
  }

  /** The first `{number}` of a key with no other brace stays where it was. */
  lemma KeptNumberKey(prefix: string, suffix: string)
    requires '{' !in prefix && '{' !in suffix
    ensures Kept(prefix + NUMBER_PLACEHOLDER + suffix) == Kept(prefix) + NUMBER_PLACEHOLDER + Kept(suffix)
    ensures '{' !in Kept(prefix) && '{' !in Kept(suffix)
  {
    hide Kept;
    KeptPlaceholder();
    KeptConcat(prefix + NUMBER_PLACEHOLDER, suffix);
    KeptConcat(prefix, NUMBER_PLACEHOLDER);
    KeptHas(prefix, '{');
    KeptHas(suffix, '{');
  }

  lemma KeptHeadAndTail(key: string)
    ensures HeadAndTail(Kept(key)) == (Kept(HeadAndTail(key).0), Kept(HeadAndTail(key).1))
    ensures SplitOnce(Kept(key), '*').Some? == SplitOnce(key, '*').Some?
  {
    hide Kept, IsUnsafeForDisplay;
    BracesAreKept();
    KeptHas(key, '*');
    SplitOnceAtFirst(key, '*');
    SplitOnceAtFirst(Kept(key), '*');
    match SplitOnce(key, '*')
    case None => KeptIsAll("");
    case Some((head, tail)) =>
      KeptPlaceholder();
      KeptConcat(head + ['*'], tail);
      KeptConcat(head, ['*']);
      KeptHas(head, '*');
      CutAtSeparator(Kept(head), Kept(tail), '*');
      assert Kept(key) == Kept(head) + ['*'] + Kept(tail);
  }

  // ----- what the equivalence needs of a rule -----

  /** The facts about a valid rule that bash relies on. */
  predicate Bakeable(rule: Abbr) {
    && (rule.expand.ForShell(Bash).Some? ==> ByteLen(rule.expand.ForShell(Bash).value) <= MAX_EXPAND_BYTES)
    && (Conditions(rule, Bash).Some? ==>
          forall c <- Conditions(rule, Bash).value :: c != "" && ':' !in c)
    && (PhaseOf(rule).NumberPhase? ==> rule.number.Some? && IsNumberKey(rule.key))
    && (PhaseOf(rule).ExactPhase? ==> rule.number.None?)
    && (PhaseOf(rule).GlobPhase? ==> AtMostOneStar(rule.key))
  }

  /** Prefix, `{number}` and suffix, with no other brace. */
  predicate IsNumberKey(key: string) {
    SplitOnceNumberPlaceholder(key).Some?
  }

  lemma {:induction false} KeptNames(list: seq<string>)
    requires forall c <- list :: CheckCmdEntry(c).None?
    ensures forall c <- KeptAll(list) :: c != "" && ':' !in c
  {
    hide Kept, IsBlank, HasControl, HasDeceptive;
    if list != [] {
      var first := list[0];
      assert first in list && forall c <- list[1..] :: c in list;
      KeptNames(list[1..]);
      KeptNotEmpty(first);
      KeptHas(first, ':');
      assert IsPathSeparator(':');
    }
  }

  lemma ValidNames(re: RegexEngine, rule: Abbr)
    requires ValidRule(re, rule) && Conditions(rule, Bash).Some?
    ensures forall c <- Conditions(rule, Bash).value :: CheckCmdEntry(c).None?
  {
    hide ValidRule, CheckCmdEntry;
    if rule.whenCommandExists.Some? {
      ValidConditions(re, rule, Bash);
    }
  }

  lemma {:induction false} KeptOneStar(key: string)
    requires AtMostOneStar(key)
    ensures AtMostOneStar(Kept(key))
  {
    hide Kept, HeadAndTail, AtMostOneStar;
    StarParts(key);
    KeptHeadAndTail(key);
    match SplitOnce(key, '*')
    case None =>
      KeptHas(key, '*');
      NoStar(Kept(key));
    case Some((head, tail)) =>
      KeptHas(head, '*');
      KeptHas(tail, '*');
      KeptPlaceholder();
      KeptConcat(head + ['*'], tail);
      KeptConcat(head, ['*']);
      OneStar(Kept(head), Kept(tail));
  }

  lemma NoStar(key: string)
    requires '*' !in key
    ensures AtMostOneStar(key)
  {
    assert forall i :: 0 <= i < |key| ==> key[i] in key;
  }

  lemma OneStar(head: string, tail: string)
    requires '*' !in head && '*' !in tail
    ensures AtMostOneStar(head + ['*'] + tail)
  {
    var key := head + ['*'] + tail;
    forall i | 0 <= i < |head| ensures key[i] != '*' {
      assert key[i] in head;
    }
    forall i | |head| < i < |key| ensures key[i] != '*' {
      assert key[i] == tail[i - |head| - 1] && key[i] in tail;
    }
  }

  /** Dropping characters keeps every rule in its phase. */
  lemma {:induction false} KeptPhase(rule: Abbr)
    ensures PhaseOf(KeptRule(rule)) == PhaseOf(rule)
  {
    hide Kept, IsUnsafeForDisplay;
    BracesAreKept();
    KeptHas(rule.key, '{');
  }

  lemma KeptNumberRule(re: RegexEngine, rule: Abbr)
    requires ValidRule(re, rule) && PhaseOf(rule).NumberPhase?
    ensures rule.number.Some? && IsNumberKey(rule.key) && IsNumberKey(Kept(rule.key))
    ensures var (prefix, suffix) := SplitOnceNumberPlaceholder(rule.key).value;
      && SplitOnceNumberPlaceholder(Kept(rule.key)) == Some((Kept(prefix), Kept(suffix)))
      && Find(rule.key, NUMBER_PLACEHOLDER) == Some(|prefix|)
      && Find(Kept(rule.key), NUMBER_PLACEHOLDER) == Some(|Kept(prefix)|)
  {
    hide ValidRule, Kept, Find;
    ValidNumberRule(re, rule);
    var (prefix, suffix) := SplitOnceNumberPlaceholder(rule.key).value;
    KeptNumberKey(prefix, suffix);
    SplitsAtNumberPlaceholder(Kept(prefix), Kept(suffix));
  }

  lemma KeptTemplateFits(re: RegexEngine, rule: Abbr)
    requires ValidRule(re, rule) && rule.expand.ForShell(Bash).Some?
    ensures ByteLen(Kept(rule.expand.ForShell(Bash).value)) <= MAX_EXPAND_BYTES
  {
    hide ValidRule, Kept, ByteLen;
    ValidTemplate(re, rule, Bash);
    KeptBytes(rule.expand.ForShell(Bash).value);
  }

  lemma KeptConditionsAreNames(re: RegexEngine, rule: Abbr)
    requires ValidRule(re, rule) && Conditions(rule, Bash).Some?
    ensures forall c <- KeptAll(Conditions(rule, Bash).value) :: c != "" && ':' !in c
  {
    hide ValidRule, CheckCmdEntry, Conditions, KeptAll;
    ValidNames(re, rule);
    KeptNames(Conditions(rule, Bash).value);
  }

  lemma KeptUnit(re: RegexEngine, rule: Abbr)
    requires ValidRule(re, rule) && rule.matchKind != Some(Regex)
    ensures PhaseOf(rule).NumberPhase? ==> rule.number.Some? && IsNumberKey(Kept(rule.key))
    ensures !PhaseOf(rule).NumberPhase? ==> rule.number.None?
    ensures PhaseOf(rule).GlobPhase? ==> AtMostOneStar(Kept(rule.key))
  {
    hide ValidRule, Kept, AtMostOneStar, IsNumberKey;
    if PhaseOf(rule).NumberPhase? {
      KeptNumberRule(re, rule);
    } else {
      ValidPlainRule(re, rule);
    }
    if PhaseOf(rule).GlobPhase? {
      ValidGlobHasOneStar(re, rule);
      KeptOneStar(rule.key);
    }
  }

  lemma ValidGlobHasOneStar(re: RegexEngine, rule: Abbr)
    requires ValidRule(re, rule) && PhaseOf(rule).GlobPhase?
    ensures AtMostOneStar(rule.key)
  {
    hide CheckAbbrKey, ValidExpand, ValidCommands, ValidNumberUse, AtMostOneStar;
  }

  lemma KeptRuleIsBakeable(re: RegexEngine, rule: Abbr)
    requires ValidRule(re, rule) && rule.matchKind != Some(Regex)
    ensures Bakeable(KeptRule(rule))
  {
    hide ValidRule, Kept, KeptAll, KeptRule, ByteLen, PhaseOf, Conditions, IsNumberKey, AtMostOneStar;
    KeptForShell(rule);
    KeptFieldsOf(rule);
    KeptPhase(rule);
    KeptUnit(re, rule);
    if rule.expand.ForShell(Bash).Some? {
      KeptTemplateFits(re, rule);
    }
    if Conditions(rule, Bash).Some? {
      KeptConditionsAreNames(re, rule);
    }
  }

  // ----- the rows of the kept rules -----

  lemma KeptAllFive(a: string, b: string, c: string, d: string, e: string)
    ensures KeptAll([a, b, c, d, e]) == [Kept(a), Kept(b), Kept(c), Kept(d), Kept(e)]
  {
    hide Kept;
    KeptAllThree(c, d, e);
    assert [a, b, c, d, e][1..] == [b, c, d, e] && [b, c, d, e][1..] == [c, d, e];
  }

  lemma KeptAllThree(a: string, b: string, c: string)
    ensures KeptAll([a, b, c]) == [Kept(a), Kept(b), Kept(c)]
  {
    hide Kept;
    assert [a, b, c][1..] == [b, c] && [b, c][1..] == [c];
    assert KeptAll([c]) == [Kept(c)];
  }

  /** Baking a rule and then losing characters is baking the kept rule. */
  lemma {:induction false} KeptRow(re: RegexEngine, t: Table, rule: Abbr)
    requires ValidRule(re, rule)
    ensures Row(t, KeptRule(rule)) == MapOption(Row(t, rule), KeptAll)
  {
    hide Row, ValidRule, MapOption, KeptRule;
    match t
    case ExactTable => KeptExactRow(rule);
    case PatternTable => KeptPatternRow(re, rule);
    case GlobTable => KeptGlobRow(rule);
  }

  lemma KeptExactRow(rule: Abbr)
    ensures Row(ExactTable, KeptRule(rule)) == MapOption(Row(ExactTable, rule), KeptAll)
  {
    hide Kept, KeptAll, Find, MapEach, BashConditions, HeadAndTail;
    KeptForShell(rule);
    KeptConditions(rule);
    KeptPhase(rule);
    var template, conds := rule.expand.ForShell(Bash), BashConditions(rule);
    if template.Some? && conds.Some? {
      KeptAllThree(rule.key, template.value, conds.value);
    }
  }

  lemma KeptGlobRow(rule: Abbr)
    ensures Row(GlobTable, KeptRule(rule)) == MapOption(Row(GlobTable, rule), KeptAll)
  {
    hide Kept, KeptAll, Find, MapEach, BashConditions, HeadAndTail;
    KeptForShell(rule);
    KeptConditions(rule);
    var template, conds := rule.expand.ForShell(Bash), BashConditions(rule);
    if template.Some? && conds.Some? {
      KeptHeadAndTail(rule.key);
      KeptAllFive(rule.key, HeadAndTail(rule.key).0, HeadAndTail(rule.key).1, template.value, conds.value);
    }
  }

  /** The row of a rule of the number phase. */
  lemma PatternRow(rule: Abbr)
    requires PhaseOf(rule).NumberPhase? && IsNumberKey(rule.key) && rule.number.Some?
    ensures var (prefix, suffix) := SplitOnceNumberPlaceholder(rule.key).value;
      var template, conds := rule.expand.ForShell(Bash), BashConditions(rule);
      Row(PatternTable, rule) ==
        if template.None? || conds.None? then None
        else Some([prefix, suffix, template.value, rule.number.value, conds.value])
  {
    hide BashConditions, Find;
  }

  lemma NoUnitNoRow(rule: Abbr)
    requires rule.number.None?
    ensures Row(PatternTable, rule).None?
  {
  }

  /** The row of a valid rule of the number phase and that of its kept form. */
  lemma KeptNumberRow(re: RegexEngine, rule: Abbr)
    requires ValidRule(re, rule) && PhaseOf(rule).NumberPhase?
    ensures Row(PatternTable, KeptRule(rule)) == MapOption(Row(PatternTable, rule), KeptAll)
  {
    hide ValidRule, Kept, KeptAll, Find, BashConditions, Row, SplitOnceNumberPlaceholder, PhaseOf, KeptRule;
    KeptForShell(rule);
    KeptConditions(rule);
    KeptPhase(rule);
    KeptFieldsOf(rule);
    KeptNumberRule(re, rule);
    PatternRow(rule);
    PatternRow(KeptRule(rule));
    var template, conds := rule.expand.ForShell(Bash), BashConditions(rule);
    if template.Some? && conds.Some? {
      var (prefix, suffix) := SplitOnceNumberPlaceholder(rule.key).value;
      KeptAllFive(prefix, suffix, template.value, rule.number.value, conds.value);
    }
  }

  lemma KeptPatternRow(re: RegexEngine, rule: Abbr)
    requires ValidRule(re, rule)
    ensures Row(PatternTable, KeptRule(rule)) == MapOption(Row(PatternTable, rule), KeptAll)
  {
    hide ValidRule, Row, PhaseOf, Kept;
    if PhaseOf(rule).NumberPhase? {
      KeptNumberRow(re, rule);
    } else {
      ValidPlainRule(re, rule);
      NoUnitNoRow(rule);
      NoUnitNoRow(KeptRule(rule));
    }
  }

  lemma RegexHasNoRow(t: Table, rule: Abbr)
    requires rule.matchKind == Some(Regex)
    ensures Row(t, rule).None?
  {
  }

  lemma RowsCons(t: Table, first: Abbr, rest: Config)
    ensures Rows(t, [first] + rest) == (if Row(t, first).Some? then [Row(t, first).value] else []) + Rows(t, rest)
  {
    hide Row;
    assert ([first] + rest)[1..] == rest;
  }

  lemma KeptEachCons(row: seq<string>, later: seq<seq<string>>)
    ensures KeptEach([row] + later) == [KeptAll(row)] + KeptEach(later)
  {
    assert ([row] + later)[1..] == later;
  }

  /** What the tables of a valid configuration hold is what the tables of its
      baked form hold. */
  lemma {:induction false} KeptRows(re: RegexEngine, t: Table, rules: Config)
    requires forall i :: 0 <= i < |rules| ==> ValidRule(re, rules[i])
    ensures KeptEach(Rows(t, rules)) == Rows(t, BakedConfig(rules))
  {
    hide ValidRule, KeptAll, KeptRule, Row;
    if rules != [] {
      hide Rows, KeptEach;
      var first, rest := rules[0], rules[1..];
      assert rules == [first] + rest && forall i :: 0 <= i < |rest| ==> rest[i] == rules[i + 1];
      KeptRows(re, t, rest);
      KeptRow(re, t, first);
      RowsCons(t, first, rest);
      if first.matchKind == Some(Regex) {
        RegexHasNoRow(t, first);
        assert [] + Rows(t, rest) == Rows(t, rest) && BakedConfig(rules) == BakedConfig(rest);
      } else {
        RowsCons(t, KeptRule(first), BakedConfig(rest));
        match Row(t, first)
        case None =>
          assert [] + Rows(t, rest) == Rows(t, rest) && [] + KeptEach(Rows(t, rest)) == KeptEach(Rows(t, rest));
        case Some(row) => KeptEachCons(row, Rows(t, rest));
      }
    }
  }

  function KeptEach(rows: seq<seq<string>>): seq<seq<string>> {
    if rows == [] then [] else [KeptAll(rows[0])] + KeptEach(rows[1..])
  }

  lemma {:induction false} BakedConfigIsBakeable(re: RegexEngine, rules: Config)
    requires forall i :: 0 <= i < |rules| ==> ValidRule(re, rules[i])
    ensures forall rule <- BakedConfig(rules) :: Bakeable(rule) && rule.matchKind != Some(Regex)
  {
    hide ValidRule, Bakeable;
    if rules != [] {
      var first, rest := rules[0], rules[1..];
      assert forall i :: 0 <= i < |rest| ==> rest[i] == rules[i + 1];
      BakedConfigIsBakeable(re, rest);
      if first.matchKind != Some(Regex) {
        KeptRuleIsBakeable(re, first);
      }
    }
  }

  // ----- when nothing is dropped -----

  predicate HasLineSeparator(s: string) {
    exists c <- s :: c as int == 0x85 || c as int == 0x2028 || c as int == 0x2029
  }

  /** No line separator in any field that is quoted into a table: the key, the
      unit, and what bash reads of the template and the commands. */
  predicate NoLineSeparator(rule: Abbr) {
    && !HasLineSeparator(rule.key)
    && (rule.expand.ForShell(Bash).Some? ==> !HasLineSeparator(rule.expand.ForShell(Bash).value))
    && (Conditions(rule, Bash).Some? ==> forall c <- Conditions(rule, Bash).value :: !HasLineSeparator(c))
    && (rule.number.Some? ==> !HasLineSeparator(rule.number.value))
  }

  /** Two rules that bash cannot tell apart. */
  predicate SameOnBash(a: Abbr, b: Abbr) {
    && a.key == b.key && a.matchKind == b.matchKind && a.number == b.number
    && a.expand.ForShell(Bash) == b.expand.ForShell(Bash)
    && Conditions(a, Bash) == Conditions(b, Bash)
  }

  predicate SameConfigOnBash(a: Config, b: Config) {
    if a == [] || b == [] then a == b else SameOnBash(a[0], b[0]) && SameConfigOnBash(a[1..], b[1..])
  }

  lemma {:induction false} SameConfigAt(a: Config, b: Config, i: nat)
    requires SameConfigOnBash(a, b)
    ensures |a| == |b| && (i < |a| ==> SameOnBash(a[i], b[i]))
    decreases |a|
  {
    hide SameOnBash;
    if a != [] {
      SameConfigAt(a[1..], b[1..], if i > 0 then i - 1 else 0);
    }
  }

  /** Validation leaves line separators as the only characters to drop. */
  lemma {:induction false} CleanTextKept(s: string)
    requires !HasControl(s) && !HasDeceptive(s)
    ensures Kept(s) == s <==> !HasLineSeparator(s)
  {
    hide Kept, IsAsciiControl, IsDeceptiveUnicode;
    KeptIsAll(s);
  }

  lemma CleanCommand(c: string)
    requires CheckCmdEntry(c).None?
    ensures Kept(c) == c <==> !HasLineSeparator(c)
  {
    hide Kept, HasLineSeparator, IsBlank, ByteLen, HasControl, HasDeceptive, IsPathSeparator;
    CleanTextKept(c);
  }

  lemma KeptAllCons(first: string, rest: seq<string>)
    ensures KeptAll([first] + rest) == [first] + rest <==> Kept(first) == first && KeptAll(rest) == rest
  {
    hide Kept;
    var all := [first] + rest;
    assert all[1..] == rest && KeptAll(all)[0] == Kept(first) && KeptAll(all)[1..] == KeptAll(rest);
  }

  lemma NoSeparatorCons(first: string, rest: seq<string>)
    ensures (forall c <- [first] + rest :: !HasLineSeparator(c)) <==>
      !HasLineSeparator(first) && forall c <- rest :: !HasLineSeparator(c)
  {
    hide HasLineSeparator;
    assert first in [first] + rest;
    assert forall c <- rest :: c in [first] + rest;
  }

  lemma {:induction false} KeptCommandsAreSame(list: seq<string>)
    requires forall i :: 0 <= i < |list| ==> CheckCmdEntry(list[i]).None?
    ensures KeptAll(list) == list <==> forall c <- list :: !HasLineSeparator(c)
  {
    hide Kept, HasLineSeparator, CheckCmdEntry;
    if list != [] {
      hide KeptAll;
      var first, rest := list[0], list[1..];
      assert list == [first] + rest && forall i :: 0 <= i < |rest| ==> rest[i] == list[i + 1];
      KeptCommandsAreSame(rest);
      CleanCommand(first);
      KeptAllCons(first, rest);
      NoSeparatorCons(first, rest);
    }
  }

  /** Bash cannot tell a valid rule from its baked form exactly when it has no
      line separator. */
  lemma KeptRuleIsSame(re: RegexEngine, rule: Abbr)
    requires ValidRule(re, rule)
    ensures SameOnBash(KeptRule(rule), rule) <==> NoLineSeparator(rule)
  {
    hide Kept, KeptAll, HasLineSeparator, MapEach, ValidExpand, ValidCommands, Conditions, KeptRule, CheckCmdEntry;
    KeptForShell(rule);
    KeptFieldsOf(rule);
    CleanTextKept(rule.key);
    if rule.expand.ForShell(Bash).Some? {
      ValidTemplate(re, rule, Bash);
      CleanTextKept(rule.expand.ForShell(Bash).value);
    }
    if Conditions(rule, Bash).Some? {
      ValidNames(re, rule);
      KeptCommandsAreSame(Conditions(rule, Bash).value);
    }
    if rule.number.Some? {
      CleanTextKept(rule.number.value);
    }
  }

  lemma KeptFieldsOf(rule: Abbr)
    ensures var kept := KeptRule(rule);
      kept.key == Kept(rule.key) && kept.matchKind == rule.matchKind && kept.number == MapOption(rule.number, Kept)
  {
  }

  function WithoutRegex(rules: Config): Config {
    if rules == [] then []
    else (if rules[0].matchKind == Some(Regex) then [] else [rules[0]]) + WithoutRegex(rules[1..])
  }

  lemma SameConfigCons(a: Abbr, b: Abbr, aRest: Config, bRest: Config)
    ensures SameConfigOnBash([a] + aRest, [b] + bRest) <==> SameOnBash(a, b) && SameConfigOnBash(aRest, bRest)
  {
    hide SameOnBash;
    assert ([a] + aRest)[1..] == aRest && ([b] + bRest)[1..] == bRest;
  }

  lemma BakedConfigStep(rules: Config)
    requires rules != []
    ensures rules[0].matchKind == Some(Regex) ==>
      BakedConfig(rules) == BakedConfig(rules[1..]) && WithoutRegex(rules) == WithoutRegex(rules[1..])
    ensures rules[0].matchKind != Some(Regex) ==>
      && BakedConfig(rules) == [KeptRule(rules[0])] + BakedConfig(rules[1..])
      && WithoutRegex(rules) == [rules[0]] + WithoutRegex(rules[1..])
  {
    hide KeptRule;
  }

  /** For bash the tables stand for the configuration itself, less its regex
      rules, exactly when none of the other rules has a line separator. */
  lemma {:induction false} BakedConfigIsExact(re: RegexEngine, rules: Config)
    requires forall i :: 0 <= i < |rules| ==> ValidRule(re, rules[i])
    ensures SameConfigOnBash(BakedConfig(rules), WithoutRegex(rules))
       <==> forall rule <- WithoutRegex(rules) :: NoLineSeparator(rule)
  {
    hide NoLineSeparator, KeptRule, ValidRule, SameOnBash;
    if rules != [] {
      hide BakedConfig, WithoutRegex, SameConfigOnBash;
      var first, rest := rules[0], rules[1..];
      assert forall i :: 0 <= i < |rest| ==> rest[i] == rules[i + 1];
      BakedConfigIsExact(re, rest);
      BakedConfigStep(rules);
      if first.matchKind != Some(Regex) {
        KeptRuleIsSame(re, first);
        SameConfigCons(KeptRule(first), first, BakedConfig(rest), WithoutRegex(rest));
        assert forall rule <- WithoutRegex(rules) :: rule == first || rule in WithoutRegex(rest);
      }
    }
  }
}
