/** A key press from the shell's own cursor to the buffer it ends up with. */
module KeyPress {
  import opened Wrappers
  import opened Text
  import opened Model
  import opened Matching
  import opened Render
  import opened Expand
  import opened Validation
  import opened ValidRules
  import opened Cursor
  import opened Hook
  import opened Unreachable
  import Reply
  import Utf16

  // ----- rendering adds no character of its own -----

  /** What a regex captures is part of the token. */
  ghost predicate CapturesComeFromToken(re: RegexEngine) {
    forall key, token, i: nat ::
      re.captures(key, token).Some? && re.captures(key, token).value(i).Some? ==>
        forall c <- re.captures(key, token).value(i).value :: c in token
  }

  ghost predicate CapturesLack(b: Bindings, c: char) {
    forall name :: ResolveCapture(name, b).Some? ==> c !in ResolveCapture(name, b).value
  }

  lemma {:induction false} FilledLacks(text: string, b: Bindings, c: char)
    requires c !in text && CapturesLack(b, c)
    ensures c !in Filled(text, b)
    decreases |text|
  {
    hide CapturesLack;
    if text != "" {
      var (part, rest) := FirstPart(text, b);
      FirstPartPrints(text, b);
      FilledStep(text, b);
      FilledLacks(rest, b, c);
      PartLacks(part, b, c);
    }
  }

  lemma PartLacks(part: Part, b: Bindings, c: char)
    requires CapturesLack(b, c) && c !in PrintPart(part)
    ensures c !in FillPart(part, b)
  {
  }

  lemma {:induction false} ReplacedLacks(s: string, pat: string, with: string, c: char)
    requires pat != "" && c !in s && c !in with
    ensures c !in ReplaceAll(s, pat, with)
    decreases |s|
  {
    if s != "" {
      ReplacedLacks(if pat <= s then s[|pat|..] else s[1..], pat, with, c);
    }
  }

  lemma {:induction false} RepeatedLacks(unit: string, n: nat, c: char)
    requires c !in unit
    ensures c !in Repeat(unit, n)
  {
    if n > 0 {
      RepeatedLacks(unit, n - 1, c);
    }
  }

  lemma FullTextLacks(base: string, b: Bindings, c: char)
    requires c !in base && CapturesLack(b, c)
    ensures c !in FullText(base, b)
  {
    hide CapturesLack, Filled, Find;
    match SplitAtCursor(base)
    case None => FilledLacks(base, b, c);
    case Some((before, after)) =>
      assert base == before + CURSOR_PLACEHOLDER + after;
      FilledLacks(before, b, c);
      FilledLacks(after, b, c);
  }

  lemma BaseLacks(rule: Abbr, template: string, b: Bindings, c: char)
    requires c !in template && (rule.number.Some? ==> c !in rule.number.value)
    ensures RenderNumber(rule, template, b).Some? ==> c !in RenderNumber(rule, template, b).value
  {
    hide ReplaceAll, Repeat, ByteLen;
    if b.number.Some? && rule.number.Some? {
      RepeatedLacks(rule.number.value, b.number.value, c);
      ReplacedLacks(template, NUMBER_PLACEHOLDER, Repeat(rule.number.value, b.number.value), c);
    }
  }

  lemma {:induction false} FoundGroupIsAGroup(groups: seq<RegexGroup>, name: string)
    requires FindGroup(groups, name).Some?
    ensures exists i :: 0 <= i < |groups| && groups[i].text == FindGroup(groups, name).value
  {
    if groups[0].name != Some(name) {
      FoundGroupIsAGroup(groups[1..], name);
      var i :| 0 <= i < |groups[1..]| && groups[1..][i].text == FindGroup(groups, name).value;
      assert groups[i + 1].text == FindGroup(groups, name).value;
    }
  }

  lemma GroupLacks(re: RegexEngine, key: string, token: string, groups: seq<RegexGroup>, i: nat, c: char)
    requires CapturesComeFromToken(re) && MatchRegexKey(re, key, token) == Some(groups) && i < |groups|
    requires c !in token
    ensures c !in groups[i].text
  {
    assert re.captures(key, token).Some?;
    var text := re.captures(key, token).value(i + 1);
    assert groups[i].text == if text.Some? then text.value else "";
  }

  /** Every capture of a match is part of the token. */
  lemma MatchLacks(re: RegexEngine, rule: Abbr, token: string, b: Bindings, c: char)
    requires CapturesComeFromToken(re) && MatchRule(re, rule, token) == Some(b) && c !in token
    ensures CapturesLack(b, c)
  {
    hide MatchAbbrKey, MatchRegexKey, MatchGlobKey, FindGroup, CapturesComeFromToken;
    match rule.matchKind {
      case None => LiteralMatchHasNoCaptures(rule.key, token, b);
      case Some(Glob) => GlobCaptureLacks(rule.key, token, c);
      case Some(Regex) =>
        var groups := b.regex.value;
        forall i | 0 <= i < |groups| ensures c !in groups[i].text {
          GroupLacks(re, rule.key, token, groups, i, c);
        }
    }
    forall name | ResolveCapture(name, b).Some? ensures c !in ResolveCapture(name, b).value {
      if name != "*" && RegexGroupNumber(name).None? {
        FoundGroupIsAGroup(b.regex.value, name);
      }
    }
  }

  lemma GlobCaptureLacks(key: string, token: string, c: char)
    requires c !in token
    ensures MatchGlobKey(key, token).Some? ==> c !in MatchGlobKey(key, token).value
  {
  }

  lemma RenderingLacks(rule: Abbr, template: string, b: Bindings, c: char)
    requires c !in template && (rule.number.Some? ==> c !in rule.number.value) && CapturesLack(b, c)
    ensures RenderWithCursor(rule, template, b).Some? ==> c !in RenderWithCursor(rule, template, b).value.0
  {
    hide CapturesLack, RenderNumber, FullText, CursorOffset, SubstituteCaptures;
    BaseLacks(rule, template, b, c);
    if RenderNumber(rule, template, b).Some? {
      RenderIsFullTextWithinCap(rule, template, b);
      FullTextLacks(RenderNumber(rule, template, b).value, b, c);
    }
  }

  /** An expansion holds only characters of the template, the unit and the
      token. */
  lemma FiringLacks(q: Lookup, rule: Abbr, c: char)
    requires CapturesComeFromToken(q.re) && c !in q.token
    requires rule.expand.ForShell(q.shell).Some? ==> c !in rule.expand.ForShell(q.shell).value
    requires rule.number.Some? ==> c !in rule.number.value
    requires q.Firing(rule).Some?
    ensures q.Firing(rule).value.Expanded? && c !in q.Firing(rule).value.text
  {
    hide CapturesComeFromToken, CapturesLack, MatchRule, RenderWithCursor, IsBlank, Conditions;
    var b := MatchRule(q.re, rule, q.token).value;
    MatchLacks(q.re, rule, q.token, b, c);
    RenderingLacks(rule, rule.expand.ForShell(q.shell).value, b, c);
  }

  lemma ValidRuleHasNoNul(re: RegexEngine, rule: Abbr, shell: Shell)
    requires ValidRule(re, rule)
    ensures rule.expand.ForShell(shell).Some? ==> '\0' !in rule.expand.ForShell(shell).value
    ensures rule.number.Some? ==> '\0' !in rule.number.value
  {
    hide CheckAbbrKey, IsBlank, ByteLen, HasControl, HasDeceptive, ValidExpand, ValidCommands;
    hide HasUnknownPlaceholder, NumberCount;
    if rule.expand.ForShell(shell).Some? {
      ValidTemplate(re, rule, shell);
    }
  }

  /** No expansion of a valid configuration brings in a NUL. */
  lemma ExpansionHasNoNul(q: Lookup)
    requires CapturesComeFromToken(q.re) && Validated(q.re, q.rules) && '\0' !in q.token
    ensures q.Expansion().Expanded? ==> '\0' !in q.Expansion().text
  {
    hide CapturesComeFromToken, ValidRule, Validated, Lookup.Firing, Lookup.Expansion, Lookup.Winner;
    q.WinnerIsLeast();
    ValidatedMeansValidRules(q.re, q.rules);
    if q.Winner().Some? {
      var rule := q.Winner().value.rule;
      ValidRuleHasNoNul(q.re, rule, q.shell);
      FiringLacks(q, rule, '\0');
    }
  }

  /** The hook's line has a NUL only if the line it was given had one. */
  lemma HookAddsNoNul(
    re: RegexEngine, rules: Config, shell: Shell, line: string, i: nat, commandExists: string -> bool)
    requires CapturesComeFromToken(re) && Validated(re, rules) && i <= |line| && '\0' !in line
    ensures '\0' !in HookAt(re, rules, shell, line, i, commandExists).line
  {
    hide CapturesComeFromToken, Validated, Lookup.Expansion, Candidate;
    var start := Candidate(line, i);
    if start.Some? {
      ExpansionHasNoNul(Lookup(re, rules, line[start.value..i], shell, commandExists));
    }
  }

  // ----- end to end -----

  /** The index of the character before which the shell's cursor stands. */
  function SentIndex(shell: Shell, line: string, cursor: nat): (i: nat)
    ensures i <= |line|
  {
    ShellCursorIsBoundary(shell, line, cursor);
    CharIndexAt(line, ShellCursorToByte(shell, line, cursor))
  }

  /** The cursor of an action in the shell's own unit. */
  function ReplyCursor(shell: Shell, action: HookAction): nat
    requires IsBoundary(action.line, action.cursor)
  {
    Reply.ShellLen(shell, action.line[..CharIndexAt(action.line, action.cursor)])
  }

  /** Any cursor that falls after the first `i` characters, in the shell's own
      unit, stands before the next one. */
  lemma SentIndexIs(shell: Shell, line: string, cursor: nat, i: nat)
    requires Reply.FallsAfter(shell, line, cursor, i)
    ensures SentIndex(shell, line, cursor) == i
  {
    hide IsBoundary, ByteLen, CharIndexAt, ShellCursorToByte;
    Reply.CursorFallsAfter(shell, line, cursor, i);
    BoundaryAtChar(line, i);
  }

  /** For any line the shell can carry and any cursor it can send, the reply
      leaves exactly the hook's line in the shell's buffer, with the cursor
      before the same character, in the shell's own unit. Bash cannot hold a
      NUL, so there the configuration has to be valid: then no expansion brings
      one in. */
  lemma PressEndToEnd(
    re: RegexEngine, rules: Config, shell: Shell, line: string, cursor: nat, commandExists: string -> bool)
    requires Reply.Carries(shell, line) && (shell == Bash ==> CapturesComeFromToken(re) && Validated(re, rules))
    ensures var action := HookAt(re, rules, shell, line, SentIndex(shell, line, cursor), commandExists);
      && IsBoundary(action.line, action.cursor)
      && Reply.Shows(shell, Reply.Render(shell, action), action.line, ReplyCursor(shell, action))
  {
    hide CapturesComeFromToken, Validated, HookAt, IsBoundary, CharIndexAt, SentIndex, Reply.Shows, Reply.Render;
    var i := SentIndex(shell, line, cursor);
    var action := HookAt(re, rules, shell, line, i, commandExists);
    var kept, inserted := HookKeepsItsFrame(re, rules, shell, line, i, commandExists);
    if shell == Bash {
      HookAddsNoNul(re, rules, shell, line, i, commandExists);
    }
    Reply.ReplyShowsAction(shell, action);
  }

  /** The same as the program runs it: convert the cursor, run the hook, render
      its action. */
  method Press(
    re: RegexEngine, rules: Config, shell: Shell, line: string, cursor: nat, commandExists: string -> bool)
    returns (reply: string)
    requires Reply.Carries(shell, line) && (shell == Bash ==> CapturesComeFromToken(re) && Validated(re, rules))
    ensures var action := HookAt(re, rules, shell, line, SentIndex(shell, line, cursor), commandExists);
      && IsBoundary(action.line, action.cursor)
      && Reply.Shows(shell, reply, action.line, ReplyCursor(shell, action))
  {
    hide CapturesComeFromToken, Validated, HookAt, IsBoundary, ByteLen, ShellCursorToByte, CharIndexAt, Reply.Shows;
    hide Reply.Render, ReplyCursor;
    PressEndToEnd(re, rules, shell, line, cursor, commandExists);
    ShellCursorIsBoundary(shell, line, cursor);
    var byteCursor := ShellCursorToByte(shell, line, cursor);
    var action := RunHook(re, rules, shell, line, byteCursor, commandExists);
    reply := Reply.Render(shell, action);
  }

  /** The unit of each shell: UTF-16 code units for PowerShell, characters for
      every other one; a cursor beyond the line counts as its end. */
  lemma UnitOfEachShell(line: string, cursor: nat)
    ensures ShellCursorToByte(Bash, line, cursor) == ShellCursorToByte(Zsh, line, cursor)
         == ShellCursorToByte(Clink, line, cursor) == ShellCursorToByte(Nu, line, cursor)
         == ByteLen(line[..Min(cursor, |line|)])
    ensures exists i: nat :: UnitFallsIn(line, cursor, i) && ShellCursorToByte(Pwsh, line, cursor) == ByteLen(line[..i])
  {
    hide ByteLen, Utf16.Utf16;
    assert line[..|line|] == line;
    var i := Utf16.UnitCursorByEncoding(line, cursor);
    assert UnitFallsIn(line, cursor, i);
  }

  /** The first `i` characters take at most `cursor` code units, and no more of
      them do. */
  predicate UnitFallsIn(line: string, cursor: nat, i: nat) {
    && i <= |line| && |Utf16.Utf16(line[..i])| <= cursor
    && (i < |line| ==> cursor < |Utf16.Utf16(line[..i + 1])|)
  }

  /** And the cursor of a reply is counted in the same unit. */
  lemma ReplyUnitOfEachShell(shell: Shell, action: HookAction)
    requires IsBoundary(action.line, action.cursor)
    ensures var before := action.line[..CharIndexAt(action.line, action.cursor)];
      ReplyCursor(shell, action) ==
        match shell
        case Pwsh => |Utf16.Utf16(before)|
        case Bash => |before|
        case Zsh => |before|
        case Clink => |before|
        case Nu => |before|
  {
    hide CharIndexAt, IsBoundary, Utf16.Utf16;
    Utf16.UnitsAreCounted(action.line[..CharIndexAt(action.line, action.cursor)]);
  }
}
