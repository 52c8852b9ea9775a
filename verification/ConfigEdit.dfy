/** Adding a rule to a configuration file and removing rules from it. */
module ConfigEdit {
  import opened Wrappers
  import opened Text
  import opened Model
  import opened Sanitize
  import opened Validation
  import opened ValidRules

  // ----- the text of an added rule -----

  /** A TOML basic string, written with two replacements. */
  function TomlQuote(s: string): string {
    "\"" + ReplaceAll(ReplaceAll(s, "\\", "\\\\"), "\"", "\\\"") + "\""
  }

  function TomlPiece(c: char): string {
    if c == '\\' then "\\\\" else if c == '"' then "\\\"" else [c]
  }

  function TomlBody(s: string): string {
    if s == "" then "" else TomlPiece(s[0]) + TomlBody(s[1..])
  }

  /** A character TOML refuses inside a basic string. */
  predicate TomlRefuses(c: char) {
    IsAsciiControl(c) && c != '\t'
  }

  /** The value of a TOML basic string after its opening quote, and the text
      after its closing quote. Escapes other than the two-character ones do not
      occur here and have no value. */
  function ReadToml(text: string): Option<(string, string)>
    decreases |text|
  {
    if text == "" || TomlRefuses(text[0]) then None
    else if text[0] == '"' then Some(("", text[1..]))
    else if text[0] != '\\' then
      var (value, rest) :- ReadToml(text[1..]);
      Some(([text[0]] + value, rest))
    else if |text| == 1 then None
    else
      var c :- match text[1]
        case '"' => Some('"')
        case '\\' => Some('\\')
        case 'n' => Some('\n')
        case 'r' => Some('\r')
        case 't' => Some('\t')
        case _ => None;
      var (value, rest) :- ReadToml(text[2..]);
      Some(([c] + value, rest))
  }

  lemma OneCharPrefix(c: char, s: string)
    requires s != ""
    ensures [c] <= s <==> s[0] == c
  {
    assert s[..1] == [s[0]];
  }

  lemma ReplaceStep(x: char, t: string, c: char, with: string)
    ensures ReplaceAll([x] + t, [c], with) == (if x == c then with else [x]) + ReplaceAll(t, [c], with)
  {
    OneCharPrefix(c, [x] + t);
    assert ([x] + t)[1..] == t;
  }

  /** The two replacements of one character and of what follows. */
  lemma EscapeStep(c: char, t: string)
    ensures var (once, rest) := (ReplaceAll([c] + t, "\\", "\\\\"), ReplaceAll(t, "\\", "\\\\"));
      ReplaceAll(once, "\"", "\\\"") == TomlPiece(c) + ReplaceAll(rest, "\"", "\\\"")
  {
    hide ReplaceAll;
    var rest := ReplaceAll(t, "\\", "\\\\");
    ReplaceStep(c, t, '\\', "\\\\");
    if c == '\\' {
      assert "\\\\" + rest == ['\\'] + (['\\'] + rest);
      ReplaceStep('\\', ['\\'] + rest, '"', "\\\"");
      ReplaceStep('\\', rest, '"', "\\\"");
    } else {
      ReplaceStep(c, rest, '"', "\\\"");
    }
  }

  lemma {:induction false} TwoReplacementsEscape(s: string)
    ensures ReplaceAll(ReplaceAll(s, "\\", "\\\\"), "\"", "\\\"") == TomlBody(s)
  {
    if s != "" {
      hide ReplaceAll, TomlPiece;
      TwoReplacementsEscape(s[1..]);
      assert s == [s[0]] + s[1..];
      EscapeStep(s[0], s[1..]);
    }
  }

  lemma ReadTomlPiece(c: char, rest: string)
    requires !TomlRefuses(c)
    ensures ReadToml(TomlPiece(c) + rest) ==
      match ReadToml(rest) case None => None case Some(r) => Some(([c] + r.0, r.1))
  {
    var text := TomlPiece(c) + rest;
    if |TomlPiece(c)| == 2 {
      assert text[0] == '\\' && text[1] == c && text[2..] == rest;
    } else {
      assert text[1..] == rest;
    }
  }

  lemma {:induction false} ReadTomlBody(s: string, rest: string)
    ensures ReadToml(TomlBody(s) + ("\"" + rest)) ==
      if exists c <- s :: TomlRefuses(c) then None else Some((s, rest))
  {
    hide ReadToml, TomlPiece, TomlRefuses;
    if s == "" {
      assert "" + ("\"" + rest) == "\"" + rest;
      ClosingTomlQuote(rest);
    } else {
      var later := TomlBody(s[1..]) + ("\"" + rest);
      assert TomlBody(s) + ("\"" + rest) == TomlPiece(s[0]) + later;
      ReadTomlBody(s[1..], rest);
      assert s == [s[0]] + s[1..];
      if TomlRefuses(s[0]) {
        RefusedTomlPiece(s[0], later);
        assert s[0] in s;
      } else {
        ReadTomlPiece(s[0], later);
        assert (exists c <- s :: TomlRefuses(c)) <==> exists c <- s[1..] :: TomlRefuses(c);
      }
    }
  }

  lemma ClosingTomlQuote(rest: string)
    ensures ReadToml("\"" + rest) == Some(("", rest))
  {
    assert ("\"" + rest)[1..] == rest;
  }

  lemma RefusedTomlPiece(c: char, rest: string)
    requires TomlRefuses(c)
    ensures ReadToml(TomlPiece(c) + rest).None?
  {
  }

  /** The quoted text reads back to the string, and TOML accepts it, exactly
      when the string has no control character other than a tab. */
  lemma TomlQuoteReadsBack(s: string, rest: string)
    ensures TomlQuote(s) != "" && TomlQuote(s)[0] == '"'
    ensures ReadToml((TomlQuote(s) + rest)[1..]) ==
      if exists c <- s :: TomlRefuses(c) then None else Some((s, rest))
  {
    hide TomlBody, ReplaceAll, ReadToml, TomlRefuses;
    TwoReplacementsEscape(s);
    ReadTomlBody(s, rest);
    assert (TomlQuote(s) + rest)[1..] == TomlBody(s) + ("\"" + rest);
  }

  /** The block appended to the file. */
  function AppendedBlock(key: string, expand: string, commands: Option<seq<string>>): string {
    "\n[[abbr]]\n" + ("key = " + (TomlQuote(key) + ("\n" + ("expand = " + (TomlQuote(expand) + ("\n"
    + (match commands
       case None => ""
       case Some(list) => "when_command_exists = [" + (QuotedList(list) + "]\n"))))))))
  }

  function QuotedList(list: seq<string>): string {
    if list == [] then ""
    else if |list| == 1 then TomlQuote(list[0])
    else TomlQuote(list[0]) + (", " + QuotedList(list[1..]))
  }

  function ReadString(text: string): Option<(string, string)> {
    var body :- Expect(text, "\"");
    ReadToml(body)
  }

  /** One or more strings separated by commas, up to the closing bracket. */
  function ReadList(text: string, fuel: nat): Option<(seq<string>, string)>
    decreases fuel
  {
    if fuel == 0 then None
    else
      var (first, rest) :- ReadString(text);
      if "]" <= rest then Some(([first], rest[1..]))
      else
        var more :- Expect(rest, ", ");
        var (others, end) :- ReadList(more, fuel - 1);
        Some(([first] + others, end))
  }

  /** A reader of exactly the shape of an appended block. */
  function ReadBlock(text: string): Option<(string, string, Option<seq<string>>)> {
    var t0 :- Expect(text, "\n[[abbr]]\n");
    var t1 :- Expect(t0, "key = ");
    var (key, t2) :- ReadString(t1);
    var t3 :- Expect(t2, "\n");
    var t4 :- Expect(t3, "expand = ");
    var (expand, t5) :- ReadString(t4);
    var t6 :- Expect(t5, "\n");
    if t6 == "" then Some((key, expand, None))
    else
      var t7 :- Expect(t6, "when_command_exists = [");
      if t7 == "]\n" then Some((key, expand, Some([])))
      else
        var (list, t8) :- ReadList(t7, |t7|);
        if t8 == "\n" then Some((key, expand, Some(list))) else None
  }

  predicate Plain(s: string) {
    forall c <- s :: !TomlRefuses(c)
  }

  lemma ReadsString(s: string, rest: string)
    requires Plain(s)
    ensures ReadString(TomlQuote(s) + rest) == Some((s, rest))
  {
    hide TomlQuote, ReadToml;
    TomlQuoteReadsBack(s, rest);
    OneCharPrefix('"', TomlQuote(s) + rest);
  }

  lemma LastOfList(first: string, rest: string, fuel: nat)
    requires fuel > 0 && Plain(first)
    ensures ReadList(TomlQuote(first) + ("]" + rest), fuel) == Some(([first], rest))
  {
    hide TomlQuote, ReadString, Plain;
    ReadsString(first, "]" + rest);
    assert ("]" + rest)[1..] == rest;
  }

  lemma NextOfList(first: string, later: string, fuel: nat)
    requires fuel > 0 && Plain(first)
    ensures ReadList(TomlQuote(first) + (", " + later), fuel) ==
      match ReadList(later, fuel - 1)
      case None => None
      case Some(read) => Some(([first] + read.0, read.1))
  {
    hide TomlQuote, ReadString, Plain, Expect;
    var rest := ", " + later;
    ReadsString(first, rest);
    assert rest[0] == ',' && !("]" <= rest);
    Expected(", ", later);
    assert Expect(rest, ", ") == Some(later);
  }

  lemma {:induction false} ReadsList(list: seq<string>, rest: string, fuel: nat)
    requires list != [] && fuel >= |list| && forall c <- list :: Plain(c)
    ensures ReadList(QuotedList(list) + ("]" + rest), fuel) == Some((list, rest))
  {
    hide TomlQuote, ReadList, Plain;
    var first, tail := list[0], list[1..];
    assert first in list && list == [first] + tail;
    if tail == [] {
      assert list == [first] && QuotedList(list) == TomlQuote(first);
      LastOfList(first, rest, fuel);
    } else {
      var later := QuotedList(tail) + ("]" + rest);
      assert QuotedList(list) + ("]" + rest) == TomlQuote(first) + (", " + later);
      assert forall c <- tail :: c in list;
      NextOfList(first, later, fuel);
      ReadsList(tail, rest, fuel - 1);
    }
  }

  lemma {:induction false} QuotedListIsLong(list: seq<string>)
    ensures list != [] ==> QuotedList(list) != "" && QuotedList(list)[0] == '"' && |QuotedList(list)| >= |list|
  {
    if |list| > 1 {
      QuotedListIsLong(list[1..]);
    }
  }

  /** The appended block reads back to the rule that was added. */
  lemma AppendedBlockReadsBack(key: string, expand: string, commands: Option<seq<string>>)
    requires Plain(key) && Plain(expand) && (commands.Some? ==> forall c <- commands.value :: Plain(c))
    ensures ReadBlock(AppendedBlock(key, expand, commands)) == Some((key, expand, commands))
  {
    hide TomlQuote, ReadString, Plain, Expect, ReadList, QuotedList;
    var tail := match commands
      case None => ""
      case Some(list) => "when_command_exists = [" + (QuotedList(list) + "]\n");
    var afterKey := "\n" + ("expand = " + (TomlQuote(expand) + ("\n" + tail)));
    Expected("\n[[abbr]]\n", "key = " + (TomlQuote(key) + afterKey));
    Expected("key = ", TomlQuote(key) + afterKey);
    ReadsString(key, afterKey);
    Expected("\n", "expand = " + (TomlQuote(expand) + ("\n" + tail)));
    Expected("expand = ", TomlQuote(expand) + ("\n" + tail));
    ReadsString(expand, "\n" + tail);
    Expected("\n", tail);
    if commands.Some? {
      var list := commands.value;
      var t7 := QuotedList(list) + "]\n";
      Expected("when_command_exists = [", t7);
      if list == [] {
        EmptyQuotedList();
        assert "" + "]\n" == "]\n";
      } else {
        QuotedListIsLong(list);
        assert t7[0] == '"';
        assert "]" + "\n" == "]\n";
        ReadsList(list, "\n", |t7|);
      }
    }
  }

  lemma EmptyQuotedList()
    ensures QuotedList([]) == ""
  {
  }

  // ----- adding -----

  function AddedRule(key: string, expand: string, commands: Option<seq<string>>): Abbr {
    Abbr(key, All(expand), if commands.Some? then Some(All(commands.value)) else None, None, None)
  }

  /** The issues of an addition, in the order of the checks: those of its
      fields, then those of the existing configuration, then its size. */
  function AppendIssues(
    re: RegexEngine, existing: Config, key: string, expand: string, commands: Option<seq<string>>): seq<Issue>
  {
    IssueIf(0, KeyField, CheckAbbrKey(key))
    + (IssueIf(0, ExpandField(None), CheckExpandValue(expand))
    + ((if commands.Some? then CommandListIssues(None, commands.value, 0) else [])
    + (AllIssues(re, existing)
    + (if |existing| + 1 > MAX_ABBR_RULES then [ConfigIssue(TooManyRules)] else []))))
  }

  lemma EntryIssuesStep(list: seq<string>, i: nat)
    requires i < |list|
    ensures match CheckCmdEntry(list[i])
      case None => EntryIssues(None, list, i, 0) == EntryIssues(None, list, i + 1, 0)
      case Some(reason) =>
        EntryIssues(None, list, i, 0) != [] && ToConfigError(EntryIssues(None, list, i, 0)[0]) == ConfigError(reason, 0)
  {
    hide CheckCmdEntry;
  }

  /** The rule that an addition means: the key, and for every shell the given
      expansion and the given commands; no unit and no pattern. */
  lemma AddedRuleMeans(key: string, expand: string, commands: Option<seq<string>>, shell: Shell)
    ensures var rule := AddedRule(key, expand, commands);
      && rule.key == key && rule.expand.ForShell(shell) == Some(expand)
      && rule.number.None? && rule.matchKind.None?
      && (commands.None? <==> rule.whenCommandExists.None?)
      && (commands.Some? ==> rule.whenCommandExists.value.ForShell(shell) == commands)
  {
  }

  /** How a file holds its rules: not at all, as `[[abbr]]` tables, or as one
      inline array `abbr = [...]`. */
  datatype AbbrForm = Absent | Tables | Inline

  datatype ConfigFile = ConfigFile(form: AbbrForm, rules: Config)

  /** The file with an `[[abbr]]` block at its end. TOML refuses to add a table
      to an inline array, even to an empty one. */
  function Appended(file: ConfigFile, rule: Abbr): Option<ConfigFile> {
    if file.form.Inline? then None else Some(ConfigFile(Tables, file.rules + [rule]))
  }

  /** The text parses and its rules are valid. */
  predicate Loads(re: RegexEngine, file: Option<ConfigFile>) {
    file.Some? && Validated(re, file.value.rules)
  }

  /** The checks made before a rule is appended; the rule number in their own
      errors is 0. A refusal is the first issue there is; without one the block
      is written, whatever form the file has. */
  method AppendAbbr(re: RegexEngine, file: ConfigFile, key: string, expand: string, commands: Option<seq<string>>)
    returns (result: Result<Option<ConfigFile>, ConfigError>)
    ensures var issues := AppendIssues(re, file.rules, key, expand, commands);
      result ==
        if issues == [] then Success(Appended(file, AddedRule(key, expand, commands)))
        else Failure(ToConfigError(issues[0]))
  {
    hide CheckAbbrKey, CheckExpandValue, CheckCmdEntry, AllIssues, EntryIssues;
    assert commands.Some? ==> EntryIssues(None, commands.value, |commands.value|, 0) == [] by {
      if commands.Some? {
        NoEntryIssues(None, commands.value, |commands.value|, 0);
      }
    }
    var reason := CheckAbbrKey(key);
    if reason.Some? {
      return Failure(ConfigError(reason.value, 0));
    }
    reason := CheckExpandValue(expand);
    if reason.Some? {
      return Failure(ConfigError(reason.value, 0));
    }
    if commands.Some? {
      if |commands.value| > MAX_CMD_LIST_LEN {
        return Failure(ConfigError(TooManyCmds, 0));
      }
      for i := 0 to |commands.value|
        invariant CommandListIssues(None, commands.value, 0) == EntryIssues(None, commands.value, i, 0)
      {
        EntryIssuesStep(commands.value, i);
        reason := CheckCmdEntry(commands.value[i]);
        if reason.Some? {
          return Failure(ConfigError(reason.value, 0));
        }
      }
    }
    var error := FirstValidationError(re, file.rules);
    if error.Some? {
      return Failure(error.value);
    }
    if |file.rules| + 1 > MAX_ABBR_RULES {
      return Failure(ConfigError(TooManyRules, 0));
    }
    result := Success(Appended(file, AddedRule(key, expand, commands)));
  }

  /** An addition is accepted exactly when its fields pass their own checks and
      the existing configuration is valid and has room. */
  lemma AcceptedAppend(
    re: RegexEngine, existing: Config, key: string, expand: string, commands: Option<seq<string>>)
    ensures AppendIssues(re, existing, key, expand, commands) == [] <==>
      && CheckAbbrKey(key).None? && CheckExpandValue(expand).None?
      && (commands.Some? ==> ValidCommandList(commands.value))
      && Validated(re, existing) && |existing| + 1 <= MAX_ABBR_RULES
  {
    hide CheckAbbrKey, CheckExpandValue, CheckCmdEntry, AllIssues;
    if commands.Some? {
      NoEntryIssues(None, commands.value, 0, 0);
    }
  }

  /** An accepted addition leaves a list of rules that is valid exactly when the
      key has no opening brace: the placeholder rules are not among the checks. */
  lemma AppendedRulesAreValid(
    re: RegexEngine, existing: Config, key: string, expand: string, commands: Option<seq<string>>)
    requires CheckAbbrKey(key).None? && CheckExpandValue(expand).None?
    requires commands.Some? ==> ValidCommandList(commands.value)
    requires Validated(re, existing) && |existing| + 1 <= MAX_ABBR_RULES
    ensures Validated(re, existing + [AddedRule(key, expand, commands)]) <==> '{' !in key
  {
    hide AllIssues, ValidRule, AddedRule;
    var rule := AddedRule(key, expand, commands);
    var all := existing + [rule];
    ValidatedMeansValidRules(re, existing);
    ValidatedMeansValidRules(re, all);
    AddedRuleValidity(re, key, expand, commands);
    if ValidRule(re, rule) {
      forall i | 0 <= i < |all| ensures ValidRule(re, all[i]) {
        assert i < |existing| ==> all[i] == existing[i];
      }
    } else {
      assert !ValidRule(re, all[|existing|]);
    }
  }

  /** An accepted addition leaves a file that loads exactly when the key has no
      opening brace and the file has no inline array of rules. */
  lemma AcceptedAppendLoadsExactly(
    re: RegexEngine, file: ConfigFile, key: string, expand: string, commands: Option<seq<string>>)
    requires AppendIssues(re, file.rules, key, expand, commands) == []
    ensures Loads(re, Appended(file, AddedRule(key, expand, commands))) <==> '{' !in key && !file.form.Inline?
  {
    hide AppendIssues, CheckAbbrKey, CheckExpandValue, ValidCommandList, Validated, AddedRule;
    AcceptedAppend(re, file.rules, key, expand, commands);
    AppendedRulesAreValid(re, file.rules, key, expand, commands);
  }

  /** Such a key: `a{` is accepted by a file without rules, which then no longer
      loads. */
  lemma AcceptedAppendThatDoesNotLoad(re: RegexEngine)
    ensures var file := ConfigFile(Absent, []);
      && Loads(re, Some(file)) && AppendIssues(re, file.rules, "a{", "c", None) == []
      && !Loads(re, Appended(file, AddedRule("a{", "c", None)))
  {
    hide AppendIssues, Validated, AddedRule;
    SmallAppendIsAccepted(re, "a{");
    AcceptedAppendLoadsExactly(re, ConfigFile(Absent, []), "a{", "c", None);
    assert "a{"[1] == '{';
  }

  /** Such a file: `abbr = []` loads and accepts the key `gs`, and then no longer
      loads. */
  lemma AppendToInlineStopsLoading(re: RegexEngine)
    ensures var file := ConfigFile(Inline, []);
      && Loads(re, Some(file)) && AppendIssues(re, file.rules, "gs", "c", None) == []
      && !Loads(re, Appended(file, AddedRule("gs", "c", None)))
  {
    hide AppendIssues, Validated;
    SmallAppendIsAccepted(re, "gs");
  }

  lemma SmallAppendIsAccepted(re: RegexEngine, key: string)
    requires key == "a{" || key == "gs"
    ensures Validated(re, []) && AppendIssues(re, [], key, "c", None) == []
  {
    assert IsPrintable(key) && IsPrintable("c");
    hide CheckAbbrKey, CheckExpandValue, CheckNumberUnit, IsPrintable, Validated, AppendIssues;
    PrintableIsValid(key);
    PrintableIsValid("c");
    ValidatedMeansValidRules(re, []);
    AcceptedAppend(re, [], key, "c", None);
  }

  /** The block of an accepted addition reads back to what was asked for: the
      checks leave no character that TOML refuses. */
  lemma AcceptedAppendReadsBack(
    re: RegexEngine, existing: Config, key: string, expand: string, commands: Option<seq<string>>)
    requires AppendIssues(re, existing, key, expand, commands) == []
    ensures ReadBlock(AppendedBlock(key, expand, commands)) == Some((key, expand, commands))
  {
    hide AppendIssues, ReadBlock, AppendedBlock, Plain, CheckCmdEntry;
    AcceptedAppend(re, existing, key, expand, commands);
    CheckedTextIsPlain(key);
    CheckedTextIsPlain(expand);
    if commands.Some? {
      forall c <- commands.value ensures Plain(c) {
        CheckedTextIsPlain(c);
      }
    }
    AppendedBlockReadsBack(key, expand, commands);
  }

  lemma CheckedTextIsPlain(s: string)
    ensures CheckAbbrKey(s).None? || CheckExpandValue(s).None? || CheckCmdEntry(s).None? ==> Plain(s)
  {
    hide IsBlank, ByteLen, HasDeceptive, IsAsciiControl, IsPathSeparator;
    assert HasControl(s) <==> exists c <- s :: IsAsciiControl(c);
  }

  lemma AddedRuleValidity(re: RegexEngine, key: string, expand: string, commands: Option<seq<string>>)
    requires CheckAbbrKey(key).None? && CheckExpandValue(expand).None?
    requires commands.Some? ==> ValidCommandList(commands.value)
    ensures ValidRule(re, AddedRule(key, expand, commands)) <==> '{' !in key
  {
    hide CheckAbbrKey, CheckExpandValue, CheckCmdEntry;
    var rule := AddedRule(key, expand, commands);
    if '{' in key && NumberCount(rule) == 0 {
      NothingToReplace(key, NUMBER_PLACEHOLDER, "");
    }
  }

  // ----- removing -----

  /** The rules with another key, in order. */
  function WithoutKey(rules: Config, key: string): Config {
    if rules == [] then []
    else (if rules[0].key == key then [] else [rules[0]]) + WithoutKey(rules[1..], key)
  }

  function CountKey(rules: Config, key: string): nat {
    if rules == [] then 0 else (if rules[0].key == key then 1 else 0) + CountKey(rules[1..], key)
  }

  lemma RemovalStep(kept: Config, pending: Config, key: string)
    requires pending != []
    ensures var rest := WithoutKey(pending[1..], key);
      kept + WithoutKey(pending, key) == (if pending[0].key == key then kept else kept + [pending[0]]) + rest
    ensures CountKey(pending, key) == (if pending[0].key == key then 1 else 0) + CountKey(pending[1..], key)
  {
    var rest := WithoutKey(pending[1..], key);
    assert [] + rest == rest && kept + ([pending[0]] + rest) == (kept + [pending[0]]) + rest;
  }

  /** The file after every rule with the key is removed. Only tables are looked
      through: an inline array stays as it is. */
  function Removed(file: ConfigFile, key: string): ConfigFile {
    if file.form.Tables? then ConfigFile(Tables, WithoutKey(file.rules, key)) else file
  }

  function RemovedCount(file: ConfigFile, key: string): nat {
    if file.form.Tables? then CountKey(file.rules, key) else 0
  }

  /** A configuration file that can be edited. */
  class Document {
    const form: AbbrForm
    var rules: seq<Abbr>

    constructor (file: ConfigFile)
      ensures File() == file
    {
      form, rules := file.form, file.rules;
    }

    function File(): ConfigFile
      reads this
    {
      ConfigFile(form, rules)
    }

    method RemoveAt(i: nat)
      requires i < |rules|
      modifies this
      ensures rules == old(rules[..i] + rules[i + 1..])
    {
      rules := rules[..i] + rules[i + 1..];
    }

    /** Delete in place every rule with the key; the index advances only past a
        rule that stays. */
    method RemoveAbbrBlock(key: string) returns (removed: nat)
      modifies this
      ensures File() == Removed(old(File()), key) && removed == RemovedCount(old(File()), key)
    {
      hide WithoutKey, CountKey;
      if !form.Tables? {
        return 0;
      }
      var before := |rules|;
      var i := 0;
      ghost var kept, pending: seq<Abbr> := [], rules;
      while i < |rules|
        invariant 0 <= i <= |rules|
        invariant rules == kept + pending && |kept| == i
        invariant WithoutKey(old(rules), key) == kept + WithoutKey(pending, key)
        invariant CountKey(old(rules), key) == before - |rules| + CountKey(pending, key)
        decreases |rules| - i
      {
        assert rules[i] == pending[0] && rules[..i] == kept && rules[i + 1..] == pending[1..];
        RemovalStep(kept, pending, key);
        if rules[i].key == key {
          RemoveAt(i);
        } else {
          kept := kept + [pending[0]];
          i := i + 1;
        }
        pending := pending[1..];
      }
      NothingToRemove(key);
      removed := before - |rules|;
    }
  }

  lemma {:induction false} WithoutKeyKeeps(rules: Config, key: string, rule: Abbr)
    ensures rule in WithoutKey(rules, key) <==> rule in rules && rule.key != key
    ensures |WithoutKey(rules, key)| + CountKey(rules, key) == |rules|
  {
    if rules != [] {
      WithoutKeyKeeps(rules[1..], key, rule);
      assert rule in rules <==> rule == rules[0] || rule in rules[1..];
    }
  }

  /** The key is gone exactly when the file holds tables or never had it. */
  lemma RemovalIsComplete(file: ConfigFile, key: string)
    ensures (forall rule <- Removed(file, key).rules :: rule.key != key) <==>
      file.form.Tables? || forall rule <- file.rules :: rule.key != key
    ensures |Removed(file, key).rules| + RemovedCount(file, key) == |file.rules|
  {
    hide WithoutKey, CountKey;
    forall rule ensures rule in WithoutKey(file.rules, key) <==> rule in file.rules && rule.key != key {
      WithoutKeyKeeps(file.rules, key, rule);
    }
    if file.rules == [] {
      NothingToRemove(key);
    } else {
      WithoutKeyKeeps(file.rules, key, file.rules[0]);
    }
  }

  /** Removing rules keeps a configuration loadable. */
  lemma RemovalKeepsValidity(re: RegexEngine, file: ConfigFile, key: string)
    requires Loads(re, Some(file))
    ensures Loads(re, Some(Removed(file, key)))
  {
    hide Validated, WithoutKey;
    FewerRulesStayValid(re, file.rules, key);
  }

  lemma FewerRulesStayValid(re: RegexEngine, rules: Config, key: string)
    requires Validated(re, rules)
    ensures Validated(re, WithoutKey(rules, key))
  {
    hide AllIssues, ValidRule, WithoutKey;
    ValidatedMeansValidRules(re, rules);
    var rest := WithoutKey(rules, key);
    ValidatedMeansValidRules(re, rest);
    forall i | 0 <= i < |rest| ensures ValidRule(re, rest[i]) {
      WithoutKeyKeeps(rules, key, rest[i]);
      assert rest[i] in rest;
      var k :| 0 <= k < |rules| && rules[k] == rest[i];
    }
    if rules != [] {
      WithoutKeyKeeps(rules, key, rules[0]);
    } else {
      NothingToRemove(key);
    }
  }

  lemma NothingToRemove(key: string)
    ensures WithoutKey([], key) == [] && CountKey([], key) == 0
  {
  }

  lemma {:induction false} RemoveLastRestores(
    rules: Config, key: string, expand: string, commands: Option<seq<string>>)
    requires forall i :: 0 <= i < |rules| ==> rules[i].key != key
    ensures WithoutKey(rules + [AddedRule(key, expand, commands)], key) == rules
    ensures CountKey(rules + [AddedRule(key, expand, commands)], key) == 1
  {
    var added := AddedRule(key, expand, commands);
    if rules == [] {
      assert rules + [added] == [added];
      assert [added][1..] == [];
    } else {
      assert (rules + [added])[1..] == rules[1..] + [added];
      RemoveLastRestores(rules[1..], key, expand, commands);
      assert rules == [rules[0]] + rules[1..];
    }
  }

  /** Where a key can be added, removing it right after restores the rules of a
      file that did not have it, and removes exactly one. */
  lemma RemoveAfterAddRestores(file: ConfigFile, key: string, expand: string, commands: Option<seq<string>>)
    requires !file.form.Inline? && forall i :: 0 <= i < |file.rules| ==> file.rules[i].key != key
    ensures var added := Appended(file, AddedRule(key, expand, commands));
      added.Some? && Removed(added.value, key).rules == file.rules && RemovedCount(added.value, key) == 1
  {
    hide WithoutKey, CountKey, AddedRule;
    RemoveLastRestores(file.rules, key, expand, commands);
  }
}
