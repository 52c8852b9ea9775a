/** The three tables of rules that are compiled into the bash dispatcher, and
    what bash reads back from them. */
module BakeTables {
  import opened Wrappers
  import opened Text
  import opened Model
  import opened Sanitize
  import opened Matching
  import opened Expand
  import opened BashText

  // ----- one quoted field -----

  function AssocPiece(c: char): string {
    if c == '"' then "\\\""
    else if c == '\\' then "\\\\"
    else if c == '$' then "\\$"
    else if c == '`' then "\\`"
    else if IsUnsafeForDisplay(c) then ""
    else [c]
  }

  function AssocBody(s: string): string {
    if s == "" then "" else AssocPiece(s[0]) + AssocBody(s[1..])
  }

  function AssocQuote(s: string): string {
    "\"" + AssocBody(s) + "\""
  }

  lemma AssocBodyStep(s: string, out: string, i: nat)
    requires i < |s|
    ensures out + AssocBody(s[i..]) == (out + AssocPiece(s[i])) + AssocBody(s[i + 1..])
  {
    hide AssocPiece;
    assert s[i..][1..] == s[i + 1..];
  }

  lemma NoBodyLeft(s: string)
    ensures AssocBody(s[|s|..]) == ""
  {
  }

  method BashDoubleQuoteForAssoc(s: string) returns (out: string)
    ensures out == AssocQuote(s)
  {
    hide AssocBody;
    out := "\"";
    for i := 0 to |s|
      invariant out + AssocBody(s[i..]) == "\"" + AssocBody(s)
    {
      var piece := match s[i]
        case '"' => "\\\""
        case '\\' => "\\\\"
        case '$' => "\\$"
        case '`' => "\\`"
        case c =>
          if IsAsciiControl(c) then "" else if IsUnicodeLineSeparator(c) then ""
          else if IsDeceptiveUnicode(c) then "" else [c];
      AssocBodyStep(s, out, i);
      out := out + piece;
    }
    NoBodyLeft(s);
    out := out + "\"";
  }

  /** The characters that survive quoting. */
  function Kept(s: string): string {
    if s == "" then "" else (if IsUnsafeForDisplay(s[0]) then "" else [s[0]]) + Kept(s[1..])
  }

  predicate HasDropped(s: string) {
    exists c <- s :: IsUnsafeForDisplay(c)
  }

  lemma {:induction false} KeptNoLonger(s: string)
    ensures |Kept(s)| <= |s|
  {
    if s != "" {
      KeptNoLonger(s[1..]);
    }
  }

  /** Quoting loses nothing exactly when no character is of a dropped kind. */
  lemma {:induction false} KeptIsAll(s: string)
    ensures Kept(s) == s <==> !HasDropped(s)
  {
    hide IsUnsafeForDisplay;
    if s != "" {
      KeptIsAll(s[1..]);
      KeptNoLonger(s[1..]);
      assert s == [s[0]] + s[1..];
    }
  }

  lemma {:induction false} KeptIsSafe(s: string)
    ensures forall c <- Kept(s) :: !IsUnsafeForDisplay(c)
  {
    hide IsUnsafeForDisplay;
    if s != "" {
      KeptIsSafe(s[1..]);
    }
  }

  lemma KeptHasNoSeparator(s: string)
    ensures US !in Kept(s) && '\n' !in Kept(s)
  {
    KeptIsSafe(s);
    assert IsUnsafeForDisplay(US) && IsUnsafeForDisplay('\n');
  }

  // ----- the rows -----

  datatype Table = ExactTable | PatternTable | GlobTable

  /** How many fields an entry of the table has. */
  function Width(t: Table): nat {
    if t.ExactTable? then 3 else 5
  }

  function BashConditions(rule: Abbr): Option<string> {
    var list :- Conditions(rule, Bash);
    Some(Join(list, ":"))
  }

  /** The parts of a glob key around its first `*`. */
  function HeadAndTail(key: string): (string, string) {
    match SplitOnce(key, '*')
    case None => (key, "")
    case Some(parts) => parts
  }

  /** The fields of a rule's entry in a table, if it has one. */
  function Row(t: Table, rule: Abbr): (row: Option<seq<string>>)
    ensures row.Some? ==> |row.value| == Width(t)
  {
    match t
    case ExactTable =>
      if '{' in rule.key || rule.matchKind.Some? then None
      else
        var template :- rule.expand.ForShell(Bash);
        var conds :- BashConditions(rule);
        Some([rule.key, template, conds])
    case PatternTable =>
      if rule.matchKind.Some? then None
      else
        var unit :- rule.number;
        var pos :- Find(rule.key, NUMBER_PLACEHOLDER);
        var template :- rule.expand.ForShell(Bash);
        var conds :- BashConditions(rule);
        Some([rule.key[..pos], rule.key[pos + |NUMBER_PLACEHOLDER|..], template, unit, conds])
    case GlobTable =>
      if rule.matchKind != Some(Glob) then None
      else
        var template :- rule.expand.ForShell(Bash);
        var (head, tail) := HeadAndTail(rule.key);
        var conds :- BashConditions(rule);
        Some([rule.key, head, tail, template, conds])
  }

  /** The entries of a table, in config order. */
  function Rows(t: Table, rules: Config): (rows: seq<seq<string>>)
    ensures forall row <- rows :: |row| == Width(t)
  {
    if rules == [] then []
    else (if Row(t, rules[0]).Some? then [Row(t, rules[0]).value] else []) + Rows(t, rules[1..])
  }

  // ----- the text of a table -----

  const SEP := "$'\\037'"
  const INDENT := "    "

  function Quoted(fields: seq<string>): (quoted: seq<string>)
    ensures |quoted| == |fields|
  {
    if fields == [] then [] else [AssocQuote(fields[0])] + Quoted(fields[1..])
  }

  function RowText(fields: seq<string>): string {
    INDENT + Join(Quoted(fields), SEP)
  }

  function RowTexts(rows: seq<seq<string>>): (lines: seq<string>)
    ensures |lines| == |rows|
  {
    if rows == [] then [] else [RowText(rows[0])] + RowTexts(rows[1..])
  }

  function TableText(t: Table, rules: Config): string {
    Join(RowTexts(Rows(t, rules)), "\n")
  }

  /** What stands between the parentheses of the array. */
  function Block(text: string): string {
    if text == "" then "" else "\n" + text + "\n"
  }

  /** The entries of the first rule that is left. */
  lemma RowsAt(t: Table, rules: Config, i: nat)
    requires i < |rules|
    ensures Rows(t, rules[i..]) ==
      (if Row(t, rules[i]).Some? then [Row(t, rules[i]).value] else []) + Rows(t, rules[i + 1..])
  {
    hide Row;
    assert rules[i..][1..] == rules[i + 1..];
  }

  lemma RowTextsCons(row: seq<string>, later: seq<seq<string>>)
    ensures RowTexts([row] + later) == [RowText(row)] + RowTexts(later)
  {
    hide RowText;
    assert ([row] + later)[1..] == later;
  }

  lemma RowTextsSnoc(t: Table, rules: Config, lines: seq<string>, i: nat)
    requires i < |rules|
    requires lines + RowTexts(Rows(t, rules[i..])) == RowTexts(Rows(t, rules))
    ensures match Row(t, rules[i])
      case None => lines + RowTexts(Rows(t, rules[i + 1..])) == RowTexts(Rows(t, rules))
      case Some(row) => (lines + [RowText(row)]) + RowTexts(Rows(t, rules[i + 1..])) == RowTexts(Rows(t, rules))
  {
    hide Row, Rows, RowText, RowTexts;
    RowsAt(t, rules, i);
    var later := Rows(t, rules[i + 1..]);
    match Row(t, rules[i])
    case None =>
      assert [] + later == later;
    case Some(row) =>
      RowTextsCons(row, later);
      assert lines + ([RowText(row)] + RowTexts(later)) == (lines + [RowText(row)]) + RowTexts(later);
  }

  lemma JoinQuotedCons(field: string, later: seq<string>)
    requires later != []
    ensures Join(Quoted([field] + later), SEP) == AssocQuote(field) + SEP + Join(Quoted(later), SEP)
  {
    hide AssocQuote;
    assert ([field] + later)[1..] == later;
    JoinCons(AssocQuote(field), Quoted(later), SEP);
  }

  /** The text of three fields, as the program formats it. */
  lemma QuotedThree(a: string, b: string, c: string)
    ensures Join(Quoted([a, b, c]), SEP) == AssocQuote(a) + SEP + (AssocQuote(b) + SEP + AssocQuote(c))
  {
    hide AssocQuote;
    assert Quoted([c]) == [AssocQuote(c)];
    hide Join, Quoted;
    assert [a, b, c] == [a] + ([b] + [c]);
    JoinQuotedCons(a, [b] + [c]);
    JoinQuotedCons(b, [c]);
  }

  lemma QuotedFive(a: string, b: string, c: string, d: string, e: string)
    ensures Join(Quoted([a, b, c, d, e]), SEP) ==
      AssocQuote(a) + SEP + (AssocQuote(b) + SEP + (AssocQuote(c) + SEP + (AssocQuote(d) + SEP + AssocQuote(e))))
  {
    hide AssocQuote, Join, Quoted;
    assert [a, b, c, d, e] == [a] + ([b] + [c, d, e]);
    JoinQuotedCons(a, [b] + [c, d, e]);
    JoinQuotedCons(b, [c, d, e]);
    QuotedThree(c, d, e);
  }

  method ExactTableLines(rules: Config) returns (text: string)
    ensures text == TableText(ExactTable, rules)
  {
    hide Join, Quoted, RowTexts, Rows, AssocQuote, BashConditions;
    var lines: seq<string> := [];
    assert rules[0..] == rules;
    for i := 0 to |rules|
      invariant lines + RowTexts(Rows(ExactTable, rules[i..])) == RowTexts(Rows(ExactTable, rules))
    {
      RowTextsSnoc(ExactTable, rules, lines, i);
      var rule := rules[i];
      if '{' in rule.key || rule.matchKind.Some? {
        continue;
      }
      var template := rule.expand.ForShell(Bash);
      if template.None? {
        continue;
      }
      var conds := BashConditions(rule);
      if conds.None? {
        continue;
      }
      QuotedThree(rule.key, template.value, conds.value);
      var key := BashDoubleQuoteForAssoc(rule.key);
      var quotedTemplate := BashDoubleQuoteForAssoc(template.value);
      var quotedConds := BashDoubleQuoteForAssoc(conds.value);
      lines := lines + [INDENT + (key + SEP + (quotedTemplate + SEP + quotedConds))];
    }
    NoRowsLeft(ExactTable, rules, lines);
    text := Join(lines, "\n");
  }

  lemma NoRowsLeft(t: Table, rules: Config, lines: seq<string>)
    ensures lines + RowTexts(Rows(t, rules[|rules|..])) == lines
  {
  }

  method PatternTableLines(rules: Config) returns (text: string)
    ensures text == TableText(PatternTable, rules)
  {
    hide Join, Quoted, RowTexts, Rows, AssocQuote, BashConditions, Find;
    var lines: seq<string> := [];
    assert rules[0..] == rules;
    for i := 0 to |rules|
      invariant lines + RowTexts(Rows(PatternTable, rules[i..])) == RowTexts(Rows(PatternTable, rules))
    {
      RowTextsSnoc(PatternTable, rules, lines, i);
      var rule := rules[i];
      if rule.matchKind.Some? || rule.number.None? {
        continue;
      }
      var unit := rule.number.value;
      var pos := Find(rule.key, NUMBER_PLACEHOLDER);
      if pos.None? {
        continue;
      }
      var template := rule.expand.ForShell(Bash);
      if template.None? {
        continue;
      }
      var conds := BashConditions(rule);
      if conds.None? {
        continue;
      }
      var prefix, suffix := rule.key[..pos.value], rule.key[pos.value + |NUMBER_PLACEHOLDER|..];
      QuotedFive(prefix, suffix, template.value, unit, conds.value);
      var quotedPrefix := BashDoubleQuoteForAssoc(prefix);
      var quotedSuffix := BashDoubleQuoteForAssoc(suffix);
      var quotedTemplate := BashDoubleQuoteForAssoc(template.value);
      var quotedUnit := BashDoubleQuoteForAssoc(unit);
      var quotedConds := BashDoubleQuoteForAssoc(conds.value);
      lines := lines + [INDENT
        + (quotedPrefix + SEP + (quotedSuffix + SEP + (quotedTemplate + SEP + (quotedUnit + SEP + quotedConds))))];
    }
    NoRowsLeft(PatternTable, rules, lines);
    text := Join(lines, "\n");
  }

  method GlobTableLines(rules: Config) returns (text: string)
    ensures text == TableText(GlobTable, rules)
  {
    hide Join, Quoted, RowTexts, Rows, AssocQuote, BashConditions, SplitOnce;
    var lines: seq<string> := [];
    assert rules[0..] == rules;
    for i := 0 to |rules|
      invariant lines + RowTexts(Rows(GlobTable, rules[i..])) == RowTexts(Rows(GlobTable, rules))
    {
      RowTextsSnoc(GlobTable, rules, lines, i);
      var rule := rules[i];
      if rule.matchKind != Some(Glob) {
        continue;
      }
      var template := rule.expand.ForShell(Bash);
      if template.None? {
        continue;
      }
      var (head, tail) := HeadAndTail(rule.key);
      var conds := BashConditions(rule);
      if conds.None? {
        continue;
      }
      QuotedFive(rule.key, head, tail, template.value, conds.value);
      var pattern := BashDoubleQuoteForAssoc(rule.key);
      var quotedHead := BashDoubleQuoteForAssoc(head);
      var quotedTail := BashDoubleQuoteForAssoc(tail);
      var quotedTemplate := BashDoubleQuoteForAssoc(template.value);
      var quotedConds := BashDoubleQuoteForAssoc(conds.value);
      lines := lines + [INDENT
        + (pattern + SEP + (quotedHead + SEP + (quotedTail + SEP + (quotedTemplate + SEP + quotedConds))))];
    }
    NoRowsLeft(GlobTable, rules, lines);
    text := Join(lines, "\n");
  }

  // ----- how bash reads the words of an array -----

  datatype Mode = Between | Word | DoubleQuote | AnsiQuote

  predicate IsBlankChar(c: char) {
    c == ' ' || c == '\t' || c == '\n'
  }

  /** The characters a backslash escapes inside double quotes. */
  predicate IsEscapable(c: char) {
    c == '"' || c == '\\' || c == '$' || c == '`'
  }

  predicate IsOctal(c: char) {
    '0' <= c <= '7'
  }

  function OctalValue(digits: string): (n: nat)
    requires |digits| == 3 && forall c <- digits :: IsOctal(c)
  {
    assert IsOctal(digits[0]) && IsOctal(digits[1]) && IsOctal(digits[2]);
    64 * (digits[0] as int - '0' as int) + 8 * (digits[1] as int - '0' as int) + (digits[2] as int - '0' as int)
  }

  /** One step of the reader: what is left of the text, the new mode, and the
      word so far; or none for text that is not a plain word. */
  function ReadStep(text: string, mode: Mode, word: string): (r: Option<(string, Mode, string)>)
    requires text != "" && mode != Between
    ensures r.Some? ==> |r.value.0| < |text|
  {
    var c, rest := text[0], text[1..];
    if mode.DoubleQuote? then
      if c == '"' then Some((rest, Word, word))
      else if c == '\\' && rest != "" && IsEscapable(rest[0]) then Some((rest[1..], DoubleQuote, word + [rest[0]]))
      else if c == '$' || c == '`' then None
      else Some((rest, DoubleQuote, word + [c]))
    else if mode.AnsiQuote? then
      if c == '\'' then Some((rest, Word, word))
      else if c != '\\' then Some((rest, AnsiQuote, word + [c]))
      else if |rest| < 3 || (exists d <- rest[..3] :: !IsOctal(d)) || OctalValue(rest[..3]) >= 0x80 then None
      else Some((rest[3..], AnsiQuote, word + [OctalValue(rest[..3]) as char]))
    else
      if c == '"' then Some((rest, DoubleQuote, word))
      else if c == '$' && rest != "" && rest[0] == '\'' then Some((rest[1..], AnsiQuote, word))
      else if IsDigit(c) || 'a' <= c <= 'z' || 'A' <= c <= 'Z' then Some((rest, Word, word + [c]))
      else None
  }

  /** The words of `text`, quotes removed; none if a quotation does not end or
      the text asks for more than quote removal. */
  function ReadWords(text: string, mode: Mode, word: string): Option<seq<string>>
    decreases |text|, if mode.Between? then 1 else 0
  {
    if mode.Between? then
      if text == "" then Some([])
      else if IsBlankChar(text[0]) then ReadWords(text[1..], Between, "")
      else ReadWords(text, Word, "")
    else if text == "" then
      if mode.Word? then Some([word]) else None
    else if mode.Word? && IsBlankChar(text[0]) then
      var later :- ReadWords(text[1..], Between, "");
      Some([word] + later)
    else
      var step :- ReadStep(text, mode, word);
      ReadWords(step.0, step.1, step.2)
  }

  // ----- the tables read back -----

  lemma AssocPieceReads(c: char, rest: string, word: string)
    ensures ReadWords(AssocPiece(c) + rest, DoubleQuote, word) ==
      ReadWords(rest, DoubleQuote, word + if IsUnsafeForDisplay(c) then "" else [c])
  {
    var text := AssocPiece(c) + rest;
    assert IsEscapable(c) ==> !IsUnsafeForDisplay(c);
    hide IsUnsafeForDisplay;
    if IsEscapable(c) {
      assert text[0] == '\\' && text[1..][0] == c && text[1..][1..] == rest;
    } else if IsUnsafeForDisplay(c) {
      assert text == rest && word + "" == word;
    } else {
      assert text[0] == c && text[1..] == rest;
    }
  }

  lemma {:induction false} AssocBodyReads(s: string, rest: string, word: string)
    ensures ReadWords(AssocBody(s) + rest, DoubleQuote, word) == ReadWords(rest, DoubleQuote, word + Kept(s))
  {
    hide ReadWords, AssocPiece, IsUnsafeForDisplay;
    if s == "" {
      assert "" + rest == rest && word + "" == word;
    } else {
      var first := if IsUnsafeForDisplay(s[0]) then "" else [s[0]];
      var later := AssocBody(s[1..]) + rest;
      assert AssocBody(s) + rest == AssocPiece(s[0]) + later;
      AssocPieceReads(s[0], later, word);
      AssocBodyReads(s[1..], rest, word + first);
      assert (word + first) + Kept(s[1..]) == word + Kept(s);
    }
  }

  /** A quoted field adds its kept characters to the word. */
  lemma AssocQuoteReads(s: string, rest: string, word: string)
    ensures ReadWords(AssocQuote(s) + rest, Word, word) == ReadWords(rest, Word, word + Kept(s))
  {
    var body, close := AssocBody(s), "\"" + rest;
    var text := AssocQuote(s) + rest;
    assert text[0] == '"' && text[1..] == body + close;
    assert ReadWords(text, Word, word) == ReadWords(body + close, DoubleQuote, word);
    AssocBodyReads(s, close, word);
    assert close[0] == '"' && close[1..] == rest;
  }

  lemma SeparatorReads(rest: string, word: string)
    ensures ReadWords(SEP + rest, Word, word) == ReadWords(rest, Word, word + [US])
  {
    var text := SEP + rest;
    var ansi, close := "\\037'" + rest, "'" + rest;
    assert text[0] == '$' && text[1..][0] == '\'' && text[1..][1..] == ansi;
    assert ReadWords(text, Word, word) == ReadWords(ansi, AnsiQuote, word);
    assert ansi[0] == '\\' && ansi[1..][..3] == "037" && ansi[1..][3..] == close;
    assert OctalValue("037") == 0x1F;
    assert ReadWords(ansi, AnsiQuote, word) == ReadWords(close, AnsiQuote, word + [US]);
    assert close[0] == '\'' && close[1..] == rest;
  }

  function KeptAll(fields: seq<string>): (kept: seq<string>)
    ensures |kept| == |fields|
  {
    if fields == [] then [] else [Kept(fields[0])] + KeptAll(fields[1..])
  }

  /** The array element that a row becomes. */
  function EntryOf(fields: seq<string>): string {
    Join(KeptAll(fields), [US])
  }

  lemma {:induction false} QuotedFieldsRead(fields: seq<string>, rest: string, word: string)
    requires fields != []
    ensures ReadWords(Join(Quoted(fields), SEP) + rest, Word, word) == ReadWords(rest, Word, word + EntryOf(fields))
  {
    hide ReadWords, AssocQuote, Kept;
    var first, later := fields[0], fields[1..];
    if later == [] {
      AssocQuoteReads(first, rest, word);
      assert Quoted(fields) == [AssocQuote(first)] && KeptAll(fields) == [Kept(first)];
    } else {
      var tail := Join(Quoted(later), SEP) + rest;
      JoinCons(AssocQuote(first), Quoted(later), SEP);
      JoinCons(Kept(first), KeptAll(later), [US]);
      assert Join(Quoted(fields), SEP) + rest == AssocQuote(first) + (SEP + tail);
      AssocQuoteReads(first, SEP + tail, word);
      SeparatorReads(tail, word + Kept(first));
      QuotedFieldsRead(later, rest, word + Kept(first) + [US]);
      assert word + Kept(first) + [US] + EntryOf(later) == word + EntryOf(fields);
    }
  }

  lemma SpaceReads(rest: string)
    ensures ReadWords(" " + rest, Between, "") == ReadWords(rest, Between, "")
  {
    assert (" " + rest)[0] == ' ' && (" " + rest)[1..] == rest;
  }

  lemma IndentReads(rest: string)
    ensures ReadWords(INDENT + rest, Between, "") == ReadWords(rest, Between, "")
  {
    hide ReadWords;
    SpaceReads(rest);
    SpaceReads(" " + rest);
    SpaceReads(" " + (" " + rest));
    SpaceReads(" " + (" " + (" " + rest)));
    assert INDENT + rest == " " + (" " + (" " + (" " + rest)));
  }

  lemma QuotedFieldsStart(fields: seq<string>)
    requires fields != []
    ensures var text := Join(Quoted(fields), SEP); text != "" && text[0] == '"'
  {
    assert Quoted(fields)[0] == AssocQuote(fields[0]);
  }

  /** A line of a table is one word. */
  lemma {:induction false} RowTextReads(fields: seq<string>, rest: string)
    requires fields != []
    ensures var later := ReadWords(rest, Between, "");
      ReadWords(RowText(fields) + ("\n" + rest), Between, "") ==
        if later.Some? then Some([EntryOf(fields)] + later.value) else None
  {
    hide Join, Quoted, EntryOf;
    var quoted, end := Join(Quoted(fields), SEP), "\n" + rest;
    assert RowText(fields) + end == INDENT + (quoted + end);
    IndentReads(quoted + end);
    QuotedFieldsStart(fields);
    assert (quoted + end)[0] == '"';
    assert ReadWords(quoted + end, Between, "") == ReadWords(quoted + end, Word, "");
    QuotedFieldsRead(fields, end, "");
    assert "" + EntryOf(fields) == EntryOf(fields);
    assert end[0] == '\n' && end[1..] == rest;
  }

  function EntriesOf(rows: seq<seq<string>>): seq<string> {
    if rows == [] then [] else [EntryOf(rows[0])] + EntriesOf(rows[1..])
  }

  /** The text of a table from its first line on. */
  lemma TableTextCons(first: seq<string>, later: seq<seq<string>>)
    requires later != []
    ensures Join(RowTexts([first] + later), "\n") + "\n" ==
      RowText(first) + ("\n" + (Join(RowTexts(later), "\n") + "\n"))
  {
    hide Join, RowText;
    RowTextsCons(first, later);
    JoinCons(RowText(first), RowTexts(later), "\n");
  }

  lemma {:induction false} RowTextsRead(rows: seq<seq<string>>)
    requires rows != [] && forall row <- rows :: row != []
    ensures ReadWords(Join(RowTexts(rows), "\n") + "\n", Between, "") == Some(EntriesOf(rows))
  {
    assert ReadWords("", Between, "") == Some([]);
    hide ReadWords, RowText, EntryOf;
    var first, later := rows[0], rows[1..];
    assert first in rows && rows == [first] + later;
    if later == [] {
      RowTextReads(first, "");
      assert "\n" + "" == "\n" && RowTexts(rows) == [RowText(first)];
    } else {
      hide Join, RowTexts;
      assert forall row <- later :: row in rows;
      TableTextCons(first, later);
      RowTextReads(first, Join(RowTexts(later), "\n") + "\n");
      RowTextsRead(later);
    }
  }

  lemma NewlineReads(rest: string)
    ensures ReadWords("\n" + rest, Between, "") == ReadWords(rest, Between, "")
  {
    assert ("\n" + rest)[0] == '\n' && ("\n" + rest)[1..] == rest;
  }

  lemma NoRowsNoText()
    ensures Join(RowTexts([]), "\n") == "" && EntriesOf([]) == []
    ensures ReadWords("", Between, "") == Some([])
  {
    assert |RowTexts([])| == 0;
  }

  /** For every configuration, bash reads each table back as one element per
      row, in order. */
  lemma {:induction false} TableReadsBack(t: Table, rules: Config)
    ensures ReadWords(Block(TableText(t, rules)), Between, "") == Some(EntriesOf(Rows(t, rules)))
  {
    hide ReadWords, RowTexts, Rows, Join, EntriesOf;
    var rows, text := Rows(t, rules), TableText(t, rules);
    if rows == [] {
      NoRowsNoText();
    } else {
      RowTextsRead(rows);
      TableTextNotEmpty(rows);
      NewlineReads(text + "\n");
      assert Block(text) == "\n" + (text + "\n");
    }
  }

  lemma TableTextNotEmpty(rows: seq<seq<string>>)
    requires rows != []
    ensures Join(RowTexts(rows), "\n") != ""
  {
    assert RowTexts(rows)[0] == RowText(rows[0]);
    assert |RowText(rows[0])| >= 4;
  }

  /** And `read` splits each element into the row's fields, less the dropped
      characters: no field can contain a separator or a newline. */
  lemma EntryReadsBack(fields: seq<string>)
    requires fields != []
    ensures ReadFields(EntryOf(fields), |fields|) == KeptAll(fields)
  {
    hide ReadFields, Join;
    KeptAllHaveNoSeparator(fields);
    FieldsReadBack(KeptAll(fields));
  }

  lemma {:induction false} KeptAllHaveNoSeparator(fields: seq<string>)
    ensures forall f <- KeptAll(fields) :: US !in f && '\n' !in f
  {
    hide Kept;
    if fields != [] {
      KeptHasNoSeparator(fields[0]);
      KeptAllHaveNoSeparator(fields[1..]);
    }
  }

  /** The fields are unchanged exactly when none has a dropped character. */
  lemma {:induction false} KeptAllIsAll(fields: seq<string>)
    ensures KeptAll(fields) == fields <==> forall f <- fields :: !HasDropped(f)
  {
    hide Kept, HasDropped;
    if fields != [] {
      var first, later := fields[0], fields[1..];
      KeptIsAll(first);
      KeptAllIsAll(later);
      assert fields == [first] + later;
    }
  }
}
