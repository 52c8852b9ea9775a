/** The per-keystroke hook: find the token at the cursor, and expand it if it
    stands in command position. */
module Hook {
  import opened Wrappers
  import opened Text
  import opened Model
  import opened Matching
  import opened Expand

  /** `cursor` is a byte offset into `line`. */
  datatype HookAction =
    | Replace(line: string, cursor: nat)
    | InsertSpace(line: string, cursor: nat)

  /** The index of the last `c` in `s`. */
  function LastIndexOf(s: string, c: char): (r: Option<nat>)
    ensures r.Some? ==> r.value < |s| && s[r.value] == c
  {
    if s == "" then None
    else if s[|s| - 1] == c then Some(|s| - 1)
    else LastIndexOf(s[..|s| - 1], c)
  }

  lemma {:induction false} LastIndexOfIsLast(s: string, c: char)
    ensures match LastIndexOf(s, c)
      case None => c !in s
      case Some(i) => c !in s[i + 1..]
  {
    if s != "" && s[|s| - 1] != c {
      var init := s[..|s| - 1];
      LastIndexOfIsLast(init, c);
      assert s == init + [s[|s| - 1]];
      match LastIndexOf(s, c)
      case None =>
      case Some(i) => assert s[i + 1..] == init[i + 1..] + [s[|s| - 1]];
    }
  }

  /** Where the last space-delimited token of `left` starts. */
  function TokenStartOf(left: string): (r: Option<nat>)
    ensures r.Some? ==> r.value <= |left|
  {
    if left == "" then None
    else
      match LastIndexOf(left, ' ')
      case None => Some(0)
      case Some(i) => Some(i + 1)
  }

  // ----- command position -----

  function TrimTrailingSpaces(s: string): string {
    if s != "" && s[|s| - 1] == ' ' then TrimTrailingSpaces(s[..|s| - 1]) else s
  }

  predicate EndsWithPipelineOperator(s: string) {
    EndsWith(s, "&&") || EndsWith(s, "||") || EndsWith(s, "|") || EndsWith(s, ";")
  }

  /** The text before a final word `sudo`. */
  function StripTrailingSudo(prefix: string): Option<string> {
    var start := match LastIndexOf(prefix, ' ') case None => 0 case Some(i) => i + 1;
    if prefix[start..] == "sudo" then Some(prefix[..start]) else None
  }

  predicate IsCommandPosition(prefix: string) {
    var trimmed := TrimTrailingSpaces(prefix);
    if trimmed == "" then true
    else if EndsWithPipelineOperator(trimmed) then true
    else
      match StripTrailingSudo(trimmed)
      case None => false
      case Some(beforeSudo) =>
        var before := TrimTrailingSpaces(beforeSudo);
        if before == "" then true else EndsWithPipelineOperator(before)
  }

  // ----- the hook -----

  function InsertSpaceAt(line: string, i: nat): HookAction
    requires i <= |line|
  {
    InsertSpace(line[..i] + " " + line[i..], ByteLen(line[..i]) + 1)
  }

  /** The token the hook considers expanding, if any: it ends at the cursor,
      before a space or the end of the line, and stands in command position. */
  function Candidate(line: string, i: nat): (start: Option<nat>)
    requires i <= |line|
    ensures start.Some? ==> start.value < i
  {
    if i < |line| && line[i] != ' ' then None
    else
      var start :- TokenStartOf(line[..i]);
      if start == i || !IsCommandPosition(line[..start]) then None else Some(start)
  }

  /** The line and cursor after an expansion replaces `line[start..i]`. Without
      a placeholder the trigger space is typed after the text. */
  function ReplaceToken(line: string, start: nat, i: nat, text: string, offset: Option<nat>): HookAction
    requires start <= i <= |line|
  {
    var prefix := line[..start];
    match offset
    case Some(off) => Replace(prefix + text + line[i..], ByteLen(prefix) + off)
    case None => Replace(prefix + text + " " + line[i..], ByteLen(prefix) + ByteLen(text) + 1)
  }

  /** The hook at character index `i`. */
  function HookAt(
    re: RegexEngine, rules: Config, shell: Shell, line: string, i: nat, commandExists: string -> bool): HookAction
    requires i <= |line|
  {
    match Candidate(line, i)
    case None => InsertSpaceAt(line, i)
    case Some(start) =>
      match Lookup(re, rules, line[start..i], shell, commandExists).Expansion()
      case Expanded(text, offset) => ReplaceToken(line, start, i, text, offset)
      case PassThrough(_) => InsertSpaceAt(line, i)
  }

  function ClampByte(line: string, cursor: nat): nat {
    if cursor <= ByteLen(line) then cursor else ByteLen(line)
  }

  predicate IsKnownToken(re: RegexEngine, rules: Config, token: string) {
    exists rule <- rules :: MatchRule(re, rule, token).Some?
  }

  /** The clamped cursor as an index: that of the character it stands before, or
      the end of the line for every cursor beyond it. */
  lemma ClampedIndex(line: string, cursor: nat)
    requires IsBoundary(line, ClampByte(line, cursor))
    ensures forall i :: 0 <= i < |line| && cursor == ByteLen(line[..i]) ==>
      CharIndexAt(line, ClampByte(line, cursor)) == i
    ensures cursor >= ByteLen(line) ==> CharIndexAt(line, ClampByte(line, cursor)) == |line|
  {
    hide IsBoundary, CharIndexAt, ByteLen;
    assert line[..|line|] == line;
    forall i | 0 <= i <= |line|
      ensures IsBoundary(line, ByteLen(line[..i])) && CharIndexAt(line, ByteLen(line[..i])) == i
      ensures ByteLen(line[..i]) <= ByteLen(line)
    {
      BoundaryAfter(line[..i], line[i..]);
      assert line[..i] + line[i..] == line;
    }
  }

  /** The hook as the program runs it, on a byte cursor, with its check for
      known tokens before the lookup. Slicing needs a character boundary. */
  method RunHook(
    re: RegexEngine, rules: Config, shell: Shell, line: string, cursor: nat, commandExists: string -> bool)
    returns (action: HookAction)
    requires IsBoundary(line, ClampByte(line, cursor))
    ensures action == HookAt(re, rules, shell, line, CharIndexAt(line, ClampByte(line, cursor)), commandExists)
  {
    hide CharIndexAt, EndsWithPipelineOperator;
    hide IsCommandPosition, TokenStartOf, IsBoundary, ByteLen;
    var clamped := ClampByte(line, cursor);
    var i := CharIndexAt(line, clamped);
    CharIndexAtInverse(line, clamped);
    if i < |line| && line[i] != ' ' {
      return InsertSpaceAt(line, i);
    }
    var tokenStart := TokenStartOf(line[..i]);
    if tokenStart.None? || tokenStart.value == i {
      return InsertSpaceAt(line, i);
    }
    var start := tokenStart.value;
    var token, prefix := line[start..i], line[..start];
    if !IsCommandPosition(prefix) {
      return InsertSpaceAt(line, i);
    }
    if !IsKnownToken(re, rules, token) {
      UnknownTokenPassesThrough(Lookup(re, rules, token, shell, commandExists));
      return InsertSpaceAt(line, i);
    }
    var q := Lookup(re, rules, token, shell, commandExists);
    var result := q.Expand();
    match result {
      case Expanded(text, offset) =>
        var newLine := prefix + text;
        var (cursorAfterExpand, suppressTriggerSpace) := match offset
          case Some(off) => (ByteLen(prefix) + off, true)
          case None => (ByteLen(prefix) + ByteLen(text), false);
        if !suppressTriggerSpace {
          newLine := newLine + " ";
        }
        newLine := newLine + line[i..];
        action := Replace(newLine, if suppressTriggerSpace then cursorAfterExpand else cursorAfterExpand + 1);
      case PassThrough(_) =>
        action := InsertSpaceAt(line, i);
    }
  }

  /** No rule matches an unknown token, so the lookup passes it through. */
  lemma UnknownTokenPassesThrough(q: Lookup)
    requires !IsKnownToken(q.re, q.rules, q.token)
    ensures q.Expansion() == PassThrough(q.token)
  {
    q.WinnerIsLeast();
    if q.Winner().Some? {
      var w := q.Winner().value;
      q.OnlyMatchesFire(w.rule);
    }
  }

  // ----- what the hook leaves alone -----

  /** The result is the text before some index, an insertion, and everything
      from the cursor on, unchanged. The new cursor is a character boundary at
      or before the end of the insertion, and exactly there unless an expansion
      asked for another place. */
  lemma HookKeepsItsFrame(
    re: RegexEngine, rules: Config, shell: Shell, line: string, i: nat, commandExists: string -> bool)
    returns (kept: nat, inserted: string)
    requires i <= |line|
    ensures kept <= i
    ensures var action := HookAt(re, rules, shell, line, i, commandExists);
      && action.line == line[..kept] + inserted + line[i..]
      && IsBoundary(action.line, action.cursor)
      && action.cursor <= ByteLen(line[..kept] + inserted)
      && (action.InsertSpace? ==>
            kept == i && inserted == " " && action.cursor == ByteLen(line[..kept] + inserted))
      && (action.Replace? ==>
            var expansion := Lookup(re, rules, line[kept..i], shell, commandExists).Expansion();
            && kept < i && ' ' !in line[kept..i] && IsCommandPosition(line[..kept]) && expansion.Expanded?
            && inserted == (if expansion.cursorOffset.Some? then expansion.text else expansion.text + " ")
            && (expansion.cursorOffset.None? ==> action.cursor == ByteLen(line[..kept] + inserted)))
  {
    hide IsCommandPosition, ByteLen, IsBoundary, Lookup.Expansion;
    var right := line[i..];
    var candidate := Candidate(line, i);
    kept, inserted := i, " ";
    ByteLenConcat(line[..i], " ");
    OneSpace();
    BoundaryAfter(line[..i] + " ", right);
    if candidate.Some? {
      var start := candidate.value;
      var q := Lookup(re, rules, line[start..i], shell, commandExists);
      match q.Expansion()
      case PassThrough(_) =>
      case Expanded(text, offset) =>
        TokenHasNoSpace(line, i);
        ExpansionOffset(q, text, offset);
        var prefix := line[..start];
        kept := start;
        ByteLenConcat(prefix, text);
        match offset
        case Some(off) =>
          inserted := text;
          BoundaryInside(prefix, text, right, off);
        case None =>
          inserted := text + " ";
          ByteLenConcat(text, " ");
          ByteLenConcat(prefix, inserted);
          assert prefix + text + " " + right == prefix + inserted + right;
          BoundaryAfter(prefix + inserted, right);
    }
  }

  lemma OneSpace()
    ensures ByteLen(" ") == 1
  {
    assert " "[1..] == "";
  }

  lemma TokenHasNoSpace(line: string, i: nat)
    requires i <= |line| && Candidate(line, i).Some?
    ensures ' ' !in line[Candidate(line, i).value..i]
    ensures IsCommandPosition(line[..Candidate(line, i).value])
  {
    hide IsCommandPosition;
    var left := line[..i];
    LastIndexOfIsLast(left, ' ');
    var start := Candidate(line, i).value;
    assert left[start..] == line[start..i];
    assert left[..start] == line[..start];
  }

  /** The cursor offset of an expansion is a boundary of its text. */
  lemma ExpansionOffset(q: Lookup, text: string, offset: Option<nat>)
    requires q.Expansion() == Expanded(text, offset)
    ensures offset.Some? ==> IsBoundary(text, offset.value) && offset.value <= ByteLen(text)
  {
    hide IsBoundary, ByteLen, TryExpandRule, MatchRule;
    q.WinnerIsLeast();
    var rule := q.Winner().value.rule;
    assert q.Firing(rule) == Some(Expanded(text, offset));
    var b := MatchRule(q.re, rule, q.token).value;
    FiredExpansionIsSound(rule, q.token, q.shell, q.commandExists, b, Expanded(text, offset));
  }

  lemma BoundaryInside(prefix: string, text: string, right: string, off: nat)
    requires IsBoundary(text, off) && off <= ByteLen(text)
    ensures IsBoundary(prefix + text + right, ByteLen(prefix) + off)
    ensures ByteLen(prefix) + off <= ByteLen(prefix + text)
  {
    hide IsBoundary, ByteLen;
    ByteLenConcat(prefix, text);
    var k := CharIndexAt(text, off);
    CharIndexAtInverse(text, off);
    ByteLenConcat(prefix, text[..k]);
    BoundaryAfter(prefix + text[..k], text[k..] + right);
    assert (prefix + text[..k]) + (text[k..] + right) == prefix + text + right;
  }
}
