/** The reply a shell evaluates, from the shell's own cursor back to it. */
module Reply {
  import opened Wrappers
  import opened Text
  import opened Model
  import opened Cursor
  import opened Hook
  import opened Quoting
  import opened Json

  /** The text a shell evaluates, for an action whose byte cursor is a character
      boundary of its line. */
  function Render(shell: Shell, action: HookAction): string
    requires IsBoundary(action.line, action.cursor)
  {
    var line, cursor := action.line, ByteToShellCursor(shell, action.line, action.cursor);
    match shell
    case Bash => BashText(line, cursor)
    case Zsh =>
      var i := CharIndexAt(line, cursor);
      ZshText(line[..i], line[i..])
    case Pwsh => PwshText(line, cursor)
    case Clink => ClinkText(line, cursor)
    case Nu => NuText(line, cursor)
  }

  function BashText(line: string, cursor: nat): string {
    "READLINE_LINE=" + (BashLiteral(line) + ("; READLINE_POINT=" + Decimal(cursor)))
  }

  function ZshText(left: string, right: string): string {
    "LBUFFER=" + (BashLiteral(left) + ("; RBUFFER=" + BashLiteral(right)))
  }

  function PwshText(line: string, cursor: nat): string {
    "$__RUNEX_LINE = " + (PwshLiteral(line) + ("\n$__RUNEX_CURSOR = " + Decimal(cursor)))
  }

  function ClinkText(line: string, cursor: nat): string {
    "return { line = " + (LuaLiteral(line) + (", cursor = " + (Decimal(cursor) + " }")))
  }

  function NuText(line: string, cursor: nat): string {
    "{\"line\": " + (JsonString(line) + (", \"cursor\": " + (Decimal(cursor) + "}")))
  }

  /** Insert a space at a byte cursor, as every early exit does. */
  method InsertSpaceAction(line: string, byteCursor: nat) returns (action: HookAction)
    requires IsBoundary(line, ClampByte(line, byteCursor))
    ensures action == InsertSpaceAt(line, CharIndexAt(line, ClampByte(line, byteCursor)))
  {
    var cursor := ClampByte(line, byteCursor);
    var i := CharIndexAt(line, cursor);
    CharIndexAtInverse(line, cursor);
    var s := "";
    s := s + line[..i];
    s := s + " ";
    s := s + line[i..];
    action := InsertSpace(s, cursor + 1);
  }

  /** Text length in the shell's cursor unit. */
  function ShellLen(shell: Shell, s: string): nat {
    if shell == Pwsh then UnitLen(s) else |s|
  }

  // ----- what a shell makes of the text -----

  /** A buffer with its cursor. Lua holds the line as bytes. */
  datatype Buffer = Chars(line: string, cursor: nat) | Bytes(bytes: seq<Byte>, cursor: nat)

  /** The text is a number and nothing else. */
  function OnlyNumber(text: string): Option<nat> {
    var (n, rest) :- ReadNumber(text);
    if rest == "" then Some(n) else None
  }

  /** What follows an opening quote. */
  function AfterQuote(text: string): Option<string> {
    Expect(text, "\"")
  }

  /** The buffer a shell ends up with, if the text is of the form it expects. */
  function Evaluate(shell: Shell, text: string): Option<Buffer> {
    match shell
    case Bash =>
      var word :- Expect(text, "READLINE_LINE=");
      var (line, more) :- ReadWord(word, Bare, false);
      var number :- Expect(more, "; READLINE_POINT=");
      var cursor :- OnlyNumber(number);
      Some(Chars(line, cursor))
    case Zsh =>
      var word :- Expect(text, "LBUFFER=");
      var (left, more) :- ReadWord(word, Bare, true);
      var second :- Expect(more, "; RBUFFER=");
      var (right, rest) :- ReadWord(second, Bare, true);
      if rest == "" then Some(Chars(left + right, |left|)) else None
    case Pwsh =>
      var quoted :- Expect(text, "$__RUNEX_LINE = ");
      var literal :- AfterQuote(quoted);
      var (line, more) :- ReadPwsh(literal);
      var number :- Expect(more, "\n$__RUNEX_CURSOR = ");
      var cursor :- OnlyNumber(number);
      Some(Chars(line, cursor))
    case Clink =>
      var quoted :- Expect(text, "return { line = ");
      var literal :- AfterQuote(quoted);
      var (bytes, more) :- ReadLua(literal);
      var number :- Expect(more, ", cursor = ");
      var (cursor, close) :- ReadNumber(number);
      if close == " }" then Some(Bytes(bytes, cursor)) else None
    case Nu =>
      var quoted :- Expect(text, "{\"line\": ");
      var literal :- AfterQuote(quoted);
      var (line, more) :- ReadJson(literal);
      var number :- Expect(more, ", \"cursor\": ");
      var (cursor, close) :- ReadNumber(number);
      if close == "}" then Some(Chars(line, cursor)) else None
  }

  /** After evaluating the text the shell's buffer is `line`, with the cursor
      after its first `cursor` units. */
  predicate Shows(shell: Shell, text: string, line: string, cursor: nat) {
    Evaluate(shell, text) == Some(if shell == Clink then Bytes(Utf8(line), cursor) else Chars(line, cursor))
  }

  /** NUL is the one character a bash variable cannot hold. */
  predicate Carries(shell: Shell, line: string) {
    shell == Bash ==> '\0' !in line
  }

  lemma NumberAlone(n: nat)
    ensures OnlyNumber(Decimal(n)) == Some(n)
  {
    DecimalReadsBack(n, "");
    assert Decimal(n) + "" == Decimal(n);
  }

  lemma Quoted(text: string)
    requires text != "" && text[0] == '"'
    ensures AfterQuote(text) == Some(text[1..])
  {
  }

  lemma BashShows(line: string, cursor: nat)
    requires '\0' !in line
    ensures Evaluate(Bash, BashText(line, cursor)) == Some(Chars(line, cursor))
  {
    hide ReadWord, BashLiteral, OnlyNumber, Expect;
    var tail := "; READLINE_POINT=" + Decimal(cursor);
    Expected("READLINE_LINE=", BashLiteral(line) + tail);
    LiteralEvaluates(line, tail, false);
    WithoutNulKeeps(line);
    Expected("; READLINE_POINT=", Decimal(cursor));
    NumberAlone(cursor);
  }

  lemma ZshShows(left: string, right: string)
    ensures Evaluate(Zsh, ZshText(left, right)) == Some(Chars(left + right, |left|))
  {
    hide ReadWord, BashLiteral, Expect;
    var tail := "; RBUFFER=" + BashLiteral(right);
    Expected("LBUFFER=", BashLiteral(left) + tail);
    LiteralEvaluates(left, tail, true);
    Expected("; RBUFFER=", BashLiteral(right));
    ZshLiteralReadsBack(right);
  }

  lemma PwshShows(line: string, cursor: nat)
    ensures Evaluate(Pwsh, PwshText(line, cursor)) == Some(Chars(line, cursor))
  {
    var tail := "\n$__RUNEX_CURSOR = " + Decimal(cursor);
    PwshStartsWithQuote(line, tail);
    hide ReadPwsh, PwshLiteral, OnlyNumber, Expect, AfterQuote;
    Expected("$__RUNEX_LINE = ", PwshLiteral(line) + tail);
    PwshLiteralReadsBack(line, tail);
    Quoted(PwshLiteral(line) + tail);
    Expected("\n$__RUNEX_CURSOR = ", Decimal(cursor));
    NumberAlone(cursor);
  }

  lemma PwshStartsWithQuote(line: string, tail: string)
    ensures PwshLiteral(line) + tail != "" && (PwshLiteral(line) + tail)[0] == '"'
  {
  }

  lemma ClinkShows(line: string, cursor: nat)
    ensures Evaluate(Clink, ClinkText(line, cursor)) == Some(Bytes(Utf8(line), cursor))
  {
    hide ReadLua, LuaLiteral, ReadNumber, Expect, AfterQuote, Utf8;
    var tail := ", cursor = " + (Decimal(cursor) + " }");
    Expected("return { line = ", LuaLiteral(line) + tail);
    LuaLiteralReadsBack(line, tail);
    Quoted(LuaLiteral(line) + tail);
    Expected(", cursor = ", Decimal(cursor) + " }");
    DecimalReadsBack(cursor, " }");
  }

  lemma NuShows(line: string, cursor: nat)
    ensures Evaluate(Nu, NuText(line, cursor)) == Some(Chars(line, cursor))
  {
    hide ReadJson, JsonString, ReadNumber, Expect, AfterQuote;
    var tail := ", \"cursor\": " + (Decimal(cursor) + "}");
    Expected("{\"line\": ", JsonString(line) + tail);
    JsonStringReadsBack(line, tail);
    Quoted(JsonString(line) + tail);
    Expected(", \"cursor\": ", Decimal(cursor) + "}");
    DecimalReadsBack(cursor, "}");
  }

  /** Whatever the action, the shell ends up with its line, and with the cursor
      before the same character. */
  lemma ReplyShowsAction(shell: Shell, action: HookAction)
    requires IsBoundary(action.line, action.cursor) && Carries(shell, action.line)
    ensures var i := CharIndexAt(action.line, action.cursor);
      Shows(shell, Render(shell, action), action.line, ShellLen(shell, action.line[..i]))
  {
    hide Evaluate, IsBoundary, BashText, ZshText, PwshText, ClinkText, NuText;
    hide ByteLen, UnitLen, BytesToUnits, ByteCursorToChar, Utf8, CharIndexAt;
    var line, i := action.line, CharIndexAt(action.line, action.cursor);
    CharIndexAtInverse(line, action.cursor);
    CursorOfIndex(line, i);
    match shell
    case Bash => BashShows(line, i);
    case Zsh =>
      ZshShows(line[..i], line[i..]);
      assert line[..i] + line[i..] == line;
    case Pwsh =>
      BytesToUnitsAtChar(line, i);
      PwshShows(line, UnitLen(line[..i]));
    case Clink => ClinkShows(line, i);
    case Nu => NuShows(line, i);
  }

  lemma CursorOfIndex(line: string, i: nat)
    requires i <= |line|
    ensures ByteCursorToChar(line, ByteLen(line[..i])) == i
  {
    assert line[..|line|] == line;
    CharCursorRoundTrip(line, i);
  }

  /** A cursor a shell sends, not inside a surrogate pair, falls after some
      number of characters of the line. */
  predicate FallsAfter(shell: Shell, line: string, cursor: nat, i: nat) {
    i <= |line| && ShellLen(shell, line[..i]) == Min(cursor, ShellLen(shell, line))
  }

  lemma CursorFallsAfter(shell: Shell, line: string, cursor: nat, i: nat)
    requires FallsAfter(shell, line, cursor, i)
    ensures ShellCursorToByte(shell, line, cursor) == ByteLen(line[..i])
  {
    assert line[..|line|] == line;
    if shell == Pwsh {
      var k := UnitsAtChar(line, cursor);
      if k < i {
        PrefixGrows(line, k, i);
        if k + 1 < i {
          PrefixGrows(line, k + 1, i);
        }
      } else if i < k {
        PrefixGrows(line, i, k);
        if k < |line| {
          PrefixGrows(line, k, |line|);
        }
      }
    }
  }

  /** Inserting a space, from the shell's cursor back to the shell's buffer:
      the line with exactly one more space, at the clamped cursor, and the
      cursor one further, all in the shell's own unit. */
  lemma InsertSpaceEndToEnd(shell: Shell, line: string, cursor: nat, i: nat)
    requires FallsAfter(shell, line, cursor, i) && Carries(shell, line)
    ensures var action := InsertSpaceAt(line, i);
      && ShellCursorToByte(shell, line, cursor) == ByteLen(line[..i])
      && IsBoundary(action.line, action.cursor)
      && Shows(shell, Render(shell, action), line[..i] + " " + line[i..], Min(cursor, ShellLen(shell, line)) + 1)
  {
    hide Shows, Render, IsBoundary;
    CursorFallsAfter(shell, line, cursor, i);
    var action := InsertSpaceAt(line, i);
    var head := line[..i] + " ";
    OneSpace();
    ByteLenConcat(line[..i], " ");
    UnitLenConcat(line[..i], " ");
    assert UnitLen(" ") == 1 by { assert " "[1..] == ""; }
    BoundaryAfter(head, line[i..]);
    assert action.line == head + line[i..];
    assert action.line[..|head|] == head;
    assert Carries(shell, action.line);
    ReplyShowsAction(shell, action);
  }
}
