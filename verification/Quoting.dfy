/** Writing a shell buffer as a literal the shell evaluates back to it. */
module Quoting {
  import opened Wrappers
  import opened Text
  import opened Sanitize

  type Byte = n: int | 0 <= n < 256

  function Prepend(head: string, tail: Option<string>): Option<string> {
    if tail.Some? then Some(head + tail.value) else None
  }

  function Ahead(head: string, tail: Option<(string, string)>): Option<(string, string)> {
    if tail.Some? then Some((head + tail.value.0, tail.value.1)) else None
  }

  // ----- bash and zsh -----

  function HexDigit(n: nat): char
    requires n < 16
  {
    if n < 10 then ('0' as int + n) as char else ('a' as int + n - 10) as char
  }

  /** `\x` and two hexadecimal digits. */
  function ControlEscape(c: char): string
    requires IsAsciiControl(c)
  {
    ['\\', 'x', HexDigit(c as int / 16), HexDigit(c as int % 16)]
  }

  /** How one character is written inside single quotes. */
  function BashPiece(c: char): string {
    if c == '\'' then "'\\''"
    else if IsAsciiControl(c) then
      "'" + ("$'" + (ControlEscape(c) + "''"))
    else [c]
  }

  function BashBody(value: string): string {
    if value == "" then "" else BashPiece(value[0]) + BashBody(value[1..])
  }

  function BashLiteral(value: string): string {
    "'" + BashBody(value) + "'"
  }

  method BashQuoteBuffer(value: string) returns (out: string)
    ensures out == BashLiteral(value)
  {
    hide BashPiece;
    out := "'";
    for k := 0 to |value|
      invariant BashLiteral(value) == out + (BashBody(value[k..]) + "'")
    {
      assert value[k..][1..] == value[k + 1..];
      var piece := BashPiece(value[k]);
      assert out + ((piece + BashBody(value[k + 1..])) + "'") == (out + piece) + (BashBody(value[k + 1..]) + "'");
      out := out + piece;
    }
    out := out + "'";
  }

  function HexValue(c: char): Option<nat> {
    if '0' <= c <= '9' then Some(c as int - '0' as int)
    else if 'a' <= c <= 'f' then Some(c as int - 'a' as int + 10)
    else if 'A' <= c <= 'F' then Some(c as int - 'A' as int + 10)
    else None
  }

  /** Where a reader of a word stands: outside quotes, inside '...', inside
      $'...', or inside $'...' after a NUL, which ends its text in bash. */
  datatype BashMode = Bare | Single | AnsiC | Truncated

  /** The value of one word built from quoted parts, and the text after it; a
      semicolon outside quotes ends the word. Anything that would be expanded,
      split or left unfinished has no value here. Bash and zsh differ in whether
      a NUL in $'...' is kept. */
  function ReadWord(text: string, mode: BashMode, keepsNul: bool): Option<(string, string)>
    decreases |text|
  {
    match mode
    case Bare =>
      if text == "" || text[0] == ';' then Some(("", text))
      else if text[0] == '\'' then ReadWord(text[1..], Single, keepsNul)
      else if |text| >= 2 && text[0] == '$' && text[1] == '\'' then ReadWord(text[2..], AnsiC, keepsNul)
      else if |text| >= 2 && text[0] == '\\' then Ahead([text[1]], ReadWord(text[2..], Bare, keepsNul))
      else None
    case Single =>
      if text == "" then None
      else if text[0] == '\'' then ReadWord(text[1..], Bare, keepsNul)
      else Ahead([text[0]], ReadWord(text[1..], Single, keepsNul))
    case AnsiC =>
      if text == "" then None
      else if text[0] == '\'' then ReadWord(text[1..], Bare, keepsNul)
      else if text[0] != '\\' then Ahead([text[0]], ReadWord(text[1..], AnsiC, keepsNul))
      else
        var (code, width) :- HexEscape(text);
        if code == 0 && !keepsNul then ReadWord(text[width..], Truncated, keepsNul)
        else if code < 0x80 then Ahead([code as char], ReadWord(text[width..], AnsiC, keepsNul))
        else None
    case Truncated =>
      if text == "" then None
      else if text[0] == '\'' then ReadWord(text[1..], Bare, keepsNul)
      else if |text| >= 2 && text[0] == '\\' then ReadWord(text[2..], Truncated, keepsNul)
      else ReadWord(text[1..], Truncated, keepsNul)
  }

  /** `\x` and one or two hexadecimal digits: the code, and the length read. */
  function HexEscape(text: string): (r: Option<(nat, nat)>)
    ensures r.Some? ==> 0 < r.value.1 <= |text|
  {
    if |text| < 3 || text[0] != '\\' || text[1] != 'x' then None
    else
      var high :- HexValue(text[2]);
      if |text| > 3 && HexValue(text[3]).Some? then Some((16 * high + HexValue(text[3]).value, 4))
      else Some((high, 3))
  }

  function WithoutNul(s: string): string {
    if s == "" then "" else (if s[0] == '\0' then "" else [s[0]]) + WithoutNul(s[1..])
  }

  lemma HexRoundTrip(n: nat)
    requires n < 16
    ensures HexValue(HexDigit(n)) == Some(n)
  {
  }

  lemma QuoteStep(rest: string, keepsNul: bool)
    ensures ReadWord("'" + rest, Bare, keepsNul) == ReadWord(rest, Single, keepsNul)
    ensures ReadWord("'" + rest, Single, keepsNul) == ReadWord(rest, Bare, keepsNul)
    ensures ReadWord("'" + rest, AnsiC, keepsNul) == ReadWord(rest, Bare, keepsNul)
    ensures ReadWord("'" + rest, Truncated, keepsNul) == ReadWord(rest, Bare, keepsNul)
  {
    assert ("'" + rest)[1..] == rest;
  }

  lemma AnsiStep(rest: string, keepsNul: bool)
    ensures ReadWord("$'" + rest, Bare, keepsNul) == ReadWord(rest, AnsiC, keepsNul)
  {
    assert ("$'" + rest)[2..] == rest;
  }

  lemma EscapeStep(c: char, rest: string, keepsNul: bool)
    requires IsAsciiControl(c)
    ensures ReadWord(ControlEscape(c) + rest, AnsiC, keepsNul) ==
      if c == '\0' && !keepsNul then ReadWord(rest, Truncated, keepsNul)
      else Ahead([c], ReadWord(rest, AnsiC, keepsNul))
  {
    var text := ControlEscape(c) + rest;
    HexRoundTrip(c as int / 16);
    HexRoundTrip(c as int % 16);
    assert text[2] == HexDigit(c as int / 16) && text[3] == HexDigit(c as int % 16);
    assert HexEscape(text) == Some((c as int, 4));
    assert text[4..] == rest;
  }

  lemma Regroup(a: string, b: string, c: string, d: string, rest: string)
    ensures (a + (b + (c + d))) + rest == a + (b + (c + (d + rest)))
  {
  }

  lemma ControlPieceText(c: char, rest: string)
    requires IsAsciiControl(c)
    ensures BashPiece(c) + rest == "'" + ("$'" + (ControlEscape(c) + ("'" + ("'" + rest))))
  {
    hide ControlEscape;
    Regroup("'", "$'", ControlEscape(c), "''", rest);
    assert "''" + rest == "'" + ("'" + rest);
  }

  lemma ReadControlPiece(c: char, rest: string, keepsNul: bool)
    requires IsAsciiControl(c)
    ensures ReadWord(BashPiece(c) + rest, Single, keepsNul) ==
      if c == '\0' && !keepsNul then ReadWord(rest, Single, keepsNul) else Ahead([c], ReadWord(rest, Single, keepsNul))
  {
    hide ReadWord;
    var reopened := "'" + rest;
    var closing := "'" + reopened;
    var escape := ControlEscape(c) + closing;
    var quoted := "$'" + escape;
    ControlPieceText(c, rest);
    hide BashPiece, ControlEscape;
    QuoteStep(rest, keepsNul);
    QuoteStep(reopened, keepsNul);
    QuoteStep(quoted, keepsNul);
    EscapeStep(c, closing, keepsNul);
    AnsiStep(escape, keepsNul);
  }

  lemma ReadQuotePiece(rest: string, keepsNul: bool)
    ensures ReadWord(BashPiece('\'') + rest, Single, keepsNul) == Ahead(['\''], ReadWord(rest, Single, keepsNul))
  {
    var reopened := "'" + rest;
    var escaped := ['\\', '\''] + reopened;
    assert BashPiece('\'') + rest == "'" + escaped;
    assert escaped[2..] == reopened;
    assert ReadWord(escaped, Bare, keepsNul) == Ahead([escaped[1]], ReadWord(reopened, Bare, keepsNul));
    QuoteStep(escaped, keepsNul);
    QuoteStep(rest, keepsNul);
  }

  lemma ReadPiece(c: char, rest: string, keepsNul: bool)
    ensures ReadWord(BashPiece(c) + rest, Single, keepsNul) ==
      if c == '\0' && !keepsNul then ReadWord(rest, Single, keepsNul) else Ahead([c], ReadWord(rest, Single, keepsNul))
  {
    if c == '\'' {
      ReadQuotePiece(rest, keepsNul);
    } else if IsAsciiControl(c) {
      ReadControlPiece(c, rest, keepsNul);
    } else {
      assert ([c] + rest)[1..] == rest;
    }
  }

  /** What evaluation makes of a text: bash loses its NULs. */
  function Evaluated(s: string, keepsNul: bool): string {
    if keepsNul then s else WithoutNul(s)
  }

  /** Something that ends a word. */
  predicate EndsWord(rest: string) {
    rest == "" || rest[0] == ';'
  }

  lemma WordEnds(rest: string, keepsNul: bool)
    requires EndsWord(rest)
    ensures ReadWord(rest, Bare, keepsNul) == Some(("", rest))
  {
  }

  /** What evaluation makes of a text, character by character. */
  lemma EvaluatedCons(c: char, rest: string, keepsNul: bool)
    ensures Evaluated([c] + rest, keepsNul) ==
      if c == '\0' && !keepsNul then Evaluated(rest, keepsNul) else [c] + Evaluated(rest, keepsNul)
  {
    assert ([c] + rest)[1..] == rest && "" + WithoutNul(rest) == WithoutNul(rest);
  }

  lemma {:induction false} ReadBashBody(value: string, rest: string, keepsNul: bool)
    requires EndsWord(rest)
    ensures ReadWord(BashBody(value) + ("'" + rest), Single, keepsNul) == Some((Evaluated(value, keepsNul), rest))
  {
    hide BashPiece, ReadWord, EndsWord;
    if value == "" {
      assert "" + ("'" + rest) == "'" + rest;
      QuoteStep(rest, keepsNul);
      WordEnds(rest, keepsNul);
    } else {
      hide Evaluated;
      var more := BashBody(value[1..]) + ("'" + rest);
      assert BashBody(value) + ("'" + rest) == BashPiece(value[0]) + more;
      ReadPiece(value[0], more, keepsNul);
      ReadBashBody(value[1..], rest, keepsNul);
      EvaluatedCons(value[0], value[1..], keepsNul);
      assert value == [value[0]] + value[1..];
    }
  }

  lemma {:induction false} WithoutNulKeeps(s: string)
    ensures WithoutNul(s) == s <==> '\0' !in s
    ensures |WithoutNul(s)| <= |s|
  {
    if s != "" {
      WithoutNulKeeps(s[1..]);
      assert s == [s[0]] + s[1..];
    }
  }

  /** Evaluating the literal, up to the end of its word, gives back every
      character, except that bash loses NUL. */
  lemma LiteralEvaluates(value: string, rest: string, keepsNul: bool)
    requires EndsWord(rest)
    ensures ReadWord(BashLiteral(value) + rest, Bare, keepsNul) == Some((Evaluated(value, keepsNul), rest))
  {
    ReadBashBody(value, rest, keepsNul);
    var inner := BashBody(value) + ("'" + rest);
    assert BashLiteral(value) + rest == "'" + inner;
    QuoteStep(inner, keepsNul);
  }

  /** So bash gets back the buffer exactly when it has no NUL. */
  lemma BashLiteralReadsBack(value: string)
    ensures ReadWord(BashLiteral(value), Bare, false) == Some((WithoutNul(value), ""))
    ensures ReadWord(BashLiteral(value), Bare, false) == Some((value, "")) <==> '\0' !in value
  {
    hide ReadWord;
    LiteralEvaluates(value, "", false);
    WithoutNulKeeps(value);
    assert BashLiteral(value) + "" == BashLiteral(value);
  }

  /** And zsh, whose strings can hold NUL, gets back every buffer. */
  lemma ZshLiteralReadsBack(value: string)
    ensures ReadWord(BashLiteral(value), Bare, true) == Some((value, ""))
  {
    hide ReadWord;
    LiteralEvaluates(value, "", true);
    assert BashLiteral(value) + "" == BashLiteral(value);
  }

  lemma HexDigitIsVisible(n: nat)
    requires n < 16
    ensures !IsAsciiControl(HexDigit(n))
  {
  }

  lemma BashPieceHasNoControl(c: char, d: char)
    requires d in BashPiece(c)
    ensures !IsAsciiControl(d)
  {
    hide HexDigit;
    if IsAsciiControl(c) {
      HexDigitIsVisible(c as int / 16);
      HexDigitIsVisible(c as int % 16);
    }
  }

  lemma {:induction false} BashBodyHasNoControl(value: string, c: char)
    requires c in BashBody(value)
    ensures !IsAsciiControl(c)
  {
    hide BashPiece, IsAsciiControl;
    if c in BashPiece(value[0]) {
      BashPieceHasNoControl(value[0], c);
    } else {
      BashBodyHasNoControl(value[1..], c);
    }
  }

  /** The literal itself carries no control character. */
  lemma BashLiteralHasNoControl(value: string, c: char)
    requires c in BashLiteral(value)
    ensures !IsAsciiControl(c)
  {
    if c in BashBody(value) {
      BashBodyHasNoControl(value, c);
    }
  }

  // ----- PowerShell -----

  /** What PowerShell accepts as a double quote. */
  predicate IsPwshQuote(c: char) {
    c == '"' || c as int == 0x201C || c as int == 0x201D || c as int == 0x201E
  }

  function PwshPiece(c: char): string {
    if c == '\n' then "`n"
    else if c == '\r' then "`r"
    else if c == '`' || c == '$' || IsPwshQuote(c) then ['`', c]
    else [c]
  }

  function PwshBody(value: string): string {
    if value == "" then "" else PwshPiece(value[0]) + PwshBody(value[1..])
  }

  function PwshLiteral(value: string): string {
    "\"" + PwshBody(value) + "\""
  }

  method PwshDoubleQuoteString(value: string) returns (out: string)
    ensures out == PwshLiteral(value)
  {
    hide PwshPiece;
    out := "\"";
    for k := 0 to |value|
      invariant PwshLiteral(value) == out + (PwshBody(value[k..]) + "\"")
    {
      assert value[k..][1..] == value[k + 1..];
      var piece := PwshPiece(value[k]);
      assert out + ((piece + PwshBody(value[k + 1..])) + "\"") == (out + piece) + (PwshBody(value[k + 1..]) + "\"");
      out := out + piece;
    }
    out := out + "\"";
  }

  /** The letters that mean something else after a backtick. */
  const PWSH_ESCAPE_LETTERS := "0abeftuv"

  /** The value of a PowerShell double-quoted literal after its opening quote,
      and the text after its closing one. A doubled quote stands for one; text
      that would be expanded has no value. */
  function ReadPwsh(text: string): Option<(string, string)>
    decreases |text|
  {
    if text == "" then None
    else if IsPwshQuote(text[0]) then
      if |text| > 1 && IsPwshQuote(text[1]) then Ahead([text[1]], ReadPwsh(text[2..]))
      else Some(("", text[1..]))
    else if text[0] == '`' then
      if |text| == 1 || text[1] in PWSH_ESCAPE_LETTERS then None
      else
        var c := if text[1] == 'n' then '\n' else if text[1] == 'r' then '\r' else text[1];
        Ahead([c], ReadPwsh(text[2..]))
    else if text[0] == '$' then None
    else Ahead([text[0]], ReadPwsh(text[1..]))
  }

  lemma ReadPwshPiece(c: char, rest: string)
    ensures ReadPwsh(PwshPiece(c) + rest) == Ahead([c], ReadPwsh(rest))
  {
    var text := PwshPiece(c) + rest;
    if |PwshPiece(c)| == 2 {
      assert text[2..] == rest && text[0] == '`' && text[1] == PwshPiece(c)[1];
      assert PwshPiece(c)[1] !in PWSH_ESCAPE_LETTERS;
    } else {
      assert text[1..] == rest;
    }
  }

  lemma {:induction false} ReadPwshBody(value: string, rest: string)
    requires rest == "" || !IsPwshQuote(rest[0])
    ensures ReadPwsh(PwshBody(value) + ("\"" + rest)) == Some((value, rest))
  {
    hide PwshPiece;
    if value == "" {
      assert "" + ("\"" + rest) == "\"" + rest;
      assert ("\"" + rest)[1..] == rest;
    } else {
      hide ReadPwsh;
      var more := PwshBody(value[1..]) + ("\"" + rest);
      assert PwshBody(value) + ("\"" + rest) == PwshPiece(value[0]) + more;
      ReadPwshPiece(value[0], more);
      ReadPwshBody(value[1..], rest);
      assert value == [value[0]] + value[1..];
    }
  }

  lemma {:induction false} PwshBodyHasNoLineBreak(value: string)
    ensures '\n' !in PwshBody(value) && '\r' !in PwshBody(value)
  {
    if value != "" {
      PwshBodyHasNoLineBreak(value[1..]);
    }
  }

  /** Evaluating the literal gives back the buffer, and the literal has no raw
      line break at which PowerShell would split the output. */
  lemma PwshLiteralReadsBack(value: string, rest: string)
    requires rest == "" || !IsPwshQuote(rest[0])
    ensures var text := PwshLiteral(value) + rest;
      text != "" && IsPwshQuote(text[0]) && ReadPwsh(text[1..]) == Some((value, rest))
    ensures '\n' !in PwshLiteral(value) && '\r' !in PwshLiteral(value)
  {
    hide ReadPwsh, PwshBody;
    ReadPwshBody(value, rest);
    PwshBodyHasNoLineBreak(value);
    assert (PwshLiteral(value) + rest)[1..] == PwshBody(value) + ("\"" + rest);
  }

  // ----- Lua -----

  /** The UTF-8 form of a character: section 3 of RFC 3629. */
  function Utf8Bytes(c: char): (bytes: seq<Byte>)
    ensures |bytes| == Utf8Len(c)
  {
    var code := c as int;
    if code < 0x80 then [code]
    else if code < 0x800 then [0xC0 + code / 0x40, 0x80 + code % 0x40]
    else if code < 0x1_0000 then [0xE0 + code / 0x1000, 0x80 + code / 0x40 % 0x40, 0x80 + code % 0x40]
    else
      [0xF0 + code / 0x4_0000, 0x80 + code / 0x1000 % 0x40, 0x80 + code / 0x40 % 0x40, 0x80 + code % 0x40]
  }

  function Utf8(s: string): seq<Byte> {
    if s == "" then [] else Utf8Bytes(s[0]) + Utf8(s[1..])
  }

  function DecimalDigit(n: nat): char
    requires n < 10
  {
    ('0' as int + n) as char
  }

  /** A byte as a backslash and three decimal digits. */
  function LuaByte(b: Byte): string {
    ['\\', DecimalDigit(b / 100), DecimalDigit(b / 10 % 10), DecimalDigit(b % 10)]
  }

  function LuaBytes(bytes: seq<Byte>): string {
    if bytes == [] then "" else LuaByte(bytes[0]) + LuaBytes(bytes[1..])
  }

  function LuaPiece(c: char): string {
    if DoubleQuoteEscape(c) != "" then DoubleQuoteEscape(c)
    else if IsUnsafeForDisplay(c) then LuaBytes(Utf8Bytes(c))
    else [c]
  }

  function LuaBody(value: string): string {
    if value == "" then "" else LuaPiece(value[0]) + LuaBody(value[1..])
  }

  function LuaLiteral(value: string): string {
    "\"" + LuaBody(value) + "\""
  }

  method LuaQuoteString(value: string) returns (out: string)
    ensures out == LuaLiteral(value)
  {
    hide LuaPiece;
    out := "\"";
    for k := 0 to |value|
      invariant LuaLiteral(value) == out + (LuaBody(value[k..]) + "\"")
    {
      assert value[k..][1..] == value[k + 1..];
      ghost var piece, later := LuaPiece(value[k]), LuaBody(value[k + 1..]);
      assert out + ((piece + later) + "\"") == (out + piece) + (later + "\"");
      out := LuaPush(out, value[k]);
    }
    out := out + "\"";
  }

  method LuaPush(before: string, c: char) returns (out: string)
    ensures out == before + LuaPiece(c)
  {
    hide LuaBytes, Utf8Bytes, IsUnsafeForDisplay;
    if DoubleQuoteEscape(c) != "" {
      out := before + DoubleQuoteEscape(c);
    } else if IsUnsafeForDisplay(c) {
      out := LuaPushBytes(before, Utf8Bytes(c));
    } else {
      out := before + [c];
    }
  }

  method LuaPushBytes(before: string, bytes: seq<Byte>) returns (out: string)
    ensures out == before + LuaBytes(bytes)
  {
    hide LuaByte;
    out := before;
    for k := 0 to |bytes|
      invariant before + LuaBytes(bytes) == out + LuaBytes(bytes[k..])
    {
      assert bytes[k..][1..] == bytes[k + 1..];
      assert out + (LuaByte(bytes[k]) + LuaBytes(bytes[k + 1..]))
          == (out + LuaByte(bytes[k])) + LuaBytes(bytes[k + 1..]);
      out := out + LuaByte(bytes[k]);
    }
  }

  function PrependBytes(head: seq<Byte>, tail: Option<(seq<Byte>, string)>): Option<(seq<Byte>, string)> {
    if tail.Some? then Some((head + tail.value.0, tail.value.1)) else None
  }

  /** Up to three decimal digits: their value, and how many there are. */
  function DecimalEscape(text: string): (r: (nat, nat))
    ensures r.1 <= |text|
  {
    if text == "" || !IsDigit(text[0]) then (0, 0)
    else
      var d0 := text[0] as int - '0' as int;
      if |text| < 2 || !IsDigit(text[1]) then (d0, 1)
      else
        var d1 := 10 * d0 + (text[1] as int - '0' as int);
        if |text| < 3 || !IsDigit(text[2]) then (d1, 2)
        else (10 * d1 + (text[2] as int - '0' as int), 3)
  }

  /** The bytes of a Lua double-quoted literal after its opening quote, and the
      text after its closing one. */
  function ReadLua(text: string): Option<(seq<Byte>, string)>
    decreases |text|
  {
    if text == "" || text[0] == '\n' || text[0] == '\r' then None
    else if text[0] == '"' then Some(([], text[1..]))
    else if text[0] != '\\' then PrependBytes(Utf8Bytes(text[0]), ReadLua(text[1..]))
    else if |text| == 1 then None
    else
      match text[1]
      case 'n' => PrependBytes([10], ReadLua(text[2..]))
      case 'r' => PrependBytes([13], ReadLua(text[2..]))
      case 't' => PrependBytes([9], ReadLua(text[2..]))
      case '\\' => PrependBytes([92], ReadLua(text[2..]))
      case '"' => PrependBytes([34], ReadLua(text[2..]))
      case _ =>
        var (code, width) := DecimalEscape(text[1..]);
        if width == 0 || code > 255 then None else PrependBytes([code], ReadLua(text[1 + width..]))
  }

  /** Three digits are always read together, so a digit that follows is not
      taken for part of the escape. */
  lemma ReadLuaByte(b: Byte, rest: string)
    ensures ReadLua(LuaByte(b) + rest) == PrependBytes([b], ReadLua(rest))
  {
    var text := LuaByte(b) + rest;
    assert text[1] == DecimalDigit(b / 100) && text[2] == DecimalDigit(b / 10 % 10) && text[3] == DecimalDigit(b % 10);
    assert text[1..][0] == text[1] && text[1..][1] == text[2] && text[1..][2] == text[3];
    assert 10 * (10 * (b / 100) + b / 10 % 10) + b % 10 == b;
    assert DecimalEscape(text[1..]) == (b, 3);
    assert text[4..] == rest;
  }

  lemma {:induction false} ReadLuaBytes(bytes: seq<Byte>, rest: string)
    ensures ReadLua(LuaBytes(bytes) + rest) == PrependBytes(bytes, ReadLua(rest))
  {
    hide ReadLua, LuaByte;
    if bytes == [] {
      assert "" + rest == rest;
      assert ReadLua(rest).Some? ==> [] + ReadLua(rest).value.0 == ReadLua(rest).value.0;
    } else {
      var more := LuaBytes(bytes[1..]) + rest;
      assert LuaBytes(bytes) + rest == LuaByte(bytes[0]) + more;
      ReadLuaByte(bytes[0], more);
      ReadLuaBytes(bytes[1..], rest);
      assert bytes == [bytes[0]] + bytes[1..];
      assert ReadLua(rest).Some? ==>
        [bytes[0]] + (bytes[1..] + ReadLua(rest).value.0) == bytes + ReadLua(rest).value.0;
    }
  }

  lemma ReadLuaEscape(c: char, rest: string)
    requires DoubleQuoteEscape(c) != ""
    ensures ReadLua(DoubleQuoteEscape(c) + rest) == PrependBytes(Utf8Bytes(c), ReadLua(rest))
  {
    var text := DoubleQuoteEscape(c) + rest;
    assert text[0] == '\\' && text[1] == DoubleQuoteEscape(c)[1] && text[2..] == rest;
  }

  lemma {:induction false} ReadLuaPiece(c: char, rest: string)
    ensures ReadLua(LuaPiece(c) + rest) == PrependBytes(Utf8Bytes(c), ReadLua(rest))
  {
    hide Utf8Bytes;
    if DoubleQuoteEscape(c) != "" {
      ReadLuaEscape(c, rest);
    } else if IsUnsafeForDisplay(c) {
      ReadLuaBytes(Utf8Bytes(c), rest);
    } else {
      assert ([c] + rest)[1..] == rest;
    }
  }

  lemma {:induction false} ReadLuaBody(value: string, rest: string)
    ensures ReadLua(LuaBody(value) + ("\"" + rest)) == Some((Utf8(value), rest))
  {
    hide LuaPiece;
    if value == "" {
      assert "" + ("\"" + rest) == "\"" + rest;
      assert ("\"" + rest)[1..] == rest;
    } else {
      hide ReadLua;
      var more := LuaBody(value[1..]) + ("\"" + rest);
      assert LuaBody(value) + ("\"" + rest) == LuaPiece(value[0]) + more;
      ReadLuaPiece(value[0], more);
      ReadLuaBody(value[1..], rest);
    }
  }

  lemma {:induction false} LuaBytesAreSafe(bytes: seq<Byte>, c: char)
    requires c in LuaBytes(bytes)
    ensures !IsUnsafeForDisplay(c)
  {
    if c in LuaByte(bytes[0]) {
    } else {
      LuaBytesAreSafe(bytes[1..], c);
    }
  }

  lemma {:induction false} LuaBodyIsSafe(value: string, c: char)
    requires c in LuaBody(value)
    ensures !IsUnsafeForDisplay(c)
  {
    hide LuaBytes;
    if c in LuaPiece(value[0]) {
      if DoubleQuoteEscape(value[0]) == "" && IsUnsafeForDisplay(value[0]) {
        LuaBytesAreSafe(Utf8Bytes(value[0]), c);
      }
    } else {
      LuaBodyIsSafe(value[1..], c);
    }
  }

  /** Evaluating the literal gives the UTF-8 bytes of the buffer, whatever
      digits follow an escape. */
  lemma LuaLiteralReadsBack(value: string, rest: string)
    ensures var text := LuaLiteral(value) + rest;
      text != "" && text[0] == '"' && ReadLua(text[1..]) == Some((Utf8(value), rest))
  {
    hide ReadLua, LuaBody, Utf8;
    ReadLuaBody(value, rest);
    assert (LuaLiteral(value) + rest)[1..] == LuaBody(value) + ("\"" + rest);
  }

  /** The literal itself shows no invisible or control character. */
  lemma LuaLiteralIsSafe(value: string, c: char)
    requires c in LuaLiteral(value)
    ensures !IsUnsafeForDisplay(c)
  {
    if c in LuaBody(value) {
      LuaBodyIsSafe(value, c);
    }
  }
}
