/** Naming an external command for Nu: on its own, and inside the text of an
    outer double-quoted string. */
module NuQuoting {
  import opened Wrappers
  import opened Sanitize
  import opened Quoting

  /** Dropped from a Nu literal: unsafe, and not one of the escaped three. */
  predicate IsNuDropChar(c: char) {
    c != '\n' && c != '\r' && c != '\t' && IsUnsafeForDisplay(c)
  }

  function NuPiece(c: char): string {
    if DoubleQuoteEscape(c) != "" then DoubleQuoteEscape(c)
    else if c == '$' then "\\$"
    else if IsNuDropChar(c) then ""
    else [c]
  }

  function NuBody(value: string): string {
    if value == "" then "" else NuPiece(value[0]) + NuBody(value[1..])
  }

  function NuLiteral(value: string): string {
    "^\"" + (NuBody(value) + "\"")
  }

  method NuQuoteString(value: string) returns (out: string)
    ensures out == NuLiteral(value)
  {
    hide NuPiece;
    out := "^\"";
    for k := 0 to |value|
      invariant NuLiteral(value) == out + (NuBody(value[k..]) + "\"")
    {
      assert value[k..][1..] == value[k + 1..];
      var piece := NuPiece(value[k]);
      assert out + ((piece + NuBody(value[k + 1..])) + "\"") == (out + piece) + (NuBody(value[k + 1..]) + "\"");
      out := out + piece;
    }
    out := out + "\"";
  }

  /** One more level of escaping, with `\$` kept as it is. */
  function Embed(standalone: string): string
    decreases |standalone|
  {
    if standalone == "" then ""
    else if standalone[0] == '\\' then
      if |standalone| > 1 && standalone[1] == '$' then "\\$" + Embed(standalone[2..])
      else "\\\\" + Embed(standalone[1..])
    else (if standalone[0] == '"' then "\\\"" else [standalone[0]]) + Embed(standalone[1..])
  }

  /** The same as a walk over the characters that looks one ahead. */
  method NuQuoteStringEmbedded(value: string) returns (out: string)
    ensures out == Embed(NuLiteral(value))
  {
    hide NuLiteral;
    var standalone := NuQuoteString(value);
    out := "";
    var chars := standalone;
    while chars != ""
      invariant Embed(standalone) == out + Embed(chars)
      decreases |chars|
    {
      var ch := chars[0];
      var was := chars;
      chars := chars[1..];
      var piece: string;
      if ch == '\\' {
        if chars != "" && chars[0] == '$' {
          piece := "\\$";
          chars := chars[1..];
        } else {
          piece := "\\\\";
        }
      } else if ch == '"' {
        piece := "\\\"";
      } else {
        piece := [ch];
      }
      assert Embed(was) == piece + Embed(chars);
      assert out + (piece + Embed(chars)) == (out + piece) + Embed(chars);
      out := out + piece;
    }
  }

  // ----- reading it back -----

  /** What the character after a backslash stands for. */
  function Unescaped(c: char): Option<char> {
    match c
    case '\\' => Some('\\')
    case '"' => Some('"')
    case '$' => Some('$')
    case 'n' => Some('\n')
    case 'r' => Some('\r')
    case 't' => Some('\t')
    case _ => None
  }

  /** The text between the quotes of a double-quoted Nu string; none if a quote
      or an unknown escape occurs in it. */
  function ReadNu(text: string): Option<string>
    decreases |text|
  {
    if text == "" then Some("")
    else if text[0] == '"' then None
    else if text[0] == '\\' then
      if |text| == 1 then None
      else
        var c :- Unescaped(text[1]);
        Prepend([c], ReadNu(text[2..]))
    else Prepend([text[0]], ReadNu(text[1..]))
  }

  /** The name of a command written `^"..."`. */
  function ReadCommand(text: string): Option<string> {
    if |text| < 3 || text[..2] != "^\"" || text[|text| - 1] != '"' then None else ReadNu(text[2..|text| - 1])
  }

  function NuKept(value: string): string {
    if value == "" then "" else (if IsNuDropChar(value[0]) then "" else [value[0]]) + NuKept(value[1..])
  }

  lemma {:induction false} NuKeptIsAll(value: string)
    ensures NuKept(value) == value <==> forall c <- value :: !IsNuDropChar(c)
    ensures |NuKept(value)| <= |value|
  {
    hide IsNuDropChar;
    if value != "" {
      NuKeptIsAll(value[1..]);
      assert value == [value[0]] + value[1..];
    }
  }

  lemma ReadPlain(c: char, rest: string)
    requires c != '"' && c != '\\'
    ensures ReadNu([c] + rest) == Prepend([c], ReadNu(rest))
  {
    assert ([c] + rest)[1..] == rest;
  }

  lemma ReadEscape(c: char, rest: string)
    requires Unescaped(c).Some?
    ensures ReadNu(['\\', c] + rest) == Prepend([Unescaped(c).value], ReadNu(rest))
  {
    assert (['\\', c] + rest)[2..] == rest;
  }

  /** How a piece begins and what it escapes. */
  lemma NuPieceIs(c: char)
    ensures NuPiece(c) ==
      if c == '\\' || c == '"' || c == '$' then ['\\', c]
      else if c == '\n' then "\\n" else if c == '\r' then "\\r" else if c == '\t' then "\\t"
      else if IsNuDropChar(c) then "" else [c]
    ensures c == '\\' || c == '"' || c == '$' || c == '\n' || c == '\r' || c == '\t' ==> !IsNuDropChar(c)
  {
  }

  lemma ReadPiece(c: char, rest: string)
    ensures ReadNu(NuPiece(c) + rest) == Prepend(if IsNuDropChar(c) then "" else [c], ReadNu(rest))
  {
    hide ReadNu, IsNuDropChar, NuPiece;
    NuPieceIs(c);
    if c == '\\' || c == '"' || c == '$' {
      ReadEscape(c, rest);
    } else if c == '\n' {
      ReadEscape('n', rest);
    } else if c == '\r' {
      ReadEscape('r', rest);
    } else if c == '\t' {
      ReadEscape('t', rest);
    } else if IsNuDropChar(c) {
      assert "" + rest == rest;
      assert ReadNu(rest).Some? ==> "" + ReadNu(rest).value == ReadNu(rest).value;
    } else {
      ReadPlain(c, rest);
    }
  }

  lemma {:induction false} ReadBody(value: string)
    ensures ReadNu(NuBody(value)) == Some(NuKept(value))
  {
    hide NuPiece, IsNuDropChar;
    if value != "" {
      hide ReadNu;
      ReadPiece(value[0], NuBody(value[1..]));
      ReadBody(value[1..]);
    }
  }

  lemma CommandAround(body: string)
    ensures ReadCommand("^\"" + (body + "\"")) == ReadNu(body)
  {
    var text := "^\"" + (body + "\"");
    assert text[..2] == "^\"" && text[2..|text| - 1] == body && text[|text| - 1] == '"';
  }

  /** Nu reads the literal as a command whose name is the value less the
      dropped characters: the value itself exactly when none is dropped. */
  lemma NuLiteralReadsBack(value: string)
    ensures ReadCommand(NuLiteral(value)) == Some(NuKept(value))
    ensures ReadCommand(NuLiteral(value)) == Some(value) <==> forall c <- value :: !IsNuDropChar(c)
  {
    hide ReadCommand, ReadNu, IsNuDropChar;
    ReadBody(value);
    CommandAround(NuBody(value));
    NuKeptIsAll(value);
  }

  // ----- one level down -----

  /** What embedding makes of the piece of one character. */
  function EmbeddedPiece(c: char): string {
    if c == '\\' then "\\\\\\\\"
    else if c == '"' then "\\\\\\\""
    else if c == '$' then "\\$"
    else if NuPiece(c) == "" || NuPiece(c) == [c] then NuPiece(c)
    else "\\" + NuPiece(c)
  }

  function EmbeddedBody(value: string): string {
    if value == "" then "" else EmbeddedPiece(value[0]) + EmbeddedBody(value[1..])
  }

  lemma EmbedPlain(c: char, rest: string)
    requires c != '\\'
    ensures Embed([c] + rest) == (if c == '"' then "\\\"" else [c]) + Embed(rest)
  {
    assert ([c] + rest)[1..] == rest;
  }

  lemma EmbedBackslash(rest: string)
    requires rest == "" || rest[0] != '$'
    ensures Embed("\\" + rest) == "\\\\" + Embed(rest)
  {
    assert ("\\" + rest)[1..] == rest;
  }

  lemma EmbedDollar(rest: string)
    ensures Embed("\\$" + rest) == "\\$" + Embed(rest)
  {
    assert ("\\$" + rest)[2..] == rest;
  }

  lemma EmbedTwoBackslashes(rest: string)
    requires rest == "" || rest[0] != '$'
    ensures Embed(['\\', '\\'] + rest) == "\\\\\\\\" + Embed(rest)
  {
    hide Embed;
    EmbedBackslash(rest);
    EmbedBackslash("\\" + rest);
    assert ['\\', '\\'] + rest == "\\" + ("\\" + rest);
    assert "\\\\" + ("\\\\" + Embed(rest)) == "\\\\\\\\" + Embed(rest);
  }

  lemma EmbedEscape(second: char, rest: string)
    requires second != '$' && second != '\\'
    ensures Embed(['\\', second] + rest) == (if second == '"' then "\\\\\\\"" else ['\\', '\\', second]) + Embed(rest)
  {
    hide Embed;
    EmbedPlain(second, rest);
    EmbedBackslash([second] + rest);
    assert ['\\', second] + rest == "\\" + ([second] + rest);
    var inner := if second == '"' then "\\\"" else [second];
    assert "\\\\" + (inner + Embed(rest)) == ("\\\\" + inner) + Embed(rest);
  }

  /** The piece of one character is embedded on its own, as long as no `$`
      follows it: a backslash must not be taken for the escape of that `$`. */
  lemma {:induction false} EmbedPiece(c: char, rest: string)
    requires rest == "" || rest[0] != '$'
    ensures Embed(NuPiece(c) + rest) == EmbeddedPiece(c) + Embed(rest)
  {
    hide Embed, IsNuDropChar, NuPiece;
    NuPieceIs(c);
    if c == '$' {
      EmbedDollar(rest);
    } else if c == '\\' {
      EmbedTwoBackslashes(rest);
    } else if c == '"' {
      EmbedEscape('"', rest);
    } else if c == '\n' {
      EmbedEscape('n', rest);
    } else if c == '\r' {
      EmbedEscape('r', rest);
    } else if c == '\t' {
      EmbedEscape('t', rest);
    } else if IsNuDropChar(c) {
      assert "" + rest == rest && "" + Embed(rest) == Embed(rest);
    } else {
      EmbedPlain(c, rest);
    }
  }

  /** No literal body, and so no rest of one, begins with a bare `$`. */
  lemma {:induction false} BodyStart(value: string)
    ensures (NuBody(value) + "\"")[0] != '$'
  {
    hide IsNuDropChar, NuPiece;
    if value != "" {
      NuPieceIs(value[0]);
      BodyStart(value[1..]);
      assert NuPiece(value[0]) == "" ==> NuBody(value) == NuBody(value[1..]);
    }
  }

  lemma {:induction false} EmbedBody(value: string)
    ensures Embed(NuBody(value) + "\"") == EmbeddedBody(value) + "\\\""
  {
    hide NuPiece, EmbeddedPiece;
    if value == "" {
      assert "" + "\"" == ['"'] + "" && Embed("") == "";
      EmbedPlain('"', "");
    } else {
      hide Embed;
      var rest := NuBody(value[1..]) + "\"";
      BodyStart(value[1..]);
      EmbedPiece(value[0], rest);
      EmbedBody(value[1..]);
      assert NuBody(value) + "\"" == NuPiece(value[0]) + rest;
      assert EmbeddedPiece(value[0]) + (EmbeddedBody(value[1..]) + "\\\"") == EmbeddedBody(value) + "\\\"";
    }
  }

  lemma EmbedLiteral(value: string)
    ensures Embed(NuLiteral(value)) == "^\\\"" + (EmbeddedBody(value) + "\\\"")
  {
    hide Embed, NuBody, EmbeddedBody;
    var body := NuBody(value) + "\"";
    assert NuLiteral(value) == ['^'] + (['"'] + body);
    EmbedPlain('^', ['"'] + body);
    EmbedPlain('"', body);
    EmbedBody(value);
    assert ['^'] + ("\\\"" + (EmbeddedBody(value) + "\\\"")) == "^\\\"" + (EmbeddedBody(value) + "\\\"");
  }

  /** What the outer reader leaves of a piece: the piece, less the backslash
      of `\$`. */
  function OncePiece(c: char): string {
    if c == '$' then "$" else NuPiece(c)
  }

  function OnceBody(value: string): string {
    if value == "" then "" else OncePiece(value[0]) + OnceBody(value[1..])
  }

  lemma ReadEmbeddedPiece(c: char, rest: string)
    requires ReadNu(rest).Some?
    ensures ReadNu(EmbeddedPiece(c) + rest) == Some(OncePiece(c) + ReadNu(rest).value)
  {
    hide ReadNu, IsNuDropChar, NuPiece;
    NuPieceIs(c);
    if c == '$' {
      ReadEscape('$', rest);
    } else if c == '\\' {
      ReadEscape('\\', rest);
      ReadEscape('\\', ['\\', '\\'] + rest);
      assert EmbeddedPiece(c) + rest == ['\\', '\\'] + (['\\', '\\'] + rest);
      assert ['\\'] + (['\\'] + ReadNu(rest).value) == NuPiece(c) + ReadNu(rest).value;
    } else if c == '"' {
      ReadEscape('"', rest);
      ReadEscape('\\', ['\\', '"'] + rest);
      assert EmbeddedPiece(c) + rest == ['\\', '\\'] + (['\\', '"'] + rest);
      assert ['\\'] + (['"'] + ReadNu(rest).value) == NuPiece(c) + ReadNu(rest).value;
    } else if |NuPiece(c)| == 2 {
      var second := NuPiece(c)[1];
      ReadPlain(second, rest);
      ReadEscape('\\', [second] + rest);
      assert EmbeddedPiece(c) + rest == ['\\', '\\'] + ([second] + rest);
      assert ['\\'] + ([second] + ReadNu(rest).value) == NuPiece(c) + ReadNu(rest).value;
    } else if IsNuDropChar(c) {
      assert "" + rest == rest && "" + ReadNu(rest).value == ReadNu(rest).value;
    } else {
      ReadPlain(c, rest);
    }
  }

  lemma ReadEmbeddedEnd()
    ensures ReadNu("\\\"") == Some("\"")
  {
    ReadEscape('"', "");
    assert "\\\"" == ['\\', '"'] + "" && ['"'] + "" == "\"" && ReadNu("") == Some("");
  }

  lemma {:induction false} ReadEmbeddedBody(value: string)
    ensures ReadNu(EmbeddedBody(value) + "\\\"") == Some(OnceBody(value) + "\"")
  {
    hide EmbeddedPiece, OncePiece, ReadNu;
    if value == "" {
      ReadEmbeddedEnd();
      assert "" + "\\\"" == "\\\"" && "" + "\"" == "\"";
    } else {
      var rest := EmbeddedBody(value[1..]) + "\\\"";
      ReadEmbeddedBody(value[1..]);
      ReadEmbeddedPiece(value[0], rest);
      assert EmbeddedBody(value) + "\\\"" == EmbeddedPiece(value[0]) + rest;
      assert OncePiece(value[0]) + (OnceBody(value[1..]) + "\"") == OnceBody(value) + "\"";
    }
  }

  lemma ReadOncePiece(c: char, rest: string)
    ensures ReadNu(OncePiece(c) + rest) == Prepend(if IsNuDropChar(c) then "" else [c], ReadNu(rest))
  {
    hide ReadNu, IsNuDropChar, NuPiece;
    NuPieceIs(c);
    if c == '$' {
      ReadPlain(c, rest);
    } else {
      ReadPiece(c, rest);
    }
  }

  lemma {:induction false} ReadOnceBody(value: string)
    ensures ReadNu(OnceBody(value)) == Some(NuKept(value))
  {
    hide OncePiece, IsNuDropChar;
    if value != "" {
      hide ReadNu;
      ReadOncePiece(value[0], OnceBody(value[1..]));
      ReadOnceBody(value[1..]);
    }
  }

  /** Read twice, once as part of the outer string and once as the command in
      it, the embedded literal names the same command as the standalone one. */
  lemma NuEmbeddedReadsBack(value: string) returns (inner: string)
    ensures ReadNu(Embed(NuLiteral(value))) == Some(inner)
    ensures ReadCommand(inner) == ReadCommand(NuLiteral(value)) == Some(NuKept(value))
  {
    hide ReadNu, Embed, NuLiteral, ReadCommand, EmbeddedBody, OnceBody;
    NuLiteralReadsBack(value);
    EmbedLiteral(value);
    var body := EmbeddedBody(value) + "\\\"";
    inner := "^\"" + (OnceBody(value) + "\"");
    assert Embed(NuLiteral(value)) == ['^'] + (['\\', '"'] + body);
    ReadEmbeddedBody(value);
    ReadEscape('"', body);
    ReadPlain('^', ['\\', '"'] + body);
    assert ['^'] + (['"'] + (OnceBody(value) + "\"")) == inner;
    CommandAround(OnceBody(value));
    ReadOnceBody(value);
  }

  // ----- no `$` is left bare -----

  /** How many backslashes stand just before index `i`. */
  function BackslashesBefore(s: string, i: nat): nat
    requires i <= |s|
  {
    if i == 0 || s[i - 1] != '\\' then 0 else 1 + BackslashesBefore(s, i - 1)
  }

  /** Every `$` from index `i` on has an odd number of backslashes before it. */
  predicate DollarsEscapedFrom(s: string, i: nat)
    requires i <= |s|
  {
    forall k :: i <= k < |s| && s[k] == '$' ==> BackslashesBefore(s, k) % 2 == 1
  }

  /** A part of a literal that leaves an even number of backslashes behind it
      wherever it begins after an even number, and has each `$` escaped. */
  predicate IsBalanced(piece: string) {
    || (piece != "" && piece[|piece| - 1] != '\\'
        && forall k :: 0 <= k < |piece| && piece[k] == '$' ==> BackslashesBefore(piece, k) % 2 == 1)
    || piece == "\\\\\\\\" || piece == "\\\\" || piece == ""
  }

  lemma {:induction false} BackslashesAcross(a: string, b: string, k: nat)
    requires k <= |b|
    ensures BackslashesBefore(a + b, |a| + k) ==
      BackslashesBefore(b, k) + if BackslashesBefore(b, k) == k then BackslashesBefore(a, |a|) else 0
    ensures BackslashesBefore(b, k) <= k
  {
    if k == 0 {
      BackslashesOfPrefix(a, b, |a|);
    } else if b[k - 1] == '\\' {
      BackslashesAcross(a, b, k - 1);
    }
  }

  lemma {:induction false} BackslashesOfPrefix(a: string, b: string, k: nat)
    requires k <= |a|
    ensures BackslashesBefore(a + b, k) == BackslashesBefore(a, k)
  {
    if k > 0 && a[k - 1] == '\\' {
      BackslashesOfPrefix(a, b, k - 1);
    }
  }

  /** Appending a balanced part keeps the count even and every `$` escaped. */
  lemma BalancedAppend(before: string, piece: string)
    requires IsBalanced(piece)
    requires BackslashesBefore(before, |before|) % 2 == 0 && DollarsEscapedFrom(before, 0)
    ensures BackslashesBefore(before + piece, |before + piece|) % 2 == 0 && DollarsEscapedFrom(before + piece, 0)
  {
    hide BackslashesBefore;
    var all := before + piece;
    BackslashesAcross(before, piece, |piece|);
    EndOfPiece(piece);
    forall k | 0 <= k < |all| && all[k] == '$' ensures BackslashesBefore(all, k) % 2 == 1 {
      if k < |before| {
        BackslashesOfPrefix(before, piece, k);
      } else {
        BackslashesAcross(before, piece, k - |before|);
      }
    }
  }

  lemma EndOfPiece(piece: string)
    requires IsBalanced(piece)
    ensures BackslashesBefore(piece, |piece|) % 2 == 0
  {
    if piece == "\\\\" || piece == "\\\\\\\\" {
      assert forall k :: 0 <= k < |piece| ==> piece[k] == '\\';
      AllBackslashes(piece, |piece|);
    }
  }

  lemma {:induction false} AllBackslashes(s: string, k: nat)
    requires k <= |s| && forall i :: 0 <= i < |s| ==> s[i] == '\\'
    ensures BackslashesBefore(s, k) == k
  {
    if k > 0 {
      AllBackslashes(s, k - 1);
    }
  }

  lemma PiecesAreBalanced(c: char)
    ensures IsBalanced(NuPiece(c)) && IsBalanced(EmbeddedPiece(c))
  {
    hide IsNuDropChar, NuPiece;
    NuPieceIs(c);
    assert BackslashesBefore("\\$", 1) == 1 by {
      assert BackslashesBefore("\\$", 0) == 0;
    }
  }

  lemma {:induction false} BodiesEscapeDollars(before: string, value: string, embedded: bool)
    requires BackslashesBefore(before, |before|) % 2 == 0 && DollarsEscapedFrom(before, 0)
    ensures var all := before + if embedded then EmbeddedBody(value) else NuBody(value);
      BackslashesBefore(all, |all|) % 2 == 0 && DollarsEscapedFrom(all, 0)
    decreases |value|
  {
    hide BackslashesBefore, DollarsEscapedFrom, IsBalanced, NuPiece, EmbeddedPiece;
    if value == "" {
      assert before + "" == before;
    } else {
      var piece := if embedded then EmbeddedPiece(value[0]) else NuPiece(value[0]);
      var rest := if embedded then EmbeddedBody(value[1..]) else NuBody(value[1..]);
      PiecesAreBalanced(value[0]);
      BalancedAppend(before, piece);
      BodiesEscapeDollars(before + piece, value[1..], embedded);
      assert (before + piece) + rest == before + (piece + rest);
    }
  }

  /** In the standalone literal and in the embedded one, an odd number of
      backslashes stands before every `$`, so none starts an interpolation. */
  lemma EveryDollarIsEscaped(value: string)
    ensures DollarsEscapedFrom(NuLiteral(value), 0) && DollarsEscapedFrom(Embed(NuLiteral(value)), 0)
  {
    hide Embed, NuBody, EmbeddedBody;
    EmbedLiteral(value);
    BodiesEscapeDollars("^\"", value, false);
    BodiesEscapeDollars("^\\\"", value, true);
    BalancedAppend("^\"" + NuBody(value), "\"");
    assert BackslashesBefore("\\\"", 1) == 1;
    BalancedAppend("^\\\"" + EmbeddedBody(value), "\\\"");
    assert ("^\"" + NuBody(value)) + "\"" == NuLiteral(value);
    assert ("^\\\"" + EmbeddedBody(value)) + "\\\"" == Embed(NuLiteral(value));
  }
}
