/** JSON strings (section 7 of RFC 8259) and decimal numbers. */
module Json {
  import opened Wrappers
  import opened Text
  import opened Quoting

  // ----- strings -----

  /** How the JSON writer puts one character: the short escapes, six-character
      escapes for the other control characters, and the rest as they are. */
  function JsonPiece(c: char): string {
    var code := c as int;
    if c == '"' || c == '\\' then ['\\', c]
    else if code == 0x08 then "\\b"
    else if c == '\t' then "\\t"
    else if c == '\n' then "\\n"
    else if code == 0x0C then "\\f"
    else if c == '\r' then "\\r"
    else if code < 0x20 then ['\\', 'u', '0', '0', HexDigit(code / 16), HexDigit(code % 16)]
    else [c]
  }

  function JsonBody(s: string): string {
    if s == "" then "" else JsonPiece(s[0]) + JsonBody(s[1..])
  }

  function JsonString(s: string): string {
    "\"" + JsonBody(s) + "\""
  }

  /** What the character after a backslash stands for. */
  function Unescaped(c: char): Option<char> {
    match c
    case '"' => Some('"')
    case '\\' => Some('\\')
    case '/' => Some('/')
    case 'b' => Some(0x08 as char)
    case 'f' => Some(0x0C as char)
    case 'n' => Some('\n')
    case 'r' => Some('\r')
    case 't' => Some('\t')
    case _ => None
  }

  /** The character `\uXXXX` stands for, unless it is half of a surrogate pair. */
  function UnicodeEscape(text: string): (r: Option<char>)
    requires |text| >= 6
  {
    var a :- HexValue(text[2]);
    var b :- HexValue(text[3]);
    var c :- HexValue(text[4]);
    var d :- HexValue(text[5]);
    var code := 4096 * a + 256 * b + 16 * c + d;
    if code < 0xD800 || 0xE000 <= code < 0x1_0000 then Some(code as char) else None
  }

  /** The value of a JSON string after its opening quote, and the text after its
      closing one. */
  function ReadJson(text: string): Option<(string, string)>
    decreases |text|
  {
    if text == "" || text[0] as int < 0x20 then None
    else if text[0] == '"' then Some(("", text[1..]))
    else if text[0] != '\\' then Ahead([text[0]], ReadJson(text[1..]))
    else if |text| == 1 then None
    else if text[1] == 'u' then
      if |text| < 6 then None
      else
        var c :- UnicodeEscape(text);
        Ahead([c], ReadJson(text[6..]))
    else
      var c :- Unescaped(text[1]);
      Ahead([c], ReadJson(text[2..]))
  }

  lemma ReadShortEscape(c: char, rest: string)
    requires c != 'u' && Unescaped(c).Some?
    ensures ReadJson(['\\', c] + rest) == Ahead([Unescaped(c).value], ReadJson(rest))
  {
    assert (['\\', c] + rest)[2..] == rest;
  }

  lemma ReadLongEscape(c: char, rest: string)
    requires c as int < 0x20
    ensures var high, low := HexDigit(c as int / 16), HexDigit(c as int % 16);
      ReadJson(['\\', 'u', '0', '0', high, low] + rest) == Ahead([c], ReadJson(rest))
  {
    var high, low := HexDigit(c as int / 16), HexDigit(c as int % 16);
    var text := ['\\', 'u', '0', '0', high, low] + rest;
    HexRoundTrip(c as int / 16);
    HexRoundTrip(c as int % 16);
    HexRoundTrip(0);
    assert text[2] == '0' && text[3] == '0' && text[4] == high && text[5] == low;
    assert UnicodeEscape(text) == Some(c);
    assert text[6..] == rest;
  }

  lemma ReadJsonPiece(c: char, rest: string)
    ensures ReadJson(JsonPiece(c) + rest) == Ahead([c], ReadJson(rest))
  {
    hide ReadJson, UnicodeEscape, HexDigit;
    if c == '"' || c == '\\' {
      ReadShortEscape(c, rest);
    } else if c as int == 0x08 {
      ReadShortEscape('b', rest);
    } else if c == '\t' {
      ReadShortEscape('t', rest);
    } else if c == '\n' {
      ReadShortEscape('n', rest);
    } else if c as int == 0x0C {
      ReadShortEscape('f', rest);
    } else if c == '\r' {
      ReadShortEscape('r', rest);
    } else if c as int < 0x20 {
      ReadLongEscape(c, rest);
    } else {
      ReadPlain(c, rest);
    }
  }

  lemma ReadPlain(c: char, rest: string)
    requires c as int >= 0x20 && c != '"' && c != '\\'
    ensures ReadJson([c] + rest) == Ahead([c], ReadJson(rest))
  {
    assert ([c] + rest)[1..] == rest;
  }

  lemma {:induction false} ReadJsonBody(s: string, rest: string)
    ensures ReadJson(JsonBody(s) + ("\"" + rest)) == Some((s, rest))
  {
    hide JsonPiece;
    if s == "" {
      assert "" + ("\"" + rest) == "\"" + rest;
      assert ("\"" + rest)[1..] == rest;
    } else {
      hide ReadJson;
      var more := JsonBody(s[1..]) + ("\"" + rest);
      assert JsonBody(s) + ("\"" + rest) == JsonPiece(s[0]) + more;
      ReadJsonPiece(s[0], more);
      ReadJsonBody(s[1..], rest);
      assert s == [s[0]] + s[1..];
    }
  }

  /** A JSON reader gets back every text. */
  lemma JsonStringReadsBack(s: string, rest: string)
    ensures var text := JsonString(s) + rest;
      text != "" && text[0] == '"' && ReadJson(text[1..]) == Some((s, rest))
  {
    hide ReadJson, JsonBody;
    ReadJsonBody(s, rest);
    assert (JsonString(s) + rest)[1..] == JsonBody(s) + ("\"" + rest);
  }

  // ----- numbers -----

  function Decimal(n: nat): string {
    if n < 10 then [DecimalDigit(n)] else Decimal(n / 10) + [DecimalDigit(n % 10)]
  }

  /** How many digits the text begins with. */
  function DigitCount(text: string): (k: nat)
    ensures k <= |text| && forall c <- text[..k] :: IsDigit(c)
  {
    if text == "" || !IsDigit(text[0]) then 0
    else
      var k := DigitCount(text[1..]);
      assert text[..k + 1] == [text[0]] + text[1..][..k];
      k + 1
  }

  /** The number at the start of the text, and the text after it. */
  function ReadNumber(text: string): Option<(nat, string)> {
    var k := DigitCount(text);
    if k == 0 then None else Some((DecimalValue(text[..k]), text[k..]))
  }

  lemma {:induction false} DecimalIsNumber(n: nat)
    ensures Decimal(n) != "" && forall c <- Decimal(n) :: IsDigit(c)
    ensures DecimalValue(Decimal(n)) == n
  {
    if n < 10 {
      assert Decimal(n)[..0] == "";
    } else {
      DecimalIsNumber(n / 10);
      var digits := Decimal(n);
      assert digits[..|digits| - 1] == Decimal(n / 10);
    }
  }

  lemma {:induction false} DigitCountIs(digits: string, rest: string)
    requires forall c <- digits :: IsDigit(c)
    requires rest == "" || !IsDigit(rest[0])
    ensures DigitCount(digits + rest) == |digits|
  {
    if digits == "" {
      assert digits + rest == rest;
    } else {
      assert IsDigit(digits[0]) && (digits + rest)[1..] == digits[1..] + rest;
      DigitCountIs(digits[1..], rest);
    }
  }

  lemma DecimalReadsBack(n: nat, rest: string)
    requires rest == "" || !IsDigit(rest[0])
    ensures ReadNumber(Decimal(n) + rest) == Some((n, rest))
  {
    hide DecimalValue, Decimal;
    DecimalIsNumber(n);
    DigitCountIs(Decimal(n), rest);
    assert (Decimal(n) + rest)[..|Decimal(n)|] == Decimal(n) && (Decimal(n) + rest)[|Decimal(n)|..] == rest;
  }
}
