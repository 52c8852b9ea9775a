/** UTF-16 code units: section 2.1 of RFC 2781. */
module Utf16 {
  import opened Wrappers
  import opened Text
  import opened Cursor
  import opened Quoting

  type Unit = n: int | 0 <= n < 0x1_0000

  /** One unit, or a high and a low surrogate carrying ten bits each. */
  function Encode(c: char): (units: seq<Unit>)
    ensures units != []
  {
    var code := c as int;
    if code < 0x1_0000 then [code] else [0xD800 + (code - 0x1_0000) / 0x400, 0xDC00 + (code - 0x1_0000) % 0x400]
  }

  function Utf16(s: string): seq<Unit> {
    if s == "" then [] else Encode(s[0]) + Utf16(s[1..])
  }

  predicate IsHighSurrogate(u: Unit) {
    0xD800 <= u < 0xDC00
  }

  predicate IsLowSurrogate(u: Unit) {
    0xDC00 <= u < 0xE000
  }

  function PairCode(high: int, low: int): int {
    0x1_0000 + (high - 0xD800) * 0x400 + (low - 0xDC00)
  }

  /** The first character and how many units it takes: a high surrogate needs a
      low one after it, and a low one stands nowhere else. */
  function FirstOf(units: seq<Unit>): (r: Option<(char, nat)>)
    ensures r.Some? ==> 0 < r.value.1 <= |units|
  {
    if units == [] || IsLowSurrogate(units[0]) then None
    else if !IsHighSurrogate(units[0]) then Some((units[0] as char, 1))
    else if |units| < 2 || !IsLowSurrogate(units[1]) then None
    else Some((PairCode(units[0], units[1]) as char, 2))
  }

  function Decode(units: seq<Unit>): Option<string>
    decreases |units|
  {
    if units == [] then Some("")
    else
      var (c, width) :- FirstOf(units);
      Prepend([c], Decode(units[width..]))
  }

  lemma PairInverse(code: int, high: int, low: int)
    requires 0x1_0000 <= code < 0x11_0000
    requires high == 0xD800 + (code - 0x1_0000) / 0x400 && low == 0xDC00 + (code - 0x1_0000) % 0x400
    ensures PairCode(high, low) == code && 0xD800 <= high < 0xDC00 && 0xDC00 <= low < 0xE000
  {
  }

  /** The decoder finds each character first, whatever follows, and takes
      exactly as many units as the width of the character says. */
  lemma FirstOfEncoding(c: char, rest: seq<Unit>)
    ensures FirstOf(Encode(c) + rest) == Some((c, Utf16Len(c))) && |Encode(c)| == Utf16Len(c)
  {
    hide PairCode;
    var code, units := c as int, Encode(c) + rest;
    if code >= 0x1_0000 {
      PairInverse(code, units[0], units[1]);
    }
  }

  /** Every text decodes from its code units. */
  lemma {:induction false} DecodesItsUnits(s: string)
    ensures Decode(Utf16(s)) == Some(s)
  {
    if s != "" {
      hide FirstOf, Encode;
      var rest := Utf16(s[1..]);
      FirstOfEncoding(s[0], rest);
      assert Utf16(s)[Utf16Len(s[0])..] == rest;
      DecodesItsUnits(s[1..]);
      assert s == [s[0]] + s[1..];
    }
  }

  /** The length in units is the length of the encoding. */
  lemma {:induction false} UnitsAreCounted(s: string)
    ensures UnitLen(s) == |Utf16(s)|
  {
    if s != "" {
      hide Encode;
      FirstOfEncoding(s[0], []);
      UnitsAreCounted(s[1..]);
    }
  }

  /** A cursor counted in code units falls, as a byte offset, after the longest
      part of the line whose encoding fits into that many units. */
  lemma UnitCursorByEncoding(line: string, cursor: nat) returns (i: nat)
    ensures i <= |line| && UnitsToBytes(line, cursor) == ByteLen(line[..i])
    ensures |Utf16(line[..i])| <= cursor && (i < |line| ==> cursor < |Utf16(line[..i + 1])|)
  {
    hide Utf16;
    i := UnitsAtChar(line, cursor);
    UnitsAreCounted(line[..i]);
    if i < |line| {
      UnitsAreCounted(line[..i + 1]);
    }
  }

  /** And back: a character boundary is reported as the length of the encoding
      before it. */
  lemma ReportedUnits(line: string, i: nat)
    requires i <= |line|
    ensures BytesToUnits(line, ByteLen(line[..i])) == |Utf16(line[..i])|
  {
    hide Utf16;
    BytesToUnitsAtChar(line, i);
    UnitsAreCounted(line[..i]);
  }

  /** U+1F3AF takes two units. */
  lemma AstralCharacter(rest: string)
    ensures UnitsToBytes([0x1F3AF as char] + rest, 2) == 4
    ensures UnitsToBytes([0x1F3AF as char] + rest, 1) == 0
  {
    var line := [0x1F3AF as char] + rest;
    assert line[1..] == rest && line[0] == 0x1F3AF as char;
    assert rest == "" || 0 < Utf16Len(rest[0]);
  }
}
