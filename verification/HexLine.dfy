/** The line as Clink hands it over: the hexadecimal form of its UTF-8 bytes. */
module HexLine {
  import opened Wrappers
  import opened Text
  import opened Quoting

  // ----- strict UTF-8 -----

  predicate IsContinuation(b: int) {
    0x80 <= b < 0xC0
  }

  predicate IsScalar(code: int) {
    0 <= code < 0xD800 || 0xE000 <= code < 0x11_0000
  }

  function TwoByteCode(a: int, b: int): int {
    (a - 0xC0) * 0x40 + (b - 0x80)
  }

  function ThreeByteCode(a: int, b: int, c: int): int {
    (a - 0xE0) * 0x1000 + (b - 0x80) * 0x40 + (c - 0x80)
  }

  function FourByteCode(a: int, b: int, c: int, d: int): int {
    (a - 0xF0) * 0x4_0000 + (b - 0x80) * 0x1000 + (c - 0x80) * 0x40 + (d - 0x80)
  }

  /** The code and the length of the first character, by its lead byte. */
  function FirstCode(bytes: seq<Byte>): (r: Option<(int, nat)>)
    ensures r.Some? ==> 0 < r.value.1 <= |bytes|
  {
    if bytes == [] then None
    else if bytes[0] < 0x80 then Some((bytes[0], 1))
    else if 0xC0 <= bytes[0] < 0xE0 then
      if |bytes| < 2 || !IsContinuation(bytes[1]) then None
      else Some((TwoByteCode(bytes[0], bytes[1]), 2))
    else if 0xE0 <= bytes[0] < 0xF0 then
      if |bytes| < 3 || !IsContinuation(bytes[1]) || !IsContinuation(bytes[2]) then None
      else Some((ThreeByteCode(bytes[0], bytes[1], bytes[2]), 3))
    else if 0xF0 <= bytes[0] < 0xF8 then
      if |bytes| < 4 || !IsContinuation(bytes[1]) || !IsContinuation(bytes[2]) || !IsContinuation(bytes[3]) then None
      else Some((FourByteCode(bytes[0], bytes[1], bytes[2], bytes[3]), 4))
    else None
  }

  /** The first character of a byte sequence and how many bytes it takes, if
      they are its shortest form: section 3 of RFC 3629. */
  function FirstChar(bytes: seq<Byte>): (r: Option<(char, nat)>)
    ensures r.Some? ==> 0 < r.value.1 <= |bytes|
  {
    var (code, width) :- FirstCode(bytes);
    if IsScalar(code) && Utf8Len(code as char) == width then Some((code as char, width)) else None
  }

  /** The text a byte sequence encodes, if it encodes one. */
  function DecodeUtf8(bytes: seq<Byte>): Option<string>
    decreases |bytes|
  {
    if bytes == [] then Some("")
    else
      var (c, width) :- FirstChar(bytes);
      Prepend([c], DecodeUtf8(bytes[width..]))
  }

  lemma TwoByteInverse(code: int, a: int, b: int)
    requires 0x80 <= code < 0x800
    ensures a == 0xC0 + code / 0x40 && b == 0x80 + code % 0x40
       <==> IsContinuation(b) && TwoByteCode(a, b) == code
  {
  }

  lemma ThreeByteInverse(code: int, a: int, b: int, c: int)
    requires 0x800 <= code < 0x1_0000
    ensures a == 0xE0 + code / 0x1000 && b == 0x80 + code / 0x40 % 0x40 && c == 0x80 + code % 0x40
       <==> IsContinuation(b) && IsContinuation(c) && ThreeByteCode(a, b, c) == code
  {
    var middle := code / 0x40;
    assert code == middle * 0x40 + code % 0x40 && middle == middle / 0x40 * 0x40 + middle % 0x40;
    assert middle / 0x40 == code / 0x1000;
  }

  lemma FourByteInverse(code: int, a: int, b: int, c: int, d: int)
    requires 0x1_0000 <= code < 0x11_0000
    ensures a == 0xF0 + code / 0x4_0000 && b == 0x80 + code / 0x1000 % 0x40 && c == 0x80 + code / 0x40 % 0x40
              && d == 0x80 + code % 0x40
       <==> IsContinuation(b) && IsContinuation(c) && IsContinuation(d) && FourByteCode(a, b, c, d) == code
  {
    var low, middle := code / 0x40, code / 0x1000;
    assert code == low * 0x40 + code % 0x40 && low == low / 0x40 * 0x40 + low % 0x40;
    assert middle == middle / 0x40 * 0x40 + middle % 0x40;
    assert low / 0x40 == middle && middle / 0x40 == code / 0x4_0000;
  }

  lemma FirstCharOfEncoding(c: char, rest: seq<Byte>)
    ensures FirstChar(Utf8Bytes(c) + rest) == Some((c, Utf8Len(c)))
  {
    var code, bytes := c as int, Utf8Bytes(c) + rest;
    hide TwoByteCode, ThreeByteCode, FourByteCode;
    if code < 0x80 {
    } else if code < 0x800 {
      TwoByteInverse(code, bytes[0], bytes[1]);
    } else if code < 0x1_0000 {
      ThreeByteInverse(code, bytes[0], bytes[1], bytes[2]);
    } else {
      FourByteInverse(code, bytes[0], bytes[1], bytes[2], bytes[3]);
    }
  }

  lemma EncodingOfFirstChar(bytes: seq<Byte>)
    requires FirstChar(bytes).Some?
    ensures var (c, width) := FirstChar(bytes).value;
      bytes == Utf8Bytes(c) + bytes[width..] && width == Utf8Len(c)
  {
    hide TwoByteCode, ThreeByteCode, FourByteCode;
    var (c, width) := FirstChar(bytes).value;
    var code := c as int;
    if code < 0x80 {
    } else if code < 0x800 {
      TwoByteInverse(code, bytes[0], bytes[1]);
    } else if code < 0x1_0000 {
      ThreeByteInverse(code, bytes[0], bytes[1], bytes[2]);
    } else {
      FourByteInverse(code, bytes[0], bytes[1], bytes[2], bytes[3]);
    }
    assert Utf8Bytes(c) == bytes[..width];
  }

  lemma {:induction false} DecodesItsEncoding(s: string)
    ensures DecodeUtf8(Utf8(s)) == Some(s)
  {
    if s != "" {
      hide FirstChar, Utf8Bytes;
      var rest := Utf8(s[1..]);
      FirstCharOfEncoding(s[0], rest);
      assert Utf8(s) != [] && Utf8(s)[Utf8Len(s[0])..] == rest;
      DecodesItsEncoding(s[1..]);
      assert s == [s[0]] + s[1..];
    }
  }

  lemma {:induction false} EncodesItsDecoding(bytes: seq<Byte>)
    ensures DecodeUtf8(bytes).Some? ==> Utf8(DecodeUtf8(bytes).value) == bytes
    decreases |bytes|
  {
    if bytes != [] && DecodeUtf8(bytes).Some? {
      hide FirstChar, Utf8Bytes;
      var (c, width) := FirstChar(bytes).value;
      EncodingOfFirstChar(bytes);
      EncodesItsDecoding(bytes[width..]);
      var later := DecodeUtf8(bytes[width..]).value;
      assert ([c] + later)[1..] == later;
    }
  }

  // ----- hexadecimal pairs -----

  /** The value of one hexadecimal digit, given as a byte. */
  function DigitValue(b: Byte): (r: Option<nat>)
    ensures r.Some? ==> r.value < 16
  {
    if b < 0x80 then HexValue(b as char) else None
  }

  /** The value of two bytes parsed as an unsigned number in base sixteen. The
      parser takes a plus sign in front of a digit. */
  function PairValue(high: Byte, low: Byte): Option<Byte> {
    var l :- DigitValue(low);
    if high == PLUS then Some(l)
    else
      var h :- DigitValue(high);
      Some(16 * h + l)
  }

  const PLUS: Byte := 0x2B

  /** The upper-case form of a hexadecimal digit. */
  function UpperHexDigit(n: nat): char
    requires n < 16
  {
    if n < 10 then ('0' as int + n) as char else ('A' as int + n - 10) as char
  }

  /** The byte is the hexadecimal digit worth `n`, in either case. */
  predicate IsDigitOf(b: Byte, n: nat)
    requires n < 16
  {
    b == HexDigit(n) as int || b == UpperHexDigit(n) as int
  }

  lemma DigitOfValue(b: Byte, n: nat)
    requires n < 16
    ensures IsDigitOf(b, n) <==> DigitValue(b) == Some(n)
  {
  }

  /** Two bytes stand for `v` exactly when they are its two digits, in either
      case, or a plus sign and its only digit. */
  lemma PairStandsFor(high: Byte, low: Byte, v: Byte)
    ensures PairValue(high, low) == Some(v) <==>
      IsDigitOf(low, v % 16) && (IsDigitOf(high, v / 16) || (high == PLUS && v < 16))
  {
    hide DigitValue, IsDigitOf;
    DigitOfValue(low, v % 16);
    DigitOfValue(high, v / 16);
    PlusIsNoDigit();
  }

  lemma PlusIsNoDigit()
    ensures DigitValue(PLUS).None?
  {
  }

  function DecodePairs(bytes: seq<Byte>): Option<seq<Byte>>
    decreases |bytes|
  {
    if bytes == [] then Some([])
    else if |bytes| == 1 then None
    else
      var value :- PairValue(bytes[0], bytes[1]);
      var later :- DecodePairs(bytes[2..]);
      Some([value] + later)
  }

  /** The line that the argument stands for. Its length is counted in bytes. */
  function DecodeHexLine(hex: string): Option<string> {
    if ByteLen(hex) % 2 != 0 then None
    else
      var bytes :- DecodePairs(Utf8(hex));
      DecodeUtf8(bytes)
  }

  lemma {:induction false} Utf8Length(s: string)
    ensures |Utf8(s)| == ByteLen(s)
  {
    hide Utf8Bytes;
    if s != "" {
      Utf8Length(s[1..]);
    }
  }

  /** The bytes, two by two, stand for the values. */
  predicate PairsStandFor(bytes: seq<Byte>, values: seq<Byte>) {
    && |bytes| == 2 * |values|
    && forall i :: 0 <= i < |values| ==> PairValue(bytes[2 * i], bytes[2 * i + 1]) == Some(values[i])
  }

  lemma PairsCons(high: Byte, low: Byte, rest: seq<Byte>, v: Byte, later: seq<Byte>)
    ensures PairsStandFor([high, low] + rest, [v] + later) <==>
      PairValue(high, low) == Some(v) && PairsStandFor(rest, later)
  {
    hide PairValue;
    var bytes, values := [high, low] + rest, [v] + later;
    if |rest| == 2 * |later| {
      forall i | 0 <= i < |later|
        ensures bytes[2 * (i + 1)] == rest[2 * i] && bytes[2 * (i + 1) + 1] == rest[2 * i + 1]
          && values[i + 1] == later[i]
      {
      }
      if PairsStandFor(bytes, values) {
        assert PairValue(bytes[2 * 0], bytes[2 * 0 + 1]) == Some(values[0]);
        forall i | 0 <= i < |later| ensures PairValue(rest[2 * i], rest[2 * i + 1]) == Some(later[i]) {
          assert PairValue(bytes[2 * (i + 1)], bytes[2 * (i + 1) + 1]) == Some(values[i + 1]);
        }
      }
      if PairValue(high, low) == Some(v) && PairsStandFor(rest, later) {
        forall i | 0 <= i < |values| ensures PairValue(bytes[2 * i], bytes[2 * i + 1]) == Some(values[i]) {
          if i > 0 {
            assert PairValue(rest[2 * (i - 1)], rest[2 * (i - 1) + 1]) == Some(later[i - 1]);
          }
        }
      }
    }
  }

  lemma DecodePairsCons(high: Byte, low: Byte, rest: seq<Byte>)
    ensures DecodePairs([high, low] + rest) ==
      if PairValue(high, low).None? || DecodePairs(rest).None? then None
      else Some([PairValue(high, low).value] + DecodePairs(rest).value)
  {
    hide PairValue;
    assert ([high, low] + rest)[2..] == rest;
  }

  /** The pairs are read one by one, to the last byte. */
  lemma {:induction false} DecodedPairs(bytes: seq<Byte>, values: seq<Byte>)
    ensures DecodePairs(bytes) == Some(values) <==> PairsStandFor(bytes, values)
    decreases |bytes|
  {
    hide PairValue;
    if |bytes| >= 2 {
      var rest := bytes[2..];
      assert bytes == [bytes[0], bytes[1]] + rest;
      DecodePairsCons(bytes[0], bytes[1], rest);
      if values != [] {
        hide DecodePairs, PairsStandFor;
        assert values == [values[0]] + values[1..];
        DecodedPairs(rest, values[1..]);
        PairsCons(bytes[0], bytes[1], rest, values[0], values[1..]);
      }
    }
  }

  /** The argument decodes to a line exactly when its bytes, two by two, stand
      for the line's UTF-8 bytes: nothing else is accepted. */
  lemma HexLineAccepts(hex: string, line: string)
    ensures DecodeHexLine(hex) == Some(line) <==> PairsStandFor(Utf8(hex), Utf8(line))
  {
    hide DecodePairs, DecodeUtf8, Utf8, ByteLen;
    Utf8Length(hex);
    DecodedPairs(Utf8(hex), Utf8(line));
    DecodesItsEncoding(line);
    var bytes := DecodePairs(Utf8(hex));
    if bytes.Some? {
      DecodedPairs(Utf8(hex), bytes.value);
      EncodesItsDecoding(bytes.value);
    }
  }

  // ----- what Clink sends -----

  /** Two upper-case digits for each byte. */
  function HexOf(bytes: seq<Byte>): string {
    if bytes == [] then "" else [UpperHexDigit(bytes[0] / 16), UpperHexDigit(bytes[0] % 16)] + HexOf(bytes[1..])
  }

  lemma AsciiEncodes(a: char, b: char, rest: string)
    requires a as int < 0x80 && b as int < 0x80
    ensures Utf8([a, b] + rest) == [a as int, b as int] + Utf8(rest)
  {
    var text := [a, b] + rest;
    assert text[1..] == [b] + rest && ([b] + rest)[1..] == rest;
    assert Utf8([b] + rest) == [b as int] + Utf8(rest);
    assert Utf8(text) == [a as int] + ([b as int] + Utf8(rest));
  }

  lemma UpperPairStandsFor(v: Byte)
    ensures PairValue(UpperHexDigit(v / 16) as int, UpperHexDigit(v % 16) as int) == Some(v)
  {
    hide PairValue, UpperHexDigit;
    UpperDigitIsAscii(v / 16);
    UpperDigitIsAscii(v % 16);
    PairStandsFor(UpperHexDigit(v / 16) as int, UpperHexDigit(v % 16) as int, v);
  }

  lemma UpperDigitIsAscii(n: nat)
    requires n < 16
    ensures UpperHexDigit(n) as int < 0x80
  {
  }

  lemma {:induction false} HexStandsFor(bytes: seq<Byte>)
    ensures PairsStandFor(Utf8(HexOf(bytes)), bytes)
  {
    if bytes != [] {
      hide PairValue, UpperHexDigit, PairsStandFor, Utf8;
      var first, rest := bytes[0], bytes[1..];
      var high, low := UpperHexDigit(first / 16), UpperHexDigit(first % 16);
      UpperDigitIsAscii(first / 16);
      UpperDigitIsAscii(first % 16);
      AsciiEncodes(high, low, HexOf(rest));
      HexStandsFor(rest);
      UpperPairStandsFor(first);
      assert bytes == [first] + rest;
      PairsCons(high as int, low as int, Utf8(HexOf(rest)), first, rest);
    }
  }

  /** Every line arrives as it was sent. */
  lemma HexLineRoundTrip(line: string)
    ensures DecodeHexLine(HexOf(Utf8(line))) == Some(line)
  {
    hide DecodeHexLine, HexOf, Utf8;
    HexStandsFor(Utf8(line));
    HexLineAccepts(HexOf(Utf8(line)), line);
  }

  /** A plus sign is no hexadecimal digit, and is accepted as the first of two. */
  lemma PlusIsAccepted()
    ensures DecodeHexLine("+a") == Some("\n")
  {
    hide DecodeHexLine;
    AsciiEncodes('+', 'a', "");
    assert ['+', 'a'] + "" == "+a";
    assert "\n"[1..] == "" && Utf8("\n") == [10];
    HexLineAccepts("+a", "\n");
  }
}
