/** Characters that must not reach a terminal or a shell literal as they are. */
module Sanitize {
  predicate IsAsciiControl(c: char) {
    c as int < 0x20 || c as int == 0x7F
  }

  predicate IsUnicodeLineSeparator(c: char) {
    c as int == 0x85 || c as int == 0x2028 || c as int == 0x2029
  }

  /** Invisible or directional characters. */
  predicate IsDeceptiveUnicode(c: char) {
    var code := c as int;
    || code == 0x00AD
    || code == 0x034F
    || code == 0x061C
    || 0x115F <= code <= 0x1160 || code == 0x3164 || code == 0xFFA0
    || 0x17B4 <= code <= 0x17B5
    || 0x180B <= code <= 0x180D || code == 0x180F
    || 0x200B <= code <= 0x200F
    || 0x202A <= code <= 0x202E
    || 0x2060 <= code <= 0x206F
    || 0xFE00 <= code <= 0xFE0F
    || code == 0xFEFF
    || 0xFFF9 <= code <= 0xFFFB
    || 0xE0000 <= code <= 0xE007F
  }

  predicate IsUnsafeForDisplay(c: char) {
    IsAsciiControl(c) || IsUnicodeLineSeparator(c) || IsDeceptiveUnicode(c)
  }

  /** The two-character escape of the five characters that need one inside a
      double-quoted literal. */
  function DoubleQuoteEscape(c: char): (r: string)
    ensures r == "" || (|r| == 2 && r[0] == '\\')
  {
    match c
    case '\\' => "\\\\"
    case '"' => "\\\""
    case '\n' => "\\n"
    case '\r' => "\\r"
    case '\t' => "\\t"
    case _ => ""
  }
}
