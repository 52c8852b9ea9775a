/** Converting a cursor between the units of the shells and bytes. */
module Cursor {
  import opened Wrappers
  import opened Text
  import opened Model

  /** The byte offset of the character with this index, or the end. */
  function CharCursorToByte(line: string, charCursor: nat): nat {
    if charCursor < |line| then ByteLen(line[..charCursor]) else ByteLen(line)
  }

  /** The index of the character whose bytes include offset `b`. */
  function ContainingChar(line: string, b: nat): nat
    requires b < ByteLen(line)
  {
    if b < Utf8Len(line[0]) then 0 else 1 + ContainingChar(line[1..], b - Utf8Len(line[0]))
  }

  function ByteCursorToChar(line: string, byteCursor: nat): nat {
    if byteCursor >= ByteLen(line) then |line| else ContainingChar(line, byteCursor)
  }

  /** The bytes before the character in which code unit `u` falls. */
  function UnitsToBytes(line: string, u: nat): nat {
    if line == "" || u < Utf16Len(line[0]) then 0
    else Utf8Len(line[0]) + UnitsToBytes(line[1..], u - Utf16Len(line[0]))
  }

  /** The code units of the characters that start before byte `b`. */
  function BytesToUnits(line: string, b: nat): nat {
    if line == "" || b == 0 then 0
    else Utf16Len(line[0]) + BytesToUnits(line[1..], if b < Utf8Len(line[0]) then 0 else b - Utf8Len(line[0]))
  }

  method Utf16CursorToByte(line: string, utf16Cursor: nat) returns (byteIdx: nat)
    ensures byteIdx == UnitsToBytes(line, utf16Cursor)
  {
    var consumedUtf16 := 0;
    byteIdx := 0;
    for k := 0 to |line|
      invariant consumedUtf16 <= utf16Cursor
      invariant UnitsToBytes(line, utf16Cursor) == byteIdx + UnitsToBytes(line[k..], utf16Cursor - consumedUtf16)
    {
      assert line[k..][1..] == line[k + 1..];
      if consumedUtf16 == utf16Cursor {
        return;
      }
      var nextUtf16 := consumedUtf16 + Utf16Len(line[k]);
      if nextUtf16 > utf16Cursor {
        return;
      }
      consumedUtf16 := nextUtf16;
      byteIdx := byteIdx + Utf8Len(line[k]);
    }
  }

  method ByteCursorToUtf16(line: string, byteCursor: nat) returns (utf16: nat)
    ensures utf16 == BytesToUnits(line, byteCursor)
  {
    utf16 := 0;
    if byteCursor >= ByteLen(line) {
      AllUnits(line, byteCursor);
      for k := 0 to |line|
        invariant UnitLen(line) == utf16 + UnitLen(line[k..])
      {
        assert line[k..][1..] == line[k + 1..];
        utf16 := utf16 + Utf16Len(line[k]);
      }
      return;
    }
    var byteIdx := 0;
    for k := 0 to |line|
      invariant BytesToUnits(line, byteCursor)
             == utf16 + BytesToUnits(line[k..], if byteCursor < byteIdx then 0 else byteCursor - byteIdx)
    {
      assert line[k..][1..] == line[k + 1..];
      if byteIdx >= byteCursor {
        return;
      }
      utf16 := utf16 + Utf16Len(line[k]);
      byteIdx := byteIdx + Utf8Len(line[k]);
    }
  }

  lemma {:induction false} AllUnits(line: string, b: nat)
    requires b >= ByteLen(line)
    ensures BytesToUnits(line, b) == UnitLen(line)
  {
    if line != "" {
      AllUnits(line[1..], b - Utf8Len(line[0]));
    }
  }

  // ----- rounding pairs -----

  lemma {:induction false} PrefixGrows(line: string, i: nat, j: nat)
    requires i < j <= |line|
    ensures ByteLen(line[..i]) < ByteLen(line[..j]) && UnitLen(line[..i]) < UnitLen(line[..j])
  {
    var middle := line[i..j];
    assert line[..j] == line[..i] + middle;
    ByteLenConcat(line[..i], middle);
    UnitLenConcat(line[..i], middle);
  }

  /** The containing character starts at or before the offset and ends after it. */
  lemma {:induction false} ContainingCharSpans(line: string, b: nat)
    requires b < ByteLen(line)
    ensures var i := ContainingChar(line, b);
      i < |line| && ByteLen(line[..i]) <= b < ByteLen(line[..i + 1])
  {
    if b >= Utf8Len(line[0]) {
      var rest, c := line[1..], b - Utf8Len(line[0]);
      ContainingCharSpans(rest, c);
      var i := ContainingChar(rest, c);
      assert line[..i + 1] == [line[0]] + rest[..i];
      assert line[..i + 2] == [line[0]] + rest[..i + 1];
    } else {
      assert line[..1] == [line[0]] + "";
      assert ByteLen([line[0]] + "") == Utf8Len(line[0]);
    }
  }

  lemma BoundaryAtChar(line: string, i: nat)
    requires i <= |line|
    ensures IsBoundary(line, ByteLen(line[..i])) && CharIndexAt(line, ByteLen(line[..i])) == i
  {
    hide ByteLen, IsBoundary, CharIndexAt;
    BoundaryAfter(line[..i], line[i..]);
    assert line[..i] + line[i..] == line;
  }

  /** Characters to bytes and back: the cursor, clamped to the line; the byte
      cursor in between is always a character boundary. */
  lemma CharCursorRoundTrip(line: string, charCursor: nat)
    ensures IsBoundary(line, CharCursorToByte(line, charCursor))
    ensures ByteCursorToChar(line, CharCursorToByte(line, charCursor)) == Min(charCursor, |line|)
  {
    var i := Min(charCursor, |line|);
    assert line[..|line|] == line;
    var b := ByteLen(line[..i]);
    BoundaryAtChar(line, i);
    if i < |line| {
      PrefixGrows(line, i, |line|);
      ContainingCharSpans(line, b);
      var k := ContainingChar(line, b);
      if k < i {
        if k + 1 < i {
          PrefixGrows(line, k + 1, i);
        }
      } else if i < k {
        PrefixGrows(line, i, k);
      }
    }
  }

  /** Bytes to characters and back: the greatest boundary at or below. */
  lemma ByteCursorRoundTrip(line: string, byteCursor: nat)
    ensures var r := CharCursorToByte(line, ByteCursorToChar(line, byteCursor));
      && IsBoundary(line, r) && r <= byteCursor
      && forall b :: r < b <= byteCursor ==> !IsBoundary(line, b)
  {
    assert line[..|line|] == line;
    var i := ByteCursorToChar(line, byteCursor);
    if byteCursor < ByteLen(line) {
      ContainingCharSpans(line, byteCursor);
    }
    BoundaryAtChar(line, i);
    forall b | ByteLen(line[..i]) < b <= byteCursor ensures !IsBoundary(line, b) {
      if IsBoundary(line, b) {
        CharIndexAtInverse(line, b);
        var k := CharIndexAt(line, b);
        if k < i {
          PrefixGrows(line, k, i);
        } else if i + 1 < k {
          PrefixGrows(line, i + 1, k);
        }
      }
    }
  }

  /** Both unit conversions, at the character in which the unit falls. */
  lemma {:induction false} UnitsAtChar(line: string, u: nat) returns (i: nat)
    ensures i <= |line| && UnitsToBytes(line, u) == ByteLen(line[..i])
    ensures UnitLen(line[..i]) <= u && (i < |line| ==> u < UnitLen(line[..i + 1]))
  {
    if line == "" || u < Utf16Len(line[0]) {
      i := 0;
      if line != "" {
        assert line[..1] == [line[0]] + "";
        assert UnitLen([line[0]] + "") == Utf16Len(line[0]);
      }
    } else {
      var rest := line[1..];
      var k := UnitsAtChar(rest, u - Utf16Len(line[0]));
      i := k + 1;
      assert line[..i] == [line[0]] + rest[..k];
      assert k < |rest| ==> line[..i + 1] == [line[0]] + rest[..k + 1];
    }
  }

  lemma {:induction false} BytesToUnitsAtChar(line: string, i: nat)
    requires i <= |line|
    ensures BytesToUnits(line, ByteLen(line[..i])) == UnitLen(line[..i])
  {
    if i > 0 {
      assert line[..i] == [line[0]] + line[1..][..i - 1];
      BytesToUnitsAtChar(line[1..], i - 1);
    }
  }

  /** Code units to bytes and back: the greatest boundary at or below; the byte
      cursor in between is always a character boundary. */
  lemma UnitCursorRoundTrip(line: string, u: nat)
    ensures IsBoundary(line, UnitsToBytes(line, u))
    ensures var r := BytesToUnits(line, UnitsToBytes(line, u));
      && r <= u
      && (exists i :: 0 <= i <= |line| && UnitLen(line[..i]) == r)
      && forall i :: 0 <= i <= |line| && UnitLen(line[..i]) <= u ==> UnitLen(line[..i]) <= r
  {
    var i := UnitsAtChar(line, u);
    BoundaryAtChar(line, i);
    BytesToUnitsAtChar(line, i);
    forall k | 0 <= k <= |line| && UnitLen(line[..k]) <= u ensures UnitLen(line[..k]) <= UnitLen(line[..i]) {
      if i + 1 < k {
        PrefixGrows(line, i + 1, k);
      } else if k < i {
        PrefixGrows(line, k, i);
      }
    }
  }

  // ----- per shell -----

  /** A cursor in the shell's own unit, as a byte offset. */
  function ShellCursorToByte(shell: Shell, line: string, cursor: nat): nat {
    if shell == Pwsh then UnitsToBytes(line, cursor) else CharCursorToByte(line, cursor)
  }

  /** A byte offset in the unit the shell reads back. Zsh is handed the two
      halves of the line instead of a number. */
  function ByteToShellCursor(shell: Shell, line: string, byteCursor: nat): nat {
    match shell
    case Zsh => byteCursor
    case Pwsh => BytesToUnits(line, byteCursor)
    case _ => ByteCursorToChar(line, byteCursor)
  }

  /** Every cursor a shell can send becomes a byte offset at which the line may
      be sliced. */
  lemma ShellCursorIsBoundary(shell: Shell, line: string, cursor: nat)
    ensures IsBoundary(line, ShellCursorToByte(shell, line, cursor))
    ensures ShellCursorToByte(shell, line, cursor) <= ByteLen(line)
  {
    CharCursorRoundTrip(line, cursor);
    UnitCursorRoundTrip(line, cursor);
    BoundaryWithin(line, ShellCursorToByte(shell, line, cursor));
  }
}
