/** Failure-compatible results, used with `:-`. */
module Wrappers {
  datatype Option<+T> = None | Some(value: T) {
    predicate IsFailure() { None? }

    function PropagateFailure<U>(): Option<U>
      requires None?
    {
      None
    }

    function Extract(): T
      requires Some?
    {
      value
    }

    function GetOr(default: T): T {
      if Some? then value else default
    }
  }

  datatype Result<+T, +E> = Success(value: T) | Failure(error: E)
}

/** Strings are sequences of Unicode scalar values. Lengths that the program
    measures in bytes or UTF-16 code units go through the width of each
    character: section 3 of RFC 3629 and section 2.1 of RFC 2781. */
module Text {
  import opened Wrappers

  function Min(a: nat, b: nat): nat {
    if a <= b then a else b
  }

  function Utf8Len(c: char): (n: nat)
    ensures 1 <= n <= 4
  {
    var code := c as int;
    if code < 0x80 then 1 else if code < 0x800 then 2 else if code < 0x1_0000 then 3 else 4
  }

  function Utf16Len(c: char): (n: nat)
    ensures 1 <= n <= 2
  {
    if c as int < 0x1_0000 then 1 else 2
  }

  /** The length in bytes of the UTF-8 form. */
  function ByteLen(s: string): nat {
    if s == "" then 0 else Utf8Len(s[0]) + ByteLen(s[1..])
  }

  /** The length in UTF-16 code units. */
  function UnitLen(s: string): nat {
    if s == "" then 0 else Utf16Len(s[0]) + UnitLen(s[1..])
  }

  lemma {:induction false} ByteLenConcat(a: string, b: string)
    ensures ByteLen(a + b) == ByteLen(a) + ByteLen(b)
  {
    if a == "" {
      assert a + b == b;
    } else {
      assert (a + b)[1..] == a[1..] + b;
      ByteLenConcat(a[1..], b);
    }
  }

  lemma {:induction false} UnitLenConcat(a: string, b: string)
    ensures UnitLen(a + b) == UnitLen(a) + UnitLen(b)
  {
    if a == "" {
      assert a + b == b;
    } else {
      assert (a + b)[1..] == a[1..] + b;
      UnitLenConcat(a[1..], b);
    }
  }

  lemma {:induction false} ByteLenAtLeastLength(s: string)
    ensures |s| <= ByteLen(s)
  {
    if s != "" {
      ByteLenAtLeastLength(s[1..]);
    }
  }

  lemma {:induction false} ByteLenAtMostFourTimes(s: string)
    ensures ByteLen(s) <= 4 * |s|
  {
    if s != "" {
      ByteLenAtMostFourTimes(s[1..]);
    }
  }

  /** Byte offset `b` falls between two characters of `s`. */
  predicate IsBoundary(s: string, b: nat) {
    b == 0 || (s != "" && Utf8Len(s[0]) <= b && IsBoundary(s[1..], b - Utf8Len(s[0])))
  }

  /** How many characters of `s` lie before byte offset `b`. */
  function CharIndexAt(s: string, b: nat): (i: nat)
    requires IsBoundary(s, b)
    ensures i <= |s|
  {
    if b == 0 then 0 else 1 + CharIndexAt(s[1..], b - Utf8Len(s[0]))
  }

  lemma {:induction false} CharIndexAtInverse(s: string, b: nat)
    requires IsBoundary(s, b)
    ensures ByteLen(s[..CharIndexAt(s, b)]) == b
  {
    if b > 0 {
      var rest := b - Utf8Len(s[0]);
      CharIndexAtInverse(s[1..], rest);
      assert s[..CharIndexAt(s, b)] == [s[0]] + s[1..][..CharIndexAt(s[1..], rest)];
    }
  }

  lemma {:induction false} BoundaryWithin(s: string, b: nat)
    requires IsBoundary(s, b)
    ensures b <= ByteLen(s)
  {
    if b > 0 {
      BoundaryWithin(s[1..], b - Utf8Len(s[0]));
    }
  }

  /** The bytes of the first part of a text end at a boundary. */
  lemma {:induction false} BoundaryAfter(a: string, b: string)
    ensures IsBoundary(a + b, ByteLen(a)) && CharIndexAt(a + b, ByteLen(a)) == |a|
    ensures ByteLen(a) <= ByteLen(a + b)
  {
    ByteLenConcat(a, b);
    if a != "" {
      assert (a + b)[1..] == a[1..] + b;
      BoundaryAfter(a[1..], b);
    }
  }

  /** `pat` occurs in `s` at index `i`. */
  predicate OccursAt(s: string, pat: string, i: nat) {
    i + |pat| <= |s| && s[i..i + |pat|] == pat
  }

  /** The index of the first `c` in `s`. */
  function IndexOf(s: string, c: char): (r: Option<nat>)
    ensures r.Some? ==> r.value < |s| && s[r.value] == c
  {
    if s == "" then None
    else if s[0] == c then Some(0)
    else
      match IndexOf(s[1..], c)
      case None => None
      case Some(i) => Some(i + 1)
  }

  lemma {:induction false} IndexOfIsFirst(s: string, c: char)
    ensures IndexOf(s, c).None? <==> c !in s
    ensures IndexOf(s, c).Some? ==> c !in s[..IndexOf(s, c).value]
  {
    if s != "" && s[0] != c {
      IndexOfIsFirst(s[1..], c);
      if IndexOf(s, c).Some? {
        assert s[..IndexOf(s, c).value] == [s[0]] + s[1..][..IndexOf(s[1..], c).value];
      }
    }
  }

  lemma {:induction false} IndexOfIs(s: string, c: char, i: nat)
    requires i < |s| && s[i] == c && c !in s[..i]
    ensures IndexOf(s, c) == Some(i)
  {
    if i > 0 {
      assert s[0] == s[..i][0] && s[..i][1..] == s[1..][..i - 1];
      IndexOfIs(s[1..], c, i - 1);
    }
  }

  /** The index of the first occurrence of `pat` in `s`. */
  function Find(s: string, pat: string): (r: Option<nat>)
    ensures r.Some? ==> OccursAt(s, pat, r.value)
  {
    if OccursAt(s, pat, 0) then Some(0)
    else if s == "" then None
    else
      match Find(s[1..], pat)
      case None => None
      case Some(i) => assert s[1..][i..i + |pat|] == s[i + 1..i + 1 + |pat|]; Some(i + 1)
  }

  /** No occurrence before the one `Find` returns, and none at all if it
      returns none. */
  lemma {:induction false} FindIsFirst(s: string, pat: string, i: nat)
    requires OccursAt(s, pat, i)
    ensures Find(s, pat).Some? && Find(s, pat).value <= i
  {
    if i > 0 {
      assert s[1..][i - 1..i - 1 + |pat|] == s[i..i + |pat|];
      FindIsFirst(s[1..], pat, i - 1);
    }
  }

  lemma FoundFits(s: string, pat: string)
    ensures Find(s, pat).Some? ==> OccursAt(s, pat, Find(s, pat).value) && Find(s, pat).value + |pat| <= |s|
  {
  }

  lemma FindStep(s: string, pat: string)
    requires s != "" && !OccursAt(s, pat, 0)
    ensures Find(s, pat) == match Find(s[1..], pat) case None => None case Some(i) => Some(i + 1)
  {
  }

  predicate Contains(s: string, pat: string) {
    Find(s, pat).Some?
  }

  /** A first occurrence is unique, so it determines `Find`. */
  lemma FindIs(s: string, pat: string, i: nat)
    requires OccursAt(s, pat, i)
    requires forall j: nat :: j < i ==> !OccursAt(s, pat, j)
    ensures Find(s, pat) == Some(i)
  {
    FindIsFirst(s, pat, i);
  }

  /** The parts around the first `c`. */
  function SplitOnce(s: string, c: char): (r: Option<(string, string)>)
    ensures r.Some? ==> s == r.value.0 + [c] + r.value.1
  {
    match IndexOf(s, c)
    case None => None
    case Some(i) => Some((s[..i], s[i + 1..]))
  }

  lemma SplitOnceAtFirst(s: string, c: char)
    ensures SplitOnce(s, c).None? <==> c !in s
    ensures SplitOnce(s, c).Some? ==> c !in SplitOnce(s, c).value.0
  {
    IndexOfIsFirst(s, c);
  }

  /** Every non-overlapping occurrence of `pat`, from the left, replaced by `with`. */
  function ReplaceAll(s: string, pat: string, with: string): string
    requires pat != ""
    decreases |s|
  {
    if s == "" then ""
    else if pat <= s then with + ReplaceAll(s[|pat|..], pat, with)
    else [s[0]] + ReplaceAll(s[1..], pat, with)
  }

  /** How many non-overlapping occurrences of `pat` a scan from the left meets. */
  function CountOf(s: string, pat: string): nat
    requires pat != ""
    decreases |s|
  {
    if s == "" then 0
    else if pat <= s then 1 + CountOf(s[|pat|..], pat)
    else CountOf(s[1..], pat)
  }

  function Repeat(unit: string, n: nat): string {
    if n == 0 then "" else unit + Repeat(unit, n - 1)
  }

  lemma {:induction false} RepeatByteLen(unit: string, n: nat)
    ensures ByteLen(Repeat(unit, n)) == ByteLen(unit) * n
  {
    if n > 0 {
      RepeatByteLen(unit, n - 1);
      ByteLenConcat(unit, Repeat(unit, n - 1));
      assert ByteLen(unit) * n == ByteLen(unit) + ByteLen(unit) * (n - 1);
    }
  }

  lemma {:induction false} RepeatEnd(unit: string, n: nat)
    ensures Repeat(unit, n) + unit == Repeat(unit, n + 1)
  {
    if n == 0 {
      assert Repeat(unit, 1) == unit + "";
      assert "" + unit == unit + "";
    } else {
      RepeatEnd(unit, n - 1);
      assert (unit + Repeat(unit, n - 1)) + unit == unit + (Repeat(unit, n - 1) + unit);
    }
  }

  function Concat(parts: seq<string>): string {
    if parts == [] then "" else parts[0] + Concat(parts[1..])
  }

  lemma ConcatOne(a: string)
    ensures Concat([a]) == a
  {
    assert Concat([a]) == a + "";
  }

  lemma ConcatTwo(a: string, b: string)
    ensures Concat([a, b]) == a + b
  {
    assert [a, b][1..] == [b];
    ConcatOne(b);
  }

  lemma {:induction false} ConcatAppend(parts: seq<string>, more: seq<string>)
    ensures Concat(parts + more) == Concat(parts) + Concat(more)
  {
    if parts == [] {
      assert parts + more == more;
    } else {
      assert (parts + more)[1..] == parts[1..] + more;
      ConcatAppend(parts[1..], more);
      assert parts[0] + (Concat(parts[1..]) + Concat(more)) == (parts[0] + Concat(parts[1..])) + Concat(more);
    }
  }

  lemma ConcatSnoc(parts: seq<string>, i: nat)
    requires i < |parts|
    ensures Concat(parts[..i + 1]) == Concat(parts[..i]) + parts[i]
  {
    assert parts[..i + 1] == parts[..i] + [parts[i]];
    ConcatAppend(parts[..i], [parts[i]]);
    ConcatOne(parts[i]);
  }

  function Join(parts: seq<string>, sep: string): string {
    if parts == [] then ""
    else if |parts| == 1 then parts[0]
    else parts[0] + sep + Join(parts[1..], sep)
  }

  /** The characters Rust's `char::is_whitespace` accepts (the White_Space
      property of Unicode). */
  predicate IsWhitespace(c: char) {
    var code := c as int;
    || 0x09 <= code <= 0x0D || code == 0x20
    || code == 0x85 || code == 0xA0 || code == 0x1680
    || 0x2000 <= code <= 0x200A || code == 0x2028 || code == 0x2029
    || code == 0x202F || code == 0x205F || code == 0x3000
  }

  /** Empty once surrounding whitespace is trimmed. */
  predicate IsBlank(s: string) {
    forall c <- s :: IsWhitespace(c)
  }

  lemma BlankConcat(a: string, b: string)
    ensures IsBlank(a + b) <==> IsBlank(a) && IsBlank(b)
  {
    assert forall c <- a :: c in a + b;
    assert forall c <- b :: c in a + b;
  }

  predicate IsDigit(c: char) {
    '0' <= c <= '9'
  }

  /** The value of a string of ASCII digits, without bound. */
  function DecimalValue(digits: string): nat
    requires forall c <- digits :: IsDigit(c)
  {
    if digits == "" then 0
    else
      assert IsDigit(digits[|digits| - 1]);
      10 * DecimalValue(digits[..|digits| - 1]) + (digits[|digits| - 1] as int - '0' as int)
  }

  /** What follows `prefix`, which the text must begin with. */
  function Expect(text: string, prefix: string): Option<string> {
    if prefix <= text then Some(text[|prefix|..]) else None
  }

  lemma Expected(prefix: string, rest: string)
    ensures Expect(prefix + rest, prefix) == Some(rest)
  {
    assert (prefix + rest)[|prefix|..] == rest;
  }
}
