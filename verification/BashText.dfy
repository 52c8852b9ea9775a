/** The parameter expansions and word readings of bash that the baked
    dispatcher uses, and what each of its concrete patterns picks out. */
module BashText {
  import opened Wrappers
  import opened Text
  import opened Wildcard
  import opened Matching
  import opened Hook

  // ----- removing a matching prefix or suffix -----

  /** The least index at or after `i` at which a matching suffix starts. */
  function FirstSuffix(s: string, p: Pattern, i: nat): (r: Option<nat>)
    requires i <= |s|
    ensures r.Some? ==> i <= r.value <= |s| && Matches(p, s[r.value..])
    decreases |s| - i
  {
    if Matches(p, s[i..]) then Some(i) else if i == |s| then None else FirstSuffix(s, p, i + 1)
  }

  /** The greatest index at or below `i` at which a matching suffix starts. */
  function LastSuffix(s: string, p: Pattern, i: nat): (r: Option<nat>)
    requires i <= |s|
    ensures r.Some? ==> r.value <= i && Matches(p, s[r.value..])
  {
    if Matches(p, s[i..]) then Some(i) else if i == 0 then None else LastSuffix(s, p, i - 1)
  }

  /** The least index at or after `i` at which a matching prefix ends. */
  function FirstPrefix(s: string, p: Pattern, i: nat): (r: Option<nat>)
    requires i <= |s|
    ensures r.Some? ==> i <= r.value <= |s| && Matches(p, s[..r.value])
    decreases |s| - i
  {
    if Matches(p, s[..i]) then Some(i) else if i == |s| then None else FirstPrefix(s, p, i + 1)
  }

  /** The greatest index at or below `i` at which a matching prefix ends. */
  function LastPrefix(s: string, p: Pattern, i: nat): (r: Option<nat>)
    requires i <= |s|
    ensures r.Some? ==> r.value <= i && Matches(p, s[..r.value])
  {
    if Matches(p, s[..i]) then Some(i) else if i == 0 then None else LastPrefix(s, p, i - 1)
  }

  lemma {:induction false} FirstSuffixIsFirst(s: string, p: Pattern, i: nat, j: nat)
    requires i <= j <= |s| && Matches(p, s[j..])
    ensures FirstSuffix(s, p, i).Some? && FirstSuffix(s, p, i).value <= j
    decreases |s| - i
  {
    if !Matches(p, s[i..]) {
      FirstSuffixIsFirst(s, p, i + 1, j);
    }
  }

  lemma {:induction false} LastSuffixIsLast(s: string, p: Pattern, i: nat, j: nat)
    requires j <= i <= |s| && Matches(p, s[j..])
    ensures LastSuffix(s, p, i).Some? && j <= LastSuffix(s, p, i).value
  {
    if !Matches(p, s[i..]) {
      LastSuffixIsLast(s, p, i - 1, j);
    }
  }

  lemma {:induction false} FirstPrefixIsFirst(s: string, p: Pattern, i: nat, j: nat)
    requires i <= j <= |s| && Matches(p, s[..j])
    ensures FirstPrefix(s, p, i).Some? && FirstPrefix(s, p, i).value <= j
    decreases |s| - i
  {
    if !Matches(p, s[..i]) {
      FirstPrefixIsFirst(s, p, i + 1, j);
    }
  }

  lemma {:induction false} LastPrefixIsLast(s: string, p: Pattern, i: nat, j: nat)
    requires j <= i <= |s| && Matches(p, s[..j])
    ensures LastPrefix(s, p, i).Some? && j <= LastPrefix(s, p, i).value
  {
    if !Matches(p, s[..i]) {
      LastPrefixIsLast(s, p, i - 1, j);
    }
  }

  /** ${s%%p} */
  function RemoveLongestSuffix(s: string, p: Pattern): string {
    match FirstSuffix(s, p, 0) case None => s case Some(i) => s[..i]
  }

  /** ${s%p} */
  function RemoveShortestSuffix(s: string, p: Pattern): string {
    match LastSuffix(s, p, |s|) case None => s case Some(i) => s[..i]
  }

  /** ${s#p} */
  function RemoveShortestPrefix(s: string, p: Pattern): string {
    match FirstPrefix(s, p, 0) case None => s case Some(i) => s[i..]
  }

  /** ${s##p} */
  function RemoveLongestPrefix(s: string, p: Pattern): string {
    match LastPrefix(s, p, |s|) case None => s case Some(i) => s[i..]
  }

  // ----- quoted text, and text followed or preceded by anything -----

  function Star(): Pattern { [AnyString] }

  /** A pattern all of whose matches have the same length. */
  predicate FixedPattern(p: Pattern) {
    AnyString !in p
  }

  lemma LiteralIsFixed(lit: string)
    ensures FixedPattern(Literal(lit))
  {
    forall i | 0 <= i < |lit| ensures Literal(lit)[i] != AnyString {
    }
  }

  /** ${s#"$lit"} */
  lemma RemoveLiteralPrefix(s: string, lit: string)
    ensures RemoveShortestPrefix(s, Literal(lit)) == if lit <= s then s[|lit|..] else s
  {
    hide Matches;
    LiteralIsFixed(lit);
    if lit <= s {
      LiteralMatches(lit, s[..|lit|]);
      FirstPrefixIsFirst(s, Literal(lit), 0, |lit|);
    }
    var r := FirstPrefix(s, Literal(lit), 0);
    if r.Some? {
      LiteralMatches(lit, s[..r.value]);
    }
  }

  /** ${s%"$lit"} */
  lemma RemoveLiteralSuffix(s: string, lit: string)
    ensures RemoveShortestSuffix(s, Literal(lit)) == if EndsWith(s, lit) then s[..|s| - |lit|] else s
  {
    hide Matches;
    if EndsWith(s, lit) {
      LiteralMatches(lit, s[|s| - |lit|..]);
      LastSuffixIsLast(s, Literal(lit), |s|, |s| - |lit|);
    }
    var r := LastSuffix(s, Literal(lit), |s|);
    if r.Some? {
      LiteralMatches(lit, s[r.value..]);
    }
  }

  /** ${s#$head} with a glob head that has no `*`. */
  lemma RemoveFixedPrefix(s: string, p: Pattern)
    requires FixedPattern(p) && |p| <= |s| && Matches(p, s[..|p|])
    ensures RemoveShortestPrefix(s, p) == s[|p|..]
  {
    hide Matches;
    FirstPrefixIsFirst(s, p, 0, |p|);
    FixedLength(p, s[..FirstPrefix(s, p, 0).value]);
  }

  /** ${s%$tail} with a glob tail that has no `*`. */
  lemma RemoveFixedSuffix(s: string, p: Pattern)
    requires FixedPattern(p) && |p| <= |s| && Matches(p, s[|s| - |p|..])
    ensures RemoveShortestSuffix(s, p) == s[..|s| - |p|]
  {
    hide Matches;
    LastSuffixIsLast(s, p, |s|, |s| - |p|);
    FixedLength(p, s[LastSuffix(s, p, |s|).value..]);
  }

  lemma OccursIsSuffixMatch(s: string, lit: string, i: nat)
    requires i <= |s|
    ensures Matches(Literal(lit) + Star(), s[i..]) <==> OccursAt(s, lit, i)
  {
    hide Matches;
    var t := s[i..];
    MatchesThenAny(Literal(lit), t);
    if Matches(Literal(lit) + Star(), t) {
      var k: nat :| k <= |t| && Matches(Literal(lit), t[..k]);
      LiteralMatches(lit, t[..k]);
      assert s[i..i + k] == t[..k];
    }
    if OccursAt(s, lit, i) {
      assert t[..|lit|] == s[i..i + |lit|];
      LiteralMatches(lit, t[..|lit|]);
    }
  }

  /** ${s%%"lit"*}: everything before the first occurrence. */
  lemma RemoveFromFirst(s: string, lit: string)
    ensures RemoveLongestSuffix(s, Literal(lit) + Star()) == match Find(s, lit) case None => s case Some(i) => s[..i]
  {
    hide Matches, OccursAt, Find;
    var p := Literal(lit) + Star();
    match Find(s, lit)
    case Some(i) =>
      FoundFits(s, lit);
      OccursIsSuffixMatch(s, lit, i);
      FirstSuffixIsFirst(s, p, 0, i);
      var k := FirstSuffix(s, p, 0).value;
      OccursIsSuffixMatch(s, lit, k);
      FindIsFirst(s, lit, k);
    case None =>
      var r := FirstSuffix(s, p, 0);
      if r.Some? {
        OccursIsSuffixMatch(s, lit, r.value);
        FindIsFirst(s, lit, r.value);
      }
  }

  lemma EndsIsPrefixMatch(s: string, lit: string, j: nat)
    requires j <= |s|
    ensures Matches(Star() + Literal(lit), s[..j]) <==> |lit| <= j && OccursAt(s, lit, j - |lit|)
  {
    hide Matches;
    var t := s[..j];
    MatchesAnyThen(Literal(lit), t);
    if Matches(Star() + Literal(lit), t) {
      var k: nat :| k <= |t| && Matches(Literal(lit), t[k..]);
      LiteralMatches(lit, t[k..]);
      assert s[k..j] == t[k..];
    }
    if |lit| <= j && OccursAt(s, lit, j - |lit|) {
      assert t[j - |lit|..] == s[j - |lit|..j];
      LiteralMatches(lit, t[j - |lit|..]);
    }
  }

  /** ${s#*"lit"}: everything after the first occurrence. */
  lemma RemoveThroughFirst(s: string, lit: string)
    ensures RemoveShortestPrefix(s, Star() + Literal(lit))
         == match Find(s, lit) case None => s case Some(i) => s[i + |lit|..]
  {
    hide Matches, OccursAt, Find;
    var p := Star() + Literal(lit);
    match Find(s, lit)
    case Some(i) =>
      FoundFits(s, lit);
      EndsIsPrefixMatch(s, lit, i + |lit|);
      FirstPrefixIsFirst(s, p, 0, i + |lit|);
      var j := FirstPrefix(s, p, 0).value;
      EndsIsPrefixMatch(s, lit, j);
      FindIsFirst(s, lit, j - |lit|);
    case None =>
      var r := FirstPrefix(s, p, 0);
      if r.Some? {
        EndsIsPrefixMatch(s, lit, r.value);
        FindIsFirst(s, lit, r.value - |lit|);
      }
  }

  lemma {:induction false} LastIndexAtOrAfter(s: string, c: char, k: nat)
    requires k < |s| && s[k] == c
    ensures LastIndexOf(s, c).Some? && k <= LastIndexOf(s, c).value
  {
    if s[|s| - 1] != c {
      LastIndexAtOrAfter(s[..|s| - 1], c, k);
    }
  }

  lemma OneCharOccurs(s: string, c: char, i: nat)
    ensures OccursAt(s, [c], i) <==> i < |s| && s[i] == c
  {
    if i < |s| {
      assert s[i..i + 1] == [s[i]];
    }
  }

  /** A prefix that ends in a space ends at or before the last one. */
  lemma EndsInSpace(s: string, j: nat)
    requires j <= |s|
    ensures Matches(Star() + Literal(" "), s[..j]) <==> 1 <= j && s[j - 1] == ' '
    ensures 1 <= j && s[j - 1] == ' ' ==> LastIndexOf(s, ' ').Some? && j <= LastIndexOf(s, ' ').value + 1
  {
    hide Matches, LastIndexOf, OccursAt, Literal, Star;
    EndsIsPrefixMatch(s, " ", j);
    if 1 <= j {
      OneCharOccurs(s, ' ', j - 1);
      if s[j - 1] == ' ' {
        LastIndexAtOrAfter(s, ' ', j - 1);
      }
    }
  }

  /** ${s##* }: everything after the last space. */
  lemma RemoveThroughLastSpace(s: string)
    ensures RemoveLongestPrefix(s, Star() + Literal(" "))
         == match LastIndexOf(s, ' ') case None => s case Some(i) => s[i + 1..]
  {
    hide Matches, LastPrefix, LastIndexOf;
    var p := Star() + Literal(" ");
    var r := LastPrefix(s, p, |s|);
    if r.Some? {
      EndsInSpace(s, r.value);
    }
    match LastIndexOf(s, ' ')
    case None =>
    case Some(i) =>
      EndsInSpace(s, i + 1);
      LastPrefixIsLast(s, p, |s|, i + 1);
  }

  /** `case "$s" in *"lit"` */
  lemma MatchesEnd(s: string, lit: string)
    ensures Matches(Star() + Literal(lit), s) <==> EndsWith(s, lit)
  {
    hide Matches;
    assert s[..|s|] == s;
    EndsIsPrefixMatch(s, lit, |s|);
  }

  /** `[[ "$s" == *"lit"* ]]` */
  lemma MatchesInside(s: string, lit: string)
    ensures Matches(Star() + (Literal(lit) + Star()), s) <==> Find(s, lit).Some?
  {
    hide Matches, Find, OccursAt;
    var p := Literal(lit) + Star();
    MatchesAnyThen(p, s);
    if Matches(Star() + p, s) {
      var i: nat :| i <= |s| && Matches(p, s[i..]);
      OccursIsSuffixMatch(s, lit, i);
      FindIsFirst(s, lit, i);
    }
    if Find(s, lit).Some? {
      FoundFits(s, lit);
      OccursIsSuffixMatch(s, lit, Find(s, lit).value);
    }
  }

  lemma ClassThenAny(p: Pat, s: string)
    requires !p.AnyString?
    ensures Matches([p] + Star(), s) <==> s != "" && AcceptsChar(p, s[0])
  {
    assert ([p] + Star())[1..] == Star();
    if s != "" {
      AnyStringMatches(s[1..]);
    }
  }

  /** `case "$s" in (*[!0-9]*)` */
  lemma MatchesNonDigit(s: string)
    ensures Matches(Star() + ([NotDigit] + Star()), s) <==> exists c <- s :: !IsDigit(c)
  {
    hide Matches;
    MatchesAnyThen([NotDigit] + Star(), s);
    if Matches(Star() + ([NotDigit] + Star()), s) {
      var i: nat :| i <= |s| && Matches([NotDigit] + Star(), s[i..]);
      ClassThenAny(NotDigit, s[i..]);
      assert s[i] in s && !IsDigit(s[i]);
    }
    if exists c <- s :: !IsDigit(c) {
      var k :| 0 <= k < |s| && !IsDigit(s[k]);
      ClassThenAny(NotDigit, s[k..]);
    }
  }

  /** The digits from the first one that is not zero. */
  function SkipZeros(s: string): string {
    if s != "" && s[0] == '0' then SkipZeros(s[1..]) else s
  }

  lemma {:induction false} SkipZerosSplits(s: string)
    ensures |SkipZeros(s)| <= |s| && SkipZeros(s) == s[|s| - |SkipZeros(s)|..]
    ensures forall i :: 0 <= i < |s| - |SkipZeros(s)| ==> s[i] == '0'
    ensures SkipZeros(s) != "" ==> SkipZeros(s)[0] != '0'
  {
    if s != "" && s[0] == '0' {
      SkipZerosSplits(s[1..]);
      var k := |s[1..]| - |SkipZeros(s)|;
      assert forall i :: 1 <= i < k + 1 ==> s[i] == s[1..][i - 1];
    }
  }

  /** ${s#"${s%%[!0]*}"}: leading zeros removed. */
  lemma RemoveLeadingZeros(s: string)
    ensures RemoveShortestPrefix(s, Literal(RemoveLongestSuffix(s, [NotZero] + Star()))) == SkipZeros(s)
  {
    hide Matches, SkipZeros;
    SkipZerosSplits(s);
    var p := [NotZero] + Star();
    var k := |s| - |SkipZeros(s)|;
    var r := FirstSuffix(s, p, 0);
    if r.Some? {
      ClassThenAny(NotZero, s[r.value..]);
    }
    if k < |s| {
      ClassThenAny(NotZero, s[k..]);
      FirstSuffixIsFirst(s, p, 0, k);
    }
    var zeros := RemoveLongestSuffix(s, p);
    assert zeros == s[..k];
    RemoveLiteralPrefix(s, zeros);
  }

  // ----- reading fields and words -----

  /** The unit separator, octal 037. */
  const US: char := 0x1F as char

  /** `read` takes the input up to the first newline. */
  function FirstLine(s: string): string {
    match IndexOf(s, '\n') case None => s case Some(i) => s[..i]
  }

  /** The last variable of `read` gets the rest of the line, without a lone
      trailing separator. */
  function LastField(s: string): string {
    if s != "" && s[|s| - 1] == US && US !in s[..|s| - 1] then s[..|s| - 1] else s
  }

  /** `IFS=$'\037' read -r` into `n` variables. */
  function SplitFields(s: string, n: nat): (fields: seq<string>)
    requires n >= 1
    ensures |fields| == n
    decreases n
  {
    if n == 1 then [LastField(s)]
    else
      match IndexOf(s, US)
      case None => [s] + SplitFields("", n - 1)
      case Some(i) => [s[..i]] + SplitFields(s[i + 1..], n - 1)
  }

  function ReadFields(entry: string, n: nat): (fields: seq<string>)
    requires n >= 1
    ensures |fields| == n
  {
    SplitFields(FirstLine(entry), n)
  }

  lemma IndexAfter(field: string, rest: string, c: char)
    requires c !in field
    ensures IndexOf(field + [c] + rest, c) == Some(|field|)
  {
    var s := field + [c] + rest;
    assert s[..|field|] == field;
    IndexOfIs(s, c, |field|);
  }

  lemma CutAtSeparator(field: string, rest: string, c: char)
    requires c !in field
    ensures var s := field + [c] + rest;
      IndexOf(s, c) == Some(|field|) && s[..|field|] == field && s[|field| + 1..] == rest
  {
    hide IndexOf;
    IndexAfter(field, rest, c);
  }

  lemma JoinCons(first: string, rest: seq<string>, sep: string)
    requires rest != []
    ensures Join([first] + rest, sep) == first + sep + Join(rest, sep)
  {
    assert ([first] + rest)[1..] == rest;
  }

  lemma SplitFieldsStep(first: string, later: string, n: nat)
    requires n > 1 && US !in first
    ensures SplitFields(first + [US] + later, n) == [first] + SplitFields(later, n - 1)
  {
    hide IndexOf;
    CutAtSeparator(first, later, US);
  }

  lemma OneFieldSplit(field: string)
    requires US !in field
    ensures SplitFields(field, 1) == [field] == SplitFields(Join([field], [US]), 1)
  {
  }

  lemma {:induction false} JoinedFieldsSplit(fields: seq<string>)
    requires fields != [] && forall f <- fields :: US !in f
    ensures SplitFields(Join(fields, [US]), |fields|) == fields
  {
    hide SplitFields, Join;
    var first, rest := fields[0], fields[1..];
    assert first in fields && fields == [first] + rest;
    if rest == [] {
      assert fields == [first];
      OneFieldSplit(first);
    } else {
      assert forall f <- rest :: f in fields;
      JoinCons(first, rest, [US]);
      SplitFieldsStep(first, Join(rest, [US]), |fields|);
      JoinedFieldsSplit(rest);
    }
  }

  lemma {:induction false} JoinHasOnly(fields: seq<string>, sep: string, c: char)
    requires c in Join(fields, sep)
    ensures c in sep || exists f <- fields :: c in f
  {
    if |fields| > 1 && c !in fields[0] && c !in sep {
      JoinHasOnly(fields[1..], sep, c);
    } else if fields != [] {
      assert fields[0] in fields;
    }
  }

  /** Fields without separators or newlines read back from a joined entry. */
  lemma FieldsReadBack(fields: seq<string>)
    requires fields != [] && forall f <- fields :: US !in f && '\n' !in f
    ensures ReadFields(Join(fields, [US]), |fields|) == fields
  {
    var s := Join(fields, [US]);
    IndexOfIsFirst(s, '\n');
    if '\n' in s {
      JoinHasOnly(fields, [US], '\n');
    }
    JoinedFieldsSplit(fields);
  }

  /** The unquoted expansion of a variable under IFS=':'. A separator at the
      very end starts no word. */
  function SplitColons(s: string): seq<string>
    decreases |s|
  {
    if s == "" then []
    else
      match IndexOf(s, ':')
      case None => [s]
      case Some(i) => [s[..i]] + SplitColons(s[i + 1..])
  }

  /** Names without colons, joined by colons, split back into themselves. */
  lemma {:induction false} JoinedNamesSplit(names: seq<string>)
    requires forall n <- names :: n != "" && ':' !in n
    ensures SplitColons(Join(names, ":")) == names
  {
    hide IndexOf;
    if names != [] {
      var first, rest := names[0], names[1..];
      assert first in names && names == [first] + rest;
      if rest == [] {
        IndexOfIsFirst(first, ':');
      } else {
        assert forall n <- rest :: n in names;
        JoinCons(first, rest, ":");
        CutAtSeparator(first, Join(rest, ":"), ':');
        JoinedNamesSplit(rest);
      }
    }
  }
}
