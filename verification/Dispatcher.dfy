/** The bash program that expands abbreviations without calling back: what a
    lookup in the baked tables finds, and the program itself. */
module Dispatcher {
  import opened Wrappers
  import opened Text
  import opened Model
  import opened Wildcard
  import opened Matching
  import opened Render
  import opened Cursor
  import Hook
  import opened BashText
  import opened BakeTables

  /** What a lookup leaves behind: the text, and the cursor in characters. */
  datatype Hit = Hit(out: string, cursorOff: Option<nat>)

  datatype Tables = Tables(exact: seq<string>, patterns: seq<string>, globs: seq<string>)

  // ----- what one entry does with a token -----

  /** Every name in a colon-separated list is a command. */
  predicate CondsHold(conds: string, commandExists: string -> bool) {
    forall c <- SplitColons(conds) :: commandExists(c)
  }

  /** The text less its first `{}`, unless that is blank. */
  function Shown(text: string): Option<Hit> {
    match SplitAtCursor(text)
    case None => if IsBlank(text) then None else Some(Hit(text, None))
    case Some((left, right)) => if IsBlank(left + right) then None else Some(Hit(left + right, Some(|left|)))
  }

  function TryExact(key: string, template: string, conds: string, token: string, commandExists: string -> bool)
    : Option<Hit>
  {
    if key != token || template == key || !CondsHold(conds, commandExists) then None else Shown(template)
  }

  function CountOfText(rest: string): Option<nat> {
    if IsCountText(rest) then Some(DecimalValue(rest)) else None
  }

  /** The count a token gives between `prefix` and `suffix`. */
  function CountBetween(prefix: string, suffix: string, token: string): Option<nat> {
    var afterPrefix :- StripPrefix(token, prefix);
    var rest :- StripSuffix(afterPrefix, suffix);
    CountOfText(rest)
  }

  /** The template with `n` units for each `{number}`, within the cap. */
  function PatternText(template: string, unit: string, n: nat): Option<string> {
    var repeated := Repeat(unit, n);
    if ByteLen(repeated) > MAX_RENDERED_EXPAND_BYTES then None
    else
      var rendered := ReplaceAll(template, NUMBER_PLACEHOLDER, repeated);
      if ByteLen(rendered) > MAX_RENDERED_EXPAND_BYTES then None else Some(rendered)
  }

  function TryPattern(fields: seq<string>, token: string, commandExists: string -> bool): Option<Hit>
    requires |fields| == 5
  {
    var prefix, suffix, template, unit, conds := fields[0], fields[1], fields[2], fields[3], fields[4];
    var n :- CountBetween(prefix, suffix, token);
    if !CondsHold(conds, commandExists) then None
    else
      var rendered :- PatternText(template, unit, n);
      Shown(rendered)
  }

  /** The template with its captures replaced and its first `{}` removed. */
  function GlobText(template: string, rest: string): Hit {
    match SplitAtCursor(template)
    case None => Hit(ReplaceAll(template, GLOB_CAPTURE_PLACEHOLDER, rest), None)
    case Some((before, after)) =>
      var left := ReplaceAll(before, GLOB_CAPTURE_PLACEHOLDER, rest);
      Hit(left + ReplaceAll(after, GLOB_CAPTURE_PLACEHOLDER, rest), Some(|left|))
  }

  function StrippedBetween(head: string, tail: string, token: string): string {
    RemoveShortestSuffix(RemoveShortestPrefix(token, FromGlob(head)), FromGlob(tail))
  }

  function TryGlob(fields: seq<string>, token: string, commandExists: string -> bool): Option<Hit>
    requires |fields| == 5
  {
    var pattern, head, tail, template, conds := fields[0], fields[1], fields[2], fields[3], fields[4];
    if !Matches(FromGlob(pattern), token) || !CondsHold(conds, commandExists) then None
    else
      var hit := GlobText(template, StrippedBetween(head, tail, token));
      if ByteLen(hit.out) > MAX_RENDERED_EXPAND_BYTES || IsBlank(hit.out) || hit.out == token then None else Some(hit)
  }

  function TryEntry(t: Table, entry: string, token: string, commandExists: string -> bool): Option<Hit> {
    var fields := ReadFields(entry, Width(t));
    match t
    case ExactTable => TryExact(fields[0], fields[1], fields[2], token, commandExists)
    case PatternTable => TryPattern(fields, token, commandExists)
    case GlobTable => TryGlob(fields, token, commandExists)
  }

  /** The first entry of a table that yields something. */
  function FirstHit(t: Table, entries: seq<string>, token: string, commandExists: string -> bool): Option<Hit> {
    if entries == [] then None
    else
      var hit := TryEntry(t, entries[0], token, commandExists);
      if hit.Some? then hit else FirstHit(t, entries[1..], token, commandExists)
  }

  function FindHit(tables: Tables, token: string, commandExists: string -> bool): Option<Hit> {
    var exact := FirstHit(ExactTable, tables.exact, token, commandExists);
    if exact.Some? then exact
    else
      var pattern := FirstHit(PatternTable, tables.patterns, token, commandExists);
      if pattern.Some? then pattern else FirstHit(GlobTable, tables.globs, token, commandExists)
  }

  /** The line and cursor, in characters, that a key press leaves. Only a line
      that expands gets a cursor computed from its text: the typed space just
      moves the cursor it was given. */
  function BakeResult(tables: Tables, line: string, point: nat, commandExists: string -> bool): (string, nat) {
    var i := Min(point, |line|);
    var left, right := line[..i], line[i..];
    match Hook.Candidate(line, i)
    case None => (left + " " + right, point + 1)
    case Some(start) =>
      match FindHit(tables, line[start..i], commandExists)
      case None => (left + " " + right, point + 1)
      case Some(hit) => Inserted(line[..start], hit, right)
  }

  /** The line and cursor once a hit replaces the token between the two parts. */
  function Inserted(prefix: string, hit: Hit, right: string): (string, nat) {
    match hit.cursorOff
    case Some(off) => (prefix + hit.out + right, |prefix| + off)
    case None => (prefix + hit.out + " " + right, |prefix| + |hit.out| + 1)
  }

  // ----- blank text -----

  /** The characters of `$'\t\n\v\f\r '`. */
  predicate IsAsciiBlank(c: char) {
    0x09 <= c as int <= 0x0D || c == ' '
  }

  const MULTIBYTE_WHITESPACE: string :=
    [0x85 as char, 0xA0 as char, 0x1680 as char, 0x2000 as char, 0x2001 as char, 0x2002 as char, 0x2003 as char,
     0x2004 as char, 0x2005 as char, 0x2006 as char, 0x2007 as char, 0x2008 as char, 0x2009 as char, 0x200A as char,
     0x2028 as char, 0x2029 as char, 0x202F as char, 0x205F as char, 0x3000 as char]

  /** ${s//[$'\t\n\v\f\r ']/} */
  function WithoutAsciiBlanks(s: string): string {
    if s == "" then "" else (if IsAsciiBlank(s[0]) then "" else [s[0]]) + WithoutAsciiBlanks(s[1..])
  }

  lemma {:induction false} WithoutAsciiBlanksHas(s: string, c: char)
    ensures c in WithoutAsciiBlanks(s) <==> c in s && !IsAsciiBlank(c)
  {
    if s != "" {
      WithoutAsciiBlanksHas(s[1..], c);
    }
  }

  lemma {:induction false} ReplacedAwayHas(s: string, gone: char, c: char)
    ensures c in ReplaceAll(s, [gone], "") <==> c in s && c != gone
  {
    if s != "" {
      assert [gone] <= s <==> s[0] == gone;
      ReplacedAwayHas(s[1..], gone, c);
    }
  }

  /** The two kinds together are all of Unicode's white space. */
  lemma WhitespaceIsTwoKinds(c: char)
    ensures IsWhitespace(c) <==> IsAsciiBlank(c) || c in MULTIBYTE_WHITESPACE
  {
  }

  // ----- digits -----

  lemma {:induction false} LeadingZero(digits: string)
    requires digits != "" && digits[0] == '0' && forall c <- digits :: IsDigit(c)
    ensures forall c <- digits[1..] :: IsDigit(c)
    ensures DecimalValue(digits[1..]) == DecimalValue(digits)
  {
    if |digits| > 1 {
      var n := |digits| - 1;
      assert digits[1..][..n - 1] == digits[..n][1..];
      LeadingZero(digits[..n]);
    }
  }

  lemma {:induction false} ZerosDoNotCount(digits: string)
    requires forall c <- digits :: IsDigit(c)
    ensures forall c <- SkipZeros(digits) :: IsDigit(c)
    ensures DecimalValue(SkipZeros(digits)) == DecimalValue(digits)
  {
    if digits != "" && digits[0] == '0' {
      LeadingZero(digits);
      ZerosDoNotCount(digits[1..]);
    }
  }

  /** Without a leading zero the first digit is worth at least one, and each
      digit after it multiplies that by ten. */
  lemma {:induction false} DigitsWeigh(digits: string)
    requires digits != "" && digits[0] != '0' && forall c <- digits :: IsDigit(c)
    ensures var v, n := DecimalValue(digits), |digits|;
      v >= 1 && (n > 1 ==> v >= 10) && (n > 2 ==> v >= 100) && (n > 3 ==> v >= 1000)
  {
    var init, last := digits[..|digits| - 1], digits[|digits| - 1];
    assert IsDigit(digits[0]) && IsDigit(last);
    if init != "" {
      DigitsWeigh(init);
    }
  }

  /** The checks the program makes on the digits accept exactly the count
      texts. */
  lemma DigitChecks(rest: string)
    requires rest != "" && forall c <- rest :: IsDigit(c)
    ensures forall c <- SkipZeros(rest) :: IsDigit(c)
    ensures DecimalValue(SkipZeros(rest)) == DecimalValue(rest)
    ensures IsCountText(rest) <==>
      SkipZeros(rest) != "" && |SkipZeros(rest)| <= 3 && DecimalValue(SkipZeros(rest)) <= MAX_NUMERIC_REPEAT
  {
    ZerosDoNotCount(rest);
    SkipZerosSplits(rest);
    if SkipZeros(rest) != "" {
      DigitsWeigh(SkipZeros(rest));
    }
  }

  // ----- trailing spaces -----

  /** ${s: -1} */
  function LastChar(s: string): string {
    if s == "" then "" else s[|s| - 1..]
  }

  /** ${s:0:${#s}-1} */
  function WithoutLast(s: string): string
    requires s != ""
  {
    s[..|s| - 1]
  }

  lemma LastCharIsSpace(s: string)
    ensures LastChar(s) == " " <==> s != "" && s[|s| - 1] == ' '
  {
    if s != "" {
      assert LastChar(s) == [s[|s| - 1]];
    }
  }

  // ----- matching with and without case -----

  /** The lower-case form of an ASCII letter. */
  function Lower(c: char): char {
    if 'A' <= c <= 'Z' then (c as int + 0x20) as char else c
  }

  function Lowered(s: string): (r: string)
    ensures |r| == |s| && forall i :: 0 <= i < |s| ==> r[i] == Lower(s[i])
  {
    seq(|s|, i requires 0 <= i < |s| => Lower(s[i]))
  }

  function LoweredPattern(p: Pattern): (r: Pattern)
    ensures |r| == |p|
    ensures forall i :: 0 <= i < |p| ==> r[i] == if p[i].Lit? then Lit(Lower(p[i].c)) else p[i]
  {
    seq(|p|, i requires 0 <= i < |p| => if p[i].Lit? then Lit(Lower(p[i].c)) else p[i])
  }

  /** The matching of `case` and `[[ == ]]`, which `nocasematch` makes blind to
      the case of letters. */
  predicate CaseMatches(nocase: bool, p: Pattern, s: string) {
    if nocase then Matches(LoweredPattern(p), Lowered(s)) else Matches(p, s)
  }

  function ReplaceAnyCase(s: string, pat: string, with: string): string
    requires pat != ""
    decreases |s|
  {
    if s == "" then ""
    else if Lowered(pat) <= Lowered(s) then with + ReplaceAnyCase(s[|pat|..], pat, with)
    else [s[0]] + ReplaceAnyCase(s[1..], pat, with)
  }

  /** ${s//"pat"/"with"}, which `nocasematch` affects likewise. */
  function Substitute(nocase: bool, s: string, pat: string, with: string): string
    requires pat != ""
  {
    if nocase then ReplaceAnyCase(s, pat, with) else ReplaceAll(s, pat, with)
  }

  lemma CapitalsAreReplaced(capitals: string)
    requires Lowered(capitals) == NUMBER_PLACEHOLDER && capitals != "" && capitals[0] == '{'
    requires !(NUMBER_PLACEHOLDER <= capitals)
    ensures Substitute(true, capitals, NUMBER_PLACEHOLDER, "x") == "x"
    ensures Substitute(false, capitals, NUMBER_PLACEHOLDER, "x")[..1] == "{"
  {
    assert Lowered(NUMBER_PLACEHOLDER) == NUMBER_PLACEHOLDER;
    assert |capitals| == |NUMBER_PLACEHOLDER| && capitals[|NUMBER_PLACEHOLDER|..] == "";
    assert ReplaceAnyCase(capitals, NUMBER_PLACEHOLDER, "x") == "x" + "" == "x";
  }

  lemma LetterMatches()
    ensures CaseMatches(true, FromGlob("A?"), "ab") && !CaseMatches(false, FromGlob("A?"), "ab")
  {
    hide Matches;
    var p := LoweredPattern(FromGlob("A?"));
    assert p[0] == Lit('a') && p[1] == AnyChar && Lowered("ab")[0] == 'a';
    FixedMatches(p, Lowered("ab"));
    FixedMatches(FromGlob("A?"), "ab");
  }

  /** Were the option left on, a glob key would match tokens that the engine's
      does not, and a placeholder would be replaced in capitals too. */
  lemma CaseWouldMatter()
    ensures CaseMatches(true, FromGlob("A?"), "ab") && !CaseMatches(false, FromGlob("A?"), "ab")
    ensures Substitute(true, "{NUMBER}", NUMBER_PLACEHOLDER, "x")
         != Substitute(false, "{NUMBER}", NUMBER_PLACEHOLDER, "x")
  {
    hide CaseMatches, Substitute;
    LetterMatches();
    var capitals := "{NUMBER}";
    assert Lowered(capitals) == NUMBER_PLACEHOLDER && capitals[1] != NUMBER_PLACEHOLDER[1];
    CapitalsAreReplaced(capitals);
  }

  /** `case "$s" in *"&&"|*"||"|*"|"|*";")` */
  predicate OperatorPattern(nocase: bool, s: string) {
    || CaseMatches(nocase, Star() + Literal("&&"), s) || CaseMatches(nocase, Star() + Literal("||"), s)
    || CaseMatches(nocase, Star() + Literal("|"), s) || CaseMatches(nocase, Star() + Literal(";"), s)
  }

  predicate HasNoLetter(s: string) {
    forall i :: 0 <= i < |s| ==> !('A' <= s[i] <= 'Z') && !('a' <= s[i] <= 'z')
  }

  /** A suffix without letters matches the same texts either way. */
  lemma EndWithoutLetters(nocase: bool, lit: string, s: string)
    requires HasNoLetter(lit)
    ensures CaseMatches(nocase, Star() + Literal(lit), s) <==> EndsWith(s, lit)
  {
    hide Matches;
    MatchesEnd(s, lit);
    MatchesEnd(Lowered(s), lit);
    assert LoweredPattern(Star() + Literal(lit)) == Star() + Literal(lit);
    if |lit| <= |s| {
      var from := |s| - |lit|;
      forall i | 0 <= i < |lit| ensures Lowered(s)[from..][i] == lit[i] <==> s[from..][i] == lit[i] {
        assert Lowered(s)[from + i] == Lower(s[from + i]);
      }
    }
  }

  lemma OperatorPatternEnds(nocase: bool, s: string)
    ensures OperatorPattern(nocase, s) <==> Hook.EndsWithPipelineOperator(s)
  {
    hide CaseMatches, EndsWith;
    EndWithoutLetters(nocase, "&&", s);
    EndWithoutLetters(nocase, "||", s);
    EndWithoutLetters(nocase, "|", s);
    EndWithoutLetters(nocase, ";", s);
  }

  /** The last word of a text, and the text before it. */
  lemma LastWord(s: string)
    ensures var word := RemoveLongestPrefix(s, Star() + Literal(" "));
      var start := match Hook.LastIndexOf(s, ' ') case None => 0 case Some(i) => i + 1;
      start <= |s| && word == s[start..] && |s| - |word| == start
  {
    RemoveThroughLastSpace(s);
  }

  /** The part of a line before the cursor, cut where its last word starts. */
  lemma CutLine(line: string, start: nat, i: nat)
    requires start <= i <= |line|
    ensures line[..i][start..] == line[start..i] && line[..i][..start] == line[..start]
  {
  }

  lemma NextIsSpace(line: string, i: nat)
    requires i <= |line|
    ensures (line[i..] != "" && line[i..][..1] != " ") <==> i < |line| && line[i] != ' '
  {
    if i < |line| {
      assert line[i..][..1] == [line[i]];
    }
  }

  /** Where the last word starts, in the hook's terms. */
  lemma WordStart(left: string)
    ensures var word := RemoveLongestPrefix(left, Star() + Literal(" "));
      && |word| <= |left| && word == left[|left| - |word|..]
      && Hook.TokenStartOf(left) == if left == "" then None else Some(|left| - |word|)
  {
    hide RemoveLongestPrefix;
    LastWord(left);
  }

  /** The candidate token, found by removing everything through the last space. */
  lemma CandidateByWord(line: string, i: nat)
    requires i <= |line|
    ensures var left, right := line[..i], line[i..];
      var token := RemoveLongestPrefix(left, Star() + Literal(" "));
      var start := i - |token|;
      && 0 <= start && token == line[start..i] && left[..start] == line[..start]
      && Hook.Candidate(line, i) ==
           if (right != "" && right[..1] != " ") || token == "" || !Hook.IsCommandPosition(line[..start]) then None
           else Some(start)
  {
    hide RemoveLongestPrefix, Hook.IsCommandPosition, Hook.TokenStartOf;
    var left := line[..i];
    var start := i - |RemoveLongestPrefix(left, Star() + Literal(" "))|;
    WordStart(left);
    CutLine(line, start, i);
    NextIsSpace(line, i);
  }

  /** Locating the first `{}` by pattern removal. */
  lemma CursorByRemoval(text: string)
    ensures var pos := RemoveLongestSuffix(text, Literal(CURSOR_PLACEHOLDER) + Star());
      match SplitAtCursor(text)
      case None => pos == text
      case Some(around) =>
        pos != text && pos == around.0
        && RemoveShortestPrefix(text, Star() + Literal(CURSOR_PLACEHOLDER)) == around.1
  {
    hide RemoveLongestSuffix, RemoveShortestPrefix, Find;
    RemoveFromFirst(text, CURSOR_PLACEHOLDER);
    RemoveThroughFirst(text, CURSOR_PLACEHOLDER);
  }

  // ----- the program -----

  class Program {
    const exactTable: seq<string>
    const patternTable: seq<string>
    const globTable: seq<string>
    const commandExists: string -> bool

    var out: string
    var cursorOff: Option<nat>
    var hit: bool
    var condsMet: bool
    var cmdSeen: map<string, bool>
    var len: nat
    var cmdPos: bool
    var nocasematch: bool
    var line: string
    var point: nat

    constructor (tables: Tables, commandExists: string -> bool, line: string, point: nat, nocasematch: bool)
      ensures BakedTables() == tables && this.commandExists == commandExists
      ensures this.line == line && this.point == point && this.nocasematch == nocasematch
    {
      exactTable, patternTable, globTable := tables.exact, tables.patterns, tables.globs;
      this.commandExists := commandExists;
      out, cursorOff, hit, condsMet, cmdSeen, len, cmdPos := "", None, false, false, map[], 0, false;
      this.line, this.point, this.nocasematch := line, point, nocasematch;
    }

    function BakedTables(): Tables {
      Tables(exactTable, patternTable, globTable)
    }

    /** What has been seen of the commands is what there is. */
    predicate SeenIsTrue()
      reads this`cmdSeen
    {
      forall c <- cmdSeen :: cmdSeen[c] == commandExists(c)
    }

    method IsBlankText(text: string) returns (blank: bool)
      requires !nocasematch
      ensures blank == IsBlank(text)
    {
      var rest := WithoutAsciiBlanks(text);
      forall c ensures c in rest <==> c in text && !IsAsciiBlank(c) {
        WithoutAsciiBlanksHas(text, c);
      }
      for k := 0 to |MULTIBYTE_WHITESPACE|
        invariant forall c :: c in rest <==> c in text && !IsAsciiBlank(c) && c !in MULTIBYTE_WHITESPACE[..k]
      {
        ghost var before := rest;
        rest := Substitute(nocasematch, rest, [MULTIBYTE_WHITESPACE[k]], "");
        forall c ensures c in rest <==> c in before && c != MULTIBYTE_WHITESPACE[k] {
          ReplacedAwayHas(before, MULTIBYTE_WHITESPACE[k], c);
        }
        assert MULTIBYTE_WHITESPACE[..k + 1] == MULTIBYTE_WHITESPACE[..k] + [MULTIBYTE_WHITESPACE[k]];
      }
      NothingButWhitespace(text, rest);
      blank := rest == "";
    }

    lemma NothingButWhitespace(text: string, rest: string)
      requires forall c :: c in rest <==>
        c in text && !IsAsciiBlank(c) && c !in MULTIBYTE_WHITESPACE[..|MULTIBYTE_WHITESPACE|]
      ensures rest == "" <==> IsBlank(text)
    {
      hide IsWhitespace, IsAsciiBlank;
      assert MULTIBYTE_WHITESPACE[..|MULTIBYTE_WHITESPACE|] == MULTIBYTE_WHITESPACE;
      forall c ensures c in rest <==> c in text && !IsWhitespace(c) {
        WhitespaceIsTwoKinds(c);
      }
      if rest != "" {
        assert rest[0] in rest;
      }
    }

    method Render(text: string) returns (ok: bool)
      requires !nocasematch
      modifies this`out, this`cursorOff, this`hit
      ensures ok == Shown(text).Some? && hit == (old(hit) || ok)
      ensures Hit(out, cursorOff) == Shown(text).GetOr(Hit("", None))
    {
      hide RemoveLongestSuffix, RemoveShortestPrefix, IsBlank, SplitAtCursor;
      CursorByRemoval(text);
      var pos := RemoveLongestSuffix(text, Literal(CURSOR_PLACEHOLDER) + Star());
      if pos == text {
        out, cursorOff := text, None;
      } else {
        cursorOff := Some(|pos|);
        out := pos + RemoveShortestPrefix(text, Star() + Literal(CURSOR_PLACEHOLDER));
      }
      var blank := IsBlankText(out);
      if blank {
        out, cursorOff := "", None;
        return false;
      }
      hit := true;
      ok := true;
    }

    method CondsMet(conds: string)
      requires SeenIsTrue()
      modifies this`condsMet, this`cmdSeen
      ensures SeenIsTrue() && condsMet == CondsHold(conds, commandExists)
    {
      hide SplitColons;
      condsMet := true;
      if conds == "" {
        NoNames();
        return;
      }
      var names := SplitColons(conds);
      for k := 0 to |names|
        invariant SeenIsTrue() && condsMet == forall c <- names[..k] :: commandExists(c)
      {
        var c := names[k];
        if c !in cmdSeen {
          cmdSeen := cmdSeen[c := commandExists(c)];
        }
        if !cmdSeen[c] {
          condsMet := false;
        }
        assert names[..k + 1] == names[..k] + [c];
      }
      assert names[..|names|] == names;
    }

    lemma NoNames()
      ensures SplitColons("") == []
    {
    }

    method MeasureBytes(text: string)
      modifies this`len
      ensures len == ByteLen(text)
    {
      len := ByteLen(text);
    }

    method ExactLookup(token: string)
      requires !hit && SeenIsTrue() && !nocasematch
      modifies this`out, this`cursorOff, this`hit, this`condsMet, this`cmdSeen
      ensures SeenIsTrue()
      ensures Found(FirstHit(ExactTable, exactTable, token, commandExists))
    {
      hide ReadFields, Shown, CondsHold;
      out, cursorOff := "", None;
      for k := 0 to |exactTable|
        invariant !hit && SeenIsTrue() && out == "" && cursorOff == None
        invariant FirstHit(ExactTable, exactTable, token, commandExists)
               == FirstHit(ExactTable, exactTable[k..], token, commandExists)
      {
        assert exactTable[k..][1..] == exactTable[k + 1..];
        var fields := ReadFields(exactTable[k], 3);
        var key, template, conds := fields[0], fields[1], fields[2];
        if key != token {
          continue;
        }
        if template == key {
          continue;
        }
        CondsMet(conds);
        if !condsMet {
          continue;
        }
        var ok := Render(template);
        if ok {
          return;
        }
      }
    }

    /** The digits as a count, if they are one. */
    method ReadDigits(rest: string) returns (n: Option<nat>)
      requires !nocasematch
      ensures n == CountOfText(rest)
    {
      hide RemoveShortestPrefix, RemoveLongestSuffix, Matches, SkipZeros, DecimalValue;
      n := None;
      if rest == "" {
        return;
      }
      MatchesNonDigit(rest);
      if CaseMatches(nocasematch, Star() + ([NotDigit] + Star()), rest) {
        return;
      }
      DigitChecks(rest);
      RemoveLeadingZeros(rest);
      var digits := RemoveShortestPrefix(rest, Literal(RemoveLongestSuffix(rest, [NotZero] + Star())));
      if digits == "" {
        return;
      }
      if |digits| > 3 {
        return;
      }
      var value := DecimalValue(digits);
      if value > 128 {
        return;
      }
      n := Some(value);
    }

    /** The count between prefix and suffix, found by removing them. */
    method ReadCount(prefix: string, suffix: string, token: string) returns (n: Option<nat>)
      requires !nocasematch
      ensures n == CountBetween(prefix, suffix, token)
    {
      hide RemoveShortestPrefix, RemoveShortestSuffix, CountOfText;
      RemoveLiteralPrefix(token, prefix);
      var rest := RemoveShortestPrefix(token, Literal(prefix));
      if prefix != "" && rest == token {
        return None;
      }
      assert StripPrefix(token, prefix) == Some(rest);
      RemoveLiteralSuffix(rest, suffix);
      assert rest[..|rest|] == rest;
      if suffix != "" {
        if RemoveShortestSuffix(rest, Literal(suffix)) == rest {
          return None;
        }
        rest := RemoveShortestSuffix(rest, Literal(suffix));
      }
      n := ReadDigits(rest);
    }

    method BuildPattern(template: string, unit: string, n: nat) returns (rendered: Option<string>)
      requires !nocasematch
      modifies this`len
      ensures rendered == PatternText(template, unit, n)
    {
      hide ReplaceAll, ByteLen;
      var repeated := "";
      for i := 0 to n
        invariant repeated == Repeat(unit, i)
      {
        RepeatEnd(unit, i);
        repeated := repeated + unit;
      }
      MeasureBytes(repeated);
      if len > 4096 {
        return None;
      }
      var replaced := Substitute(nocasematch, template, NUMBER_PLACEHOLDER, repeated);
      MeasureBytes(replaced);
      if len > 4096 {
        return None;
      }
      rendered := Some(replaced);
    }

    method PatternLookup(token: string)
      requires !hit && SeenIsTrue() && !nocasematch
      modifies this`out, this`cursorOff, this`hit, this`condsMet, this`cmdSeen, this`len
      ensures SeenIsTrue()
      ensures Found(FirstHit(PatternTable, patternTable, token, commandExists))
    {
      hide ReadFields, Shown, CondsHold, CountBetween, PatternText;
      out, cursorOff := "", None;
      for k := 0 to |patternTable|
        invariant !hit && SeenIsTrue() && out == "" && cursorOff == None
        invariant FirstHit(PatternTable, patternTable, token, commandExists)
               == FirstHit(PatternTable, patternTable[k..], token, commandExists)
      {
        assert patternTable[k..][1..] == patternTable[k + 1..];
        var fields := ReadFields(patternTable[k], 5);
        var template, unit, conds := fields[2], fields[3], fields[4];
        var n := ReadCount(fields[0], fields[1], token);
        if n.None? {
          continue;
        }
        CondsMet(conds);
        if !condsMet {
          continue;
        }
        var rendered := BuildPattern(template, unit, n.value);
        if rendered.None? {
          continue;
        }
        var ok := Render(rendered.value);
        if ok {
          return;
        }
      }
    }

    /** The captures filled in, on either side of the first `{}` if there is one. */
    method FillGlob(template: string, rest: string)
      requires !nocasematch
      modifies this`out, this`cursorOff
      ensures Hit(out, cursorOff) == GlobText(template, rest)
    {
      hide RemoveLongestSuffix, RemoveShortestPrefix, ReplaceAll, Find, Matches;
      CursorByRemoval(template);
      MatchesInside(template, CURSOR_PLACEHOLDER);
      if CaseMatches(nocasematch, Star() + (Literal(CURSOR_PLACEHOLDER) + Star()), template) {
        var left := RemoveLongestSuffix(template, Literal(CURSOR_PLACEHOLDER) + Star());
        var right := RemoveShortestPrefix(template, Star() + Literal(CURSOR_PLACEHOLDER));
        left := Substitute(nocasematch, left, GLOB_CAPTURE_PLACEHOLDER, rest);
        right := Substitute(nocasematch, right, GLOB_CAPTURE_PLACEHOLDER, rest);
        out := left + right;
        cursorOff := Some(|left|);
      } else {
        out := Substitute(nocasematch, template, GLOB_CAPTURE_PLACEHOLDER, rest);
        cursorOff := None;
      }
    }

    method GlobLookup(token: string)
      requires !hit && SeenIsTrue() && !nocasematch
      modifies this`out, this`cursorOff, this`hit, this`condsMet, this`cmdSeen, this`len
      ensures SeenIsTrue()
      ensures Found(FirstHit(GlobTable, globTable, token, commandExists))
    {
      hide ReadFields, CondsHold, GlobText, RemoveShortestPrefix, RemoveShortestSuffix, Matches, ByteLen, IsBlank;
      out, cursorOff := "", None;
      for k := 0 to |globTable|
        invariant !hit && SeenIsTrue() && out == "" && cursorOff == None
        invariant FirstHit(GlobTable, globTable, token, commandExists)
               == FirstHit(GlobTable, globTable[k..], token, commandExists)
      {
        assert globTable[k..][1..] == globTable[k + 1..];
        var fields := ReadFields(globTable[k], 5);
        var pattern, head, tail, template, conds := fields[0], fields[1], fields[2], fields[3], fields[4];
        if !CaseMatches(nocasematch, FromGlob(pattern), token) {
          continue;
        }
        CondsMet(conds);
        if !condsMet {
          continue;
        }
        var rest := RemoveShortestPrefix(token, FromGlob(head));
        rest := RemoveShortestSuffix(rest, FromGlob(tail));
        FillGlob(template, rest);
        MeasureBytes(out);
        if len > 4096 {
          out, cursorOff := "", None;
          continue;
        }
        var blank := IsBlankText(out);
        if blank || out == token {
          out, cursorOff := "", None;
          continue;
        }
        hit := true;
        return;
      }
    }

    /** Trailing spaces removed one at a time. */
    method TrimSpaces(text: string) returns (trimmed: string)
      ensures trimmed == Hook.TrimTrailingSpaces(text)
    {
      trimmed := text;
      LastCharIsSpace(trimmed);
      while LastChar(trimmed) == " "
        invariant Hook.TrimTrailingSpaces(trimmed) == Hook.TrimTrailingSpaces(text)
        invariant LastChar(trimmed) == " " <==> trimmed != "" && trimmed[|trimmed| - 1] == ' '
        decreases |trimmed|
      {
        trimmed := WithoutLast(trimmed);
        LastCharIsSpace(trimmed);
      }
    }

    method CheckCommandPosition(prefix: string)
      modifies this`cmdPos
      ensures cmdPos == Hook.IsCommandPosition(prefix)
    {
      hide OperatorPattern, Hook.EndsWithPipelineOperator, RemoveLongestPrefix, Hook.TrimTrailingSpaces;
      var trimmed := TrimSpaces(prefix);
      if trimmed == "" {
        cmdPos := true;
        return;
      }
      OperatorPatternEnds(nocasematch, trimmed);
      if OperatorPattern(nocasematch, trimmed) {
        cmdPos := true;
        return;
      }
      LastWord(trimmed);
      var lastWord := RemoveLongestPrefix(trimmed, Star() + Literal(" "));
      var beforeLast := if lastWord == trimmed then "" else trimmed[..|trimmed| - |lastWord|];
      if lastWord == "sudo" {
        beforeLast := TrimSpaces(beforeLast);
        if beforeLast == "" {
          cmdPos := true;
          return;
        }
        OperatorPatternEnds(nocasematch, beforeLast);
        if OperatorPattern(nocasematch, beforeLast) {
          cmdPos := true;
          return;
        }
      }
      cmdPos := false;
    }

    /** The three lookups in turn, each with case distinguished. */
    method Search(token: string)
      modifies this`out, this`cursorOff, this`hit, this`condsMet, this`cmdSeen, this`len, this`nocasematch
      ensures Found(FindHit(BakedTables(), token, commandExists))
      ensures nocasematch == old(nocasematch)
    {
      hide FirstHit;
      cmdSeen := map[];
      var restoreNocasematch := false;
      if nocasematch {
        restoreNocasematch := true;
        nocasematch := false;
      }
      hit := false;
      ExactLookup(token);
      if !hit {
        PatternLookup(token);
      }
      if !hit {
        GlobLookup(token);
      }
      if restoreNocasematch {
        nocasematch := true;
      }
    }

    /** A key press: `line` and `point` become what `BakeResult` says. */
    method Expand()
      modifies this
      ensures (line, point) == BakeResult(BakedTables(), old(line), old(point), commandExists)
      ensures nocasematch == old(nocasematch)
    {
      hide Hook.IsCommandPosition, FindHit, RemoveLongestPrefix, Hook.Candidate, Inserted;
      var i := Min(point, |line|);
      var left, right := line[..i], line[i..];
      CandidateByWord(line, i);
      if right != "" && right[..1] != " " {
        line, point := left + " " + right, point + 1;
        return;
      }
      var token := RemoveLongestPrefix(left, Star() + Literal(" "));
      if token == "" {
        line, point := left + " " + right, point + 1;
        return;
      }
      var prefix := left[..|left| - |token|];
      CheckCommandPosition(prefix);
      if !cmdPos {
        line, point := left + " " + right, point + 1;
        return;
      }
      Search(token);
      if !hit {
        line, point := left + " " + right, point + 1;
        return;
      }
      Insert(prefix, right);
    }

    /** The text found, in place of the token. */
    method Insert(prefix: string, right: string)
      modifies this`line, this`point
      ensures (line, point) == Inserted(prefix, Hit(out, cursorOff), right)
    {
      if cursorOff.Some? {
        line, point := prefix + out + right, |prefix| + cursorOff.value;
      } else {
        line, point := prefix + out + " " + right, |prefix| + |out| + 1;
      }
    }

    /** The state that reports this outcome. */
    predicate Found(r: Option<Hit>)
      reads this`out, this`cursorOff, this`hit
    {
      hit == r.Some? && Hit(out, cursorOff) == r.GetOr(Hit("", None))
    }
  }
}
