/** Matching a typed token against the key of one rule. */
module Matching {
  import opened Wrappers
  import opened Text
  import opened Model
  import opened Wildcard

  /** One capture group of a regex key; `text` is empty when the group took
      no part in the match. */
  datatype RegexGroup = RegexGroup(name: Option<string>, text: string)

  /** What a match captured: the count of a `{number}` key, the text of a
      glob key's `*`, or the groups of a regex key. */
  datatype Bindings = Bindings(number: Option<nat>, glob: Option<string>, regex: Option<seq<RegexGroup>>)

  const NO_BINDINGS := Bindings(None, None, None)

  datatype Phase = ExactPhase | NumberPhase | GlobPhase | RegexPhase

  const PHASES := [ExactPhase, NumberPhase, GlobPhase, RegexPhase]

  function PhaseOf(rule: Abbr): Phase {
    match rule.matchKind
    case Some(Glob) => GlobPhase
    case Some(Regex) => RegexPhase
    case None => if '{' in rule.key then NumberPhase else ExactPhase
  }

  function MatchRule(re: RegexEngine, rule: Abbr, token: string): Option<Bindings> {
    match rule.matchKind
    case Some(Glob) =>
      var captured :- MatchGlobKey(rule.key, token);
      Some(NO_BINDINGS.(glob := Some(captured)))
    case Some(Regex) =>
      var groups :- MatchRegexKey(re, rule.key, token);
      Some(NO_BINDINGS.(regex := Some(groups)))
    case None => MatchAbbrKey(rule.key, token)
  }

  // ----- regex keys -----

  function MatchRegexKey(re: RegexEngine, key: string, token: string): Option<seq<RegexGroup>> {
    var names :- re.groupNames(key);
    var texts :- re.captures(key, token);
    Some(seq(|names|, i requires 0 <= i < |names| =>
      RegexGroup(names[i], if texts(i + 1).Some? then texts(i + 1).value else "")))
  }

  // ----- glob keys -----

  predicate GlobFixedPartMatches(pattern: string, text: string) {
    |pattern| == |text| && forall i :: 0 <= i < |pattern| ==> pattern[i] == '?' || pattern[i] == text[i]
  }

  /** `*` matches any text, `?` one character. Returns what the first `*`
      matched, or "" when the key has none. */
  function MatchGlobKey(key: string, token: string): Option<string> {
    match SplitOnce(key, '*')
    case None => if GlobFixedPartMatches(key, token) then Some("") else None
    case Some((head, tail)) =>
      if GlobPartsMatch(head, tail, token) then Some(token[|head|..|token| - |tail|]) else None
  }

  predicate GlobPartsMatch(head: string, tail: string, token: string) {
    && |head| + |tail| <= |token|
    && GlobFixedPartMatches(head, token[..|head|])
    && GlobFixedPartMatches(tail, token[|token| - |tail|..])
  }

  /** At most one `*`, as validation demands of a glob key. */
  predicate AtMostOneStar(key: string) {
    forall i, j :: 0 <= i < j < |key| ==> !(key[i] == '*' && key[j] == '*')
  }

  lemma GlobFixedPartIsPattern(part: string, text: string)
    requires '*' !in part
    ensures GlobFixedPartMatches(part, text) <==> Matches(FromGlob(part), text)
  {
    var p := FromGlob(part);
    assert AnyString !in p;
    FixedMatches(p, text);
    if |p| == |text| {
      forall i | 0 <= i < |p|
        ensures AcceptsChar(p[i], text[i]) <==> part[i] == '?' || part[i] == text[i]
      {
        assert p[i] == GlobChar(part[i]) && part[i] in part;
      }
    }
  }

  /** The parts around the only `*` have none themselves. */
  lemma StarParts(key: string)
    requires AtMostOneStar(key)
    ensures SplitOnce(key, '*').None? ==> '*' !in key
    ensures SplitOnce(key, '*').Some? ==>
      '*' !in SplitOnce(key, '*').value.0 && '*' !in SplitOnce(key, '*').value.1
  {
    SplitOnceAtFirst(key, '*');
    if SplitOnce(key, '*').Some? {
      var (head, tail) := SplitOnce(key, '*').value;
      forall k | 0 <= k < |tail| ensures tail[k] != '*' {
        assert key[|head|] == '*' && key[|head| + 1 + k] == tail[k];
      }
    }
  }

  lemma GlobPatternOfParts(head: string, tail: string)
    ensures FromGlob(head + ['*'] + tail) == FromGlob(head) + ([AnyString] + FromGlob(tail))
  {
    var whole := head + ['*'] + tail;
    var parts := FromGlob(head) + ([AnyString] + FromGlob(tail));
    forall i | 0 <= i < |whole| ensures FromGlob(whole)[i] == parts[i] {
      assert FromGlob(whole)[i] == GlobChar(whole[i]);
    }
  }

  lemma NoStarInPattern(part: string)
    requires '*' !in part
    ensures AnyString !in FromGlob(part)
  {
    forall i | 0 <= i < |part| ensures FromGlob(part)[i] != AnyString {
      assert part[i] in part;
    }
  }

  lemma GlobPartsArePattern(head: string, tail: string, token: string)
    requires '*' !in head && '*' !in tail
    ensures GlobPartsMatch(head, tail, token) <==> Matches(FromGlob(head + ['*'] + tail), token)
  {
    GlobPatternOfParts(head, tail);
    NoStarInPattern(head);
    NoStarInPattern(tail);
    var p, q := FromGlob(head), FromGlob(tail);
    if |head| + |tail| <= |token| {
      GlobFixedPartIsPattern(head, token[..|head|]);
      GlobFixedPartIsPattern(tail, token[|token| - |tail|..]);
    }
    if GlobPartsMatch(head, tail, token) {
      OneStarMatchesEnds(p, [AnyString], q, token);
    } else if Matches(p + ([AnyString] + q), token) {
      OneStarNeedsEnds(p, [AnyString], q, token);
    }
  }

  /** The head/tail comparison accepts exactly the tokens that the general
      wildcard definition accepts. */
  lemma GlobKeyRefinesWildcard(key: string, token: string)
    requires AtMostOneStar(key)
    ensures MatchGlobKey(key, token).Some? <==> Matches(FromGlob(key), token)
  {
    StarParts(key);
    match SplitOnce(key, '*')
    case None => GlobFixedPartIsPattern(key, token);
    case Some((head, tail)) => GlobPartsArePattern(head, tail, token);
  }

  /** The capture is the only text between a head part and a tail part. */
  lemma GlobCaptureIsTheMiddle(key: string, token: string)
    requires SplitOnce(key, '*').Some?
    ensures var (head, tail) := SplitOnce(key, '*').value;
      forall c :: MatchGlobKey(key, token) == Some(c) <==>
        exists h, t :: token == h + c + t && GlobFixedPartMatches(head, h) && GlobFixedPartMatches(tail, t)
  {
    var (head, tail) := SplitOnce(key, '*').value;
    forall c | MatchGlobKey(key, token) == Some(c)
      ensures exists h, t :: token == h + c + t && GlobFixedPartMatches(head, h) && GlobFixedPartMatches(tail, t)
    {
      var h, t := token[..|head|], token[|token| - |tail|..];
      assert token == h + c + t;
    }
    forall c, h, t | token == h + c + t && GlobFixedPartMatches(head, h) && GlobFixedPartMatches(tail, t)
      ensures MatchGlobKey(key, token) == Some(c)
    {
      var middleEnd := |token| - |tail|;
      assert token[..|head|] == h && token[middleEnd..] == t && token[|head|..middleEnd] == c;
    }
  }

  // ----- exact and {number} keys -----

  function MatchAbbrKey(key: string, token: string): Option<Bindings> {
    if '{' !in key then
      if key == token then Some(NO_BINDINGS) else None
    else
      match SplitOnceNumberPlaceholder(key)
      case None => if key == token then Some(NO_BINDINGS) else None
      case Some((prefix, suffix)) =>
        var afterPrefix :- StripPrefix(token, prefix);
        var rest :- StripSuffix(afterPrefix, suffix);
        MatchCount(rest)
  }

  function MatchCount(rest: string): Option<Bindings> {
    if rest == "" || exists c <- rest :: !IsDigit(c) then None
    else
      var n :- ParseU32(rest);
      if n == 0 || n > MAX_NUMERIC_REPEAT then None else Some(NO_BINDINGS.(number := Some(n)))
  }

  lemma MatchCountAccepts(digits: string)
    ensures MatchCount(digits) ==
      if IsCountText(digits) then Some(NO_BINDINGS.(number := Some(DecimalValue(digits)))) else None
  {
    if forall c <- digits :: IsDigit(c) {
      ParseU32IsDecimal(digits);
    }
  }

  function SplitOnceNumberPlaceholder(key: string): (r: Option<(string, string)>)
    ensures r.Some? ==> key == r.value.0 + NUMBER_PLACEHOLDER + r.value.1
  {
    var pos :- Find(key, NUMBER_PLACEHOLDER);
    var prefix, suffix := key[..pos], key[pos + |NUMBER_PLACEHOLDER|..];
    if '{' in prefix || '{' in suffix then None else Some((prefix, suffix))
  }

  function StripPrefix(s: string, prefix: string): (r: Option<string>)
    ensures r.Some? <==> prefix <= s
    ensures r.Some? ==> s == prefix + r.value
  {
    if prefix <= s then Some(s[|prefix|..]) else None
  }

  predicate EndsWith(s: string, suffix: string) {
    |suffix| <= |s| && s[|s| - |suffix|..] == suffix
  }

  function StripSuffix(s: string, suffix: string): (r: Option<string>)
    ensures r.Some? <==> EndsWith(s, suffix)
    ensures r.Some? ==> s == r.value + suffix
  {
    if EndsWith(s, suffix) then Some(s[..|s| - |suffix|]) else None
  }

  const MAX_U32: nat := 0xFFFF_FFFF

  /** Digit by digit with a checked multiplication and addition at each step. */
  function ParseU32(digits: string): Option<nat>
    requires forall c <- digits :: IsDigit(c)
  {
    if digits == "" then Some(0)
    else
      assert IsDigit(digits[|digits| - 1]);
      var high :- ParseU32(digits[..|digits| - 1]);
      var d := digits[|digits| - 1] as int - '0' as int;
      if 10 * high > MAX_U32 || 10 * high + d > MAX_U32 then None else Some(10 * high + d)
  }

  lemma {:induction false} ParseU32IsDecimal(digits: string)
    requires forall c <- digits :: IsDigit(c)
    ensures ParseU32(digits) == if DecimalValue(digits) <= MAX_U32 then Some(DecimalValue(digits)) else None
  {
    if digits != "" {
      ParseU32IsDecimal(digits[..|digits| - 1]);
      assert IsDigit(digits[|digits| - 1]);
    }
  }

  /** Digits whose value lies in the accepted range, leading zeros included. */
  predicate IsCountText(digits: string) {
    digits != "" && (forall c <- digits :: IsDigit(c)) && 1 <= DecimalValue(digits) <= MAX_NUMERIC_REPEAT
  }

  lemma PartsStrip(prefix: string, middle: string, suffix: string)
    ensures StripPrefix(prefix + middle + suffix, prefix) == Some(middle + suffix)
    ensures StripSuffix(middle + suffix, suffix) == Some(middle)
  {
    assert (prefix + middle + suffix)[|prefix|..] == middle + suffix;
    assert (middle + suffix)[..|middle|] == middle;
  }

  /** A `{number}` key accepts, between its prefix and suffix, exactly the
      digit strings worth 1 to 128, whatever their length, and captures that
      value. */
  lemma NumberKeyAccepts(prefix: string, digits: string, suffix: string)
    requires '{' !in prefix && '{' !in suffix
    ensures MatchAbbrKey(prefix + NUMBER_PLACEHOLDER + suffix, prefix + digits + suffix) ==
      if IsCountText(digits) then Some(NO_BINDINGS.(number := Some(DecimalValue(digits)))) else None
  {
    hide MatchCount, IsCountText, DecimalValue, SplitOnceNumberPlaceholder, Find, StripPrefix, StripSuffix;
    SplitsAtNumberPlaceholder(prefix, suffix);
    PartsStrip(prefix, digits, suffix);
    MatchCountAccepts(digits);
  }

  /** And it accepts no other token. */
  lemma NumberKeyNeedsItsParts(prefix: string, suffix: string, token: string) returns (digits: string)
    requires '{' !in prefix && '{' !in suffix
    requires MatchAbbrKey(prefix + NUMBER_PLACEHOLDER + suffix, token).Some?
    ensures token == prefix + digits + suffix && IsCountText(digits)
  {
    SplitsAtNumberPlaceholder(prefix, suffix);
    digits := StripSuffix(StripPrefix(token, prefix).value, suffix).value;
    NumberKeyAccepts(prefix, digits, suffix);
  }

  lemma SplitsAtNumberPlaceholder(prefix: string, suffix: string)
    requires '{' !in prefix && '{' !in suffix
    ensures var key := prefix + NUMBER_PLACEHOLDER + suffix;
      '{' in key && Find(key, NUMBER_PLACEHOLDER) == Some(|prefix|)
      && SplitOnceNumberPlaceholder(key) == Some((prefix, suffix))
  {
    var key := prefix + NUMBER_PLACEHOLDER + suffix;
    assert key[|prefix|] == '{';
    assert OccursAt(key, NUMBER_PLACEHOLDER, |prefix|);
    forall j: nat | j < |prefix| ensures !OccursAt(key, NUMBER_PLACEHOLDER, j) {
      assert prefix[j] in prefix && key[j] == prefix[j];
      assert NUMBER_PLACEHOLDER[0] == '{';
      if j + |NUMBER_PLACEHOLDER| <= |key| {
        assert key[j..j + |NUMBER_PLACEHOLDER|][0] == key[j];
      }
    }
    FindIs(key, NUMBER_PLACEHOLDER, |prefix|);
    assert key[..|prefix|] == prefix && key[|prefix| + |NUMBER_PLACEHOLDER|..] == suffix;
  }

  /** Which rules match depends on the key and its kind only. */
  lemma MatchDependsOnKey(re: RegexEngine, a: Abbr, b: Abbr, token: string)
    requires a.key == b.key && a.matchKind == b.matchKind
    ensures MatchRule(re, a, token) == MatchRule(re, b, token) && PhaseOf(a) == PhaseOf(b)
  {
  }
}
