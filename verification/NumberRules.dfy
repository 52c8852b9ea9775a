/** The `{number}` rules of a valid configuration, from token to text. */
module NumberRules {
  import opened Wrappers
  import opened Text
  import opened Model
  import opened Matching
  import opened Render
  import opened Validation
  import opened ValidRules

  /** A valid `{number}` rule matches exactly the tokens made of its prefix,
      digits worth 1 to 128, and its suffix; no length of the digits overflows
      into a match or out of one. */
  lemma ValidNumberRuleMatches(re: RegexEngine, rule: Abbr, token: string)
    requires ValidRule(re, rule) && PhaseOf(rule).NumberPhase?
    ensures SplitOnceNumberPlaceholder(rule.key).Some?
    ensures var (prefix, suffix) := SplitOnceNumberPlaceholder(rule.key).value;
      MatchRule(re, rule, token).Some? <==> exists digits :: token == prefix + digits + suffix && IsCountText(digits)
  {
    hide ValidRule, MatchAbbrKey, IsCountText, SplitOnceNumberPlaceholder;
    ValidNumberRule(re, rule);
    var (prefix, suffix) := SplitOnceNumberPlaceholder(rule.key).value;
    NumberPartsHaveNoBrace(rule.key);
    if MatchRule(re, rule, token).Some? {
      var digits := NumberKeyNeedsItsParts(prefix, suffix, token);
    }
    forall digits | token == prefix + digits + suffix && IsCountText(digits)
      ensures MatchRule(re, rule, token).Some?
    {
      NumberKeyAccepts(prefix, digits, suffix);
    }
  }

  lemma NumberPartsHaveNoBrace(key: string)
    requires SplitOnceNumberPlaceholder(key).Some?
    ensures var (prefix, suffix) := SplitOnceNumberPlaceholder(key).value;
      '{' !in prefix && '{' !in suffix && key == prefix + NUMBER_PLACEHOLDER + suffix
  {
  }

  /** For a valid unit and any count a key can capture, the early check on the
      repetition never refuses: the rendering fails only when the whole text
      exceeds the cap. */
  lemma RepetitionNeverRefuses(re: RegexEngine, rule: Abbr, template: string, token: string, b: Bindings)
    requires ValidRule(re, rule) && PhaseOf(rule).NumberPhase? && MatchRule(re, rule, token) == Some(b)
    ensures b.number.Some? && rule.number.Some? && 1 <= b.number.value <= MAX_NUMERIC_REPEAT
    ensures ByteLen(Repeat(rule.number.value, b.number.value)) <= MAX_RENDERED_EXPAND_BYTES
    ensures var full := ReplaceAll(template, NUMBER_PLACEHOLDER, Repeat(rule.number.value, b.number.value));
      RenderNumber(rule, template, b) == if ByteLen(full) > MAX_RENDERED_EXPAND_BYTES then None else Some(full)
  {
    hide ValidRule, ByteLen, ReplaceAll, Repeat, IsCountText, SplitOnceNumberPlaceholder;
    ValidNumberRule(re, rule);
    CountOfMatch(rule.key, token, b);
    var unit, n := rule.number.value, b.number.value;
    RepeatByteLen(unit, n);
    assert ByteLen(unit) <= MAX_NUMBER_UNIT_BYTES;
    ProductFits(ByteLen(unit), n);
  }

  lemma ProductFits(width: nat, n: nat)
    requires width <= MAX_NUMBER_UNIT_BYTES && n <= MAX_NUMERIC_REPEAT
    ensures width * n <= MAX_RENDERED_EXPAND_BYTES
  {
    assert width * n <= MAX_NUMBER_UNIT_BYTES * n;
  }

  lemma CountOfMatch(key: string, token: string, b: Bindings)
    requires '{' in key && SplitOnceNumberPlaceholder(key).Some? && MatchAbbrKey(key, token) == Some(b)
    ensures b.number.Some? && 1 <= b.number.value <= MAX_NUMERIC_REPEAT
  {
    hide SplitOnceNumberPlaceholder, IsCountText, DecimalValue;
    NumberPartsHaveNoBrace(key);
    var (prefix, suffix) := SplitOnceNumberPlaceholder(key).value;
    var digits := NumberKeyNeedsItsParts(prefix, suffix, token);
    NumberKeyAccepts(prefix, digits, suffix);
    CountInRange(digits);
  }

  lemma CountInRange(digits: string)
    requires IsCountText(digits)
    ensures 1 <= DecimalValue(digits) <= MAX_NUMERIC_REPEAT
  {
  }
}
