/** Which rules the search for unreachable duplicates must flag. */
module HidingExact {
  import opened Wrappers
  import opened Text
  import opened Model
  import opened Matching
  import opened Render
  import opened Validation
  import opened ValidRules
  import opened Blankness
  import opened BlanknessExact
  import opened SelfLoop
  import opened Unreachable

  lemma PresentIsLabelled<T>(field: Option<T>, own: Label, v: T)
    ensures v in PerShell<T>.Present(field) <==> (Some(own), v) in WithLabel(field, own)
  {
  }

  /** Every value of a table is one that validation looks at. */
  lemma ValueIsLabelled<T>(values: PerShell<T>, v: T)
    requires v in values.AllValues()
    ensures exists k :: 0 <= k < |Labelled(values)| && Labelled(values)[k].1 == v
  {
    match values
    case All(w) => assert Labelled(values)[0].1 == v;
    case ByShell(fallback, bash, zsh, pwsh, nu) =>
      hide WithLabel, PerShell<T>.Present;
      PresentIsLabelled(fallback, Fallback, v);
      PresentIsLabelled(bash, BashLabel, v);
      PresentIsLabelled(zsh, ZshLabel, v);
      PresentIsLabelled(pwsh, PwshLabel, v);
      PresentIsLabelled(nu, NuLabel, v);
      var tag :| (tag, v) in Labelled(values);
      var k :| 0 <= k < |Labelled(values)| && Labelled(values)[k] == (tag, v);
  }

  lemma ValidValueFits(re: RegexEngine, rule: Abbr, v: string)
    requires ValidRule(re, rule) && v in rule.expand.AllValues()
    ensures ByteLen(v) <= MAX_EXPAND_BYTES
  {
    hide CheckAbbrKey, ValidCommands, ValidNumberUse, ByteLen, IsBlank, HasControl, HasDeceptive, Labelled;
    ValueIsLabelled(rule.expand, v);
    var k :| 0 <= k < |Labelled(rule.expand)| && Labelled(rule.expand)[k].1 == v;
    assert CheckExpandValue(Labelled(rule.expand)[k].1).None?;
  }

  /** A valid rule that is no regex hides its later duplicates exactly when it
      asks for no commands and, whatever its shell, its entry never renders
      blank and never gives the token back: for a glob a space in the entry
      says so, for a literal key a difference from the key. For a `{number}`
      rule the unit must be free of braces, and one repetition must fit. */
  lemma HidesExactly(re: RegexEngine, rule: Abbr)
    requires ValidRule(re, rule) && rule.matchKind != Some(Regex)
    requires PhaseOf(rule).NumberPhase? ==>
      && rule.number.Some? && '{' !in rule.number.value && '}' !in rule.number.value
      && forall v <- rule.expand.AllValues() ::
           RendersBlank(rule, v, NO_BINDINGS.(number := Some(1))).Some?
    ensures Hides(re, rule) <==>
      && rule.whenCommandExists.None?
      && forall v <- rule.expand.AllValues() ::
           NeverBlank(re, rule, v) && if rule.matchKind.None? then v != rule.key else ' ' in v
  {
    hide ValidRule, NeverBlank, AlwaysBlank, BlanknessOf, RendersBlank, ByteLen, PhaseOf;
    forall v <- rule.expand.AllValues()
      ensures BlanknessOf(re, rule, v) == Never <==> NeverBlank(re, rule, v)
    {
      ValidValueFits(re, rule, v);
      BlanknessIsExact(re, rule, v);
    }
  }

  /** A regex rule does so exactly when it asks for no commands and each of its
      entries has a space and renders visibly even if every group is empty. */
  lemma RegexHidesExactly(re: RegexEngine, rule: Abbr)
    requires rule.matchKind == Some(Regex) && re.groupNames(rule.key).Some?
    ensures var names := re.groupNames(rule.key).value;
      var empty := seq(|names|, i requires 0 <= i < |names| => RegexGroup(names[i], ""));
      Hides(re, rule) <==>
        && rule.whenCommandExists.None?
        && forall v <- rule.expand.AllValues() ::
             ' ' in v && RendersBlank(rule, v, NO_BINDINGS.(regex := Some(empty))) == Some(false)
  {
    hide RendersBlank;
  }

  lemma {:induction false} FirstHidingExactly(re: RegexEngine, rules: Config, id: Identity, n: nat, j: nat)
    requires n <= |rules|
    ensures FirstHiding(re, rules, id, n) == Some(j) <==>
      && j < n && IdentityOf(rules[j]) == id && Hides(re, rules[j])
      && forall k :: 0 <= k < j ==> !(IdentityOf(rules[k]) == id && Hides(re, rules[k]))
  {
    hide Hides;
    if n > 0 {
      FirstHidingExactly(re, rules, id, n - 1, j);
      var earlier := FirstHiding(re, rules, id, n - 1);
      if earlier.None? {
        forall k | 0 <= k < n - 1 ensures !(IdentityOf(rules[k]) == id && Hides(re, rules[k])) {
          if IdentityOf(rules[k]) == id && Hides(re, rules[k]) {
            FirstHidingIsFirst(re, rules, id, n - 1, k);
          }
        }
      }
    }
  }

  /** Exactly the later duplicates of hiding rules are flagged, each with the
      first rule that hides it. */
  lemma {:induction false} FlaggedExactly(re: RegexEngine, rules: Config, n: nat, i: nat, j: nat)
    requires n <= |rules|
    ensures (i, j) in Flagged(re, rules, n) <==>
      && j < i < n && rules[j].key == rules[i].key && rules[j].matchKind == rules[i].matchKind
      && Hides(re, rules[j])
      && forall k :: 0 <= k < j && rules[k].key == rules[i].key && rules[k].matchKind == rules[i].matchKind ==>
           !Hides(re, rules[k])
  {
    hide Hides;
    if n > 0 {
      hide FirstHiding;
      FlaggedExactly(re, rules, n - 1, i, j);
      FirstHidingExactly(re, rules, IdentityOf(rules[n - 1]), n - 1, j);
    }
  }
}
