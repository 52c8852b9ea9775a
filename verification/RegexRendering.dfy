/** What a regex rule renders, in terms of the regular-expression engine. */
module RegexRendering {
  import opened Wrappers
  import opened Text
  import opened Model
  import opened Matching
  import opened Render

  /** The text of group `n`, empty when the group took no part in the match. */
  function GroupText(re: RegexEngine, key: string, token: string, n: nat): string {
    var texts := re.captures(key, token);
    if texts.Some? && texts.value(n).Some? then texts.value(n).value else ""
  }

  /** A regex rule matches exactly the tokens for which the engine captures. */
  lemma RegexRuleMatches(re: RegexEngine, rule: Abbr, token: string)
    requires rule.matchKind == Some(Regex)
    ensures MatchRule(re, rule, token).Some? <==>
      re.groupNames(rule.key).Some? && re.captures(rule.key, token).Some?
  {
  }

  /** The bindings of a regex match. */
  ghost predicate RegexMatch(re: RegexEngine, rule: Abbr, token: string, b: Bindings) {
    rule.matchKind == Some(Regex) && MatchRule(re, rule, token) == Some(b)
  }

  lemma RegexBindings(re: RegexEngine, rule: Abbr, token: string, b: Bindings)
    requires RegexMatch(re, rule, token, b)
    ensures b.number.None? && b.glob.None? && b.regex.Some? && re.groupNames(rule.key).Some?
    ensures |b.regex.value| == |re.groupNames(rule.key).value|
    ensures forall i :: 0 <= i < |b.regex.value| ==>
      b.regex.value[i] == RegexGroup(re.groupNames(rule.key).value[i], GroupText(re, rule.key, token, i + 1))
  {
  }

  predicate IsGroupDigit(name: string) {
    |name| == 1 && '1' <= name[0] <= '9'
  }

  /** A braced text is closed by its first closing brace. */
  lemma BracedResolves(name: string, after: string, b: Bindings)
    requires '}' !in name
    ensures var braced := ['{'] + name + ['}'] + after;
      match ResolveCapture(name, b)
      case Some(v) => Filled(braced, b) == v + Filled(after, b)
      case None => Filled(braced, b) == ['{'] + Filled(name + ['}'] + after, b)
  {
    hide Filled, ResolveCapture;
    var braced := ['{'] + name + ['}'] + after;
    var inner := name + ['}'] + after;
    assert braced[1..] == inner && inner[..|name|] == name;
    IndexOfIs(inner, '}', |name|);
    FilledBraced(braced, b);
    assert braced[|name| + 2..] == after;
  }

  lemma BraceFreeTextStays(text: string, after: string, b: Bindings)
    requires '{' !in text
    ensures Filled(text + after, b) == text + Filled(after, b)
  {
    FilledPlainPrefix(text, after, b);
  }

  /** `{1}` to `{9}` stand for the group of that number, counted from one, if
      the key has so many groups; otherwise they stay as they are. */
  lemma NumberedPlaceholder(re: RegexEngine, rule: Abbr, token: string, b: Bindings, n: nat, after: string)
    requires RegexMatch(re, rule, token, b) && 1 <= n <= 9
    ensures var hole := ['{', ('0' as int + n) as char, '}'];
      Filled(hole + after, b) ==
        (if n <= |re.groupNames(rule.key).value| then GroupText(re, rule.key, token, n) else hole) + Filled(after, b)
  {
    hide Filled, MatchRule, GroupText;
    RegexBindings(re, rule, token, b);
    var name := [('0' as int + n) as char];
    BracedResolves(name, after, b);
    assert ['{'] + name + ['}'] + after == ['{', name[0], '}'] + after;
    if n > |re.groupNames(rule.key).value| {
      BraceFreeTextStays(name + ['}'], after, b);
      assert ['{'] + ((name + ['}']) + Filled(after, b)) == ['{', name[0], '}'] + Filled(after, b);
    }
  }

  lemma {:induction false} FirstBearer(groups: seq<RegexGroup>, name: string, i: nat)
    requires i < |groups| && groups[i].name == Some(name) && forall j :: 0 <= j < i ==> groups[j].name != Some(name)
    ensures FindGroup(groups, name) == Some(groups[i].text)
  {
    if i > 0 {
      FirstBearer(groups[1..], name, i - 1);
    }
  }

  lemma {:induction false} NoBearer(groups: seq<RegexGroup>, name: string)
    requires forall j :: 0 <= j < |groups| ==> groups[j].name != Some(name)
    ensures FindGroup(groups, name) == None
  {
    if groups != [] {
      NoBearer(groups[1..], name);
    }
  }

  /** Any other name stands for the first group that bears it. */
  lemma NamedPlaceholder(
    re: RegexEngine, rule: Abbr, token: string, b: Bindings, name: string, i: nat, after: string)
    requires RegexMatch(re, rule, token, b) && '}' !in name && !IsGroupDigit(name) && name != "*"
    requires re.groupNames(rule.key).Some? && i < |re.groupNames(rule.key).value|
    requires re.groupNames(rule.key).value[i] == Some(name)
    requires forall j :: 0 <= j < i ==> re.groupNames(rule.key).value[j] != Some(name)
    ensures Filled(['{'] + name + ['}'] + after, b) == GroupText(re, rule.key, token, i + 1) + Filled(after, b)
  {
    hide Filled, MatchRule, GroupText, FindGroup;
    RegexBindings(re, rule, token, b);
    FirstBearer(b.regex.value, name, i);
    BracedResolves(name, after, b);
  }

  /** A braced text that names no group keeps its brace, and the scan goes on
      right after that brace. */
  lemma UnknownPlaceholder(re: RegexEngine, rule: Abbr, token: string, b: Bindings, name: string, after: string)
    requires RegexMatch(re, rule, token, b) && '}' !in name && !IsGroupDigit(name)
    requires re.groupNames(rule.key).Some?
    requires name == "*" || forall j :: 0 <= j < |re.groupNames(rule.key).value| ==>
      re.groupNames(rule.key).value[j] != Some(name)
    ensures Filled(['{'] + name + ['}'] + after, b) == ['{'] + Filled(name + ['}'] + after, b)
  {
    hide Filled, MatchRule, GroupText, FindGroup;
    RegexBindings(re, rule, token, b);
    if name != "*" {
      NoBearer(b.regex.value, name);
    }
    BracedResolves(name, after, b);
  }

  lemma FilledEmpty(b: Bindings)
    ensures Filled("", b) == ""
  {
  }

  /** An opening brace that is never closed stays, and so does text without
      braces. */
  lemma UnclosedText(plain: string, open: string, b: Bindings)
    requires '{' !in plain && '}' !in open
    ensures Filled(plain, b) == plain && Filled(['{'] + open, b) == ['{'] + Filled(open, b)
  {
    hide Filled;
    BraceFreeTextStays(plain, "", b);
    assert plain + "" == plain;
    FilledEmpty(b);
    var braced := ['{'] + open;
    assert braced[1..] == open;
    IndexOfIsFirst(open, '}');
    FilledBraced(braced, b);
  }

  /** Two groups, as in `(\w+)-(\w+)`, keep their order. */
  lemma GroupsKeepTheirOrder(re: RegexEngine, rule: Abbr, token: string, b: Bindings)
    requires RegexMatch(re, rule, token, b) && |re.groupNames(rule.key).value| == 2
    ensures Filled("git {1} {2}", b)
         == "git " + GroupText(re, rule.key, token, 1) + " " + GroupText(re, rule.key, token, 2)
  {
    hide Filled, RegexMatch, GroupText;
    var one, two := GroupText(re, rule.key, token, 1), GroupText(re, rule.key, token, 2);
    NumberedPlaceholder(re, rule, token, b, 1, " {2}");
    NumberedPlaceholder(re, rule, token, b, 2, "");
    BraceFreeTextStays("git ", "{1} {2}", b);
    BraceFreeTextStays(" ", "{2}", b);
    UnclosedText("", "", b);
    assert "git " + "{1} {2}" == "git {1} {2}";
    assert ['{', '1', '}'] + " {2}" == "{1} {2}";
    assert " " + "{2}" == " {2}";
    assert ['{', '2', '}'] + "" == "{2}";
    assert "git " + (one + (" " + (two + ""))) == "git " + one + " " + two;
  }
}
